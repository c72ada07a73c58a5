/** Where the verifier finds things: the `proof_*` offsets into the serialised proof,
    the word loads `mload(add(aproof, c))`, and the verifying key the template bakes in. */
module Layout {
  import opened Words
  import opened Field
  import opened Curve

  // Offsets from the `bytes` pointer; they include the 0x20 length word.
  const PROOF_L_COM_X: nat := 0x20
  const PROOF_R_COM_X: nat := 0x60
  const PROOF_O_COM_X: nat := 0xa0
  const PROOF_H_0_X: nat := 0xe0
  const PROOF_H_1_X: nat := 0x120
  const PROOF_H_2_X: nat := 0x160
  const PROOF_L_AT_ZETA: nat := 0x1a0
  const PROOF_R_AT_ZETA: nat := 0x1c0
  const PROOF_O_AT_ZETA: nat := 0x1e0
  const PROOF_S1_AT_ZETA: nat := 0x200
  const PROOF_S2_AT_ZETA: nat := 0x220
  const PROOF_GRAND_PRODUCT_COMMITMENT_X: nat := 0x240
  const PROOF_GRAND_PRODUCT_AT_ZETA_OMEGA: nat := 0x280
  const PROOF_QUOTIENT_POLYNOMIAL_AT_ZETA: nat := 0x2a0
  const PROOF_LINEARISED_POLYNOMIAL_AT_ZETA: nat := 0x2c0
  const PROOF_BATCH_OPENING_AT_ZETA_X: nat := 0x2e0
  const PROOF_OPENING_AT_ZETA_OMEGA_X: nat := 0x320
  const PROOF_OPENINGS_SELECTOR_COMMIT_API_AT_ZETA: nat := 0x360

  /** `vk_coset_shift`. */
  const COSET_SHIFT: Word := 5

  /** The constants the template renders into the contract. `g2` holds the eight words
      g2_srs_0_x_0, .._x_1, .._y_0, .._y_1, then the same for g2_srs_1. */
  datatype VerifyingKey = VerifyingKey(
    domainSize: Word,
    invDomainSize: Word,
    omega: Word,
    ql: G1, qr: G1, qm: G1, qo: G1, qk: G1,
    s1: G1, s2: G1, s3: G1,
    qcp: seq<G1>,
    commitmentIndices: seq<Word>,
    g2: seq<Word>)

  /** `vk_nb_commitments_commit_api`. */
  function NbCommitments(vk: VerifyingKey): nat
  {
    |vk.commitmentIndices|
  }

  /** The template emits one selector commitment per commitment index (gnark's indices
      are 64-bit) and two G2 points. */
  predicate WellFormed(vk: VerifyingKey)
  {
    |vk.qcp| == |vk.commitmentIndices| && |vk.g2| == 8 &&
    forall i :: 0 <= i < |vk.commitmentIndices| ==> vk.commitmentIndices[i] < 0x1_0000_0000_0000_0000
  }

  /** `mload(add(aproof, c))`: the proof's data starts 0x20 bytes after its pointer, so the
      load returns data bytes [c - 0x20, c). `proof` is the memory from the first data
      byte on, which may run past the proof's own length: nothing checks it. */
  function Mload(proof: seq<Byte>, c: nat): (w: Word)
    requires 0x20 <= c <= |proof|
  {
    WordOf(proof[c - 0x20..c])
  }

  /** The point whose x word is loaded at offset c. */
  function PointAt(proof: seq<Byte>, c: nat): G1
    requires 0x20 <= c && c + 0x20 <= |proof|
  {
    G1(Mload(proof, c), Mload(proof, c + 0x20))
  }

  /** The bytes a well-formed proof with k custom-gate commitments occupies. */
  function ProofSize(k: nat): nat
  {
    0x340 + 0x60 * k
  }

  /** A loaded word depends only on the bytes it covers. */
  lemma MloadPrefix(proof: seq<Byte>, other: seq<Byte>, n: nat, c: nat)
    requires 0x20 <= c <= n <= |proof| && n <= |other|
    requires proof[..n] == other[..n]
    ensures Mload(proof, c) == Mload(other, c)
  {
    assert proof[c - 0x20..c] == proof[..n][c - 0x20..c];
    assert other[c - 0x20..c] == other[..n][c - 0x20..c];
  }

  /** Everything the verifier reads from a proof, by the `proof_*` offsets. The custom-gate
      openings start at 0x360 and the k wire commitments follow them at 0x360 + 0x20 k. */
  datatype ProofView = ProofView(
    l: G1, r: G1, o: G1,
    h0: G1, h1: G1, h2: G1,
    lAtZeta: Word, rAtZeta: Word, oAtZeta: Word, s1AtZeta: Word, s2AtZeta: Word,
    z: G1,
    zAtZetaOmega: Word,
    tAtZeta: Word,
    linAtZeta: Word,
    batchOpeningAtZeta: G1,
    openingAtZetaOmega: G1,
    selectorOpenings: seq<Word>,
    wireCommitments: seq<G1>)

  function SelectorOpeningOffset(i: nat): nat
  {
    PROOF_OPENINGS_SELECTOR_COMMIT_API_AT_ZETA + 0x20 * i
  }

  function WireCommitmentOffset(k: nat, i: nat): nat
  {
    PROOF_OPENINGS_SELECTOR_COMMIT_API_AT_ZETA + 0x20 * k + 0x40 * i
  }

  /** n consecutive words loaded from offset c on, as the copy loops read them. */
  function ProofWords(proof: seq<Byte>, c: nat, n: nat): (ws: seq<Word>)
    requires 0x20 <= c && c + 0x20 * n <= |proof| + 0x20
    ensures |ws| == n
  {
    seq(n, j requires 0 <= j < n => ProofWordAt(proof, c, j))
  }

  /** Word j from offset c on. */
  function ProofWordAt(proof: seq<Byte>, c: nat, j: nat): Word
    requires 0x20 <= c && c + 0x20 * j <= |proof|
  {
    Mload(proof, c + 0x20 * j)
  }

  /** The k custom-gate openings `proof_openings_selector_commit_api_at_zeta`. */
  function SelectorOpenings(proof: seq<Byte>, k: nat): (os: seq<Word>)
    requires |proof| >= ProofSize(k)
    ensures |os| == k
  {
    seq(k, i requires 0 <= i < k => Mload(proof, SelectorOpeningOffset(i)))
  }

  /** The k wire commitments that follow them, each as two consecutive words. */
  function WireCommitments(proof: seq<Byte>, k: nat): (ws: seq<G1>)
    requires |proof| >= ProofSize(k)
    ensures |ws| == k
  {
    PointsOf(ProofWords(proof, WireCommitmentOffset(k, 0), 2 * k))
  }

  function View(proof: seq<Byte>, k: nat): (v: ProofView)
    requires |proof| >= ProofSize(k)
    ensures |v.selectorOpenings| == k && |v.wireCommitments| == k
  {
    ProofView(
      PointAt(proof, PROOF_L_COM_X), PointAt(proof, PROOF_R_COM_X), PointAt(proof, PROOF_O_COM_X),
      PointAt(proof, PROOF_H_0_X), PointAt(proof, PROOF_H_1_X), PointAt(proof, PROOF_H_2_X),
      Mload(proof, PROOF_L_AT_ZETA), Mload(proof, PROOF_R_AT_ZETA), Mload(proof, PROOF_O_AT_ZETA),
      Mload(proof, PROOF_S1_AT_ZETA), Mload(proof, PROOF_S2_AT_ZETA),
      PointAt(proof, PROOF_GRAND_PRODUCT_COMMITMENT_X),
      Mload(proof, PROOF_GRAND_PRODUCT_AT_ZETA_OMEGA),
      Mload(proof, PROOF_QUOTIENT_POLYNOMIAL_AT_ZETA),
      Mload(proof, PROOF_LINEARISED_POLYNOMIAL_AT_ZETA),
      PointAt(proof, PROOF_BATCH_OPENING_AT_ZETA_X),
      PointAt(proof, PROOF_OPENING_AT_ZETA_OMEGA_X),
      SelectorOpenings(proof, k), WireCommitments(proof, k))
  }

  lemma ViewWireCommitments(proof: seq<Byte>, k: nat)
    requires |proof| >= ProofSize(k)
    ensures View(proof, k).wireCommitments == WireCommitments(proof, k)
  {
  }

  lemma SelectorOpeningsPrefix(proof: seq<Byte>, other: seq<Byte>, k: nat)
    requires |proof| >= ProofSize(k) && |other| >= ProofSize(k)
    requires proof[..ProofSize(k)] == other[..ProofSize(k)]
    ensures SelectorOpenings(proof, k) == SelectorOpenings(other, k)
  {
    forall i | 0 <= i < k
      ensures SelectorOpenings(proof, k)[i] == SelectorOpenings(other, k)[i]
    {
      MloadPrefix(proof, other, ProofSize(k), SelectorOpeningOffset(i));
    }
  }

  lemma WireCommitmentsPrefix(proof: seq<Byte>, other: seq<Byte>, k: nat)
    requires |proof| >= ProofSize(k) && |other| >= ProofSize(k)
    requires proof[..ProofSize(k)] == other[..ProofSize(k)]
    ensures WireCommitments(proof, k) == WireCommitments(other, k)
  {
    ProofWordsPrefix(proof, other, ProofSize(k), WireCommitmentOffset(k, 0), 2 * k);
  }

  lemma ProofWordsPrefix(proof: seq<Byte>, other: seq<Byte>, n: nat, c: nat, m: nat)
    requires 0x20 <= c && c + 0x20 * m <= n + 0x20 && n <= |proof| && n <= |other|
    requires proof[..n] == other[..n]
    ensures ProofWords(proof, c, m) == ProofWords(other, c, m)
  {
    forall j | 0 <= j < m
      ensures ProofWords(proof, c, m)[j] == ProofWords(other, c, m)[j]
    {
      MloadPrefix(proof, other, n, c + 0x20 * j);
    }
  }

  /** The verdict can only depend on the first 0x340 + 0x60 k bytes: a view is determined
      by them. */
  lemma ViewPrefix(proof: seq<Byte>, other: seq<Byte>, k: nat)
    requires |proof| >= ProofSize(k) && |other| >= ProofSize(k)
    requires proof[..ProofSize(k)] == other[..ProofSize(k)]
    ensures View(proof, k) == View(other, k)
  {
    var n := ProofSize(k);
    SelectorOpeningsPrefix(proof, other, k);
    WireCommitmentsPrefix(proof, other, k);
    forall c: nat | 0x20 <= c <= PROOF_OPENING_AT_ZETA_OMEGA_X + 0x20
      ensures Mload(proof, c) == Mload(other, c)
    {
      MloadPrefix(proof, other, n, c);
    }
  }

  /** The bytes `load_wire_commitments_commit_api` reads: its loop runs 2k times and
      copies two words each time, from the first wire commitment on. */
  function WireReadEnd(k: nat): nat
  {
    WireCommitmentOffset(k, 0) + 0x80 * k - 0x20
  }

  /** Words loaded from c on: the first n, then the rest from c + 0x20 n on. */
  lemma ProofWordsSplit(proof: seq<Byte>, c: nat, n: nat, m: nat)
    requires 0x20 <= c && c + 0x20 * (n + m) <= |proof| + 0x20
    ensures ProofWords(proof, c, n + m) == ProofWords(proof, c, n) + ProofWords(proof, c + 0x20 * n, m)
  {
    var a := ProofWords(proof, c, n + m);
    var b := ProofWords(proof, c, n) + ProofWords(proof, c + 0x20 * n, m);
    forall j | 0 <= j < n + m
      ensures a[j] == b[j]
    {
      if j >= n {
        assert c + 0x20 * n + 0x20 * (j - n) == c + 0x20 * j;
      }
    }
  }

  /** Of the 4k words copied, the first 2k are the k wire commitments; the other 2k are
      loaded from the 0x40 k bytes after a well-formed proof. */
  lemma WireWordsOverrun(proof: seq<Byte>, k: nat)
    requires |proof| >= WireReadEnd(k)
    ensures WireReadEnd(k) == ProofSize(k) + 0x40 * k
    ensures ProofWords(proof, WireCommitmentOffset(k, 0), 4 * k) ==
            PointWords(WireCommitments(proof, k)) + ProofWords(proof, ProofSize(k) + 0x20, 2 * k)
  {
    var c := WireCommitmentOffset(k, 0);
    ProofWordsSplit(proof, c, 2 * k, 2 * k);
    assert c + 0x20 * (2 * k) == ProofSize(k) + 0x20;
    WireWordsArePoints(proof, k);
  }

  /** The k wire commitments, as the words `derive_gamma` copies. */
  lemma WireWordsArePoints(proof: seq<Byte>, k: nat)
    requires |proof| >= ProofSize(k)
    ensures ProofWords(proof, WireCommitmentOffset(k, 0), 2 * k) == PointWords(WireCommitments(proof, k))
  {
    PointWordsOf(ProofWords(proof, WireCommitmentOffset(k, 0), 2 * k));
  }
}

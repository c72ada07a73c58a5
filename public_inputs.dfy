/** Specification of `compute_pi`: the Lagrange-weighted sum of the public inputs, plus
    for each custom-gate commitment its `hash_fr` weighted by the Lagrange value at
    position `index + |public_inputs|`. */
module PublicInputs {
  import opened Words
  import opened Field
  import opened Curve
  import opened Layout
  import opened Lagrange

  /** A running `acc := addmod(acc, mulmod(l_i, x_i, r_mod), r_mod)` over the first n
      pairs; both loops of `compute_pi` have this shape. */
  function WeightedSum(acc: Word, ls: seq<Word>, xs: seq<Word>, n: nat): (s: Word)
    requires n <= |ls| && n <= |xs|
    requires acc < R
    ensures s < R
  {
    if n == 0 then acc else AddMod(WeightedSum(acc, ls, xs, n - 1), MulMod(ls[n - 1], xs[n - 1]))
  }

  /** The inner product of the first n entries, over the integers. */
  function Dot(ls: seq<Word>, xs: seq<Word>, n: nat): int
    requires n <= |ls| && n <= |xs|
  {
    if n == 0 then 0 else Dot(ls, xs, n - 1) + (ls[n - 1] as int) * (xs[n - 1] as int)
  }

  /** The modular accumulation is the integer inner product reduced once. */
  lemma {:induction false} WeightedSumIsDot(acc: Word, ls: seq<Word>, xs: seq<Word>, n: nat)
    requires n <= |ls| && n <= |xs|
    requires acc < R
    ensures WeightedSum(acc, ls, xs, n) == (acc + Dot(ls, xs, n)) % R
  {
    if n == 0 {
      SmallMod(R, acc);
    } else {
      assert WeightedSum(acc, ls, xs, n - 1) == (acc + Dot(ls, xs, n - 1)) % R by {
        WeightedSumIsDot(acc, ls, xs, n - 1);
      }
      StepDot(acc, ls, xs, n);
    }
  }

  lemma StepDot(acc: Word, ls: seq<Word>, xs: seq<Word>, n: nat)
    requires 0 < n <= |ls| && n <= |xs|
    requires acc < R
    requires WeightedSum(acc, ls, xs, n - 1) == (acc + Dot(ls, xs, n - 1)) % R
    ensures WeightedSum(acc, ls, xs, n) == (acc + Dot(ls, xs, n)) % R
  {
    AddModStep(WeightedSum(acc, ls, xs, n - 1), acc + Dot(ls, xs, n - 1), ls[n - 1], xs[n - 1]);
  }

  lemma WeightedSumStep(acc: Word, ls: seq<Word>, xs: seq<Word>, n: nat)
    requires n < |ls| && n < |xs|
    requires acc < R
    ensures WeightedSum(acc, ls, xs, n + 1) == AddMod(WeightedSum(acc, ls, xs, n), MulMod(ls[n], xs[n]))
  {
  }

  /** The sum reads only the first n entries. */
  lemma {:induction false} WeightedSumPrefix(acc: Word, ls: seq<Word>, xs: seq<Word>, ls2: seq<Word>, xs2: seq<Word>, n: nat)
    requires n <= |ls| && n <= |xs| && n <= |ls2| && n <= |xs2|
    requires acc < R
    requires ls[..n] == ls2[..n] && xs[..n] == xs2[..n]
    ensures WeightedSum(acc, ls, xs, n) == WeightedSum(acc, ls2, xs2, n)
  {
    if n > 0 {
      assert ls[..n - 1] == ls[..n][..n - 1] && ls2[..n - 1] == ls2[..n][..n - 1];
      assert xs[..n - 1] == xs[..n][..n - 1] && xs2[..n - 1] == xs2[..n][..n - 1];
      assert ls[n - 1] == ls[..n][n - 1] && ls2[n - 1] == ls2[..n][n - 1];
      assert xs[n - 1] == xs[..n][n - 1] && xs2[n - 1] == xs2[..n][n - 1];
      WeightedSumPrefix(acc, ls, xs, ls2, xs2, n - 1);
    }
  }

  lemma WeightedSumFromZero(ls: seq<Word>, xs: seq<Word>, n: nat)
    requires n <= |ls| && n <= |xs|
    ensures WeightedSum(0, ls, xs, n) == Dot(ls, xs, n) % R
  {
    WeightedSumIsDot(0, ls, xs, n);
  }

  /** What `sum_pi_wo_api_commit` leaves at the free memory pointer. */
  function PiLiteral(vk: VerifyingKey, zeta: Word, pub: seq<Word>): (s: Word)
    ensures s < R
  {
    WeightedSum(0, BatchLagranges(vk, zeta, |pub|), pub, |pub|)
  }

  /** The Lagrange index of every custom-gate commitment fits a word (the checked
      Solidity addition `commitment_indices[i] + public_inputs.length` does not revert). */
  predicate IndicesFit(vk: VerifyingKey, npub: nat)
  {
    forall i :: 0 <= i < |vk.commitmentIndices| ==> vk.commitmentIndices[i] + npub < WORD
  }

  lemma WellFormedIndicesFit(vk: VerifyingKey, npub: nat)
    requires WellFormed(vk) && npub < 0x1_0000_0000_0000_0000
    ensures IndicesFit(vk, npub)
  {
  }

  /** `hash_fr(x, y)` of a point. */
  function HashOf(prims: Primitives, w: G1): Word
  {
    prims.hashFr(w.x, w.y)
  }

  /** `hash_fr` of each wire commitment. */
  function CommitmentHashes(prims: Primitives, ws: seq<G1>): (hs: seq<Word>)
    ensures |hs| == |ws|
  {
    seq(|ws|, i requires 0 <= i < |ws| => HashOf(prims, ws[i]))
  }

  lemma CommitmentHashesAt(prims: Primitives, ws: seq<G1>, hs: seq<Word>)
    requires hs == CommitmentHashes(prims, ws)
    ensures forall j {:trigger HashOf(prims, ws[j])} :: 0 <= j < |ws| ==> hs[j] == HashOf(prims, ws[j])
  {
  }

  /** `compute_ith_lagrange_at_z(zeta, commitment_indices[i] + public_inputs.length)` for
      each commitment (0 where the addition would revert). */
  function CommitmentLagranges(vk: VerifyingKey, zeta: Word, npub: nat): (ls: seq<Word>)
    ensures |ls| == |vk.commitmentIndices|
  {
    seq(|vk.commitmentIndices|, i requires 0 <= i < |vk.commitmentIndices| => CommitmentLagrangeAt(vk, zeta, npub, i))
  }

  lemma CommitmentLagrangesAt(vk: VerifyingKey, zeta: Word, npub: nat, ls: seq<Word>)
    requires ls == CommitmentLagranges(vk, zeta, npub)
    ensures forall j {:trigger CommitmentLagrangeAt(vk, zeta, npub, j)} ::
      0 <= j < |vk.commitmentIndices| ==> ls[j] == CommitmentLagrangeAt(vk, zeta, npub, j)
  {
  }

  function CommitmentLagrangeAt(vk: VerifyingKey, zeta: Word, npub: nat, i: nat): Word
    requires i < |vk.commitmentIndices|
  {
    if vk.commitmentIndices[i] + npub < WORD then IthLagrange(vk, zeta, vk.commitmentIndices[i] + npub) else 0
  }

  /** What `compute_pi` returns. */
  function PiSpec(vk: VerifyingKey, prims: Primitives, ws: seq<G1>, pub: seq<Word>, zeta: Word): (pi: Word)
    requires |ws| == NbCommitments(vk)
    requires IndicesFit(vk, |pub|)
    ensures pi < R
  {
    WeightedSum(PiLiteral(vk, zeta, pub), CommitmentHashes(prims, ws), CommitmentLagranges(vk, zeta, |pub|),
                NbCommitments(vk))
  }

  /** The Lagrange values L_0(ζ) .. L_{n-1}(ζ), each by `compute_ith_lagrange_at_z`. */
  function LagrangeValues(vk: VerifyingKey, zeta: Word, n: nat): (ls: seq<Word>)
    requires n <= WORD
    ensures |ls| == n
  {
    seq(n, i requires 0 <= i < n => IthLagrange(vk, zeta, i))
  }

  /** The batched Lagrange values are the single ones when r is prime and either ω has
      the domain's order or ζ is none of the roots ω^i. */
  lemma BatchLagrangesAreSingle(vk: VerifyingKey, zeta: Word, n: nat)
    requires Fermat()
    requires n < WORD
    requires OmegaOfDomainOrder(vk) || forall j :: 0 <= j < n ==> zeta % R != OmegaPow(vk, j)
    ensures BatchLagranges(vk, zeta, n) == LagrangeValues(vk, zeta, n)
  {
    if OmegaOfDomainOrder(vk) {
      BatchLagrangesAgreeOnDomain(vk, zeta, n);
    } else {
      BatchLagrangesAgree(vk, zeta, n);
    }
  }

  /** Σ L_i(ζ) · pi_i over the integers, with L_i by `compute_ith_lagrange_at_z`. */
  function LiteralDot(vk: VerifyingKey, zeta: Word, pub: seq<Word>): int
    requires |pub| <= WORD
  {
    Dot(LagrangeValues(vk, zeta, |pub|), pub, |pub|)
  }

  /** Σ hash_fr(W_j) · L_{index_j + npub}(ζ) over the integers. */
  function CommitmentDot(vk: VerifyingKey, prims: Primitives, ws: seq<G1>, npub: nat, zeta: Word): int
    requires |ws| == NbCommitments(vk)
    requires IndicesFit(vk, npub)
  {
    Dot(CommitmentHashes(prims, ws), CommitmentLagranges(vk, zeta, npub), NbCommitments(vk))
  }

  /** The literal part is the inner product with the batched Lagrange values, reduced once. */
  lemma PiLiteralIsDotOfBatch(vk: VerifyingKey, zeta: Word, pub: seq<Word>)
    ensures PiLiteral(vk, zeta, pub) == Dot(BatchLagranges(vk, zeta, |pub|), pub, |pub|) % R
  {
    WeightedSumFromZero(BatchLagranges(vk, zeta, |pub|), pub, |pub|);
  }

  /** ... and so with the single Lagrange values when these agree. */
  lemma PiLiteralIsDot(vk: VerifyingKey, zeta: Word, pub: seq<Word>)
    requires Fermat()
    requires |pub| < WORD
    requires OmegaOfDomainOrder(vk) || forall j :: 0 <= j < |pub| ==> zeta % R != OmegaPow(vk, j)
    ensures PiLiteral(vk, zeta, pub) == LiteralDot(vk, zeta, pub) % R
  {
    BatchLagrangesAreSingle(vk, zeta, |pub|);
    PiLiteralIsDotOfBatch(vk, zeta, pub);
  }

  /** The commitments' part, reduced once on top of the literal part. */
  lemma PiSpecIsDot(vk: VerifyingKey, prims: Primitives, ws: seq<G1>, pub: seq<Word>, zeta: Word)
    requires |ws| == NbCommitments(vk)
    requires IndicesFit(vk, |pub|)
    ensures PiSpec(vk, prims, ws, pub, zeta) == (PiLiteral(vk, zeta, pub) + CommitmentDot(vk, prims, ws, |pub|, zeta)) % R
  {
    WeightedSumIsDot(PiLiteral(vk, zeta, pub), CommitmentHashes(prims, ws), CommitmentLagranges(vk, zeta, |pub|),
                     NbCommitments(vk));
  }

  /** `compute_pi` returns Σ L_i(ζ) pi_i + Σ hash_fr(W_j) L_{index_j + |pi|}(ζ) mod r, when
      the batched Lagrange values are the single ones (r prime and ω of the domain's
      order, or ζ off the roots ω^i). */
  lemma PiClosedForm(vk: VerifyingKey, prims: Primitives, ws: seq<G1>, pub: seq<Word>, zeta: Word)
    requires Fermat()
    requires |pub| < WORD
    requires OmegaOfDomainOrder(vk) || forall j :: 0 <= j < |pub| ==> zeta % R != OmegaPow(vk, j)
    requires |ws| == NbCommitments(vk)
    requires IndicesFit(vk, |pub|)
    ensures PiSpec(vk, prims, ws, pub, zeta) ==
      (LiteralDot(vk, zeta, pub) + CommitmentDot(vk, prims, ws, |pub|, zeta)) % R
  {
    PiLiteralIsDot(vk, zeta, pub);
    PiSpecIsDot(vk, prims, ws, pub, zeta);
    AddModChain(R, PiLiteral(vk, zeta, pub), LiteralDot(vk, zeta, pub), CommitmentDot(vk, prims, ws, |pub|, zeta),
                PiSpec(vk, prims, ws, pub, zeta));
  }
}

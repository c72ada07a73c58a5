/** The Fiat-Shamir transcripts: the exact words each challenge derivation stores, the bytes
    it hands to SHA-256 (a word-aligned buffer read from byte 0x1b or 0x1c, so that the
    label's ASCII comes first), and the chain of raw digests. */
module Transcript {
  import opened Words
  import opened Field
  import opened Curve
  import opened Layout

  const GAMMA_LABEL: Word := 0x67616d6d61
  const BETA_LABEL: Word := 0x62657461
  const ALPHA_LABEL: Word := 0x616C706861
  const ZETA_LABEL: Word := 0x7a657461

  const GAMMA_ASCII: seq<Byte> := [0x67, 0x61, 0x6d, 0x6d, 0x61]
  const BETA_ASCII: seq<Byte> := [0x62, 0x65, 0x74, 0x61]
  const ALPHA_ASCII: seq<Byte> := [0x61, 0x6c, 0x70, 0x68, 0x61]
  const ZETA_ASCII: seq<Byte> := [0x7a, 0x65, 0x74, 0x61]

  /** Each label word ends in its name's ASCII, so the hash starts at the first letter.
      (The word is a parameter so that its 32 bytes are not computed out.) */
  lemma GammaAscii(w: Word)
    requires w == GAMMA_LABEL
    ensures WordBytes(w)[27..] == GAMMA_ASCII
  {
    assert ToBytes(GAMMA_LABEL, 5) == GAMMA_ASCII;
    ToBytesLow(w, 32, 5);
  }

  lemma BetaAscii(w: Word)
    requires w == BETA_LABEL
    ensures WordBytes(w)[28..] == BETA_ASCII
  {
    assert ToBytes(BETA_LABEL, 4) == BETA_ASCII;
    ToBytesLow(w, 32, 4);
  }

  lemma AlphaAscii(w: Word)
    requires w == ALPHA_LABEL
    ensures WordBytes(w)[27..] == ALPHA_ASCII
  {
    assert ToBytes(ALPHA_LABEL, 5) == ALPHA_ASCII;
    ToBytesLow(w, 32, 5);
  }

  lemma ZetaAscii(w: Word)
    requires w == ZETA_LABEL
    ensures WordBytes(w)[28..] == ZETA_ASCII
  {
    assert ToBytes(ZETA_LABEL, 4) == ZETA_ASCII;
    ToBytesLow(w, 32, 4);
  }

  /** The bytes of a labelled buffer from byte 32 - n on: the n-letter name, then the rest. */
  lemma LabelledBytes(tag: Word, rest: seq<Word>, n: nat)
    requires n <= 32
    ensures Flatten([tag] + rest)[32 - n..] == WordBytes(tag)[32 - n..] + Flatten(rest)
  {
    assert ([tag] + rest)[0] == tag;
    assert ([tag] + rest)[1..] == rest;
  }

  // ---------------------------------------------------------------- derive_gamma

  /** The verifying-key commitments in the order `derive_gamma` stores them. */
  function VkGammaPoints(vk: VerifyingKey): seq<G1>
  {
    [vk.s1, vk.s2, vk.s3, vk.ql, vk.qr, vk.qm, vk.qo, vk.qk]
  }

  /** The words `derive_gamma` writes from the free memory pointer on: the label, S1..S3,
      Ql, Qr, Qm, Qo, Qk, the public inputs, the k wire commitments (not the k openings
      before them), then L, R, O. */
  function GammaWords(vk: VerifyingKey, v: ProofView, pub: seq<Word>): (ws: seq<Word>)
    ensures |ws| == 23 + |pub| + 2 * |v.wireCommitments|
  {
    [GAMMA_LABEL] + PointWords(VkGammaPoints(vk)) + pub + PointWords(v.wireCommitments) +
    PointWords([v.l, v.r, v.o])
  }

  /** `0x2c5 + 0x20 |pub| + 0x40 k`, the size `derive_gamma` passes to SHA-256. */
  function GammaSize(k: nat, npub: nat): nat
  {
    0x2c5 + npub * 0x20 + k * 0x40
  }

  function GammaPreimage(vk: VerifyingKey, v: ProofView, pub: seq<Word>): seq<Byte>
  {
    Flatten(GammaWords(vk, v, pub))[27..]
  }

  /** The size covers the buffer exactly: 5 + 32 (22 + |pub| + 2k) bytes, "gamma" first,
      then every other stored word in order. */
  lemma GammaPreimageShape(vk: VerifyingKey, v: ProofView, pub: seq<Word>)
    ensures |GammaPreimage(vk, v, pub)| == GammaSize(|v.wireCommitments|, |pub|)
    ensures GammaSize(|v.wireCommitments|, |pub|) == 5 + 32 * (22 + |pub| + 2 * |v.wireCommitments|)
    ensures GammaPreimage(vk, v, pub) ==
      GAMMA_ASCII + Flatten(PointWords(VkGammaPoints(vk)) + pub + PointWords(v.wireCommitments) +
                            PointWords([v.l, v.r, v.o]))
  {
    var rest := PointWords(VkGammaPoints(vk)) + pub + PointWords(v.wireCommitments) +
                PointWords([v.l, v.r, v.o]);
    assert GammaWords(vk, v, pub) == [GAMMA_LABEL] + rest;
    LabelledBytes(GAMMA_LABEL, rest, 5);
    GammaAscii(GAMMA_LABEL);
  }

  // ---------------------------------------------------------------- beta, alpha, zeta

  function BetaWords(prev: Word): seq<Word>
  {
    [BETA_LABEL, prev]
  }

  function BetaPreimage(prev: Word): seq<Byte>
  {
    Flatten(BetaWords(prev))[28..]
  }

  function AlphaWords(prev: Word, v: ProofView): seq<Word>
  {
    [ALPHA_LABEL, prev, v.z.x, v.z.y]
  }

  function AlphaPreimage(prev: Word, v: ProofView): seq<Byte>
  {
    Flatten(AlphaWords(prev, v))[27..]
  }

  function ZetaWords(prev: Word, v: ProofView): seq<Word>
  {
    [ZETA_LABEL, prev, v.h0.x, v.h0.y, v.h1.x, v.h1.y, v.h2.x, v.h2.y]
  }

  function ZetaPreimage(prev: Word, v: ProofView): seq<Byte>
  {
    Flatten(ZetaWords(prev, v))[28..]
  }

  /** beta hashes 0x24 bytes: "beta", then the previous raw digest. */
  lemma BetaPreimageShape(prev: Word)
    ensures BetaPreimage(prev) == BETA_ASCII + WordBytes(prev)
    ensures |BetaPreimage(prev)| == 0x24
  {
    BetaAscii(BETA_LABEL);
    LabelledBytes(BETA_LABEL, [prev], 4);
    assert BetaWords(prev) == [BETA_LABEL] + [prev];
    assert Flatten([prev]) == WordBytes(prev) + Flatten([]);
  }

  /** alpha hashes 0x65 bytes: "alpha", the previous raw digest, then [Z]. */
  lemma AlphaPreimageShape(prev: Word, v: ProofView)
    ensures AlphaPreimage(prev, v) == ALPHA_ASCII + Flatten([prev, v.z.x, v.z.y])
    ensures |AlphaPreimage(prev, v)| == 0x65
  {
    AlphaAscii(ALPHA_LABEL);
    LabelledBytes(ALPHA_LABEL, [prev, v.z.x, v.z.y], 5);
    assert AlphaWords(prev, v) == [ALPHA_LABEL] + [prev, v.z.x, v.z.y];
  }

  /** zeta hashes 0xe4 bytes: "zeta", the previous raw digest, then [H0], [H1], [H2]. */
  lemma ZetaPreimageShape(prev: Word, v: ProofView)
    ensures ZetaPreimage(prev, v) ==
      ZETA_ASCII + Flatten([prev, v.h0.x, v.h0.y, v.h1.x, v.h1.y, v.h2.x, v.h2.y])
    ensures |ZetaPreimage(prev, v)| == 0xe4
  {
    ZetaAscii(ZETA_LABEL);
    LabelledBytes(ZETA_LABEL, [prev, v.h0.x, v.h0.y, v.h1.x, v.h1.y, v.h2.x, v.h2.y], 4);
    assert ZetaWords(prev, v) == [ZETA_LABEL] + [prev, v.h0.x, v.h0.y, v.h1.x, v.h1.y, v.h2.x, v.h2.y];
  }

  // ---------------------------------------------------------------- the chain

  datatype Challenges = Challenges(gamma: Word, beta: Word, alpha: Word, zeta: Word)

  /** `derive_gamma_beta_alpha_zeta`: each step hashes the previous raw digest; the four
      digests are reduced mod r only at the end. */
  function DeriveChallenges(vk: VerifyingKey, prims: Primitives, v: ProofView, pub: seq<Word>): (c: Challenges)
    ensures c.gamma < R && c.beta < R && c.alpha < R && c.zeta < R
  {
    ModuliAreWords();
    var gamma := prims.sha256(GammaPreimage(vk, v, pub));
    var beta := prims.sha256(BetaPreimage(gamma));
    var alpha := prims.sha256(AlphaPreimage(beta, v));
    var zeta := prims.sha256(ZetaPreimage(alpha, v));
    Challenges(gamma % R, beta % R, alpha % R, zeta % R)
  }

  /** Feeding the raw digest is observable: a digest of r or more gives a different next
      transcript than its reduction would. */
  lemma RawDigestFed(d: Word, v: ProofView)
    requires d >= R
    ensures d % R < WORD
    ensures BetaPreimage(d) != BetaPreimage(d % R)
    ensures AlphaPreimage(d, v) != AlphaPreimage(d % R, v)
    ensures ZetaPreimage(d, v) != ZetaPreimage(d % R, v)
  {
    ModuliAreWords();
    var e: Word := d % R;
    if WordBytes(d) == WordBytes(e) {
      WordBytesInjective(d, e);
    }
    DigestInBeta(d, e);
    DigestInAlpha(d, e, v);
    DigestInZeta(d, e, v);
  }

  lemma DigestInBeta(d: Word, e: Word)
    requires WordBytes(d) != WordBytes(e)
    ensures BetaPreimage(d) != BetaPreimage(e)
  {
    BetaPreimageShape(d);
    BetaPreimageShape(e);
    assert BetaPreimage(d)[4..] == WordBytes(d);
    assert BetaPreimage(e)[4..] == WordBytes(e);
  }

  lemma DigestInAlpha(d: Word, e: Word, v: ProofView)
    requires WordBytes(d) != WordBytes(e)
    ensures AlphaPreimage(d, v) != AlphaPreimage(e, v)
  {
    AlphaPreimageShape(d, v);
    AlphaPreimageShape(e, v);
    assert Flatten([d, v.z.x, v.z.y])[..32] == WordBytes(d);
    assert Flatten([e, v.z.x, v.z.y])[..32] == WordBytes(e);
    assert AlphaPreimage(d, v)[5..37] == WordBytes(d);
    assert AlphaPreimage(e, v)[5..37] == WordBytes(e);
  }

  lemma DigestInZeta(d: Word, e: Word, v: ProofView)
    requires WordBytes(d) != WordBytes(e)
    ensures ZetaPreimage(d, v) != ZetaPreimage(e, v)
  {
    ZetaPreimageShape(d, v);
    ZetaPreimageShape(e, v);
    assert Flatten([d, v.h0.x, v.h0.y, v.h1.x, v.h1.y, v.h2.x, v.h2.y])[..32] == WordBytes(d);
    assert Flatten([e, v.h0.x, v.h0.y, v.h1.x, v.h1.y, v.h2.x, v.h2.y])[..32] == WordBytes(e);
    assert ZetaPreimage(d, v)[4..36] == WordBytes(d);
    assert ZetaPreimage(e, v)[4..36] == WordBytes(e);
  }

  // ---------------------------------------------------------------- the words as loaded

  /** The words `derive_gamma` stores, as it loads them from the proof: the wire commitments
      by a loop over consecutive words from 0x360 + 0x20 k, then L, R, O from 0x20 on. */
  function GammaWordsOf(vk: VerifyingKey, proof: seq<Byte>, pub: seq<Word>): (ws: seq<Word>)
    requires |proof| >= ProofSize(NbCommitments(vk))
    ensures |ws| == 23 + |pub| + 2 * NbCommitments(vk)
  {
    ([GAMMA_LABEL] + PointWords(VkGammaPoints(vk))) + pub +
    ProofWords(proof, WireCommitmentOffset(NbCommitments(vk), 0), 2 * NbCommitments(vk)) +
    ProofWords(proof, PROOF_L_COM_X, 6)
  }

  /** The words `derive_alpha` stores: the label, the previous digest, then [Z] from 0x240. */
  function AlphaWordsOf(prev: Word, proof: seq<Byte>): (ws: seq<Word>)
    requires |proof| >= PROOF_GRAND_PRODUCT_COMMITMENT_X + 0x20
    ensures |ws| == 4
  {
    [ALPHA_LABEL, prev] + ProofWords(proof, PROOF_GRAND_PRODUCT_COMMITMENT_X, 2)
  }

  /** The words `derive_zeta` stores: the label, the previous digest, then [H0], [H1], [H2]
      from 0xe0. */
  function ZetaWordsOf(prev: Word, proof: seq<Byte>): (ws: seq<Word>)
    requires |proof| >= PROOF_H_2_X + 0x40
    ensures |ws| == 8
  {
    [ZETA_LABEL, prev] + ProofWords(proof, PROOF_H_0_X, 6)
  }

  /** The six words from 0x20 on are the points [L], [R], [O]. */
  lemma LroWords(proof: seq<Byte>)
    requires |proof| >= PROOF_O_COM_X + 0x40
    ensures ProofWords(proof, PROOF_L_COM_X, 6) ==
            PointWords([PointAt(proof, PROOF_L_COM_X), PointAt(proof, PROOF_R_COM_X), PointAt(proof, PROOF_O_COM_X)])
  {
    var lro := ProofWords(proof, PROOF_L_COM_X, 6);
    var pw := PointWords([PointAt(proof, PROOF_L_COM_X), PointAt(proof, PROOF_R_COM_X), PointAt(proof, PROOF_O_COM_X)]);
    forall j | 0 <= j < 6
      ensures lro[j] == pw[j]
    {
      assert lro[j] == Mload(proof, PROOF_L_COM_X + 0x20 * j);
      assert pw[0] == lro[0] && pw[2] == lro[2] && pw[4] == lro[4];
      assert pw[1] == lro[1] && pw[3] == lro[3] && pw[5] == lro[5];
    }
  }

  /** The loaded words are those of the proof's view. */
  lemma GammaWordsOfView(vk: VerifyingKey, proof: seq<Byte>, pub: seq<Word>)
    requires |proof| >= ProofSize(NbCommitments(vk))
    ensures GammaWordsOf(vk, proof, pub) == GammaWords(vk, View(proof, NbCommitments(vk)), pub)
  {
    var v := View(proof, NbCommitments(vk));
    WireWordsArePoints(proof, NbCommitments(vk));
    LroWords(proof);
    assert [v.l, v.r, v.o] ==
      [PointAt(proof, PROOF_L_COM_X), PointAt(proof, PROOF_R_COM_X), PointAt(proof, PROOF_O_COM_X)];
  }

  lemma AlphaWordsOfView(prev: Word, proof: seq<Byte>, k: nat)
    requires |proof| >= ProofSize(k)
    ensures AlphaWordsOf(prev, proof) == AlphaWords(prev, View(proof, k))
  {
    var ws := ProofWords(proof, PROOF_GRAND_PRODUCT_COMMITMENT_X, 2);
    assert ws[0] == Mload(proof, PROOF_GRAND_PRODUCT_COMMITMENT_X);
    assert ws[1] == Mload(proof, PROOF_GRAND_PRODUCT_COMMITMENT_X + 0x20);
  }

  lemma ZetaWordsOfView(prev: Word, proof: seq<Byte>, k: nat)
    requires |proof| >= ProofSize(k)
    ensures ZetaWordsOf(prev, proof) == ZetaWords(prev, View(proof, k))
  {
    HWords(proof);
    ViewH(proof, k);
    ZetaWordsPoints(prev, View(proof, k));
  }

  /** The six words from `proof_h_0_x` on are the points [H0], [H1], [H2]. */
  lemma HWords(proof: seq<Byte>)
    requires |proof| >= PROOF_H_2_X + 0x40
    ensures ProofWords(proof, PROOF_H_0_X, 6) ==
            PointWords([PointAt(proof, PROOF_H_0_X), PointAt(proof, PROOF_H_1_X), PointAt(proof, PROOF_H_2_X)])
  {
    var hs := ProofWords(proof, PROOF_H_0_X, 6);
    var pw := PointWords([PointAt(proof, PROOF_H_0_X), PointAt(proof, PROOF_H_1_X), PointAt(proof, PROOF_H_2_X)]);
    forall j | 0 <= j < 6
      ensures hs[j] == pw[j]
    {
      assert hs[j] == Mload(proof, PROOF_H_0_X + 0x20 * j);
      assert pw[0] == hs[0] && pw[2] == hs[2] && pw[4] == hs[4];
      assert pw[1] == hs[1] && pw[3] == hs[3] && pw[5] == hs[5];
    }
  }

  lemma ViewH(proof: seq<Byte>, k: nat)
    requires |proof| >= ProofSize(k)
    ensures [View(proof, k).h0, View(proof, k).h1, View(proof, k).h2] ==
            [PointAt(proof, PROOF_H_0_X), PointAt(proof, PROOF_H_1_X), PointAt(proof, PROOF_H_2_X)]
  {
  }

  lemma ZetaWordsPoints(prev: Word, v: ProofView)
    ensures ZetaWords(prev, v) == [ZETA_LABEL, prev] + PointWords([v.h0, v.h1, v.h2])
  {
    var hs := [v.h0, v.h1, v.h2];
    var pw := PointWords(hs);
    assert pw[2 * 0] == hs[0].x && pw[2 * 0 + 1] == hs[0].y;
    assert pw[2 * 1] == hs[1].x && pw[2 * 1 + 1] == hs[1].y;
    assert pw[2 * 2] == hs[2].x && pw[2 * 2 + 1] == hs[2].y;
    assert pw == [v.h0.x, v.h0.y, v.h1.x, v.h1.y, v.h2.x, v.h2.y];
  }

  /** The four raw digests of `derive_gamma_beta_alpha_zeta`, as the memory holds them. */
  function RawChallenges(vk: VerifyingKey, prims: Primitives, proof: seq<Byte>, pub: seq<Word>): Challenges
    requires |proof| >= ProofSize(NbCommitments(vk))
  {
    var gamma := prims.sha256(Flatten(GammaWordsOf(vk, proof, pub))[27..]);
    var beta := prims.sha256(BetaPreimage(gamma));
    var alpha := prims.sha256(Flatten(AlphaWordsOf(beta, proof))[27..]);
    var zeta := prims.sha256(Flatten(ZetaWordsOf(alpha, proof))[28..]);
    Challenges(gamma, beta, alpha, zeta)
  }

  lemma RawChallengesAre(vk: VerifyingKey, prims: Primitives, proof: seq<Byte>, pub: seq<Word>,
                         gamma: Word, beta: Word, alpha: Word, zeta: Word)
    requires |proof| >= ProofSize(NbCommitments(vk))
    requires gamma == prims.sha256(Flatten(GammaWordsOf(vk, proof, pub))[27..])
    requires beta == prims.sha256(BetaPreimage(gamma))
    requires alpha == prims.sha256(Flatten(AlphaWordsOf(beta, proof))[27..])
    requires zeta == prims.sha256(Flatten(ZetaWordsOf(alpha, proof))[28..])
    ensures RawChallenges(vk, prims, proof, pub) == Challenges(gamma, beta, alpha, zeta)
  {
  }

  function Reduced(c: Challenges): (d: Challenges)
    ensures d.gamma < R && d.beta < R && d.alpha < R && d.zeta < R
  {
    Challenges(c.gamma % R, c.beta % R, c.alpha % R, c.zeta % R)
  }

  /** Reducing the raw digests read from memory gives the challenges of the proof's view. */
  lemma RawChallengesOfView(vk: VerifyingKey, prims: Primitives, proof: seq<Byte>, pub: seq<Word>)
    requires |proof| >= ProofSize(NbCommitments(vk))
    ensures Reduced(RawChallenges(vk, prims, proof, pub)) ==
            DeriveChallenges(vk, prims, View(proof, NbCommitments(vk)), pub)
  {
    var k := NbCommitments(vk);
    var raw := RawChallenges(vk, prims, proof, pub);
    GammaWordsOfView(vk, proof, pub);
    AlphaWordsOfView(raw.beta, proof, k);
    ZetaWordsOfView(raw.alpha, proof, k);
  }

  // ---------------------------------------------------------------- compute_gamma_kzg

  /** The points `compute_gamma_kzg` stores after ζ: [H] folded, the linearised
      commitment, [L], [R], [O], [S1], [S2], then the selector commitments Qcp. */
  function KzgPoints(foldedH: G1, lin: G1, vk: VerifyingKey, v: ProofView): seq<G1>
  {
    [foldedH, lin, v.l, v.r, v.o, vk.s1, vk.s2] + vk.qcp
  }

  /** The openings it stores after the points: t(ζ), r(ζ), l, r, o, s1, s2 at ζ, then
      the selector openings. */
  function KzgOpenings(v: ProofView): seq<Word>
  {
    [v.tAtZeta, v.linAtZeta, v.lAtZeta, v.rAtZeta, v.oAtZeta, v.s1AtZeta, v.s2AtZeta] +
    v.selectorOpenings
  }

  /** The buffer at `state_last_mem` after `compute_gamma_kzg`. */
  function GammaKzgWords(zeta: Word, foldedH: G1, lin: G1, vk: VerifyingKey, v: ProofView): (ws: seq<Word>)
    ensures |ws| == 2 + 2 * (7 + |vk.qcp|) + 7 + |v.selectorOpenings|
  {
    [GAMMA_LABEL, zeta] + PointWords(KzgPoints(foldedH, lin, vk, v)) + KzgOpenings(v)
  }

  /** `0x5 + 0x20 (0x16 + 3k)`, the size `compute_gamma_kzg` passes to SHA-256. */
  function GammaKzgSize(k: nat): nat
  {
    0x5 + (0x16 + k * 3) * 0x20
  }

  function GammaKzgPreimage(zeta: Word, foldedH: G1, lin: G1, vk: VerifyingKey, v: ProofView): seq<Byte>
  {
    Flatten(GammaKzgWords(zeta, foldedH, lin, vk, v))[27..]
  }

  /** With k selector commitments and k openings the size covers the buffer exactly:
      5 + 32 (22 + 3k) bytes, "gamma" first. */
  lemma GammaKzgPreimageShape(zeta: Word, foldedH: G1, lin: G1, vk: VerifyingKey, v: ProofView)
    requires |vk.qcp| == |v.selectorOpenings|
    ensures |GammaKzgPreimage(zeta, foldedH, lin, vk, v)| == GammaKzgSize(|vk.qcp|)
    ensures GammaKzgSize(|vk.qcp|) == 5 + 32 * (22 + 3 * |vk.qcp|)
    ensures GammaKzgPreimage(zeta, foldedH, lin, vk, v) ==
      GAMMA_ASCII + Flatten([zeta] + PointWords(KzgPoints(foldedH, lin, vk, v)) + KzgOpenings(v))
  {
    var rest := [zeta] + PointWords(KzgPoints(foldedH, lin, vk, v)) + KzgOpenings(v);
    assert GammaKzgWords(zeta, foldedH, lin, vk, v) == [GAMMA_LABEL] + rest;
    LabelledBytes(GAMMA_LABEL, rest, 5);
    GammaAscii(GAMMA_LABEL);
  }
}

/** The seven steps `Verify` runs once the challenges and PI are in their slots, and what
    the word it returns, `state_success`, then means. */
module Verdict {
  import opened Wrappers
  import opened Words
  import opened Field
  import opened Curve
  import opened Layout
  import opened Transcript
  import opened Pipeline

  /** The shapes the template guarantees: one opening per selector commitment, one wire
      commitment per opening, and two G2 points. */
  predicate Shaped(vk: VerifyingKey, v: ProofView)
  {
    |v.wireCommitments| == |v.selectorOpenings| == |vk.qcp| && |vk.g2| == 8
  }

  /** The slots `Verify` writes before the first step: the challenges and PI over whatever
      the free memory held. */
  function Seeded(leftover: Slots, c: Challenges, pi: Word): (st: Slots)
    ensures st.alpha == c.alpha && st.beta == c.beta && st.gamma == c.gamma && st.zeta == c.zeta
    ensures st.pi == pi
  {
    leftover.(alpha := c.alpha, gamma := c.gamma, zeta := c.zeta, beta := c.beta, pi := pi)
  }

  function AfterQuotient(vk: VerifyingKey, v: ProofView, st: Slots): Slots
  {
    VerifyQuotientPolyEvalAtZeta(v, ComputeAlphaSquareLagrange0(vk, st))
  }

  function AfterLinearised(vk: VerifyingKey, prims: Primitives, v: ProofView, st: Slots): Slots
    requires Shaped(vk, v)
  {
    ComputeCommitmentLinearisedPolynomial(vk, prims, v, FoldH(vk, prims, v, AfterQuotient(vk, v, st)))
  }

  /** `compute_gamma_kzg` then `fold_state`, which takes its points from what
      `compute_gamma_kzg` wrote. */
  function FoldAfterGamma(vk: VerifyingKey, prims: Primitives, v: ProofView, s4: Slots): Slots
    requires Shaped(vk, v)
  {
    var s5 := ComputeGammaKzg(vk, prims, v, s4);
    FoldState(prims, KzgPoints(s5.foldedH, s5.linearised, vk, v), KzgOpenings(v), s5)
  }

  function AfterFold(vk: VerifyingKey, prims: Primitives, v: ProofView, st: Slots): Slots
    requires Shaped(vk, v)
  {
    FoldAfterGamma(vk, prims, v, AfterLinearised(vk, prims, v, st))
  }

  /** The slots after `batch_verify_multi_points`; `Verify` returns its `success`. */
  function RunVerify(vk: VerifyingKey, prims: Primitives, v: ProofView, st: Slots): Slots
    requires Shaped(vk, v)
  {
    BatchVerifyMultiPoints(vk, prims, v, AfterFold(vk, prims, v, st))
  }

  // ---------------------------------------------------------------- what the verdict requires

  /** No step after the quotient check sets the flag back: a positive verdict implies the
      quotient identity over the integers. */
  lemma VerdictImpliesQuotient(vk: VerifyingKey, prims: Primitives, v: ProofView, st: Slots)
    requires Shaped(vk, v)
    ensures var s1 := ComputeAlphaSquareLagrange0(vk, st);
      RunVerify(vk, prims, v, st).success ==>
      QuotientValue(v, s1) % R == (v.tAtZeta * s1.zetaPowerNMinusOne) % R
  {
    var s1 := ComputeAlphaSquareLagrange0(vk, st);
    QuotientIdentity(v, s1);
  }

  /** The verdict is the quotient check AND the status of every counted precompile call AND
      the status of the pairing call; the pairing's own output takes no part. */
  lemma VerdictIsConjunction(vk: VerifyingKey, prims: Primitives, v: ProofView, st: Slots)
    requires Shaped(vk, v)
    ensures var s1 := ComputeAlphaSquareLagrange0(vk, st);
            var s2 := AfterQuotient(vk, v, st);
            var s3 := FoldH(vk, prims, v, s2);
            var s4 := AfterLinearised(vk, prims, v, st);
            var s5 := ComputeGammaKzg(vk, prims, v, s4);
            var s6 := AfterFold(vk, prims, v, st);
            var random := BatchRandom(prims, s6);
            var q := FoldedQuotients(prims, v, random);
            var fe := FrAccMul(s6.foldedClaimedValues, v.zAtZetaOmega, random);
            var d := BatchDigest(vk, prims, v, s6, random, fe);
            RunVerify(vk, prims, v, st).success <==>
              QuotientLhs(v, s1) == MulMod(v.tAtZeta, s1.zetaPowerNMinusOne) &&
              FoldHCall(vk, prims, v, s2).ok &&
              LinearisedEc(vk, prims, v, s3.linearised, LinearisedS1(v, s3), LinearisedS2(v, s3)).ok &&
              FoldPrefix(prims, s5.gammaKzg, KzgPoints(s5.foldedH, s5.linearised, vk, v), KzgOpenings(v),
                         7 + |vk.qcp|).digest.ok &&
              q.ok && d.ok && prims.pairing(PairingInput(vk, d.p, q.p)).Some?
  {
  }

  /** The flag is cumulative: a positive verdict needs every earlier step to leave it set. */
  lemma VerdictNeedsEveryStep(vk: VerifyingKey, prims: Primitives, v: ProofView, st: Slots)
    requires Shaped(vk, v)
    ensures RunVerify(vk, prims, v, st).success ==> AfterFold(vk, prims, v, st).success
    ensures AfterFold(vk, prims, v, st).success ==> AfterLinearised(vk, prims, v, st).success
    ensures AfterLinearised(vk, prims, v, st).success ==> FoldH(vk, prims, v, AfterQuotient(vk, v, st)).success
    ensures FoldH(vk, prims, v, AfterQuotient(vk, v, st)).success ==> AfterQuotient(vk, v, st).success
  {
  }

  // ---------------------------------------------------------------- what the verdict ignores

  /** The slots `Verify` does not seed (left over in free memory) do not change the verdict:
      each is overwritten before it is read, or else the call that reads it fails. */
  lemma VerdictIgnoresLeftovers(vk: VerifyingKey, prims: Primitives, v: ProofView, st1: Slots, st2: Slots)
    requires Shaped(vk, v)
    requires st1.alpha == st2.alpha && st1.beta == st2.beta && st1.gamma == st2.gamma
    requires st1.zeta == st2.zeta && st1.pi == st2.pi
    ensures RunVerify(vk, prims, v, st1).success == RunVerify(vk, prims, v, st2).success
  {
    var zp := Modexp(st1.zeta, Add(vk.domainSize, 2));
    if prims.ecMul(v.h2, zp).Some? && prims.ecMul(vk.ql, v.lAtZeta).Some? {
      AfterFoldAgrees(vk, prims, v, st1, st2);
    } else {
      FailsEarly(vk, prims, v, st1);
      FailsEarly(vk, prims, v, st2);
    }
  }

  /** With the first ECMUL of `fold_h` and of the linearised commitment succeeding, the
      slots before `batch_verify_multi_points` depend only on the seeded ones. */
  lemma AfterFoldAgrees(vk: VerifyingKey, prims: Primitives, v: ProofView, st1: Slots, st2: Slots)
    requires Shaped(vk, v)
    requires st1.alpha == st2.alpha && st1.beta == st2.beta && st1.gamma == st2.gamma
    requires st1.zeta == st2.zeta && st1.pi == st2.pi
    requires prims.ecMul(v.h2, Modexp(st1.zeta, Add(vk.domainSize, 2))).Some?
    requires prims.ecMul(vk.ql, v.lAtZeta).Some?
    ensures AfterFold(vk, prims, v, st1) == AfterFold(vk, prims, v, st2)
  {
    var a2, b2 := AfterQuotient(vk, v, st1), AfterQuotient(vk, v, st2);
    assert FoldHCall(vk, prims, v, a2) == FoldHCall(vk, prims, v, b2);
    var a3, b3 := FoldH(vk, prims, v, a2), FoldH(vk, prims, v, b2);
    assert a3.(linearised := b3.linearised, foldedClaimedValues := b3.foldedClaimedValues,
               foldedDigests := b3.foldedDigests, gammaKzg := b3.gammaKzg) == b3;
    LinearisedEcIgnoresStart(vk, prims, v, a3.linearised, b3.linearised,
                             LinearisedS1(v, a3), LinearisedS2(v, a3));
    assert LinearisedS1(v, a3) == LinearisedS1(v, b3) && LinearisedS2(v, a3) == LinearisedS2(v, b3);
    var a4, b4 := AfterLinearised(vk, prims, v, st1), AfterLinearised(vk, prims, v, st2);
    assert a4.(foldedClaimedValues := b4.foldedClaimedValues, foldedDigests := b4.foldedDigests,
               gammaKzg := b4.gammaKzg) == b4;
  }

  /** When either of those calls fails, the flag is already false after the linearised
      commitment, and no later step sets it. */
  lemma FailsEarly(vk: VerifyingKey, prims: Primitives, v: ProofView, st: Slots)
    requires Shaped(vk, v)
    requires prims.ecMul(v.h2, Modexp(st.zeta, Add(vk.domainSize, 2))).None? ||
             prims.ecMul(vk.ql, v.lAtZeta).None?
    ensures !RunVerify(vk, prims, v, st).success
  {
    var s3 := FoldH(vk, prims, v, AfterQuotient(vk, v, st));
    if prims.ecMul(vk.ql, v.lAtZeta).None? {
      LinearisedEcFails(vk, prims, v, s3.linearised, LinearisedS1(v, s3), LinearisedS2(v, s3));
    }
    assert !AfterLinearised(vk, prims, v, st).success;
  }

  /** When the first ECMUL of the linearised commitment succeeds, the slot it writes into
      plays no part. */
  lemma LinearisedEcIgnoresStart(vk: VerifyingKey, prims: Primitives, v: ProofView, start1: G1, start2: G1,
                                 s1: Word, s2: Word)
    requires |v.wireCommitments| == |v.selectorOpenings| && prims.ecMul(vk.ql, v.lAtZeta).Some?
    ensures LinearisedEc(vk, prims, v, start1, s1, s2) == LinearisedEc(vk, prims, v, start2, s1, s2)
  {
    assert GatesLR(vk, prims, v, start1) == GatesLR(vk, prims, v, start2);
  }

  /** A failed first call fails the whole accumulation. */
  lemma LinearisedEcFails(vk: VerifyingKey, prims: Primitives, v: ProofView, start: G1, s1: Word, s2: Word)
    requires |v.wireCommitments| == |v.selectorOpenings| && prims.ecMul(vk.ql, v.lAtZeta).None?
    ensures !LinearisedEc(vk, prims, v, start, s1, s2).ok
  {
    assert !GatesLR(vk, prims, v, start).ok;
  }

  /** `batch_verify_multi_points` gives the same slots with any pairing precompile that
      succeeds on the same inputs, whatever word it returns: the verdict depends on the
      call's status only. */
  lemma PairingValueIgnored(vk: VerifyingKey, prims: Primitives, pairing: seq<Word> -> Option<Word>,
                            v: ProofView, st: Slots)
    requires |vk.g2| == 8
    requires forall ws: seq<Word> :: pairing(ws).Some? == prims.pairing(ws).Some?
    ensures BatchVerifyMultiPoints(vk, prims.(pairing := pairing), v, st) == BatchVerifyMultiPoints(vk, prims, v, st)
  {
  }
}

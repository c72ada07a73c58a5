/** The assembly block of `Verify` as the program runs it: the `state_*` slots and the
    scratch words from `state_last_mem` on are the fields of a `Verifier`, and each Yul
    helper is a method that updates them. Every step is proved to leave the slots that the
    matching function of `Pipeline` describes. */
module Verification {
  import opened Wrappers
  import opened Words
  import opened Field
  import opened Curve
  import opened Layout
  import opened Transcript
  import opened PublicInputs
  import opened FreeMemory
  import opened Pipeline
  import opened Verdict
  import opened FiatShamir

  // ---------------------------------------------------------------- destinations

  /** Where a curve helper writes its result: one of the three point slots, or the two
      scratch words from `at` on. */
  datatype Dst = FoldedHSlot | LinearisedSlot | FoldedDigestsSlot | ScratchAt(at: nat)

  /** The destination lies inside the scratch words. */
  predicate Fits(d: Dst, n: nat)
  {
    d.ScratchAt? ==> d.at + 2 <= n
  }

  /** The destination does not overlap the len scratch words from m on. */
  predicate Apart(d: Dst, m: nat, len: nat)
  {
    d.ScratchAt? ==> d.at + 2 <= m || m + len <= d.at
  }

  /** The point a destination holds. */
  function Get(st: Slots, sc: seq<Word>, d: Dst): G1
    requires Fits(d, |sc|)
  {
    match d
    case FoldedHSlot => st.foldedH
    case LinearisedSlot => st.linearised
    case FoldedDigestsSlot => st.foldedDigests
    case ScratchAt(at) => G1(sc[at], sc[at + 1])
  }

  /** The slots after p is written to d. */
  function SetSlots(st: Slots, d: Dst, p: G1): Slots
  {
    match d
    case FoldedHSlot => st.(foldedH := p)
    case LinearisedSlot => st.(linearised := p)
    case FoldedDigestsSlot => st.(foldedDigests := p)
    case ScratchAt(_) => st
  }

  /** The scratch words after p is written to d. */
  function SetScratch(sc: seq<Word>, d: Dst, p: G1): (t: seq<Word>)
    requires Fits(d, |sc|)
    ensures |t| == |sc|
  {
    if d.ScratchAt? then Splice(sc, d.at, [p.x, p.y]) else sc
  }

  /** Writing back what a destination holds changes nothing, also after a write that does
      not reach it. */
  lemma KeepDst(st: Slots, sc0: seq<Word>, m: nat, ws: seq<Word>, d: Dst)
    requires m + |ws| <= |sc0| && Fits(d, |sc0|) && Apart(d, m, |ws|)
    ensures Get(st, Splice(sc0, m, ws), d) == Get(st, sc0, d)
    ensures SetSlots(st, d, Get(st, sc0, d)) == st
    ensures SetScratch(Splice(sc0, m, ws), d, Get(st, sc0, d)) == Splice(sc0, m, ws)
  {
    SpliceAt(sc0, m, ws);
    if d.ScratchAt? {
      var sc := Splice(sc0, m, ws);
      assert sc[d.at..d.at + 2] == [sc0[d.at], sc0[d.at + 1]];
      SpliceSame(sc, d.at, 2);
    }
  }

  /** Three words written from m on, then two from m + 2 on: the first two and the last two. */
  lemma CopyAfter(s0: seq<Word>, m: nat, a: Word, b: Word, c: Word, d: Word, e: Word)
    requires m + 4 <= |s0|
    ensures Splice(Splice(s0, m, [a, b, c]), m + 2, [d, e]) == Splice(s0, m, [a, b, d, e])
  {
    var s1 := Splice(s0, m, [a, b, c]);
    var t := Splice(s1, m + 2, [d, e]);
    SpliceAt(s0, m, [a, b, c]);
    SpliceAt(s1, m + 2, [d, e]);
    SpliceOne(s0, t, m, [a, b, d, e]);
  }

  /** What writing p to d leaves in the scratch words: p at d, the rest as they were. */
  lemma SetScratchAt(sc: seq<Word>, d: Dst, p: G1)
    requires Fits(d, |sc|)
    ensures d.ScratchAt? ==> ScratchPoint(SetScratch(sc, d, p), d.at) == p
    ensures forall i :: 0 <= i < |sc| && !(d.ScratchAt? && d.at <= i < d.at + 2) ==> SetScratch(sc, d, p)[i] == sc[i]
  {
    if d.ScratchAt? {
      SpliceAt(sc, d.at, [p.x, p.y]);
    }
  }

  /** The point held in the two scratch words from `at` on. */
  function ScratchPoint(sc: seq<Word>, at: nat): G1
    requires at + 2 <= |sc|
  {
    G1(sc[at], sc[at + 1])
  }

  /** Writing a prefix of W, then the words of W that follow it, writes the longer prefix. */
  lemma SplicePrefix(s0: seq<Word>, w: seq<Word>, n: nat, ws: seq<Word>)
    requires n + |ws| <= |w| <= |s0| && w[n..n + |ws|] == ws
    ensures Splice(Splice(s0, 0, w[..n]), n, ws) == Splice(s0, 0, w[..n + |ws|])
  {
    SpliceAdjacent(s0, 0, w[..n], ws);
    assert w[..n] + ws == w[..n + |ws|];
  }

  /** The points `fold_state` reads back are the ones `compute_gamma_kzg` stored. */
  lemma GammaKzgPointsRead(sc: seq<Word>, zeta: Word, foldedH: G1, lin: G1, vk: VerifyingKey, v: ProofView)
    requires |v.selectorOpenings| == |vk.qcp| && 23 + 3 * |vk.qcp| <= |sc|
    ensures PointsOf(Splice(sc, 0, GammaKzgWords(zeta, foldedH, lin, vk, v))[2..16 + 2 * |vk.qcp|]) ==
            KzgPoints(foldedH, lin, vk, v)
  {
    var w := GammaKzgWords(zeta, foldedH, lin, vk, v);
    var ps := KzgPoints(foldedH, lin, vk, v);
    SpliceSlice(sc, 0, w);
    assert w == [GAMMA_LABEL, zeta] + PointWords(ps) + KzgOpenings(v);
    assert w[2..16 + 2 * |vk.qcp|] == PointWords(ps);
    assert Splice(sc, 0, w)[2..16 + 2 * |vk.qcp|] == w[2..16 + 2 * |vk.qcp|];
    PointsOfWords(ps);
  }

  /** The four runs of stores of `compute_gamma_kzg` make up its buffer. */
  lemma GammaKzgWordsSplit(zeta: Word, foldedH: G1, lin: G1, vk: VerifyingKey, v: ProofView)
    ensures GammaKzgWords(zeta, foldedH, lin, vk, v) ==
      [GAMMA_LABEL, zeta] + PointWords([foldedH, lin, v.l, v.r, v.o, vk.s1, vk.s2]) + PointWords(vk.qcp) +
      [v.tAtZeta, v.linAtZeta, v.lAtZeta, v.rAtZeta, v.oAtZeta, v.s1AtZeta, v.s2AtZeta] + v.selectorOpenings
  {
    var front := [foldedH, lin, v.l, v.r, v.o, vk.s1, vk.s2];
    PointWordsAppend(front, vk.qcp);
  }

  /** With the words before `off` as stored, the point at word 2 + 2j is the j-th of the
      points stored from word 2 on. */
  lemma ReadPoint(sc: seq<Word>, pre: seq<Word>, off: nat, j: nat)
    requires off <= |sc| && sc[..off] == pre && 4 + 2 * j <= off
    ensures ScratchPoint(sc, 2 + 2 * j) == PointsOf(pre[2..])[j]
  {
    assert sc[2 + 2 * j] == pre[2 + 2 * j] && sc[3 + 2 * j] == pre[3 + 2 * j];
    assert PointsOf(pre[2..])[j] == PairAt(pre[2..], j);
  }

  class Verifier {
    const vk: VerifyingKey
    const prims: Primitives
    /** The words from `mload(0x40)` up to `state_last_mem`. */
    var slots: Slots
    /** The words from `state_last_mem` on. */
    var scratch: seq<Word>

    constructor (vk: VerifyingKey, prims: Primitives, slots: Slots, scratch: seq<Word>)
      ensures this.vk == vk && this.prims == prims && this.slots == slots && this.scratch == scratch
    {
      this.vk := vk;
      this.prims := prims;
      this.slots := slots;
      this.scratch := scratch;
    }

    // -------------------------------------------------------------- the helpers

    /** A precompile writing its output point to d. */
    method Put(d: Dst, p: G1)
      requires Fits(d, |scratch|)
      modifies this
      ensures slots == SetSlots(old(slots), d, p) && scratch == SetScratch(old(scratch), d, p)
    {
      match d
      case FoldedHSlot => slots := slots.(foldedH := p);
      case LinearisedSlot => slots := slots.(linearised := p);
      case FoldedDigestsSlot => slots := slots.(foldedDigests := p);
      case ScratchAt(at) => scratch := Splice(scratch, at, [p.x, p.y]);
    }

    /** `pow(x, e, mPtr)`: the modexp input is written from m on and its output overwrites
        the first word. */
    method Pow(x: Word, e: Word, m: nat) returns (res: Word)
      requires m + 6 <= |scratch|
      modifies this
      ensures res == Modexp(x, e)
      ensures slots == old(slots) && scratch == Splice(old(scratch), m, PowScratch(x, e))
    {
      ModuliAreWords();
      scratch := Splice(scratch, m, [0x20, 0x20, 0x20, x, e, R]);
      SpliceAt(old(scratch), m, [0x20, 0x20, 0x20, x, e, R]);
      res := Modexp(scratch[m + 3], scratch[m + 4]);
      SpliceOver(old(scratch), m, [0x20, 0x20, 0x20, x, e, R], [res]);
      scratch := Splice(scratch, m, [res]);
      assert [res] + [0x20, 0x20, 0x20, x, e, R][1..] == PowScratch(x, e);
    }

    /** `point_add(dst, p, q, mPtr)`: ECADD of p and q through the four words from m on. */
    method PointAdd(d: Dst, p: G1, q: G1, m: nat)
      requires m + 4 <= |scratch| && Fits(d, |scratch|) && Apart(d, m, 4)
      modifies this
      ensures var c := EcAdd(prims, p, q, Get(old(slots), old(scratch), d));
        slots == SetSlots(old(slots), d, c.p).(success := old(slots).success && c.ok) &&
        scratch == SetScratch(Splice(old(scratch), m, [p.x, p.y, q.x, q.y]), d, c.p)
    {
      KeepDst(slots, scratch, m, [p.x, p.y, q.x, q.y], d);
      scratch := Splice(scratch, m, [p.x, p.y, q.x, q.y]);
      SpliceAt(old(scratch), m, [p.x, p.y, q.x, q.y]);
      var r := prims.ecAdd(ScratchPoint(scratch, m), ScratchPoint(scratch, m + 2));
      if r.Some? {
        Put(d, r.value);
      }
      slots := slots.(success := slots.success && r.Some?);
    }

    /** `point_mul(dst, src, s, mPtr)`: ECMUL of src by s through the three words from m on. */
    method PointMul(d: Dst, src: G1, s: Word, m: nat)
      requires m + 3 <= |scratch| && Fits(d, |scratch|) && Apart(d, m, 3)
      modifies this
      ensures var c := EcMul(prims, src, s, Get(old(slots), old(scratch), d));
        slots == SetSlots(old(slots), d, c.p).(success := old(slots).success && c.ok) &&
        scratch == SetScratch(Splice(old(scratch), m, [src.x, src.y, s]), d, c.p)
    {
      KeepDst(slots, scratch, m, [src.x, src.y, s], d);
      scratch := Splice(scratch, m, [src.x, src.y, s]);
      SpliceAt(old(scratch), m, [src.x, src.y, s]);
      var r := prims.ecMul(ScratchPoint(scratch, m), scratch[m + 2]);
      if r.Some? {
        Put(d, r.value);
      }
      slots := slots.(success := slots.success && r.Some?);
    }

    /** The first half of `point_acc_mul`: src and s written from m on, and ECMUL's output
        over the copy of src. */
    method MulOverCopy(src: G1, s: Word, m: nat) returns (ok: bool)
      requires m + 3 <= |scratch|
      modifies this
      ensures var mul := EcMul(prims, src, s, src);
        ok == mul.ok && slots == old(slots) && scratch == Splice(old(scratch), m, [mul.p.x, mul.p.y, s])
    {
      scratch := Splice(scratch, m, [src.x, src.y, s]);
      SpliceAt(old(scratch), m, [src.x, src.y, s]);
      var r := prims.ecMul(ScratchPoint(scratch, m), scratch[m + 2]);
      ok := r.Some?;
      if ok {
        scratch := Splice(scratch, m, [r.value.x, r.value.y]);
        SpliceOver(old(scratch), m, [src.x, src.y, s], [r.value.x, r.value.y]);
        assert [r.value.x, r.value.y] + [src.x, src.y, s][2..] == [r.value.x, r.value.y, s];
      }
    }

    /** The ECADD of the four words from m on into d. */
    method AddFromScratch(d: Dst, m: nat) returns (ok: bool)
      requires m + 4 <= |scratch| && Fits(d, |scratch|)
      modifies this
      ensures var c := EcAdd(prims, ScratchPoint(old(scratch), m), ScratchPoint(old(scratch), m + 2),
                             Get(old(slots), old(scratch), d));
        ok == c.ok && slots == SetSlots(old(slots), d, c.p) && scratch == SetScratch(old(scratch), d, c.p)
    {
      var r := prims.ecAdd(ScratchPoint(scratch, m), ScratchPoint(scratch, m + 2));
      ok := r.Some?;
      if ok {
        Put(d, r.value);
      } else {
        KeepDst(slots, scratch, 0, [], d);
        assert Splice(scratch, 0, []) == scratch;
      }
    }

    /** `point_acc_mul(dst, src, s, mPtr)`: ECMUL of src by s over its copy from m on, then
        the point at dst copied after it and ECADD of the two into dst. */
    method PointAccMul(d: Dst, src: G1, s: Word, m: nat)
      requires m + 4 <= |scratch| && Fits(d, |scratch|) && Apart(d, m, 4)
      modifies this
      ensures var d0 := Get(old(slots), old(scratch), d);
              var mul := EcMul(prims, src, s, src).p;
              var c := EcAccMul(prims, d0, src, s);
        slots == SetSlots(old(slots), d, c.p).(success := old(slots).success && c.ok) &&
        scratch == SetScratch(Splice(old(scratch), m, [mul.x, mul.y, d0.x, d0.y]), d, c.p)
    {
      ghost var d0 := Get(slots, scratch, d);
      ghost var mul := EcMul(prims, src, s, src).p;
      var ok1 := MulOverCopy(src, s, m);
      KeepDst(slots, old(scratch), m, [mul.x, mul.y, s], d);
      var cur := Get(slots, scratch, d);
      scratch := Splice(scratch, m + 2, [cur.x, cur.y]);
      CopyAfter(old(scratch), m, mul.x, mul.y, s, d0.x, d0.y);
      KeepDst(slots, old(scratch), m, [mul.x, mul.y, d0.x, d0.y], d);
      SpliceAt(old(scratch), m, [mul.x, mul.y, d0.x, d0.y]);
      assert ScratchPoint(scratch, m) == mul && ScratchPoint(scratch, m + 2) == d0;
      var ok2 := AddFromScratch(d, m);
      slots := slots.(success := slots.success && ok1 && ok2);
    }

    /** `fr_acc_mul(state_folded_claimed_values, src, s)`, with the loaded word x. */
    method FrAccMulClaimed(x: Word, s: Word)
      modifies this
      ensures slots == old(slots).(foldedClaimedValues := FrAccMul(old(slots).foldedClaimedValues, x, s))
      ensures scratch == old(scratch)
    {
      var tmp := MulMod(x, s);
      slots := slots.(foldedClaimedValues := AddMod(slots.foldedClaimedValues, tmp));
    }

    // -------------------------------------------------------------- the steps of Verify

    /** `compute_alpha_square_lagrange_0`, with both `pow` calls at `state_last_mem`. */
    method ComputeAlphaSquareLagrange0()
      requires 6 <= |scratch|
      modifies this
      ensures slots == Pipeline.ComputeAlphaSquareLagrange0(vk, old(slots))
      ensures scratch == Splice(old(scratch), 0, PowScratch(AddMod(old(slots).zeta, Sub(R, 1)), Sub(R, 2)))
    {
      ModuliAreWords();
      var res := Pow(slots.zeta, vk.domainSize, 0);
      res := AddMod(res, Sub(R, 1));
      slots := slots.(zetaPowerNMinusOne := res);
      var den := AddMod(slots.zeta, Sub(R, 1));
      den := Pow(den, Sub(R, 2), 0);
      SpliceCover(old(scratch), 0, PowScratch(old(slots).zeta, vk.domainSize),
                  PowScratch(AddMod(old(slots).zeta, Sub(R, 1)), Sub(R, 2)));
      den := MulMod(den, vk.invDomainSize);
      res := MulMod(den, res);
      var alpha := slots.alpha;
      res := MulMod(res, alpha);
      res := MulMod(res, alpha);
      slots := slots.(alphaSquareLagrange := res);
    }

    /** `verify_quotient_poly_eval_at_zeta`: the factors and the two sides in the first four
        scratch words, then `state_success` overwritten with their comparison. */
    method VerifyQuotientPolyEvalAtZeta(v: ProofView)
      requires 4 <= |scratch|
      modifies this
      ensures slots == Pipeline.VerifyQuotientPolyEvalAtZeta(v, old(slots))
      ensures |scratch| == |old(scratch)|
    {
      ModuliAreWords();
      var st := slots;
      scratch := scratch[0 := MulMod(v.s1AtZeta, st.beta)];
      scratch := scratch[0 := AddMod(scratch[0], st.gamma)];
      scratch := scratch[0 := AddMod(scratch[0], v.lAtZeta)];
      scratch := scratch[1 := MulMod(v.s2AtZeta, st.beta)];
      scratch := scratch[1 := AddMod(scratch[1], st.gamma)];
      scratch := scratch[1 := AddMod(scratch[1], v.rAtZeta)];
      scratch := scratch[2 := AddMod(v.oAtZeta, st.gamma)];
      scratch := scratch[0 := MulMod(scratch[0], scratch[1])];
      scratch := scratch[0 := MulMod(scratch[0], scratch[2])];
      scratch := scratch[0 := MulMod(scratch[0], st.alpha)];
      scratch := scratch[0 := MulMod(scratch[0], v.zAtZetaOmega)];
      scratch := scratch[3 := AddMod(v.linAtZeta, st.pi)];
      scratch := scratch[3 := AddMod(scratch[3], scratch[0])];
      scratch := scratch[3 := AddMod(scratch[3], Sub(R, st.alphaSquareLagrange))];
      scratch := scratch[1 := MulMod(v.tAtZeta, st.zetaPowerNMinusOne)];
      slots := slots.(success := scratch[3] == scratch[1]);
    }

    /** `fold_h`: ζ^(n+2) by `pow`, then the two multiplications and additions into
        `state_folded_h`, all through the scratch words from `state_last_mem` on. */
    method FoldH(v: ProofView)
      requires 6 <= |scratch|
      modifies this
      ensures slots == Pipeline.FoldH(vk, prims, v, old(slots))
      ensures |scratch| == |old(scratch)|
    {
      var nPlusTwo := Add(vk.domainSize, 2);
      var zp := Pow(slots.zeta, nPlusTwo, 0);
      ghost var st := slots;
      PointMul(FoldedHSlot, v.h2, zp, 0);
      ghost var c1 := EcMul(prims, v.h2, zp, st.foldedH);
      assert slots == st.(foldedH := c1.p, success := st.success && c1.ok);
      PointAdd(FoldedHSlot, slots.foldedH, v.h1, 0);
      ghost var c2 := EcAdd(prims, c1.p, v.h1, c1.p);
      assert slots == st.(foldedH := c2.p, success := st.success && c1.ok && c2.ok);
      PointMul(FoldedHSlot, slots.foldedH, zp, 0);
      ghost var c3 := EcMul(prims, c2.p, zp, c2.p);
      assert slots == st.(foldedH := c3.p, success := st.success && c1.ok && c2.ok && c3.ok);
      PointAdd(FoldedHSlot, slots.foldedH, v.h0, 0);
    }

    /** Two `mstore`s of a point's words from `at` on. */
    method StorePoint(at: nat, p: G1)
      requires at + 2 <= |scratch|
      modifies this
      ensures slots == old(slots) && scratch == Splice(old(scratch), at, [p.x, p.y])
      ensures ScratchPoint(scratch, at) == p
    {
      scratch := Splice(scratch, at, [p.x, p.y]);
      SpliceAt(old(scratch), at, [p.x, p.y]);
    }

    /** The gate terms of `compute_commitment_linearised_polynomial_ec`: each commitment of
        the key copied to `state_last_mem`, then `point_mul` or `point_acc_mul` into
        `state_linearised_polynomial` with the scratch words after it. */
    method LinearisedGatesEc(v: ProofView)
      requires 6 <= |scratch|
      modifies this
      ensures var c := LinearisedGates(vk, prims, v, old(slots).linearised);
        slots == old(slots).(linearised := c.p, success := old(slots).success && c.ok)
      ensures |scratch| == |old(scratch)|
    {
      ghost var st := slots;
      StorePoint(0, vk.ql);
      PointMul(LinearisedSlot, ScratchPoint(scratch, 0), v.lAtZeta, 2);
      ghost var c1 := EcMul(prims, vk.ql, v.lAtZeta, st.linearised);
      assert slots == st.(linearised := c1.p, success := st.success && c1.ok);
      StorePoint(0, vk.qr);
      PointAccMul(LinearisedSlot, ScratchPoint(scratch, 0), v.rAtZeta, 2);
      ghost var c2 := AccMul(prims, c1, vk.qr, v.rAtZeta);
      assert slots == st.(linearised := c2.p, success := st.success && c2.ok);
      var rl := MulMod(v.lAtZeta, v.rAtZeta);
      StorePoint(0, vk.qm);
      PointAccMul(LinearisedSlot, ScratchPoint(scratch, 0), rl, 2);
      ghost var c3 := GatesLR(vk, prims, v, st.linearised);
      assert slots == st.(linearised := c3.p, success := st.success && c3.ok);
      StorePoint(0, vk.qo);
      PointAccMul(LinearisedSlot, ScratchPoint(scratch, 0), v.oAtZeta, 2);
      ghost var c4 := AccMul(prims, c3, vk.qo, v.oAtZeta);
      assert slots == st.(linearised := c4.p, success := st.success && c4.ok);
      StorePoint(0, vk.qk);
      PointAdd(LinearisedSlot, slots.linearised, ScratchPoint(scratch, 0), 2);
    }

    /** The custom-gate loop: wire commitment i copied to `state_last_mem`, then
        `point_acc_mul` by selector opening i. */
    method CustomGatesEc(v: ProofView)
      requires |v.wireCommitments| == |v.selectorOpenings| && 6 <= |scratch|
      modifies this
      ensures var c := CommitApiAcc(prims, Call(old(slots).linearised, old(slots).success),
                                    v.wireCommitments, v.selectorOpenings);
        slots == old(slots).(linearised := c.p, success := c.ok)
      ensures |scratch| == |old(scratch)|
    {
      ghost var c0 := Call(slots.linearised, slots.success);
      var i := 0;
      while i < |v.selectorOpenings|
        invariant 0 <= i <= |v.selectorOpenings| && |scratch| == |old(scratch)|
        invariant var c := CommitApiAcc(prims, c0, v.wireCommitments[..i], v.selectorOpenings[..i]);
          slots == old(slots).(linearised := c.p, success := c.ok)
      {
        ghost var c := CommitApiAcc(prims, c0, v.wireCommitments[..i], v.selectorOpenings[..i]);
        StorePoint(0, v.wireCommitments[i]);
        PointAccMul(LinearisedSlot, ScratchPoint(scratch, 0), v.selectorOpenings[i], 2);
        assert v.wireCommitments[..i + 1][..i] == v.wireCommitments[..i];
        assert v.selectorOpenings[..i + 1][..i] == v.selectorOpenings[..i];
        assert slots == old(slots).(linearised := AccMul(prims, c, v.wireCommitments[i], v.selectorOpenings[i]).p,
                                    success := AccMul(prims, c, v.wireCommitments[i], v.selectorOpenings[i]).ok);
        i := i + 1;
      }
      assert v.wireCommitments[..i] == v.wireCommitments;
      assert v.selectorOpenings[..i] == v.selectorOpenings;
    }

    /** `compute_commitment_linearised_polynomial_ec(aproof, s1, s2)`: the gates, the custom
        gates, then s1 [S3] and s2 [Z]. */
    method LinearisedPolynomialEc(v: ProofView, s1: Word, s2: Word)
      requires |v.wireCommitments| == |v.selectorOpenings| && 6 <= |scratch|
      modifies this
      ensures var c := LinearisedEc(vk, prims, v, old(slots).linearised, s1, s2);
        slots == old(slots).(linearised := c.p, success := old(slots).success && c.ok)
      ensures |scratch| == |old(scratch)|
    {
      LinearisedGatesEc(v);
      ghost var g := LinearisedGates(vk, prims, v, old(slots).linearised);
      CustomGatesEc(v);
      CommitApiAccAnd(prims, g, old(slots).success, v.wireCommitments, v.selectorOpenings);
      ghost var c6 := LinearisedCustom(vk, prims, v, old(slots).linearised);
      assert slots == old(slots).(linearised := c6.p, success := old(slots).success && c6.ok);
      StorePoint(0, vk.s3);
      PointAccMul(LinearisedSlot, ScratchPoint(scratch, 0), s1, 2);
      ghost var c7 := AccMul(prims, c6, vk.s3, s1);
      assert slots == old(slots).(linearised := c7.p, success := old(slots).success && c7.ok);
      StorePoint(0, v.z);
      PointAccMul(LinearisedSlot, ScratchPoint(scratch, 0), s2, 2);
    }

    /** `compute_commitment_linearised_polynomial`: the two scalars in locals, then the
        curve part. */
    method ComputeCommitmentLinearisedPolynomial(v: ProofView)
      requires |v.wireCommitments| == |v.selectorOpenings| && 6 <= |scratch|
      modifies this
      ensures slots == Pipeline.ComputeCommitmentLinearisedPolynomial(vk, prims, v, old(slots))
      ensures |scratch| == |old(scratch)|
    {
      ModuliAreWords();
      var beta, gamma, zeta, alpha := slots.beta, slots.gamma, slots.zeta, slots.alpha;
      var u := MulMod(v.zAtZetaOmega, beta);
      var w1 := MulMod(beta, v.s1AtZeta);
      w1 := AddMod(w1, v.lAtZeta);
      w1 := AddMod(w1, gamma);
      var w2 := MulMod(beta, v.s2AtZeta);
      w2 := AddMod(w2, v.rAtZeta);
      w2 := AddMod(w2, gamma);
      var s1 := MulMod(u, w1);
      s1 := MulMod(s1, w2);
      s1 := MulMod(s1, alpha);
      assert s1 == LinearisedS1(v, slots);
      var cosetSquare := MulMod(COSET_SHIFT, COSET_SHIFT);
      var betaZeta := MulMod(beta, zeta);
      u := AddMod(betaZeta, v.lAtZeta);
      u := AddMod(u, gamma);
      w1 := MulMod(betaZeta, COSET_SHIFT);
      w1 := AddMod(w1, v.rAtZeta);
      w1 := AddMod(w1, gamma);
      w2 := MulMod(betaZeta, cosetSquare);
      w2 := AddMod(w2, v.oAtZeta);
      w2 := AddMod(w2, gamma);
      var s2 := MulMod(u, w1);
      s2 := MulMod(s2, w2);
      assert s2 == CosetProduct(betaZeta, v.lAtZeta, v.rAtZeta, v.oAtZeta, gamma);
      s2 := Sub(R, s2);
      s2 := MulMod(s2, alpha);
      s2 := AddMod(s2, slots.alphaSquareLagrange);
      assert s2 == LinearisedS2(v, slots);
      LinearisedPolynomialEc(v, s1, s2);
    }

    /** Consecutive `mstore`s of ws from `at` on, one word per iteration. */
    method StoreRun(at: nat, ws: seq<Word>)
      requires at + |ws| <= |scratch|
      modifies this
      ensures slots == old(slots) && scratch == Splice(old(scratch), at, ws)
    {
      var i := 0;
      while i < |ws|
        invariant 0 <= i <= |ws| && |scratch| == |old(scratch)| && slots == old(slots)
        invariant forall j :: 0 <= j < i ==> scratch[at + j] == ws[j]
        invariant forall j :: 0 <= j < |scratch| && !(at <= j < at + i) ==> scratch[j] == old(scratch)[j]
      {
        scratch := scratch[at + i := ws[i]];
        i := i + 1;
      }
      SpliceOne(old(scratch), scratch, at, ws);
    }

    /** `compute_gamma_kzg`: the transcript written from `state_last_mem` on, with the
        selector commitments and the selector openings stored by loops, then SHA-256 of its
        bytes from byte 0x1b on, reduced mod r into `state_gamma_kzg`. */
    method ComputeGammaKzg(v: ProofView)
      requires |v.selectorOpenings| == |vk.qcp| && 23 + 3 * |vk.qcp| <= |scratch|
      modifies this
      ensures slots == Pipeline.ComputeGammaKzg(vk, prims, v, old(slots))
      ensures scratch == Splice(old(scratch), 0, GammaKzgWords(old(slots).zeta, old(slots).foldedH,
                                                               old(slots).linearised, vk, v))
    {
      var k := |vk.qcp|;
      StoreGammaKzgTranscript(v);
      ghost var w := GammaKzgWords(old(slots).zeta, old(slots).foldedH, old(slots).linearised, vk, v);
      var size := 0x5 + (0x16 + k * 3) * 0x20;
      StoredPreimage(old(scratch), scratch, 0, w, 0x1b, size);
      var d := prims.sha256(Flatten(scratch[0..23 + 3 * k])[0x1b..0x1b + size]);
      ModuliAreWords();
      slots := slots.(gammaKzg := d % R);
    }

    /** The `mstore`s of `compute_gamma_kzg`, before the hash. */
    method StoreGammaKzgTranscript(v: ProofView)
      requires |v.selectorOpenings| == |vk.qcp| && 23 + 3 * |vk.qcp| <= |scratch|
      modifies this
      ensures slots == old(slots)
      ensures scratch == Splice(old(scratch), 0, GammaKzgWords(old(slots).zeta, old(slots).foldedH,
                                                               old(slots).linearised, vk, v))
    {
      var k := |vk.qcp|;
      var fixed := [GAMMA_LABEL, slots.zeta] +
                   PointWords([slots.foldedH, slots.linearised, v.l, v.r, v.o, vk.s1, vk.s2]);
      var openings := [v.tAtZeta, v.linAtZeta, v.lAtZeta, v.rAtZeta, v.oAtZeta, v.s1AtZeta, v.s2AtZeta];
      scratch := Splice(scratch, 0, fixed);
      StoreRun(16, PointWords(vk.qcp));
      scratch := Splice(scratch, 16 + 2 * k, openings);
      StoreRun(23 + 2 * k, v.selectorOpenings);
      SpliceFour(old(scratch), 0, fixed, PointWords(vk.qcp), openings, v.selectorOpenings, scratch);
      GammaKzgWordsSplit(old(slots).zeta, old(slots).foldedH, old(slots).linearised, vk, v);
    }

    /** The slots hold the first n steps of `fold_state` over ps and xs from st0. */
    ghost predicate FoldedUpTo(ps: seq<G1>, xs: seq<Word>, st0: Slots, n: nat)
      requires 1 <= n <= |ps| && |ps| == |xs|
      reads this
    {
      var f := FoldPrefix(prims, st0.gammaKzg, ps, xs, n);
      slots == st0.(foldedDigests := f.digest.p, foldedClaimedValues := f.claimed,
                    success := st0.success && f.digest.ok)
    }

    /** One step of `fold_state`: `point_acc_mul` of the next point into
        `state_folded_digests` with its scratch words at `off`, and `fr_acc_mul` of the next
        opening into `state_folded_claimed_values`, both by acc = γ^n. */
    method FoldNext(ghost ps: seq<G1>, ghost xs: seq<Word>, ghost st0: Slots, ghost n: nat,
                    src: G1, x: Word, acc: Word, off: nat, ghost pre: seq<Word>)
      requires 1 <= n < |ps| && |ps| == |xs| && src == ps[n] && x == xs[n]
      requires acc == GammaPower(st0.gammaKzg, n) && off + 4 <= |scratch| && scratch[..off] == pre
      requires FoldedUpTo(ps, xs, st0, n)
      modifies this
      ensures FoldedUpTo(ps, xs, st0, n + 1)
      ensures |scratch| == |old(scratch)| && scratch[..off] == pre
    {
      PointAccMul(FoldedDigestsSlot, src, acc, off);
      FrAccMulClaimed(x, acc);
      SpliceSliceOutside(old(scratch), off, [EcMul(prims, src, acc, src).p.x, EcMul(prims, src, acc, src).p.y,
                                             old(slots).foldedDigests.x, old(slots).foldedDigests.y], 0, off);
    }

    /** The first steps of `fold_state`, written out: the digest starts from the point in
        scratch words 2 and 3 and the claimed value from t(ζ); then the linearised
        commitment with its opening, then [L] with l(ζ) and [R] with r(ζ). */
    method FoldFirst(v: ProofView, off: nat, ghost ps: seq<G1>, ghost pre: seq<Word>) returns (acc: Word)
      requires 16 <= off && off + 4 <= |scratch| && scratch[..off] == pre && ps == PointsOf(pre[2..])
      requires |ps| == |KzgOpenings(v)|
      modifies this
      ensures FoldedUpTo(ps, KzgOpenings(v), old(slots), 4)
      ensures acc == GammaPower(old(slots).gammaKzg, 3)
      ensures |scratch| == |old(scratch)| && scratch[..off] == pre
    {
      var g := slots.gammaKzg;
      acc := g;
      ghost var xs := KzgOpenings(v);
      ghost var st0 := slots;
      ReadPoint(scratch, pre, off, 0);
      slots := slots.(foldedDigests := ScratchPoint(scratch, 2), foldedClaimedValues := v.tAtZeta);
      assert FoldedUpTo(ps, xs, st0, 1);
      ReadPoint(scratch, pre, off, 1);
      FoldNext(ps, xs, st0, 1, ScratchPoint(scratch, 4), v.linAtZeta, acc, off, pre);
      acc := MulMod(acc, g);
      ReadPoint(scratch, pre, off, 2);
      FoldNext(ps, xs, st0, 2, ScratchPoint(scratch, 6), v.lAtZeta, acc, off, pre);
      acc := MulMod(acc, g);
      ReadPoint(scratch, pre, off, 3);
      FoldNext(ps, xs, st0, 3, ScratchPoint(scratch, 8), v.rAtZeta, acc, off, pre);
    }

    /** The next steps, written out: [O], [S1] and [S2] with o, s1 and s2 at ζ, from acc0 = γ³
        (one `mulmod` by γ after γ²). */
    method FoldSecond(v: ProofView, off: nat, ghost ps: seq<G1>, ghost pre: seq<Word>, ghost st0: Slots,
                      acc0: Word) returns (acc: Word)
      requires 16 <= off && off + 4 <= |scratch| && scratch[..off] == pre && ps == PointsOf(pre[2..])
      requires |ps| == |KzgOpenings(v)| && slots.gammaKzg == st0.gammaKzg
      requires FoldedUpTo(ps, KzgOpenings(v), st0, 4)
      requires acc0 == MulMod(GammaPower(st0.gammaKzg, 2), st0.gammaKzg)
      modifies this
      ensures FoldedUpTo(ps, KzgOpenings(v), st0, 7)
      ensures acc == GammaPower(st0.gammaKzg, 6)
      ensures |scratch| == |old(scratch)| && scratch[..off] == pre
    {
      var g := slots.gammaKzg;
      ghost var xs := KzgOpenings(v);
      acc := MulMod(acc0, g);
      ReadPoint(scratch, pre, off, 4);
      FoldNext(ps, xs, st0, 4, ScratchPoint(scratch, 10), v.oAtZeta, acc, off, pre);
      acc := MulMod(acc, g);
      ReadPoint(scratch, pre, off, 5);
      FoldNext(ps, xs, st0, 5, ScratchPoint(scratch, 12), v.s1AtZeta, acc, off, pre);
      acc := MulMod(acc, g);
      ReadPoint(scratch, pre, off, 6);
      FoldNext(ps, xs, st0, 6, ScratchPoint(scratch, 14), v.s2AtZeta, acc, off, pre);
    }

    /** `fold_state`: the six steps above, then a loop over the custom gates, each with the
        next power of γ_kzg. The points are the ones `compute_gamma_kzg` stored from word 2
        on; the scratch words for `point_acc_mul` lie after them. */
    method FoldState(v: ProofView)
      requires |v.selectorOpenings| == |vk.qcp| && 20 + 2 * |vk.qcp| <= |scratch|
      modifies this
      ensures slots == Pipeline.FoldState(prims, PointsOf(old(scratch)[2..16 + 2 * |vk.qcp|]), KzgOpenings(v), old(slots))
      ensures |scratch| == |old(scratch)|
    {
      var k := |vk.qcp|;
      var off := 16 + 2 * k;
      ghost var pre := scratch[..off];
      ghost var ps := PointsOf(pre[2..]);
      assert pre[2..] == old(scratch)[2..16 + 2 * |vk.qcp|];
      ghost var xs := KzgOpenings(v);
      ghost var st0 := slots;
      var g := slots.gammaKzg;
      var acc := FoldFirst(v, off, ps, pre);
      acc := FoldSecond(v, off, ps, pre, st0, acc);
      var i := 0;
      while i < k
        invariant 0 <= i <= k && |scratch| == |old(scratch)| && scratch[..off] == pre
        invariant acc == GammaPower(g, 6 + i)
        invariant FoldedUpTo(ps, xs, st0, 7 + i)
      {
        acc := MulMod(acc, g);
        ReadPoint(scratch, pre, off, 7 + i);
        FoldNext(ps, xs, st0, 7 + i, ScratchPoint(scratch, 16 + 2 * i), v.selectorOpenings[i], acc, off, pre);
        i := i + 1;
      }
      assert FoldedUpTo(ps, xs, st0, |ps|);
    }

    // ------------------------------------------------------------ batch_verify_multi_points

    /** [W_ζ] copied to `state_last_mem`, then `point_acc_mul` of [W_ζω] by random into it. */
    method BatchFoldQuotients(v: ProofView, random: Word)
      requires 6 <= |scratch|
      modifies this
      ensures |scratch| == |old(scratch)|
      ensures var q := FoldedQuotients(prims, v, random);
        slots == old(slots).(success := old(slots).success && q.ok) && ScratchPoint(scratch, 0) == q.p
    {
      StorePoint(0, v.batchOpeningAtZeta);
      ghost var s1 := scratch;
      PointAccMul(ScratchAt(0), v.openingAtZetaOmega, random, 2);
      ghost var mul := EcMul(prims, v.openingAtZetaOmega, random, v.openingAtZetaOmega).p;
      ghost var bo := v.batchOpeningAtZeta;
      SetScratchAt(Splice(s1, 2, [mul.x, mul.y, bo.x, bo.y]), ScratchAt(0), FoldedQuotients(prims, v, random).p);
    }

    /** (1, 2) and the folded claimed value from word 2 on, ECMUL over the point with its
        status dropped, then y := p - y. */
    method EvalsCommitEc()
      requires 5 <= |scratch|
      modifies this
      ensures slots == old(slots) && |scratch| == |old(scratch)| && scratch[..2] == old(scratch)[..2]
      ensures ScratchPoint(scratch, 2) == EvalsCommit(prims, old(slots).foldedClaimedValues)
    {
      ModuliAreWords();
      scratch := Splice(scratch, 2, [1, 2, slots.foldedClaimedValues]);
      SpliceAt(old(scratch), 2, [1, 2, slots.foldedClaimedValues]);
      var r := prims.ecMul(ScratchPoint(scratch, 2), scratch[4]);
      if r.Some? {
        ghost var s1 := scratch;
        scratch := Splice(scratch, 2, [r.value.x, r.value.y]);
        SpliceAt(s1, 2, [r.value.x, r.value.y]);
      }
      scratch := scratch[3 := Sub(P, scratch[3])];
    }

    /** `point_acc_mul` of random [Z] into `state_folded_digests`, `fr_acc_mul` of z(ζω) into
        `state_folded_claimed_values`, and the negated [fe]G added to the digests. */
    method BatchDigestEvals(v: ProofView, random: Word)
      requires 8 <= |scratch|
      modifies this
      ensures var d1 := EcAccMul(prims, old(slots).foldedDigests, v.z, random);
              var fe := FrAccMul(old(slots).foldedClaimedValues, v.zAtZetaOmega, random);
              var d2 := AccAdd(prims, d1, EvalsCommit(prims, fe));
        slots == old(slots).(foldedDigests := d2.p, foldedClaimedValues := fe,
                             success := old(slots).success && d2.ok)
      ensures |scratch| == |old(scratch)| && scratch[..2] == old(scratch)[..2]
      ensures ScratchPoint(scratch, 4) == EcAccMul(prims, old(slots).foldedDigests, v.z, random).p
    {
      ghost var mul := EcMul(prims, v.z, random, v.z).p;
      ghost var fd := slots.foldedDigests;
      PointAccMul(FoldedDigestsSlot, v.z, random, 2);
      SpliceSliceOutside(old(scratch), 2, [mul.x, mul.y, fd.x, fd.y], 0, 2);
      FrAccMulClaimed(v.zAtZetaOmega, random);
      EvalsCommitEc();
      ghost var s2 := scratch;
      ghost var d1 := slots.foldedDigests;
      ghost var e := ScratchPoint(scratch, 2);
      PointAdd(FoldedDigestsSlot, slots.foldedDigests, ScratchPoint(scratch, 2), 4);
      SpliceAt(s2, 4, [d1.x, d1.y, e.x, e.y]);
      assert scratch[..2] == s2[..2];
    }

    /** `point_mul` of [W_ζ] by ζ into the words from 4 on, `point_acc_mul` of [W_ζω] by
        random ζω into them, and their sum added to `state_folded_digests`. */
    method BatchPointsQuotients(v: ProofView, random: Word)
      requires 10 <= |scratch|
      modifies this
      ensures var q2 := PointsQuotients(vk, prims, v, old(slots), random, ScratchPoint(old(scratch), 4));
              var d3 := EcAdd(prims, old(slots).foldedDigests, q2.p, old(slots).foldedDigests);
        slots == old(slots).(foldedDigests := d3.p, success := old(slots).success && q2.ok && d3.ok)
      ensures |scratch| == |old(scratch)| && scratch[..2] == old(scratch)[..2]
    {
      ghost var st := slots;
      ghost var bo := v.batchOpeningAtZeta;
      PointMul(ScratchAt(4), v.batchOpeningAtZeta, slots.zeta, 6);
      ghost var q1 := EcMul(prims, bo, st.zeta, ScratchPoint(old(scratch), 4));
      ghost var s1 := Splice(old(scratch), 6, [bo.x, bo.y, st.zeta]);
      SetScratchAt(s1, ScratchAt(4), q1.p);
      SpliceSliceOutside(old(scratch), 6, [bo.x, bo.y, st.zeta], 0, 2);
      assert scratch[..2] == old(scratch)[..2];
      var zetaOmega := MulMod(slots.zeta, vk.omega);
      var r2 := MulMod(random, zetaOmega);
      ghost var s2 := scratch;
      PointAccMul(ScratchAt(4), v.openingAtZetaOmega, r2, 6);
      ghost var mul := EcMul(prims, v.openingAtZetaOmega, r2, v.openingAtZetaOmega).p;
      ghost var q2 := PointsQuotients(vk, prims, v, st, random, ScratchPoint(old(scratch), 4));
      ghost var s3 := Splice(s2, 6, [mul.x, mul.y, q1.p.x, q1.p.y]);
      SetScratchAt(s3, ScratchAt(4), q2.p);
      SpliceSliceOutside(s2, 6, [mul.x, mul.y, q1.p.x, q1.p.y], 0, 2);
      assert scratch[..2] == old(scratch)[..2];
      assert slots == st.(success := st.success && q2.ok);
      ghost var s4 := scratch;
      PointAdd(FoldedDigestsSlot, slots.foldedDigests, ScratchPoint(scratch, 4), 6);
      SpliceSliceOutside(s4, 6, [st.foldedDigests.x, st.foldedDigests.y, q2.p.x, q2.p.y], 0, 2);
    }

    /** The folded quotient's y negated in place, the twelve words of the pairing input
        from word 6 on, and `state_success` ANDed with the pairing call's status. */
    method BatchPairing(ghost q: G1)
      requires |vk.g2| == 8 && 18 <= |scratch| && ScratchPoint(scratch, 0) == q
      modifies this
      ensures slots == old(slots).(success := prims.pairing(PairingInput(vk, old(slots).foldedDigests, q)).Some? &&
                                              old(slots).success)
      ensures |scratch| == |old(scratch)|
    {
      ModuliAreWords();
      scratch := scratch[1 := Sub(P, scratch[1])];
      var fd := slots.foldedDigests;
      var input := [fd.x, fd.y] + vk.g2[..4] + [scratch[0], scratch[1]] + vk.g2[4..];
      assert input == PairingInput(vk, fd, q);
      SpliceSlice(scratch, 6, input);
      scratch := Splice(scratch, 6, input);
      var l := prims.pairing(scratch[6..18]);
      slots := slots.(success := l.Some? && slots.success);
    }

    /** `batch_verify_multi_points`: random from keccak256 of the word at the start of the
        state, then the folded quotient, the folded digest and the pairing call, with the
        scratch words from `state_last_mem` on. */
    method BatchVerifyMultiPoints(v: ProofView)
      requires |vk.g2| == 8 && 18 <= |scratch|
      modifies this
      ensures slots == Pipeline.BatchVerifyMultiPoints(vk, prims, v, old(slots))
      ensures |scratch| == |old(scratch)|
    {
      ModuliAreWords();
      var random := prims.keccak256(WordBytes(slots.alpha)) % R;
      ghost var st := slots;
      BatchFoldQuotients(v, random);
      ghost var q := FoldedQuotients(prims, v, random);
      BatchDigestEvals(v, random);
      ghost var fe := FrAccMul(st.foldedClaimedValues, v.zAtZetaOmega, random);
      ghost var d2 := AccAdd(prims, EcAccMul(prims, st.foldedDigests, v.z, random), EvalsCommit(prims, fe));
      assert slots == st.(foldedDigests := d2.p, foldedClaimedValues := fe, success := st.success && q.ok && d2.ok);
      BatchPointsQuotients(v, random);
      ghost var d := BatchDigest(vk, prims, v, st, random, fe);
      assert slots == st.(foldedDigests := d.p, foldedClaimedValues := fe, success := st.success && q.ok && d.ok);
      BatchPairing(q.p);
    }

    // -------------------------------------------------------------- the assembly block

    /** The first four calls of the assembly block of `Verify`. */
    method RunLinearised(v: ProofView)
      requires Shaped(vk, v) && 6 <= |scratch|
      modifies this
      ensures slots == AfterLinearised(vk, prims, v, old(slots))
      ensures |scratch| == |old(scratch)|
    {
      ComputeAlphaSquareLagrange0();
      VerifyQuotientPolyEvalAtZeta(v);
      assert slots == AfterQuotient(vk, v, old(slots));
      FoldH(v);
      ComputeCommitmentLinearisedPolynomial(v);
    }

    /** `compute_gamma_kzg`, then `fold_state` over the points it left in the scratch words. */
    method RunFold(v: ProofView)
      requires Shaped(vk, v) && 23 + 3 * |vk.qcp| <= |scratch|
      modifies this
      ensures slots == FoldAfterGamma(vk, prims, v, old(slots))
      ensures |scratch| == |old(scratch)|
    {
      GammaKzgForFold(v);
      FoldState(v);
    }

    /** `compute_gamma_kzg`, seen from `fold_state`: the points it reads are the ones
        hashed. */
    method GammaKzgForFold(v: ProofView)
      requires Shaped(vk, v) && 23 + 3 * |vk.qcp| <= |scratch|
      modifies this
      ensures slots == Pipeline.ComputeGammaKzg(vk, prims, v, old(slots))
      ensures |scratch| == |old(scratch)|
      ensures PointsOf(scratch[2..16 + 2 * |vk.qcp|]) == KzgPoints(old(slots).foldedH, old(slots).linearised, vk, v)
    {
      ComputeGammaKzg(v);
      GammaKzgPointsRead(old(scratch), old(slots).zeta, old(slots).foldedH, old(slots).linearised, vk, v);
    }

    /** The seven calls of the assembly block of `Verify`, in order. */
    method Run(v: ProofView)
      requires Shaped(vk, v) && 23 + 3 * |vk.qcp| <= |scratch|
      modifies this
      ensures slots == RunVerify(vk, prims, v, old(slots))
    {
      RunLinearised(v);
      RunFold(v);
      BatchVerifyMultiPoints(v);
    }
  }

  /** The running status of the custom-gate loop is the status it starts from AND the
      status of every call. */
  lemma {:induction false} CommitApiAccAnd(prims: Primitives, c: Call, b: bool, ws: seq<G1>, ss: seq<Word>)
    requires |ws| == |ss|
    ensures CommitApiAcc(prims, Call(c.p, b && c.ok), ws, ss) ==
            Call(CommitApiAcc(prims, c, ws, ss).p, b && CommitApiAcc(prims, c, ws, ss).ok)
    decreases |ss|
  {
    if |ss| > 0 {
      var n := |ss| - 1;
      CommitApiAccAnd(prims, c, b, ws[..n], ss[..n]);
    }
  }

  // ---------------------------------------------------------------- Verify

  /** The slots as the words from `state` on hold them: `state_alpha` at 0x00 up to
      `state_success` at 0x240; `state_sv`, `state_su`, `state_alpha_square_lagrange_one` and
      `state_check_var` are not read by any step. */
  function SlotsAt(b: seq<Word>, m: nat): Slots
    requires m + 20 <= |b|
  {
    Slots(b[m], b[m + 1], b[m + 2], b[m + 3], b[m + 6], G1(b[m + 7], b[m + 8]), G1(b[m + 9], b[m + 10]),
          b[m + 11], G1(b[m + 12], b[m + 13]), b[m + 14], b[m + 15], b[m + 17], b[m + 18] != 0)
  }

  /** Slots holding zeros, standing for whatever the free memory held. */
  const BLANK: Slots := Slots(0, 0, 0, 0, 0, G1(0, 0), G1(0, 0), 0, G1(0, 0), 0, 0, 0, false)

  /** What `Verify` returns for a proof, as a function of the key, the precompiles, the
      proof's bytes and the public inputs alone. */
  function Accepts(vk: VerifyingKey, prims: Primitives, proof: seq<Byte>, pub: seq<Word>): bool
    requires WellFormed(vk) && |proof| >= ProofSize(NbCommitments(vk)) && IndicesFit(vk, |pub|)
  {
    var c := Reduced(RawChallenges(vk, prims, proof, pub));
    var v := View(proof, NbCommitments(vk));
    RunVerify(vk, prims, v, Seeded(BLANK, c, PiSpec(vk, prims, v.wireCommitments, pub, c.zeta))).success
  }

  /** The two calls of `Verify` before its assembly block, the challenges and then PI at ζ,
      and the words at `mload(0x40)` after them: the slots and the scratch words. */
  method ChallengesAndPi(mem: Memory, vk: VerifyingKey, prims: Primitives, proof: seq<Byte>, pub: seq<Word>)
    returns (c: Challenges, pi: Option<Word>, leftover: Slots, scratch: seq<Word>)
    requires WellFormed(vk)
    requires |proof| >= ProofSize(NbCommitments(vk)) && |proof| >= WireReadEnd(NbCommitments(vk))
    requires mem.free + 23 + |pub| + 2 * NbCommitments(vk) <= mem.buf.Length
    requires mem.free + PiMemoryNeeded(NbCommitments(vk), |pub|) <= mem.buf.Length < WORD
    requires mem.free + 45 + 6 * NbCommitments(vk) <= mem.buf.Length
    modifies mem, mem.buf
    ensures c == Reduced(RawChallenges(vk, prims, proof, pub))
    ensures pi.Some? <==> IndicesFit(vk, |pub|)
    ensures pi.Some? ==> pi.value == PiSpec(vk, prims, View(proof, NbCommitments(vk)).wireCommitments, pub, c.zeta)
    ensures pi.Some? ==> 23 + 3 * NbCommitments(vk) <= |scratch|
  {
    c := DeriveGammaBetaAlphaZeta(mem, vk, prims, proof, pub);
    pi := mem.ComputePi(vk, prims, proof, pub, c.zeta);
    ViewWireCommitments(proof, NbCommitments(vk));
    if pi.Some? {
      var state := mem.free;
      leftover := SlotsAt(mem.buf[..], state);
      scratch := mem.buf[state + 20..];
    } else {
      leftover, scratch := BLANK, [];
    }
  }

  /** The verdict from any slots seeded with the challenges and PI is `Accepts`. */
  lemma AcceptsFrom(vk: VerifyingKey, prims: Primitives, proof: seq<Byte>, pub: seq<Word>, c: Challenges, pi: Word,
                    leftover: Slots)
    requires WellFormed(vk) && |proof| >= ProofSize(NbCommitments(vk)) && IndicesFit(vk, |pub|)
    requires c == Reduced(RawChallenges(vk, prims, proof, pub))
    requires pi == PiSpec(vk, prims, View(proof, NbCommitments(vk)).wireCommitments, pub, c.zeta)
    ensures Accepts(vk, prims, proof, pub) ==
            RunVerify(vk, prims, View(proof, NbCommitments(vk)), Seeded(leftover, c, pi)).success
  {
    VerdictIgnoresLeftovers(vk, prims, View(proof, NbCommitments(vk)), Seeded(leftover, c, pi), Seeded(BLANK, c, pi));
  }

  /** The assembly block on a fresh `Verifier` over the given slots and scratch words. */
  method RunOn(vk: VerifyingKey, prims: Primitives, v: ProofView, st: Slots, scratch: seq<Word>) returns (ok: bool)
    requires Shaped(vk, v) && 23 + 3 * |vk.qcp| <= |scratch|
    ensures ok == RunVerify(vk, prims, v, st).success
  {
    var verifier := new Verifier(vk, prims, st, scratch);
    verifier.Run(v);
    ok := verifier.slots.success;
  }

  /** `Verify(proof, public_inputs)`: the challenges, PI, the five seeded slots at
      `mload(0x40)`, then the assembly block. `None` is the revert of `compute_pi`; otherwise
      the verdict is `Accepts`, whatever the free memory held before. */
  method Verify(mem: Memory, vk: VerifyingKey, prims: Primitives, proof: seq<Byte>, pub: seq<Word>)
    returns (r: Option<bool>)
    requires WellFormed(vk)
    requires |proof| >= ProofSize(NbCommitments(vk)) && |proof| >= WireReadEnd(NbCommitments(vk))
    requires mem.free + 23 + |pub| + 2 * NbCommitments(vk) <= mem.buf.Length
    requires mem.free + PiMemoryNeeded(NbCommitments(vk), |pub|) <= mem.buf.Length < WORD
    requires mem.free + 45 + 6 * NbCommitments(vk) <= mem.buf.Length
    modifies mem, mem.buf
    ensures r.Some? <==> IndicesFit(vk, |pub|)
    ensures r.Some? ==> r.value == Accepts(vk, prims, proof, pub)
  {
    var c, pi, leftover, scratch := ChallengesAndPi(mem, vk, prims, proof, pub);
    if pi.None? {
      return None;
    }
    var ok := RunOn(vk, prims, View(proof, NbCommitments(vk)), Seeded(leftover, c, pi.value), scratch);
    AcceptsFrom(vk, prims, proof, pub, c, pi.value, leftover);
    r := Some(ok);
  }
}

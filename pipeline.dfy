/** The steps of `Verify` after the challenges and the public-input value, as functions of
    the `state_*` slots: what each Yul helper leaves in them, and what that means. Curve
    points are words; the precompiles are the oracles of `Primitives`, and identities between
    points are stated through a discrete-logarithm map `dlog` under `Homomorphic`. */
module Pipeline {
  import opened Words
  import opened Field
  import opened Curve
  import opened Layout
  import opened Lagrange
  import opened Transcript

  // ---------------------------------------------------------------- precompile calls

  /** What a curve precompile call leaves at its destination, and its status. A failing
      call writes nothing, so the destination keeps the point it held. */
  datatype Call = Call(p: G1, ok: bool)

  /** ECADD (0x06) of p and q into a destination that holds dst. */
  function EcAdd(prims: Primitives, p: G1, q: G1, dst: G1): Call
  {
    match prims.ecAdd(p, q)
    case Some(r) => Call(r, true)
    case None => Call(dst, false)
  }

  /** ECMUL (0x07) of src by s into a destination that holds dst. */
  function EcMul(prims: Primitives, src: G1, s: Word, dst: G1): Call
  {
    match prims.ecMul(src, s)
    case Some(r) => Call(r, true)
    case None => Call(dst, false)
  }

  /** `point_acc_mul(dst, src, s)`: ECMUL of src by s into the scratch words that hold a copy
      of src, then ECADD of those words and dst into dst; both statuses count. */
  function EcAccMul(prims: Primitives, dst: G1, src: G1, s: Word): Call
  {
    var m := EcMul(prims, src, s, src);
    var a := EcAdd(prims, m.p, dst, dst);
    Call(a.p, m.ok && a.ok)
  }

  /** `fr_acc_mul`: dst + src s mod r. */
  function FrAccMul(dst: Word, src: Word, s: Word): Word
  {
    AddMod(dst, MulMod(src, s))
  }

  lemma EcAddDlog(prims: Primitives, dlog: G1 -> nat, p: G1, q: G1, dst: G1)
    requires Homomorphic(prims, dlog)
    ensures EcAdd(prims, p, q, dst).ok <==> prims.ecAdd(p, q).Some?
    ensures EcAdd(prims, p, q, dst).ok ==> dlog(EcAdd(prims, p, q, dst).p) == (dlog(p) + dlog(q)) % R
    ensures !EcAdd(prims, p, q, dst).ok ==> EcAdd(prims, p, q, dst).p == dst
  {
  }

  lemma EcMulDlog(prims: Primitives, dlog: G1 -> nat, src: G1, s: Word, dst: G1)
    requires Homomorphic(prims, dlog)
    ensures EcMul(prims, src, s, dst).ok <==> prims.ecMul(src, s).Some?
    ensures EcMul(prims, src, s, dst).ok ==> dlog(EcMul(prims, src, s, dst).p) == (dlog(src) * s) % R
    ensures !EcMul(prims, src, s, dst).ok ==> EcMul(prims, src, s, dst).p == dst
  {
  }

  /** A successful `point_acc_mul` adds s times src to dst. */
  lemma EcAccMulDlog(prims: Primitives, dlog: G1 -> nat, dst: G1, src: G1, s: Word)
    requires Homomorphic(prims, dlog)
    ensures EcAccMul(prims, dst, src, s).ok ==>
      dlog(EcAccMul(prims, dst, src, s).p) == (dlog(dst) + dlog(src) * s) % R
  {
    var c := EcAccMul(prims, dst, src, s);
    if c.ok {
      var m := prims.ecMul(src, s).value;
      assert dlog(m) == (dlog(src) * s) % R;
      assert dlog(c.p) == (dlog(m) + dlog(dst)) % R;
      ModAddL(R, dlog(src) * s, dlog(dst));
    }
  }

  // ---------------------------------------------------------------- the state slots

  /** The slots from `state_alpha` to `state_success` that `Verify` writes or reads
      (`state_sv`, `state_su`, `state_alpha_square_lagrange_one` and the debugging slot
      `state_check_var` are not part of this model). `success` holds the word 0 or 1. */
  datatype Slots = Slots(
    alpha: Word, beta: Word, gamma: Word, zeta: Word,
    alphaSquareLagrange: Word,
    foldedH: G1,
    linearised: G1,
    foldedClaimedValues: Word,
    foldedDigests: G1,
    pi: Word,
    zetaPowerNMinusOne: Word,
    gammaKzg: Word,
    success: bool)

  // ---------------------------------------------------------------- compute_alpha_square_lagrange_0

  /** α² L_0(ζ) as `compute_alpha_square_lagrange_0` computes it:
      (ζ - 1)^(r-2) / n · (ζ^n - 1) · α · α. */
  function AlphaSquareLagrange0(vk: VerifyingKey, alpha: Word, zeta: Word): (res: Word)
    ensures res < R
  {
    ModuliAreWords();
    var zn := ZetaPowerNMinusOne(vk, zeta);
    var den := Modexp(AddMod(zeta, Sub(R, 1)), Sub(R, 2));
    var l0 := MulMod(MulMod(den, vk.invDomainSize), zn);
    MulMod(MulMod(l0, alpha), alpha)
  }

  /** The value is α² times `compute_ith_lagrange_at_z(ζ, 0)`. */
  lemma AlphaSquareLagrangeIsL0(vk: VerifyingKey, alpha: Word, zeta: Word)
    ensures AlphaSquareLagrange0(vk, alpha, zeta) == MulMod(MulMod(IthLagrange(vk, zeta, 0), alpha), alpha)
  {
    ModuliAreWords();
    assert Modexp(vk.omega, 0) == 1;
    var den := Modexp(AddMod(zeta, Sub(R, 1)), Sub(R, 2));
    assert Inverse(AddMod(zeta, Sub(R, Modexp(vk.omega, 0)))) == den;
    ModMulL(R, vk.invDomainSize, den);
    MulModComm(den, vk.invDomainSize);
    assert MulMod(MulMod(1, vk.invDomainSize), den) == MulMod(den, vk.invDomainSize);
  }

  function ComputeAlphaSquareLagrange0(vk: VerifyingKey, st: Slots): (s: Slots)
    ensures s == st.(zetaPowerNMinusOne := s.zetaPowerNMinusOne, alphaSquareLagrange := s.alphaSquareLagrange)
    ensures s.alphaSquareLagrange < R && s.zetaPowerNMinusOne < R
  {
    st.(zetaPowerNMinusOne := ZetaPowerNMinusOne(vk, st.zeta),
        alphaSquareLagrange := AlphaSquareLagrange0(vk, st.alpha, st.zeta))
  }

  // ---------------------------------------------------------------- verify_quotient_poly_eval_at_zeta

  /** The left side `verify_quotient_poly_eval_at_zeta` computes, operation for operation. */
  function QuotientLhs(v: ProofView, st: Slots): (c: Word)
    ensures c < R
  {
    ModuliAreWords();
    var a := AddMod(AddMod(MulMod(v.s1AtZeta, st.beta), st.gamma), v.lAtZeta);
    var b := AddMod(AddMod(MulMod(v.s2AtZeta, st.beta), st.gamma), v.rAtZeta);
    var o := AddMod(v.oAtZeta, st.gamma);
    var s := MulMod(MulMod(MulMod(MulMod(a, b), o), st.alpha), v.zAtZetaOmega);
    AddMod(AddMod(AddMod(v.linAtZeta, st.pi), s), Sub(R, st.alphaSquareLagrange))
  }

  /** The same over the integers: r(ζ) + PI + (l + β s1 + γ)(r + β s2 + γ)(o + γ) α z(ωζ) - α² L_0. */
  function QuotientValue(v: ProofView, st: Slots): int
  {
    v.linAtZeta + st.pi +
    Product([v.s1AtZeta * st.beta + st.gamma + v.lAtZeta, v.s2AtZeta * st.beta + st.gamma + v.rAtZeta,
             v.oAtZeta + st.gamma, st.alpha, v.zAtZetaOmega]) -
    st.alphaSquareLagrange
  }

  /** The check overwrites `state_success` with the comparison. */
  function VerifyQuotientPolyEvalAtZeta(v: ProofView, st: Slots): (s: Slots)
    ensures s == st.(success := s.success)
  {
    st.(success := QuotientLhs(v, st) == MulMod(v.tAtZeta, st.zetaPowerNMinusOne))
  }

  /** With α² L_0 reduced, the computed side is the residue of the integer formula, so
      the check holds exactly when that is congruent to t(ζ) (ζ^n - 1). */
  lemma QuotientIdentity(v: ProofView, st: Slots)
    requires st.alphaSquareLagrange < R
    ensures QuotientLhs(v, st) == QuotientValue(v, st) % R
    ensures VerifyQuotientPolyEvalAtZeta(v, st).success <==>
            QuotientValue(v, st) % R == (v.tAtZeta * st.zetaPowerNMinusOne) % R
  {
    QuotientLhsResidue(v, st);
  }

  lemma QuotientLhsResidue(v: ProofView, st: Slots)
    requires st.alphaSquareLagrange < R
    ensures QuotientLhs(v, st) == QuotientValue(v, st) % R
  {
    QuotientLhsUnfold(v, st);
    QuotientResidues(R, v.linAtZeta, st.pi, v.s1AtZeta, v.s2AtZeta, st.beta, st.gamma,
                     v.lAtZeta, v.rAtZeta, v.oAtZeta, st.alpha, v.zAtZetaOmega, st.alphaSquareLagrange);
    ProductOfFive(v.s1AtZeta * st.beta + st.gamma + v.lAtZeta, v.s2AtZeta * st.beta + st.gamma + v.rAtZeta,
                  v.oAtZeta + st.gamma, st.alpha, v.zAtZetaOmega);
  }

  /** QuotientLhs with the modulus spelt out. */
  lemma QuotientLhsUnfold(v: ProofView, st: Slots)
    requires st.alphaSquareLagrange < R
    ensures var a := (((v.s1AtZeta * st.beta) % R + st.gamma) % R + v.lAtZeta) % R;
            var b := (((v.s2AtZeta * st.beta) % R + st.gamma) % R + v.rAtZeta) % R;
            var s := (((((((a * b) % R) * ((v.oAtZeta + st.gamma) % R)) % R) * st.alpha) % R) * v.zAtZetaOmega) % R;
            QuotientLhs(v, st) == (((v.linAtZeta + st.pi) % R + s) % R + (R - st.alphaSquareLagrange)) % R
  {
    var a := AddMod(AddMod(MulMod(v.s1AtZeta, st.beta), st.gamma), v.lAtZeta);
    var b := AddMod(AddMod(MulMod(v.s2AtZeta, st.beta), st.gamma), v.rAtZeta);
    var o := AddMod(v.oAtZeta, st.gamma);
    FactorUnfold(v.s1AtZeta, st.beta, st.gamma, v.lAtZeta);
    FactorUnfold(v.s2AtZeta, st.beta, st.gamma, v.rAtZeta);
    ChainUnfold(a, b, o, st.alpha, v.zAtZetaOmega);
    SumUnfold(v.linAtZeta, st.pi, MulMod(MulMod(MulMod(MulMod(a, b), o), st.alpha), v.zAtZetaOmega),
              st.alphaSquareLagrange);
  }

  /** `addmod(addmod(mulmod(x, c), g), l)` with the modulus spelt out. */
  lemma FactorUnfold(x: Word, c: Word, g: Word, l: Word)
    ensures AddMod(AddMod(MulMod(x, c), g), l) == (((x * c) % R + g) % R + l) % R
  {
  }

  /** Four `mulmod`s in a row with the modulus spelt out. */
  lemma ChainUnfold(a: Word, b: Word, o: Word, d: Word, e: Word)
    ensures MulMod(MulMod(MulMod(MulMod(a, b), o), d), e) == (((((((a * b) % R) * o) % R) * d) % R) * e) % R
  {
  }

  /** lin + pi + s - c as QuotientLhs adds them, with the modulus spelt out. */
  lemma SumUnfold(lin: Word, pi: Word, s: Word, c: Word)
    requires c < R
    ensures AddMod(AddMod(AddMod(lin, pi), s), Sub(R, c)) == (((lin + pi) % R + s) % R + (R - c)) % R
  {
    ModuliAreWords();
  }

  /** QuotientLhsResidue for any modulus m, with Sub(R, c) written m - c. */
  lemma QuotientResidues(m: int, lin: int, pi: int, x1: int, x2: int, beta: int, gamma: int,
                         l: int, r: int, o: int, alpha: int, z: int, c: int)
    requires m > 0 && 0 <= c < m
    ensures var a := (((x1 * beta) % m + gamma) % m + l) % m;
            var b := (((x2 * beta) % m + gamma) % m + r) % m;
            var s := (((((((a * b) % m) * ((o + gamma) % m)) % m) * alpha) % m) * z) % m;
            (((lin + pi) % m + s) % m + (m - c)) % m ==
            (lin + pi + (x1 * beta + gamma + l) * (x2 * beta + gamma + r) * (o + gamma) * alpha * z - c) % m
  {
    var A := x1 * beta + gamma + l;
    var B := x2 * beta + gamma + r;
    var O := o + gamma;
    var a := (((x1 * beta) % m + gamma) % m + l) % m;
    assert a == A % m by { Affine(m, x1, x1, beta, gamma, l); }
    var b := (((x2 * beta) % m + gamma) % m + r) % m;
    assert b == B % m by { Affine(m, x2, x2, beta, gamma, r); }
    var S := A * B * O * alpha * z;
    var s := (((((((a * b) % m) * (O % m)) % m) * alpha) % m) * z) % m;
    assert s == S % m by { MulChain5(m, a, b, O % m, A, B, O, alpha, z); }
    var X := lin + pi + S;
    assert ((lin + pi) % m + s) % m == X % m by { ModAddBoth(m, lin + pi, S); }
    assert (X % m + (m - c)) % m == (X - c) % m by {
      ModAddL(m, X, m - c);
      ModAddMultiple(m, X - c, 1);
    }
  }

  // ---------------------------------------------------------------- fold_h

  /** `fold_h`: [H0] + ζ^(n+2) ([H1] + ζ^(n+2) [H2]), by two multiplications and two additions
      into `state_folded_h` (n + 2 wraps like `add`). */
  function FoldHCall(vk: VerifyingKey, prims: Primitives, v: ProofView, st: Slots): Call
  {
    var zp := Modexp(st.zeta, Add(vk.domainSize, 2));
    var c1 := EcMul(prims, v.h2, zp, st.foldedH);
    var c2 := EcAdd(prims, c1.p, v.h1, c1.p);
    var c3 := EcMul(prims, c2.p, zp, c2.p);
    var c4 := EcAdd(prims, c3.p, v.h0, c3.p);
    Call(c4.p, c1.ok && c2.ok && c3.ok && c4.ok)
  }

  function FoldH(vk: VerifyingKey, prims: Primitives, v: ProofView, st: Slots): (s: Slots)
    ensures s == st.(foldedH := s.foldedH, success := s.success)
    ensures s.success ==> st.success
  {
    var c := FoldHCall(vk, prims, v, st);
    st.(foldedH := c.p, success := st.success && c.ok)
  }

  /** When the four calls succeed, the folded commitment is the Horner form. */
  lemma FoldHHorner(vk: VerifyingKey, prims: Primitives, dlog: G1 -> nat, v: ProofView, st: Slots)
    requires Homomorphic(prims, dlog)
    ensures var zp := Modexp(st.zeta, Add(vk.domainSize, 2));
            FoldH(vk, prims, v, st).success ==>
            dlog(FoldH(vk, prims, v, st).foldedH) == (dlog(v.h0) + zp * (dlog(v.h1) + zp * dlog(v.h2))) % R
  {
    FoldHCallHorner(vk, prims, dlog, v, st);
  }

  lemma FoldHCallHorner(vk: VerifyingKey, prims: Primitives, dlog: G1 -> nat, v: ProofView, st: Slots)
    requires Homomorphic(prims, dlog)
    ensures var zp := Modexp(st.zeta, Add(vk.domainSize, 2));
            FoldHCall(vk, prims, v, st).ok ==>
            dlog(FoldHCall(vk, prims, v, st).p) == (dlog(v.h0) + zp * (dlog(v.h1) + zp * dlog(v.h2))) % R
  {
    var zp := Modexp(st.zeta, Add(vk.domainSize, 2));
    var c1 := EcMul(prims, v.h2, zp, st.foldedH);
    var c2 := EcAdd(prims, c1.p, v.h1, c1.p);
    var c3 := EcMul(prims, c2.p, zp, c2.p);
    var c4 := EcAdd(prims, c3.p, v.h0, c3.p);
    if FoldHCall(vk, prims, v, st).ok {
      assert c1.ok && c2.ok && c3.ok && c4.ok;
      EcMulDlog(prims, dlog, v.h2, zp, st.foldedH);
      EcAddDlog(prims, dlog, c1.p, v.h1, c1.p);
      EcMulDlog(prims, dlog, c2.p, zp, c2.p);
      EcAddDlog(prims, dlog, c3.p, v.h0, c3.p);
      HornerMod(R, dlog(v.h0), dlog(v.h1), dlog(v.h2), zp, dlog(c1.p), dlog(c2.p), dlog(c3.p), dlog(c4.p));
    }
  }

  // ---------------------------------------------------------------- compute_commitment_linearised_polynomial

  /** s1 = z(ωζ) β (β s1(ζ) + l(ζ) + γ)(β s2(ζ) + r(ζ) + γ) α, operation for operation. */
  function LinearisedS1(v: ProofView, st: Slots): (s1: Word)
    ensures s1 < R
  {
    var u := MulMod(v.zAtZetaOmega, st.beta);
    var w1 := AddMod(AddMod(MulMod(st.beta, v.s1AtZeta), v.lAtZeta), st.gamma);
    var w2 := AddMod(AddMod(MulMod(st.beta, v.s2AtZeta), v.rAtZeta), st.gamma);
    MulMod(MulMod(MulMod(u, w1), w2), st.alpha)
  }

  /** (bz + l + γ)(5 bz + r + γ)(25 bz + o + γ), with 25 computed as `mulmod(5, 5)`. */
  function CosetProduct(bz: Word, l: Word, r: Word, o: Word, g: Word): Word
  {
    var cs := MulMod(COSET_SHIFT, COSET_SHIFT);
    var u := AddMod(AddMod(bz, l), g);
    var w := AddMod(AddMod(MulMod(bz, COSET_SHIFT), r), g);
    var x := AddMod(AddMod(MulMod(bz, cs), o), g);
    MulMod(MulMod(u, w), x)
  }

  /** s2 = -(β ζ + l(ζ) + γ)(5 β ζ + r(ζ) + γ)(25 β ζ + o(ζ) + γ) α + α² L_0, with the
      coset shift 5 and `sub(r_mod, s2)` for the negation. */
  function LinearisedS2(v: ProofView, st: Slots): (s2: Word)
    ensures s2 < R
  {
    ModuliAreWords();
    var s := CosetProduct(MulMod(st.beta, st.zeta), v.lAtZeta, v.rAtZeta, v.oAtZeta, st.gamma);
    AddMod(MulMod(Sub(R, s), st.alpha), st.alphaSquareLagrange)
  }

  lemma LinearisedS1Formula(v: ProofView, st: Slots)
    ensures LinearisedS1(v, st) ==
      Product([v.zAtZetaOmega, st.beta, st.beta * v.s1AtZeta + v.lAtZeta + st.gamma,
               st.beta * v.s2AtZeta + v.rAtZeta + st.gamma, st.alpha]) % R
  {
    LinearisedS1Unfold(v, st);
    S1Residues(R, v.zAtZetaOmega, st.beta, v.s1AtZeta, v.s2AtZeta, v.lAtZeta, v.rAtZeta, st.gamma, st.alpha);
    ProductOfFive(v.zAtZetaOmega, st.beta, st.beta * v.s1AtZeta + v.lAtZeta + st.gamma,
                  st.beta * v.s2AtZeta + v.rAtZeta + st.gamma, st.alpha);
  }

  /** LinearisedS1 with the modulus spelt out. */
  lemma LinearisedS1Unfold(v: ProofView, st: Slots)
    ensures var u := (v.zAtZetaOmega * st.beta) % R;
            var w1 := (((st.beta * v.s1AtZeta) % R + v.lAtZeta) % R + st.gamma) % R;
            var w2 := (((st.beta * v.s2AtZeta) % R + v.rAtZeta) % R + st.gamma) % R;
            LinearisedS1(v, st) == (((((u * w1) % R) * w2) % R) * st.alpha) % R
  {
    var u := MulMod(v.zAtZetaOmega, st.beta);
    var w1 := AddMod(AddMod(MulMod(st.beta, v.s1AtZeta), v.lAtZeta), st.gamma);
    var w2 := AddMod(AddMod(MulMod(st.beta, v.s2AtZeta), v.rAtZeta), st.gamma);
    FactorUnfold(st.beta, v.s1AtZeta, v.lAtZeta, st.gamma);
    FactorUnfold(st.beta, v.s2AtZeta, v.rAtZeta, st.gamma);
    ChainUnfold3(u, w1, w2, st.alpha);
  }

  /** Three `mulmod`s in a row with the modulus spelt out. */
  lemma ChainUnfold3(a: Word, b: Word, c: Word, d: Word)
    ensures MulMod(MulMod(MulMod(a, b), c), d) == (((((a * b) % R) * c) % R) * d) % R
  {
  }

  /** LinearisedS1Formula for any modulus m. */
  lemma S1Residues(m: int, z: int, beta: int, x1: int, x2: int, l: int, r: int, gamma: int, alpha: int)
    requires m > 0
    ensures var u := (z * beta) % m;
            var w1 := (((beta * x1) % m + l) % m + gamma) % m;
            var w2 := (((beta * x2) % m + r) % m + gamma) % m;
            (((((u * w1) % m) * w2) % m) * alpha) % m ==
            (z * beta * (beta * x1 + l + gamma) * (beta * x2 + r + gamma) * alpha) % m
  {
    var u := (z * beta) % m;
    var w1 := (((beta * x1) % m + l) % m + gamma) % m;
    assert w1 == (beta * x1 + l + gamma) % m by { Affine(m, beta, beta, x1, l, gamma); }
    var w2 := (((beta * x2) % m + r) % m + gamma) % m;
    assert w2 == (beta * x2 + r + gamma) % m by { Affine(m, beta, beta, x2, r, gamma); }
    MulChain4(m, u, w1, w2, z * beta, beta * x1 + l + gamma, beta * x2 + r + gamma, alpha);
  }

  /** The three factors of s2 for bz the residue of β ζ. */
  lemma CosetFactors(bz: Word, BZ: int, l: Word, r: Word, o: Word, g: Word)
    requires bz == BZ % R
    ensures CosetProduct(bz, l, r, o, g) == Product([BZ + l + g, BZ * 5 + r + g, BZ * 25 + o + g]) % R
  {
    CosetProductUnfold(bz, l, r, o, g);
    CosetResidues(R, bz, BZ, l, r, o, g);
    ProductOfThree(BZ + l + g, BZ * 5 + r + g, BZ * 25 + o + g);
  }

  /** CosetProduct written with the modulus and the squared shift spelt out. */
  lemma CosetProductUnfold(bz: Word, l: Word, r: Word, o: Word, g: Word)
    ensures CosetProduct(bz, l, r, o, g) ==
            ((((((bz + l) % R + g) % R) * ((((bz * 5) % R + r) % R + g) % R)) % R) *
             ((((bz * 25) % R + o) % R + g) % R)) % R
  {
    ShiftSquared();
    var u := AddMod(AddMod(bz, l), g);
    var w := AddMod(AddMod(MulMod(bz, COSET_SHIFT), r), g);
    var x := AddMod(AddMod(MulMod(bz, 25), o), g);
    assert CosetProduct(bz, l, r, o, g) == MulMod(MulMod(u, w), x);
  }

  lemma ShiftSquared()
    ensures MulMod(COSET_SHIFT, COSET_SHIFT) == 25
  {
    SmallMod(R, 25);
  }

  /** CosetFactors for any modulus. */
  lemma CosetResidues(m: int, bz: int, BZ: int, l: int, r: int, o: int, g: int)
    requires m > 0 && bz == BZ % m
    ensures ((((((bz + l) % m + g) % m) * ((((bz * 5) % m + r) % m + g) % m)) % m) *
             ((((bz * 25) % m + o) % m + g) % m)) % m ==
            ((BZ + l + g) * (BZ * 5 + r + g) * (BZ * 25 + o + g)) % m
  {
    var f1 := ((bz + l) % m + g) % m;
    var f2 := (((bz * 5) % m + r) % m + g) % m;
    var f3 := (((bz * 25) % m + o) % m + g) % m;
    CosetFactorResidues(m, bz, BZ, l, r, o, g);
    Product3(m, f1, f2, f3, BZ + l + g, BZ * 5 + r + g, BZ * 25 + o + g);
  }

  lemma CosetFactorResidues(m: int, bz: int, BZ: int, l: int, r: int, o: int, g: int)
    requires m > 0 && bz == BZ % m
    ensures ((bz + l) % m + g) % m == (BZ + l + g) % m
    ensures (((bz * 5) % m + r) % m + g) % m == (BZ * 5 + r + g) % m
    ensures (((bz * 25) % m + o) % m + g) % m == (BZ * 25 + o + g) % m
  {
    ModAddL(m, BZ, l);
    ModAddL(m, BZ + l, g);
    ModMod(m, BZ);
    Affine(m, bz, BZ, 5, r, g);
    Affine(m, bz, BZ, 25, o, g);
  }

  /** -(f1 f2 f3) a + c is c - f1 f2 f3 a. */
  lemma NegProduct(f1: int, f2: int, f3: int, a: int, c: int)
    ensures -Product([f1, f2, f3]) * a + c == c - Product([f1, f2, f3, a])
  {
    ProductOfThree(f1, f2, f3);
    ProductOfFour(f1, f2, f3, a);
  }

  /** α² L_0(ζ) - (β ζ + l(ζ) + γ)(5 β ζ + r(ζ) + γ)(25 β ζ + o(ζ) + γ) α over the integers. */
  ghost function LinearisedS2Value(v: ProofView, st: Slots): int
  {
    st.alphaSquareLagrange -
    Product([st.beta * st.zeta + v.lAtZeta + st.gamma, st.beta * st.zeta * 5 + v.rAtZeta + st.gamma,
             st.beta * st.zeta * 25 + v.oAtZeta + st.gamma, st.alpha])
  }

  lemma LinearisedS2Formula(v: ProofView, st: Slots)
    ensures LinearisedS2(v, st) == LinearisedS2Value(v, st) % R
  {
    var bz := MulMod(st.beta, st.zeta);
    var f1 := st.beta * st.zeta + v.lAtZeta + st.gamma;
    var f2 := st.beta * st.zeta * 5 + v.rAtZeta + st.gamma;
    var f3 := st.beta * st.zeta * 25 + v.oAtZeta + st.gamma;
    var cp := CosetProduct(bz, v.lAtZeta, v.rAtZeta, v.oAtZeta, st.gamma);
    CosetFactors(bz, st.beta * st.zeta, v.lAtZeta, v.rAtZeta, v.oAtZeta, st.gamma);
    NegScale(cp, Product([f1, f2, f3]), st.alpha, st.alphaSquareLagrange);
    NegProduct(f1, f2, f3, st.alpha, st.alphaSquareLagrange);
  }

  // ---------------------------------------------------------------- accumulating into a slot

  /** `point_acc_mul` into a slot, with the running status c.ok. */
  function AccMul(prims: Primitives, c: Call, src: G1, s: Word): Call
  {
    var r := EcAccMul(prims, c.p, src, s);
    Call(r.p, c.ok && r.ok)
  }

  /** `point_add(dst, dst, q)` into a slot, with the running status c.ok. */
  function AccAdd(prims: Primitives, c: Call, q: G1): Call
  {
    var r := EcAdd(prims, c.p, q, c.p);
    Call(r.p, c.ok && r.ok)
  }

  lemma AccMulDlog(prims: Primitives, dlog: G1 -> nat, c: Call, src: G1, s: Word)
    requires Homomorphic(prims, dlog)
    ensures AccMul(prims, c, src, s).ok ==>
      c.ok && dlog(AccMul(prims, c, src, s).p) == (dlog(c.p) + dlog(src) * s) % R
  {
    EcAccMulDlog(prims, dlog, c.p, src, s);
  }

  lemma AccAddDlog(prims: Primitives, dlog: G1 -> nat, c: Call, q: G1)
    requires Homomorphic(prims, dlog)
    ensures AccAdd(prims, c, q).ok ==> c.ok && dlog(AccAdd(prims, c, q).p) == (dlog(c.p) + dlog(q)) % R
  {
    EcAddDlog(prims, dlog, c.p, q, c.p);
  }

  // ---------------------------------------------------------------- compute_commitment_linearised_polynomial_ec

  /** The custom-gate loop: `point_acc_mul` of wire commitment i by selector opening i, for
      i = 0, 1, ... in order. */
  function CommitApiAcc(prims: Primitives, c: Call, ws: seq<G1>, ss: seq<Word>): (r: Call)
    requires |ws| == |ss|
    ensures r.ok ==> c.ok
    decreases |ss|
  {
    if |ss| == 0 then c
    else
      var n := |ss| - 1;
      AccMul(prims, CommitApiAcc(prims, c, ws[..n], ss[..n]), ws[n], ss[n])
  }

  /** Σ dlog(ws[i]) ss[i]. */
  ghost function DlogDot(dlog: G1 -> nat, ws: seq<G1>, ss: seq<Word>): int
    requires |ws| == |ss|
    decreases |ss|
  {
    if |ss| == 0 then 0
    else
      var n := |ss| - 1;
      DlogDot(dlog, ws[..n], ss[..n]) + dlog(ws[n]) * ss[n]
  }

  /** When every call of the loop succeeds, it adds Σ ss[i] [ws[i]]. */
  lemma {:induction false} CommitApiAccDlog(prims: Primitives, dlog: G1 -> nat, c: Call, ws: seq<G1>, ss: seq<Word>)
    requires Homomorphic(prims, dlog) && |ws| == |ss|
    ensures CommitApiAcc(prims, c, ws, ss).ok ==>
      c.ok && dlog(CommitApiAcc(prims, c, ws, ss).p) % R == (dlog(c.p) + DlogDot(dlog, ws, ss)) % R
    decreases |ss|
  {
    if |ss| > 0 {
      var n := |ss| - 1;
      var prev := CommitApiAcc(prims, c, ws[..n], ss[..n]);
      CommitApiAccDlog(prims, dlog, c, ws[..n], ss[..n]);
      AccMulDlog(prims, dlog, prev, ws[n], ss[n]);
      if CommitApiAcc(prims, c, ws, ss).ok {
        AccCong(R, dlog(prev.p), dlog(c.p) + DlogDot(dlog, ws[..n], ss[..n]), dlog(ws[n]) * ss[n],
                dlog(ws[n]) * ss[n], dlog(CommitApiAcc(prims, c, ws, ss).p));
      }
    }
  }

  /** The first three gate terms l(ζ)[Ql] + r(ζ)[Qr] + (l r)(ζ)[Qm], from a first ECMUL into
      a slot holding `start`. */
  function GatesLR(vk: VerifyingKey, prims: Primitives, v: ProofView, start: G1): Call
  {
    var c1 := EcMul(prims, vk.ql, v.lAtZeta, start);
    var c2 := AccMul(prims, c1, vk.qr, v.rAtZeta);
    AccMul(prims, c2, vk.qm, MulMod(v.lAtZeta, v.rAtZeta))
  }

  /** The gate part: the three terms above, then o(ζ)[Qo] + [Qk]. */
  function LinearisedGates(vk: VerifyingKey, prims: Primitives, v: ProofView, start: G1): Call
  {
    var c4 := AccMul(prims, GatesLR(vk, prims, v, start), vk.qo, v.oAtZeta);
    AccAdd(prims, c4, vk.qk)
  }

  /** The gates, then the custom-gate terms Σ qc'_i(ζ)[W_i]. */
  function LinearisedCustom(vk: VerifyingKey, prims: Primitives, v: ProofView, start: G1): Call
    requires |v.wireCommitments| == |v.selectorOpenings|
  {
    CommitApiAcc(prims, LinearisedGates(vk, prims, v, start), v.wireCommitments, v.selectorOpenings)
  }

  /** `compute_commitment_linearised_polynomial_ec`: the gates, the custom gates, then
      s1[S3] and s2[Z]. */
  function LinearisedEc(vk: VerifyingKey, prims: Primitives, v: ProofView, start: G1, s1: Word, s2: Word): Call
    requires |v.wireCommitments| == |v.selectorOpenings|
  {
    var c7 := AccMul(prims, LinearisedCustom(vk, prims, v, start), vk.s3, s1);
    AccMul(prims, c7, v.z, s2)
  }

  ghost function GatesDlogValue(vk: VerifyingKey, dlog: G1 -> nat, v: ProofView): int
  {
    dlog(vk.ql) * v.lAtZeta + dlog(vk.qr) * v.rAtZeta + dlog(vk.qm) * (v.lAtZeta * v.rAtZeta) +
    dlog(vk.qo) * v.oAtZeta + dlog(vk.qk)
  }

  ghost function LinearisedDlogValue(vk: VerifyingKey, dlog: G1 -> nat, v: ProofView, s1: Word, s2: Word): int
    requires |v.wireCommitments| == |v.selectorOpenings|
  {
    GatesDlogValue(vk, dlog, v) + DlogDot(dlog, v.wireCommitments, v.selectorOpenings) +
    dlog(vk.s3) * s1 + dlog(v.z) * s2
  }

  lemma GatesLRDlog(vk: VerifyingKey, prims: Primitives, dlog: G1 -> nat, v: ProofView, start: G1)
    requires Homomorphic(prims, dlog)
    ensures GatesLR(vk, prims, v, start).ok ==>
      dlog(GatesLR(vk, prims, v, start).p) % R ==
      (dlog(vk.ql) * v.lAtZeta + dlog(vk.qr) * v.rAtZeta + dlog(vk.qm) * (v.lAtZeta * v.rAtZeta)) % R
  {
    var l, r := v.lAtZeta, v.rAtZeta;
    var c1 := EcMul(prims, vk.ql, l, start);
    var c2 := AccMul(prims, c1, vk.qr, r);
    var c3 := AccMul(prims, c2, vk.qm, MulMod(l, r));
    EcMulDlog(prims, dlog, vk.ql, l, start);
    AccMulDlog(prims, dlog, c1, vk.qr, r);
    AccMulDlog(prims, dlog, c2, vk.qm, MulMod(l, r));
    if c3.ok {
      assert c2.ok && c1.ok;
      assert dlog(c1.p) == (dlog(vk.ql) * l) % R;
      assert dlog(c2.p) == (dlog(c1.p) + dlog(vk.qr) * r) % R;
      assert dlog(c3.p) == (dlog(c2.p) + dlog(vk.qm) * ((l as int * r) % R)) % R;
      LRChain(dlog(c1.p), dlog(c2.p), dlog(c3.p), dlog(vk.ql) * l, dlog(vk.qr) * r, dlog(vk.qm), l as int * r);
    }
  }

  lemma LinearisedGatesDlog(vk: VerifyingKey, prims: Primitives, dlog: G1 -> nat, v: ProofView, start: G1)
    requires Homomorphic(prims, dlog)
    ensures LinearisedGates(vk, prims, v, start).ok ==>
      dlog(LinearisedGates(vk, prims, v, start).p) % R == GatesDlogValue(vk, dlog, v) % R
  {
    var c3 := GatesLR(vk, prims, v, start);
    var c4 := AccMul(prims, c3, vk.qo, v.oAtZeta);
    var c5 := AccAdd(prims, c4, vk.qk);
    GatesLRDlog(vk, prims, dlog, v, start);
    AccMulDlog(prims, dlog, c3, vk.qo, v.oAtZeta);
    AccAddDlog(prims, dlog, c4, vk.qk);
    if c5.ok {
      assert c4.ok && c3.ok;
      TailChain(dlog(c3.p), dlog(c4.p), dlog(c5.p),
                dlog(vk.ql) * v.lAtZeta + dlog(vk.qr) * v.rAtZeta + dlog(vk.qm) * (v.lAtZeta * v.rAtZeta),
                dlog(vk.qo) * v.oAtZeta, dlog(vk.qk));
    }
  }

  lemma LRChain(e1: int, e2: int, e3: int, a1: int, a2: int, q: int, lr: int)
    requires e1 == a1 % R && e2 == (e1 + a2) % R && e3 == (e2 + q * (lr % R)) % R
    ensures e3 % R == (a1 + a2 + q * lr) % R
  {
    ModMulR(R, q, lr);
    ModMod(R, a1);
    AccCong(R, e1, a1, a2, a2, e2);
    AccCong(R, e2, a1 + a2, q * (lr % R), q * lr, e3);
  }

  lemma ShiftCong(x: int, y: int, g: int, d: int)
    requires x % R == (y + d) % R && y % R == g % R
    ensures x % R == (g + d) % R
  {
    AddCong(R, y, d, g, d);
  }

  lemma TailChain(e3: int, e4: int, e5: int, s3: int, a4: int, a5: int)
    requires e3 % R == s3 % R && e4 == (e3 + a4) % R && e5 == (e4 + a5) % R
    ensures e5 % R == (s3 + a4 + a5) % R
  {
    AccCong(R, e3, s3, a4, a4, e4);
    AccCong(R, e4, s3 + a4, a5, a5, e5);
  }


  /** When every call succeeds, the linearised commitment is the combination above. */
  lemma LinearisedCustomDlog(vk: VerifyingKey, prims: Primitives, dlog: G1 -> nat, v: ProofView, start: G1)
    requires Homomorphic(prims, dlog) && |v.wireCommitments| == |v.selectorOpenings|
    ensures LinearisedCustom(vk, prims, v, start).ok ==>
      dlog(LinearisedCustom(vk, prims, v, start).p) % R ==
      (GatesDlogValue(vk, dlog, v) + DlogDot(dlog, v.wireCommitments, v.selectorOpenings)) % R
  {
    var c5 := LinearisedGates(vk, prims, v, start);
    LinearisedGatesDlog(vk, prims, dlog, v, start);
    CommitApiAccDlog(prims, dlog, c5, v.wireCommitments, v.selectorOpenings);
    var c6 := LinearisedCustom(vk, prims, v, start);
    if c6.ok {
      var g, dd := GatesDlogValue(vk, dlog, v), DlogDot(dlog, v.wireCommitments, v.selectorOpenings);
      assert c5.ok;
      assert dlog(c6.p) % R == (dlog(c5.p) + dd) % R;
      assert dlog(c5.p) % R == g % R;
      ShiftCong(dlog(c6.p), dlog(c5.p), g, dd);
    }
  }

  lemma LinearisedEcDlog(vk: VerifyingKey, prims: Primitives, dlog: G1 -> nat, v: ProofView, start: G1, s1: Word, s2: Word)
    requires Homomorphic(prims, dlog) && |v.wireCommitments| == |v.selectorOpenings|
    ensures LinearisedEc(vk, prims, v, start, s1, s2).ok ==>
      dlog(LinearisedEc(vk, prims, v, start, s1, s2).p) % R == LinearisedDlogValue(vk, dlog, v, s1, s2) % R
  {
    var c6 := LinearisedCustom(vk, prims, v, start);
    var c7 := AccMul(prims, c6, vk.s3, s1);
    var c8 := AccMul(prims, c7, v.z, s2);
    LinearisedCustomDlog(vk, prims, dlog, v, start);
    AccMulDlog(prims, dlog, c6, vk.s3, s1);
    AccMulDlog(prims, dlog, c7, v.z, s2);
    LinearisedTail(dlog, c6, c7, c8, GatesDlogValue(vk, dlog, v) + DlogDot(dlog, v.wireCommitments, v.selectorOpenings),
                   vk.s3, s1, v.z, s2);
  }

  /** The last two accumulations of the linearised commitment, on discrete logarithms. */
  lemma LinearisedTail(dlog: G1 -> nat, c6: Call, c7: Call, c8: Call, s3: int, q3: G1, s1: Word, z: G1, s2: Word)
    requires c6.ok ==> dlog(c6.p) % R == s3 % R
    requires c7.ok ==> c6.ok && dlog(c7.p) == (dlog(c6.p) + dlog(q3) * s1) % R
    requires c8.ok ==> c7.ok && dlog(c8.p) == (dlog(c7.p) + dlog(z) * s2) % R
    ensures c8.ok ==> dlog(c8.p) % R == (s3 + dlog(q3) * s1 + dlog(z) * s2) % R
  {
    if c8.ok {
      TailChain(dlog(c6.p), dlog(c7.p), dlog(c8.p), s3, dlog(q3) * s1, dlog(z) * s2);
    }
  }

  /** `compute_commitment_linearised_polynomial`: the scalars, then the curve part into
      `state_linearised_polynomial`. */
  function ComputeCommitmentLinearisedPolynomial(vk: VerifyingKey, prims: Primitives, v: ProofView, st: Slots): (s: Slots)
    requires |v.wireCommitments| == |v.selectorOpenings|
    ensures s == st.(linearised := s.linearised, success := s.success)
    ensures s.success ==> st.success
  {
    var c := LinearisedEc(vk, prims, v, st.linearised, LinearisedS1(v, st), LinearisedS2(v, st));
    st.(linearised := c.p, success := st.success && c.ok)
  }

  // ---------------------------------------------------------------- compute_gamma_kzg

  /** `compute_gamma_kzg`: SHA-256 of the buffer it writes, reduced mod r. */
  function ComputeGammaKzg(vk: VerifyingKey, prims: Primitives, v: ProofView, st: Slots): (s: Slots)
    ensures s == st.(gammaKzg := s.gammaKzg) && s.gammaKzg < R
  {
    st.(gammaKzg := prims.sha256(GammaKzgPreimage(st.zeta, st.foldedH, st.linearised, vk, v)) % R)
  }

  // ---------------------------------------------------------------- fold_state

  datatype Folded = Folded(digest: Call, claimed: Word)

  /** `acc_gamma` at step j >= 1 of `fold_state`: γ, then one more `mulmod` by γ per step. */
  function GammaPower(g: Word, j: nat): Word
    requires j >= 1
  {
    if j == 1 then g else MulMod(GammaPower(g, j - 1), g)
  }

  lemma {:induction false} GammaPowerIsPow(g: Word, j: nat)
    requires g < R && j >= 1
    ensures GammaPower(g, j) == Pow(g, j) % R
  {
    if j == 1 {
      assert Pow(g, 1) == g * Pow(g, 0);
      SmallMod(R, g);
    } else {
      GammaPowerIsPow(g, j - 1);
      PowStep(R, g, j - 1);
    }
  }

  /** The first n steps of `fold_state` over the points ps and the scalars xs: the digest
      starts at ps[0] and the claimed value at xs[0]; step j adds γ^j times ps[j] and xs[j]. */
  function FoldPrefix(prims: Primitives, g: Word, ps: seq<G1>, xs: seq<Word>, n: nat): Folded
    requires 1 <= n <= |ps| && |ps| == |xs|
  {
    if n == 1 then Folded(Call(ps[0], true), xs[0])
    else
      var f := FoldPrefix(prims, g, ps, xs, n - 1);
      var a := GammaPower(g, n - 1);
      Folded(AccMul(prims, f.digest, ps[n - 1], a), FrAccMul(f.claimed, xs[n - 1], a))
  }

  /** Σ_{j<n} xs[j] γ^j. */
  function PowSum(xs: seq<Word>, g: Word, n: nat): int
    requires n <= |xs|
  {
    if n == 0 then 0 else PowSum(xs, g, n - 1) + xs[n - 1] * Pow(g, n - 1)
  }

  /** Σ_{j<n} dlog(ps[j]) γ^j. */
  ghost function DlogPowSum(dlog: G1 -> nat, ps: seq<G1>, g: Word, n: nat): int
    requires n <= |ps|
  {
    if n == 0 then 0 else DlogPowSum(dlog, ps, g, n - 1) + dlog(ps[n - 1]) * Pow(g, n - 1)
  }

  /** One `fr_acc_mul` by a reduced power of γ keeps the running value the residue of the sum. */
  lemma FrAccMulStep(c: Word, S: int, x: Word, a: Word, g: Word, j: nat)
    requires c % R == S % R && a == Pow(g, j) % R
    ensures FrAccMul(c, x, a) == (S + x * Pow(g, j)) % R
  {
    ModMod(R, x * a);
    ModMulR(R, x, Pow(g, j));
    AccCong(R, c, S, MulMod(x, a), x * Pow(g, j), FrAccMul(c, x, a));
    SmallMod(R, FrAccMul(c, x, a));
  }

  /** The claimed values are folded with the same powers of γ as the points. */
  lemma {:induction false} FoldClaimed(prims: Primitives, g: Word, ps: seq<G1>, xs: seq<Word>, n: nat)
    requires g < R && 1 <= n <= |ps| && |ps| == |xs|
    ensures FoldPrefix(prims, g, ps, xs, n).claimed % R == PowSum(xs, g, n) % R
    ensures n >= 2 ==> FoldPrefix(prims, g, ps, xs, n).claimed == PowSum(xs, g, n) % R
  {
    if n == 1 {
      assert Pow(g, 0) == 1;
      assert PowSum(xs, g, 1) == xs[0];
    } else {
      var f := FoldPrefix(prims, g, ps, xs, n - 1);
      FoldClaimed(prims, g, ps, xs, n - 1);
      GammaPowerIsPow(g, n - 1);
      FrAccMulStep(f.claimed, PowSum(xs, g, n - 1), xs[n - 1], GammaPower(g, n - 1), g, n - 1);
      ModMod(R, PowSum(xs, g, n));
    }
  }

  /** When every call succeeds, the folded digest is Σ γ^j [ps[j]]. */
  lemma {:induction false} FoldDigest(prims: Primitives, dlog: G1 -> nat, g: Word, ps: seq<G1>, xs: seq<Word>, n: nat)
    requires Homomorphic(prims, dlog)
    requires g < R && 1 <= n <= |ps| && |ps| == |xs|
    ensures FoldPrefix(prims, g, ps, xs, n).digest.ok ==>
      dlog(FoldPrefix(prims, g, ps, xs, n).digest.p) % R == DlogPowSum(dlog, ps, g, n) % R
  {
    if n == 1 {
      assert Pow(g, 0) == 1;
      assert DlogPowSum(dlog, ps, g, 1) == dlog(ps[0]);
    } else {
      var f := FoldPrefix(prims, g, ps, xs, n - 1);
      var a := GammaPower(g, n - 1);
      FoldDigest(prims, dlog, g, ps, xs, n - 1);
      AccMulDlog(prims, dlog, f.digest, ps[n - 1], a);
      if FoldPrefix(prims, g, ps, xs, n).digest.ok {
        GammaPowerIsPow(g, n - 1);
        ModMulR(R, dlog(ps[n - 1]), Pow(g, n - 1));
        AccCong(R, dlog(f.digest.p), DlogPowSum(dlog, ps, g, n - 1), dlog(ps[n - 1]) * a,
                dlog(ps[n - 1]) * Pow(g, n - 1), dlog(FoldPrefix(prims, g, ps, xs, n).digest.p));
      }
    }
  }

  /** `fold_state` over the points it reads and the openings: both folds into their slots. */
  function FoldState(prims: Primitives, ps: seq<G1>, xs: seq<Word>, st: Slots): (s: Slots)
    requires 1 <= |ps| && |ps| == |xs|
    ensures s == st.(foldedDigests := s.foldedDigests, foldedClaimedValues := s.foldedClaimedValues,
                     success := s.success)
    ensures s.success ==> st.success
  {
    var f := FoldPrefix(prims, st.gammaKzg, ps, xs, |ps|);
    st.(foldedDigests := f.digest.p, foldedClaimedValues := f.claimed, success := st.success && f.digest.ok)
  }

  /** `fold_state` weighs the j-th point and the j-th scalar by the same γ^j. */
  lemma FoldStateLockStep(prims: Primitives, dlog: G1 -> nat, ps: seq<G1>, xs: seq<Word>, st: Slots)
    requires Homomorphic(prims, dlog)
    requires st.gammaKzg < R && 2 <= |ps| && |ps| == |xs|
    ensures FoldState(prims, ps, xs, st).foldedClaimedValues == PowSum(xs, st.gammaKzg, |xs|) % R
    ensures FoldState(prims, ps, xs, st).success ==>
      dlog(FoldState(prims, ps, xs, st).foldedDigests) % R == DlogPowSum(dlog, ps, st.gammaKzg, |ps|) % R
  {
    FoldClaimed(prims, st.gammaKzg, ps, xs, |ps|);
    FoldDigest(prims, dlog, st.gammaKzg, ps, xs, |ps|);
  }

  // ---------------------------------------------------------------- batch_verify_multi_points

  /** The batching scalar: keccak256 of the 32 bytes at the start of the state (α), mod r. */
  function BatchRandom(prims: Primitives, st: Slots): (random: Word)
    ensures random < R
  {
    ModuliAreWords();
    prims.keccak256(WordBytes(st.alpha)) % R
  }

  /** [W_ζ] + random [W_ζω], accumulated in place over the copy of [W_ζ]. */
  function FoldedQuotients(prims: Primitives, v: ProofView, random: Word): Call
  {
    EcAccMul(prims, v.batchOpeningAtZeta, v.openingAtZetaOmega, random)
  }

  /** -[fe]G: an ECMUL of (1, 2) by the folded evaluation, whose status is dropped, so a
      failure leaves (1, 2) in place; then y := p - y. */
  function EvalsCommit(prims: Primitives, fe: Word): G1
  {
    Negate(EcMul(prims, GENERATOR, fe, GENERATOR).p)
  }

  /** ζ [W_ζ] + random ζ ω [W_ζω], from a `point_mul` into a slot holding `dst`. */
  function PointsQuotients(vk: VerifyingKey, prims: Primitives, v: ProofView, st: Slots, random: Word, dst: G1): Call
  {
    var q1 := EcMul(prims, v.batchOpeningAtZeta, st.zeta, dst);
    AccMul(prims, q1, v.openingAtZetaOmega, MulMod(random, MulMod(st.zeta, vk.omega)))
  }

  /** The left pairing point: the folded digests + random [Z] - [fe]G + ζ [W_ζ]
      + random ζ ω [W_ζω], with the status of every call but the dropped one. */
  function BatchDigest(vk: VerifyingKey, prims: Primitives, v: ProofView, st: Slots, random: Word, fe: Word): Call
  {
    var d1 := EcAccMul(prims, st.foldedDigests, v.z, random);
    var q2 := PointsQuotients(vk, prims, v, st, random, d1.p);
    var d3 := AccAdd(prims, AccAdd(prims, d1, EvalsCommit(prims, fe)), q2.p);
    Call(d3.p, d3.ok && q2.ok)
  }

  /** The twelve words passed to the pairing precompile: the digest, the first G2 point of
      the SRS, the negated folded quotient, the second G2 point. */
  function PairingInput(vk: VerifyingKey, d: G1, q: G1): (ws: seq<Word>)
    requires |vk.g2| == 8
    ensures |ws| == 12 && ws[0] == d.x && ws[1] == d.y
    ensures ws[6] == Negate(q).x && ws[7] == Negate(q).y
    ensures ws[2..6] == vk.g2[..4] && ws[8..] == vk.g2[4..]
  {
    [d.x, d.y] + vk.g2[..4] + [Negate(q).x, Negate(q).y] + vk.g2[4..]
  }

  /** `batch_verify_multi_points`: the folded digests and the folded claimed value are
      updated in their slots; `success` is ANDed with the statuses and with the status of
      the pairing call. The word the pairing writes at 0x00 is not read. */
  function BatchVerifyMultiPoints(vk: VerifyingKey, prims: Primitives, v: ProofView, st: Slots): (s: Slots)
    requires |vk.g2| == 8
    ensures s == st.(foldedDigests := s.foldedDigests, foldedClaimedValues := s.foldedClaimedValues,
                     success := s.success)
    ensures s.success ==> st.success
  {
    var random := BatchRandom(prims, st);
    var q := FoldedQuotients(prims, v, random);
    var fe := FrAccMul(st.foldedClaimedValues, v.zAtZetaOmega, random);
    var d := BatchDigest(vk, prims, v, st, random, fe);
    var pairing := prims.pairing(PairingInput(vk, d.p, q.p));
    st.(foldedDigests := d.p, foldedClaimedValues := fe,
        success := pairing.Some? && st.success && q.ok && d.ok)
  }

  /** The folded quotient is [W_ζ] + random [W_ζω], and the pairing receives its negation. */
  lemma FoldedQuotientsDlog(prims: Primitives, dlog: G1 -> nat, v: ProofView, random: Word)
    requires Homomorphic(prims, dlog)
    ensures FoldedQuotients(prims, v, random).ok ==>
      dlog(Negate(FoldedQuotients(prims, v, random).p)) ==
      (-(dlog(v.batchOpeningAtZeta) + dlog(v.openingAtZetaOmega) * random)) % R
  {
    var q := FoldedQuotients(prims, v, random);
    EcAccMulDlog(prims, dlog, v.batchOpeningAtZeta, v.openingAtZetaOmega, random);
    if q.ok {
      NegResidue(R, dlog(q.p), dlog(v.batchOpeningAtZeta) + dlog(v.openingAtZetaOmega) * random);
    }
  }

  /** When the dropped ECMUL succeeds the point is -[fe]G; when it fails it is -G, and the
      verdict does not see the failure. */
  lemma EvalsCommitDlog(prims: Primitives, dlog: G1 -> nat, fe: Word)
    requires Homomorphic(prims, dlog)
    ensures prims.ecMul(GENERATOR, fe).Some? ==>
      dlog(EvalsCommit(prims, fe)) == (-(dlog(GENERATOR) * fe)) % R
    ensures prims.ecMul(GENERATOR, fe).None? ==> EvalsCommit(prims, fe) == Negate(GENERATOR)
  {
    var e0 := EcMul(prims, GENERATOR, fe, GENERATOR);
    EcMulDlog(prims, dlog, GENERATOR, fe, GENERATOR);
    if e0.ok {
      ModMod(R, dlog(GENERATOR) * fe);
      NegResidue(R, dlog(e0.p), dlog(GENERATOR) * fe);
    }
  }

  /** The value the digest takes when every counted call succeeds. */
  ghost function BatchDigestValue(vk: VerifyingKey, prims: Primitives, dlog: G1 -> nat, v: ProofView, st: Slots,
                                  random: Word, fe: Word): int
  {
    dlog(st.foldedDigests) + dlog(v.z) * random - dlog(EcMul(prims, GENERATOR, fe, GENERATOR).p) +
    dlog(v.batchOpeningAtZeta) * st.zeta +
    dlog(v.openingAtZetaOmega) * MulMod(random, MulMod(st.zeta, vk.omega))
  }

  lemma PointsQuotientsDlog(vk: VerifyingKey, prims: Primitives, dlog: G1 -> nat, v: ProofView, st: Slots,
                             random: Word, dst: G1)
    requires Homomorphic(prims, dlog)
    ensures PointsQuotients(vk, prims, v, st, random, dst).ok ==>
      dlog(PointsQuotients(vk, prims, v, st, random, dst).p) % R ==
      (dlog(v.batchOpeningAtZeta) * st.zeta + dlog(v.openingAtZetaOmega) * MulMod(random, MulMod(st.zeta, vk.omega))) % R
  {
    var r2 := MulMod(random, MulMod(st.zeta, vk.omega));
    var q1 := EcMul(prims, v.batchOpeningAtZeta, st.zeta, dst);
    EcMulDlog(prims, dlog, v.batchOpeningAtZeta, st.zeta, dst);
    AccMulDlog(prims, dlog, q1, v.openingAtZetaOmega, r2);
    var q2 := AccMul(prims, q1, v.openingAtZetaOmega, r2);
    if q2.ok {
      assert q1.ok;
      ModMod(R, dlog(v.batchOpeningAtZeta) * st.zeta);
      AccCong(R, dlog(q1.p), dlog(v.batchOpeningAtZeta) * st.zeta, dlog(v.openingAtZetaOmega) * r2,
              dlog(v.openingAtZetaOmega) * r2, dlog(q2.p));
    }
  }

  lemma DigestEvalsDlog(prims: Primitives, dlog: G1 -> nat, v: ProofView, st: Slots, random: Word, fe: Word)
    requires Homomorphic(prims, dlog)
    ensures AccAdd(prims, EcAccMul(prims, st.foldedDigests, v.z, random), EvalsCommit(prims, fe)).ok ==>
      dlog(AccAdd(prims, EcAccMul(prims, st.foldedDigests, v.z, random), EvalsCommit(prims, fe)).p) % R ==
      (dlog(st.foldedDigests) + dlog(v.z) * random - dlog(EcMul(prims, GENERATOR, fe, GENERATOR).p)) % R
  {
    var d1 := EcAccMul(prims, st.foldedDigests, v.z, random);
    var ec := EvalsCommit(prims, fe);
    var d2 := AccAdd(prims, d1, ec);
    var E: int := dlog(EcMul(prims, GENERATOR, fe, GENERATOR).p);
    EcAccMulDlog(prims, dlog, st.foldedDigests, v.z, random);
    AccAddDlog(prims, dlog, d1, ec);
    assert dlog(ec) == (R - E % R) % R;
    SubtractTail(dlog, d1, ec, d2, dlog(st.foldedDigests) + dlog(v.z) * random, E);
  }

  /** Adding a point whose logarithm is the residue of -E subtracts E. */
  lemma SubtractTail(dlog: G1 -> nat, d1: Call, ec: G1, d2: Call, base: int, E: int)
    requires d1.ok ==> dlog(d1.p) == base % R
    requires d2.ok ==> d1.ok && dlog(d2.p) == (dlog(d1.p) + dlog(ec)) % R
    requires dlog(ec) == (R - E % R) % R
    ensures d2.ok ==> dlog(d2.p) % R == (base - E) % R
  {
    if d2.ok {
      NegResidue(R, E, E);
      ModMod(R, -E);
      ModMod(R, base);
      AccCong(R, dlog(d1.p), base, dlog(ec), -E, dlog(d2.p));
    }
  }

  lemma BatchDigestDlog(vk: VerifyingKey, prims: Primitives, dlog: G1 -> nat, v: ProofView, st: Slots,
                        random: Word, fe: Word)
    requires Homomorphic(prims, dlog)
    ensures BatchDigest(vk, prims, v, st, random, fe).ok ==>
      dlog(BatchDigest(vk, prims, v, st, random, fe).p) % R ==
      BatchDigestValue(vk, prims, dlog, v, st, random, fe) % R
  {
    var d1 := EcAccMul(prims, st.foldedDigests, v.z, random);
    var d2 := AccAdd(prims, d1, EvalsCommit(prims, fe));
    var q2 := PointsQuotients(vk, prims, v, st, random, d1.p);
    var d3 := AccAdd(prims, d2, q2.p);
    DigestEvalsDlog(prims, dlog, v, st, random, fe);
    PointsQuotientsDlog(vk, prims, dlog, v, st, random, d1.p);
    AccAddDlog(prims, dlog, d2, q2.p);
    if d3.ok && q2.ok {
      assert d2.ok;
      var S := dlog(st.foldedDigests) + dlog(v.z) * random - dlog(EcMul(prims, GENERATOR, fe, GENERATOR).p);
      var X := dlog(v.batchOpeningAtZeta) * st.zeta + dlog(v.openingAtZetaOmega) * MulMod(random, MulMod(st.zeta, vk.omega));
      assert dlog(d3.p) % R == (S + X) % R by {
        AccCong(R, dlog(d2.p), S, dlog(q2.p), X, dlog(d3.p));
      }
      assert BatchDigestValue(vk, prims, dlog, v, st, random, fe) == S + X;
    }
  }

  /** After `batch_verify_multi_points` the folded claimed value has taken the z(ζω)
      term, and when the flag is set the two pairing points are the batched digest and the
      negated folded quotient. */
  lemma BatchVerifyDlog(vk: VerifyingKey, prims: Primitives, dlog: G1 -> nat, v: ProofView, st: Slots)
    requires |vk.g2| == 8 && Homomorphic(prims, dlog)
    ensures var random := BatchRandom(prims, st);
            var fe := FrAccMul(st.foldedClaimedValues, v.zAtZetaOmega, random);
            var q := FoldedQuotients(prims, v, random);
            var s := BatchVerifyMultiPoints(vk, prims, v, st);
            s.foldedClaimedValues == (st.foldedClaimedValues + (v.zAtZetaOmega * random) % R) % R &&
            (s.success ==>
             dlog(s.foldedDigests) % R == BatchDigestValue(vk, prims, dlog, v, st, random, fe) % R &&
             dlog(Negate(q.p)) == (-(dlog(v.batchOpeningAtZeta) + dlog(v.openingAtZetaOmega) * random)) % R)
  {
    var random := BatchRandom(prims, st);
    var fe := FrAccMul(st.foldedClaimedValues, v.zAtZetaOmega, random);
    BatchDigestDlog(vk, prims, dlog, v, st, random, fe);
    FoldedQuotientsDlog(prims, dlog, v, random);
  }

  /** The multiplier of [W_ζω] is random ζ ω. */
  lemma ZetaOmegaRandom(random: Word, zeta: Word, omega: Word)
    requires random < R
    ensures MulMod(random, MulMod(zeta, omega)) == (random * (zeta * omega)) % R
  {
    MulModStep(random, random, MulMod(zeta, omega), zeta * omega);
  }
}

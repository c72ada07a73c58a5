/** Specification of the scalar kernel: Montgomery batch inversion and the Lagrange
    basis evaluated at a point, in the exact operation order of the Yul code. */
module Lagrange {
  import opened Words
  import opened Field
  import opened Layout

  // ---------------------------------------------------------------- batch inversion

  /** The running products `[1, a0, a0 a1, ...]` of `batch_invert`'s first loop. */
  function Prefix(a: seq<Word>, k: nat): (p: Word)
    requires k <= |a|
    ensures p < R
  {
    if k == 0 then 1 else MulMod(Prefix(a, k - 1), a[k - 1])
  }

  /** The accumulator `inv` of the second loop once it has passed index i: the inverse
      of the full product, multiplied back by a[n-1], ..., a[i]. */
  function AccInv(a: seq<Word>, i: nat): (v: Word)
    requires i <= |a|
    ensures v < R
    decreases |a| - i
  {
    if i == |a| then Inverse(Prefix(a, |a|)) else MulMod(AccInv(a, i + 1), a[i])
  }

  /** What `batch_invert` writes at index i: `mulmod(inv, prefix_i)` with the accumulator
      that has passed i + 1. */
  function BatchInvertedAt(a: seq<Word>, i: nat): Word
    requires i < |a|
  {
    MulMod(AccInv(a, i + 1), Prefix(a, i))
  }

  /** What `batch_invert` leaves in place of its input. */
  function BatchInverted(a: seq<Word>): (out: seq<Word>)
    ensures |out| == |a|
  {
    seq(|a|, i requires 0 <= i < |a| => BatchInvertedAt(a, i))
  }

  lemma {:induction false} PrefixNonzero(a: seq<Word>, k: nat)
    requires Fermat()
    requires forall i :: 0 <= i < |a| ==> a[i] % R != 0
    requires k <= |a|
    ensures Prefix(a, k) != 0
  {
    if k > 0 {
      PrefixNonzero(a, k - 1);
      SmallMod(R, Prefix(a, k - 1));
      NoZeroDivisor(Prefix(a, k - 1), a[k - 1]);
    }
  }

  /** The loop invariant of the second loop: `inv` is the inverse of the prefix product. */
  lemma {:induction false} AccInvTimesPrefix(a: seq<Word>, i: nat)
    requires Fermat()
    requires forall j :: 0 <= j < |a| ==> a[j] % R != 0
    requires i <= |a|
    ensures MulMod(AccInv(a, i), Prefix(a, i)) == 1
    decreases |a| - i
  {
    if i == |a| {
      FullInverse(a);
    } else {
      AccInvTimesPrefix(a, i + 1);
      AccInvStep(a, i);
    }
  }

  lemma FullInverse(a: seq<Word>)
    requires Fermat()
    requires forall j :: 0 <= j < |a| ==> a[j] % R != 0
    ensures MulMod(AccInv(a, |a|), Prefix(a, |a|)) == 1
  {
    PrefixNonzero(a, |a|);
    InverseCorrect(Prefix(a, |a|));
    MulModComm(Prefix(a, |a|), Inverse(Prefix(a, |a|)));
  }

  /** inv a_i times the prefix below a_i is inv times the prefix up to a_i. */
  lemma AccInvStep(a: seq<Word>, i: nat)
    requires i < |a|
    ensures MulMod(AccInv(a, i), Prefix(a, i)) == MulMod(AccInv(a, i + 1), Prefix(a, i + 1))
  {
    var acc := AccInv(a, i + 1);
    MulModAssoc(R, acc, a[i], Prefix(a, i));
    MulModComm(a[i], Prefix(a, i));
    MulModAssoc(R, acc, Prefix(a, i), a[i]);
  }

  lemma BatchInvertedInvertsAt(a: seq<Word>, i: nat)
    requires Fermat()
    requires forall j :: 0 <= j < |a| ==> a[j] % R != 0
    requires i < |a|
    ensures MulMod(BatchInverted(a)[i], a[i]) == 1 && BatchInverted(a)[i] == Inverse(a[i])
  {
    var out := BatchInverted(a)[i];
    var acc := AccInv(a, i + 1);
    var pre := Prefix(a, i);
    assert out == MulMod(acc, pre);
    AccInvTimesPrefix(a, i + 1);
    assert MulMod(acc, MulMod(pre, a[i])) == 1;
    MulModAssoc(R, acc, pre, a[i]);
    assert MulMod(out, a[i]) == 1;
    MulModComm(out, a[i]);
    InverseCorrect(a[i]);
    var inv := Inverse(a[i]);
    InverseUnique(a[i], out, inv);
    SmallMod(R, out);
    SmallMod(R, inv);
  }

  /** With r prime and no zero input, every output is the inverse of its input. */
  lemma BatchInvertedInverts(a: seq<Word>)
    requires Fermat()
    requires forall i :: 0 <= i < |a| ==> a[i] % R != 0
    ensures forall i :: 0 <= i < |a| ==>
      MulMod(BatchInverted(a)[i], a[i]) == 1 && BatchInverted(a)[i] == Inverse(a[i])
  {
    forall i | 0 <= i < |a|
      ensures MulMod(BatchInverted(a)[i], a[i]) == 1 && BatchInverted(a)[i] == Inverse(a[i])
    {
      BatchInvertedInvertsAt(a, i);
    }
  }

  lemma {:induction false} PrefixZero(a: seq<Word>, j: nat, k: nat)
    requires j < k <= |a|
    requires a[j] % R == 0
    ensures Prefix(a, k) == 0
  {
    if k == j + 1 {
      MulModZero(R, a[j], Prefix(a, j));
      MulModComm(Prefix(a, j), a[j]);
    } else {
      PrefixZero(a, j, k - 1);
    }
  }

  lemma {:induction false} AccInvZero(a: seq<Word>, j: nat, i: nat)
    requires j < |a| && i <= |a|
    requires a[j] % R == 0
    ensures AccInv(a, i) == 0
    decreases |a| - i
  {
    if i == |a| {
      PrefixZero(a, j, |a|);
      InverseOfZero(0);
    } else {
      AccInvZero(a, j, i + 1);
      assert BatchInverted(a)[i] == MulMod(0, Prefix(a, i));
    }
  }

  /** A zero input turns every output into zero, and nothing signals it. */
  lemma BatchInvertedZero(a: seq<Word>, j: nat)
    requires j < |a| && a[j] % R == 0
    ensures forall i :: 0 <= i < |a| ==> BatchInverted(a)[i] == 0
  {
    forall i | 0 <= i < |a|
      ensures BatchInverted(a)[i] == 0
    {
      AccInvZero(a, j, i + 1);
      assert BatchInverted(a)[i] == MulMod(0, Prefix(a, i));
    }
  }

  // ---------------------------------------------------------------- Lagrange basis

  /** ω^i mod r, the running value `_w` of `batch_compute_lagranges_at_z`. */
  function OmegaPow(vk: VerifyingKey, i: nat): (w: Word)
    ensures w < R
  {
    ModuliAreWords();
    Pow(vk.omega, i) % R
  }

  /** `compute_ith_lagrange_at_z(zeta, i)`, operation for operation:
      ω^i / n · (ζ - ω^i)^(r-2) · (ζ^n - 1). */
  function IthLagrange(vk: VerifyingKey, zeta: Word, i: Word): (res: Word)
    ensures res < R
  {
    var w := Modexp(vk.omega, i);
    var d := AddMod(zeta, Sub(R, w));
    var zn := AddMod(Modexp(zeta, vk.domainSize), Sub(R, 1));
    var wn := MulMod(w, vk.invDomainSize);
    MulMod(MulMod(wn, Inverse(d)), zn)
  }

  /** ζ^n - 1 mod r as `addmod(pow(z, n), sub(r_mod, 1))`. */
  function ZetaPowerNMinusOne(vk: VerifyingKey, zeta: Word): (v: Word)
    ensures v < R
  {
    AddMod(Modexp(zeta, vk.domainSize), Sub(R, 1))
  }

  /** The first loop of `batch_compute_lagranges_at_z` writes ζ - ω^i. */
  function Denominators(vk: VerifyingKey, zeta: Word, n: nat): (d: seq<Word>)
    ensures |d| == n
  {
    seq(n, i requires 0 <= i < n => DenominatorAt(vk, zeta, i))
  }

  function DenominatorAt(vk: VerifyingKey, zeta: Word, i: nat): Word
  {
    AddMod(zeta, Sub(R, OmegaPow(vk, i)))
  }

  /** The third loop: each inverse times (ζ^n - 1)/n, then times ω^i. */
  function BatchLagranges(vk: VerifyingKey, zeta: Word, n: nat): (ls: seq<Word>)
    ensures |ls| == n
  {
    var zn := MulMod(ZetaPowerNMinusOne(vk, zeta), vk.invDomainSize);
    var inv := BatchInverted(Denominators(vk, zeta, n));
    seq(n, i requires 0 <= i < n => ScaledAt(vk, inv, zn, i))
  }

  function ScaledAt(vk: VerifyingKey, inv: seq<Word>, zn: Word, i: nat): Word
    requires i < |inv|
  {
    MulMod(MulMod(inv[i], zn), OmegaPow(vk, i))
  }

  /** ζ + (r - w) vanishes mod r exactly when ζ is w mod r. */
  lemma SubZero(zeta: Word, w: Word)
    requires w < R
    ensures AddMod(zeta, Sub(R, w)) == 0 <==> zeta % R == w
  {
    ModuliAreWords();
    assert Sub(R, w) == R - w;
    ModAddMultiple(R, zeta - w, 1);
    ModSub(R, zeta, w);
    SmallMod(R, w);
  }

  lemma DenominatorZero(vk: VerifyingKey, zeta: Word, n: nat, i: nat)
    requires i < n
    ensures Denominators(vk, zeta, n)[i] == 0 <==> zeta % R == OmegaPow(vk, i)
  {
    SubZero(zeta, OmegaPow(vk, i));
  }

  /** The two products in `mulmod` chains, reassociated: (a b) c and a (b c) up to order. */
  lemma Product4(a: Word, b: Word, c: Word, d: Word)
    ensures MulMod(MulMod(MulMod(a, b), c), d) == MulMod(MulMod(c, MulMod(d, b)), a)
  {
    MulModAssoc(R, a, b, c);
    MulModComm(a, MulMod(b, c));
    MulModAssoc(R, MulMod(b, c), a, d);
    MulModComm(a, d);
    MulModAssoc(R, MulMod(b, c), d, a);
    MulModComm(b, c);
    MulModAssoc(R, c, b, d);
    MulModComm(b, d);
  }

  /** Away from the roots ω^i, the batched evaluation is `compute_ith_lagrange_at_z`. */
  lemma BatchLagrangesAgree(vk: VerifyingKey, zeta: Word, n: nat)
    requires Fermat()
    requires n < WORD
    requires forall j :: 0 <= j < n ==> zeta % R != OmegaPow(vk, j)
    ensures forall i :: 0 <= i < n ==> BatchLagranges(vk, zeta, n)[i] == IthLagrange(vk, zeta, i)
  {
    var d := Denominators(vk, zeta, n);
    forall j | 0 <= j < n
      ensures d[j] % R != 0
    {
      DenominatorZero(vk, zeta, n, j);
    }
    BatchInvertedInverts(d);
    forall i | 0 <= i < n
      ensures BatchLagranges(vk, zeta, n)[i] == IthLagrange(vk, zeta, i)
    {
      assert Modexp(vk.omega, i) == OmegaPow(vk, i);
      Product4(OmegaPow(vk, i), vk.invDomainSize, Inverse(d[i]), ZetaPowerNMinusOne(vk, zeta));
    }
  }

  /** r | ω^n - 1: ω is a root of unity of order dividing the domain size. */
  predicate OmegaOfDomainOrder(vk: VerifyingKey)
  {
    Pow(vk.omega, vk.domainSize) % R == 1
  }

  /** ζ^n = 1 at a root ω^j when ω^n = 1. */
  lemma RootPower(vk: VerifyingKey, zeta: Word, j: nat)
    requires OmegaOfDomainOrder(vk)
    requires zeta % R == OmegaPow(vk, j)
    ensures ZetaPowerNMinusOne(vk, zeta) == 0
  {
    ModuliAreWords();
    var n := vk.domainSize;
    calc {
      Modexp(zeta, n);
      Pow(zeta, n) % R;
      { PowMod(R, zeta, n); }
      Pow(Pow(vk.omega, j) % R, n) % R;
      { PowMod(R, Pow(vk.omega, j), n); }
      Pow(Pow(vk.omega, j), n) % R;
      { PowMul(vk.omega, j, n); PowMul(vk.omega, n, j); assert j * n == n * j; }
      Pow(Pow(vk.omega, n), j) % R;
      { PowMod(R, Pow(vk.omega, n), j); }
      Pow(1, j) % R;
      { PowOne(j); }
      1;
    }
    assert Sub(R, 1) == R - 1;
  }

  /** At a root ω^j every basis value is 0, `compute_ith_lagrange_at_z(ω^j, j)` included,
      where the Lagrange polynomial itself is 1. */
  lemma IthLagrangeAtRoot(vk: VerifyingKey, zeta: Word, i: Word, j: nat)
    requires OmegaOfDomainOrder(vk)
    requires zeta % R == OmegaPow(vk, j)
    ensures IthLagrange(vk, zeta, i) == 0
  {
    RootPower(vk, zeta, j);
  }

  /** At a root ω^j the zero denominator zeroes every batched value. */
  lemma BatchLagrangesAtRoot(vk: VerifyingKey, zeta: Word, n: nat, j: nat)
    requires j < n && zeta % R == OmegaPow(vk, j)
    ensures forall i :: 0 <= i < n ==> BatchLagranges(vk, zeta, n)[i] == 0
  {
    var d := Denominators(vk, zeta, n);
    DenominatorZero(vk, zeta, n, j);
    BatchInvertedZero(d, j);
    var zn := MulMod(ZetaPowerNMinusOne(vk, zeta), vk.invDomainSize);
    forall i | 0 <= i < n
      ensures BatchLagranges(vk, zeta, n)[i] == 0
    {
      assert BatchLagranges(vk, zeta, n)[i] == ScaledAt(vk, BatchInverted(d), zn, i);
    }
  }

  /** When ω has the domain's order, the batched and the single evaluations agree at every
      ζ: at a root both are 0. */
  lemma BatchLagrangesAgreeOnDomain(vk: VerifyingKey, zeta: Word, n: nat)
    requires Fermat()
    requires n < WORD
    requires OmegaOfDomainOrder(vk)
    ensures forall i :: 0 <= i < n ==> BatchLagranges(vk, zeta, n)[i] == IthLagrange(vk, zeta, i)
  {
    if j :| 0 <= j < n && zeta % R == OmegaPow(vk, j) {
      BatchLagrangesAtRoot(vk, zeta, n, j);
      forall i | 0 <= i < n
        ensures BatchLagranges(vk, zeta, n)[i] == IthLagrange(vk, zeta, i)
      {
        IthLagrangeAtRoot(vk, zeta, i, j);
      }
    } else {
      BatchLagrangesAgree(vk, zeta, n);
    }
  }

  /** The evaluation inverts its denominator: L_i(ζ) (ζ - ω^i) = ω^i / n (ζ^n - 1). */
  lemma IthLagrangeFormula(vk: VerifyingKey, zeta: Word, i: Word)
    requires Fermat()
    requires zeta % R != OmegaPow(vk, i)
    ensures MulMod(IthLagrange(vk, zeta, i), AddMod(zeta, Sub(R, OmegaPow(vk, i)))) ==
            MulMod(MulMod(OmegaPow(vk, i), vk.invDomainSize), ZetaPowerNMinusOne(vk, zeta))
  {
    var w := OmegaPow(vk, i);
    assert Modexp(vk.omega, i) == w;
    var d := AddMod(zeta, Sub(R, w));
    SubZero(zeta, w);
    InverseCorrect(d);
    var wn := MulMod(w, vk.invDomainSize);
    var zn := ZetaPowerNMinusOne(vk, zeta);
    // ((wn d^-1) zn) d = (wn zn) (d^-1 d) = wn zn
    MulModAssoc(R, MulMod(wn, Inverse(d)), zn, d);
    MulModComm(zn, d);
    MulModAssoc(R, MulMod(wn, Inverse(d)), d, zn);
    MulModAssoc(R, wn, Inverse(d), d);
    MulModComm(Inverse(d), d);
    SmallMod(R, wn);
    assert MulMod(wn, 1) == wn;
  }
}

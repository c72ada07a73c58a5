/** Arithmetic in the scalar field of BN254, as the EVM computes it: `addmod` and
    `mulmod` on unreduced words, and `pow` through the modexp precompile. */
module Field {
  import opened Words

  /** `r_mod`: the order of the BN254 groups, the modulus of every scalar operation. */
  const R: nat := 21888242871839275222246405745257275088548364400416034343698204186575808495617

  /** `p_mod`: the base-field modulus; only used to negate a y coordinate. */
  const P: nat := 21888242871839275222246405745257275088696311157297823662689037894645226208583

  lemma ModuliAreWords()
    ensures 2 < R < P < WORD
  {
  }

  /** EVM `addmod(a, b, r_mod)`: the sum is taken without overflow. */
  function AddMod(a: Word, b: Word): (r: Word)
    ensures r < R
  {
    ModuliAreWords();
    (a + b) % R
  }

  /** EVM `mulmod(a, b, r_mod)`: the product is taken without overflow. */
  function MulMod(a: Word, b: Word): (r: Word)
    ensures r < R
  {
    ModuliAreWords();
    (a * b) % R
  }

  function Pow(x: nat, e: nat): nat
  {
    if e == 0 then 1 else x * Pow(x, e - 1)
  }

  /** The modexp precompile called with modulus `r_mod` (EIP-198, 0^0 = 1). */
  function Modexp(x: Word, e: Word): (r: Word)
    ensures r < R
  {
    ModuliAreWords();
    Pow(x, e) % R
  }

  /** Inversion by Fermat's little theorem: `pow(x, sub(r_mod, 2))`. */
  function Inverse(x: Word): (r: Word)
    ensures r < R
  {
    ModuliAreWords();
    Modexp(x, Sub(R, 2))
  }

  /** Fermat's little theorem for `r_mod`, i.e. the fact that it is prime as far as
      inversion needs it. It is taken as a hypothesis of the lemmas that need it. */
  ghost predicate Fermat()
  {
    forall x: nat {:trigger Pow(x, R - 1)} :: 0 < x < R ==> Pow(x, R - 1) % R == 1
  }

  // ---------------------------------------------------------------- residues modulo any m

  /* The facts about residues hold for every positive modulus; they are stated for a
     modulus m and used with m = R. */

  /** Euclidean division is unique: a quotient and a remainder in range are a / m and a % m. */
  lemma DivModUnique(m: int, a: int, q: int, r: int)
    requires m > 0 && a == q * m + r && 0 <= r < m
    ensures a % m == r && a / m == q
  {
    var d := q - a / m;
    assert d * m == a % m - r by {
      assert a == (a / m) * m + a % m;
      assert d * m == q * m - (a / m) * m;
    }
  }

  lemma SmallMod(m: int, x: int)
    requires 0 <= x < m
    ensures x % m == x
  {
    DivModUnique(m, x, 0, x);
  }

  lemma ModAddMultiple(m: int, x: int, k: int)
    requires m > 0
    ensures (x + k * m) % m == x % m
  {
    assert x + k * m == (x / m + k) * m + x % m;
    DivModUnique(m, x + k * m, x / m + k, x % m);
  }

  lemma ModMulL(m: int, a: int, b: int)
    requires m > 0
    ensures ((a % m) * b) % m == (a * b) % m
  {
    var q := a / m;
    assert a == q * m + a % m;
    assert a * b == (a % m) * b + (q * b) * m;
    ModAddMultiple(m, (a % m) * b, q * b);
  }

  lemma ModMulR(m: int, a: int, b: int)
    requires m > 0
    ensures (a * (b % m)) % m == (a * b) % m
  {
    ModMulL(m, b, a);
    assert a * (b % m) == (b % m) * a;
    assert a * b == b * a;
  }

  lemma ModAddL(m: int, a: int, b: int)
    requires m > 0
    ensures ((a % m) + b) % m == (a + b) % m
  {
    var q := a / m;
    assert a == q * m + a % m;
    ModAddMultiple(m, (a % m) + b, q);
  }

  lemma ModAddR(m: int, a: int, b: int)
    requires m > 0
    ensures (a + (b % m)) % m == (a + b) % m
  {
    ModAddL(m, b, a);
  }

  lemma ModAddBoth(m: int, a: int, b: int)
    requires m > 0
    ensures ((a % m) + (b % m)) % m == (a + b) % m
  {
    ModAddL(m, a, b % m);
    ModAddR(m, a, b);
  }

  /** Reducing a partial sum before adding the rest does not change the residue. */
  lemma AddModChain(m: int, acc: int, d1: int, d2: int, res: int)
    requires m > 0 && acc == d1 % m && res == (acc + d2) % m
    ensures res == (d1 + d2) % m
  {
    ModAddL(m, d1, d2);
  }

  /** Reducing a factor or a summand does not change a residue. */
  lemma ModMulBoth(m: int, a: int, b: int)
    requires m > 0
    ensures ((a % m) * (b % m)) % m == (a * b) % m
  {
    ModMulL(m, a, b % m);
    ModMulR(m, a, b);
  }

  lemma ModSub(m: int, a: int, b: int)
    requires m > 0
    ensures ((a % m) - b) % m == (a - b) % m
  {
    ModAddL(m, a, -b);
  }

  /** A multiple of m is congruent to zero. */
  lemma MulModZero(m: int, a: int, b: int)
    requires m > 0 && a % m == 0
    ensures (a * b) % m == 0
  {
    ModMulL(m, a, b);
    SmallMod(m, 0);
  }

  /** Congruent summands and factors give congruent sums and products. */
  lemma AddCong(m: int, x: int, y: int, a: int, b: int)
    requires m > 0 && x % m == a % m && y % m == b % m
    ensures (x + y) % m == (a + b) % m
  {
    ModAddBoth(m, x, y);
    ModAddBoth(m, a, b);
  }

  lemma MulCong(m: int, x: int, y: int, a: int, b: int)
    requires m > 0 && x % m == a % m && y % m == b % m
    ensures (x * y) % m == (a * b) % m
  {
    ModMulBoth(m, x, y);
    ModMulBoth(m, a, b);
  }

  lemma ModMod(m: int, x: int)
    requires m > 0
    ensures (x % m) % m == x % m
  {
    SmallMod(m, x % m);
  }

  /** One accumulation step: a running value congruent to S, plus a term congruent to X. */
  lemma AccCong(m: int, acc: int, S: int, x: int, X: int, res: int)
    requires m > 0 && acc % m == S % m && x % m == X % m && res == (acc + x) % m
    ensures res % m == (S + X) % m
  {
    AddCong(m, acc, x, S, X);
    ModMod(m, acc + x);
  }

  lemma ModNeg(m: int, x: int)
    requires m > 0
    ensures (-(x % m)) % m == (-x) % m
  {
    var q := x / m;
    assert -x == -(x % m) + (-q) * m;
    ModAddMultiple(m, -(x % m), -q);
  }

  /** `(m - x mod m) mod m`, the negation of a residue. */
  lemma NegResidue(m: int, x: int, X: int)
    requires m > 0 && x % m == X % m
    ensures (m - x % m) % m == (-X) % m
  {
    ModAddMultiple(m, -(x % m), 1);
    ModNeg(m, x);
    ModNeg(m, X);
  }

  /** A product of three residues, reduced after each factor. */
  lemma Product3(m: int, a: int, b: int, c: int, A: int, B: int, C: int)
    requires m > 0 && a == A % m && b == B % m && c == C % m
    ensures (((a * b) % m) * c) % m == (A * B * C) % m
  {
    ModMulBoth(m, A, B);
    ModMulBoth(m, A * B, C);
    ModMod(m, A * B);
  }

  /** Product3 followed by a multiplication by d. */
  lemma MulChain4(m: int, a: int, b: int, c: int, A: int, B: int, C: int, d: int)
    requires m > 0 && a == A % m && b == B % m && c == C % m
    ensures (((((a * b) % m) * c) % m) * d) % m == (A * B * C * d) % m
  {
    Product3(m, a, b, c, A, B, C);
    ModMulL(m, A * B * C, d);
  }

  /** MulChain4 followed by a multiplication by e. */
  lemma MulChain5(m: int, a: int, b: int, c: int, A: int, B: int, C: int, d: int, e: int)
    requires m > 0 && a == A % m && b == B % m && c == C % m
    ensures (((((((a * b) % m) * c) % m) * d) % m) * e) % m == (A * B * C * d * e) % m
  {
    MulChain4(m, a, b, c, A, B, C, d);
    ModMulL(m, A * B * C * d, e);
  }

  /** x c + l + g, reduced after each operation, for x congruent to X. */
  lemma Affine(m: int, x: int, X: int, c: int, l: int, g: int)
    requires m > 0 && x % m == X % m
    ensures ((((x * c) % m + l) % m) + g) % m == (X * c + l + g) % m
  {
    var t := (x * c) % m;
    assert t == (X * c) % m by {
      MulCong(m, x, c, X, c);
    }
    var u := (t + l) % m;
    assert u == (X * c + l) % m by {
      ModAddL(m, X * c, l);
    }
    ModAddL(m, X * c + l, g);
  }

  /** Horner's rule over the residues: ((h2 z + h1) z + h0) mod m. */
  lemma HornerMod(m: int, h0: int, h1: int, h2: int, z: int, d1: int, d2: int, d3: int, d4: int)
    requires m > 0 && d1 == (h2 * z) % m && d2 == (d1 + h1) % m
    requires d3 == (d2 * z) % m && d4 == (d3 + h0) % m
    ensures d4 == (h0 + z * (h1 + z * h2)) % m
  {
    ModAddL(m, h2 * z, h1);
    ModMulL(m, h2 * z + h1, z);
    ModAddL(m, (h2 * z + h1) * z, h0);
    assert (h2 * z + h1) * z + h0 == h0 + z * (h1 + z * h2);
  }

  /** Reduced multiplication is associative. */
  lemma MulModAssoc(m: int, a: int, b: int, c: int)
    requires m > 0
    ensures (((a * b) % m) * c) % m == (a * ((b * c) % m)) % m
  {
    ModMulL(m, a * b, c);
    ModMulR(m, a, b * c);
    assert (a * b) * c == a * (b * c);
  }

  // ---------------------------------------------------------------- products of several factors

  /** The product of the factors, over the integers. The formulas the verifier checks
      are stated with it. */
  function Product(xs: seq<int>): int
  {
    if |xs| == 0 then 1 else xs[0] * Product(xs[1..])
  }

  lemma ProductOfThree(a: int, b: int, c: int)
    ensures Product([a, b, c]) == a * b * c
  {
    assert [c][1..] == [];
    assert Product([c]) == c;
    assert [b, c][1..] == [c];
    assert Product([b, c]) == b * c;
    assert [a, b, c][1..] == [b, c];
    assert a * (b * c) == a * b * c;
  }

  lemma ProductOfFour(a: int, b: int, c: int, d: int)
    ensures Product([a, b, c, d]) == a * b * c * d
  {
    assert [a, b, c, d][1..] == [b, c, d];
    ProductOfThree(b, c, d);
    assert a * (b * c * d) == a * b * c * d;
  }

  lemma ProductOfFive(a: int, b: int, c: int, d: int, e: int)
    ensures Product([a, b, c, d, e]) == a * b * c * d * e
  {
    assert [a, b, c, d, e][1..] == [b, c, d, e];
    ProductOfFour(b, c, d, e);
    assert a * (b * c * d * e) == a * b * c * d * e;
  }

  // ---------------------------------------------------------------- words modulo r

  /** `mulmod` and `addmod` of words congruent to x and y are the residues of x y and x + y. */
  lemma MulModCong(a: Word, b: Word, x: int, y: int)
    requires a % R == x % R && b % R == y % R
    ensures MulMod(a, b) == (x * y) % R
  {
    MulCong(R, a, b, x, y);
  }

  lemma AddModCong(a: Word, b: Word, x: int, y: int)
    requires a % R == x % R && b % R == y % R
    ensures AddMod(a, b) == (x + y) % R
  {
    AddCong(R, a, b, x, y);
  }

  /** `sub(r_mod, x)` of a reduced x is congruent to -x. */
  lemma NegMod(x: Word)
    requires x < R
    ensures R < WORD && Sub(R, x) % R == (-(x as int)) % R
  {
    ModuliAreWords();
    ModAddMultiple(R, -(x as int), 1);
  }

  /** The steps of a chain of `mulmod`/`addmod` whose running value is the residue of an
      integer expression: each keeps that correspondence. */
  lemma MulModStep(acc: Word, x: int, b: Word, y: int)
    requires acc == x % R && b % R == y % R
    ensures MulMod(acc, b) == (x * y) % R
  {
    ModMod(R, x);
    MulModCong(acc, b, x, y);
  }

  lemma AddModStepInt(acc: Word, x: int, b: Word, y: int)
    requires acc == x % R && b % R == y % R
    ensures AddMod(acc, b) == (x + y) % R
  {
    ModMod(R, x);
    AddModCong(acc, b, x, y);
  }

  /** One step of a running `addmod(acc, mulmod(a, b))` over a reduced sum d. */
  lemma AddModStep(acc: Word, d: int, a: Word, b: Word)
    requires acc == d % R
    ensures AddMod(acc, MulMod(a, b)) == (d + a * b) % R
  {
    ModAddBoth(R, d, a * b);
  }

  /** -s a + c, as `addmod(mulmod(sub(r_mod, s), a), c)` for s the residue of S. */
  lemma NegScale(s: Word, S: int, a: Word, c: Word)
    requires s == S % R
    ensures AddMod(MulMod(Sub(R, s), a), c) == (-S * a + c) % R
  {
    NegMod(s);
    ModSub(R, 0, S);
    SmallMod(R, 0);
    assert Sub(R, s) % R == (-S) % R;
    MulModCong(Sub(R, s), a, -S, a);
    AddModStepInt(MulMod(Sub(R, s), a), -S * a, c, c);
  }

  /** lp + s - c, as `addmod(addmod(lp, s), sub(r_mod, c))` for a reduced c. */
  lemma SumMinus(lp: Word, LP: int, s: Word, S: int, c: Word)
    requires lp == LP % R && s == S % R && c < R
    ensures AddMod(AddMod(lp, s), Sub(R, c)) == (LP + S - c) % R
  {
    ModMod(R, S);
    AddModStepInt(lp, LP, s, S);
    NegMod(c);
    AddModStepInt(AddMod(lp, s), LP + S, Sub(R, c), -(c as int));
  }

  lemma MulModComm(a: Word, b: Word)
    ensures MulMod(a, b) == MulMod(b, a)
  {
    assert a * b == b * a;
  }

  // ---------------------------------------------------------------- powers

  lemma {:induction false} PowMod(m: int, x: nat, e: nat)
    requires m > 0
    ensures Pow(x, e) % m == Pow(x % m, e) % m
  {
    if e > 0 {
      PowMod(m, x, e - 1);
      ModMulBoth(m, x, Pow(x, e - 1));
      ModMulBoth(m, x % m, Pow(x % m, e - 1));
      ModMod(m, x);
    }
  }

  lemma {:induction false} PowAdd(x: nat, a: nat, b: nat)
    ensures Pow(x, a + b) == Pow(x, a) * Pow(x, b)
  {
    if a > 0 {
      PowAdd(x, a - 1, b);
      assert Pow(x, a + b) == x * Pow(x, (a - 1) + b);
      assert x * (Pow(x, a - 1) * Pow(x, b)) == (x * Pow(x, a - 1)) * Pow(x, b);
    }
  }

  lemma {:induction false} PowMul(x: nat, a: nat, b: nat)
    ensures Pow(x, a * b) == Pow(Pow(x, a), b)
  {
    if b > 0 {
      PowMul(x, a, b - 1);
      assert a * b == a * (b - 1) + a;
      PowAdd(x, a * (b - 1), a);
      assert Pow(x, a * b) == Pow(x, a * (b - 1)) * Pow(x, a);
      assert Pow(Pow(x, a), b) == Pow(x, a) * Pow(Pow(x, a), b - 1);
    }
  }

  lemma {:induction false} PowOne(e: nat)
    ensures Pow(1, e) == 1
  {
    if e > 0 {
      PowOne(e - 1);
    }
  }

  lemma {:induction false} PowOfZero(m: int, x: nat, e: nat)
    requires m > 0 && x % m == 0 && e > 0
    ensures Pow(x, e) % m == 0
  {
    MulModZero(m, x, Pow(x, e - 1));
  }

  /** The running power `w := mulmod(w, x, m)` starting from 1 is x^i mod m. */
  lemma PowStep(m: int, x: nat, i: nat)
    requires m > 0
    ensures ((Pow(x, i) % m) * x) % m == Pow(x, i + 1) % m
  {
    ModMulL(m, Pow(x, i), x);
    assert Pow(x, i + 1) == x * Pow(x, i);
    assert Pow(x, i) * x == x * Pow(x, i);
  }

  // ---------------------------------------------------------------- inverses

  /** Fermat inversion inverts every non-zero residue. */
  lemma InverseCorrect(x: Word)
    requires Fermat()
    requires x % R != 0
    ensures MulMod(x, Inverse(x)) == 1
  {
    ModuliAreWords();
    assert Sub(R, 2) == R - 2;
    var y := x % R;
    assert 0 < y < R;
    assert Pow(y, R - 1) % R == 1;
    PowMod(R, x, R - 1);
    assert Pow(x, R - 1) == x * Pow(x, R - 2);
    ModMulR(R, x, Pow(x, R - 2));
  }

  /** ... and sends zero to zero, without failing. */
  lemma InverseOfZero(x: Word)
    requires x % R == 0
    ensures Inverse(x) == 0
  {
    ModuliAreWords();
    assert Sub(R, 2) == R - 2;
    PowOfZero(R, x, R - 2);
  }

  lemma MulRegroup(a: int, b: int, c: int)
    ensures b * (a * c) == (a * b) * c
  {
  }

  /** Inverses are unique (no primality needed). */
  lemma InverseUnique(a: Word, b: Word, c: Word)
    requires MulMod(a, b) == 1 && MulMod(a, c) == 1
    ensures b % R == c % R
  {
    // b = b (a c) = (b a) c = c  (mod r)
    var ab := a * b;
    var ac := a * c;
    ModMulR(R, b, ac);
    ModMulL(R, ab, c);
    MulRegroup(a, b, c);
  }

  /** Multiplying by an invertible a can be undone. */
  lemma Cancel(a: Word, b: Word)
    requires Fermat()
    requires a % R != 0
    ensures b % R == MulMod(MulMod(a, b), Inverse(a))
  {
    InverseCorrect(a);
    var ia := Inverse(a);
    var aia := a * ia;
    var ab := a * b;
    ModMulR(R, b, aia);
    ModMulL(R, ab, ia);
    MulRegroup(a, b, ia);
  }

  /** The field has no zero divisors. */
  lemma NoZeroDivisor(a: Word, b: Word)
    requires Fermat()
    requires a % R != 0 && b % R != 0
    ensures MulMod(a, b) != 0
  {
    Cancel(a, b);
  }
}

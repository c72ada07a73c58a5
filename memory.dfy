/** The free memory that `derive_gamma_beta_alpha_zeta` and `compute_pi` work in, word by
    word from the free memory pointer on. The Yul helpers use `mload(0x40)` as scratch
    without bumping it; only Solidity's `new uint256[](n)` moves it. */
module FreeMemory {
  import opened Words
  import opened Field
  import opened Curve
  import opened Layout
  import opened Lagrange
  import opened PublicInputs
  import opened Transcript
  import opened Wrappers

  /** s with the words from `at` on replaced by ws. */
  function Splice(s: seq<Word>, at: nat, ws: seq<Word>): (t: seq<Word>)
    requires at + |ws| <= |s|
    ensures |t| == |s|
  {
    seq(|s|, i requires 0 <= i < |s| => SplicedAt(s, at, ws, i))
  }

  function SplicedAt(s: seq<Word>, at: nat, ws: seq<Word>, i: nat): Word
    requires at + |ws| <= |s| && i < |s|
  {
    if at <= i < at + |ws| then ws[i - at] else s[i]
  }

  /** Word by word: ws from `at` on, s elsewhere. */
  lemma SpliceAt(s: seq<Word>, at: nat, ws: seq<Word>)
    requires at + |ws| <= |s|
    ensures forall i :: 0 <= i < |ws| ==> Splice(s, at, ws)[at + i] == ws[i]
    ensures forall i :: 0 <= i < |s| && !(at <= i < at + |ws|) ==> Splice(s, at, ws)[i] == s[i]
  {
    forall i | 0 <= i < |ws|
      ensures Splice(s, at, ws)[at + i] == ws[i]
    {
      assert SplicedAt(s, at, ws, at + i) == ws[i];
    }
  }

  /** One replacement, checked word by word. */
  lemma SpliceOne(s: seq<Word>, t: seq<Word>, at: nat, ws: seq<Word>)
    requires at + |ws| <= |s| && |t| == |s|
    requires forall i :: 0 <= i < |ws| ==> t[at + i] == ws[i]
    requires forall i :: 0 <= i < |s| && !(at <= i < at + |ws|) ==> t[i] == s[i]
    ensures t == Splice(s, at, ws)
  {
    var u := Splice(s, at, ws);
    forall i | 0 <= i < |s|
      ensures t[i] == u[i]
    {
      if at <= i < at + |ws| {
        assert t[at + (i - at)] == ws[i - at];
      }
    }
  }

  /** Two disjoint replacements, checked word by word. */
  lemma SpliceTwo(s: seq<Word>, t: seq<Word>, at1: nat, ws1: seq<Word>, at2: nat, ws2: seq<Word>)
    requires at1 + |ws1| <= at2 && at2 + |ws2| <= |s| && |t| == |s|
    requires forall i :: 0 <= i < |ws1| ==> t[at1 + i] == ws1[i]
    requires forall i :: 0 <= i < |ws2| ==> t[at2 + i] == ws2[i]
    requires forall i :: 0 <= i < |s| && !(at1 <= i < at1 + |ws1|) && !(at2 <= i < at2 + |ws2|) ==> t[i] == s[i]
    ensures t == Splice(Splice(s, at1, ws1), at2, ws2)
  {
    var u := Splice(Splice(s, at1, ws1), at2, ws2);
    forall i | 0 <= i < |s|
      ensures t[i] == u[i]
    {
      if at1 <= i < at1 + |ws1| {
        assert t[at1 + (i - at1)] == ws1[i - at1];
      } else if at2 <= i < at2 + |ws2| {
        assert t[at2 + (i - at2)] == ws2[i - at2];
      }
    }
  }

  /** After the prefix table and the `pow` scratch above it are written, the input below
      and the table are still in place. */
  lemma PrefixUntouched(b0: seq<Word>, b1: seq<Word>, b2: seq<Word>, ins: nat, m: nat,
                        pre: seq<Word>, pw: seq<Word>)
    requires 0 < |pre| && ins + |pre| - 1 <= m && m + |pre| + |pw| <= |b0|
    requires b1 == Splice(b0, m, pre) && b2 == Splice(b1, m + |pre|, pw)
    ensures b2[ins..ins + |pre| - 1] == b0[ins..ins + |pre| - 1]
    ensures b2[m..m + |pre|] == pre
  {
  }

  /** Writing two adjacent blocks is writing their concatenation. */
  lemma SpliceAdjacent(s: seq<Word>, at: nat, a: seq<Word>, b: seq<Word>)
    requires at + |a| + |b| <= |s|
    ensures Splice(Splice(s, at, a), at + |a|, b) == Splice(s, at, a + b)
  {
    var t := Splice(Splice(s, at, a), at + |a|, b);
    forall i | 0 <= i < |a + b|
      ensures t[at + i] == (a + b)[i]
    {
      if i >= |a| {
        assert t[at + |a| + (i - |a|)] == b[i - |a|];
      }
    }
    SpliceOne(s, t, at, a + b);
  }

  /** A later write at the same place wins where it reaches. */
  lemma SpliceOver(s: seq<Word>, at: nat, a: seq<Word>, b: seq<Word>)
    requires at + |a| <= |s| && |b| <= |a|
    ensures Splice(Splice(s, at, a), at, b) == Splice(s, at, b + a[|b|..])
  {
    var t := Splice(Splice(s, at, a), at, b);
    forall i | 0 <= i < |a|
      ensures t[at + i] == (b + a[|b|..])[i]
    {
    }
    SpliceOne(s, t, at, b + a[|b|..]);
  }

  lemma SpliceSlice(s: seq<Word>, at: nat, ws: seq<Word>)
    requires at + |ws| <= |s|
    ensures Splice(s, at, ws)[at..at + |ws|] == ws
  {
    SpliceAt(s, at, ws);
  }

  lemma SpliceSliceOutside(s: seq<Word>, at: nat, ws: seq<Word>, lo: nat, hi: nat)
    requires at + |ws| <= |s| && lo <= hi <= |s|
    requires hi <= at || at + |ws| <= lo
    ensures Splice(s, at, ws)[lo..hi] == s[lo..hi]
  {
    SpliceAt(s, at, ws);
  }

  /** Writing back what is there changes nothing. */
  lemma SpliceSame(s: seq<Word>, at: nat, n: nat)
    requires at + n <= |s|
    ensures Splice(s, at, s[at..at + n]) == s
  {
    SpliceAt(s, at, s[at..at + n]);
  }

  /** A later, longer write at the same place hides the earlier one. */
  lemma SpliceCover(s: seq<Word>, at: nat, a: seq<Word>, b: seq<Word>)
    requires |a| <= |b| && at + |b| <= |s|
    ensures Splice(Splice(s, at, a), at, b) == Splice(s, at, b)
  {
    var t := Splice(Splice(s, at, a), at, b);
    SpliceAt(Splice(s, at, a), at, b);
    SpliceAt(s, at, a);
    SpliceOne(s, t, at, b);
  }

  /** Disjoint writes commute. */
  lemma SpliceCommute(s: seq<Word>, at1: nat, a: seq<Word>, at2: nat, b: seq<Word>)
    requires at1 + |a| <= at2 && at2 + |b| <= |s|
    ensures Splice(Splice(s, at2, b), at1, a) == Splice(Splice(s, at1, a), at2, b)
  {
    SpliceAt(s, at2, b);
    SpliceAt(Splice(s, at2, b), at1, a);
    SpliceTwo(s, Splice(Splice(s, at2, b), at1, a), at1, a, at2, b);
  }

  /** In-place results written over the input after the table and the scratch: the same
      as writing the input region first. */
  lemma SpliceThree(b0: seq<Word>, ins: nat, out: seq<Word>, m: nat, pre: seq<Word>, pw: seq<Word>,
                    b3: seq<Word>)
    requires ins + |out| <= m && m + |pre| + |pw| <= |b0|
    requires b3 == Splice(Splice(Splice(b0, m, pre), m + |pre|, pw), ins, out)
    ensures b3 == Splice(Splice(b0, ins, out), m, pre + pw)
  {
    SpliceAdjacent(b0, m, pre, pw);
    SpliceCommute(b0, ins, out, m, pre + pw);
  }

  /** The six words `pow` leaves at its scratch pointer: the result over the first of the
      three lengths 0x20, then the other two, base, exponent and `r_mod`. */
  function PowScratch(x: Word, e: Word): (ws: seq<Word>)
    ensures |ws| == 6 && ws[0] == Modexp(x, e)
  {
    ModuliAreWords();
    [Modexp(x, e), 0x20, 0x20, x, e, R]
  }

  /** The running products `batch_invert` keeps beside its input: [1, a0, a0 a1, ...]. */
  function PrefixTable(a: seq<Word>): (t: seq<Word>)
    ensures |t| == |a| + 1
  {
    seq(|a| + 1, j requires 0 <= j <= |a| => Prefix(a, j))
  }

  lemma PrefixTableTop(a: seq<Word>)
    ensures PrefixTable(a)[|a|] == Prefix(a, |a|)
  {
  }

  /** The six words `pow_local` leaves at the free memory pointer: its output goes to
      the scratch word 0x00, so the input stays. */
  function PowLocalScratch(x: Word, e: Word): (ws: seq<Word>)
    ensures |ws| == 6 && ws[3] == x && ws[4] == e
  {
    ModuliAreWords();
    [0x20, 0x20, 0x20, x, e, R]
  }

  /** Everything `batch_invert(ins, n, mPtr)` leaves from mPtr on: the prefix table, then
      the modexp call that inverts the full product. */
  function InvertScratch(a: seq<Word>): (ws: seq<Word>)
    ensures |ws| == |a| + 7
  {
    ModuliAreWords();
    PrefixTable(a) + PowScratch(Prefix(a, |a|), Sub(R, 2))
  }

  /** What `batch_compute_lagranges_at_z(z, n, mPtr)` leaves from mPtr on: the n values,
      then the scratch of `batch_invert`. The first `pow` call's scratch is all overwritten. */
  function LagrangeScratch(vk: VerifyingKey, z: Word, n: nat): (ws: seq<Word>)
    ensures |ws| == 2 * n + 7
  {
    BatchLagranges(vk, z, n) + InvertScratch(Denominators(vk, z, n))
  }

  /** Writing the initial `pow` scratch, then the inverted denominators and the inversion
      scratch above them, and finally the values over the inverses. */
  lemma LagrangeSplices(b0: seq<Word>, b1: seq<Word>, b2: seq<Word>, b3: seq<Word>, b4: seq<Word>, m: nat,
                        pw: seq<Word>, inv: seq<Word>, scratch: seq<Word>, ls: seq<Word>)
    requires |pw| == 6 && |inv| == |ls| && |scratch| == |inv| + 7
    requires m + 2 * |inv| + 7 <= |b0|
    requires b1 == Splice(b0, m, pw)
    requires b2 == Splice(b1, m, inv)
    requires b3 == Splice(b2, m + |inv|, scratch)
    requires b4 == Splice(b3, m, ls)
    ensures b4 == Splice(b0, m, ls + scratch)
  {
    SpliceAdjacent(b1, m, inv, scratch);
    SpliceOver(b1, m, inv + scratch, ls);
    assert ls + (inv + scratch)[|inv|..] == ls + scratch;
    SpliceCover(b0, m, pw, ls + scratch);
  }

  /** A single `mstore`. */
  lemma SpliceSingle(s: seq<Word>, at: nat, w: Word)
    requires at < |s|
    ensures Splice(s, at, [w]) == s[at := w]
  {
    SpliceAt(s, at, [w]);
  }

  lemma SpliceFirst(s: seq<Word>, at: nat, ws: seq<Word>)
    requires at + |ws| <= |s| && 0 < |ws|
    ensures Splice(s, at, ws)[at] == ws[0]
  {
    SpliceAt(s, at, ws);
  }

  /** The n zero words Solidity allocates behind an array's length word. */
  function Zeros(n: nat): (z: seq<Word>)
    ensures |z| == n
  {
    seq(n, i requires 0 <= i < n => 0)
  }

  /** The denominator ζ - ω^i that `compute_ith_lagrange_at_z` inverts last. */
  function LagrangeDenominator(vk: VerifyingKey, zeta: Word, i: Word): Word
  {
    AddMod(zeta, Sub(R, Modexp(vk.omega, i)))
  }

  /** The memory `compute_pi` leaves behind `sum_pi_wo_api_commit` and the unused `pow` after
      it: the literal sum over the first Lagrange value, then the `pow` scratch over that. */
  function PiLiteralMemory(b: seq<Word>, f: nat, vk: VerifyingKey, pub: seq<Word>, zeta: Word): (t: seq<Word>)
    requires f + 2 * |pub| + 7 <= |b|
    ensures |t| == |b|
  {
    Splice(Splice(b, f, [PiLiteral(vk, zeta, pub)] + LagrangeScratch(vk, zeta, |pub|)[1..]), f,
           PowScratch(zeta, vk.domainSize))
  }

  /** Then the two arrays `new uint256[](k)` and `new uint256[](2k)` at f and f + k + 1,
      the k indices in the first, and 4k proof words copied into the second, whose
      length word says 2k. */
  function CommitmentArraysMemory(b: seq<Word>, f: nat, vk: VerifyingKey, proof: seq<Byte>): (t: seq<Word>)
    requires f + 5 * NbCommitments(vk) + 2 <= |b|
    requires 2 * NbCommitments(vk) < WORD
    requires |proof| >= WireReadEnd(NbCommitments(vk))
    ensures |t| == |b|
  {
    var k := NbCommitments(vk);
    Splice(Splice(Splice(Splice(b, f, [k] + Zeros(k)), f + 1, vk.commitmentIndices),
                  f + k + 1, [2 * k] + Zeros(2 * k)),
           f + k + 2, ProofWords(proof, WireCommitmentOffset(k, 0), 4 * k))
  }

  lemma CommitmentArraysMemoryIs(b: seq<Word>, f: nat, vk: VerifyingKey, proof: seq<Byte>, b2: seq<Word>,
                                  k: nat, w: nat)
    requires k == NbCommitments(vk) && w == f + k + 1
    requires f + 5 * k + 2 <= |b| && 2 * k < WORD && |proof| >= WireReadEnd(k)
    requires b2 == Splice(Splice(b, f, [k] + Zeros(k)), f + 1, vk.commitmentIndices)
    ensures CommitmentArraysMemory(b, f, vk, proof) ==
            Splice(Splice(b2, w, [2 * k] + Zeros(2 * k)), w + 1, ProofWords(proof, WireCommitmentOffset(k, 0), 4 * k))
  {
  }

  /** Everything `compute_pi` leaves from the free memory pointer f on: the literal part,
      and when there are commitments, the two arrays and the last `pow_local` scratch
      above them. */
  function PiMemory(b: seq<Word>, f: nat, vk: VerifyingKey, proof: seq<Byte>, pub: seq<Word>, zeta: Word): (t: seq<Word>)
    requires f + PiMemoryNeeded(NbCommitments(vk), |pub|) <= |b| < WORD
    requires |proof| >= WireReadEnd(NbCommitments(vk))
    requires IndicesFit(vk, |pub|)
    ensures |t| == |b|
  {
    var k := NbCommitments(vk);
    var b1 := PiLiteralMemory(b, f, vk, pub, zeta);
    if k == 0 then b1
    else
      Splice(CommitmentArraysMemory(b1, f, vk, proof), f + 3 * k + 2, CommitmentScratch(vk, zeta, |pub|, k - 1))
  }

  /** The `pow_local` scratch the i-th commitment's `compute_ith_lagrange_at_z` leaves. */
  function CommitmentScratch(vk: VerifyingKey, zeta: Word, npub: nat, i: nat): (ws: seq<Word>)
    requires i < NbCommitments(vk) && vk.commitmentIndices[i] + npub < WORD
    ensures |ws| == 6
  {
    PowLocalScratch(LagrangeDenominator(vk, zeta, vk.commitmentIndices[i] + npub), Sub(R, 2))
  }

  /** The first n commitment indices plus npub fit a word. */
  predicate IndicesFitBelow(vk: VerifyingKey, npub: nat, n: nat)
    requires n <= NbCommitments(vk)
  {
    forall j :: 0 <= j < n ==> vk.commitmentIndices[j] + npub < WORD
  }

  lemma IndicesFitBelowStep(vk: VerifyingKey, npub: nat, n: nat)
    requires n < NbCommitments(vk)
    requires IndicesFitBelow(vk, npub, n) && vk.commitmentIndices[n] + npub < WORD
    ensures IndicesFitBelow(vk, npub, n + 1)
  {
  }

  /** Rewrites the state under a splice. */
  lemma SpliceRebase(b1: seq<Word>, b2: seq<Word>, at1: nat, at2: nat, ws: seq<Word>, t: seq<Word>)
    requires at1 + |ws| <= |b1|
    requires b1 == b2 && at1 == at2
    requires t == Splice(b1, at1, ws)
    ensures t == Splice(b2, at2, ws)
  {
  }

  lemma PiMemoryIs(b: seq<Word>, f: nat, vk: VerifyingKey, proof: seq<Byte>, pub: seq<Word>, zeta: Word, b1: seq<Word>)
    requires f + PiMemoryNeeded(NbCommitments(vk), |pub|) <= |b| < WORD
    requires |proof| >= WireReadEnd(NbCommitments(vk))
    requires IndicesFit(vk, |pub|) && NbCommitments(vk) > 0
    requires b1 == PiLiteralMemory(b, f, vk, pub, zeta)
    ensures PiMemory(b, f, vk, proof, pub, zeta) ==
            Splice(CommitmentArraysMemory(b1, f, vk, proof), f + 3 * NbCommitments(vk) + 2,
                   CommitmentScratch(vk, zeta, |pub|, NbCommitments(vk) - 1))
  {
  }

  /** The two halves of `compute_pi` add up to its specification. */
  lemma PiValueIs(vk: VerifyingKey, prims: Primitives, proof: seq<Byte>, pub: seq<Word>, zeta: Word, p: Word, v: Word)
    requires |proof| >= WireReadEnd(NbCommitments(vk))
    requires IndicesFit(vk, |pub|)
    requires p == PiLiteral(vk, zeta, pub)
    requires NbCommitments(vk) == 0 ==> v == p
    requires NbCommitments(vk) > 0 ==>
      v == WeightedSum(p, CommitmentHashes(prims, PointsOf(ProofWords(proof, WireCommitmentOffset(NbCommitments(vk), 0), 2 * NbCommitments(vk)))),
                       CommitmentLagranges(vk, zeta, |pub|), NbCommitments(vk))
    ensures v == PiSpec(vk, prims, WireCommitments(proof, NbCommitments(vk)), pub, zeta)
  {
  }

  /** The memory `compute_pi` reads and writes from the free memory pointer f on, for
      k public-input commitments and n public inputs. */
  function PiMemoryNeeded(k: nat, n: nat): nat
  {
    2 * n + 5 * k + 8
  }

  class Memory {
    /** The words from the initial free memory pointer on. */
    const buf: array<Word>
    /** `mload(0x40)`, as an index into `buf`. */
    var free: nat
    /** The number of calls made to the modexp precompile (0x05). */
    var modexpCalls: nat

    constructor (init: seq<Word>)
      ensures buf[..] == init
      ensures free == 0 && modexpCalls == 0
    {
      buf := new Word[|init|](i requires 0 <= i < |init| => init[i]);
      free := 0;
      modexpCalls := 0;
    }

    /** A run of `mstore`s of consecutive words from `at` on. */
    method Store(at: nat, ws: seq<Word>)
      requires at + |ws| <= buf.Length
      modifies buf
      ensures buf[..] == Splice(old(buf[..]), at, ws)
    {
      ghost var b0 := buf[..];
      var i := 0;
      while i < |ws|
        invariant 0 <= i <= |ws|
        invariant forall j :: 0 <= j < i ==> buf[at + j] == ws[j]
        invariant forall j :: 0 <= j < buf.Length && !(at <= j < at + i) ==> buf[j] == b0[j]
      {
        buf[at + i] := ws[i];
        i := i + 1;
      }
      SpliceOne(b0, buf[..], at, ws);
    }

    /** `staticcall(.., 0x2, add(m, skip), size, m, 0x20)`: SHA-256 of `size` bytes read from
        byte `skip` of the word at m on; the digest overwrites the word at m. */
    method Sha256(prims: Primitives, m: nat, n: nat, skip: nat, size: nat) returns (d: Word)
      requires 0 < n && m + n <= buf.Length && skip + size <= 32 * n
      modifies buf
      ensures d == prims.sha256(Flatten(old(buf[m..m + n]))[skip..skip + size])
      ensures buf[..] == Splice(old(buf[..]), m, [d])
    {
      d := prims.sha256(Flatten(buf[m..m + n])[skip..skip + size]);
      buf[m] := d;
      SpliceSingle(old(buf[..]), m, d);
    }

    /** The same call over words ws known to be stored at m, whose bytes from `skip` to
        their end are hashed. */
    method Sha256Stored(prims: Primitives, m: nat, n: nat, ghost ws: seq<Word>, skip: nat, size: nat)
      returns (d: Word)
      requires 0 < n == |ws| && m + n <= buf.Length && skip + size == 32 * n && buf[m..m + n] == ws
      modifies buf
      ensures d == prims.sha256(Flatten(ws)[skip..])
      ensures buf[..] == Splice(old(buf[..]), m, [d])
    {
      d := Sha256(prims, m, n, skip, size);
      assert Flatten(ws)[skip..skip + size] == Flatten(ws)[skip..];
    }

    /** `pow(x, e, mPtr)`: x^e mod r through the modexp precompile, whose input is written
        at mPtr and whose output overwrites the first input word. */
    method Pow(x: Word, e: Word, m: nat) returns (res: Word)
      requires m + 6 <= buf.Length
      modifies this, buf
      ensures res == Modexp(x, e)
      ensures buf[..] == Splice(old(buf[..]), m, PowScratch(x, e))
      ensures free == old(free) && modexpCalls == old(modexpCalls) + 1
    {
      ModuliAreWords();
      buf[m] := 0x20;
      buf[m + 1] := 0x20;
      buf[m + 2] := 0x20;
      buf[m + 3] := x;
      buf[m + 4] := e;
      buf[m + 5] := R;
      res := Modexp(buf[m + 3], buf[m + 4]);
      modexpCalls := modexpCalls + 1;
      buf[m] := res;
      SpliceOne(old(buf[..]), buf[..], m, PowScratch(x, e));
    }

    /** The first loop of `batch_invert`: the running products of the input at mPtr. */
    method PrefixProducts(ins: nat, n: nat, m: nat)
      requires ins + n <= m && m + n + 1 <= buf.Length
      modifies buf
      ensures buf[..] == Splice(old(buf[..]), m, PrefixTable(old(buf[ins..ins + n])))
    {
      ghost var a := buf[ins..ins + n];
      ghost var b0 := buf[..];
      ghost var pre := PrefixTable(a);
      buf[m] := 1;
      var i := 0;
      while i < n
        invariant 0 <= i <= n
        invariant forall j :: 0 <= j <= i ==> buf[m + j] == pre[j]
        invariant forall j :: 0 <= j < buf.Length && !(m <= j <= m + i) ==> buf[j] == b0[j]
      {
        var prev := buf[m + i];
        var cur := buf[ins + i];
        assert pre[i + 1] == MulMod(pre[i], a[i]);
        cur := MulMod(prev, cur);
        buf[m + i + 1] := cur;
        i := i + 1;
      }
      SpliceOne(b0, buf[..], m, pre);
    }

    /** The second loop of `batch_invert`: from the last input down, each input becomes
        its inverse, the running inverse at the top times the prefix product below it. */
    method InvertBack(ins: nat, n: nat, m: nat, inv0: Word, ghost a: seq<Word>)
      requires ins + n <= m && m + n + 1 <= buf.Length
      requires |a| == n && buf[ins..ins + n] == a && buf[m..m + n + 1] == PrefixTable(a)
      requires inv0 == AccInv(a, n)
      modifies buf
      ensures buf[..] == Splice(old(buf[..]), ins, BatchInverted(a))
    {
      ghost var b1 := buf[..];
      ghost var pre := PrefixTable(a);
      ghost var out := BatchInverted(a);
      assert forall j :: 0 <= j <= n ==> buf[m + j] == pre[j] by {
        forall j | 0 <= j <= n ensures buf[m + j] == pre[j] {
          assert buf[m..m + n + 1][j] == pre[j];
        }
      }
      assert forall j :: 0 <= j < n ==> buf[ins + j] == a[j] by {
        forall j | 0 <= j < n ensures buf[ins + j] == a[j] {
          assert buf[ins..ins + n][j] == a[j];
        }
      }
      var inv := inv0;
      var p := n;
      while p > 0
        invariant 0 <= p <= n
        invariant inv == AccInv(a, p)
        invariant forall j :: 0 <= j <= n ==> buf[m + j] == pre[j]
        invariant forall j :: 0 <= j < p ==> buf[ins + j] == a[j]
        invariant forall j :: p <= j < n ==> buf[ins + j] == out[j]
        invariant forall j :: 0 <= j < buf.Length && !(ins <= j < ins + n) ==> buf[j] == b1[j]
      {
        p := p - 1;
        assert out[p] == MulMod(inv, pre[p]);
        var tmp := buf[ins + p];
        var cur := MulMod(inv, buf[m + p]);
        buf[ins + p] := cur;
        inv := MulMod(inv, tmp);
      }
      SpliceOne(b1, buf[..], ins, out);
    }

    /** `batch_invert(ins, nb_ins, mPtr)`: Montgomery's trick in place, with the prefix
        products and the one inversion at mPtr. The only caller puts mPtr right after the
        input. */
    method BatchInvert(ins: nat, n: nat, m: nat, ghost a: seq<Word>)
      requires ins + n <= m && m + n + 7 <= buf.Length
      requires buf[ins..ins + n] == a
      modifies this, buf
      ensures buf[..] == Splice(Splice(old(buf[..]), ins, BatchInverted(a)), m, InvertScratch(a))
      ensures free == old(free) && modexpCalls == old(modexpCalls) + 1
    {
      ghost var b0 := buf[..];
      ghost var pre := PrefixTable(a);
      PrefixProducts(ins, n, m);
      ghost var b1 := buf[..];
      assert b1 == Splice(b0, m, pre);
      ModuliAreWords();
      var top := buf[m + n];
      assert top == Prefix(a, n) by {
        assert b1[m + n] == pre[n];
        PrefixTableTop(a);
      }
      var inv := Pow(top, Sub(R, 2), m + n + 1);
      ghost var pw := PowScratch(top, Sub(R, 2));
      ghost var b2 := buf[..];
      assert b2 == Splice(b1, m + n + 1, pw);
      PrefixUntouched(b0, b1, b2, ins, m, pre, pw);
      InvertBack(ins, n, m, inv, a);
      assert buf[..] == Splice(b2, ins, BatchInverted(a));
      assert InvertScratch(a) == pre + pw;
      SpliceThree(b0, ins, BatchInverted(a), m, pre, pw, buf[..]);
    }

    /** The first loop of `batch_compute_lagranges_at_z`: ζ - ω^i at mPtr + i, with ω^i
        kept as a running product. */
    method WriteDenominators(vk: VerifyingKey, z: Word, n: nat, m: nat)
      requires m + n <= buf.Length
      modifies buf
      ensures buf[..] == Splice(old(buf[..]), m, Denominators(vk, z, n))
    {
      ghost var b0 := buf[..];
      ghost var den := Denominators(vk, z, n);
      ModuliAreWords();
      var w := 1;
      var i := 0;
      while i < n
        invariant 0 <= i <= n
        invariant w == OmegaPow(vk, i)
        invariant forall j :: 0 <= j < i ==> buf[m + j] == den[j]
        invariant forall j :: 0 <= j < buf.Length && !(m <= j < m + i) ==> buf[j] == b0[j]
      {
        buf[m + i] := AddMod(z, Sub(R, w));
        PowStep(R, vk.omega, i);
        w := MulMod(w, vk.omega);
        i := i + 1;
      }
      SpliceOne(b0, buf[..], m, den);
    }

    /** The third loop: each inverse times (ζ^n - 1)/n, then times ω^i. */
    method ScaleLagranges(vk: VerifyingKey, z: Word, n: nat, m: nat, zn: Word)
      requires m + n <= buf.Length
      requires buf[m..m + n] == BatchInverted(Denominators(vk, z, n))
      requires zn == MulMod(ZetaPowerNMinusOne(vk, z), vk.invDomainSize)
      modifies buf
      ensures buf[..] == Splice(old(buf[..]), m, BatchLagranges(vk, z, n))
    {
      ghost var b0 := buf[..];
      ghost var inv := BatchInverted(Denominators(vk, z, n));
      ghost var ls := BatchLagranges(vk, z, n);
      assert forall j :: 0 <= j < n ==> buf[m + j] == inv[j] by {
        forall j | 0 <= j < n ensures buf[m + j] == inv[j] {
          assert buf[m..m + n][j] == inv[j];
        }
      }
      ModuliAreWords();
      var w := 1;
      var i := 0;
      while i < n
        invariant 0 <= i <= n
        invariant w == OmegaPow(vk, i)
        invariant forall j :: 0 <= j < i ==> buf[m + j] == ls[j]
        invariant forall j :: i <= j < n ==> buf[m + j] == inv[j]
        invariant forall j :: 0 <= j < buf.Length && !(m <= j < m + n) ==> buf[j] == b0[j]
      {
        assert ls[i] == MulMod(MulMod(inv[i], zn), w);
        buf[m + i] := MulMod(MulMod(buf[m + i], zn), w);
        PowStep(R, vk.omega, i);
        w := MulMod(w, vk.omega);
        i := i + 1;
      }
      SpliceOne(b0, buf[..], m, ls);
    }

    /** The first loop of `batch_compute_lagranges_at_z` and the `batch_invert` call on its
        output: the inverted denominators, with the inversion scratch right above them. */
    method InvertDenominators(vk: VerifyingKey, z: Word, n: nat, m: nat)
      requires m + 2 * n + 7 <= buf.Length
      modifies this, buf
      ensures buf[..] == Splice(Splice(old(buf[..]), m, BatchInverted(Denominators(vk, z, n))),
                                m + n, InvertScratch(Denominators(vk, z, n)))
      ensures free == old(free) && modexpCalls == old(modexpCalls) + 1
    {
      ghost var b1 := buf[..];
      ghost var den := Denominators(vk, z, n);
      WriteDenominators(vk, z, n, m);
      SpliceSlice(b1, m, den);
      ghost var b2 := buf[..];
      BatchInvert(m, n, m + n, den);
      assert b2 == Splice(b1, m, den);
      SpliceCover(b1, m, den, BatchInverted(den));
    }

    /** `batch_compute_lagranges_at_z(z, n, mPtr)`: L_0(z) .. L_{n-1}(z) at mPtr, by one
        `pow` for z^n and one batch inversion of the n denominators. */
    method BatchComputeLagrangesAtZ(vk: VerifyingKey, z: Word, n: nat, m: nat)
      requires m + 2 * n + 7 <= buf.Length
      modifies this, buf
      ensures buf[..] == Splice(old(buf[..]), m, LagrangeScratch(vk, z, n))
      ensures free == old(free) && modexpCalls == old(modexpCalls) + 2
    {
      ghost var b0 := buf[..];
      ModuliAreWords();
      var zn := Pow(z, vk.domainSize, m);
      ghost var b1 := buf[..];
      zn := AddMod(zn, Sub(R, 1));
      zn := MulMod(zn, vk.invDomainSize);
      ghost var den := Denominators(vk, z, n);
      ghost var inv := BatchInverted(den);
      InvertDenominators(vk, z, n, m);
      ghost var b2 := Splice(b1, m, inv);
      SpliceSlice(b1, m, inv);
      SpliceSliceOutside(b2, m + n, InvertScratch(den), m, m + n);
      ghost var b3 := buf[..];
      ScaleLagranges(vk, z, n, m, zn);
      LagrangeSplices(b0, b1, b2, b3, buf[..], m, PowScratch(z, vk.domainSize), inv,
                      InvertScratch(den), BatchLagranges(vk, z, n));
    }

    /** The loop of `sum_pi_wo_api_commit`: Σ l_i x_i mod r over the n words at li. */
    method WeightedSumAt(li: nat, xs: seq<Word>, ghost ls: seq<Word>) returns (res: Word)
      requires li + |xs| <= buf.Length && |ls| == |xs|
      requires buf[li..li + |xs|] == ls
      ensures res == WeightedSum(0, ls, xs, |xs|)
    {
      assert forall j :: 0 <= j < |xs| ==> buf[li + j] == ls[j] by {
        forall j | 0 <= j < |xs| ensures buf[li + j] == ls[j] {
          assert buf[li..li + |xs|][j] == ls[j];
        }
      }
      res := 0;
      var i := 0;
      while i < |xs|
        invariant 0 <= i <= |xs|
        invariant res == WeightedSum(0, ls, xs, i)
      {
        res := AddMod(res, MulMod(buf[li + i], xs[i]));
        i := i + 1;
      }
    }

    /** `sum_pi_wo_api_commit(ins, n, z)`: the batched Lagrange values at the free memory
        pointer, then their weighted sum with the public inputs stored over the first. */
    method SumPiWoApiCommit(vk: VerifyingKey, pub: seq<Word>, z: Word)
      requires free + 2 * |pub| + 7 <= buf.Length
      modifies this, buf
      ensures free == old(free) && modexpCalls == old(modexpCalls) + 2
      ensures buf[..] == Splice(old(buf[..]), old(free), [PiLiteral(vk, z, pub)] + LagrangeScratch(vk, z, |pub|)[1..])
    {
      ghost var b0 := buf[..];
      var li := free;
      BatchComputeLagrangesAtZ(vk, z, |pub|, li);
      ghost var b1 := buf[..];
      ghost var scratch := LagrangeScratch(vk, z, |pub|);
      ghost var ls := BatchLagranges(vk, z, |pub|);
      SpliceSlice(b0, li, scratch);
      assert buf[li..li + |pub|] == scratch[..|pub|] == ls;
      var res := WeightedSumAt(li, pub, ls);
      buf[li] := res;
      SpliceSingle(b1, li, res);
      SpliceOver(b0, li, scratch, [res]);
    }

    /** Solidity's `new uint256[](n)`: the length word at the free memory pointer, n zero
        words after it, and the pointer moved past them. */
    method Alloc(n: Word) returns (ptr: nat)
      requires free + n + 1 <= buf.Length
      modifies this, buf
      ensures ptr == old(free) && free == old(free) + n + 1
      ensures buf[..] == Splice(old(buf[..]), ptr, [n] + Zeros(n))
      ensures modexpCalls == old(modexpCalls)
    {
      ptr := free;
      Store(ptr, [n] + Zeros(n));
      free := free + n + 1;
    }

    /** `load_vk_commitments_indices_commit_api(v)`: the template's unrolled stores of the
        commitment indices into the array at v. */
    method LoadVkCommitmentsIndicesCommitApi(vk: VerifyingKey, v: nat)
      requires v + 1 + NbCommitments(vk) <= buf.Length
      modifies buf
      ensures buf[..] == Splice(old(buf[..]), v + 1, vk.commitmentIndices)
    {
      Store(v + 1, vk.commitmentIndices);
    }

    /** A loop of `count` steps that each copies two proof words, from offset c on, to the
        words from `at` on. */
    method CopyProofPairs(proof: seq<Byte>, c: nat, count: nat, at: nat)
      requires 0x20 <= c && c + 0x40 * count <= |proof| + 0x20
      requires at + 2 * count <= buf.Length
      modifies buf
      ensures buf[..] == Splice(old(buf[..]), at, ProofWords(proof, c, 2 * count))
    {
      ghost var b0 := buf[..];
      ghost var ws := ProofWords(proof, c, 2 * count);
      var i := 0;
      while i < count
        invariant 0 <= i <= count
        invariant forall j :: 0 <= j < 2 * i ==> buf[at + j] == ws[j]
        invariant forall j :: 0 <= j < buf.Length && !(at <= j < at + 2 * i) ==> buf[j] == b0[j]
      {
        buf[at + 2 * i] := ProofWordAt(proof, c, 2 * i);
        buf[at + 2 * i + 1] := ProofWordAt(proof, c, 2 * i + 1);
        i := i + 1;
      }
      SpliceOne(b0, buf[..], at, ws);
    }

    /** `load_wire_commitments_commit_api(w, proof)`: the loop runs 2k times, two words each
        time, into an array with room for 2k: 4k words from w + 1 on. */
    method LoadWireCommitmentsCommitApi(k: nat, w: nat, proof: seq<Byte>)
      requires |proof| >= WireReadEnd(k)
      requires w + 1 + 4 * k <= buf.Length
      modifies buf
      ensures buf[..] == Splice(old(buf[..]), w + 1, ProofWords(proof, WireCommitmentOffset(k, 0), 4 * k))
    {
      CopyProofPairs(proof, WireCommitmentOffset(k, 0), 2 * k, w + 1);
    }

    /** `pow_local(x, e)`: the modexp input at the free memory pointer; the output goes to
        the scratch word 0x00, which is not part of this memory. */
    method PowLocal(x: Word, e: Word) returns (result: Word)
      requires free + 6 <= buf.Length
      modifies this, buf
      ensures free == old(free) && modexpCalls == old(modexpCalls) + 1
      ensures result == Modexp(x, e)
      ensures buf[..] == Splice(old(buf[..]), old(free), PowLocalScratch(x, e))
    {
      ModuliAreWords();
      Store(free, [0x20, 0x20, 0x20, x, e, R]);
      result := Modexp(buf[free + 3], buf[free + 4]);
      modexpCalls := modexpCalls + 1;
    }

    /** `compute_ith_lagrange_at_z(zeta, i)`: three `pow_local` calls at the free memory
        pointer, the last one's scratch left behind. */
    method ComputeIthLagrangeAtZ(vk: VerifyingKey, zeta: Word, i: Word) returns (res: Word)
      requires free + 6 <= buf.Length
      modifies this, buf
      ensures free == old(free) && modexpCalls == old(modexpCalls) + 3
      ensures res == IthLagrange(vk, zeta, i)
      ensures buf[..] == Splice(old(buf[..]), old(free), PowLocalScratch(LagrangeDenominator(vk, zeta, i), Sub(R, 2)))
    {
      ModuliAreWords();
      ghost var b0 := buf[..];
      var w := PowLocal(vk.omega, i);
      var d := AddMod(zeta, Sub(R, w));
      var zn := PowLocal(zeta, vk.domainSize);
      SpliceCover(b0, free, PowLocalScratch(vk.omega, i), PowLocalScratch(zeta, vk.domainSize));
      zn := AddMod(zn, Sub(R, 1));
      w := MulMod(w, vk.invDomainSize);
      var inv := PowLocal(d, Sub(R, 2));
      SpliceCover(b0, free, PowLocalScratch(zeta, vk.domainSize), PowLocalScratch(d, Sub(R, 2)));
      w := MulMod(w, inv);
      res := MulMod(w, zn);
    }

    /** `new uint256[](k)` loaded with the commitment indices. */
    method AllocIndices(vk: VerifyingKey) returns (indices: nat)
      requires free + NbCommitments(vk) + 1 <= buf.Length < WORD
      modifies this, buf
      ensures indices == old(free) && free == old(free) + NbCommitments(vk) + 1 && modexpCalls == old(modexpCalls)
      ensures buf[..] == Splice(Splice(old(buf[..]), indices, [NbCommitments(vk)] + Zeros(NbCommitments(vk))),
                                indices + 1, vk.commitmentIndices)
      ensures buf[indices + 1..indices + 1 + NbCommitments(vk)] == vk.commitmentIndices
    {
      indices := Alloc(NbCommitments(vk));
      ghost var b1 := buf[..];
      LoadVkCommitmentsIndicesCommitApi(vk, indices);
      SpliceSlice(b1, indices + 1, vk.commitmentIndices);
    }

    /** `new uint256[](2k)` loaded by `load_wire_commitments_commit_api`. */
    method AllocWires(k: nat, proof: seq<Byte>) returns (wires: nat)
      requires free + 4 * k + 1 <= buf.Length < WORD
      requires |proof| >= WireReadEnd(k)
      modifies this, buf
      ensures wires == old(free) && free == old(free) + 2 * k + 1 && modexpCalls == old(modexpCalls)
      ensures buf[..] == Splice(Splice(old(buf[..]), wires, [2 * k] + Zeros(2 * k)),
                                wires + 1, ProofWords(proof, WireCommitmentOffset(k, 0), 4 * k))
      ensures buf[wires + 1..wires + 1 + 2 * k] == ProofWords(proof, WireCommitmentOffset(k, 0), 2 * k)
    {
      ghost var ws := ProofWords(proof, WireCommitmentOffset(k, 0), 4 * k);
      wires := Alloc(2 * k);
      ghost var b1 := buf[..];
      LoadWireCommitmentsCommitApi(k, wires, proof);
      SpliceSlice(b1, wires + 1, ws);
      ProofWordsSplit(proof, WireCommitmentOffset(k, 0), 2 * k, 2 * k);
      assert buf[wires + 1..wires + 1 + 2 * k] == buf[wires + 1..wires + 1 + 4 * k][..2 * k];
    }

    /** The two arrays of the commitment block, one after the other. */
    method AllocCommitmentArrays(vk: VerifyingKey, proof: seq<Byte>) returns (indices: nat, wires: nat)
      requires free + 5 * NbCommitments(vk) + 2 <= buf.Length < WORD
      requires |proof| >= WireReadEnd(NbCommitments(vk))
      modifies this, buf
      ensures indices == old(free) && wires == old(free) + NbCommitments(vk) + 1
      ensures free == old(free) + 3 * NbCommitments(vk) + 2 && modexpCalls == old(modexpCalls)
      ensures buf[..] == CommitmentArraysMemory(old(buf[..]), old(free), vk, proof)
      ensures buf[indices + 1..indices + 1 + NbCommitments(vk)] == vk.commitmentIndices
      ensures buf[wires + 1..wires + 1 + 2 * NbCommitments(vk)] ==
              ProofWords(proof, WireCommitmentOffset(NbCommitments(vk), 0), 2 * NbCommitments(vk))
    {
      var k := NbCommitments(vk);
      ghost var f := free;
      ghost var b0 := buf[..];
      indices := AllocIndices(vk);
      ghost var b2 := buf[..];
      assert b2 == Splice(Splice(b0, f, [k] + Zeros(k)), f + 1, vk.commitmentIndices);
      wires := AllocWires(k, proof);
      ghost var b3 := Splice(b2, wires, [2 * k] + Zeros(2 * k));
      ghost var ws := ProofWords(proof, WireCommitmentOffset(k, 0), 4 * k);
      CommitmentArraysMemoryIs(b0, f, vk, proof, b2, k, wires);
      SpliceSliceOutside(b2, wires, [2 * k] + Zeros(2 * k), indices + 1, indices + 1 + k);
      SpliceSliceOutside(b3, wires + 1, ws, indices + 1, indices + 1 + k);
    }

    /** The i-th commitment index and the i-th wire commitment, from the two arrays. */
    method ReadCommitment(k: nat, i: nat, indices: nat, wires: nat, ghost idx: seq<Word>, ghost pws: seq<Word>)
      returns (index: Word, x: Word, y: Word)
      requires i < k && |idx| == k && |pws| == 2 * k
      requires indices + 1 + k <= buf.Length && wires + 1 + 2 * k <= buf.Length
      requires buf[indices + 1..indices + 1 + k] == idx
      requires buf[wires + 1..wires + 1 + 2 * k] == pws
      ensures index == idx[i] && G1(x, y) == PointsOf(pws)[i]
    {
      assert buf[wires + 1..wires + 1 + 2 * k][2 * i] == pws[2 * i];
      assert buf[wires + 1..wires + 1 + 2 * k][2 * i + 1] == pws[2 * i + 1];
      assert buf[indices + 1..indices + 1 + k][i] == idx[i];
      index := buf[indices + 1 + i];
      x := buf[wires + 1 + 2 * i];
      y := buf[wires + 2 + 2 * i];
    }

    /** One pass of the loop over the commitments: `hash_fr` of the i-th wire commitment,
        the checked addition `commitment_indices[i] + public_inputs.length` (`None` is its
        revert), and `compute_ith_lagrange_at_z` there, accumulated into acc. The memory is
        b0 with the six words at the free memory pointer overwritten by `last`, before and
        after (then by `scratch`, the i-th commitment's `pow_local` scratch). */
    method CommitmentStep(vk: VerifyingKey, prims: Primitives, ghost pws: seq<Word>, npub: nat,
                          zeta: Word, acc: Word, i: nat, indices: nat, wires: nat,
                          ghost b0: seq<Word>, ghost last: seq<Word>)
      returns (r: Option<Word>, ghost scratch: seq<Word>)
      requires i < NbCommitments(vk) && |pws| == 2 * NbCommitments(vk) && acc < R
      requires indices + 1 + NbCommitments(vk) <= free && wires + 1 + 2 * NbCommitments(vk) <= free
      requires free + 6 <= buf.Length == |b0| && |last| == 6
      requires b0[indices + 1..indices + 1 + NbCommitments(vk)] == vk.commitmentIndices
      requires b0[wires + 1..wires + 1 + 2 * NbCommitments(vk)] == pws
      requires buf[..] == Splice(b0, free, last)
      modifies this, buf
      ensures free == old(free)
      ensures r.Some? <==> vk.commitmentIndices[i] + npub < WORD
      ensures r.Some? ==> r.value == AddMod(acc, MulMod(HashOf(prims, PointsOf(pws)[i]), CommitmentLagrangeAt(vk, zeta, npub, i)))
      ensures r.Some? ==> modexpCalls == old(modexpCalls) + 3
      ensures r.Some? ==> |scratch| == 6 && buf[..] == Splice(b0, free, scratch)
      ensures forall j {:trigger CommitmentScratch(vk, zeta, npub, j)} ::
        r.Some? && j == i && vk.commitmentIndices[j] + npub < WORD ==> scratch == CommitmentScratch(vk, zeta, npub, j)
    {
      var k := NbCommitments(vk);
      SpliceSliceOutside(b0, free, last, indices + 1, indices + 1 + k);
      SpliceSliceOutside(b0, free, last, wires + 1, wires + 1 + 2 * k);
      var index, x, y := ReadCommitment(k, i, indices, wires, vk.commitmentIndices, pws);
      var hashRes := prims.hashFr(x, y);
      if index + npub >= WORD {
        return None, [];
      }
      var res;
      res, scratch := LagrangeTerm(vk, zeta, npub, i, index, acc, hashRes, b0, last);
      r := Some(res);
    }

    /** One pass of the loop as the running sum sees it: the sum over the first i + 1
        commitments, or the revert when index + npub overflows. */
    method AccumulateStep(vk: VerifyingKey, prims: Primitives, ghost pws: seq<Word>, npub: nat, zeta: Word,
                          pi0: Word, acc: Word, i: nat, indices: nat, wires: nat,
                          ghost b0: seq<Word>, ghost last: seq<Word>, ghost hs: seq<Word>, ghost ls: seq<Word>)
      returns (r: Option<Word>, ghost scratch: seq<Word>)
      requires i < NbCommitments(vk) && |pws| == 2 * NbCommitments(vk) && pi0 < R
      requires |hs| == NbCommitments(vk) && |ls| == NbCommitments(vk)
      requires hs[i] == HashOf(prims, PointsOf(pws)[i])
      requires ls[i] == CommitmentLagrangeAt(vk, zeta, npub, i)
      requires acc == WeightedSum(pi0, hs, ls, i) && IndicesFitBelow(vk, npub, i)
      requires indices + 1 + NbCommitments(vk) <= free && wires + 1 + 2 * NbCommitments(vk) <= free
      requires free + 6 <= buf.Length == |b0| && |last| == 6
      requires b0[indices + 1..indices + 1 + NbCommitments(vk)] == vk.commitmentIndices
      requires b0[wires + 1..wires + 1 + 2 * NbCommitments(vk)] == pws
      requires buf[..] == Splice(b0, free, last)
      modifies this, buf
      ensures free == old(free)
      ensures r.None? ==> !IndicesFit(vk, npub)
      ensures r.Some? ==> r.value == WeightedSum(pi0, hs, ls, i + 1) && IndicesFitBelow(vk, npub, i + 1)
      ensures r.Some? ==> modexpCalls == old(modexpCalls) + 3
      ensures r.Some? ==> |scratch| == 6 && buf[..] == Splice(b0, free, scratch)
      ensures forall j {:trigger CommitmentScratch(vk, zeta, npub, j)} ::
        r.Some? && j == i && vk.commitmentIndices[j] + npub < WORD ==> scratch == CommitmentScratch(vk, zeta, npub, j)
    {
      r, scratch := CommitmentStep(vk, prims, pws, npub, zeta, acc, i, indices, wires, b0, last);
      if r.Some? {
        WeightedSumStep(pi0, hs, ls, i);
        IndicesFitBelowStep(vk, npub, i);
      }
    }

    /** The rest of the pass, once the index fits: `compute_ith_lagrange_at_z` at
        index + npub, times h, added to acc. */
    method LagrangeTerm(vk: VerifyingKey, zeta: Word, npub: nat, i: nat, index: Word, acc: Word, h: Word,
                        ghost b0: seq<Word>, ghost last: seq<Word>)
      returns (res: Word, ghost scratch: seq<Word>)
      requires i < NbCommitments(vk) && index == vk.commitmentIndices[i] && index + npub < WORD && acc < R
      requires free + 6 <= buf.Length == |b0| && |last| == 6
      requires buf[..] == Splice(b0, free, last)
      modifies this, buf
      ensures free == old(free) && modexpCalls == old(modexpCalls) + 3
      ensures res == AddMod(acc, MulMod(h, CommitmentLagrangeAt(vk, zeta, npub, i)))
      ensures |scratch| == 6 && buf[..] == Splice(b0, free, scratch)
      ensures scratch == CommitmentScratch(vk, zeta, npub, i)
    {
      ghost var b1 := buf[..];
      var a := ComputeIthLagrangeAtZ(vk, zeta, index + npub);
      scratch := CommitmentScratch(vk, zeta, npub, i);
      SpliceCover(b0, free, last, scratch);
      a := MulMod(h, a);
      res := AddMod(acc, a);
    }

    /** The loop over the commitments, adding each one's term to pi0; ls are the
        commitments' Lagrange values. */
    method AccumulateCommitments(vk: VerifyingKey, prims: Primitives, ghost pws: seq<Word>, npub: nat,
                                 zeta: Word, pi0: Word, indices: nat, wires: nat, ghost hs: seq<Word>, ghost ls: seq<Word>)
      returns (pi: Option<Word>)
      requires 0 < NbCommitments(vk) == |hs| == |ls| && |pws| == 2 * NbCommitments(vk) && pi0 < R
      requires forall j {:trigger HashOf(prims, PointsOf(pws)[j])} ::
        0 <= j < NbCommitments(vk) ==> hs[j] == HashOf(prims, PointsOf(pws)[j])
      requires forall j {:trigger CommitmentLagrangeAt(vk, zeta, npub, j)} ::
        0 <= j < NbCommitments(vk) ==> ls[j] == CommitmentLagrangeAt(vk, zeta, npub, j)
      requires indices + 1 + NbCommitments(vk) <= free && wires + 1 + 2 * NbCommitments(vk) <= free
      requires free + 6 <= buf.Length
      requires buf[indices + 1..indices + 1 + NbCommitments(vk)] == vk.commitmentIndices
      requires buf[wires + 1..wires + 1 + 2 * NbCommitments(vk)] == pws
      modifies this, buf
      ensures free == old(free)
      ensures pi.Some? <==> IndicesFit(vk, npub)
      ensures pi.Some? ==> pi.value == WeightedSum(pi0, hs, ls, NbCommitments(vk))
      ensures pi.Some? ==> modexpCalls == old(modexpCalls) + 3 * NbCommitments(vk)
      ensures pi.Some? ==> buf[..] == Splice(old(buf[..]), old(free), CommitmentScratch(vk, zeta, npub, NbCommitments(vk) - 1))
    {
      ghost var b0 := buf[..];
      ghost var last := b0[free..free + 6];
      SpliceSame(b0, free, 6);
      var acc := pi0;
      var i := 0;
      while i < NbCommitments(vk)
        invariant 0 <= i <= NbCommitments(vk)
        invariant IndicesFitBelow(vk, npub, i)
        invariant acc == WeightedSum(pi0, hs, ls, i)
        invariant free == old(free) && modexpCalls == old(modexpCalls) + 3 * i
        invariant |last| == 6 && buf[..] == Splice(b0, free, last)
        invariant forall j {:trigger CommitmentScratch(vk, zeta, npub, j)} ::
          0 <= j < NbCommitments(vk) && j + 1 == i && vk.commitmentIndices[j] + npub < WORD ==>
          last == CommitmentScratch(vk, zeta, npub, j)
      {
        var r;
        r, last := AccumulateStep(vk, prims, pws, npub, zeta, pi0, acc, i, indices, wires, b0, last, hs, ls);
        if r.None? {
          return None;
        }
        acc := r.value;
        i := i + 1;
      }
      pi := Some(acc);
    }

    /** `sum_pi_wo_api_commit` and the `pow(zeta, n)` after it, whose value is not used. */
    method ComputePiLiteral(vk: VerifyingKey, pub: seq<Word>, zeta: Word) returns (p: Word)
      requires free + 2 * |pub| + 7 <= buf.Length < WORD
      modifies this, buf
      ensures free == old(free) && modexpCalls == old(modexpCalls) + 3
      ensures p == PiLiteral(vk, zeta, pub)
      ensures buf[..] == PiLiteralMemory(old(buf[..]), old(free), vk, pub, zeta)
    {
      ghost var b0 := buf[..];
      SumPiWoApiCommit(vk, pub, zeta);
      SpliceFirst(b0, free, [PiLiteral(vk, zeta, pub)] + LagrangeScratch(vk, zeta, |pub|)[1..]);
      p := buf[free];
      var zetaPowerNMinusOne := Pow(zeta, vk.domainSize, free);
      zetaPowerNMinusOne := AddMod(zetaPowerNMinusOne, Sub(R, 1));
    }

    /** The block over the commitments: the two arrays, then the loop, from pi0 on. */
    method ComputePiCommitments(vk: VerifyingKey, prims: Primitives, proof: seq<Byte>, npub: nat, zeta: Word, pi0: Word)
      returns (pi: Option<Word>)
      requires 0 < NbCommitments(vk) && pi0 < R
      requires |proof| >= WireReadEnd(NbCommitments(vk))
      requires free + 5 * NbCommitments(vk) + 8 <= buf.Length < WORD
      modifies this, buf
      ensures pi.Some? <==> IndicesFit(vk, npub)
      ensures pi.Some? ==> pi.value == WeightedSum(pi0, CommitmentHashes(prims, PointsOf(ProofWords(proof, WireCommitmentOffset(NbCommitments(vk), 0), 2 * NbCommitments(vk)))),
                                                   CommitmentLagranges(vk, zeta, npub), NbCommitments(vk))
      ensures pi.Some? ==> free == old(free) + 3 * NbCommitments(vk) + 2
      ensures pi.Some? ==> modexpCalls == old(modexpCalls) + 3 * NbCommitments(vk)
      ensures pi.Some? ==> buf[..] == Splice(CommitmentArraysMemory(old(buf[..]), old(free), vk, proof),
                                             old(free) + 3 * NbCommitments(vk) + 2,
                                             CommitmentScratch(vk, zeta, npub, NbCommitments(vk) - 1))
    {
      var indices, wires := AllocCommitmentArrays(vk, proof);
      ghost var b1 := buf[..];
      pi := AccumulateCommitments(vk, prims, ProofWords(proof, WireCommitmentOffset(NbCommitments(vk), 0), 2 * NbCommitments(vk)),
                                  npub, zeta, pi0, indices, wires,
                                  CommitmentHashes(prims, PointsOf(ProofWords(proof, WireCommitmentOffset(NbCommitments(vk), 0), 2 * NbCommitments(vk)))),
                                  CommitmentLagranges(vk, zeta, npub));
      if pi.Some? {
        SpliceRebase(b1, CommitmentArraysMemory(old(buf[..]), old(free), vk, proof), free, old(free) + 3 * NbCommitments(vk) + 2,
                     CommitmentScratch(vk, zeta, npub, NbCommitments(vk) - 1), buf[..]);
      }
    }

    /** `compute_pi(proof, public_inputs, zeta)`. `proof` is the memory from the proof's
        first data byte on, as far as the wire copy reads. The block over the commitments
        is only emitted when there are some. */
    method ComputePi(vk: VerifyingKey, prims: Primitives, proof: seq<Byte>, pub: seq<Word>, zeta: Word)
      returns (pi: Option<Word>)
      requires |proof| >= WireReadEnd(NbCommitments(vk))
      requires free + PiMemoryNeeded(NbCommitments(vk), |pub|) <= buf.Length < WORD
      modifies this, buf
      ensures pi.Some? <==> IndicesFit(vk, |pub|)
      ensures pi.Some? ==> pi.value == PiSpec(vk, prims, WireCommitments(proof, NbCommitments(vk)), pub, zeta)
      ensures pi.Some? ==> free == old(free) + (if NbCommitments(vk) > 0 then 3 * NbCommitments(vk) + 2 else 0)
      ensures pi.Some? ==> modexpCalls == old(modexpCalls) + 3 + 3 * NbCommitments(vk)
      ensures pi.Some? ==> buf[..] == PiMemory(old(buf[..]), old(free), vk, proof, pub, zeta)
    {
      var k := NbCommitments(vk);
      ghost var f := free;
      ghost var b0 := buf[..];
      var p := ComputePiLiteral(vk, pub, zeta);
      ghost var b1 := buf[..];
      if k > 0 {
        pi := ComputePiCommitments(vk, prims, proof, |pub|, zeta, p);
        if pi.Some? {
          PiMemoryIs(b0, f, vk, proof, pub, zeta, b1);
          PiValueIs(vk, prims, proof, pub, zeta, p, pi.value);
        }
      } else {
        pi := Some(p);
        PiValueIs(vk, prims, proof, pub, zeta, p, p);
      }
    }
  }
}

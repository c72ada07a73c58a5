/** `serialiseProof`: the byte string a gnark PLONK proof becomes before it is passed to
    `Verify`, and why the contract's `proof_*` offsets find each part of the proof in it. */
module Serialise {
  import opened Words
  import opened Curve
  import opened Layout

  /** `kzg.OpeningProof`: the quotient commitment and the value claimed at one point. */
  datatype OpeningProof = OpeningProof(h: G1, claimedValue: Word)

  /** `kzg.BatchOpeningProof`: one quotient commitment for several values claimed at ζ. */
  datatype BatchOpeningProof = BatchOpeningProof(h: G1, claimedValues: seq<Word>)

  /** A Go array `[3]kzg.Digest`. */
  type Triple = s: seq<G1> | |s| == 3 witness [G1(0, 0), G1(0, 0), G1(0, 0)]

  /** gnark's `plonk.Proof` for BN254. Points are affine coordinates, scalars their
      canonical values. */
  datatype Proof = Proof(
    lro: Triple,
    z: G1,
    h: Triple,
    bsb22Commitments: seq<G1>,
    batchedProof: BatchOpeningProof,
    zShiftedOpening: OpeningProof)

  /** Words written out 32 bytes each, big-endian, in order. */
  function WordsBytes(ws: seq<Word>): (s: seq<Byte>)
    ensures |s| == 32 * |ws|
  {
    if ws == [] then [] else WordsBytes(ws[..|ws| - 1]) + WordBytes(ws[|ws| - 1])
  }

  /** `G1Affine.RawBytes`: x then y, 32 bytes each. */
  function RawBytes(p: G1): (s: seq<Byte>)
    ensures |s| == 64
  {
    WordBytes(p.x) + WordBytes(p.y)
  }

  /** The 26 words at fixed offsets, in the order `serialiseProof` appends them: L, R, O,
      H0..H2, the claimed values 2..6 (l, r, o, s1, s2 at ζ), Z, z(ωζ), the claimed values 0
      and 1 (t and the linearised polynomial at ζ), then the two opening quotients. */
  function FixedWords(proof: Proof): (ws: seq<Word>)
    requires |proof.batchedProof.claimedValues| >= 7
    ensures |ws| == 26
  {
    var cv := proof.batchedProof.claimedValues;
    PointWords(proof.lro) + PointWords(proof.h) + cv[2..7] + MiddleWords(proof)
  }

  function MiddleWords(proof: Proof): (ws: seq<Word>)
    requires |proof.batchedProof.claimedValues| >= 7
  {
    var cv := proof.batchedProof.claimedValues;
    var bh := proof.batchedProof.h;
    var zs := proof.zShiftedOpening;
    [proof.z.x, proof.z.y, zs.claimedValue, cv[0], cv[1], bh.x, bh.y, zs.h.x, zs.h.y]
  }

  /** All words of a serialised proof: the fixed ones, the claimed values from 7 on, and
      last the BSB22 commitments. */
  function SerialisedWords(proof: Proof): (ws: seq<Word>)
    requires |proof.batchedProof.claimedValues| >= 7
    ensures |ws| == 26 + (|proof.batchedProof.claimedValues| - 7) + 2 * |proof.bsb22Commitments|
  {
    FixedWords(proof) + proof.batchedProof.claimedValues[7..] + PointWords(proof.bsb22Commitments)
  }

  /** `serialiseProof(proof)`. Go panics on fewer than seven claimed values (it indexes
      2..6); nothing relates the number of claimed values to the number of commitments. */
  method SerialiseProof(proof: Proof) returns (res: seq<Byte>)
    requires |proof.batchedProof.claimedValues| >= 7
    ensures res == WordsBytes(SerialisedWords(proof))
    ensures |res| == 0x340 + 0x20 * (|proof.batchedProof.claimedValues| - 7) + 0x40 * |proof.bsb22Commitments|
  {
    var cv := proof.batchedProof.claimedValues;
    res := SerialiseFixed(proof);
    ghost var w4 := FixedWords(proof);
    res := AppendClaimedValues(res, w4, cv, 7, |cv|);
    ghost var w5 := w4 + cv[7..|cv|];
    res := AppendPoints(res, w5, proof.bsb22Commitments);
    assert cv[7..|cv|] == cv[7..];
  }

  /** The appends before the two variable-length loops. */
  method SerialiseFixed(proof: Proof) returns (res: seq<Byte>)
    requires |proof.batchedProof.claimedValues| >= 7
    ensures res == WordsBytes(FixedWords(proof))
  {
    var cv := proof.batchedProof.claimedValues;
    res := AppendPoints([], [], proof.lro);
    ghost var w1 := [] + PointWords(proof.lro);
    res := AppendPoints(res, w1, proof.h);
    ghost var w2 := w1 + PointWords(proof.h);
    res := AppendClaimedValues(res, w2, cv, 2, 7);
    ghost var w3 := w2 + cv[2..7];
    res := AppendMiddle(res, w3, proof);
    assert w3 + MiddleWords(proof) == FixedWords(proof);
  }

  /** A loop appending `RawBytes` of each point. */
  method AppendPoints(res: seq<Byte>, ghost ws: seq<Word>, ps: seq<G1>) returns (out: seq<Byte>)
    requires res == WordsBytes(ws)
    ensures out == WordsBytes(ws + PointWords(ps))
  {
    out := res;
    ghost var acc := ws;
    assert ws + PointWords(ps[..0]) == ws;
    for i := 0 to |ps|
      invariant acc == ws + PointWords(ps[..i]) && out == WordsBytes(acc)
    {
      AppendPoint(acc, ps[i]);
      PointsSnoc(ps[..i], ps[i]);
      assert ps[..i + 1] == ps[..i] + [ps[i]];
      out := out + RawBytes(ps[i]);
      acc := acc + [ps[i].x, ps[i].y];
    }
    assert ps[..|ps|] == ps;
  }

  /** A loop appending `ClaimedValues[i].Bytes()` for i from `from` below `to`. */
  method AppendClaimedValues(res: seq<Byte>, ghost ws: seq<Word>, cv: seq<Word>, from: nat, to: nat)
    returns (out: seq<Byte>)
    requires from <= to <= |cv|
    requires res == WordsBytes(ws)
    ensures out == WordsBytes(ws + cv[from..to])
  {
    out := res;
    ghost var acc := ws;
    assert ws + cv[from..from] == ws;
    for i := from to to
      invariant acc == ws + cv[from..i] && out == WordsBytes(acc)
    {
      AppendWord(acc, cv[i]);
      assert cv[from..i + 1] == cv[from..i] + [cv[i]];
      out := out + WordBytes(cv[i]);
      acc := acc + [cv[i]];
    }
  }

  /** Z, z(ωζ), ClaimedValues[0] and [1], `BatchedProof.H`, `ZShiftedOpening.H`. */
  method AppendMiddle(res: seq<Byte>, ghost ws: seq<Word>, proof: Proof) returns (out: seq<Byte>)
    requires |proof.batchedProof.claimedValues| >= 7
    requires res == WordsBytes(ws)
    ensures out == WordsBytes(ws + MiddleWords(proof))
  {
    var cv := proof.batchedProof.claimedValues;
    var zs := proof.zShiftedOpening;
    out := AppendGrandProduct(res, ws, proof.z, zs.claimedValue, cv[0], cv[1]);
    ghost var acc := ws + [proof.z.x, proof.z.y, zs.claimedValue, cv[0], cv[1]];
    AppendPoint(acc, proof.batchedProof.h);
    out, acc := out + RawBytes(proof.batchedProof.h), acc + [proof.batchedProof.h.x, proof.batchedProof.h.y];
    AppendPoint(acc, zs.h);
    out, acc := out + RawBytes(zs.h), acc + [zs.h.x, zs.h.y];
    assert acc == ws + MiddleWords(proof);
  }

  /** Z, z(ωζ), t(ζ) and the linearised value. */
  method AppendGrandProduct(res: seq<Byte>, ghost ws: seq<Word>, z: G1, zv: Word, t: Word, lin: Word)
    returns (out: seq<Byte>)
    requires res == WordsBytes(ws)
    ensures out == WordsBytes(ws + [z.x, z.y, zv, t, lin])
  {
    ghost var acc := ws;
    AppendPoint(acc, z);
    out, acc := res + RawBytes(z), acc + [z.x, z.y];
    AppendWord(acc, zv);
    out, acc := out + WordBytes(zv), acc + [zv];
    AppendWord(acc, t);
    out, acc := out + WordBytes(t), acc + [t];
    AppendWord(acc, lin);
    out, acc := out + WordBytes(lin), acc + [lin];
    assert acc == ws + [z.x, z.y, zv, t, lin];
  }

  lemma AppendWord(ws: seq<Word>, w: Word)
    ensures WordsBytes(ws + [w]) == WordsBytes(ws) + WordBytes(w)
  {
    assert (ws + [w])[..|ws|] == ws;
  }

  lemma AppendPoint(ws: seq<Word>, p: G1)
    ensures WordsBytes(ws + [p.x, p.y]) == WordsBytes(ws) + RawBytes(p)
  {
    AppendWord(ws, p.x);
    assert (ws + [p.x, p.y])[..|ws| + 1] == ws + [p.x];
  }

  lemma PointsSnoc(ps: seq<G1>, p: G1)
    ensures PointWords(ps + [p]) == PointWords(ps) + [p.x, p.y]
  {
    PointWordsAppend(ps, [p]);
  }

  // ---------------------------------------------------------------- reading it back

  /** `mload` at offset 0x20 (i + 1) of s returns word i of ws, for every word. */
  ghost predicate LoadsBack(s: seq<Byte>, ws: seq<Word>)
  {
    |s| == 0x20 * |ws| &&
    forall i :: 0 <= i < |ws| ==> 0x20 * (i + 1) <= |s| && Mload(s, 0x20 * (i + 1)) == ws[i]
  }

  /** The (i+1)-th `mload` of a serialised word list returns word i. */
  lemma {:induction false} ReadWord(ws: seq<Word>, i: nat)
    requires i < |ws|
    ensures Mload(WordsBytes(ws), 0x20 * (i + 1)) == ws[i]
  {
    var n := |ws| - 1;
    var s := WordsBytes(ws);
    var init := WordsBytes(ws[..n]);
    if i == n {
      assert s[0x20 * i..0x20 * (i + 1)] == WordBytes(ws[n]);
      WordOfBytes(ws[n]);
    } else {
      ReadWord(ws[..n], i);
      assert s[0x20 * i..0x20 * (i + 1)] == init[0x20 * i..0x20 * (i + 1)];
    }
  }

  /** Written-out words load back. */
  lemma WordsLoadBack(ws: seq<Word>)
    ensures LoadsBack(WordsBytes(ws), ws)
  {
    forall i | 0 <= i < |ws|
      ensures Mload(WordsBytes(ws), 0x20 * (i + 1)) == ws[i]
    {
      ReadWord(ws, i);
    }
  }

  /** Word i loads back from offset 0x20 (i + 1). */
  lemma LoadAt(s: seq<Byte>, ws: seq<Word>, i: nat, c: nat)
    requires LoadsBack(s, ws) && i < |ws| && c == 0x20 * (i + 1)
    ensures 0x20 <= c <= |s| && Mload(s, c) == ws[i]
  {
  }

  /** The point whose words are i and i + 1 loads back from offset 0x20 (i + 1). */
  lemma PointLoadAt(s: seq<Byte>, ws: seq<Word>, i: nat, c: nat)
    requires LoadsBack(s, ws) && i + 1 < |ws| && c == 0x20 * (i + 1)
    ensures 0x20 <= c && c + 0x20 <= |s| && PointAt(s, c) == G1(ws[i], ws[i + 1])
  {
    LoadAt(s, ws, i, c);
    LoadAt(s, ws, i + 1, c + 0x20);
  }

  /** The fixed words one by one. */
  lemma FixedWordsAre(proof: Proof)
    requires |proof.batchedProof.claimedValues| >= 7
    ensures var cv := proof.batchedProof.claimedValues;
            var l, h := proof.lro, proof.h;
            var bh, zs := proof.batchedProof.h, proof.zShiftedOpening;
      FixedWords(proof) ==
        [l[0].x, l[0].y, l[1].x, l[1].y, l[2].x, l[2].y,
         h[0].x, h[0].y, h[1].x, h[1].y, h[2].x, h[2].y,
         cv[2], cv[3], cv[4], cv[5], cv[6],
         proof.z.x, proof.z.y, zs.claimedValue, cv[0], cv[1], bh.x, bh.y, zs.h.x, zs.h.y]
  {
    PointsOfTriple(proof.lro);
    PointsOfTriple(proof.h);
  }

  lemma PointsOfTriple(t: Triple)
    ensures PointWords(t) == [t[0].x, t[0].y, t[1].x, t[1].y, t[2].x, t[2].y]
  {
  }

  /** A serialised proof is exactly as long as the verifier expects for k commitments
      if and only if it carries k claimed values beyond the seven fixed ones as well. */
  lemma SizeMatches(proof: Proof)
    requires |proof.batchedProof.claimedValues| >= 7
    ensures var k := |proof.bsb22Commitments|;
      |WordsBytes(SerialisedWords(proof))| == ProofSize(k) <==> |proof.batchedProof.claimedValues| - 7 == k
  {
  }

  /** The view the verifier's parts of a proof determine. */
  function ProofViewOf(proof: Proof): (v: ProofView)
    requires |proof.batchedProof.claimedValues| >= 7
  {
    var cv := proof.batchedProof.claimedValues;
    ProofView(proof.lro[0], proof.lro[1], proof.lro[2], proof.h[0], proof.h[1], proof.h[2],
              cv[2], cv[3], cv[4], cv[5], cv[6], proof.z, proof.zShiftedOpening.claimedValue,
              cv[0], cv[1], proof.batchedProof.h, proof.zShiftedOpening.h,
              cv[7..], proof.bsb22Commitments)
  }

  /** With k commitments and k claimed values beyond the seventh, the verifier's view of
      the serialised bytes is the proof itself: every `proof_*` offset finds the part
      `serialiseProof` put there, 0x20 bytes further on for the length word. */
  lemma ReadBack(proof: Proof, k: nat)
    requires |proof.batchedProof.claimedValues| == 7 + k && |proof.bsb22Commitments| == k
    ensures |WordsBytes(SerialisedWords(proof))| == ProofSize(k)
    ensures View(WordsBytes(SerialisedWords(proof)), k) == ProofViewOf(proof)
  {
    var ws := SerialisedWords(proof);
    WordsLoadBack(ws);
    ReadBackLoads(proof, k, ws, WordsBytes(ws));
  }

  lemma ReadBackLoads(proof: Proof, k: nat, ws: seq<Word>, s: seq<Byte>)
    requires |proof.batchedProof.claimedValues| == 7 + k && |proof.bsb22Commitments| == k
    requires ws == SerialisedWords(proof) && LoadsBack(s, ws)
    ensures |s| == ProofSize(k) && View(s, k) == ProofViewOf(proof)
  {
    SerialisedParts(proof, k, ws);
    ReadCommitments(proof, ws, s);
    ReadOpenings(proof, ws, s);
    ReadMiddle(proof, ws, s);
    ReadSelectorOpenings(proof.batchedProof.claimedValues[7..], k, ws, s);
    ReadWireCommitments(PointWords(proof.bsb22Commitments), k, ws, s);
    PointsOfWords(proof.bsb22Commitments);
  }

  /** Where the parts sit in the word list. */
  lemma SerialisedParts(proof: Proof, k: nat, ws: seq<Word>)
    requires |proof.batchedProof.claimedValues| == 7 + k && |proof.bsb22Commitments| == k
    requires ws == SerialisedWords(proof)
    ensures |ws| == 26 + 3 * k
    ensures ws[..26] == FixedWords(proof)
    ensures ws[26..26 + k] == proof.batchedProof.claimedValues[7..]
    ensures ws[26 + k..] == PointWords(proof.bsb22Commitments)
  {
  }

  /** The commitments L, R, O and H0..H2 at their `proof_*` offsets. */
  lemma ReadCommitments(proof: Proof, ws: seq<Word>, s: seq<Byte>)
    requires |proof.batchedProof.claimedValues| >= 7
    requires |ws| >= 26 && ws[..26] == FixedWords(proof) && LoadsBack(s, ws)
    ensures PointAt(s, PROOF_L_COM_X) == proof.lro[0] && PointAt(s, PROOF_R_COM_X) == proof.lro[1]
    ensures PointAt(s, PROOF_O_COM_X) == proof.lro[2]
    ensures PointAt(s, PROOF_H_0_X) == proof.h[0] && PointAt(s, PROOF_H_1_X) == proof.h[1]
    ensures PointAt(s, PROOF_H_2_X) == proof.h[2]
  {
    FixedWordsAre(proof);
    var fw := ws[..26];
    PointLoadAt(s, ws, 0, PROOF_L_COM_X);
    PointLoadAt(s, ws, 2, PROOF_R_COM_X);
    PointLoadAt(s, ws, 4, PROOF_O_COM_X);
    PointLoadAt(s, ws, 6, PROOF_H_0_X);
    PointLoadAt(s, ws, 8, PROOF_H_1_X);
    PointLoadAt(s, ws, 10, PROOF_H_2_X);
    assert ws[0] == fw[0] && ws[1] == fw[1] && ws[2] == fw[2] && ws[3] == fw[3];
    assert ws[4] == fw[4] && ws[5] == fw[5] && ws[6] == fw[6] && ws[7] == fw[7];
    assert ws[8] == fw[8] && ws[9] == fw[9] && ws[10] == fw[10] && ws[11] == fw[11];
  }

  /** The five wire and permutation openings at ζ at their `proof_*` offsets. */
  lemma ReadOpenings(proof: Proof, ws: seq<Word>, s: seq<Byte>)
    requires |proof.batchedProof.claimedValues| >= 7
    requires |ws| >= 26 && ws[..26] == FixedWords(proof) && LoadsBack(s, ws)
    ensures var cv := proof.batchedProof.claimedValues;
      Mload(s, PROOF_L_AT_ZETA) == cv[2] && Mload(s, PROOF_R_AT_ZETA) == cv[3] &&
      Mload(s, PROOF_O_AT_ZETA) == cv[4] && Mload(s, PROOF_S1_AT_ZETA) == cv[5] &&
      Mload(s, PROOF_S2_AT_ZETA) == cv[6]
  {
    FixedWordsAre(proof);
    var fw := ws[..26];
    LoadAt(s, ws, 12, PROOF_L_AT_ZETA);
    LoadAt(s, ws, 13, PROOF_R_AT_ZETA);
    LoadAt(s, ws, 14, PROOF_O_AT_ZETA);
    LoadAt(s, ws, 15, PROOF_S1_AT_ZETA);
    LoadAt(s, ws, 16, PROOF_S2_AT_ZETA);
    assert ws[12] == fw[12] && ws[13] == fw[13] && ws[14] == fw[14] && ws[15] == fw[15] && ws[16] == fw[16];
  }

  /** Z, z(ωζ), t(ζ), the linearised value and the two opening quotients at their
      `proof_*` offsets. */
  lemma ReadMiddle(proof: Proof, ws: seq<Word>, s: seq<Byte>)
    requires |proof.batchedProof.claimedValues| >= 7
    requires |ws| >= 26 && ws[..26] == FixedWords(proof) && LoadsBack(s, ws)
    ensures var cv := proof.batchedProof.claimedValues;
      PointAt(s, PROOF_GRAND_PRODUCT_COMMITMENT_X) == proof.z &&
      Mload(s, PROOF_GRAND_PRODUCT_AT_ZETA_OMEGA) == proof.zShiftedOpening.claimedValue &&
      Mload(s, PROOF_QUOTIENT_POLYNOMIAL_AT_ZETA) == cv[0] &&
      Mload(s, PROOF_LINEARISED_POLYNOMIAL_AT_ZETA) == cv[1] &&
      PointAt(s, PROOF_BATCH_OPENING_AT_ZETA_X) == proof.batchedProof.h &&
      PointAt(s, PROOF_OPENING_AT_ZETA_OMEGA_X) == proof.zShiftedOpening.h
  {
    FixedWordsAre(proof);
    var fw := ws[..26];
    PointLoadAt(s, ws, 17, PROOF_GRAND_PRODUCT_COMMITMENT_X);
    LoadAt(s, ws, 19, PROOF_GRAND_PRODUCT_AT_ZETA_OMEGA);
    LoadAt(s, ws, 20, PROOF_QUOTIENT_POLYNOMIAL_AT_ZETA);
    LoadAt(s, ws, 21, PROOF_LINEARISED_POLYNOMIAL_AT_ZETA);
    PointLoadAt(s, ws, 22, PROOF_BATCH_OPENING_AT_ZETA_X);
    PointLoadAt(s, ws, 24, PROOF_OPENING_AT_ZETA_OMEGA_X);
    assert ws[17] == fw[17] && ws[18] == fw[18] && ws[19] == fw[19] && ws[20] == fw[20] && ws[21] == fw[21];
    assert ws[22] == fw[22] && ws[23] == fw[23] && ws[24] == fw[24] && ws[25] == fw[25];
  }

  lemma ReadSelectorOpenings(os: seq<Word>, k: nat, ws: seq<Word>, s: seq<Byte>)
    requires |os| == k && |ws| == 26 + 3 * k && ws[26..26 + k] == os && LoadsBack(s, ws)
    ensures SelectorOpenings(s, k) == os
  {
    forall i | 0 <= i < k
      ensures SelectorOpenings(s, k)[i] == os[i]
    {
      assert SelectorOpeningOffset(i) == 0x20 * (26 + i + 1);
      assert ws[26 + i] == ws[26..26 + k][i];
    }
  }

  lemma ReadWireCommitments(ps: seq<Word>, k: nat, ws: seq<Word>, s: seq<Byte>)
    requires |ps| == 2 * k && |ws| == 26 + 3 * k && ws[26 + k..] == ps && LoadsBack(s, ws)
    ensures WireCommitments(s, k) == PointsOf(ps)
  {
    ReadPointWords(s, ws, 26 + k, ps);
  }

  /** Words m, m+1, .. of a byte string are loaded back from offset 0x20 (m + 1) on. */
  lemma ReadPointWords(s: seq<Byte>, ws: seq<Word>, m: nat, ps: seq<Word>)
    requires m + |ps| == |ws| && ws[m..] == ps && LoadsBack(s, ws)
    ensures ProofWords(s, 0x20 * (m + 1), |ps|) == ps
  {
    var c := 0x20 * (m + 1);
    forall j | 0 <= j < |ps|
      ensures ProofWords(s, c, |ps|)[j] == ps[j]
    {
      LoadShift(s, c, j, 0x20 * (m + j + 1));
      assert ws[m + j] == ws[m..][j];
    }
  }

  /** Word j from offset c on is the word loaded at c + 0x20 j. */
  lemma LoadShift(s: seq<Byte>, c: nat, j: nat, d: nat)
    requires 0x20 <= c && d == c + 0x20 * j && d <= |s|
    ensures ProofWordAt(s, c, j) == Mload(s, d)
  {
  }
}

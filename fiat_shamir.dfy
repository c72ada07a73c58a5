/** `derive_gamma_beta_alpha_zeta`: each derivation stores its transcript at the free memory
    pointer, which it does not advance, and SHA-256 overwrites the first stored word with the
    digest; the next derivation reads that raw digest back. */
module FiatShamir {
  import opened Words
  import opened Field
  import opened Curve
  import opened Layout
  import opened Transcript
  import opened FreeMemory

  /** Four adjacent runs of stores make one. */
  lemma SpliceFour(b0: seq<Word>, m: nat, a: seq<Word>, b: seq<Word>, c: seq<Word>, d: seq<Word>, b4: seq<Word>)
    requires m + |a| + |b| + |c| + |d| <= |b0|
    requires b4 == Splice(Splice(Splice(Splice(b0, m, a), m + |a|, b), m + |a| + |b|, c), m + |a| + |b| + |c|, d)
    ensures b4 == Splice(b0, m, a + b + c + d)
  {
    SpliceAdjacent(b0, m, a, b);
    SpliceAdjacent(b0, m, a + b, c);
    SpliceAdjacent(b0, m, a + b + c, d);
  }

  /** The bytes SHA-256 reads from stored words, from byte `skip` to their end. */
  lemma StoredPreimage(b0: seq<Word>, b1: seq<Word>, m: nat, ws: seq<Word>, skip: nat, size: nat)
    requires m + |ws| <= |b0| && b1 == Splice(b0, m, ws) && skip + size == 32 * |ws|
    ensures Flatten(b1[m..m + |ws|])[skip..skip + size] == Flatten(ws)[skip..]
  {
    SpliceSlice(b0, m, ws);
  }

  /** The size `derive_gamma` passes reaches exactly the end of what it stored. */
  lemma GammaSizeFits(k: nat, npub: nat)
    ensures 0x1b + GammaSize(k, npub) == 32 * (23 + npub + 2 * k)
  {
  }

  /** The stores of `derive_gamma`: the label and the eight key commitments, the public
      inputs (a loop), the wire commitments (a loop over pairs), then [L], [R], [O]. */
  method StoreGammaTranscript(mem: Memory, vk: VerifyingKey, proof: seq<Byte>, pub: seq<Word>)
    requires |proof| >= ProofSize(NbCommitments(vk))
    requires mem.free + 23 + |pub| + 2 * NbCommitments(vk) <= mem.buf.Length
    modifies mem.buf
    ensures mem.buf[..] == Splice(old(mem.buf[..]), mem.free, GammaWordsOf(vk, proof, pub))
  {
    var m := mem.free;
    ghost var b0 := mem.buf[..];
    var head := [GAMMA_LABEL] + PointWords(VkGammaPoints(vk));
    var wires := ProofWords(proof, WireCommitmentOffset(NbCommitments(vk), 0), 2 * NbCommitments(vk));
    var lro := ProofWords(proof, PROOF_L_COM_X, 6);
    mem.Store(m, head);
    mem.Store(m + |head|, pub);
    mem.CopyProofPairs(proof, WireCommitmentOffset(NbCommitments(vk), 0), NbCommitments(vk), m + |head| + |pub|);
    mem.Store(m + |head| + |pub| + |wires|, lro);
    SpliceFour(b0, m, head, pub, wires, lro, mem.buf[..]);
  }

  /** `derive_gamma`: SHA-256 of the 0x2c5 + 0x20 |pub| + 0x40 k bytes stored, from byte 0x1b
      on, so that the preimage starts with "gamma". */
  method DeriveGamma(mem: Memory, vk: VerifyingKey, prims: Primitives, proof: seq<Byte>, pub: seq<Word>)
    returns (d: Word)
    requires |proof| >= ProofSize(NbCommitments(vk))
    requires mem.free + 23 + |pub| + 2 * NbCommitments(vk) <= mem.buf.Length
    modifies mem.buf
    ensures d == prims.sha256(Flatten(GammaWordsOf(vk, proof, pub))[27..])
    ensures mem.buf[..] == Splice(old(mem.buf[..]), mem.free, [d] + GammaWordsOf(vk, proof, pub)[1..])
  {
    StoreGammaTranscript(mem, vk, proof, pub);
    ghost var w := GammaWordsOf(vk, proof, pub);
    SpliceSlice(old(mem.buf[..]), mem.free, w);
    GammaSizeFits(NbCommitments(vk), |pub|);
    d := mem.Sha256Stored(prims, mem.free, 23 + |pub| + 2 * NbCommitments(vk), w, 0x1b,
                          GammaSize(NbCommitments(vk), |pub|));
    SpliceOver(old(mem.buf[..]), mem.free, w, [d]);
  }

  /** `derive_beta`: "beta" and the previous raw digest; SHA-256 of 0x24 bytes from 0x1c. */
  method DeriveBeta(mem: Memory, prims: Primitives, prev: Word) returns (d: Word)
    requires mem.free + 2 <= mem.buf.Length
    modifies mem.buf
    ensures d == prims.sha256(BetaPreimage(prev))
    ensures mem.buf[..] == Splice(old(mem.buf[..]), mem.free, [d, prev])
  {
    var m := mem.free;
    ghost var b0 := mem.buf[..];
    mem.Store(m, BetaWords(prev));
    SpliceSlice(b0, m, BetaWords(prev));
    assert Flatten(BetaWords(prev))[0x1c..0x1c + 0x24] == BetaPreimage(prev);
    d := mem.Sha256(prims, m, 2, 0x1c, 0x24);
    assert [d] + BetaWords(prev)[1..] == [d, prev];
    SpliceOver(b0, m, BetaWords(prev), [d]);
  }

  /** `derive_alpha`: "alpha", the previous raw digest and [Z]; 0x65 bytes from 0x1b. */
  method DeriveAlpha(mem: Memory, prims: Primitives, proof: seq<Byte>, prev: Word) returns (d: Word)
    requires |proof| >= PROOF_GRAND_PRODUCT_COMMITMENT_X + 0x20
    requires mem.free + 4 <= mem.buf.Length
    modifies mem.buf
    ensures d == prims.sha256(Flatten(AlphaWordsOf(prev, proof))[27..])
    ensures mem.buf[..] == Splice(old(mem.buf[..]), mem.free, [d] + AlphaWordsOf(prev, proof)[1..])
  {
    var m := mem.free;
    ghost var b0 := mem.buf[..];
    var ws := AlphaWordsOf(prev, proof);
    mem.Store(m, ws);
    SpliceSlice(b0, m, ws);
    assert Flatten(ws)[0x1b..0x1b + 0x65] == Flatten(ws)[27..];
    d := mem.Sha256(prims, m, 4, 0x1b, 0x65);
    SpliceOver(b0, m, ws, [d]);
  }

  /** `derive_zeta`: "zeta", the previous raw digest and [H0], [H1], [H2]; 0xe4 bytes from 0x1c. */
  method DeriveZeta(mem: Memory, prims: Primitives, proof: seq<Byte>, prev: Word) returns (d: Word)
    requires |proof| >= PROOF_H_2_X + 0x40
    requires mem.free + 8 <= mem.buf.Length
    modifies mem.buf
    ensures d == prims.sha256(Flatten(ZetaWordsOf(prev, proof))[28..])
    ensures mem.buf[..] == Splice(old(mem.buf[..]), mem.free, [d] + ZetaWordsOf(prev, proof)[1..])
  {
    var m := mem.free;
    ghost var b0 := mem.buf[..];
    var ws := ZetaWordsOf(prev, proof);
    mem.Store(m, ws);
    SpliceSlice(b0, m, ws);
    assert Flatten(ws)[0x1c..0x1c + 0xe4] == Flatten(ws)[28..];
    d := mem.Sha256(prims, m, 8, 0x1c, 0xe4);
    SpliceOver(b0, m, ws, [d]);
  }

  /** The buffer after the four derivations: each stores over the start of the previous
      transcript, whose first word the digest has replaced. */
  lemma ChainMemory(b0: seq<Word>, m: nat, gw: seq<Word>, gd: Word, bw: seq<Word>, aw: seq<Word>, zw: seq<Word>,
                    b1: seq<Word>, b2: seq<Word>, b3: seq<Word>, b4: seq<Word>)
    requires |gw| >= 8 && |bw| == 2 && |aw| == 4 && |zw| == 8 && m + |gw| <= |b0|
    requires b1 == Splice(b0, m, [gd] + gw[1..]) && b2 == Splice(b1, m, bw)
    requires b3 == Splice(b2, m, aw) && b4 == Splice(b3, m, zw)
    ensures b4 == Splice(b0, m, zw + gw[8..])
  {
    var g := [gd] + gw[1..];
    SpliceOver(b0, m, g, bw);
    SpliceOver(b0, m, bw + g[2..], aw);
    assert (bw + g[2..])[4..] == g[4..];
    SpliceOver(b0, m, aw + g[4..], zw);
    assert (aw + g[4..])[8..] == g[8..] == gw[8..];
  }

  /** `derive_gamma_beta_alpha_zeta`: gamma, beta, alpha and zeta, each the previous raw
      digest read back from the free memory pointer, reduced mod r at the end. */
  method DeriveGammaBetaAlphaZeta(mem: Memory, vk: VerifyingKey, prims: Primitives, proof: seq<Byte>, pub: seq<Word>)
    returns (c: Challenges)
    requires |proof| >= ProofSize(NbCommitments(vk))
    requires mem.free + 23 + |pub| + 2 * NbCommitments(vk) <= mem.buf.Length
    modifies mem.buf
    ensures c == Reduced(RawChallenges(vk, prims, proof, pub))
    ensures mem.buf[..] == Splice(old(mem.buf[..]), mem.free,
      [RawChallenges(vk, prims, proof, pub).zeta] +
      ZetaWordsOf(RawChallenges(vk, prims, proof, pub).alpha, proof)[1..] + GammaWordsOf(vk, proof, pub)[8..])
  {
    var m := mem.free;
    ghost var b0 := mem.buf[..];
    ghost var gd := DeriveGamma(mem, vk, prims, proof, pub);
    ghost var g := [gd] + GammaWordsOf(vk, proof, pub)[1..];
    SpliceFirst(b0, m, g);
    var gamma := mem.buf[m];
    ghost var b1 := mem.buf[..];
    ghost var bd := DeriveBeta(mem, prims, gamma);
    SpliceFirst(b1, m, [bd, gamma]);
    var beta := mem.buf[m];
    ghost var b2 := mem.buf[..];
    ghost var ad := DeriveAlpha(mem, prims, proof, beta);
    ghost var aw := [ad] + AlphaWordsOf(beta, proof)[1..];
    SpliceFirst(b2, m, aw);
    var alpha := mem.buf[m];
    ghost var b3 := mem.buf[..];
    ghost var zd := DeriveZeta(mem, prims, proof, alpha);
    ghost var zw := [zd] + ZetaWordsOf(alpha, proof)[1..];
    SpliceFirst(b3, m, zw);
    var zeta := mem.buf[m];
    ChainMemory(b0, m, GammaWordsOf(vk, proof, pub), gd, [bd, gamma], aw, zw, b1, b2, b3, mem.buf[..]);
    RawChallengesAre(vk, prims, proof, pub, gd, bd, ad, zd);
    ModuliAreWords();
    c := Challenges(gamma % R, beta % R, alpha % R, zeta % R);
  }
}

/** G1 points of BN254 as the verifier holds them in memory (two words), and the
    precompiles and hash functions it calls, as uninterpreted functions. */
module Curve {
  import opened Words
  import opened Field
  import opened Wrappers

  /** An affine point, exactly the two words `mstore` writes; nothing says it is on the curve. */
  datatype G1 = G1(x: Word, y: Word)

  /** The point (1, 2) that `batch_verify_multi_points` stores before its ECMUL. */
  const GENERATOR: G1 := G1(1, 2)

  /** Negation as the verifier writes it: `y := sub(p_mod, y)`, with uint256 wrap-around. */
  function Negate(p: G1): (q: G1)
    ensures q.x == p.x
    ensures p.y <= P ==> q.y == P - p.y
  {
    ModuliAreWords();
    G1(p.x, Sub(P, p.y))
  }

  /** The words of consecutive points: x then y for each. */
  function PointWords(ps: seq<G1>): (ws: seq<Word>)
    ensures |ws| == 2 * |ps|
    ensures forall i :: 0 <= i < |ps| ==> ws[2 * i] == ps[i].x && ws[2 * i + 1] == ps[i].y
  {
    if ps == [] then [] else [ps[0].x, ps[0].y] + PointWords(ps[1..])
  }

  /** The points whose words are consecutive pairs of ws. */
  function PointsOf(ws: seq<Word>): (ps: seq<G1>)
    ensures |ps| == |ws| / 2
  {
    seq(|ws| / 2, i requires 0 <= i < |ws| / 2 => PairAt(ws, i))
  }

  function PairAt(ws: seq<Word>, i: nat): G1
    requires 2 * i + 1 < |ws|
  {
    G1(ws[2 * i], ws[2 * i + 1])
  }

  /** Pairing up an even number of words and writing the points back gives the words. */
  lemma PointWordsOf(ws: seq<Word>)
    requires |ws| % 2 == 0
    ensures PointWords(PointsOf(ws)) == ws
  {
    var t := PointWords(PointsOf(ws));
    forall j | 0 <= j < |ws|
      ensures t[j] == ws[j]
    {
      var i := j / 2;
      assert PointsOf(ws)[i] == PairAt(ws, i);
      if j % 2 == 1 {
        assert j == 2 * i + 1;
      }
    }
  }

  /** Words of concatenated points are concatenated words. */
  lemma {:induction false} PointWordsAppend(a: seq<G1>, b: seq<G1>)
    ensures PointWords(a + b) == PointWords(a) + PointWords(b)
  {
    if a == [] {
      assert a + b == b;
    } else {
      assert (a + b)[0] == a[0] && (a + b)[1..] == a[1..] + b;
      PointWordsAppend(a[1..], b);
    }
  }

  /** Pairing up the words of points gives the points back. */
  lemma PointsOfWords(ps: seq<G1>)
    ensures PointsOf(PointWords(ps)) == ps
  {
    var ws := PointWords(ps);
    forall i | 0 <= i < |ps|
      ensures PointsOf(ws)[i] == ps[i]
    {
      assert PointsOf(ws)[i] == PairAt(ws, i);
    }
  }

  /** What the verifier calls but does not define: the SHA-256 precompile (0x02), `keccak256`,
      `Utils.hash_fr`, ECADD (0x06), ECMUL (0x07) and the pairing precompile (0x08). A curve call
      yields `None` when the precompile reports failure; the pairing yields the word it writes. */
  datatype Primitives = Primitives(
    sha256: seq<Byte> -> Word,
    keccak256: seq<Byte> -> Word,
    hashFr: (Word, Word) -> Word,
    ecAdd: (G1, G1) -> Option<G1>,
    ecMul: (G1, Word) -> Option<G1>,
    pairing: seq<Word> -> Option<Word>)

  /** `dlog` reads each point as its discrete logarithm in Z_r: successful ECADD and ECMUL
      calls are then linear maps, and negation is additive inversion. */
  ghost predicate Homomorphic(prims: Primitives, dlog: G1 -> nat)
  {
    (forall p: G1, q: G1 :: prims.ecAdd(p, q).Some? ==>
       dlog(prims.ecAdd(p, q).value) == (dlog(p) + dlog(q)) % R) &&
    (forall p: G1, s: Word :: prims.ecMul(p, s).Some? ==>
       dlog(prims.ecMul(p, s).value) == (dlog(p) * s) % R) &&
    (forall p: G1 :: dlog(Negate(p)) == (R - dlog(p) % R) % R)
  }

  /** The zero map meets the hypothesis for any precompiles, so it is satisfiable. */
  lemma HomomorphicSatisfiable(prims: Primitives)
    ensures Homomorphic(prims, (p: G1) => 0)
  {
  }
}

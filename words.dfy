/** EVM words and bytes: the 256-bit values that `mstore`/`mload` move, their
    big-endian byte encoding, and the uint256 wrap-around of `add` and `sub`. */
module Words {

  const WORD: nat := 0x1_0000000000000000000000000000000000000000000000000000000000000000

  type Byte = b: int | 0 <= b < 256

  /** A memory word. Proof and public-input words are read unreduced, so a word
      is any value below 2^256, not a field element. */
  type Word = w: int | 0 <= w < WORD

  /** EVM `add`: wraps around modulo 2^256. */
  function Add(a: Word, b: Word): (r: Word)
    ensures a + b < WORD ==> r == a + b
    ensures a + b >= WORD ==> r == a + b - WORD
  {
    (a + b) % WORD
  }

  /** EVM `sub`: wraps around modulo 2^256. */
  function Sub(a: Word, b: Word): (r: Word)
    ensures b <= a ==> r == a - b
    ensures a < b ==> r == WORD + a - b
  {
    (a - b) % WORD
  }

  function Pow256(n: nat): (p: nat)
    ensures p > 0
  {
    if n == 0 then 1 else 256 * Pow256(n - 1)
  }

  lemma {:induction false} Pow256Add(a: nat, b: nat)
    ensures Pow256(a + b) == Pow256(a) * Pow256(b)
  {
    if a > 0 {
      Pow256Add(a - 1, b);
    }
  }

  lemma Pow256Word()
    ensures Pow256(32) == WORD
  {
    assert Pow256(4) == 0x1_0000_0000;
    Pow256Add(4, 4);
    Pow256Add(8, 8);
    Pow256Add(16, 16);
  }

  /** The n low-order bytes of w, most significant first. */
  function ToBytes(w: nat, n: nat): (s: seq<Byte>)
    ensures |s| == n
  {
    if n == 0 then [] else ToBytes(w / 256, n - 1) + [w % 256]
  }

  /** The number a big-endian byte string denotes. */
  function FromBytes(s: seq<Byte>): (v: nat)
    ensures v < Pow256(|s|)
  {
    if s == [] then 0 else FromBytes(s[..|s| - 1]) * 256 + s[|s| - 1]
  }

  lemma {:induction false} FromToBytes(w: nat, n: nat)
    requires w < Pow256(n)
    ensures FromBytes(ToBytes(w, n)) == w
  {
    if n > 0 {
      var s := ToBytes(w, n);
      assert s[..n - 1] == ToBytes(w / 256, n - 1);
      FromToBytes(w / 256, n - 1);
    }
  }

  lemma {:induction false} ToFromBytes(s: seq<Byte>)
    ensures ToBytes(FromBytes(s), |s|) == s
  {
    if s != [] {
      var init := s[..|s| - 1];
      ToFromBytes(init);
      var v := FromBytes(s);
      assert v / 256 == FromBytes(init);
      assert v % 256 == s[|s| - 1];
      assert s == init + [s[|s| - 1]];
    }
  }

  /** The m low-order bytes of an n-byte encoding are the m-byte encoding. */
  lemma {:induction false} ToBytesLow(w: nat, n: nat, m: nat)
    requires m <= n
    ensures ToBytes(w, n)[n - m..] == ToBytes(w, m)
  {
    if m > 0 {
      ToBytesLow(w / 256, n - 1, m - 1);
      assert ToBytes(w, n)[n - m..] == ToBytes(w / 256, n - 1)[n - m..] + [w % 256];
    }
  }

  /** The 32 bytes `mstore` writes for a word. */
  function WordBytes(w: Word): (s: seq<Byte>)
    ensures |s| == 32
  {
    ToBytes(w, 32)
  }

  /** The word `mload` reads from 32 bytes. */
  function WordOf(s: seq<Byte>): (w: Word)
    requires |s| == 32
  {
    Pow256Word();
    FromBytes(s)
  }

  /** Loading 32 bytes and storing the word back gives the same bytes. */
  lemma BytesOfWord(s: seq<Byte>)
    requires |s| == 32
    ensures WordBytes(WordOf(s)) == s
  {
    ToFromBytes(s);
  }

  lemma WordOfBytes(w: Word)
    ensures WordOf(WordBytes(w)) == w
  {
    Pow256Word();
    FromToBytes(w, 32);
  }

  /** Two words with the same encoding are the same word. */
  lemma WordBytesInjective(a: Word, b: Word)
    requires WordBytes(a) == WordBytes(b)
    ensures a == b
  {
    WordOfBytes(a);
    WordOfBytes(b);
  }

  /** The bytes of consecutive memory words. */
  function Flatten(ws: seq<Word>): (b: seq<Byte>)
    ensures |b| == 32 * |ws|
  {
    if ws == [] then [] else WordBytes(ws[0]) + Flatten(ws[1..])
  }

  lemma {:induction false} FlattenAppend(a: seq<Word>, b: seq<Word>)
    ensures Flatten(a + b) == Flatten(a) + Flatten(b)
  {
    if a == [] {
      assert a + b == b;
    } else {
      assert (a + b)[0] == a[0];
      assert (a + b)[1..] == a[1..] + b;
      FlattenAppend(a[1..], b);
    }
  }

  /** Word i of a memory region occupies bytes [32 i, 32 i + 32). */
  lemma {:induction false} FlattenAt(ws: seq<Word>, i: nat)
    requires i < |ws|
    ensures Flatten(ws)[32 * i..32 * i + 32] == WordBytes(ws[i])
  {
    if i > 0 {
      FlattenAt(ws[1..], i - 1);
    }
  }
}

/** Bytes and little-endian 32-bit words, as the C code lays them out in memory. */
module Bytes {

  type byte = x: int | 0 <= x < 256

  const WORD_LIMIT: int := 0x1_0000_0000

  type uint32 = x: int | 0 <= x < 0x1_0000_0000

  function Word(w: uint32): (s: seq<byte>)
    ensures |s| == 4
  {
    [w % 256, w / 256 % 256, w / 256 / 256 % 256, w / 256 / 256 / 256]
  }

  function WordOf(b0: byte, b1: byte, b2: byte, b3: byte): uint32 {
    b0 + 256 * (b1 + 256 * (b2 + 256 * b3))
  }

  function WordAt(s: seq<byte>, i: nat): uint32
    requires i + 4 <= |s|
  {
    WordOf(s[i], s[i + 1], s[i + 2], s[i + 3])
  }

  /** The least significant byte comes first. */
  lemma WordBytes(s: seq<byte>, i: nat)
    requires i + 4 <= |s|
    ensures var a: int, b: int, c: int, d: int := s[i], s[i + 1], s[i + 2], s[i + 3];
            WordAt(s, i) == a + 0x100 * b + 0x1_0000 * c + 0x100_0000 * d
  {
  }

  lemma WordReadBack(w: uint32)
    ensures WordAt(Word(w), 0) == w
  {
    var q1 := w / 256;
    var q2 := q1 / 256;
    var q3 := q2 / 256;
    assert w == 256 * q1 + w % 256 && q1 == 256 * q2 + q1 % 256 && q2 == 256 * q3 + q2 % 256;
  }

  lemma WordRebuilt(s: seq<byte>, i: nat)
    requires i + 4 <= |s|
    ensures Word(WordAt(s, i)) == s[i..i + 4]
  {
    var w := WordAt(s, i);
    var b1: int, b2: int, b3: int := s[i + 1], s[i + 2], s[i + 3];
    assert w / 256 == b1 + 256 * (b2 + 256 * b3) && w % 256 == s[i];
    assert w / 256 / 256 == b2 + 256 * b3 && w / 256 % 256 == b1;
  }

  /** Two stretches of memory hold the same bytes from `lo` up to `hi`. */
  ghost predicate Agree(s: seq<byte>, t: seq<byte>, lo: nat, hi: nat) {
    && hi <= |s| && hi <= |t|
    && forall k :: lo <= k < hi ==> s[k] == t[k]
  }

  lemma AgreeSlice(s: seq<byte>, t: seq<byte>, lo: nat, hi: nat)
    requires Agree(s, t, lo, hi) && lo <= hi
    ensures s[lo..hi] == t[lo..hi]
  {
  }

  lemma SliceAgrees(s: seq<byte>, t: seq<byte>, lo: nat, hi: nat)
    requires lo <= hi <= |s| && hi <= |t| && s[lo..hi] == t[lo..hi]
    ensures Agree(s, t, lo, hi)
  {
    forall k | lo <= k < hi
      ensures s[k] == t[k]
    {
      assert s[k] == s[lo..hi][k - lo] && t[k] == t[lo..hi][k - lo];
    }
  }

  lemma AgreeWord(s: seq<byte>, t: seq<byte>, i: nat)
    requires Agree(s, t, i, i + 4)
    ensures WordAt(s, i) == WordAt(t, i)
  {
  }

  /** `s` with the bytes at `i` overwritten by `t`: memcpy into memory. */
  function Splice<T>(s: seq<T>, i: nat, t: seq<T>): (r: seq<T>)
    requires i + |t| <= |s|
    ensures |r| == |s|
  {
    s[..i] + t + s[i + |t|..]
  }

  lemma SpliceByte<T>(s: seq<T>, i: nat, t: seq<T>, k: nat)
    requires i + |t| <= |s| && k < |s|
    ensures Splice(s, i, t)[k] == if i <= k < i + |t| then t[k - i] else s[k]
  {
  }

  lemma SpliceRead(s: seq<byte>, i: nat, t: seq<byte>)
    requires i + |t| <= |s|
    ensures Splice(s, i, t)[i..i + |t|] == t
    ensures Agree(Splice(s, i, t), s, 0, i) && Agree(Splice(s, i, t), s, i + |t|, |s|)
  {
  }

  lemma SpliceWord(s: seq<byte>, i: nat, w: uint32)
    requires i + 4 <= |s|
    ensures WordAt(Splice(s, i, Word(w)), i) == w
    ensures Agree(Splice(s, i, Word(w)), s, 0, i) && Agree(Splice(s, i, Word(w)), s, i + 4, |s|)
  {
    SpliceRead(s, i, Word(w));
    WordReadBack(w);
    hide WordOf, Word;
    var r := Splice(s, i, Word(w));
    assert r[i] == r[i..i + 4][0] && r[i + 1] == r[i..i + 4][1] && r[i + 2] == r[i..i + 4][2] && r[i + 3] == r[i..i + 4][3];
  }

  /** Putting back what was there undoes an overwrite. */
  lemma SpliceUndone(s: seq<byte>, i: nat, t: seq<byte>)
    requires i + |t| <= |s|
    ensures Splice(Splice(s, i, t), i, s[i..i + |t|]) == s
  {
  }

  /** Two adjacent overwrites are one. */
  lemma SpliceJoined(s: seq<byte>, i: nat, t: seq<byte>, u: seq<byte>)
    requires i + |t| + |u| <= |s|
    ensures Splice(Splice(s, i, t), i + |t|, u) == Splice(s, i, t + u)
  {
  }
}

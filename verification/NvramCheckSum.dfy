/**
 `NVM_ComputeCheckSum`: the checksum of the backup data file, read a word at a time in the version
 kept under `#if 0`, and 4096 words at a time in the version in use.
 */
module NvramCheckSum {
  import opened Arithmetic
  import opened Bytes

  const LOOP_NUM: nat := 4096
  const WORD_SIZE: nat := 4

  type Content = seq<bv8>

  /** Accumulator, and whether the next word is xor-ed (otherwise added). */
  datatype State = State(sum: bv32, flag: bool)

  // The two operations by name, so that proofs may treat them as a whole.

  function Plus(a: bv32, b: bv32): bv32 {
    a + b
  }

  function Xor(a: bv32, b: bv32): bv32 {
    a ^ b
  }

  function Absorb(s: State, w: bv32): State {
    if s.flag then State(Xor(s.sum, w), false) else State(Plus(s.sum, w), true)
  }

  function AbsorbAll(s: State, ws: seq<bv32>): State
    decreases |ws|
  {
    if ws == [] then s else AbsorbAll(Absorb(s, ws[0]), ws[1..])
  }

  lemma {:induction false} AbsorbOneMore(s: State, ws: seq<bv32>, w: bv32)
    ensures AbsorbAll(s, ws + [w]) == Absorb(AbsorbAll(s, ws), w)
    decreases |ws|
  {
    hide Absorb;
    if ws == [] {
      assert (ws + [w])[1..] == [];
    } else {
      AbsorbOneMore(Absorb(s, ws[0]), ws[1..], w);
      assert (ws + [w])[1..] == ws[1..] + [w];
    }
  }

  /** A byte below the bytes of a word. */
  function Below(b: bv8, w: bv32): bv32 {
    (b as bv32) | (w << 8)
  }

  /** Up to four bytes as a little-endian word, missing ones zero. */
  function Load(bytes: Content): bv32
    requires |bytes| <= WORD_SIZE
  {
    if bytes == [] then 0 else Below(bytes[0], Load(bytes[1..]))
  }

  /** Word `i` of the file. */
  function WordAt(f: Content, i: nat): bv32
    requires WORD_SIZE * (i + 1) <= |f|
  {
    Load(f[WORD_SIZE * i..WORD_SIZE * (i + 1)])
  }

  /** The first `n` words of the file. */
  function Words(f: Content, n: nat): (ws: seq<bv32>)
    requires WORD_SIZE * n <= |f|
    ensures |ws| == n
  {
    seq(n, i requires 0 <= i < n => WordAt(f, i))
  }

  /** The size the source works with: st_size in an unsigned int. */
  function SizeOf(f: Content): (n: nat)
    ensures n <= |f| && n < WORD_LIMIT
  {
    |f| % WORD_LIMIT
  }

  /** Whole words alternately xor-ed and added, and the remaining bytes added in any case. */
  function CheckSum(f: Content): bv32 {
    var n := SizeOf(f) / WORD_SIZE;
    Finish(AbsorbAll(State(0, true), Words(f, n)), f[WORD_SIZE * n..SizeOf(f)])
  }

  function Finish(s: State, rest: Content): bv32
    requires |rest| < WORD_SIZE
  {
    Plus(s.sum, Load(rest))
  }

  /** read(2): as many of `n` bytes from `pos` on as the file has. */
  function Read(f: Content, pos: nat, n: nat): (r: Content)
    requires pos <= |f|
    ensures |r| <= n
  {
    if pos + n <= |f| then f[pos..pos + n] else f[pos..]
  }

  lemma ReadWhole(f: Content, pos: nat, n: nat)
    requires pos + n <= |f|
    ensures Read(f, pos, n) == f[pos..pos + n]
  {
  }

  lemma OneWord(f: Content, i: nat)
    requires WORD_SIZE * (i + 1) <= |f|
    ensures Load(f[WORD_SIZE * i..WORD_SIZE * i + WORD_SIZE]) == WordAt(f, i)
  {
  }

  lemma AbsorbNext(f: Content, k: nat)
    requires WORD_SIZE * (k + 1) <= |f|
    ensures AbsorbAll(State(0, true), Words(f, k + 1)) == Absorb(AbsorbAll(State(0, true), Words(f, k)), WordAt(f, k))
  {
    hide WordAt;
    assert Words(f, k + 1) == Words(f, k) + [WordAt(f, k)];
    AbsorbOneMore(State(0, true), Words(f, k), WordAt(f, k));
  }

  /** The version kept under `#if 0`: one word per read. */
  method CheckSumByWord(f: Content) returns (sum: bv32)
    ensures sum == CheckSum(f)
  {
    hide Load, Absorb, AbsorbAll, Words, Finish, SizeOf, Read, WordAt;
    var size := SizeOf(f);
    var loopTime := size / WORD_SIZE;
    var s := State(0, true);
    EmptyFold(f);
    var pos := 0;
    var i := 0;
    while i < loopTime
      invariant 0 <= i <= loopTime && pos == WORD_SIZE * i
      invariant s == AbsorbAll(State(0, true), Words(f, i))
    {
      var got := Read(f, pos, WORD_SIZE);
      ReadWhole(f, pos, WORD_SIZE);
      pos := pos + |got|;
      if |got| != WORD_SIZE {
        return 0;
      }
      AbsorbNext(f, i);
      assert Load(got) == WordAt(f, i) by {
        OneWord(f, i);
      }
      s := Absorb(s, Load(got));
      i := i + 1;
    }
    var rest := Read(f, pos, size % WORD_SIZE);
    ReadWhole(f, pos, size % WORD_SIZE);
    if |rest| != size % WORD_SIZE {
      return 0;
    }
    sum := Finish(s, rest);
  }

  lemma EmptyFold(f: Content)
    ensures AbsorbAll(State(0, true), Words(f, 0)) == State(0, true)
  {
  }

  /** The version in use: 4096 words per read, the alternation flag carried from chunk to chunk. */
  method CheckSumByChunk(f: Content) returns (sum: bv32)
    ensures sum == CheckSum(f)
  {
    hide Load, Absorb, AbsorbAll, Words, Finish, SizeOf, Read, WordAt;
    var size := SizeOf(f);
    var loopTime := size / WORD_SIZE;
    var chunks := loopTime / LOOP_NUM + 1;
    var s := State(0, true);
    EmptyFold(f);
    var pos := 0;
    var i := 0;
    while i < chunks
      invariant 0 <= i <= chunks
      invariant pos == WORD_SIZE * (if i == chunks then loopTime else LOOP_NUM * i)
      invariant s == AbsorbAll(State(0, true), Words(f, pos / WORD_SIZE))
    {
      var count := if i != chunks - 1 then LOOP_NUM else loopTime % LOOP_NUM;
      var got := Read(f, pos, count * WORD_SIZE);
      ReadWhole(f, pos, count * WORD_SIZE);
      ghost var base := pos / WORD_SIZE;
      pos := pos + |got|;
      if |got| != count * WORD_SIZE {
        return 0;
      }
      var j := 0;
      while j < count
        invariant 0 <= j <= count
        invariant s == AbsorbAll(State(0, true), Words(f, base + j))
      {
        AbsorbNext(f, base + j);
        ChunkWord(f, base, count, j);
        s := Absorb(s, WordAt(got, j));
        j := j + 1;
      }
      i := i + 1;
    }
    var rest := Read(f, pos, size % WORD_SIZE);
    ReadWhole(f, pos, size % WORD_SIZE);
    if |rest| != size % WORD_SIZE {
      return 0;
    }
    sum := Finish(s, rest);
  }

  lemma ChunkWord(f: Content, base: nat, count: nat, j: nat)
    requires WORD_SIZE * (base + count) <= |f| && j < count
    ensures WordAt(f[WORD_SIZE * base..WORD_SIZE * (base + count)], j) == WordAt(f, base + j)
  {
    hide Load;
    SliceOfSlice(f, WORD_SIZE * base, WORD_SIZE * (base + count), WORD_SIZE * j, WORD_SIZE * (j + 1));
  }

  // What the sum is, in words and bytes

  /** After an even number of words the next one is xor-ed. */
  lemma {:induction false} NextIsXor(s: State, ws: seq<bv32>)
    requires s.flag
    ensures AbsorbAll(s, ws).flag == (|ws| % 2 == 0)
    decreases |ws|
  {
    hide Plus, Xor;
    if |ws| > 1 {
      var t := Absorb(Absorb(s, ws[0]), ws[1]);
      assert ws[1..][0] == ws[1] && ws[1..][1..] == ws[2..];
      NextIsXor(t, ws[2..]);
    } else if |ws| == 1 {
      assert ws[1..] == [];
    }
  }

  lemma SizeOfShort(f: Content)
    requires |f| < WORD_LIMIT
    ensures SizeOf(f) == |f|
  {
  }

  lemma RestAt(f: Content, rest: Content, n: nat)
    requires |f| == WORD_SIZE * n
    ensures (f + rest)[WORD_SIZE * n..|f| + |rest|] == rest
  {
  }

  lemma WordCount(n: nat, k: nat)
    requires k < WORD_SIZE
    ensures (WORD_SIZE * n + k) / WORD_SIZE == n
  {
    Division(n * 4 + k, 4, n, k);
  }

  lemma CheckSumParts(f: Content, n: nat, size: nat)
    requires SizeOf(f) == size && size / WORD_SIZE == n
    ensures WORD_SIZE * n <= size <= |f| && size - WORD_SIZE * n < WORD_SIZE
    ensures CheckSum(f) == Finish(AbsorbAll(State(0, true), Words(f, n)), f[WORD_SIZE * n..size])
  {
    hide AbsorbAll, Words, Finish;
  }

  lemma FinishIs(s: State, rest: Content)
    requires |rest| < WORD_SIZE
    ensures Finish(s, rest) == Plus(s.sum, Load(rest))
  {
    hide Plus, Load;
  }

  /** Whole words, and then fewer bytes than a word. */
  lemma WordsAndRest(f: Content, n: nat, rest: Content)
    requires |f| == WORD_SIZE * n && |f| + |rest| < WORD_LIMIT && |rest| < WORD_SIZE
    ensures CheckSum(f + rest) == Plus(AbsorbAll(State(0, true), Words(f, n)).sum, Load(rest))
  {
    hide Load, Absorb, AbsorbAll, Words, SizeOf, Plus, CheckSum, Finish;
    SizeOfShort(f + rest);
    WordCount(n, |rest|);
    CheckSumParts(f + rest, n, |f| + |rest|);
    RestAt(f, rest, n);
    WordsFront(f, rest, n);
    FinishIs(AbsorbAll(State(0, true), Words(f, n)), rest);
  }

  lemma PlusZero(a: bv32)
    ensures Plus(a, 0) == a
  {
  }

  lemma LoadNothing()
    ensures Load([]) == 0
  {
  }

  lemma WholeWords(f: Content, n: nat)
    requires |f| == WORD_SIZE * n < WORD_LIMIT
    ensures CheckSum(f) == AbsorbAll(State(0, true), Words(f, n)).sum
  {
    hide Load, Absorb, AbsorbAll, Words, CheckSum, Plus;
    assert f + [] == f;
    WordsAndRest(f, n, []);
    LoadNothing();
    PlusZero(AbsorbAll(State(0, true), Words(f, n)).sum);
  }

  /** Appended bytes leave the words before them alone. */
  lemma WordAtFront(f: Content, g: Content, i: nat)
    requires WORD_SIZE * (i + 1) <= |f|
    ensures WordAt(f + g, i) == WordAt(f, i)
  {
    hide Load;
    var lo, hi := WORD_SIZE * i, WORD_SIZE * (i + 1);
    SliceOfSlice(f + g, 0, |f|, lo, hi);
    assert (f + g)[0..|f|] == f;
  }

  lemma WordsFront(f: Content, g: Content, n: nat)
    requires WORD_SIZE * n <= |f|
    ensures Words(f + g, n) == Words(f, n)
  {
    hide WordAt;
    forall i | 0 <= i < n
      ensures Words(f + g, n)[i] == Words(f, n)[i]
    {
      WordAtFront(f, g, i);
    }
  }

  lemma WordsOneMore(f: Content, n: nat)
    requires WORD_SIZE * (n + 1) <= |f|
    ensures Words(f, n + 1) == Words(f, n) + [WordAt(f, n)]
  {
    hide WordAt;
  }

  lemma LastWord(f: Content, n: nat, g: Content)
    requires |f| == WORD_SIZE * n && |g| == WORD_SIZE
    ensures WordAt(f + g, n) == Load(g)
  {
    hide Load;
    assert (f + g)[WORD_SIZE * n..WORD_SIZE * (n + 1)] == g;
  }

  lemma WordsGrow(f: Content, n: nat, g: Content)
    requires |f| == WORD_SIZE * n && |g| == WORD_SIZE
    ensures Words(f + g, n + 1) == Words(f, n) + [Load(g)]
  {
    hide Load, WordAt, Words;
    LastWord(f, n, g);
    WordsFront(f, g, n);
    WordsOneMore(f + g, n);
  }

  /** One more word on whole words. */
  lemma SumOfNextWord(f: Content, b: Content)
    requires |f| % 4 == 0 && |f| + 4 < WORD_LIMIT && |b| == WORD_SIZE
    ensures CheckSum(f + b) == Absorb(State(CheckSum(f), |f| % 8 == 0), Load(b)).sum
  {
    hide Load, CheckSum, AbsorbAll, Words, Absorb;
    var n, start := |f| / 4, State(0, true);
    WholeWords(f, n);
    WholeWords(f + b, n + 1);
    WordsGrow(f, n, b);
    AbsorbOneMore(start, Words(f, n), Load(b));
    NextIsXor(start, Words(f, n));
  }

  /** Byte `k` of a word, the least significant being byte 0. */
  function ByteOf(v: bv32, k: nat): bv8
    requires k < 4
  {
    if k == 0 then (v & 0xFF) as bv8
    else if k == 1 then ((v >> 8) & 0xFF) as bv8
    else if k == 2 then ((v >> 16) & 0xFF) as bv8
    else (v >> 24) as bv8
  }

  /** The number whose little-endian bytes, as many as given, are `b`. */
  ghost predicate LittleEndian(b: Content, v: bv32) {
    && 1 <= |b| <= 4
    && (forall k :: 0 <= k < |b| ==> b[k] == ByteOf(v, k))
    && (|b| == 1 ==> v < 0x100) && (|b| == 2 ==> v < 0x1_0000) && (|b| == 3 ==> v < 0x100_0000)
  }

  lemma LowestByte(v: bv32)
    ensures Below(ByteOf(v, 0), v >> 8) == v
  {
  }

  lemma SecondByte(v: bv32)
    ensures Below(ByteOf(v, 1), v >> 16) == v >> 8
  {
  }

  lemma ThirdByte(v: bv32)
    ensures Below(ByteOf(v, 2), v >> 24) == v >> 16
  {
  }

  lemma HighestByte(v: bv32)
    ensures Below(ByteOf(v, 3), 0) == v >> 24
  {
  }

  lemma NothingAbove(v: bv32)
    ensures v < 0x100 ==> v >> 8 == 0
    ensures v < 0x1_0000 ==> v >> 16 == 0
    ensures v < 0x100_0000 ==> v >> 24 == 0
  {
  }

  lemma BytesRejoined(v: bv32)
    ensures v < 0x100 ==> Below(ByteOf(v, 0), 0) == v
    ensures v < 0x1_0000 ==> Below(ByteOf(v, 0), Below(ByteOf(v, 1), 0)) == v
    ensures v < 0x100_0000 ==> Below(ByteOf(v, 0), Below(ByteOf(v, 1), Below(ByteOf(v, 2), 0))) == v
    ensures Below(ByteOf(v, 0), Below(ByteOf(v, 1), Below(ByteOf(v, 2), Below(ByteOf(v, 3), 0)))) == v
  {
    hide Below, ByteOf;
    LowestByte(v);
    SecondByte(v);
    ThirdByte(v);
    HighestByte(v);
    NothingAbove(v);
  }

  lemma LoadCons(a: bv8, rest: Content)
    requires |rest| < WORD_SIZE
    ensures Load([a] + rest) == Below(a, Load(rest))
  {
    hide Below;
    assert ([a] + rest)[1..] == rest;
  }

  lemma LoadOfOne(a: bv8)
    ensures Load([a]) == Below(a, 0)
  {
    hide Load, Below;
    assert [a] + [] == [a];
    LoadCons(a, []);
    LoadNothing();
  }

  lemma LoadOfTwo(a: bv8, b: bv8)
    ensures Load([a, b]) == Below(a, Below(b, 0))
  {
    hide Load, Below;
    assert [a] + [b] == [a, b];
    LoadCons(a, [b]);
    LoadOfOne(b);
  }

  lemma LoadOfThree(a: bv8, b: bv8, c: bv8)
    ensures Load([a, b, c]) == Below(a, Below(b, Below(c, 0)))
  {
    hide Load, Below;
    assert [a] + [b, c] == [a, b, c];
    LoadCons(a, [b, c]);
    LoadOfTwo(b, c);
  }

  lemma LoadOfFour(a: bv8, b: bv8, c: bv8, d: bv8)
    ensures Load([a, b, c, d]) == Below(a, Below(b, Below(c, Below(d, 0))))
  {
    hide Load, Below;
    assert [a] + [b, c, d] == [a, b, c, d];
    LoadCons(a, [b, c, d]);
    LoadOfThree(b, c, d);
  }

  lemma AbsorbIs(s: bv32, w: bv32)
    ensures Absorb(State(s, true), w).sum == Xor(s, w)
    ensures Absorb(State(s, false), w).sum == Plus(s, w)
  {
    hide Plus, Xor;
  }

  lemma LoadNumber(b: Content, v: bv32)
    requires LittleEndian(b, v)
    ensures Load(b) == v
  {
    hide Load, Below, ByteOf;
    BytesRejoined(v);
    if |b| == 1 {
      assert b == [ByteOf(v, 0)];
      LoadOfOne(ByteOf(v, 0));
    } else if |b| == 2 {
      assert b == [ByteOf(v, 0), ByteOf(v, 1)];
      LoadOfTwo(ByteOf(v, 0), ByteOf(v, 1));
    } else if |b| == 3 {
      assert b == [ByteOf(v, 0), ByteOf(v, 1), ByteOf(v, 2)];
      LoadOfThree(ByteOf(v, 0), ByteOf(v, 1), ByteOf(v, 2));
    } else {
      assert b == [ByteOf(v, 0), ByteOf(v, 1), ByteOf(v, 2), ByteOf(v, 3)];
      LoadOfFour(ByteOf(v, 0), ByteOf(v, 1), ByteOf(v, 2), ByteOf(v, 3));
    }
  }

  /** One more word v on whole words: xor-ed after an even number of them, otherwise added. */
  lemma SumOfOneMoreWord(f: Content, b: Content, v: bv32)
    requires |f| % 4 == 0 && |f| + 4 < WORD_LIMIT && |b| == WORD_SIZE && LittleEndian(b, v)
    ensures |f| % 8 == 0 ==> CheckSum(f + b) == Xor(CheckSum(f), v)
    ensures |f| % 8 != 0 ==> CheckSum(f + b) == Plus(CheckSum(f), v)
  {
    hide Load, CheckSum, Absorb, LittleEndian, Plus, Xor;
    LoadNumber(b, v);
    SumOfNextWord(f, b);
    AbsorbIs(CheckSum(f), v);
  }

  /** The sum of the empty file is zero. */
  lemma SumOfNothing()
    ensures CheckSum([]) == 0
  {
    WholeWords([], 0);
    EmptyFold([]);
  }

  lemma OddWords(n: nat)
    requires n % 8 == 0
    ensures n % 4 == 0 && (n + 4) % 4 == 0 && (n + 4) % 8 != 0
  {
    var q := n / 8;
    Division(n, 4, 2 * q, 0);
    Division(n + 4, 4, 2 * q + 1, 0);
    Division(n + 4, 8, q, 4);
  }

  lemma SumByPlus(f: Content, b: Content, v: bv32, c: Content, w: bv32)
    requires |f| % 8 == 0 && |f| + 8 < WORD_LIMIT && |b| == |c| == 4
    requires LittleEndian(b, v) && LittleEndian(c, w)
    ensures CheckSum(f + b) == Xor(CheckSum(f), v)
    ensures CheckSum(f + b + c) == Plus(Xor(CheckSum(f), v), w)
  {
    hide CheckSum, Plus, Xor, LittleEndian;
    OddWords(|f|);
    SumOfOneMoreWord(f, b, v);
    var g := f + b;
    assert |g| == |f| + 4;
    SumOfOneMoreWord(g, c, w);
  }

  /**
   Appending words v and w, least significant byte first, to a file of an even number of words turns
   the sum s into (s ^ v) + w.
   */
  lemma SumOfTwoMoreWords(f: Content, b: Content, v: bv32, c: Content, w: bv32)
    requires |f| % 8 == 0 && |f| + 8 < 0x1_0000_0000 && |b| == |c| == 4
    requires LittleEndian(b, v) && LittleEndian(c, w)
    ensures CheckSum(f + b) == CheckSum(f) ^ v
    ensures CheckSum(f + b + c) == (CheckSum(f) ^ v) + w
  {
    hide CheckSum, LittleEndian;
    SumByPlus(f, b, v, c, w);
  }

  lemma RestByPlus(f: Content, rest: Content, v: bv32)
    requires |f| % 4 == 0 && |f| + 4 < WORD_LIMIT && |rest| <= 3 && LittleEndian(rest, v)
    ensures CheckSum(f + rest) == Plus(CheckSum(f), v)
  {
    hide CheckSum, Plus, LittleEndian, Load;
    LoadNumber(rest, v);
    WordsAndRest(f, |f| / 4, rest);
    WholeWords(f, |f| / 4);
  }

  /** One to three bytes after whole words are added as a little-endian number. */
  lemma SumOfTrailingBytes(f: Content, rest: Content, v: bv32)
    requires |f| % 4 == 0 && |f| + 4 < 0x1_0000_0000 && |rest| <= 3 && LittleEndian(rest, v)
    ensures CheckSum(f + rest) == CheckSum(f) + v
  {
    hide CheckSum, LittleEndian;
    RestByPlus(f, rest, v);
  }

  /** Of a file of 4 GiB or more only the bytes that the 32-bit size counts are summed. */
  lemma SumOfLongFile(f: Content)
    ensures CheckSum(f) == CheckSum(f[..|f| % 0x1_0000_0000])
  {
    var size := |f| % 0x1_0000_0000;
    var g, n := f[..size], size / WORD_SIZE;
    hide Load, AbsorbAll, Words, Finish;
    assert SizeOf(g) == SizeOf(f) == size;
    assert g[WORD_SIZE * n..size] == f[WORD_SIZE * n..size];
    assert g + f[size..] == f;
    WordsFront(g, f[size..], n);
  }
}

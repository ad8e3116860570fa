/**
 Arguments in a message: a count, then for each argument its length and its bytes, padded to a
 multiple of four. Offsets are from the start of the message slot, whose first 20 bytes are the
 CCCI header and the operation id.
 */
module FsPacking {
  import opened Arithmetic
  import opened Bytes
  import opened FsMessage

  const FS_MAX_ARG_NUM: nat := 6
  const FS_API_RESP_ID: int := 0xFFFF_0000
  const FIRST_ARG: nat := 24                   // header, operation id and argument count

  /** Bytes from elsewhere, or `length` bytes at offset `at` of the slot itself. */
  datatype Arg = Copied(bytes: seq<byte>) | InSlot(at: nat, length: nat)

  function Length(a: Arg): nat {
    if a.Copied? then |a.bytes| else a.length
  }

  function Lengths(args: seq<Arg>): (ls: seq<nat>)
    ensures |ls| == |args|
  {
    seq(|args|, i requires 0 <= i < |args| => Length(args[i]))
  }

  function Sizes(vs: seq<seq<byte>>): (ls: seq<nat>)
    ensures |ls| == |vs|
  {
    seq(|vs|, i requires 0 <= i < |vs| => |vs[i]|)
  }

  function Align(n: nat): (m: nat)
    ensures n <= m < n + 4 && m % 4 == 0
  {
    (n + 3) / 4 * 4
  }

  /** Where the packer is after an argument of length `n`. */
  function After(n: nat, dl: nat): nat {
    dl + 4 + Align(n)
  }

  function End(ls: seq<nat>, dl: nat): (e: nat)
    ensures e >= dl
  {
    if ls == [] then dl else End(ls[1..], After(ls[0], dl))
  }

  /** The space check of `FS_WriteToMD` passes for every argument. */
  predicate Fits(ls: seq<nat>, dl: nat) {
    ls == [] || (dl + 8 + ls[0] <= FS_MAX_BUF_SIZE && Fits(ls[1..], After(ls[0], dl)))
  }

  lemma {:induction false} FitsEnd(ls: seq<nat>, dl: nat)
    requires Fits(ls, dl) && dl <= FS_MAX_BUF_SIZE
    ensures End(ls, dl) <= FS_MAX_BUF_SIZE
  {
    if ls != [] {
      FitsEnd(ls[1..], After(ls[0], dl));
    }
  }

  /** Argument `k` would end, with a word to spare, at or before byte 16584 of the message. */
  predicate HasSpace(ls: seq<nat>, dl: nat, k: nat)
    requires k < |ls|
  {
    End(ls[..k], dl) + 8 + ls[k] <= 16584
  }

  /** The space check passes for all arguments if and only if each has space behind those before it. */
  lemma {:induction false} FitsExactly(ls: seq<nat>, dl: nat)
    ensures Fits(ls, dl) <==> forall k :: 0 <= k < |ls| ==> HasSpace(ls, dl, k)
    decreases |ls|
  {
    if ls != [] {
      var rest, e := ls[1..], After(ls[0], dl);
      FitsExactly(rest, e);
      assert ls[..0] == [];
      assert HasSpace(ls, dl, 0) <==> dl + 8 + ls[0] <= FS_MAX_BUF_SIZE;
      hide HasSpace;
      if Fits(ls, dl) {
        forall k | 0 <= k < |ls|
          ensures HasSpace(ls, dl, k)
        {
          if k > 0 {
            SpaceBehindFirst(ls, dl, k - 1);
          }
        }
      } else if dl + 8 + ls[0] <= FS_MAX_BUF_SIZE {
        var k :| 0 <= k < |rest| && !HasSpace(rest, e, k);
        SpaceBehindFirst(ls, dl, k);
      }
    }
  }

  lemma SpaceBehindFirst(ls: seq<nat>, dl: nat, k: nat)
    requires k + 1 < |ls|
    ensures HasSpace(ls, dl, k + 1) <==> HasSpace(ls[1..], After(ls[0], dl), k)
  {
    assert ls[..k + 1][1..] == ls[1..][..k];
  }

  /** A source inside the slot lies where the packer arrives, or does not overlap that place. */
  predicate SourceOk(a: Arg, dl: nat) {
    a.InSlot? ==>
      && OVERHEAD <= a.at && a.at + a.length <= SLOT_SIZE
      && (a.at == dl + 4 || a.at + a.length <= dl + 4 || dl + 4 + a.length <= a.at)
  }

  predicate SourcesOk(args: seq<Arg>, dl: nat) {
    args == [] || (SourceOk(args[0], dl) && SourcesOk(args[1..], After(Length(args[0]), dl)))
  }

  /** Every source inside the slot lies at or after the place where the packer arrives. */
  predicate Ahead(args: seq<Arg>, dl: nat) {
    args == [] || ((args[0].InSlot? ==> dl + 4 <= args[0].at) && Ahead(args[1..], After(Length(args[0]), dl)))
  }

  lemma LengthsTail(args: seq<Arg>)
    requires args != []
    ensures Lengths(args)[1..] == Lengths(args[1..]) && Lengths(args)[0] == Length(args[0])
  {
  }

  lemma SizesTail(vs: seq<seq<byte>>)
    requires vs != []
    ensures Sizes(vs)[1..] == Sizes(vs[1..]) && Sizes(vs)[0] == |vs[0]|
  {
  }

  /** The bytes that go in for an argument, once its length is stored at `dl`. */
  function Value(t: seq<byte>, a: Arg): (v: seq<byte>)
    requires a.InSlot? ==> a.at + a.length <= |t|
    ensures |v| == Length(a)
  {
    if a.Copied? then a.bytes else t[a.at..a.at + a.length]
  }

  /** The slot after one argument is stored at `dl`. */
  function PackOne(s: seq<byte>, a: Arg, dl: nat): (r: seq<byte>)
    requires |s| == SLOT_SIZE && dl + 8 + Length(a) <= FS_MAX_BUF_SIZE && SourceOk(a, dl)
    ensures |r| == |s|
  {
    var t := Splice(s, dl, Word(Length(a)));
    if a.InSlot? && a.at == dl + 4 then t else Splice(t, dl + 4, Value(t, a))
  }

  function Pack(s: seq<byte>, args: seq<Arg>, dl: nat): (r: seq<byte>)
    requires |s| == SLOT_SIZE && Fits(Lengths(args), dl) && SourcesOk(args, dl)
    ensures |r| == |s|
    decreases |args|
  {
    if args == [] then s
    else
      LengthsTail(args);
      Pack(PackOne(s, args[0], dl), args[1..], After(Length(args[0]), dl))
  }

  /** The bytes of every argument at the moment it is packed. */
  function Values(s: seq<byte>, args: seq<Arg>, dl: nat): (vs: seq<seq<byte>>)
    requires |s| == SLOT_SIZE && Fits(Lengths(args), dl) && SourcesOk(args, dl)
    ensures |vs| == |args| && forall i :: 0 <= i < |vs| ==> |vs[i]| == Length(args[i])
    decreases |args|
  {
    if args == [] then []
    else
      LengthsTail(args);
      [Value(Splice(s, dl, Word(Length(args[0]))), args[0])]
      + Values(PackOne(s, args[0], dl), args[1..], After(Length(args[0]), dl))
  }

  lemma ValuesSizes(s: seq<byte>, args: seq<Arg>, dl: nat)
    requires |s| == SLOT_SIZE && Fits(Lengths(args), dl) && SourcesOk(args, dl)
    ensures Sizes(Values(s, args, dl)) == Lengths(args)
  {
  }

  /** `m` holds every length and value at the place computed by the packer. */
  ghost predicate Laid(m: seq<byte>, vs: seq<seq<byte>>, dl: nat)
    decreases |vs|
  {
    vs == [] ||
    var n := |vs[0]|;
    && dl + 4 + n <= |m|
    && WordAt(m, dl) == n
    && m[dl + 4..dl + 4 + n] == vs[0]
    && Laid(m, vs[1..], After(n, dl))
  }

  lemma PackOneLays(s: seq<byte>, a: Arg, dl: nat)
    requires |s| == SLOT_SIZE && dl + 8 + Length(a) <= FS_MAX_BUF_SIZE && SourceOk(a, dl)
    ensures var r := PackOne(s, a, dl);
            && Agree(r, s, 0, dl) && Agree(r, s, After(Length(a), dl), |s|)
            && WordAt(r, dl) == Length(a)
            && r[dl + 4..dl + 4 + Length(a)] == Value(Splice(s, dl, Word(Length(a))), a)
  {
    hide Word, WordOf, Splice;
    var n := Length(a);
    var t := Splice(s, dl, Word(n));
    SpliceWord(s, dl, n);
    var v := Value(t, a);
    if !(a.InSlot? && a.at == dl + 4) {
      SpliceRead(t, dl + 4, v);
      AgreeWord(Splice(t, dl + 4, v), t, dl);
    }
  }

  /** Only the bytes up to the end of the last argument change, and each argument is there. */
  lemma {:induction false} PackLays(s: seq<byte>, args: seq<Arg>, dl: nat)
    requires |s| == SLOT_SIZE && Fits(Lengths(args), dl) && SourcesOk(args, dl) && dl <= FS_MAX_BUF_SIZE
    ensures End(Lengths(args), dl) <= FS_MAX_BUF_SIZE
    ensures var r := Pack(s, args, dl);
            && Agree(r, s, 0, dl) && Agree(r, s, End(Lengths(args), dl), |s|)
            && Laid(r, Values(s, args, dl), dl)
    decreases |args|
  {
    hide PackOne, WordOf, Word, Splice;
    FitsEnd(Lengths(args), dl);
    if args != [] {
      LengthsTail(args);
      var a, n := args[0], Length(args[0]);
      var e := After(n, dl);
      var t, r := PackOne(s, a, dl), Pack(s, args, dl);
      PackOneLays(s, a, dl);
      PackLays(t, args[1..], e);
      AgreeWord(r, t, dl);
      AgreeSlice(r, t, dl + 4, dl + 4 + n);
      var vs := Values(s, args, dl);
      assert vs[1..] == Values(t, args[1..], e);
    }
  }

  /** Sources at or after the packer still hold what the slot held before packing. */
  lemma {:induction false} ValuesAhead(s: seq<byte>, s0: seq<byte>, args: seq<Arg>, dl: nat, i: nat)
    requires |s| == |s0| == SLOT_SIZE && Fits(Lengths(args), dl) && SourcesOk(args, dl) && Ahead(args, dl)
    requires dl <= FS_MAX_BUF_SIZE && Agree(s, s0, dl, SLOT_SIZE) && i < |args|
    ensures args[i].InSlot? ==> args[i].at + args[i].length <= SLOT_SIZE
    ensures Values(s, args, dl)[i] == Value(s0, args[i])
    decreases |args|
  {
    hide PackOne, Word, Splice;
    LengthsTail(args);
    var a, n := args[0], Length(args[0]);
    PackOneLays(s, a, dl);
    FitsEnd(Lengths(args), dl);
    if i == 0 {
      SpliceRead(s, dl, Word(n));
      if a.InSlot? {
        AgreeSlice(Splice(s, dl, Word(n)), s0, a.at, a.at + n);
      }
    } else {
      ValuesAhead(PackOne(s, a, dl), s0, args[1..], After(n, dl), i - 1);
    }
  }

  /** Memory that agrees with laid-out memory up to the end of the arguments is laid out as well. */
  lemma {:induction false} LaidPrefix(m: seq<byte>, m': seq<byte>, vs: seq<seq<byte>>, dl: nat)
    requires Laid(m, vs, dl)
    requires OVERHEAD <= dl && Agree(m', m, OVERHEAD, End(Sizes(vs), dl))
    ensures Laid(m', vs, dl)
    decreases |vs|
  {
    hide WordOf;
    if vs != [] {
      SizesTail(vs);
      var n := |vs[0]|;
      LaidPrefix(m, m', vs[1..], After(n, dl));
      AgreeWord(m', m, dl);
      AgreeSlice(m', m, dl + 4, dl + 4 + n);
    }
  }

  // Parsing

  /** Length of an argument, and the offset of its bytes. */
  datatype Entry = Entry(length: uint32, at: nat)

  /** `Wild`: the parser would read past the memory it was given. */
  datatype Parsed = Accepted(entries: seq<Entry>) | Rejected | Wild

  /** Index after an argument of length `n` whose bytes start at index `at`: 32-bit, as in the source. */
  function NextIndex(at: uint32, n: uint32): uint32 {
    (at + (n + 3) % WORD_LIMIT / 4 * 4) % WORD_LIMIT
  }

  /** `n` arguments from offset OVERHEAD + index on. */
  function ParseFrom(m: seq<byte>, n: nat, index: uint32): Parsed {
    if n == 0 then (if index > FS_MAX_BUF_SIZE then Rejected else Accepted([]))
    else if OVERHEAD + index + 4 > |m| then Wild
    else
      var length := WordAt(m, OVERHEAD + index);
      var at := (index + 4) % WORD_LIMIT;
      if length == 0 then Rejected
      else Prefixed([Entry(length, OVERHEAD + at)], ParseFrom(m, n - 1, NextIndex(at, length)))
  }

  function Prefixed(entries: seq<Entry>, p: Parsed): Parsed {
    if p.Accepted? then Accepted(entries + p.entries) else p
  }

  lemma PrefixedTwice(entries: seq<Entry>, e: Entry, p: Parsed)
    ensures Prefixed(entries, Prefixed([e], p)) == Prefixed(entries + [e], p)
  {
    if p.Accepted? {
      assert entries + ([e] + p.entries) == entries + [e] + p.entries;
    }
  }

  /** What `FS_GetPackInfo` makes of the memory that starts with a message slot. */
  function Parse(m: seq<byte>): Parsed {
    if OVERHEAD + 4 > |m| then Wild
    else if WordAt(m, OVERHEAD) > FS_MAX_ARG_NUM then Rejected
    else ParseFrom(m, WordAt(m, OVERHEAD), 4)
  }

  /** `FS_GetPackInfo`: reads the arguments one after the other. */
  method GetPackInfo(m: seq<byte>) returns (r: Parsed)
    ensures r == Parse(m)
  {
    hide WordOf, WordAt, NextIndex;
    if OVERHEAD + 4 > |m| {
      return Wild;
    }
    var packNum := WordAt(m, OVERHEAD);
    if packNum > FS_MAX_ARG_NUM {
      return Rejected;
    }
    var index: uint32 := 4;
    var i := 0;
    var entries: seq<Entry> := [];
    while i < packNum
      invariant 0 <= i <= packNum
      invariant Parse(m) == Prefixed(entries, ParseFrom(m, packNum - i, index))
    {
      if OVERHEAD + index + 4 > |m| {
        return Wild;
      }
      var length := WordAt(m, OVERHEAD + index);
      index := (index + 4) % WORD_LIMIT;
      if length == 0 {
        return Rejected;
      }
      PrefixedTwice(entries, Entry(length, OVERHEAD + index), ParseFrom(m, packNum - i - 1, NextIndex(index, length)));
      entries := entries + [Entry(length, OVERHEAD + index)];
      index := NextIndex(index, length);
      i := i + 1;
    }
    if index > FS_MAX_BUF_SIZE {
      return Rejected;
    }
    assert entries + [] == entries;
    return Accepted(entries);
  }

  /** The entries that describe arguments of the given lengths, laid out from `dl` on. */
  function Entries(ls: seq<nat>, dl: nat): (es: seq<Entry>)
    requires Fits(ls, dl)
    ensures |es| == |ls|
  {
    if ls == [] then [] else [Entry(ls[0], dl + 4)] + Entries(ls[1..], After(ls[0], dl))
  }

  predicate AllPositive(ls: seq<nat>) {
    forall i :: 0 <= i < |ls| ==> ls[i] > 0
  }

  lemma AllPositiveCons(ls: seq<nat>)
    requires ls != []
    ensures AllPositive(ls) <==> ls[0] > 0 && AllPositive(ls[1..])
  {
    if AllPositive(ls[1..]) {
      assert forall i :: 1 <= i < |ls| ==> ls[i] == ls[1..][i - 1];
    }
    if AllPositive(ls) {
      assert forall i :: 0 <= i < |ls[1..]| ==> ls[1..][i] == ls[i + 1];
    }
  }

  lemma BelowLimit(n: nat)
    requires n < WORD_LIMIT
    ensures n % WORD_LIMIT == n
  {
  }

  /** Without wrap the next index is at the next multiple of four. */
  lemma NextIndexBelow(at: nat, n: uint32)
    requires at + n + 4 < WORD_LIMIT
    ensures NextIndex(at, n) == at + Align(n)
  {
    BelowLimit(n + 3);
    BelowLimit(at + Align(n));
  }

  /** Without wrap, for lengths that fit. */
  lemma NextIndexExact(n: nat, dl: nat)
    requires OVERHEAD <= dl && dl + 8 + n <= FS_MAX_BUF_SIZE
    ensures var at := (dl - OVERHEAD + 4) % WORD_LIMIT;
            at == dl - OVERHEAD + 4 && NextIndex(at, n) == After(n, dl) - OVERHEAD
  {
    BelowLimit(dl - OVERHEAD + 4);
    NextIndexBelow(dl - OVERHEAD + 4, n);
    hide Align, NextIndex;
  }

  lemma {:induction false} ParseOfLaid(m: seq<byte>, vs: seq<seq<byte>>, dl: nat)
    requires Fits(Sizes(vs), dl) && OVERHEAD <= dl <= FS_MAX_BUF_SIZE && Laid(m, vs, dl)
    ensures ParseFrom(m, |vs|, dl - OVERHEAD)
         == if AllPositive(Sizes(vs)) then Accepted(Entries(Sizes(vs), dl)) else Rejected
    decreases |vs|
  {
    hide WordOf, WordAt, Align, NextIndex;
    if vs != [] {
      SizesTail(vs);
      var n := |vs[0]|;
      FitsEnd(Sizes(vs), dl);
      ParseOfLaid(m, vs[1..], After(n, dl));
      NextIndexExact(n, dl);
      AllPositiveCons(Sizes(vs));
    }
  }

  /** The entry gives a value's length and bytes. */
  ghost predicate Describes(m: seq<byte>, e: Entry, v: seq<byte>) {
    e.length == |v| && e.at + e.length <= |m| && m[e.at..e.at + e.length] == v
  }

  lemma {:induction false} EntriesDescribe(m: seq<byte>, vs: seq<seq<byte>>, dl: nat, i: nat)
    requires Fits(Sizes(vs), dl) && Laid(m, vs, dl) && i < |vs|
    ensures Describes(m, Entries(Sizes(vs), dl)[i], vs[i])
    decreases |vs|
  {
    hide WordOf, WordAt, Align;
    SizesTail(vs);
    if i > 0 {
      hide Describes;
      EntriesDescribe(m, vs[1..], After(|vs[0]|, dl), i - 1);
    }
  }

  /** A packed message: the argument count, then the arguments. */
  function Message(s: seq<byte>, args: seq<Arg>): (r: seq<byte>)
    requires |s| == SLOT_SIZE && |args| < WORD_LIMIT && Fits(Lengths(args), FIRST_ARG) && SourcesOk(args, FIRST_ARG)
    ensures |r| == |s|
  {
    Pack(Splice(s, OVERHEAD, Word(|args|)), args, FIRST_ARG)
  }

  /** What the arguments of a message stand for. */
  function MessageValues(s: seq<byte>, args: seq<Arg>): (vs: seq<seq<byte>>)
    requires |s| == SLOT_SIZE && |args| < WORD_LIMIT && Fits(Lengths(args), FIRST_ARG) && SourcesOk(args, FIRST_ARG)
    ensures |vs| == |args|
  {
    Values(Splice(s, OVERHEAD, Word(|args|)), args, FIRST_ARG)
  }

  /** With all sources ahead of the packer these are the bytes before packing. */
  lemma MessageValuesAhead(s: seq<byte>, args: seq<Arg>, i: nat)
    requires |s| == SLOT_SIZE && |args| < WORD_LIMIT && Fits(Lengths(args), FIRST_ARG) && SourcesOk(args, FIRST_ARG)
    requires Ahead(args, FIRST_ARG) && i < |args|
    ensures args[i].InSlot? ==> args[i].at + args[i].length <= SLOT_SIZE
    ensures MessageValues(s, args)[i] == Value(s, args[i])
  {
    hide Word, Splice, Values, Lengths, SourcesOk, Ahead, Fits;
    SpliceRead(s, OVERHEAD, Word(|args|));
    ValuesAhead(Splice(s, OVERHEAD, Word(|args|)), s, args, FIRST_ARG, i);
  }

  lemma MessageLaid(s: seq<byte>, args: seq<Arg>, m: seq<byte>)
    requires |s| == SLOT_SIZE && |args| < WORD_LIMIT && Fits(Lengths(args), FIRST_ARG) && SourcesOk(args, FIRST_ARG)
    requires Agree(m, Message(s, args), OVERHEAD, End(Lengths(args), FIRST_ARG))
    ensures |m| >= FIRST_ARG && Sizes(MessageValues(s, args)) == Lengths(args)
    ensures WordAt(m, OVERHEAD) == |args| && Laid(m, MessageValues(s, args), FIRST_ARG)
  {
    hide Word, WordOf, Splice;
    var t, r := Splice(s, OVERHEAD, Word(|args|)), Message(s, args);
    SpliceWord(s, OVERHEAD, |args|);
    PackLays(t, args, FIRST_ARG);
    ValuesSizes(t, args, FIRST_ARG);
    AgreeWord(r, t, OVERHEAD);
    AgreeWord(m, r, OVERHEAD);
    LaidPrefix(r, m, MessageValues(s, args), FIRST_ARG);
  }

  lemma ParseLaidMessage(m: seq<byte>, vs: seq<seq<byte>>)
    requires |m| >= FIRST_ARG && WordAt(m, OVERHEAD) == |vs|
    requires Fits(Sizes(vs), FIRST_ARG) && Laid(m, vs, FIRST_ARG)
    ensures Parse(m) == if |vs| <= FS_MAX_ARG_NUM && AllPositive(Sizes(vs))
                        then Accepted(Entries(Sizes(vs), FIRST_ARG)) else Rejected
  {
    ParseOfLaid(m, vs, FIRST_ARG);
    hide WordAt, ParseFrom, Laid, Fits, Sizes, AllPositive, Entries;
  }

  /**
   Packing then parsing. For any arguments that pass the space check, and any memory `m` that
   carries the packed payload, the parser recovers every argument's length and bytes exactly when
   there are at most FS_MAX_ARG_NUM of them and none is empty; otherwise it refuses the message.
   */
  lemma ParseOfMessage(s: seq<byte>, args: seq<Arg>, m: seq<byte>)
    requires |s| == SLOT_SIZE && |args| < WORD_LIMIT && Fits(Lengths(args), FIRST_ARG) && SourcesOk(args, FIRST_ARG)
    requires Agree(m, Message(s, args), OVERHEAD, End(Lengths(args), FIRST_ARG))
    ensures Parse(m) == if |args| <= FS_MAX_ARG_NUM && AllPositive(Lengths(args))
                        then Accepted(Entries(Lengths(args), FIRST_ARG)) else Rejected
    ensures forall i :: 0 <= i < |args| ==>
              Describes(m, Entries(Lengths(args), FIRST_ARG)[i], MessageValues(s, args)[i])
  {
    hide *;
    var vs, ls := MessageValues(s, args), Lengths(args);
    MessageLaid(s, args, m);
    ParseLaidMessage(m, vs);
    forall i | 0 <= i < |args|
      ensures Describes(m, Entries(ls, FIRST_ARG)[i], vs[i])
    {
      EntriesDescribe(m, vs, FIRST_ARG, i);
    }
  }

  // What the parser accepts in general

  predicate AllShort(es: seq<Entry>) {
    forall i :: 0 <= i < |es| ==> es[i].length <= FS_MAX_BUF_SIZE
  }

  predicate WithinSlot(es: seq<Entry>) {
    forall i :: 0 <= i < |es| ==> es[i].at + es[i].length <= SLOT_SIZE
  }

  lemma AllShortCons(e: Entry, es: seq<Entry>)
    ensures AllShort([e] + es) <==> e.length <= FS_MAX_BUF_SIZE && AllShort(es)
  {
    if AllShort([e] + es) {
      assert ([e] + es)[0] == e && forall i :: 0 <= i < |es| ==> es[i] == ([e] + es)[i + 1];
    }
  }

  lemma WithinSlotCons(e: Entry, es: seq<Entry>)
    ensures WithinSlot([e] + es) <==> e.at + e.length <= SLOT_SIZE && WithinSlot(es)
  {
    if WithinSlot([e] + es) {
      assert ([e] + es)[0] == e && forall i :: 0 <= i < |es| ==> es[i] == ([e] + es)[i + 1];
    }
  }

  /** One accepted argument, and the rest. */
  lemma ParseStep(m: seq<byte>, n: nat, index: uint32)
    requires n > 0 && ParseFrom(m, n, index).Accepted?
    ensures OVERHEAD + index + 4 <= |m|
    ensures var length, at := WordAt(m, OVERHEAD + index), (index + 4) % WORD_LIMIT;
            var rest := ParseFrom(m, n - 1, NextIndex(at, length));
            rest.Accepted? && ParseFrom(m, n, index).entries == [Entry(length, OVERHEAD + at)] + rest.entries
  {
    hide WordAt, NextIndex;
  }

  lemma ParseOfNone(m: seq<byte>, index: uint32)
    ensures ParseFrom(m, 0, index) == if index > FS_MAX_BUF_SIZE then Rejected else Accepted([])
    ensures WithinSlot([])
  {
  }

  /**
   There is room for `n` more arguments without a wrap, when none has more than FS_MAX_BUF_SIZE bytes:
   16592 with its own length and padding.
   */
  lemma {:induction false} ShortEntries(m: seq<byte>, n: nat, index: uint32)
    requires n <= 6 && index + n * 16592 <= 4 + 6 * 16592
    requires ParseFrom(m, n, index).Accepted? && AllShort(ParseFrom(m, n, index).entries)
    ensures index <= FS_MAX_BUF_SIZE && WithinSlot(ParseFrom(m, n, index).entries)
  {
    hide WordAt, ParseFrom, NextIndex, AllShort, WithinSlot, Align;
    if n == 0 {
      ParseOfNone(m, index);
    } else {
      ParseStep(m, n, index);
      var length, at := WordAt(m, OVERHEAD + index), index + 4;
      BelowLimit(at);
      var e, rest := Entry(length, OVERHEAD + at), ParseFrom(m, n - 1, NextIndex(at, length));
      AllShortCons(e, rest.entries);
      WithinSlotCons(e, rest.entries);
      NextIndexBelow(at, length);
      ShortEntries(m, n - 1, NextIndex(at, length));
    }
  }

  /**
   Every entry that the parser accepts lies within the slot if and only if every accepted length is
   at most FS_MAX_BUF_SIZE; the final test on the index does not ensure this, since it may wrap.
   */
  lemma AcceptedWithinSlot(m: seq<byte>)
    requires Parse(m).Accepted?
    ensures WithinSlot(Parse(m).entries) <==> AllShort(Parse(m).entries)
  {
    hide WordAt;
    if AllShort(Parse(m).entries) {
      ShortEntries(m, WordAt(m, OVERHEAD), 4);
    }
    EntriesAfterHeader(m, WordAt(m, OVERHEAD), 4);
  }

  lemma {:induction false} EntriesAfterHeader(m: seq<byte>, n: nat, index: uint32)
    requires ParseFrom(m, n, index).Accepted?
    ensures forall i :: 0 <= i < |ParseFrom(m, n, index).entries| ==> ParseFrom(m, n, index).entries[i].at >= OVERHEAD
  {
    if n > 0 {
      ParseStep(m, n, index);
      hide WordAt, ParseFrom, NextIndex;
      EntriesAfterHeader(m, n - 1, NextIndex((index + 4) % WORD_LIMIT, WordAt(m, OVERHEAD + index)));
    }
  }

  /**
   `at` are the indices, counted in 32 bits from behind the operation id, of the lengths and of the end
   of the arguments `es`; each length is positive and the end is at most 16584.
   */
  ghost predicate Chain(m: seq<byte>, es: seq<Entry>, first: nat, at: seq<nat>) {
    && |at| == |es| + 1 && at[0] == first
    && at[|es|] <= 16584
    && forall i :: 0 <= i < |es| ==> Link(m, es[i], at[i], at[i + 1])
  }

  /** One argument: its length at index `at`, its bytes behind, rounded up to a multiple of four. */
  predicate Link(m: seq<byte>, e: Entry, at: nat, next: nat) {
    && at < 0x1_0000_0000 && 20 + at + 4 <= |m|
    && e.length == WordAt(m, 20 + at) > 0
    && e.at == 20 + (at + 4) % 0x1_0000_0000
    && next == ((at + 4) % 0x1_0000_0000 + (e.length + 3) % 0x1_0000_0000 / 4 * 4) % 0x1_0000_0000
  }

  lemma ChainTail(m: seq<byte>, es: seq<Entry>, at: seq<nat>)
    requires |at| > 1 && Chain(m, es, at[0], at) && es != []
    ensures Chain(m, es[1..], at[1], at[1..]) && Link(m, es[0], at[0], at[1])
  {
    hide Link;
  }

  lemma ChainStart(m: seq<byte>, es: seq<Entry>, first: nat, at: seq<nat>)
    requires Chain(m, es, first, at)
    ensures at != [] && at[0] == first
  {
  }

  lemma ChainCons(m: seq<byte>, e: Entry, es: seq<Entry>, first: nat, at: seq<nat>)
    requires at != [] && Chain(m, es, at[0], at) && Link(m, e, first, at[0])
    ensures Chain(m, [e] + es, first, [first] + at)
  {
    hide Link;
  }

  lemma StepLink(m: seq<byte>, n: nat, index: uint32)
    requires n > 0 && ParseFrom(m, n, index).Accepted?
    ensures ParseFrom(m, n, index).entries != []
    ensures var e := ParseFrom(m, n, index).entries[0];
            Link(m, e, index, NextIndex((index + 4) % WORD_LIMIT, WordAt(m, OVERHEAD + index)))
  {
    ParseStep(m, n, index);
    hide ParseFrom, WordAt;
  }

  /** What is accepted is a chain. */
  lemma {:induction false} AcceptedIsChain(m: seq<byte>, n: nat, index: uint32) returns (at: seq<nat>)
    requires ParseFrom(m, n, index).Accepted?
    ensures at != [] && at[0] == index && |ParseFrom(m, n, index).entries| == n
    ensures Chain(m, ParseFrom(m, n, index).entries, index, at)
  {
    hide WordAt, NextIndex, Link, Chain, ParseFrom;
    if n == 0 {
      ParseOfNone(m, index);
      at := [index];
      NoLinks(m, index);
    } else {
      ParseStep(m, n, index);
      StepLink(m, n, index);
      var es := ParseFrom(m, n, index).entries;
      var next := NextIndex((index + 4) % WORD_LIMIT, WordAt(m, OVERHEAD + index));
      var rest := AcceptedIsChain(m, n - 1, next);
      ChainCons(m, es[0], ParseFrom(m, n - 1, next).entries, index, rest);
      assert es == [es[0]] + ParseFrom(m, n - 1, next).entries;
      at := [index] + rest;
    }
  }

  lemma NoLinks(m: seq<byte>, index: uint32)
    requires index <= FS_MAX_BUF_SIZE
    ensures Chain(m, [], index, [index])
  {
  }

  /** A chain is accepted. */
  lemma {:induction false} ChainIsAccepted(m: seq<byte>, es: seq<Entry>, at: seq<nat>)
    requires at != [] && Chain(m, es, at[0], at)
    ensures at[0] < WORD_LIMIT && ParseFrom(m, |es|, at[0]) == Accepted(es)
    decreases |es|
  {
    hide WordAt;
    if es != [] {
      ChainTail(m, es, at);
      ChainIsAccepted(m, es[1..], at[1..]);
      assert [es[0]] + es[1..] == es;
    }
  }

  /**
   The parser accepts exactly the chains of at most six arguments, as many as the count says, that
   start behind the count.
   */
  lemma ParseExactly(m: seq<byte>, es: seq<Entry>)
    requires |m| >= 24
    ensures Parse(m) == Accepted(es)
       <==> |es| == WordAt(m, 20) <= 6 && exists at :: Chain(m, es, 4, at)
  {
    hide WordAt, Chain, ParseFrom;
    if Parse(m) == Accepted(es) {
      var at := AcceptedIsChain(m, WordAt(m, 20), 4);
    }
    if |es| == WordAt(m, 20) <= 6 && exists at :: Chain(m, es, 4, at) {
      var at :| Chain(m, es, 4, at);
      ChainStart(m, es, 4, at);
      ChainIsAccepted(m, es, at);
    }
  }

  /** One argument of stated length 2^32 - 3: accepted, although it ends far outside the slot. */
  lemma WrappedLengthAccepted(m: seq<byte>)
    requires |m| >= 28 && WordAt(m, OVERHEAD) == 1 && WordAt(m, FIRST_ARG) == 0xFFFF_FFFD
    ensures Parse(m) == Accepted([Entry(0xFFFF_FFFD, 28)])
  {
    hide WordOf, WordAt;
    assert ParseFrom(m, 0, 8) == Accepted([]);
  }

  // Replies

  /** FS_API_RESP_ID | op. */
  function ResponseId(op: uint32): uint32 {
    FS_API_RESP_ID + op % 0x1_0000
  }

  /** The id keeps the low half of the request's and has all ones in the high half. */
  lemma ResponseIdHalves(op: uint32)
    ensures ResponseId(op) % 0x1_0000 == op % 0x1_0000 && ResponseId(op) / 0x1_0000 == 0xFFFF
  {
    Division(ResponseId(op), 0x1_0000, 0xFFFF, op % 0x1_0000);
  }

  /** The slot with its operation id marked as a response. */
  function Marked(s: seq<byte>): (r: seq<byte>)
    requires |s| == SLOT_SIZE
    ensures |r| == |s|
  {
    Splice(s, HEADER_SIZE, Word(ResponseId(WordAt(s, HEADER_SIZE))))
  }

  predicate Sendable(args: seq<Arg>) {
    |args| < WORD_LIMIT && Fits(Lengths(args), FIRST_ARG) && SourcesOk(args, FIRST_ARG)
  }

  /** What is sent after header and operation id. */
  function Payload(s: seq<byte>, args: seq<Arg>): (p: seq<byte>)
    requires |s| == SLOT_SIZE && Sendable(args)
    ensures |p| == End(Lengths(args), FIRST_ARG) - OVERHEAD <= FS_MAX_BUF_SIZE - OVERHEAD
  {
    FitsEnd(Lengths(args), FIRST_ARG);
    Message(s, args)[OVERHEAD..End(Lengths(args), FIRST_ARG)]
  }

  /** The slot after `FS_WriteToMD` has sent the arguments. */
  function Replied(s: seq<byte>, args: seq<Arg>): (r: seq<byte>)
    requires |s| == SLOT_SIZE && Sendable(args)
    ensures |r| == |s|
  {
    var m := Message(Marked(s), args);
    var bumped := Splice(m, 8, Word((WordAt(m, 8) + 1) % WORD_LIMIT));
    var e := End(Lengths(args), FIRST_ARG);
    if e <= OVERHEAD + MAX_FS_PKT_BYTE
    then Splice(Splice(bumped, 0, Word(ClearAgain(WordAt(bumped, 0)))), 4, Word(e))
    else bumped
  }

  /** After the reply the slot has the request's operation id, marked as a response. */
  lemma RepliedId(s: seq<byte>, args: seq<Arg>)
    requires |s| == SLOT_SIZE && Sendable(args)
    ensures var id := WordAt(Replied(s, args), HEADER_SIZE);
            id % 0x1_0000 == WordAt(s, 16) % 0x1_0000 && id / 0x1_0000 == 0xFFFF
  {
    hide Word, WordOf, WordAt, Splice, ResponseId, SourcesOk, Fits, Lengths, End, Pack, Values, Laid;
    var op := ResponseId(WordAt(s, HEADER_SIZE));
    var s1 := Marked(s);
    SpliceWord(s, HEADER_SIZE, op);
    ResponseIdHalves(WordAt(s, HEADER_SIZE));
    var t := Splice(s1, OVERHEAD, Word(|args|));
    SpliceRead(s1, OVERHEAD, Word(|args|));
    PackLays(t, args, FIRST_ARG);
    var m := Message(s1, args);
    AgreeWord(t, s1, HEADER_SIZE);
    AgreeWord(m, t, HEADER_SIZE);
    SentHeader(m, End(Lengths(args), FIRST_ARG));
  }

  /** Bumping the channel and storing the size leave the operation id alone. */
  lemma SentHeader(m: seq<byte>, e: nat)
    requires |m| == SLOT_SIZE && e < WORD_LIMIT
    ensures var bumped := Splice(m, 8, Word((WordAt(m, 8) + 1) % WORD_LIMIT));
            var sent := Splice(Splice(bumped, 0, Word(ClearAgain(WordAt(bumped, 0)))), 4, Word(e));
            WordAt(bumped, HEADER_SIZE) == WordAt(sent, HEADER_SIZE) == WordAt(m, HEADER_SIZE)
  {
    hide Word, WordOf, Splice;
    var c := Word((WordAt(m, 8) + 1) % WORD_LIMIT);
    var bumped := Splice(m, 8, c);
    SpliceRead(m, 8, c);
    var d := Word(ClearAgain(WordAt(bumped, 0)));
    var flagged := Splice(bumped, 0, d);
    SpliceRead(bumped, 0, d);
    SpliceRead(flagged, 4, Word(e));
    var sent := Splice(flagged, 4, Word(e));
    AgreeWord(bumped, m, HEADER_SIZE);
    AgreeWord(sent, m, HEADER_SIZE);
  }

  /** The reply to a packet that fails the header check: the single argument FS_PARAM_ERROR. */
  const REFUSAL: seq<Arg> := [Copied(Word(0xFFFF_FFFE))]

  /** What that reply leaves where a request's payload begins. */
  const REFUSAL_BYTES: seq<byte> := Word(1) + Word(4) + Word(0xFFFF_FFFE)

  lemma RefusalSendable()
    ensures Sendable(REFUSAL) && Lengths(REFUSAL) == [4] && End(Lengths(REFUSAL), FIRST_ARG) == 32
  {
    assert Lengths(REFUSAL) == [4] && [4][1..] == [];
    assert REFUSAL[1..] == [];
  }

  lemma RefusalBytes()
    ensures REFUSAL_BYTES == [1, 0, 0, 0, 4, 0, 0, 0, 0xFE, 0xFF, 0xFF, 0xFF]
  {
    assert Word(1) == [1, 0, 0, 0] && Word(4) == [4, 0, 0, 0] && Word(0xFFFF_FFFE) == [0xFE, 0xFF, 0xFF, 0xFF];
  }

  /** The refusal overwrites header, operation id and the first twelve bytes of the payload, nothing else. */
  lemma RefusalOverwrites(s: seq<byte>)
    requires |s| == SLOT_SIZE
    ensures Sendable(REFUSAL)
    ensures var r := Replied(s, REFUSAL);
            && WordAt(r, HEADER_SIZE) == ResponseId(WordAt(s, HEADER_SIZE))
            && r[OVERHEAD..32] == REFUSAL_BYTES == [1, 0, 0, 0, 4, 0, 0, 0, 0xFE, 0xFF, 0xFF, 0xFF]
            && Agree(r, s, 32, SLOT_SIZE)
  {
    RefusalSendable();
    RefusalBytes();
    hide Word, WordOf, Splice, ResponseId;
    var op, w := ResponseId(WordAt(s, HEADER_SIZE)), Word(0xFFFF_FFFE);
    var s1 := Marked(s);
    SpliceWord(s, HEADER_SIZE, op);
    var s2 := Splice(s1, OVERHEAD, Word(1));
    SpliceRead(s1, OVERHEAD, Word(1));
    var s3 := Splice(s2, FIRST_ARG, Word(4));
    SpliceRead(s2, FIRST_ARG, Word(4));
    var m := Splice(s3, 28, w);
    SpliceRead(s3, 28, w);
    assert REFUSAL[1..] == [];
    assert Message(s1, REFUSAL) == Pack(m, [], After(4, FIRST_ARG)) == m;
    var c := Word((WordAt(m, 8) + 1) % WORD_LIMIT);
    var b1 := Splice(m, 8, c);
    SpliceRead(m, 8, c);
    var d := Word(ClearAgain(WordAt(b1, 0)));
    var b2 := Splice(b1, 0, d);
    SpliceRead(b1, 0, d);
    var r := Splice(b2, 4, Word(32));
    SpliceRead(b2, 4, Word(32));
    AgreeWord(r, s1, HEADER_SIZE);
    AgreeSlice(r, s2, OVERHEAD, FIRST_ARG);
    AgreeSlice(r, s3, FIRST_ARG, 28);
    AgreeSlice(r, m, 28, 32);
    assert r[OVERHEAD..32] == r[OVERHEAD..FIRST_ARG] + r[FIRST_ARG..28] + r[28..32];
  }

  // Where the callers find their data

  /**
   The data offsets that READ, OTP_READ and CMPT_READ compute before packing, so that file data
   can be read straight into the slot, are where the packer arrives, for every data length.
   */
  lemma InPlaceOffsets(ret: seq<byte>, count: seq<byte>, status: seq<byte>, n: nat)
    requires |ret| == 4 && |count| == 4 && |status| == 8
    ensures Arrives([Copied(ret), Copied(count), InSlot(OVERHEAD + 6 * 4, n)], FIRST_ARG)
    ensures Arrives([Copied(ret), InSlot(OVERHEAD + 4 * 4, n)], FIRST_ARG)
    ensures Arrives([Copied(status), Copied(ret), Copied(count), InSlot(OVERHEAD + (1 + 1 + 2 + 1 + 1 + 1 + 1 + 1) * 4, n)], FIRST_ARG)
  {
    ArrivesAfter([ret, count], n, FIRST_ARG);
    ArrivesAfter([ret], n, FIRST_ARG);
    ArrivesAfter([status, ret, count], n, FIRST_ARG);
    assert CopiedAll([ret, count]) + [InSlot(44, n)] == [Copied(ret), Copied(count), InSlot(44, n)];
    assert CopiedAll([ret]) + [InSlot(36, n)] == [Copied(ret), InSlot(36, n)];
    assert CopiedAll([status, ret, count]) + [InSlot(56, n)] == [Copied(status), Copied(ret), Copied(count), InSlot(56, n)];
    assert WordsSize([ret]) == 8;
    assert [ret, count][1..] == [count] && WordsSize([count]) == 8;
    assert [status, ret, count][1..] == [ret, count] && WordsSize([ret, count]) == 16;
  }

  /** Sources inside the slot lie exactly where the packer arrives, so that nothing is copied. */
  predicate Arrives(args: seq<Arg>, dl: nat) {
    args == [] || ((args[0].InSlot? ==> args[0].at == dl + 4) && Arrives(args[1..], After(Length(args[0]), dl)))
  }

  /** Such arguments are fit for packing, and are ahead of the packer. */
  lemma {:induction false} ArrivesSources(args: seq<Arg>, dl: nat)
    requires Arrives(args, dl) && Fits(Lengths(args), dl) && OVERHEAD <= dl
    ensures SourcesOk(args, dl) && Ahead(args, dl)
    decreases |args|
  {
    if args != [] {
      LengthsTail(args);
      ArrivesSources(args[1..], After(Length(args[0]), dl));
    }
  }

  /**
   OPENHINT replies with eight bytes of its own request's third argument: whatever the length of
   the file name, they lie ahead of the packer and clear of the place they are copied to.
   */
  lemma OpenHintSource(ret: seq<byte>, name: nat)
    requires |ret| == 4 && name > 0 && 40 + Align(name) + 8 <= SLOT_SIZE
    ensures var args := [Copied(ret), InSlot(40 + Align(name), 8)];
            SourcesOk(args, FIRST_ARG) && Ahead(args, FIRST_ARG) && Fits(Lengths(args), FIRST_ARG)
  {
    var args := [Copied(ret), InSlot(40 + Align(name), 8)];
    assert args[1..] == [InSlot(40 + Align(name), 8)] && args[1..][1..] == [];
    assert Lengths(args) == [4, 8] && [4, 8][1..] == [8] && [8][1..] == [];
  }

  function CopiedAll(bs: seq<seq<byte>>): (args: seq<Arg>)
    ensures |args| == |bs|
  {
    seq(|bs|, i requires 0 <= i < |bs| => Copied(bs[i]))
  }

  function WordsSize(bs: seq<seq<byte>>): nat {
    if bs == [] then 0 else 4 + |bs[0]| + WordsSize(bs[1..])
  }

  lemma {:induction false} ArrivesAfter(bs: seq<seq<byte>>, n: nat, dl: nat)
    requires forall i :: 0 <= i < |bs| ==> |bs[i]| % 4 == 0
    ensures Arrives(CopiedAll(bs) + [InSlot(dl + WordsSize(bs) + 4, n)], dl)
    decreases |bs|
  {
    if bs != [] {
      ArrivesAfter(bs[1..], n, dl + 4 + |bs[0]|);
      assert (CopiedAll(bs) + [InSlot(dl + WordsSize(bs) + 4, n)])[1..]
          == CopiedAll(bs[1..]) + [InSlot(dl + WordsSize(bs) + 4, n)];
    }
  }
}

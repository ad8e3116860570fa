/** Whole messages: what a slot holds when the last packet of a message has arrived. */
module FsDelivery {
  import opened Arithmetic
  import opened Bytes
  import opened FsMessage
  import opened FsSlots
  import opened FsPacking
  import opened FsReassembly

  /** The header left in the slot: that of the last packet. */
  function LastHeader(h: Header, n: nat): Header
    requires n <= SLOT_SIZE
  {
    PacketHeader(h, if n <= MAX_FS_PKT_BYTE then n else (n - 1) % MAX_FS_PKT_BYTE + 1, false)
  }

  lemma LastHeaderOfRest(h: Header, n: nat)
    requires MAX_FS_PKT_BYTE < n <= SLOT_SIZE
    ensures LastHeader(h, n) == LastHeader(h, n - MAX_FS_PKT_BYTE)
  {
    ModShift(n - 1, MAX_FS_PKT_BYTE);
  }

  /** Operation id and payload, or what is left of them when a refusal was composed on top. */
  function Body(disturbed: bool, op: uint32, p: seq<byte>): (b: seq<byte>)
    requires disturbed ==> 12 <= |p|
    ensures |b| == 4 + |p|
  {
    if disturbed then Word(ResponseId(op)) + REFUSAL_BYTES + p[12..] else Word(op) + p
  }

  ghost predicate Holds(mem: seq<byte>, disturbed: bool, op: uint32, p: seq<byte>)
    requires disturbed ==> 12 <= |p|
  {
    && |mem| == SLOT_SIZE && OVERHEAD + |p| <= SLOT_SIZE
    && mem[HEADER_SIZE..OVERHEAD + |p|] == Body(disturbed, op, p)
  }

  /** The slot is IDLE again and holds the whole message, with or without a refusal on top. */
  ghost predicate Carries(r: Slot, disturbed: bool, last: Header, op: uint32, payload: seq<byte>)
    requires disturbed ==> 12 <= |payload|
  {
    && !r.waiting && r.offset == 0
    && Holds(r.mem, disturbed, op, payload)
    && r.mem[..HEADER_SIZE] == HeaderBytes(last)
  }

  function Packets(es: seq<Event>): (ps: seq<seq<byte>>) {
    if es == [] then [] else (if es[0].Part? then [es[0].pkt] else []) + Packets(es[1..])
  }

  /** A refusal after the first packet. */
  predicate Disturbed(es: seq<Event>) {
    es != [] && if es[0].Refused? then Disturbed(es[1..]) else Refused in es[1..]
  }

  /** The last event is a packet. */
  predicate EndsWithPart(es: seq<Event>) {
    es != [] && es[|es| - 1].Part?
  }

  // Single steps

  lemma PacketRead(h: Header, op: uint32, part: seq<byte>, again: bool)
    requires |part| <= MAX_FS_PKT_BYTE
    ensures var p := Packet(h, op, part, again);
            && |p| == OVERHEAD + |part| <= MAX_FS_BUF_BYTE
            && Head(p) == PacketHeader(h, |part|, again)
            && PacketBuffer(p)[..|p|] == p && PacketBuffer(p)[..HEADER_SIZE] == HeaderBytes(PacketHeader(h, |part|, again))
            && PartOf(Head(p), PacketBuffer(p)) == part
  {
    PartHeader(h, op, part, again);
    var p := Packet(h, op, part, again);
    var b := PacketBuffer(p);
    assert b[..|p|] == p && p[..HEADER_SIZE] == HeaderBytes(PacketHeader(h, |part|, again));
    hide Packet, PacketBuffer, WordOf, HeaderBytes;
    SliceAgrees(b, p, 0, |p|);
    AgreeWord(b, p, 0);
    AgreeWord(b, p, 4);
    AgreeWord(b, p, 8);
    AgreeWord(b, p, 12);
    AgreeSlice(b, p, 0, HEADER_SIZE);
    AgreeSlice(b, p, OVERHEAD, |p|);
  }

  /** An IDLE slot takes the packet as it is. */
  lemma FirstPart(s: Slot, h: Header, op: uint32, part: seq<byte>, again: bool)
    requires !s.waiting && s.offset == 0 && |s.mem| == SLOT_SIZE && |part| <= MAX_FS_PKT_BYTE
    ensures var p := Packet(h, op, part, again);
            && |p| == OVERHEAD + |part| <= MAX_FS_BUF_BYTE && Room(s, Head(p)) && HasAgain(Head(p).data0) == again
            && Step(s, p) == Slot(again, if again then OVERHEAD + |part| else 0, Splice(s.mem, 0, p))
  {
    PacketRead(h, op, part, again);
    hide Packet, PacketBuffer, Head;
  }

  /** A WAITing slot takes the data, and with the last packet the header too. */
  lemma LaterPart(s: Slot, h: Header, op: uint32, part: seq<byte>, again: bool)
    requires s.waiting && s.offset + |part| <= |s.mem| == SLOT_SIZE && 0 < |part| <= MAX_FS_PKT_BYTE
    ensures var p := Packet(h, op, part, again);
            && |p| == OVERHEAD + |part| <= MAX_FS_BUF_BYTE && Room(s, Head(p)) && HasAgain(Head(p).data0) == again
            && Step(s, p) == if again then Slot(true, s.offset + |part|, Splice(s.mem, s.offset, part))
                             else Slot(false, 0, Splice(Splice(s.mem, s.offset, part), 0, HeaderBytes(PacketHeader(h, |part|, again))))
  {
    PacketRead(h, op, part, again);
    hide Packet, PacketBuffer, Head, PartOf, HeaderBytes;
  }

  lemma HoldsFirst(mem: seq<byte>, head: seq<byte>, op: uint32, part: seq<byte>)
    requires |mem| == SLOT_SIZE && |head| == HEADER_SIZE && OVERHEAD + |part| <= SLOT_SIZE
    ensures Holds(Splice(mem, 0, head + Word(op) + part), false, op, part)
    ensures Splice(mem, 0, head + Word(op) + part)[..HEADER_SIZE] == head
  {
    var p := head + Word(op) + part;
    var r := Splice(mem, 0, p);
    SpliceRead(mem, 0, p);
    assert p[..HEADER_SIZE] == head && p[HEADER_SIZE..] == Word(op) + part;
    hide Splice, Word;
    SliceOfSlice(r, 0, |p|, HEADER_SIZE, |p|);
    SliceOfSlice(r, 0, |p|, 0, HEADER_SIZE);
  }

  lemma BodyMore(d: bool, op: uint32, done: seq<byte>, part: seq<byte>)
    requires d ==> 12 <= |done|
    ensures Body(d, op, done + part) == Body(d, op, done) + part
  {
    hide Word;
    if d {
      assert (done + part)[12..] == done[12..] + part;
    }
  }

  lemma SlicesJoined(s: seq<byte>, lo: nat, mid: nat, hi: nat)
    requires lo <= mid <= hi <= |s|
    ensures s[lo..hi] == s[lo..mid] + s[mid..hi]
  {
  }

  lemma HoldsMore(mem: seq<byte>, d: bool, op: uint32, done: seq<byte>, part: seq<byte>)
    requires (d ==> 12 <= |done|) && Holds(mem, d, op, done) && OVERHEAD + |done| + |part| <= SLOT_SIZE
    ensures Holds(Splice(mem, OVERHEAD + |done|, part), d, op, done + part)
  {
    hide Splice, Body;
    var at := OVERHEAD + |done|;
    var r := Splice(mem, at, part);
    SpliceRead(mem, at, part);
    BodyMore(d, op, done, part);
    AgreeSlice(r, mem, HEADER_SIZE, at);
    SlicesJoined(r, HEADER_SIZE, at, at + |part|);
  }

  lemma HoldsHeader(mem: seq<byte>, d: bool, op: uint32, p: seq<byte>, head: seq<byte>)
    requires (d ==> 12 <= |p|) && Holds(mem, d, op, p) && |head| == HEADER_SIZE
    ensures Holds(Splice(mem, 0, head), d, op, p) && Splice(mem, 0, head)[..HEADER_SIZE] == head
  {
    SpliceRead(mem, 0, head);
    hide Splice, Body;
    AgreeSlice(Splice(mem, 0, head), mem, HEADER_SIZE, OVERHEAD + |p|);
  }

  lemma ResponseIdTwice(op: uint32)
    ensures ResponseId(ResponseId(op)) == ResponseId(op)
  {
  }

  lemma BodyParts(d: bool, op: uint32, p: seq<byte>)
    requires 12 <= |p|
    ensures Body(d, op, p)[0..4] == Word(if d then ResponseId(op) else op) && Body(d, op, p)[16..4 + |p|] == p[12..]
  {
    hide Word, ResponseId;
    var b, w := Body(d, op, p), Word(if d then ResponseId(op) else op);
    assert b == w + b[4..];
    if d {
      assert b == (w + REFUSAL_BYTES) + p[12..];
    } else {
      assert b == w + p;
    }
  }

  lemma HoldsRefused(mem: seq<byte>, d: bool, op: uint32, p: seq<byte>)
    requires 12 <= |p| && Holds(mem, d, op, p)
    ensures Sendable(REFUSAL) && Holds(Replied(mem, REFUSAL), true, op, p)
  {
    hide Word, WordOf, ResponseId, Replied;
    RefusalOverwrites(mem);
    var r, e := Replied(mem, REFUSAL), OVERHEAD + |p|;
    var x := if d then ResponseId(op) else op;
    BodyParts(d, op, p);
    SliceOfSlice(mem, HEADER_SIZE, e, 0, 4);
    SliceOfSlice(mem, HEADER_SIZE, e, 16, 4 + |p|);
    WordOfSlice(mem, HEADER_SIZE, x);
    ResponseIdTwice(op);
    WordRebuilt(r, HEADER_SIZE);
    AgreeSlice(r, mem, 32, e);
    SlicesJoined(r, HEADER_SIZE, OVERHEAD, e);
    SlicesJoined(r, OVERHEAD, 32, e);
  }

  lemma WordOfSlice(s: seq<byte>, i: nat, w: uint32)
    requires i + 4 <= |s| && s[i..i + 4] == Word(w)
    ensures WordAt(s, i) == w
  {
    WordReadBack(w);
    hide Word, WordOf;
    var t := s[i..i + 4];
    assert s[i] == t[0] && s[i + 1] == t[1] && s[i + 2] == t[2] && s[i + 3] == t[3];
  }

  // Runs of one slot

  lemma {:induction false} SomePacket(es: seq<Event>)
    requires EndsWithPart(es)
    ensures Packets(es) != []
  {
    if !es[0].Part? {
      assert EndsWithPart(es[1..]);
      SomePacket(es[1..]);
    }
  }

  /** The first event of a message: a refusal, the only packet, or the first of several. */
  lemma FirstEvent(es: seq<Event>, h: Header, op: uint32, rest: seq<byte>)
    requires EndsWithPart(es) && Packets(es) == Fragments(h, op, rest)
    ensures es[0].Refused? ==> EndsWithPart(es[1..]) && Packets(es[1..]) == Packets(es)
    ensures es[0].Part? && |rest| <= MAX_FS_PKT_BYTE ==> es[0].pkt == Packet(h, op, rest, false) && |es| == 1
    ensures es[0].Part? && |rest| > MAX_FS_PKT_BYTE ==>
              && es[0].pkt == Packet(h, op, rest[..MAX_FS_PKT_BYTE], true)
              && Packets(es[1..]) == Fragments(h, op, rest[MAX_FS_PKT_BYTE..]) && EndsWithPart(es[1..])
  {
    hide Packet;
    if es[0].Part? {
      assert Packets(es)[0] == es[0].pkt && Packets(es)[1..] == Packets(es[1..]);
      if |es| > 1 {
        assert EndsWithPart(es[1..]);
        SomePacket(es[1..]);
      } else {
        assert Packets(es[1..]) == [];
      }
    }
  }

  lemma InRest(es: seq<Event>)
    requires es != []
    ensures Refused in es <==> es[0] == Refused || Refused in es[1..]
  {
    if Refused in es && es[0] != Refused {
      var k :| 0 <= k < |es| && es[k] == Refused;
      assert es[1..][k - 1] == Refused;
    }
  }

  lemma SplitPayload(done: seq<byte>, rest: seq<byte>)
    requires |rest| > MAX_FS_PKT_BYTE
    ensures done + rest[..MAX_FS_PKT_BYTE] + rest[MAX_FS_PKT_BYTE..] == done + rest
  {
  }

  /** From the middle of a message on, with any number of refusals in between. */
  lemma {:induction false} RestOfMessage(s: Slot, es: seq<Event>, h: Header, op: uint32, done: seq<byte>, rest: seq<byte>, d: bool)
    requires Fine(es) && EndsWithPart(es) && Packets(es) == Fragments(h, op, rest) && rest != []
    requires s.waiting && s.offset == OVERHEAD + |done| && 12 <= |done| && OVERHEAD + |done| + |rest| <= SLOT_SIZE
    requires Holds(s.mem, d, op, done)
    ensures OrderlySlot(s, es)
    ensures Carries(Reach(s, es), d || Refused in es, LastHeader(h, |rest|), op, done + rest)
    decreases |es|
  {
    hide Packets, Fragments, Packet, Head, Room, Step, Holds, Body, HeaderBytes, Splice, Replied, PacketHeader;
    FirstEvent(es, h, op, rest);
    InRest(es);
    assert |s.mem| == SLOT_SIZE by {
      HoldsSize(s.mem, d, op, done);
    }
    if es[0].Refused? {
      HoldsRefused(s.mem, d, op, done);
      RestOfMessage(Next(s, es[0]), es[1..], h, op, done, rest, true);
    } else if |rest| <= MAX_FS_PKT_BYTE {
      LaterPart(s, h, op, rest, false);
      HoldsMore(s.mem, d, op, done, rest);
      HoldsHeader(Splice(s.mem, s.offset, rest), d, op, done + rest, HeaderBytes(PacketHeader(h, |rest|, false)));
    } else {
      var part, more := rest[..MAX_FS_PKT_BYTE], rest[MAX_FS_PKT_BYTE..];
      LaterPart(s, h, op, part, true);
      HoldsMore(s.mem, d, op, done, part);
      RestOfMessage(Next(s, es[0]), es[1..], h, op, done + part, more, d);
      SplitPayload(done, rest);
      LastHeaderOfRest(h, |rest|);
    }
  }

  lemma HoldsSize(mem: seq<byte>, d: bool, op: uint32, p: seq<byte>)
    requires (d ==> 12 <= |p|) && Holds(mem, d, op, p)
    ensures |mem| == SLOT_SIZE
  {
  }

  /**
   A whole message. An IDLE slot that receives the packets of one message in order, with any number
   of refusals before or between them, has room for every packet, and when the last packet is in it
   is IDLE with offset 0 and holds the operation id and the entire payload, except that a refusal
   after the first packet has replaced the operation id and the first twelve bytes.
   */
  lemma {:induction false} MessageReassembled(s: Slot, es: seq<Event>, h: Header, op: uint32, payload: seq<byte>)
    requires Fine(es) && EndsWithPart(es) && Packets(es) == Fragments(h, op, payload)
    requires !s.waiting && s.offset == 0 && OVERHEAD + |payload| <= |s.mem| == SLOT_SIZE
    ensures OrderlySlot(s, es)
    ensures Disturbed(es) ==> |payload| > MAX_FS_PKT_BYTE
    ensures Carries(Reach(s, es), Disturbed(es), LastHeader(h, |payload|), op, payload)
    decreases |es|
  {
    hide Packets, Fragments, Packet, Head, Room, Step, Holds, Body, HeaderBytes, Splice, Replied, PacketHeader;
    FirstEvent(es, h, op, payload);
    if es[0].Refused? {
      MessageReassembled(Next(s, es[0]), es[1..], h, op, payload);
    } else if |payload| <= MAX_FS_PKT_BYTE {
      FirstPart(s, h, op, payload, false);
      PacketParts(h, op, payload, false);
      HoldsFirst(s.mem, HeaderBytes(PacketHeader(h, |payload|, false)), op, payload);
    } else {
      var part, more := payload[..MAX_FS_PKT_BYTE], payload[MAX_FS_PKT_BYTE..];
      FirstPart(s, h, op, part, true);
      PacketParts(h, op, part, true);
      HoldsFirst(s.mem, HeaderBytes(PacketHeader(h, |part|, true)), op, part);
      RestOfMessage(Next(s, es[0]), es[1..], h, op, part, more, false);
      LastHeaderOfRest(h, |payload|);
      assert part + more == payload;
    }
  }

  lemma PacketParts(h: Header, op: uint32, part: seq<byte>, again: bool)
    requires |part| <= SLOT_SIZE
    ensures Packet(h, op, part, again) == HeaderBytes(PacketHeader(h, |part|, again)) + Word(op) + part
  {
  }

  /**
   The exact condition: the slot ends with the operation id and payload that were sent if and only
   if no refusal came after the first packet, or it happened to write what was there anyway.
   */
  lemma MessageSurvives(s: Slot, es: seq<Event>, h: Header, op: uint32, payload: seq<byte>)
    requires Fine(es) && EndsWithPart(es) && Packets(es) == Fragments(h, op, payload)
    requires !s.waiting && s.offset == 0 && OVERHEAD + |payload| <= |s.mem| == SLOT_SIZE
    ensures OrderlySlot(s, es) && (Disturbed(es) ==> |payload| > MAX_FS_PKT_BYTE)
    ensures var r := Reach(s, es);
            && |r.mem| == SLOT_SIZE
            && (r.mem[HEADER_SIZE..OVERHEAD + |payload|] == Word(op) + payload
                <==> !Disturbed(es) || (ResponseId(op) == op && payload[..12] == REFUSAL_BYTES))
  {
    MessageReassembled(s, es, h, op, payload);
    hide Packets, Fragments, Packet, Reach, Disturbed, OrderlySlot, ResponseId, Body, HeaderBytes, LastHeader;
    if Disturbed(es) {
      BodyTelling(op, payload);
    } else {
      BodyPlain(op, payload);
    }
  }

  lemma BodyPlain(op: uint32, p: seq<byte>)
    ensures Body(false, op, p) == Word(op) + p
  {
  }

  lemma BodyTelling(op: uint32, p: seq<byte>)
    requires 12 <= |p|
    ensures Body(true, op, p) == Word(op) + p <==> ResponseId(op) == op && p[..12] == REFUSAL_BYTES
  {
    var x, y := Body(true, op, p), Word(op) + p;
    var q := ResponseId(op);
    assert x[..4] == Word(q) && x[4..16] == REFUSAL_BYTES && x[16..] == p[12..];
    assert y[..4] == Word(op) && y[4..16] == p[..12] && y[16..] == p[12..];
    if x == y {
      WordReadBack(q);
      WordReadBack(op);
    }
    hide Body, Word, ResponseId;
    assert x == x[..4] + x[4..16] + x[16..] && y == y[..4] + y[4..16] + y[16..];
  }

  // Runs of the whole machine

  /** The last input is an accepted packet for slot `i`. */
  predicate EndsAt(xs: seq<Input>, i: nat)
    requires Readable(xs)
  {
    xs != [] && var h := Head(xs[|xs| - 1].pkt); HeaderOk(h) && h.reserved == i
  }

  lemma {:induction false} EventsEnd(i: nat, replies: bool, xs: seq<Input>)
    requires Readable(xs) && EndsAt(xs, i)
    ensures EndsWithPart(Events(i, replies, xs))
    decreases |xs|
  {
    hide Head, HeaderOk, Completes;
    EventTail(i, replies, xs);
    if |xs| > 1 {
      var es, rest := Events(i, replies, xs), Events(i, replies || Completes(Head(xs[0].pkt)), xs[1..]);
      EventsEnd(i, replies || Completes(Head(xs[0].pkt)), xs[1..]);
      assert es[|es| - 1] == rest[|rest| - 1];
    }
  }

  /**
   Whatever else arrives in between, refused packets included: when the packets that reach slot `i`
   are those of one message, in order, then slot `i` ends IDLE with that message, provided that the
   other slots' packets are contained; and the message is intact if and only if no refused packet
   that was answered named slot `i` after the first of them, or the answer wrote what was there.
   */
  lemma InterleavedMessages(m: Machine, xs: seq<Input>, i: nat, h: Header, op: uint32, payload: seq<byte>)
    requires Valid(m) && Readable(xs) && i < FS_BUFFER_SLOT_NUM && !m.waiting[i]
    requires EndsAt(xs, i) && Packets(Events(i, m.replies, xs)) == Fragments(h, op, payload)
    requires OVERHEAD + |payload| <= SLOT_SIZE
    requires forall j :: 0 <= j < FS_BUFFER_SLOT_NUM && j != i ==> OrderlySlot(SlotOf(m, j), Events(j, m.replies, xs))
    ensures Orderly(m, xs) && AllDefined(m, xs)
    ensures var es, r := Events(i, m.replies, xs), SlotOf(Reached(m, xs), i);
            && (Disturbed(es) ==> |payload| > MAX_FS_PKT_BYTE)
            && Carries(r, Disturbed(es), LastHeader(h, |payload|), op, payload)
            && (r.mem[HEADER_SIZE..OVERHEAD + |payload|] == Word(op) + payload
                <==> !Disturbed(es) || (ResponseId(op) == op && payload[..12] == REFUSAL_BYTES))
  {
    hide Packets, Fragments, Head, HeaderOk, EventAt, Events, Turn, SlotBytes, Reach, NextAll, Reached, Carries,
         Disturbed, OrderlySlot, LastHeader, ResponseId, Word, Completes, Orderly, AllDefined;
    var es := Events(i, m.replies, xs);
    EventsEnd(i, m.replies, xs);
    MessageReassembled(SlotOf(m, i), es, h, op, payload);
    MessageSurvives(SlotOf(m, i), es, h, op, payload);
    OrderlyBySlot(m, xs);
    ReachedAtSlot(m, xs, i);
  }

  /** Every packet of a message for slot `i` passes the header check and is routed to slot `i`. */
  lemma {:induction false} OwnPacketsRouted(h: Header, op: uint32, payload: seq<byte>, xs: seq<Input>, i: nat, replies: bool)
    requires h.channel % 0x1_0000 == 0x0e && h.reserved < FS_BUFFER_SLOT_NUM && OVERHEAD + |payload| <= SLOT_SIZE
    requires Readable(xs) && |xs| == |Fragments(h, op, payload)|
    requires forall k :: 0 <= k < |xs| ==> xs[k].pkt == Fragments(h, op, payload)[k]
    ensures EndsAt(xs, h.reserved) && Refused !in Events(i, replies, xs)
    ensures Packets(Events(i, replies, xs)) == if h.reserved == i then Fragments(h, op, payload) else []
    decreases |payload|
  {
    hide Packet, Head, HeaderBytes, Events, EventAt, Completes;
    var ps, x := Fragments(h, op, payload), xs[0];
    EventTail(i, replies, xs);
    if |payload| <= MAX_FS_PKT_BYTE {
      PacketRead(h, op, payload, false);
      assert ps == [Packet(h, op, payload, false)] && xs[1..] == [];
      NoEvents(i, replies || Completes(Head(x.pkt)));
    } else {
      var part, rest := payload[..MAX_FS_PKT_BYTE], payload[MAX_FS_PKT_BYTE..];
      PacketRead(h, op, part, true);
      assert ps[0] == Packet(h, op, part, true) && ps[1..] == Fragments(h, op, rest);
      OwnPacketsRouted(h, op, rest, xs[1..], i, replies || Completes(Head(x.pkt)));
    }
    OwnEvent(x, i, replies);
    PacketsCons(Events(i, replies, xs));
  }

  lemma NoEvents(i: nat, replies: bool)
    ensures Events(i, replies, []) == []
  {
  }

  lemma OwnEvent(x: Input, i: nat, replies: bool)
    requires Readable([x]) && HeaderOk(Head(x.pkt))
    ensures EventAt(i, replies, x) == if Head(x.pkt).reserved == i then [Part(x.pkt, x.served)] else []
  {
  }

  lemma PacketsCons(es: seq<Event>)
    ensures es == [] ==> Packets(es) == []
    ensures es != [] ==> Packets(es) == (if es[0].Part? then [es[0].pkt] else []) + Packets(es[1..])
  {
  }

  lemma MemOfCarried(mem: seq<byte>, op: uint32, payload: seq<byte>, m: seq<byte>)
    requires Holds(mem, false, op, payload)
    requires |m| == SLOT_SIZE && payload == m[OVERHEAD..OVERHEAD + |payload|]
    ensures WordAt(mem, HEADER_SIZE) == op && Agree(mem, m, OVERHEAD, OVERHEAD + |payload|)
  {
    var e, b := OVERHEAD + |payload|, Body(false, op, payload);
    assert b[0..4] == Word(op) && b[4..4 + |payload|] == payload;
    SliceOfSlice(mem, HEADER_SIZE, e, 0, 4);
    SliceOfSlice(mem, HEADER_SIZE, e, 4, 4 + |payload|);
    hide Word, Body;
    WordOfSlice(mem, HEADER_SIZE, op);
    SliceAgrees(mem, m, OVERHEAD, e);
  }

  /** What a disturbed message looks like to the parser: one argument of four bytes, under the id of a response. */
  lemma ParseOfDisturbed(mem: seq<byte>, op: uint32, payload: seq<byte>)
    requires 12 <= |payload| && Holds(mem, true, op, payload)
    ensures WordAt(mem, HEADER_SIZE) == ResponseId(op) && Parse(mem) == Accepted([Entry(4, 28)])
  {
    hide Word, WordAt, ResponseId;
    var e, b, w := OVERHEAD + |payload|, Body(true, op, payload), Word(ResponseId(op));
    assert b[0..4] == w && b[4..8] == Word(1) && b[8..12] == Word(4) by {
      assert b == w + Word(1) + Word(4) + (Word(0xFFFF_FFFE) + payload[12..]);
    }
    hide Body, Parse;
    SliceOfSlice(mem, HEADER_SIZE, e, 0, 4);
    SliceOfSlice(mem, HEADER_SIZE, e, 4, 8);
    SliceOfSlice(mem, HEADER_SIZE, e, 8, 12);
    WordOfSlice(mem, HEADER_SIZE, ResponseId(op));
    WordOfSlice(mem, OVERHEAD, 1);
    WordOfSlice(mem, FIRST_ARG, 4);
    ParseOfOne(mem);
  }

  lemma ParseOfOne(mem: seq<byte>)
    requires |mem| == SLOT_SIZE && WordAt(mem, OVERHEAD) == 1 && WordAt(mem, FIRST_ARG) == 4
    ensures Parse(mem) == Accepted([Entry(4, 28)])
  {
    hide WordAt;
    assert ParseFrom(mem, 0, 12) == Accepted([]);
  }

  lemma PayloadInMessage(s: seq<byte>, args: seq<Arg>)
    requires |s| == SLOT_SIZE && Sendable(args)
    ensures Payload(s, args) == Message(s, args)[OVERHEAD..OVERHEAD + |Payload(s, args)|]
    ensures OVERHEAD + |Payload(s, args)| == End(Lengths(args), FIRST_ARG)
  {
  }

  /**
   The whole path. Arguments packed into a slot and sent as packets arrive in slot `i` among other
   packets: the slot is IDLE with offset 0, and unless a refusal came after the first packet it has
   the operation id, and the parser recovers every argument (at most six, none empty). After such a
   refusal the parser sees one argument of four bytes under the id of a response instead.
   */
  lemma MessageDelivered(s: seq<byte>, args: seq<Arg>, h: Header, op: uint32, m: Machine, xs: seq<Input>, i: nat)
    requires |s| == SLOT_SIZE && Sendable(args)
    requires Valid(m) && Readable(xs) && i < FS_BUFFER_SLOT_NUM && !m.waiting[i]
    requires EndsAt(xs, i) && Packets(Events(i, m.replies, xs)) == Fragments(h, op, Payload(s, args))
    requires forall j :: 0 <= j < FS_BUFFER_SLOT_NUM && j != i ==> OrderlySlot(SlotOf(m, j), Events(j, m.replies, xs))
    ensures Orderly(m, xs) && AllDefined(m, xs)
    ensures var r, ls := SlotOf(Reached(m, xs), i), Lengths(args);
            && !r.waiting && r.offset == 0 && |r.mem| == SLOT_SIZE
            && if Disturbed(Events(i, m.replies, xs)) then
                 WordAt(r.mem, HEADER_SIZE) == ResponseId(op) && Parse(r.mem) == Accepted([Entry(4, 28)])
               else
                 && WordAt(r.mem, HEADER_SIZE) == op
                 && Parse(r.mem) == (if |args| <= FS_MAX_ARG_NUM && AllPositive(ls) then Accepted(Entries(ls, FIRST_ARG)) else Rejected)
                 && forall k :: 0 <= k < |args| ==> Describes(r.mem, Entries(ls, FIRST_ARG)[k], MessageValues(s, args)[k])
  {
    hide Packets, Fragments, EventAt, Events, Head, HeaderOk, Turn, SlotBytes, Reached, Disturbed, OrderlySlot, LastHeader,
         ResponseId, Word, WordOf, WordAt, Orderly, AllDefined, Holds, Message, MessageValues, Payload, Parse, Entries, Describes,
         Lengths, Fits, SourcesOk, End, AllPositive, HeaderBytes;
    InterleavedMessages(m, xs, i, h, op, Payload(s, args));
    var r := SlotOf(Reached(m, xs), i);
    PayloadInMessage(s, args);
    if Disturbed(Events(i, m.replies, xs)) {
      ParseOfDisturbed(r.mem, op, Payload(s, args));
    } else {
      MemOfCarried(r.mem, op, Payload(s, args), Message(s, args));
      ParseOfMessage(s, args, r.mem);
    }
  }

  // Inputs that fail

  lemma TwoPackets(h: Header, op: uint32, payload: seq<byte>)
    requires MAX_FS_PKT_BYTE < |payload| <= 2 * MAX_FS_PKT_BYTE
    ensures Fragments(h, op, payload)
         == [Packet(h, op, payload[..MAX_FS_PKT_BYTE], true), Packet(h, op, payload[MAX_FS_PKT_BYTE..], false)]
  {
  }

  lemma ThreeEvents(i: nat, xs: seq<Input>)
    requires Readable(xs) && |xs| == 3 && !Completes(Head(xs[0].pkt)) && !Completes(Head(xs[1].pkt))
    ensures Events(i, true, xs) == EventAt(i, true, xs[0]) + EventAt(i, true, xs[1]) + EventAt(i, true, xs[2])
  {
    hide Head, Completes, EventAt;
    EventsCons(i, true, xs);
    EventsCons(i, true, xs[1..]);
    EventsCons(i, true, xs[1..][1..]);
    assert xs[1..][1..][1..] == [];
    assert Events(i, true, xs[1..][1..][1..]) == [];
  }

  /**
   A message of two packets with a refused packet that names the same slot in between: nothing is
   copied outside its place, and yet the slot ends without its operation id.
   */
  lemma RefusalBetween(m: Machine, xs: seq<Input>, h: Header, op: uint32, payload: seq<byte>)
    requires Valid(m) && m.replies && h.channel == 0x0e && h.reserved < FS_BUFFER_SLOT_NUM && !m.waiting[h.reserved]
    requires MAX_FS_PKT_BYTE < |payload| <= 2 * MAX_FS_PKT_BYTE && op < 0xFFFF_0000
    requires Readable(xs) && |xs| == 3
    requires xs[0].pkt == Packet(h, op, payload[..MAX_FS_PKT_BYTE], true)
    requires Head(xs[1].pkt).channel == 0 && Head(xs[1].pkt).reserved == h.reserved
    requires xs[2].pkt == Packet(h, op, payload[MAX_FS_PKT_BYTE..], false)
    ensures Orderly(m, xs) && AllDefined(m, xs)
    ensures SlotOf(Reached(m, xs), h.reserved).mem[HEADER_SIZE..OVERHEAD + |payload|] != Word(op) + payload
  {
    hide Packet, Head, HeaderBytes, ClearAgain, SetAgain, Fragments, Orderly, AllDefined, Reached, SlotBytes, ResponseId, Events,
         Carries, LastHeader, Packets, Disturbed, Word, Head;
    TwoPackets(h, op, payload);
    PacketRead(h, op, payload[..MAX_FS_PKT_BYTE], true);
    PacketRead(h, op, payload[MAX_FS_PKT_BYTE..], false);
    AgainSet(h.data0);
    RefusalEvents(h.reserved, xs);
    DisturbedThree(xs[0], xs[2]);
    InterleavedMessages(m, xs, h.reserved, h, op, payload);
    RequestIds(op);
  }

  lemma RefusalEvents(i: nat, xs: seq<Input>)
    requires Readable(xs) && |xs| == 3 && i < FS_BUFFER_SLOT_NUM
    requires forall k :: 0 <= k < 3 ==> Head(xs[k].pkt).reserved == i
    requires HeaderOk(Head(xs[0].pkt)) && !HeaderOk(Head(xs[1].pkt)) && HeaderOk(Head(xs[2].pkt))
    requires HasAgain(Head(xs[0].pkt).data0)
    ensures forall j :: 0 <= j < FS_BUFFER_SLOT_NUM ==>
              Events(j, true, xs) == if i == j then [Part(xs[0].pkt, xs[0].served), Refused, Part(xs[2].pkt, xs[2].served)] else []
  {
    hide Head, Events;
    forall j | 0 <= j < FS_BUFFER_SLOT_NUM
      ensures Events(j, true, xs) == if i == j then [Part(xs[0].pkt, xs[0].served), Refused, Part(xs[2].pkt, xs[2].served)] else []
    {
      ThreeEvents(j, xs);
    }
  }

  lemma DisturbedThree(x: Input, y: Input)
    ensures var es := [Part(x.pkt, x.served), Refused, Part(y.pkt, y.served)];
            Disturbed(es) && Packets(es) == [x.pkt, y.pkt]
  {
    var last := Part(y.pkt, y.served);
    var es := [Part(x.pkt, x.served), Refused, last];
    assert es[1..] == [Refused, last] && es[1..][0] == Refused;
    assert es[1..][1..] == [last] && es[1..][1..][1..] == [];
    assert Packets([last]) == [y.pkt];
  }

  lemma AgainSet(w: uint32)
    ensures HasAgain(SetAgain(w)) && !HasAgain(ClearAgain(w))
  {
  }

  lemma RequestIds(op: uint32)
    requires op < 0xFFFF_0000
    ensures ResponseId(op) != op
  {
  }

  /** A full packet for slot 0, to be followed by another. */
  ghost predicate Floods(x: Input) {
    Readable([x]) && Head(x.pkt) == Header(SEND_AGAIN, OVERHEAD + MAX_FS_PKT_BYTE, 0x0e, 0)
  }

  /** Slot 0 is WAITing with `k` such packets in it. */
  ghost predicate Flooded(m: Machine, k: nat) {
    && Valid(m) && if k == 0 then !m.waiting[0] else m.waiting[0] && m.offset[0] == OVERHEAD + k * MAX_FS_PKT_BYTE
  }

  lemma FloodOne(m: Machine, k: nat, x: Input)
    requires Flooded(m, k) && k < 4 && Floods(x)
    ensures Defined(m, x.pkt) && Contained(m, x.pkt) && Flooded(Turn(m, x), k + 1)
  {
    hide Head, SlotBytes, PacketBuffer, Memcpy, Turn;
    TurnAtSlot(m, x, 0);
    assert SlotOf(Turn(m, x), 0) == Step(SlotOf(m, 0), x.pkt);
  }

  lemma FloodLast(m: Machine, x: Input)
    requires Flooded(m, 4) && Floods(x)
    ensures Defined(m, x.pkt) && !Contained(m, x.pkt)
    ensures Turn(m, x).block[OVERHEAD + 5 * MAX_FS_PKT_BYTE - 1] == PacketBuffer(x.pkt)[OVERHEAD + MAX_FS_PKT_BYTE - 1]
  {
    hide Head, SlotBytes, PacketBuffer, Step, Put;
    OverrunExactly(m, x.pkt);
  }

  lemma {:induction false} FloodRun(m: Machine, k: nat, xs: seq<Input>)
    requires Flooded(m, k) && k <= 4 && |xs| == 5 - k && Readable(xs) && forall x :: x in xs ==> Floods(x)
    ensures AllDefined(m, xs)
    ensures Run(m, xs).block[OVERHEAD + 5 * MAX_FS_PKT_BYTE - 1]
         == PacketBuffer(xs[|xs| - 1].pkt)[OVERHEAD + MAX_FS_PKT_BYTE - 1]
    decreases |xs|
  {
    hide Turn, Head, SlotBytes, PacketBuffer, Defined, Contained;
    var x, rest := xs[0], xs[1..];
    if k == 4 {
      FloodLast(m, x);
      assert rest == [];
    } else {
      FloodOne(m, k, x);
      assert forall y :: y in rest ==> y in xs;
      FloodRun(Turn(m, x), k + 1, rest);
    }
  }

  /**
   Any five send-again packets of 3476 bytes to an IDLE slot 0. Each passes the header check, and no
   copy leaves the block; but the fifth ends at byte 17300 of a slot of 16604, so that byte 695 of
   slot 1 is now that packet's last byte.
   */
  lemma FiveSendAgain(m: Machine, xs: seq<Input>)
    requires Valid(m) && !m.waiting[0] && |xs| == 5 && Readable(xs)
    requires forall x :: x in xs ==> Head(x.pkt) == Header(SEND_AGAIN, 3476, 0x0e, 0)
    ensures forall x :: x in xs ==> HeaderOk(Head(x.pkt))
    ensures AllDefined(m, xs) && SlotBytes(Run(m, xs).block, 1)[695] == PacketBuffer(xs[4].pkt)[3475]
  {
    hide Head, PacketBuffer, AllDefined, Run, SlotBytes;
    FloodRun(m, 0, xs);
    SlotByte(Run(m, xs).block, 1, 695);
  }
}

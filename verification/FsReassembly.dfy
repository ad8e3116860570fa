/**
 The receiving side of the daemon's main loop: five message slots, each IDLE or WAITing for the
 rest of a message, fed with packets in whatever order the slots' messages are interleaved.
 */
module FsReassembly {
  import opened Bytes
  import opened FsMessage
  import opened FsSlots
  import opened FsPacking

  const MAX_FS_BUF_BYTE: nat := 4096

  /** The packet buffer is cleared before each read. */
  function PacketBuffer(pkt: seq<byte>): (b: seq<byte>)
    requires |pkt| <= MAX_FS_BUF_BYTE
    ensures |b| == MAX_FS_BUF_BYTE && forall k :: 0 <= k < |b| ==> b[k] == if k < |pkt| then pkt[k] else 0
  {
    pkt + seq(MAX_FS_BUF_BYTE - |pkt|, _ => 0)
  }

  function Head(pkt: seq<byte>): Header
    requires |pkt| <= MAX_FS_BUF_BYTE
  {
    HeaderAt(PacketBuffer(pkt), 0)
  }

  /** The header check of the main loop: channel, slot number, and size against the slot. */
  predicate HeaderOk(h: Header) {
    h.channel % 0x1_0000 == 0x0e && h.reserved < FS_BUFFER_SLOT_NUM && h.data1 <= SLOT_SIZE
  }

  predicate Completes(h: Header) {
    HeaderOk(h) && !HasAgain(h.data0)
  }

  // One slot

  /** fs_buff_state, fs_buff_offset and memory from the first byte of the slot on. */
  datatype Slot = Slot(waiting: bool, offset: nat, mem: seq<byte>)

  /**
   The copies made for a packet stay inside the packet buffer and inside `mem`. The source checks
   neither, and relies on the sender for both.
   */
  predicate Room(s: Slot, h: Header) {
    && h.data1 <= MAX_FS_BUF_BYTE && SLOT_SIZE <= |s.mem|
    && (s.waiting && HasAgain(h.data0) ==> OVERHEAD <= h.data1)
    && (s.waiting && OVERHEAD < h.data1 ==> s.offset + h.data1 - OVERHEAD <= |s.mem|)
  }

  function Memcpy(mem: seq<byte>, at: nat, data: seq<byte>): (r: seq<byte>)
    requires data == [] || at + |data| <= |mem|
    ensures |r| == |mem|
  {
    if data == [] then mem else Splice(mem, at, data)
  }

  /** The part of a later packet that is data: nothing when the packet is too short. */
  function PartOf(h: Header, packet: seq<byte>): (d: seq<byte>)
    requires |packet| == MAX_FS_BUF_BYTE && h.data1 <= MAX_FS_BUF_BYTE
  {
    if h.data1 > OVERHEAD then packet[OVERHEAD..h.data1] else []
  }

  /** One accepted packet, in the packet buffer. */
  function StepOf(s: Slot, h: Header, packet: seq<byte>): (t: Slot)
    requires |packet| == MAX_FS_BUF_BYTE && Room(s, h)
    ensures |t.mem| == |s.mem|
  {
    if !s.waiting then
      var mem := Memcpy(s.mem, 0, packet[..h.data1]);
      if HasAgain(h.data0) then Slot(true, s.offset + h.data1, mem) else Slot(false, 0, mem)
    else
      var d := PartOf(h, packet);
      var mem := Memcpy(s.mem, s.offset, d);
      if HasAgain(h.data0) then Slot(true, s.offset + |d|, mem)
      else Slot(false, 0, Memcpy(mem, 0, packet[..HEADER_SIZE]))
  }

  function Step(s: Slot, pkt: seq<byte>): (t: Slot)
    requires |pkt| <= MAX_FS_BUF_BYTE && Room(s, Head(pkt))
    ensures |t.mem| == |s.mem|
  {
    StepOf(s, Head(pkt), PacketBuffer(pkt))
  }

  // All slots

  /** `replies`: pFsBuf is not NULL. The source sets it with the first request, and not before. */
  datatype Machine = Machine(block: seq<byte>, waiting: seq<bool>, offset: seq<nat>, replies: bool)

  ghost predicate Valid(m: Machine) {
    && |m.block| == BLOCK_SIZE && |m.waiting| == |m.offset| == FS_BUFFER_SLOT_NUM
    && forall i :: 0 <= i < FS_BUFFER_SLOT_NUM && !m.waiting[i] ==> m.offset[i] == 0
  }

  /** A slot with its own bytes only. */
  function SlotOf(m: Machine, i: nat): (s: Slot)
    requires |m.block| == BLOCK_SIZE && |m.waiting| == |m.offset| == FS_BUFFER_SLOT_NUM && i < FS_BUFFER_SLOT_NUM
  {
    Slot(m.waiting[i], m.offset[i], SlotBytes(m.block, i))
  }

  /** A slot as the copies see it: nothing marks its end before the end of the block. */
  function From(m: Machine, i: nat): (s: Slot)
    requires |m.block| == BLOCK_SIZE && |m.waiting| == |m.offset| == FS_BUFFER_SLOT_NUM && i < FS_BUFFER_SLOT_NUM
  {
    Slot(m.waiting[i], m.offset[i], m.block[i * SLOT_SIZE..])
  }

  function Put(m: Machine, i: nat, s: Slot): (r: Machine)
    requires |m.block| == BLOCK_SIZE && |m.waiting| == |m.offset| == FS_BUFFER_SLOT_NUM && i < FS_BUFFER_SLOT_NUM
    requires i * SLOT_SIZE + |s.mem| <= BLOCK_SIZE
    ensures r.replies == m.replies
  {
    m.(block := Splice(m.block, i * SLOT_SIZE, s.mem), waiting := m.waiting[i := s.waiting], offset := m.offset[i := s.offset])
  }

  /** An accepted packet's copies stay inside the packet buffer and the block. */
  ghost predicate Defined(m: Machine, pkt: seq<byte>)
    requires Valid(m) && |pkt| <= MAX_FS_BUF_BYTE
  {
    HeaderOk(Head(pkt)) ==> Room(From(m, Head(pkt).reserved), Head(pkt))
  }

  /** An accepted packet's copies stay inside the packet buffer and the packet's own slot. */
  ghost predicate Contained(m: Machine, pkt: seq<byte>)
    requires Valid(m) && |pkt| <= MAX_FS_BUF_BYTE
  {
    HeaderOk(Head(pkt)) ==> Room(SlotOf(m, Head(pkt).reserved), Head(pkt))
  }

  /** The reply FS_PARAM_ERROR, composed in the slot. */
  function Refuse(s: Slot): (t: Slot)
    requires |s.mem| == SLOT_SIZE
    ensures |t.mem| == |s.mem|
  {
    RefusalSendable();
    s.(mem := Replied(s.mem, REFUSAL))
  }

  /**
   One pass of the reading loop. A packet that fails the header check is answered from the slot it
   names, if there is such a slot and pFsBuf is set; otherwise it changes nothing.
   */
  function Dispatch(m: Machine, pkt: seq<byte>): (r: Machine)
    requires Valid(m) && |pkt| <= MAX_FS_BUF_BYTE && Defined(m, pkt)
    ensures Valid(r)
  {
    var h := Head(pkt);
    if HeaderOk(h) then Put(m, h.reserved, Step(From(m, h.reserved), pkt))
    else if h.reserved < FS_BUFFER_SLOT_NUM && m.replies then Put(m, h.reserved, Refuse(SlotOf(m, h.reserved)))
    else m
  }

  /** A packet, and what its slot holds once the request that it completes has been served. */
  datatype Input = Input(pkt: seq<byte>, served: seq<byte>)

  predicate Readable(xs: seq<Input>) {
    forall x :: x in xs ==> |x.pkt| <= MAX_FS_BUF_BYTE && |x.served| == SLOT_SIZE
  }

  /** A packet arrives; when it completes a request, the request is served inside its slot. */
  function Turn(m: Machine, x: Input): (r: Machine)
    requires Valid(m) && Readable([x]) && Defined(m, x.pkt)
    ensures Valid(r)
  {
    var d, h := Dispatch(m, x.pkt), Head(x.pkt);
    if Completes(h) then Put(d, h.reserved, SlotOf(d, h.reserved).(mem := x.served)).(replies := true) else d
  }

  ghost predicate AllDefined(m: Machine, xs: seq<Input>)
    requires Valid(m) && Readable(xs)
    decreases |xs|
  {
    xs == [] || (Defined(m, xs[0].pkt) && AllDefined(Turn(m, xs[0]), xs[1..]))
  }

  /** Every packet is contained when it arrives. */
  ghost predicate Orderly(m: Machine, xs: seq<Input>)
    requires Valid(m) && Readable(xs)
    decreases |xs|
  {
    xs == [] || (Defined(m, xs[0].pkt) && Contained(m, xs[0].pkt) && Orderly(Turn(m, xs[0]), xs[1..]))
  }

  function Run(m: Machine, xs: seq<Input>): (r: Machine)
    requires Valid(m) && Readable(xs) && AllDefined(m, xs)
    ensures Valid(r)
    decreases |xs|
  {
    if xs == [] then m else Run(Turn(m, xs[0]), xs[1..])
  }

  /** When the last packet has just arrived, and nothing has been served for it. */
  function Reached(m: Machine, xs: seq<Input>): (r: Machine)
    requires Valid(m) && Readable(xs) && AllDefined(m, xs) && xs != []
    ensures Valid(r)
    decreases |xs|
  {
    if |xs| == 1 then Dispatch(m, xs[0].pkt) else Reached(Turn(m, xs[0]), xs[1..])
  }

  // What one slot sees of a run

  datatype Event = Part(pkt: seq<byte>, served: seq<byte>) | Refused

  ghost predicate Fine(es: seq<Event>) {
    forall e :: e in es && e.Part? ==> |e.pkt| <= MAX_FS_BUF_BYTE && |e.served| == SLOT_SIZE
  }

  /** The event at slot `i`, if any, when an input arrives. */
  function EventAt(i: nat, replies: bool, x: Input): (es: seq<Event>)
    requires Readable([x])
    ensures Fine(es)
  {
    var h := Head(x.pkt);
    if h.reserved != i then []
    else if HeaderOk(h) then [Part(x.pkt, x.served)]
    else if replies then [Refused] else []
  }

  function Events(i: nat, replies: bool, xs: seq<Input>): (es: seq<Event>)
    requires Readable(xs)
    ensures Fine(es)
    decreases |xs|
  {
    if xs == [] then []
    else EventAt(i, replies, xs[0]) + Events(i, replies || Completes(Head(xs[0].pkt)), xs[1..])
  }

  ghost predicate RoomFor(s: Slot, e: Event)
    requires Fine([e])
  {
    |s.mem| == SLOT_SIZE && (e.Part? ==> Room(s, Head(e.pkt)))
  }

  function Arrive(s: Slot, e: Event): (t: Slot)
    requires Fine([e]) && RoomFor(s, e)
    ensures |t.mem| == SLOT_SIZE
  {
    if e.Part? then Step(s, e.pkt) else Refuse(s)
  }

  function Next(s: Slot, e: Event): (t: Slot)
    requires Fine([e]) && RoomFor(s, e)
    ensures |t.mem| == SLOT_SIZE
  {
    var t := Arrive(s, e);
    if e.Part? && !HasAgain(Head(e.pkt).data0) then t.(mem := e.served) else t
  }

  ghost predicate OrderlySlot(s: Slot, es: seq<Event>)
    requires Fine(es)
    decreases |es|
  {
    es == [] || (RoomFor(s, es[0]) && OrderlySlot(Next(s, es[0]), es[1..]))
  }

  function NextAll(s: Slot, es: seq<Event>): (t: Slot)
    requires Fine(es) && OrderlySlot(s, es)
    decreases |es|
  {
    if es == [] then s else NextAll(Next(s, es[0]), es[1..])
  }

  /** When the last event has just happened, and nothing has been served for it. */
  function Reach(s: Slot, es: seq<Event>): (t: Slot)
    requires Fine(es) && OrderlySlot(s, es) && es != []
    decreases |es|
  {
    if |es| == 1 then Arrive(s, es[0]) else Reach(Next(s, es[0]), es[1..])
  }

  // Independence of the slots

  lemma PutOwn(m: Machine, i: nat, s: Slot, j: nat)
    requires Valid(m) && i < FS_BUFFER_SLOT_NUM && j < FS_BUFFER_SLOT_NUM && |s.mem| == SLOT_SIZE
    ensures SlotOf(Put(m, i, s), j) == if i == j then s else SlotOf(m, j)
  {
    SpliceInSlot(m.block, i, 0, s.mem);
    assert Splice(SlotBytes(m.block, i), 0, s.mem) == s.mem;
  }

  lemma MemcpyPrefix(mem: seq<byte>, tail: seq<byte>, at: nat, data: seq<byte>)
    requires data == [] || at + |data| <= |mem|
    ensures Memcpy(mem + tail, at, data) == Memcpy(mem, at, data) + tail
  {
  }

  /** With room in the slot itself, nothing happens beyond its end. */
  lemma StepInSlot(s: Slot, tail: seq<byte>, pkt: seq<byte>)
    requires |pkt| <= MAX_FS_BUF_BYTE && Room(s, Head(pkt))
    ensures Room(s.(mem := s.mem + tail), Head(pkt))
    ensures Step(s.(mem := s.mem + tail), pkt) == Step(s, pkt).(mem := Step(s, pkt).mem + tail)
  {
    hide Memcpy, HeaderAt, PacketBuffer;
    var b := PacketBuffer(pkt);
    if !s.waiting {
      MemcpyPrefix(s.mem, tail, 0, b[..Head(pkt).data1]);
    } else {
      MemcpyPrefix(s.mem, tail, s.offset, PartOf(Head(pkt), PacketBuffer(pkt)));
      MemcpyPrefix(Memcpy(s.mem, s.offset, PartOf(Head(pkt), PacketBuffer(pkt))), tail, 0, b[..HEADER_SIZE]);
    }
  }

  lemma BlockFrom(m: Machine, i: nat)
    requires Valid(m) && i < FS_BUFFER_SLOT_NUM
    ensures From(m, i).mem == SlotOf(m, i).mem + m.block[(i + 1) * SLOT_SIZE..]
  {
  }

  lemma PutWhole(m: Machine, i: nat, s: Slot, t: Slot)
    requires Valid(m) && i < FS_BUFFER_SLOT_NUM && |s.mem| == SLOT_SIZE
    requires t == s.(mem := s.mem + m.block[(i + 1) * SLOT_SIZE..])
    ensures Put(m, i, t) == Put(m, i, s)
  {
    var base := i * SLOT_SIZE;
    assert m.block[base + |t.mem|..] == [];
    assert Splice(m.block, base, t.mem) == Splice(m.block, base, s.mem);
  }

  /** A contained packet acts on its own slot as if the slot were all the memory there is. */
  lemma ContainedStep(m: Machine, pkt: seq<byte>)
    requires Valid(m) && |pkt| <= MAX_FS_BUF_BYTE && HeaderOk(Head(pkt)) && Contained(m, pkt)
    ensures Defined(m, pkt)
    ensures Dispatch(m, pkt) == Put(m, Head(pkt).reserved, Step(SlotOf(m, Head(pkt).reserved), pkt))
  {
    hide Step, HeaderAt, PacketBuffer, Put, Splice, SlotBytes;
    var i := Head(pkt).reserved;
    var s, tail := SlotOf(m, i), m.block[(i + 1) * SLOT_SIZE..];
    BlockFrom(m, i);
    StepInSlot(s, tail, pkt);
    assert From(m, i) == s.(mem := s.mem + tail);
    PutWhole(m, i, Step(s, pkt), Step(From(m, i), pkt));
  }

  /** One input: slot `i` takes its own event, if there is one, and nothing else. */
  lemma TurnAtSlot(m: Machine, x: Input, i: nat)
    requires Valid(m) && Readable([x]) && Contained(m, x.pkt) && i < FS_BUFFER_SLOT_NUM
    ensures Defined(m, x.pkt)
    ensures Turn(m, x).replies == (m.replies || Completes(Head(x.pkt)))
    ensures var es := EventAt(i, m.replies, x);
            if es == [] then SlotOf(Turn(m, x), i) == SlotOf(m, i) == SlotOf(Dispatch(m, x.pkt), i)
            else RoomFor(SlotOf(m, i), es[0]) && SlotOf(Turn(m, x), i) == Next(SlotOf(m, i), es[0])
                 && SlotOf(Dispatch(m, x.pkt), i) == Arrive(SlotOf(m, i), es[0])
  {
    hide Step, HeaderAt, PacketBuffer, Put, Refuse, SlotBytes;
    var h := Head(x.pkt);
    if HeaderOk(h) {
      ContainedStep(m, x.pkt);
      PutOwn(m, h.reserved, Step(SlotOf(m, h.reserved), x.pkt), i);
      var d := Dispatch(m, x.pkt);
      if !HasAgain(h.data0) {
        PutOwn(d, h.reserved, SlotOf(d, h.reserved).(mem := x.served), i);
        PutOwn(m, h.reserved, Step(SlotOf(m, h.reserved), x.pkt), h.reserved);
      }
    } else if h.reserved < FS_BUFFER_SLOT_NUM && m.replies {
      PutOwn(m, h.reserved, Refuse(SlotOf(m, h.reserved)), i);
    }
  }

  lemma {:induction false} EventsCons(i: nat, replies: bool, xs: seq<Input>)
    requires Readable(xs) && xs != []
    ensures Readable([xs[0]]) && Readable(xs[1..])
    ensures Events(i, replies, xs) == EventAt(i, replies, xs[0]) + Events(i, replies || Completes(Head(xs[0].pkt)), xs[1..])
  {
  }

  /**
   Each slot sees only its own events, in order, however they are interleaved with the others': as
   long as every packet is contained when it arrives, a slot's state, offset and bytes are those of
   a machine that has this slot alone.
   */
  lemma {:induction false} SlotsAreIndependent(m: Machine, xs: seq<Input>, i: nat)
    requires Valid(m) && Readable(xs) && Orderly(m, xs) && i < FS_BUFFER_SLOT_NUM
    ensures AllDefined(m, xs)
    ensures OrderlySlot(SlotOf(m, i), Events(i, m.replies, xs))
    ensures SlotOf(Run(m, xs), i) == NextAll(SlotOf(m, i), Events(i, m.replies, xs))
    decreases |xs|
  {
    hide Turn, EventAt, SlotBytes, Head, Contained, Defined, Next, RoomFor, Completes;
    if xs != [] {
      EventsCons(i, m.replies, xs);
      TurnAtSlot(m, xs[0], i);
      SlotsAreIndependent(Turn(m, xs[0]), xs[1..], i);
      EventTail(i, m.replies, xs);
    }
  }

  lemma EventTail(i: nat, replies: bool, xs: seq<Input>)
    requires Readable(xs) && xs != []
    ensures Readable([xs[0]]) && Readable(xs[1..])
    ensures var e, es, rest := EventAt(i, replies, xs[0]), Events(i, replies, xs), Events(i, replies || Completes(Head(xs[0].pkt)), xs[1..]);
            if e == [] then es == rest else es != [] && es[0] == e[0] && es[1..] == rest
  {
    EventsCons(i, replies, xs);
  }

  /** The order is kept by the whole machine if and only if every slot's own events keep it. */
  lemma {:induction false} OrderlyBySlot(m: Machine, xs: seq<Input>)
    requires Valid(m) && Readable(xs)
    ensures Orderly(m, xs) <==> forall i :: 0 <= i < FS_BUFFER_SLOT_NUM ==> OrderlySlot(SlotOf(m, i), Events(i, m.replies, xs))
    decreases |xs|
  {
    hide Turn, EventAt, SlotBytes, Head, Contained, Defined, Next, RoomFor, Completes, HeaderOk, SlotOf;
    if Orderly(m, xs) {
      forall i | 0 <= i < FS_BUFFER_SLOT_NUM
        ensures OrderlySlot(SlotOf(m, i), Events(i, m.replies, xs))
      {
        SlotsAreIndependent(m, xs, i);
      }
    } else if forall i :: 0 <= i < FS_BUFFER_SLOT_NUM ==> OrderlySlot(SlotOf(m, i), Events(i, m.replies, xs)) {
      FirstContained(m, xs);
      forall i | 0 <= i < FS_BUFFER_SLOT_NUM
        ensures OrderlySlot(SlotOf(Turn(m, xs[0]), i), Events(i, Turn(m, xs[0]).replies, xs[1..]))
      {
        TurnAtSlot(m, xs[0], i);
        EventTail(i, m.replies, xs);
      }
      OrderlyBySlot(Turn(m, xs[0]), xs[1..]);
    }
  }

  lemma FirstContained(m: Machine, xs: seq<Input>)
    requires Valid(m) && Readable(xs) && xs != []
    requires forall i :: 0 <= i < FS_BUFFER_SLOT_NUM ==> OrderlySlot(SlotOf(m, i), Events(i, m.replies, xs))
    ensures Contained(m, xs[0].pkt) && Defined(m, xs[0].pkt)
  {
    hide Turn, SlotBytes, Head, Next, Room, Step;
    var x := xs[0];
    var i := Head(x.pkt).reserved;
    if HeaderOk(Head(x.pkt)) {
      EventTail(i, m.replies, xs);
      assert OrderlySlot(SlotOf(m, i), Events(i, m.replies, xs));
      assert Contained(m, x.pkt);
      ContainedStep(m, x.pkt);
    }
  }

  /** The slot's own events up to the last packet, when that packet is the slot's. */
  lemma {:induction false} ReachedAtSlot(m: Machine, xs: seq<Input>, i: nat)
    requires Valid(m) && Readable(xs) && Orderly(m, xs) && i < FS_BUFFER_SLOT_NUM
    requires xs != [] && HeaderOk(Head(xs[|xs| - 1].pkt)) && Head(xs[|xs| - 1].pkt).reserved == i
    ensures AllDefined(m, xs)
    ensures Events(i, m.replies, xs) != [] && OrderlySlot(SlotOf(m, i), Events(i, m.replies, xs))
    ensures SlotOf(Reached(m, xs), i) == Reach(SlotOf(m, i), Events(i, m.replies, xs))
    decreases |xs|
  {
    hide Turn, SlotBytes, Head, Contained, Defined, Next, RoomFor, Completes, Dispatch, Arrive;
    SlotsAreIndependent(m, xs, i);
    EventTail(i, m.replies, xs);
    TurnAtSlot(m, xs[0], i);
    if |xs| == 1 {
      assert Events(i, m.replies || Completes(Head(xs[0].pkt)), xs[1..]) == [];
    } else {
      ReachedAtSlot(Turn(m, xs[0]), xs[1..], i);
    }
  }

  // What an accepted packet does, byte by byte

  lemma MemcpyByte(mem: seq<byte>, at: nat, data: seq<byte>, k: nat)
    requires (data == [] || at + |data| <= |mem|) && k < |mem|
    ensures Memcpy(mem, at, data)[k] == if at <= k < at + |data| then data[k - at] else mem[k]
  {
    hide Splice;
    if data != [] {
      SpliceByte(mem, at, data, k);
    }
  }

  lemma StepByte(s: Slot, h: Header, packet: seq<byte>, k: nat)
    requires |packet| == MAX_FS_BUF_BYTE && Room(s, h) && k < |s.mem|
    ensures StepOf(s, h, packet).mem[k]
         == if !s.waiting then (if k < h.data1 then packet[k] else s.mem[k])
            else if !HasAgain(h.data0) && k < 16 then packet[k]
            else if s.offset <= k && k + 20 < s.offset + h.data1 then packet[20 + (k - s.offset)]
            else s.mem[k]
  {
    hide Memcpy;
    if !s.waiting {
      MemcpyByte(s.mem, 0, packet[..h.data1], k);
    } else {
      var d := PartOf(h, packet);
      MemcpyByte(s.mem, s.offset, d, k);
      MemcpyByte(Memcpy(s.mem, s.offset, d), 0, packet[..HEADER_SIZE], k);
    }
  }

  /** The header words of a packet, in the packet buffer. */
  lemma HeadWords(pkt: seq<byte>)
    requires |pkt| <= MAX_FS_BUF_BYTE
    ensures var b, h := PacketBuffer(pkt), Head(pkt);
            && h.data0 == WordAt(b, 0) && h.data1 == WordAt(b, 4) && h.channel == WordAt(b, 8) && h.reserved == WordAt(b, 12)
    ensures HeaderOk(Head(pkt)) <==>
              var b := PacketBuffer(pkt); WordAt(b, 8) % 0x1_0000 == 14 && WordAt(b, 12) < 5 && WordAt(b, 4) <= 16604
  {
    hide PacketBuffer, WordAt;
  }

  /**
   An accepted packet, in terms of the packet buffer and the block. With `n` the size in its second word
   and `o` the offset of its slot, which starts at byte `base`: an IDLE slot gets the first n bytes; a
   WAITing one gets what follows byte 20 at o, and with the last packet the 16 bytes of the header.
   */
  lemma DispatchBytes(m: Machine, pkt: seq<byte>, k: nat)
    requires Valid(m) && |pkt| <= MAX_FS_BUF_BYTE && HeaderOk(Head(pkt)) && Defined(m, pkt) && k < 83020
    ensures var b, r, i := PacketBuffer(pkt), Dispatch(m, pkt), Head(pkt).reserved;
            var n, again, o, base := WordAt(b, 4), WordAt(b, 0) >= 0x8000_0000, m.offset[i], i * 16604;
            && r.waiting == m.waiting[i := again]
            && r.offset == m.offset[i := if !again then 0 else if !m.waiting[i] then n else if n > 20 then o + n - 20 else o]
            && r.block[k] == if !m.waiting[i] then (if base <= k < base + n then b[k - base] else m.block[k])
                             else if !again && base <= k < base + 16 then b[k - base]
                             else if base + o <= k && k + 20 < base + o + n then b[20 + (k - base - o)]
                             else m.block[k]
  {
    hide PacketBuffer, StepOf, Splice, WordAt, Head;
    HeadWords(pkt);
    var h, b := Head(pkt), PacketBuffer(pkt);
    var i := h.reserved;
    var base, s := i * SLOT_SIZE, From(m, i);
    var t := StepOf(s, h, b);
    StepState(s, h, b);
    SpliceByte(m.block, base, t.mem, k);
    if k >= base {
      StepByte(s, h, b, k - base);
    }
  }

  lemma StepState(s: Slot, h: Header, packet: seq<byte>)
    requires |packet| == MAX_FS_BUF_BYTE && Room(s, h)
    ensures var t, again := StepOf(s, h, packet), h.data0 >= 0x8000_0000;
            && t.waiting == again
            && t.offset == (if !again then 0 else if !s.waiting then s.offset + h.data1
                            else if h.data1 > 20 then s.offset + h.data1 - 20 else s.offset)
  {
    hide Memcpy;
  }

  /** A packet that fails the check changes nothing, or the first 32 bytes of the slot it names. */
  lemma RefusedBytes(m: Machine, pkt: seq<byte>, k: nat)
    requires Valid(m) && |pkt| <= MAX_FS_BUF_BYTE && !HeaderOk(Head(pkt)) && k < 83020
    ensures var b, r := PacketBuffer(pkt), Dispatch(m, pkt);
            var i := WordAt(b, 12);
            && r.waiting == m.waiting && r.offset == m.offset
            && if !m.replies || i >= 5 then r.block == m.block
               else if i * 16604 + 20 <= k < i * 16604 + 32
               then r.block[k] == [1, 0, 0, 0, 4, 0, 0, 0, 0xFE, 0xFF, 0xFF, 0xFF][k - (i * 16604 + 20)]
               else i * 16604 <= k < i * 16604 + 32 || r.block[k] == m.block[k]
  {
    hide PacketBuffer, Splice, WordAt, Head, Replied;
    HeadWords(pkt);
    var i := Head(pkt).reserved;
    if m.replies && i < FS_BUFFER_SLOT_NUM {
      var was, mem := SlotBytes(m.block, i), Refuse(SlotOf(m, i)).mem;
      RefusalOverwrites(was);
      SpliceByte(m.block, i * SLOT_SIZE, mem, k);
      var p := k - i * SLOT_SIZE;
      if 0 <= p < SLOT_SIZE {
        SlotByte(m.block, i, p);
        if 20 <= p < 32 {
          assert mem[p] == mem[20..32][p - 20];
        }
      }
    }
  }

  // Overruns

  /**
   An accepted packet's copies leave its slot exactly when the slot is WAITing, the packet carries
   data, and the data would end past the slot. Only then can another slot change, and then the last
   byte of the packet does land behind the slot.
   */
  lemma OverrunExactly(m: Machine, pkt: seq<byte>)
    requires Valid(m) && |pkt| <= MAX_FS_BUF_BYTE && HeaderOk(Head(pkt)) && Defined(m, pkt)
    ensures var h, i := Head(pkt), Head(pkt).reserved;
            var end := m.offset[i] + h.data1 - OVERHEAD;
            if m.waiting[i] && h.data1 > OVERHEAD && end > SLOT_SIZE
            then i * SLOT_SIZE + end <= BLOCK_SIZE
                 && Dispatch(m, pkt).block[i * SLOT_SIZE + end - 1] == PacketBuffer(pkt)[h.data1 - 1]
            else Contained(m, pkt) && OtherSlotsSame(Dispatch(m, pkt).block, m.block, i)
  {
    var h, i := Head(pkt), Head(pkt).reserved;
    hide HeaderAt, PacketBuffer, Splice, SlotBytes, Head;
    if m.waiting[i] && h.data1 > OVERHEAD && m.offset[i] + h.data1 - OVERHEAD > SLOT_SIZE {
      OverrunByte(m, pkt);
    } else {
      ContainedStep(m, pkt);
      hide Put, Step;
      forall j | 0 <= j < FS_BUFFER_SLOT_NUM && j != i
        ensures SlotBytes(Dispatch(m, pkt).block, j) == SlotBytes(m.block, j)
      {
        PutOwn(m, i, Step(SlotOf(m, i), pkt), j);
      }
    }
  }

  lemma OverrunByte(m: Machine, pkt: seq<byte>)
    requires Valid(m) && |pkt| <= MAX_FS_BUF_BYTE && HeaderOk(Head(pkt)) && Defined(m, pkt)
    requires m.waiting[Head(pkt).reserved] && Head(pkt).data1 > OVERHEAD
    requires m.offset[Head(pkt).reserved] + Head(pkt).data1 - OVERHEAD > SLOT_SIZE
    ensures var h, i := Head(pkt), Head(pkt).reserved;
            var end := m.offset[i] + h.data1 - OVERHEAD;
            && i * SLOT_SIZE + end <= BLOCK_SIZE
            && Dispatch(m, pkt).block[i * SLOT_SIZE + end - 1] == PacketBuffer(pkt)[h.data1 - 1]
  {
    hide HeaderAt, PacketBuffer, Splice, Head;
    var h, i := Head(pkt), Head(pkt).reserved;
    var s, d := From(m, i), PartOf(Head(pkt), PacketBuffer(pkt));
    var at := s.offset + |d| - 1;
    var t := Step(s, pkt);
    var mem := Splice(s.mem, s.offset, d);
    SpliceByte(s.mem, s.offset, d, at);
    SpliceByte(mem, 0, PacketBuffer(pkt)[..HEADER_SIZE], at);
    assert t.mem[at] == d[|d| - 1];
    SpliceByte(m.block, i * SLOT_SIZE, t.mem, i * SLOT_SIZE + at);
  }
}

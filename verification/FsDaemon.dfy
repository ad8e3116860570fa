/**
 The daemon's buffers: one block of memory cut into five message slots. `FS_WriteToMD` packs a
 reply into a slot and sends it, overlaying packet headers on payload bytes already sent; the main
 loop reassembles requests into the slots.
 */
module FsDaemon {
  import opened Arithmetic
  import opened Bytes
  import opened FsMessage
  import opened FsSlots
  import opened FsPacking
  import opened FsReassembly
  import opened FsDelivery

  datatype Received = More | Request(slot: nat) | Answered | ModemAssert

  class FsInfo {
    const buf: array<byte>
    const waiting: array<bool>      // fs_buff_state[i] == FS_BUFF_WAIT
    const offset: array<nat>        // fs_buff_offset
    var replies: bool               // pFsBuf of the main loop is not NULL

    ghost predicate Valid()
      reads waiting, offset
    {
      && buf.Length == BLOCK_SIZE
      && waiting.Length == FS_BUFFER_SLOT_NUM
      && offset.Length == FS_BUFFER_SLOT_NUM
      && forall i :: 0 <= i < FS_BUFFER_SLOT_NUM && !waiting[i] ==> offset[i] == 0
    }

    /** All slots start zeroed and IDLE with offset 0; pFsBuf is whatever it happens to be. */
    constructor (replies: bool)
      ensures Valid() && fresh(buf) && fresh(waiting) && fresh(offset) && this.replies == replies
      ensures forall i :: 0 <= i < FS_BUFFER_SLOT_NUM ==> !waiting[i] && offset[i] == 0
      ensures forall k :: 0 <= k < BLOCK_SIZE ==> buf[k] == 0
    {
      this.replies := replies;
      buf := new byte[BLOCK_SIZE](_ => 0);
      waiting := new bool[FS_BUFFER_SLOT_NUM](_ => false);
      offset := new nat[FS_BUFFER_SLOT_NUM](_ => 0);
    }

    /** The state as the state machine sees it. */
    ghost function M(): (m: Machine)
      requires Valid()
      reads this, buf, waiting, offset
      ensures FsReassembly.Valid(m)
    {
      Machine(buf[..], waiting[..], offset[..], replies)
    }

    /** memcpy into slot `i`. */
    method Store(i: nat, at: nat, t: seq<byte>)
      requires Valid() && i < FS_BUFFER_SLOT_NUM && at + |t| <= SLOT_SIZE
      modifies buf
      ensures SlotBytes(buf[..], i) == Splice(old(SlotBytes(buf[..], i)), at, t)
      ensures OtherSlotsSame(buf[..], old(buf[..]), i)
    {
      var b := i * SLOT_SIZE + at;
      SpliceInSlot(buf[..], i, at, t);
      forall k | 0 <= k < |t| {
        buf[b + k] := t[k];
      }
      assert buf[..] == Splice(old(buf[..]), b, t);
    }

    /** The 32-bit word at offset `at` of slot `i`. */
    method LoadWord(i: nat, at: nat) returns (w: uint32)
      requires Valid() && i < FS_BUFFER_SLOT_NUM && at + 4 <= SLOT_SIZE
      ensures w == WordAt(SlotBytes(buf[..], i), at)
    {
      hide WordOf;
      var b := i * SLOT_SIZE + at;
      WordInSlot(buf[..], i, at);
      w := WordOf(buf[b], buf[b + 1], buf[b + 2], buf[b + 3]);
    }

    /** Bytes `lo` up to `hi` of slot `i`. */
    method Load(i: nat, lo: nat, hi: nat) returns (t: seq<byte>)
      requires Valid() && i < FS_BUFFER_SLOT_NUM && lo <= hi <= SLOT_SIZE
      ensures t == SlotBytes(buf[..], i)[lo..hi]
    {
      SliceInSlot(buf[..], i, lo, hi);
      t := buf[i * SLOT_SIZE + lo..i * SLOT_SIZE + hi];
    }

    /** memcpy to offset `at` from the start of slot `i`; the end of the slot does not stop it. */
    method CopyFrom(i: nat, at: nat, t: seq<byte>)
      requires Valid() && i < FS_BUFFER_SLOT_NUM && (t == [] || i * SLOT_SIZE + at + |t| <= BLOCK_SIZE)
      modifies buf
      ensures buf[..i * SLOT_SIZE] == old(buf[..i * SLOT_SIZE])
      ensures buf[i * SLOT_SIZE..] == Memcpy(old(buf[i * SLOT_SIZE..]), at, t)
    {
      var b := i * SLOT_SIZE + at;
      forall k | 0 <= k < |t| {
        buf[b + k] := t[k];
      }
    }

    /** data[0] and data[1] of a header at offset `at`. */
    method StoreData(i: nat, at: nat, data0: uint32, data1: uint32)
      requires Valid() && i < FS_BUFFER_SLOT_NUM && at + 8 <= SLOT_SIZE
      modifies buf
      ensures var s := old(SlotBytes(buf[..], i));
              && SlotBytes(buf[..], i) == Splice(s, at, Word(data0) + Word(data1))
              && Agree(SlotBytes(buf[..], i), s, 0, at) && Agree(SlotBytes(buf[..], i), s, at + 8, SLOT_SIZE)
      ensures OtherSlotsSame(buf[..], old(buf[..]), i)
    {
      hide Word, SlotBytes, Splice;
      ghost var s := SlotBytes(buf[..], i);
      Store(i, at, Word(data0));
      Store(i, at + 4, Word(data1));
      SpliceJoined(s, at, Word(data0), Word(data1));
      SpliceRead(s, at, Word(data0) + Word(data1));
    }

    /**
     `FS_PreparePktEx`: saves the 20 bytes before the data of the next packet and writes that
     packet's header and operation id over them. The header fields come from the slot's own
     header, which for the first packet is the very place being written.
     */
    method PreparePktEx(i: nat, at: nat, dataToSend: nat, op: uint32, again: bool) returns (bak: seq<byte>)
      requires Valid() && i < FS_BUFFER_SLOT_NUM && dataToSend <= MAX_FS_PKT_BYTE
      requires (at == 0 || OVERHEAD <= at) && at + OVERHEAD <= SLOT_SIZE
      modifies buf
      ensures bak == old(SlotBytes(buf[..], i))[at..at + OVERHEAD]
      ensures var s := old(SlotBytes(buf[..], i));
              SlotBytes(buf[..], i)
              == Splice(s, at, HeaderBytes(PacketHeader(HeaderAt(s, 0), dataToSend, again)) + Word(op))
      ensures OtherSlotsSame(buf[..], old(buf[..]), i)
    {
      hide Word, WordOf, SlotBytes, Splice, HeaderBytes, HeaderAt, PacketHeader, SetAgain, ClearAgain;
      ghost var s := SlotBytes(buf[..], i);
      OverlayIsHeader(s, dataToSend, op, again);
      bak := Load(i, at, at + OVERHEAD);
      var data0 := LoadWord(i, 0);
      var flagged := if again then SetAgain(data0) else ClearAgain(data0);
      StoreData(i, at, flagged, dataToSend + OVERHEAD);
      ghost var s2 := SlotBytes(buf[..], i);
      AgreeWord(s2, s, 8);
      var channel := LoadWord(i, 8);
      Store(i, at + 8, Word(channel));
      SpliceRead(s2, at + 8, Word(channel));
      ghost var s3 := SlotBytes(buf[..], i);
      AgreeWord(s3, s, 12);
      var reserved := LoadWord(i, 12);
      Store(i, at + 12, Word(reserved));
      Store(i, at + 16, Word(op));
      FourParts(s, at, Word(flagged) + Word(dataToSend + OVERHEAD), Word(channel), Word(reserved), Word(op));
    }

    /** `FS_PreparePktDone`: the saved bytes go back. */
    method PreparePktDone(i: nat, at: nat, bak: seq<byte>)
      requires Valid() && i < FS_BUFFER_SLOT_NUM && at + |bak| <= SLOT_SIZE
      modifies buf
      ensures SlotBytes(buf[..], i) == Splice(old(SlotBytes(buf[..], i)), at, bak)
      ensures OtherSlotsSame(buf[..], old(buf[..]), i)
    {
      Store(i, at, bak);
    }

    /**
     The fragment loop of `FS_WriteToMD`: the packets written to the device are exactly the
     fragments of the slot's message, and every overlay is undone.
     */
    method SendFragments(i: nat, dataLen: nat) returns (sent: seq<seq<byte>>)
      requires Valid() && i < FS_BUFFER_SLOT_NUM
      requires MAX_FS_PKT_BYTE < dataLen && OVERHEAD + dataLen <= SLOT_SIZE
      modifies buf
      ensures SlotBytes(buf[..], i) == old(SlotBytes(buf[..], i))
      ensures OtherSlotsSame(buf[..], old(buf[..]), i)
      ensures var s := old(SlotBytes(buf[..], i));
              sent == Fragments(HeaderAt(s, 0), WordAt(s, HEADER_SIZE), s[OVERHEAD..OVERHEAD + dataLen])
    {
      hide Word, WordOf, SlotBytes, Splice, HeaderBytes, HeaderAt;
      ghost var s := SlotBytes(buf[..], i);
      ghost var h, op0 := HeaderAt(s, 0), WordAt(s, HEADER_SIZE);
      ghost var payload := s[OVERHEAD..OVERHEAD + dataLen];
      var dataSent := 0;
      sent := [];
      assert payload[0..] == payload;
      while dataSent < dataLen
        invariant 0 <= dataSent <= dataLen
        invariant dataSent == 0 || OVERHEAD <= dataSent
        invariant SlotBytes(buf[..], i) == s
        invariant OtherSlotsSame(buf[..], old(buf[..]), i)
        invariant if dataSent < dataLen then sent + Fragments(h, op0, payload[dataSent..]) == Fragments(h, op0, payload)
                  else sent == Fragments(h, op0, payload)
      {
        var dataToSend: nat;
        var op := LoadWord(i, HEADER_SIZE);
        var bak: seq<byte>;
        var again := dataLen - dataSent > MAX_FS_PKT_BYTE;
        if again {
          dataToSend := MAX_FS_PKT_BYTE;
          bak := PreparePktEx(i, dataSent, dataToSend, op, true);
        } else {
          dataToSend := dataLen - dataSent;
          bak := PreparePktEx(i, dataSent, dataToSend, op, false);
        }
        var packet := Load(i, dataSent, dataSent + OVERHEAD + dataToSend);
        ghost var part := payload[dataSent..dataSent + dataToSend];
        OverlaidPacket(s, dataSent, HeaderBytes(PacketHeader(h, dataToSend, again)) + Word(op), dataToSend, payload);
        assert packet == Packet(h, op0, part, again);
        FragmentsUnfold(h, op0, payload, dataSent, sent);
        sent := sent + [packet];
        PreparePktDone(i, dataSent, bak);
        SpliceUndone(s, dataSent, HeaderBytes(PacketHeader(h, dataToSend, again)) + Word(op));
        dataSent := dataSent + dataToSend;
      }
    }

    /** The bytes of an argument, as they are when it is packed. */
    method Source(i: nat, a: Arg) returns (bytes: seq<byte>)
      requires Valid() && i < FS_BUFFER_SLOT_NUM && (a.InSlot? ==> a.at + a.length <= SLOT_SIZE)
      ensures bytes == Value(SlotBytes(buf[..], i), a)
    {
      match a
      case Copied(b) => bytes := b;
      case InSlot(at, length) => bytes := Load(i, at, at + length);
    }

    /** One argument: its length, then its bytes unless they are in place already. */
    method PackArg(i: nat, a: Arg, dataLength: nat)
      requires Valid() && i < FS_BUFFER_SLOT_NUM && dataLength + 8 + Length(a) <= FS_MAX_BUF_SIZE && SourceOk(a, dataLength)
      modifies buf
      ensures OtherSlotsSame(buf[..], old(buf[..]), i)
      ensures SlotBytes(buf[..], i) == PackOne(old(SlotBytes(buf[..], i)), a, dataLength)
    {
      hide Word, SlotBytes, Splice;
      Store(i, dataLength, Word(Length(a)));
      if !(a.InSlot? && a.at == dataLength + 4) {
        var bytes := Source(i, a);
        Store(i, dataLength + 4, bytes);
      }
    }

    /** The packing loop of `FS_WriteToMD`: stops at the first argument that does not pass the space check. */
    method PackArgs(i: nat, args: seq<Arg>) returns (ok: bool, dataLength: nat)
      requires Valid() && i < FS_BUFFER_SLOT_NUM && |args| < WORD_LIMIT
      requires SourcesOk(args, FIRST_ARG)
      requires forall k :: 0 <= k < |args| ==> Length(args[k]) < SEND_AGAIN
      modifies buf
      ensures OtherSlotsSame(buf[..], old(buf[..]), i)
      ensures ok <==> Fits(Lengths(args), FIRST_ARG)
      ensures ok ==> dataLength == End(Lengths(args), FIRST_ARG) <= FS_MAX_BUF_SIZE
      ensures ok ==> SlotBytes(buf[..], i) == Message(old(SlotBytes(buf[..], i)), args)
      ensures Agree(SlotBytes(buf[..], i), old(SlotBytes(buf[..], i)), 0, OVERHEAD)
    {
      hide Word, WordOf, SlotBytes, Splice, Align, PackOne, Value;
      ghost var s := SlotBytes(buf[..], i);
      Store(i, OVERHEAD, Word(|args|));
      SpliceRead(s, OVERHEAD, Word(|args|));
      dataLength := FIRST_ARG;
      var k := 0;
      assert args[0..] == args;
      while k < |args|
        invariant 0 <= k <= |args| && FIRST_ARG <= dataLength <= FS_MAX_BUF_SIZE
        invariant OtherSlotsSame(buf[..], old(buf[..]), i)
        invariant Fits(Lengths(args), FIRST_ARG) <==> Fits(Lengths(args[k..]), dataLength)
        invariant SourcesOk(args[k..], dataLength)
        invariant Fits(Lengths(args), FIRST_ARG) ==>
                    && Pack(SlotBytes(buf[..], i), args[k..], dataLength) == Message(s, args)
                    && End(Lengths(args), FIRST_ARG) == End(Lengths(args[k..]), dataLength)
        invariant Agree(SlotBytes(buf[..], i), s, 0, OVERHEAD)
      {
        var a := args[k];
        assert args[k..][0] == a && args[k..][1..] == args[k + 1..];
        LengthsTail(args[k..]);
        if (dataLength + 2 * 4 + Length(a)) % WORD_LIMIT > FS_MAX_BUF_SIZE {
          return false, dataLength;
        }
        ghost var t := SlotBytes(buf[..], i);
        PackArg(i, a, dataLength);
        PackOneLays(t, a, dataLength);
        dataLength := dataLength + 4 + Align(Length(a));
        k := k + 1;
      }
      ok := true;
      assert args[k..] == [];
    }

    /**
     `FS_WriteToMD` in stream mode, with every device write complete: marks the operation id as a
     response, packs the arguments, and sends the payload in one packet or in fragments.
     */
    method WriteToMD(i: nat, args: seq<Arg>) returns (ok: bool, sent: seq<seq<byte>>)
      requires Valid() && i < FS_BUFFER_SLOT_NUM && |args| < WORD_LIMIT
      requires SourcesOk(args, FIRST_ARG)
      requires forall k :: 0 <= k < |args| ==> Length(args[k]) < SEND_AGAIN
      modifies buf
      ensures OtherSlotsSame(buf[..], old(buf[..]), i)
      ensures ok <==> Fits(Lengths(args), FIRST_ARG)
      ensures !ok ==> sent == []
      ensures ok ==>
                var s := old(SlotBytes(buf[..], i));
                && SlotBytes(buf[..], i) == Replied(s, args)
                && sent == ReplyPackets(s, args)
                && WordAt(SlotBytes(buf[..], i), 16) % 0x1_0000 == WordAt(s, 16) % 0x1_0000
                && WordAt(SlotBytes(buf[..], i), 16) / 0x1_0000 == 0xFFFF
                && |sent| == (End(Lengths(args), 24) - 20 + 3455) / 3456
                && forall k :: 0 <= k < |sent| ==> Answers(sent[k], s, k == |sent| - 1)
    {
      hide Word, WordOf, SlotBytes, Splice, Message, Fits, SourcesOk, End, Lengths, Answers;
      ghost var s := SlotBytes(buf[..], i);
      var op := LoadWord(i, HEADER_SIZE);
      Store(i, HEADER_SIZE, Word(ResponseId(op)));
      SpliceWord(s, HEADER_SIZE, ResponseId(op));
      ghost var s1 := SlotBytes(buf[..], i);
      var dataLength;
      ok, dataLength := PackArgs(i, args);
      sent := [];
      if !ok {
        return;
      }
      RepliesAnswer(s, args);
      RepliedId(s, args);
      ghost var m := SlotBytes(buf[..], i);
      AgreeWord(m, s1, HEADER_SIZE);
      SameHeader(m, s);
      var dataLen := dataLength - OVERHEAD;
      var channel := LoadWord(i, 8);
      Store(i, 8, Word((channel + 1) % WORD_LIMIT));
      ghost var m1 := SlotBytes(buf[..], i);
      SpliceWord(m, 8, (channel + 1) % WORD_LIMIT);
      ChannelBumped(m, m1, (channel + 1) % WORD_LIMIT);
      AgreeSlice(m1, m, OVERHEAD, dataLength);
      if dataLen <= MAX_FS_PKT_BYTE {
        var data0 := LoadWord(i, 0);
        StoreData(i, 0, ClearAgain(data0), dataLength);
        SpliceJoined(m1, 0, Word(ClearAgain(data0)), Word(dataLength));
        var packet := Load(i, 0, dataLength);
        SinglePacket(m1, data0, dataLength, packet);
        sent := [packet];
      } else {
        sent := SendFragments(i, dataLen);
      }
    }

    /**
     One pass of the reading loop of `main`. A packet that passes the header check goes through the
     IDLE/WAIT machine of its slot; a packet that fails it is answered from the slot it names, or,
     when there is none or pFsBuf is NULL, the modem is made to assert. The sender keeps the copies
     inside packet buffer and block.
     */
    method Receive(pkt: seq<byte>) returns (r: Received, sent: seq<seq<byte>>)
      requires Valid() && |pkt| <= MAX_FS_BUF_BYTE && Defined(M(), pkt)
      modifies this, buf, waiting, offset
      ensures Valid()
      ensures M() == Dispatch(old(M()), pkt).(replies := old(replies) || Completes(Head(pkt)))
      ensures var b := PacketBuffer(pkt);
              r == if WordAt(b, 8) % 0x1_0000 == 14 && WordAt(b, 12) < 5 && WordAt(b, 4) <= 16604
                   then (if WordAt(b, 0) >= 0x8000_0000 then More else Request(WordAt(b, 12)))
                   else if WordAt(b, 12) < 5 && old(replies) then Answered else ModemAssert
      ensures sent == if r.Answered? then ReplyPackets(old(SlotBytes(buf[..], Head(pkt).reserved)), REFUSAL) else []
    {
      hide Head, PacketBuffer, SlotBytes, Splice, Memcpy, Replied, ReplyPackets, WordAt;
      HeadWords(pkt);
      var packet := PacketBuffer(pkt);
      var h := Head(pkt);
      ghost var m := M();
      sent := [];
      if !HeaderOk(h) {
        if h.reserved >= FS_BUFFER_SLOT_NUM || !replies {
          return ModemAssert, [];
        }
        RefusalSendable();
        var ok;
        ok, sent := WriteToMD(h.reserved, REFUSAL);
        OneSlotChanged(buf[..], m.block, h.reserved);
        return Answered, sent;
      }
      r := Accept(h, packet);
      if r.Request? {
        replies := true;
      }
    }

    /** The IDLE/WAIT machine: copies, state and offset. */
    method Accept(h: Header, packet: seq<byte>) returns (r: Received)
      requires Valid() && |packet| == MAX_FS_BUF_BYTE && HeaderOk(h)
      requires Room(From(M(), h.reserved), h)
      modifies buf, waiting, offset
      ensures Valid()
      ensures M() == Put(old(M()), h.reserved, StepOf(old(From(M(), h.reserved)), h, packet))
      ensures r == if HasAgain(h.data0) then More else Request(h.reserved)
    {
      hide HeaderAt, SlotBytes, Splice, Memcpy;
      var i := h.reserved;
      ghost var m, s := M(), From(M(), i);
      ghost var t := StepOf(s, h, packet);
      if !HasAgain(h.data0) {
        if !waiting[i] {
          CopyFrom(i, 0, packet[..h.data1]);
        } else {
          if h.data1 > OVERHEAD {
            CopyFrom(i, offset[i], packet[OVERHEAD..h.data1]);
          }
          assert buf[i * SLOT_SIZE..] == Memcpy(s.mem, s.offset, PartOf(h, packet)) by {
            MemcpyNothing(s.mem, s.offset);
          }
          CopyFrom(i, 0, packet[..HEADER_SIZE]);
        }
        waiting[i] := false;
        offset[i] := 0;
        r := Request(i);
      } else {
        if !waiting[i] {
          CopyFrom(i, 0, packet[..h.data1]);
          offset[i] := offset[i] + h.data1;
        } else {
          CopyFrom(i, offset[i], packet[OVERHEAD..h.data1]);
          offset[i] := offset[i] + (h.data1 - OVERHEAD);
        }
        waiting[i] := true;
        r := More;
      }
      assert buf[..i * SLOT_SIZE] == m.block[..i * SLOT_SIZE];
      assert buf[i * SLOT_SIZE..] == t.mem;
      PutFrom(m, i, t, buf[..]);
    }
  }

  /** The packets of a reply. */
  function ReplyPackets(s: seq<byte>, args: seq<Arg>): (ps: seq<seq<byte>>)
    requires |s| == SLOT_SIZE && Sendable(args)
  {
    var h := HeaderAt(s, 0);
    Fragments(h.(channel := (h.channel + 1) % WORD_LIMIT), ResponseId(WordAt(s, HEADER_SIZE)), Payload(Marked(s), args))
  }

  /** Packet `p` answers the request in slot `s`: the words of its header and its operation id. */
  ghost predicate Answers(p: seq<byte>, s: seq<byte>, last: bool)
    requires |s| == SLOT_SIZE
  {
    && 20 < |p| <= 3476 && (!last ==> |p| == 3476)
    && WordAt(p, 0) / 0x8000_0000 == (if last then 0 else 1)
    && WordAt(p, 0) % 0x8000_0000 == WordAt(s, 0) % 0x8000_0000
    && WordAt(p, 4) == |p|
    && WordAt(p, 8) == (WordAt(s, 8) + 1) % 0x1_0000_0000
    && WordAt(p, 12) == WordAt(s, 12)
    && WordAt(p, 16) % 0x1_0000 == WordAt(s, 16) % 0x1_0000 && WordAt(p, 16) / 0x1_0000 == 0xFFFF
  }

  /** Every packet of a reply answers the request that the slot held. */
  lemma RepliesAnswer(s: seq<byte>, args: seq<Arg>)
    requires |s| == SLOT_SIZE && Sendable(args)
    ensures var ps := ReplyPackets(s, args);
            && |ps| == (End(Lengths(args), 24) - 20 + 3455) / 3456
            && forall k :: 0 <= k < |ps| ==> Answers(ps[k], s, k == |ps| - 1)
  {
    hide WordAt, Word, Payload, Fragments, DataOf, Lengths, SourcesOk, Fits, ResponseId, SetAgain, ClearAgain;
    var ps, op, payload := ReplyPackets(s, args), WordAt(s, HEADER_SIZE), Payload(Marked(s), args);
    var h := HeaderAt(s, 0).(channel := (WordAt(s, 8) + 1) % WORD_LIMIT);
    FragmentsOfMessage(h, ResponseId(op), payload);
    ResponseIdHalves(op);
    forall k | 0 <= k < |ps|
      ensures Answers(ps[k], s, k == |ps| - 1)
    {
      assert IsPartOf(h, ResponseId(op), ps[k], k < |ps| - 1);
      FlagWord(WordAt(ps[k], 0), h.data0);
    }
  }

  lemma FlagWord(w: uint32, v: uint32)
    requires ClearAgain(w) == ClearAgain(v)
    ensures w / 0x8000_0000 == (if HasAgain(w) then 1 else 0) && w % 0x8000_0000 == v % 0x8000_0000
  {
  }

  lemma SameHeader(s: seq<byte>, t: seq<byte>)
    requires Agree(s, t, 0, HEADER_SIZE)
    ensures HeaderAt(s, 0) == HeaderAt(t, 0)
  {
    AgreeWord(s, t, 0);
    AgreeWord(s, t, 4);
    AgreeWord(s, t, 8);
    AgreeWord(s, t, 12);
  }

  lemma ChannelBumped(m: seq<byte>, r: seq<byte>, c: uint32)
    requires |m| == SLOT_SIZE && r == Splice(m, 8, Word(c))
    ensures HeaderAt(r, 0) == HeaderAt(m, 0).(channel := c) && WordAt(r, HEADER_SIZE) == WordAt(m, HEADER_SIZE)
  {
    hide Word, WordOf, Splice;
    SpliceWord(m, 8, c);
    AgreeWord(r, m, 0);
    AgreeWord(r, m, 4);
    AgreeWord(r, m, 12);
    AgreeWord(r, m, HEADER_SIZE);
  }

  /** A slot with its flag cleared and its length stored is itself the only packet. */
  lemma SinglePacket(m: seq<byte>, data0: uint32, dataLength: nat, packet: seq<byte>)
    requires |m| == SLOT_SIZE && OVERHEAD <= dataLength <= OVERHEAD + MAX_FS_PKT_BYTE && data0 == WordAt(m, 0)
    requires packet == Splice(Splice(m, 0, Word(ClearAgain(data0))), 4, Word(dataLength))[0..dataLength]
    ensures [packet] == Fragments(HeaderAt(m, 0), WordAt(m, HEADER_SIZE), m[OVERHEAD..dataLength])
  {
    hide Word, WordOf;
    var h, op := HeaderAt(m, 0), WordAt(m, HEADER_SIZE);
    SpliceJoined(m, 0, Word(ClearAgain(data0)), Word(dataLength));
    WordRebuilt(m, 8);
    WordRebuilt(m, 12);
    WordRebuilt(m, 16);
    var part := m[OVERHEAD..dataLength];
    assert packet == Word(ClearAgain(data0)) + Word(dataLength) + m[8..12] + m[12..16] + m[16..20] + part;
    assert packet == Packet(h, op, part, false);
  }

  lemma FourParts(s: seq<byte>, at: nat, ab: seq<byte>, c: seq<byte>, d: seq<byte>, e: seq<byte>)
    requires at + 20 <= |s| && |ab| == 8 && |c| == |d| == |e| == 4
    ensures Splice(Splice(Splice(Splice(s, at, ab), at + 8, c), at + 12, d), at + 16, e) == Splice(s, at, ab + c + d + e)
  {
    hide Splice;
    SpliceJoined(s, at, ab, c);
    SpliceJoined(s, at, ab + c, d);
    SpliceJoined(s, at, ab + c + d, e);
  }

  lemma OverlayIsHeader(s: seq<byte>, n: nat, op: uint32, again: bool)
    requires |s| == SLOT_SIZE && n <= MAX_FS_PKT_BYTE
    ensures HeaderBytes(PacketHeader(HeaderAt(s, 0), n, again)) + Word(op)
         == Word(if again then SetAgain(WordAt(s, 0)) else ClearAgain(WordAt(s, 0))) + Word(n + OVERHEAD)
            + Word(WordAt(s, 8)) + Word(WordAt(s, 12)) + Word(op)
  {
  }

  /** A header laid over the bytes before its data makes one packet. */
  lemma OverlaidPacket(s: seq<byte>, at: nat, head: seq<byte>, n: nat, payload: seq<byte>)
    requires |head| == OVERHEAD && OVERHEAD + |payload| <= |s| && payload == s[OVERHEAD..OVERHEAD + |payload|]
    requires at + n <= |payload|
    ensures Splice(s, at, head)[at..at + OVERHEAD + n] == head + payload[at..at + n]
  {
    var r := Splice(s, at, head);
    SpliceRead(s, at, head);
    hide Splice;
    assert r[at..at + OVERHEAD + n] == r[at..at + OVERHEAD] + r[at + OVERHEAD..at + OVERHEAD + n];
    AgreeSlice(r, s, at + OVERHEAD, at + OVERHEAD + n);
    SliceOfSlice(s, OVERHEAD, OVERHEAD + |payload|, at, at + n);
  }

  /** One turn of the loop takes one packet off the rest of the message. */
  lemma FragmentsUnfold(h: Header, op: uint32, payload: seq<byte>, at: nat, sent: seq<seq<byte>>)
    requires at < |payload| && sent + Fragments(h, op, payload[at..]) == Fragments(h, op, payload)
    ensures |payload| - at > MAX_FS_PKT_BYTE ==>
              sent + [Packet(h, op, payload[at..at + MAX_FS_PKT_BYTE], true)] + Fragments(h, op, payload[at + MAX_FS_PKT_BYTE..])
              == Fragments(h, op, payload)
    ensures |payload| - at <= MAX_FS_PKT_BYTE ==>
              sent + [Packet(h, op, payload[at..], false)] == Fragments(h, op, payload)
    ensures payload[at..] == payload[at..|payload|]
  {
    hide Packet;
    var rest := payload[at..];
    if |rest| > MAX_FS_PKT_BYTE {
      assert rest[..MAX_FS_PKT_BYTE] == payload[at..at + MAX_FS_PKT_BYTE];
      assert rest[MAX_FS_PKT_BYTE..] == payload[at + MAX_FS_PKT_BYTE..];
      assert Fragments(h, op, rest) == [Packet(h, op, rest[..MAX_FS_PKT_BYTE], true)] + Fragments(h, op, rest[MAX_FS_PKT_BYTE..]);
    }
  }

  lemma MemcpyNothing(mem: seq<byte>, at: nat)
    ensures Memcpy(mem, at, []) == mem
  {
  }

  lemma PutFrom(m: Machine, i: nat, s: Slot, block: seq<byte>)
    requires FsReassembly.Valid(m) && i < FS_BUFFER_SLOT_NUM && i * SLOT_SIZE + |s.mem| == BLOCK_SIZE == |block|
    requires block[..i * SLOT_SIZE] == m.block[..i * SLOT_SIZE] && block[i * SLOT_SIZE..] == s.mem
    ensures Put(m, i, s).block == block
  {
    var b := i * SLOT_SIZE;
    assert m.block[b + |s.mem|..] == [];
    assert block == block[..b] + block[b..];
  }
}

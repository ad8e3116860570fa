/**
 Messages between the modem and the file system daemon: a CCCI header, an operation id and a
 payload, sent as one packet or as several.
 */
module FsMessage {
  import opened Bytes

  const HEADER_SIZE: nat := 16                 // sizeof(CCCI_BUFF_T)
  const OVERHEAD: nat := 20                    // header and operation id
  const MAX_FS_PKT_BYTE: nat := 3456           // 3584 - 128
  const FS_MAX_BUF_SIZE: nat := 16584          // 16 + 4 + 4 + 48 + 0x4000 + 128
  const SLOT_SIZE: nat := 16604                // sizeof(STREAM_DATA) + FS_MAX_BUF_SIZE
  const FS_BUFFER_SLOT_NUM: nat := 5
  const SEND_AGAIN: int := 0x8000_0000

  datatype Header = Header(data0: uint32, data1: uint32, channel: uint32, reserved: uint32)

  function SetAgain(w: uint32): uint32 {
    if w >= SEND_AGAIN then w else w + SEND_AGAIN
  }

  function ClearAgain(w: uint32): uint32 {
    if w >= SEND_AGAIN then w - SEND_AGAIN else w
  }

  predicate HasAgain(w: uint32) {
    w >= SEND_AGAIN
  }

  function HeaderBytes(h: Header): (s: seq<byte>)
    ensures |s| == HEADER_SIZE
  {
    Word(h.data0) + Word(h.data1) + Word(h.channel) + Word(h.reserved)
  }

  function HeaderAt(s: seq<byte>, i: nat): Header
    requires i + HEADER_SIZE <= |s|
  {
    Header(WordAt(s, i), WordAt(s, i + 4), WordAt(s, i + 8), WordAt(s, i + 12))
  }

  lemma HeaderReadBack(h: Header, rest: seq<byte>)
    ensures HeaderAt(HeaderBytes(h) + rest, 0) == h
  {
    WordReadBack(h.data0);
    WordReadBack(h.data1);
    WordReadBack(h.channel);
    WordReadBack(h.reserved);
    hide WordOf, Word;
    var s := HeaderBytes(h) + rest;
    assert s[0..4] == Word(h.data0) && s[4..8] == Word(h.data1) && s[8..12] == Word(h.channel) && s[12..16] == Word(h.reserved);
    assert s[0] == s[0..4][0] && s[1] == s[0..4][1] && s[2] == s[0..4][2] && s[3] == s[0..4][3];
    assert s[4] == s[4..8][0] && s[5] == s[4..8][1] && s[6] == s[4..8][2] && s[7] == s[4..8][3];
    assert s[8] == s[8..12][0] && s[9] == s[8..12][1] && s[10] == s[8..12][2] && s[11] == s[8..12][3];
    assert s[12] == s[12..16][0] && s[13] == s[12..16][1] && s[14] == s[12..16][2] && s[15] == s[12..16][3];
  }

  function PacketHeader(h: Header, size: nat, again: bool): Header
    requires size <= SLOT_SIZE
  {
    h.(data0 := if again then SetAgain(h.data0) else ClearAgain(h.data0), data1 := size + OVERHEAD)
  }

  /** One packet: header with its own size and flag, operation id, part of the payload. */
  function Packet(h: Header, op: uint32, part: seq<byte>, again: bool): (p: seq<byte>)
    requires |part| <= SLOT_SIZE
    ensures |p| == OVERHEAD + |part|
  {
    HeaderBytes(PacketHeader(h, |part|, again)) + Word(op) + part
  }

  /** The packets of one message. */
  function Fragments(h: Header, op: uint32, payload: seq<byte>): (ps: seq<seq<byte>>)
    ensures |ps| > 0
  {
    if |payload| <= MAX_FS_PKT_BYTE then [Packet(h, op, payload, false)]
    else [Packet(h, op, payload[..MAX_FS_PKT_BYTE], true)] + Fragments(h, op, payload[MAX_FS_PKT_BYTE..])
  }

  function DataOf(ps: seq<seq<byte>>): seq<byte>
    requires forall i :: 0 <= i < |ps| ==> |ps[i]| >= OVERHEAD
  {
    if ps == [] then [] else ps[0][OVERHEAD..] + DataOf(ps[1..])
  }

  /** ceil(n / MAX_FS_PKT_BYTE), and one packet for an empty message. */
  function PacketCount(n: nat): nat {
    if n == 0 then 1 else (n + MAX_FS_PKT_BYTE - 1) / MAX_FS_PKT_BYTE
  }

  /**
   A message of n bytes goes out in ceil(n / 3456) packets; each carries the header's channel and
   slot and the operation id, its own size, and the send-again flag exactly when another follows;
   the data parts together are the payload.
   */
  lemma FragmentsOfMessage(h: Header, op: uint32, payload: seq<byte>)
    ensures var ps := Fragments(h, op, payload);
            && |ps| == PacketCount(|payload|)
            && (forall i :: 0 <= i < |ps| ==> OVERHEAD <= |ps[i]| <= OVERHEAD + MAX_FS_PKT_BYTE)
            && (forall i :: 0 <= i < |ps| - 1 ==> |ps[i]| == 3476)
            && (payload != [] ==> |ps[|ps| - 1]| > OVERHEAD)
            && (forall i :: 0 <= i < |ps| ==> IsPartOf(h, op, ps[i], i < |ps| - 1))
            && DataOf(ps) == payload
  {
    hide Fragments, Packet, IsPartOf, PacketCount, DataOf;
    CountOfFragments(h, op, payload);
    DataOfFragments(h, op, payload);
    var ps := Fragments(h, op, payload);
    forall i | 0 <= i < |ps|
      ensures OVERHEAD <= |ps[i]| <= OVERHEAD + MAX_FS_PKT_BYTE && IsPartOf(h, op, ps[i], i < |ps| - 1)
      ensures i < |ps| - 1 ==> |ps[i]| == 3476
      ensures payload != [] ==> |ps[i]| > OVERHEAD
    {
      FragmentAt(h, op, payload, i);
    }
  }

  lemma {:induction false} CountOfFragments(h: Header, op: uint32, payload: seq<byte>)
    ensures |Fragments(h, op, payload)| == PacketCount(|payload|)
    decreases |payload|
  {
    hide Packet, PacketCount;
    if |payload| <= MAX_FS_PKT_BYTE {
      CountOne(|payload|);
    } else {
      CountMore(|payload|);
      CountOfFragments(h, op, payload[MAX_FS_PKT_BYTE..]);
    }
  }

  lemma {:induction false} FragmentAt(h: Header, op: uint32, payload: seq<byte>, i: nat)
    requires i < |Fragments(h, op, payload)|
    ensures var ps := Fragments(h, op, payload);
            && OVERHEAD <= |ps[i]| <= OVERHEAD + MAX_FS_PKT_BYTE && IsPartOf(h, op, ps[i], i < |ps| - 1)
            && (i < |ps| - 1 ==> |ps[i]| == 3476)
            && (payload != [] ==> |ps[i]| > OVERHEAD)
    decreases |payload|
  {
    hide Packet, IsPartOf;
    var ps := Fragments(h, op, payload);
    if |payload| <= MAX_FS_PKT_BYTE {
      PartHeader(h, op, payload, false);
    } else if i == 0 {
      PartHeader(h, op, payload[..MAX_FS_PKT_BYTE], true);
    } else {
      FragmentAt(h, op, payload[MAX_FS_PKT_BYTE..], i - 1);
      assert ps[i] == Fragments(h, op, payload[MAX_FS_PKT_BYTE..])[i - 1];
    }
  }

  lemma LongEnough(h: Header, op: uint32, payload: seq<byte>)
    ensures forall i :: 0 <= i < |Fragments(h, op, payload)| ==> |Fragments(h, op, payload)[i]| >= OVERHEAD
  {
    hide Fragments;
    forall i | 0 <= i < |Fragments(h, op, payload)|
      ensures |Fragments(h, op, payload)[i]| >= OVERHEAD
    {
      FragmentAt(h, op, payload, i);
    }
  }

  lemma {:induction false} DataOfFragments(h: Header, op: uint32, payload: seq<byte>)
    ensures forall i :: 0 <= i < |Fragments(h, op, payload)| ==> |Fragments(h, op, payload)[i]| >= OVERHEAD
    ensures DataOf(Fragments(h, op, payload)) == payload
    decreases |payload|
  {
    hide Packet, IsPartOf;
    LongEnough(h, op, payload);
    var ps := Fragments(h, op, payload);
    if |payload| <= MAX_FS_PKT_BYTE {
      PartHeader(h, op, payload, false);
      assert ps[1..] == [];
      assert DataOf(ps) == payload + DataOf(ps[1..]);
    } else {
      var part, rest := payload[..MAX_FS_PKT_BYTE], payload[MAX_FS_PKT_BYTE..];
      DataOfFragments(h, op, rest);
      PartHeader(h, op, part, true);
      assert ps[1..] == Fragments(h, op, rest);
      assert payload == part + rest;
    }
  }

  lemma CountOne(n: nat)
    requires n <= MAX_FS_PKT_BYTE
    ensures PacketCount(n) == 1
  {
  }

  lemma CountMore(n: nat)
    requires n > MAX_FS_PKT_BYTE
    ensures PacketCount(n) == 1 + PacketCount(n - MAX_FS_PKT_BYTE)
  {
  }

  ghost predicate IsPartOf(h: Header, op: uint32, p: seq<byte>, again: bool) {
    && |p| >= OVERHEAD
    && WordAt(p, HEADER_SIZE) == op
    && var g := HeaderAt(p, 0);
    && g.channel == h.channel && g.reserved == h.reserved
    && g.data1 == |p|
    && HasAgain(g.data0) == again && ClearAgain(g.data0) == ClearAgain(h.data0)
  }

  lemma PartHeader(h: Header, op: uint32, part: seq<byte>, again: bool)
    requires |part| <= MAX_FS_PKT_BYTE
    ensures IsPartOf(h, op, Packet(h, op, part, again), again)
    ensures HeaderAt(Packet(h, op, part, again), 0) == PacketHeader(h, |part|, again)
    ensures Packet(h, op, part, again)[OVERHEAD..] == part
  {
    var g := PacketHeader(h, |part|, again);
    var p := Packet(h, op, part, again);
    assert p == HeaderBytes(g) + (Word(op) + part);
    HeaderReadBack(g, Word(op) + part);
    WordReadBack(op);
    hide WordOf, Word, HeaderBytes;
    assert p[16..20] == Word(op);
    assert p[16] == p[16..20][0] && p[17] == p[16..20][1] && p[18] == p[16..20][2] && p[19] == p[16..20][3];
  }
}

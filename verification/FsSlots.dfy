/** The daemon's memory: one block cut into five message slots. */
module FsSlots {
  import opened Arithmetic
  import opened Bytes
  import opened FsMessage

  const BLOCK_SIZE: nat := 83020               // five slots

  /** The bytes of slot `i`. */
  function SlotBytes(s: seq<byte>, i: nat): (m: seq<byte>)
    requires |s| == BLOCK_SIZE && i < FS_BUFFER_SLOT_NUM
    ensures |m| == SLOT_SIZE
  {
    s[i * SLOT_SIZE..(i + 1) * SLOT_SIZE]
  }

  lemma SlotByte(s: seq<byte>, i: nat, k: nat)
    requires |s| == BLOCK_SIZE && i < FS_BUFFER_SLOT_NUM && k < SLOT_SIZE
    ensures SlotBytes(s, i)[k] == s[i * SLOT_SIZE + k]
  {
  }

  /** Overwriting inside one slot is overwriting that slot, and leaves the others alone. */
  lemma SpliceInSlot(s: seq<byte>, i: nat, at: nat, t: seq<byte>)
    requires |s| == BLOCK_SIZE && i < FS_BUFFER_SLOT_NUM && at + |t| <= SLOT_SIZE
    ensures var r := Splice(s, i * SLOT_SIZE + at, t);
            && SlotBytes(r, i) == Splice(SlotBytes(s, i), at, t)
            && OtherSlotsSame(r, s, i)
  {
    hide Splice, SlotBytes, OtherSlotsSame;
    var b := i * SLOT_SIZE + at;
    var r, m := Splice(s, b, t), SlotBytes(s, i);
    var u := Splice(m, at, t);
    forall k | 0 <= k < SLOT_SIZE
      ensures SlotBytes(r, i)[k] == u[k]
    {
      SlotByte(r, i, k);
      SlotByte(s, i, k);
      SpliceByte(s, b, t, i * SLOT_SIZE + k);
      SpliceByte(m, at, t, k);
    }
    assert SlotBytes(r, i) == u;
    SpliceRead(s, b, t);
    OtherSlots(r, s, i, b, b + |t|);
  }

  /** A change between `lo` and `hi` inside slot `i` is no change of another slot. */
  lemma OtherSlots(r: seq<byte>, s: seq<byte>, i: nat, lo: nat, hi: nat)
    requires |r| == |s| == BLOCK_SIZE && i < FS_BUFFER_SLOT_NUM
    requires i * SLOT_SIZE <= lo <= hi <= (i + 1) * SLOT_SIZE
    requires Agree(r, s, 0, lo) && Agree(r, s, hi, BLOCK_SIZE)
    ensures OtherSlotsSame(r, s, i)
  {
    forall j | 0 <= j < FS_BUFFER_SLOT_NUM && j != i
      ensures SlotBytes(r, j) == SlotBytes(s, j)
    {
      AgreeSlice(r, s, j * SLOT_SIZE, (j + 1) * SLOT_SIZE);
    }
  }

  lemma WordInSlot(s: seq<byte>, i: nat, at: nat)
    requires |s| == BLOCK_SIZE && i < FS_BUFFER_SLOT_NUM && at + 4 <= SLOT_SIZE
    ensures WordAt(s, i * SLOT_SIZE + at) == WordAt(SlotBytes(s, i), at)
  {
    hide WordOf;
    var m, b := SlotBytes(s, i), i * SLOT_SIZE + at;
    assert m[at] == s[b] && m[at + 1] == s[b + 1] && m[at + 2] == s[b + 2] && m[at + 3] == s[b + 3];
  }

  lemma SliceInSlot(s: seq<byte>, i: nat, lo: nat, hi: nat)
    requires |s| == BLOCK_SIZE && i < FS_BUFFER_SLOT_NUM && lo <= hi <= SLOT_SIZE
    ensures s[i * SLOT_SIZE + lo..i * SLOT_SIZE + hi] == SlotBytes(s, i)[lo..hi]
  {
    SliceOfSlice(s, i * SLOT_SIZE, (i + 1) * SLOT_SIZE, lo, hi);
  }

  /** `s` and `t` differ at most in slot `i`. */
  ghost predicate OtherSlotsSame(s: seq<byte>, t: seq<byte>, i: nat)
    requires |s| == |t| == BLOCK_SIZE
  {
    forall j :: 0 <= j < FS_BUFFER_SLOT_NUM && j != i ==> SlotBytes(s, j) == SlotBytes(t, j)
  }

  /** A change of one slot only is an overwrite of that slot. */
  lemma OneSlotChanged(s: seq<byte>, t: seq<byte>, i: nat)
    requires |s| == |t| == BLOCK_SIZE && i < FS_BUFFER_SLOT_NUM && OtherSlotsSame(s, t, i)
    ensures s == Splice(t, i * SLOT_SIZE, SlotBytes(s, i))
  {
    hide Splice, SlotBytes;
    var r := Splice(t, i * SLOT_SIZE, SlotBytes(s, i));
    forall k | 0 <= k < BLOCK_SIZE
      ensures s[k] == r[k]
    {
      var j, p := k / SLOT_SIZE, k % SLOT_SIZE;
      SpliceByte(t, i * SLOT_SIZE, SlotBytes(s, i), k);
      SlotByte(s, j, p);
      SlotByte(t, j, p);
    }
  }
}

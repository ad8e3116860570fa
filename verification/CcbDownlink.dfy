/**
 The downlink half of a CCB buffer: `ccci_ccb_read_get`, `ccci_ccb_read_done` and
 `ccci_ccb_read_flush`, with the modem publishing pages in between.
 */
module CcbDownlink {
  import opened Bytes
  import opened Arithmetic
  import opened CircularIndex
  import opened Runs
  import opened DownlinkQueue

  const EINVAL: int := -22
  const EFAULT: int := -14
  const EAGAIN: int := -11

  /** A 32-bit word read as a signed int. */
  function Signed(w: uint32): int {
    if w >= 0x8000_0000 then w - WORD_LIMIT else w
  }

  /** `ccci_ccb_read_available`: unsigned difference, read as int, corrected by the page count. */
  function ReadAvailable(write: uint32, read: uint32, pages: uint32): int {
    var available := Signed((write - read) % WORD_LIMIT);
    if available < 0 then Signed((available + pages) % WORD_LIMIT) else available
  }

  /** The subtraction of wrapped indices gives the distance between the positions. */
  lemma AvailableIsDistance(write: nat, read: nat, pages: nat)
    requires 0 < pages < 0x8000_0000 && read <= write < read + pages
    ensures ReadAvailable(write % pages, read % pages, pages) == write - read
  {
    hide ReadAvailable, Back;
    IndexBefore(write, read, pages);
    AvailableByDistance(write % pages, write - read, pages);
  }

  lemma AvailableByDistance(write: nat, d: nat, pages: nat)
    requires write < pages < 0x8000_0000 && d < pages
    ensures ReadAvailable(write, Back(write, d, pages), pages) == d
  {
  }

  ghost predicate PageHolds(p: Page, m: Message) {
    p == Page(PAGE_STATUS_WRITE_DONE, m.length, m.data)
  }

  /** Every page from free to write holds its message. */
  ghost predicate MessagesMatch(pages: seq<Page>, q: Queue) {
    && q.pages == |pages| > 0
    && forall n :: q.released <= n < |q.sent| ==> PageHolds(pages[PageOf(q, n)], q.sent[n])
  }

  lemma SentPage(pages: seq<Page>, q: Queue, m: Message)
    requires Inv(q) && MessagesMatch(pages, q) && |q.sent| - q.released < q.pages - 1
    ensures MessagesMatch(pages[PageOf(q, |q.sent|) := Page(PAGE_STATUS_WRITE_DONE, m.length, m.data)],
                          q.(sent := q.sent + [m]))
  {
    var n := |q.sent|;
    var p := PageOf(q, n);
    var after, t := pages[p := Page(PAGE_STATUS_WRITE_DONE, m.length, m.data)], q.(sent := q.sent + [m]);
    forall i | q.released <= i < n + 1
      ensures PageHolds(after[PageOf(t, i)], t.sent[i])
    {
      PlaceInjective(q.first, i, n, q.pages);
      hide Place;
      assert PageOf(t, i) == PageOf(q, i);
      if i < n {
        assert PageHolds(pages[PageOf(q, i)], q.sent[i]);
      }
    }
  }

  lemma FewerMessages(pages: seq<Page>, q: Queue, t: Queue)
    requires MessagesMatch(pages, q) && t.pages == q.pages && t.first == q.first && t.sent == q.sent
    requires q.released <= t.released
    ensures MessagesMatch(pages, t)
  {
    hide Place;
    forall n | t.released <= n < |t.sent|
      ensures PageHolds(pages[PageOf(t, n)], t.sent[n])
    {
      assert PageOf(t, n) == PageOf(q, n);
    }
  }

  datatype GetResult = Failed(code: int) | Got(address: nat, length: nat)

  class Downlink {
    const pages: array<Page>
    const pageSize: nat
    const base: nat
    var guardBandE: uint32
    var freeIndex: nat
    var readIndex: nat
    var writeIndex: nat
    ghost var queue: Queue

    function BufferAddress(p: nat): nat {
      base + pageSize * p + PAGE_HEADER_SIZE
    }

    ghost predicate IndicesMatch()
      reads this
    {
      && queue.pages > 0
      && writeIndex == PageOf(queue, |queue.sent|)
      && readIndex == PageOf(queue, queue.read)
      && freeIndex == PageOf(queue, queue.released)
    }

    ghost predicate Valid()
      reads this, pages
    {
      && 2 <= pages.Length < 0x8000_0000
      && queue.pages == pages.Length
      && Inv(queue)
      && IndicesMatch()
      && MessagesMatch(pages[..], queue)
    }

    /** The ring after registration: all indices equal. */
    constructor (pages: array<Page>, pageSize: nat, base: nat, index: nat, guardBandE: uint32)
      requires 2 <= pages.Length < 0x8000_0000 && index < pages.Length
      ensures Valid() && queue == Empty(pages.Length, index)
      ensures this.pages == pages && this.pageSize == pageSize && this.base == base && this.guardBandE == guardBandE
    {
      PlaceStart(index, pages.Length);
      hide Place;
      this.pages, this.pageSize, this.base, this.guardBandE := pages, pageSize, base, guardBandE;
      freeIndex, readIndex, writeIndex := index, index, index;
      queue := Empty(pages.Length, index);
    }

    /** The modem publishes one page, if the ring is not full. */
    method ModemSend(length: nat, data: seq<byte>)
      requires Valid()
      modifies `writeIndex, `queue, pages
      ensures Valid()
      ensures if |old(queue.sent)| - old(queue.released) == pages.Length - 1 then queue == old(queue)
              else queue == old(queue).(sent := old(queue.sent) + [Message(length, data)])
    {
      hide Place, MessagesMatch;
      FullByIndices(queue);
      var next := if writeIndex + 1 >= pages.Length then 0 else writeIndex + 1;
      if next != freeIndex {
        SentPage(pages[..], queue, Message(length, data));
        pages[writeIndex] := Page(PAGE_STATUS_WRITE_DONE, length, data);
        writeIndex := next;
        queue := queue.(sent := queue.sent + [Message(length, data)]);
      }
    }

    /** Any number of messages sent between two accesses by the processor. */
    method ModemMoves()
      requires Valid()
      modifies `writeIndex, `queue, pages
      ensures Valid() && Reaches(old(queue), queue) && OnlySends(old(queue), queue)
    {
      hide IndicesMatch, MessagesMatch, Inv, Leads;
      var steps: nat := *;
      LeadsItself(Next, queue);
      while steps > 0
        invariant Valid() && Reaches(old(queue), queue) && OnlySends(old(queue), queue)
      {
        ghost var before := queue;
        var length: nat := *;
        var data: seq<byte> := *;
        SendBound();
        ModemSend(length, data);
        if queue != before {
          assert Send(before, queue);
          LeadsNext(Next, old(queue), before, queue);
        }
        steps := steps - 1;
      }
    }

    lemma SendBound()
      requires Valid()
      ensures |queue.sent| - queue.released <= pages.Length - 1 && queue.pages == pages.Length
    {
    }

    /** Messages are available exactly when there are more sent than taken, and so many. */
    lemma AvailableNow()
      requires Valid()
      ensures readIndex < pages.Length && writeIndex < pages.Length
      ensures ReadAvailable(writeIndex, readIndex, pages.Length) == |queue.sent| - queue.read
      ensures queue.read < |queue.sent| ==> PageHolds(pages[readIndex], queue.sent[queue.read])
    {
      hide ReadAvailable;
      AvailableIsDistance(queue.first + |queue.sent|, queue.first + queue.read, pages.Length);
      hide Place;
    }

    /**
     `ccci_ccb_read_get`: hands out the next message in order, with its length; -EAGAIN exactly
     when nothing is waiting. The bad-status exit cannot be taken.
     */
    method ReadGet() returns (r: GetResult, ghost seen: Queue)
      requires Valid()
      modifies `readIndex, `writeIndex, `queue, pages
      ensures Valid() && Reaches(old(queue), seen) && Reaches(old(queue), queue) && OnlySends(old(queue), seen)
      ensures r == Failed(-22) <==> guardBandE != 0x1100_FFEE
      ensures r == Failed(-11) <==> guardBandE == 0x1100_FFEE && seen.read == |seen.sent|
      ensures r.Failed? ==> queue == seen && (r.code == -22 || r.code == -11)
      ensures r.Got? ==>
                && seen.sent <= queue.sent
                && queue == seen.(sent := queue.sent, got := old(queue.got) + [old(queue.read)], read := old(queue.read) + 1)
                && r.address == base + PageOf(queue, old(queue.read)) * pageSize + 8 && PageOf(queue, old(queue.read)) == old(readIndex)
                && r.length == queue.sent[old(queue.read)].length
                && pages[PageOf(queue, old(queue.read))].buffer == queue.sent[old(queue.read)].data
      ensures r.Got? ==>
                && (forall a: nat :: r.address <= a < r.address + pageSize - 8 ==> InPage(base, pageSize, old(readIndex), a))
                && (forall a: nat, q: nat :: r.address <= a < r.address + pageSize - 8 ==> !InHeader(base, pageSize, q, a))
    {
      hide Place, MessagesMatch, ReadAvailable, Leads, InPage, InHeader, BufferAddress;
      seen := queue;
      LeadsItself(Next, queue);
      if guardBandE != TAIL_MAGIC_AFTER {
        return Failed(EINVAL), seen;
      }
      ModemMoves();
      seen := queue;
      AvailableNow();
      var available := ReadAvailable(writeIndex, readIndex, pages.Length);
      if available != 0 {
        ModemMoves();
        LeadsTransitive(Next, old(queue), seen, queue);
        r := Take(old(queue));
        DataPart(old(readIndex), r.address);
      } else {
        r := Failed(EAGAIN);
      }
    }

    /** The data part of page `p` begins behind its header, and meets no header. */
    lemma DataPart(p: nat, r: nat)
      requires r == BufferAddress(p)
      ensures r == base + p * pageSize + 8
      ensures forall a: nat :: r <= a < r + pageSize - 8 ==> InPage(base, pageSize, p, a)
      ensures forall a: nat, q: nat :: r <= a < r + pageSize - 8 ==> !InHeader(base, pageSize, q, a)
    {
      hide InPage, InHeader;
      assert pageSize * p == p * pageSize;
      forall a: nat | r <= a < r + pageSize - 8
        ensures InPage(base, pageSize, p, a)
      {
        DataClear(base, pageSize, p, p, a);
      }
      forall a: nat, q: nat | r <= a < r + pageSize - 8
        ensures !InHeader(base, pageSize, q, a)
      {
        DataClear(base, pageSize, p, q, a);
      }
    }

    /** The page at read_index is handed out, and read_index moves on. */
    method Take(ghost start: Queue) returns (r: GetResult)
      requires Valid() && queue.read < |queue.sent| && Reaches(start, queue)
      modifies `readIndex, `queue
      ensures Valid() && Reaches(start, queue)
      ensures queue == old(queue).(got := old(queue.got) + [old(queue.read)], read := old(queue.read) + 1)
      ensures var m := queue.sent[old(queue.read)];
              && r == Got(BufferAddress(PageOf(queue, old(queue.read))), m.length)
              && PageOf(queue, old(queue.read)) == old(readIndex)
              && pages[PageOf(queue, old(queue.read))].buffer == m.data
    {
      hide Place, MessagesMatch, ReadAvailable, Leads;
      AvailableNow();
      ghost var before := queue;
      var page := pages[readIndex];
      if page.status != PAGE_STATUS_WRITE_DONE {
        return Failed(EFAULT);
      }
      r := Got(BufferAddress(readIndex), page.validLength);
      PlaceNext(queue.first, queue.read, queue.pages);
      if readIndex + 1 >= pages.Length {
        readIndex := 0;
      } else {
        readIndex := readIndex + 1;
      }
      queue := queue.(got := queue.got + [queue.read], read := queue.read + 1);
      assert Get(before, queue);
      LeadsNext(Next, start, before, queue);
      FewerMessages(pages[..], before, queue);
    }

    /**
     `ccci_ccb_read_done`: succeeds exactly when one message is outstanding, and gives its page back,
     with the modem sending between the accesses (up to state `seen` before the store).
     */
    method ReadDone() returns (code: int, ghost seen: Queue)
      requires Valid()
      modifies `freeIndex, `writeIndex, `queue, pages
      ensures Valid() && Reaches(old(queue), queue) && OnlySends(old(queue), seen)
      ensures code == if guardBandE != 0x1100_FFEE then -22
                      else if old(queue.read) == old(queue.released) + 1 then 0 else -14
      ensures if code == 0 then queue == seen.(released := old(queue.released) + 1) else queue == seen
      ensures code == 0 ==> Done(seen, queue)
    {
      hide Place, MessagesMatch, Leads;
      seen := queue;
      LeadsItself(Next, queue);
      if guardBandE != TAIL_MAGIC_AFTER {
        return EINVAL, seen;
      }
      OneOutstanding(queue);
      var freeIndexToBe := freeIndex + 1;
      if freeIndexToBe >= pages.Length {
        freeIndexToBe := 0;
      }
      ModemMoves();
      seen := queue;
      if readIndex != freeIndexToBe {
        return EFAULT, seen;
      }
      ModemMoves();
      LeadsTransitive(Next, old(queue), seen, queue);
      seen := queue;
      freeIndex := freeIndexToBe;
      queue := queue.(released := queue.released + 1);
      assert Done(seen, queue);
      LeadsNext(Next, old(queue), seen, queue);
      FewerMessages(pages[..], seen, queue);
      return 0, seen;
    }

    /**
     `ccci_ccb_read_flush`: everything published when write_index was loaded (state `seen`) is
     skipped, and every page before it is free again.
     */
    method ReadFlush() returns (ghost seen: Queue)
      requires Valid()
      modifies `readIndex, `freeIndex, `writeIndex, `queue, pages
      ensures Valid() && Reaches(old(queue), queue) && OnlySends(old(queue), seen)
      ensures queue.read == queue.released == |seen.sent|
      ensures queue.got == old(queue.got) && seen.sent <= queue.sent
      ensures queue.sent == seen.sent ==> ReadAvailable(writeIndex, readIndex, pages.Length) == 0
    {
      hide Place, MessagesMatch, ReadAvailable, Leads;
      ModemMoves();
      seen := queue;
      ghost var start := old(queue);
      readIndex := writeIndex;
      queue := queue.(read := |queue.sent|);
      assert Skip(seen, queue);
      LeadsNext(Next, start, seen, queue);
      FewerMessages(pages[..], seen, queue);
      ghost var skipped := queue;
      ModemMoves();
      LeadsTransitive(Next, start, skipped, queue);
      ghost var before := queue;
      freeIndex := readIndex;
      queue := queue.(released := queue.read);
      assert Drop(before, queue);
      LeadsNext(Next, start, before, queue);
      FewerMessages(pages[..], before, queue);
      AvailableNow();
    }
  }

  ghost predicate OnlySends(s: Queue, t: Queue) {
    && s.sent <= t.sent
    && t == s.(sent := t.sent)
  }

  /** The ring is full when the index after write is free. */
  lemma FullByIndices(q: Queue)
    requires Inv(q)
    ensures var w := PageOf(q, |q.sent|);
            && PageOf(q, |q.sent| + 1) == (if w + 1 >= q.pages then 0 else w + 1)
            && (PageOf(q, |q.sent| + 1) == PageOf(q, q.released)
                <==> |q.sent| - q.released == q.pages - 1)
  {
    PlaceNext(q.first, |q.sent|, q.pages);
    if |q.sent| - q.released == q.pages - 1 {
      ModShift(q.first + |q.sent| + 1, q.pages);
    } else {
      PlaceInjective(q.first, q.released, |q.sent| + 1, q.pages);
    }
  }

  /** The index after free is read exactly when one message is outstanding. */
  lemma OneOutstanding(q: Queue)
    requires Inv(q)
    ensures var f := PageOf(q, q.released);
            && PageOf(q, q.released + 1) == (if f + 1 >= q.pages then 0 else f + 1)
            && (PageOf(q, q.read) == PageOf(q, q.released + 1)
                <==> q.read == q.released + 1)
  {
    PlaceNext(q.first, q.released, q.pages);
    if q.read == q.released {
      PlaceInjective(q.first, q.read, q.released + 1, q.pages);
    } else {
      PlaceInjective(q.first, q.released + 1, q.read, q.pages);
    }
  }
}

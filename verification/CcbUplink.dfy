/**
 The uplink half of a CCB buffer: `ccci_ccb_write_alloc` and `ccci_ccb_write_done`, with the modem
 reading and freeing pages between any two accesses to the shared header.
 */
module CcbUplink {
  import opened Bytes
  import opened Wrappers
  import opened Arithmetic
  import opened CircularIndex
  import opened Runs
  import opened PageFifo

  datatype DoneResult = Notified | Invalid

  /** The number of pages the source computes as available from its separate loads of free_index. */
  function Available(total: uint32, allocate: uint32, free1: uint32, free2: uint32, free3: uint32): (r: uint32) {
    if allocate == free1 then (total - 1) % WORD_LIMIT
    else if allocate > free2 then (total - allocate + free3 - 1) % WORD_LIMIT
    else (free3 - allocate - 1) % WORD_LIMIT
  }

  lemma CountByBranch(total: uint32, allocate: uint32, free1: uint32, free2: uint32, free3: uint32)
    ensures allocate == free1 ==> Available(total, allocate, free1, free2, free3) == (total - 1) % WORD_LIMIT
    ensures allocate != free1 && allocate > free2 ==>
              Available(total, allocate, free1, free2, free3) == (total - allocate + free3 - 1) % WORD_LIMIT
    ensures allocate != free1 && allocate <= free2 ==>
              Available(total, allocate, free1, free2, free3) == (free3 - allocate - 1) % WORD_LIMIT
  {
  }

  lemma AvailableByDistance(total: uint32, p: nat, d1: nat, d2: nat, d3: nat)
    requires p < total && d3 <= d2 <= d1 < total
    ensures Available(total, p, Back(p, d1, total), Back(p, d2, total), Back(p, d3, total)) == 0
       <==> if d1 == 0 then total == 1 else d3 == total - 1
    ensures p == Back(p, d1, total) <==> d1 == 0
  {
  }

  /**
   The three loads may see three different values, because the modem advances free_index in
   between, and the last subtraction may wrap; still the result is zero exactly when the ring was
   full at the last load. `free1`, `free2`, `free3` and `allocate` are positions, not indices.
   */
  lemma AvailableUnderInterference(total: uint32, allocate: nat, free1: nat, free2: nat, free3: nat)
    requires total > 0
    requires free1 <= free2 <= free3 <= allocate && allocate - free1 <= total - 1
    ensures Available(total, allocate % total, free1 % total, free2 % total, free3 % total) == 0
       <==> if allocate == free1 then total == 1 else allocate - free3 == total - 1
    ensures allocate % total == free1 % total <==> allocate == free1
  {
    hide Back, Available;
    IndexBefore(allocate, free1, total);
    IndexBefore(allocate, free2, total);
    IndexBefore(allocate, free3, total);
    AvailableByDistance(total, allocate % total, allocate - free1, allocate - free2, allocate - free3);
  }

  /** The same for the places of a ring that began at page `first`. */
  lemma Loads(total: uint32, first: nat, allocate: nat, free1: nat, free2: nat, free3: nat)
    requires total > 0
    requires free1 <= free2 <= free3 <= allocate && allocate - free1 <= total - 1
    ensures Available(total, Place(first, allocate, total), Place(first, free1, total), Place(first, free2, total), Place(first, free3, total)) == 0
       <==> if allocate == free1 then total == 1 else allocate - free3 == total - 1
    ensures Place(first, allocate, total) == Place(first, free1, total) <==> allocate == free1
  {
    hide Available;
    AvailableUnderInterference(total, first + allocate, first + free1, first + free2, first + free3);
  }

  ghost predicate Holds(p: Page, c: Cell) {
    match c
    case Open => p.status == PAGE_STATUS_ALLOC
    case Closed(length, data) => p == Page(PAGE_STATUS_WRITE_DONE, length, data)
  }

  /** Page `p` is reserved and still being written. */
  ghost predicate Writing(f: Fifo, p: nat)
    requires f.pages > 0
  {
    exists n :: f.published <= n < |f.cells| && PageOf(f, n) == p && f.cells[n].Open?
  }

  /** Every page from free to allocate holds its position; pages are ALLOC only from write to allocate. */
  ghost predicate PagesMatch(pages: seq<Page>, f: Fifo) {
    && f.pages == |pages| > 0
    && (forall n :: f.released <= n < |f.cells| ==> Holds(pages[PageOf(f, n)], f.cells[n]))
    && (forall p :: 0 <= p < |pages| && pages[p].status == PAGE_STATUS_ALLOC ==> Writing(f, p))
  }

  /** No other reserved position shares the page of position `n`. */
  lemma OnlyOwner(f: Fifo, n: nat)
    requires Inv(f) && f.released <= n <= |f.cells| && |f.cells| < f.released + f.pages
    ensures forall m :: f.released <= m < |f.cells| && m != n ==> PageOf(f, m) != PageOf(f, n)
  {
    forall m | f.released <= m < |f.cells| && m != n
      ensures PageOf(f, m) != PageOf(f, n)
    {
      if m < n {
        PlaceInjective(f.first, m, n, f.pages);
      } else {
        PlaceInjective(f.first, n, m, f.pages);
      }
    }
  }

  /** Marking the next page ALLOC keeps the pages and the queue in step. */
  lemma ReservedPage(pages: seq<Page>, f: Fifo)
    requires Inv(f) && PagesMatch(pages, f) && |f.cells| - f.released < f.pages - 1
    ensures var p := PageOf(f, |f.cells|);
            PagesMatch(pages[p := pages[p].(status := PAGE_STATUS_ALLOC)], f.(cells := f.cells + [Open]))
  {
    var n := |f.cells|;
    var p := PageOf(f, n);
    var after, g := pages[p := pages[p].(status := PAGE_STATUS_ALLOC)], f.(cells := f.cells + [Open]);
    OnlyOwner(f, n);
    hide Place;
    forall m | g.released <= m < |g.cells|
      ensures Holds(after[PageOf(g, m)], g.cells[m])
    {
      assert PageOf(g, m) == PageOf(f, m);
      if m < n {
        assert Holds(pages[PageOf(f, m)], f.cells[m]);
      }
    }
    forall q | 0 <= q < |after| && after[q].status == PAGE_STATUS_ALLOC
      ensures Writing(g, q)
    {
      if q == p {
        assert PageOf(g, n) == p && g.cells[n].Open?;
      } else {
        var m := FindWriter(pages, f, q);
        assert PageOf(g, m) == q && g.cells[m].Open?;
      }
    }
  }

  lemma FindWriter(pages: seq<Page>, f: Fifo, p: nat) returns (n: nat)
    requires PagesMatch(pages, f) && p < |pages| && pages[p].status == PAGE_STATUS_ALLOC
    ensures f.published <= n < |f.cells| && PageOf(f, n) == p && f.cells[n].Open?
  {
    assert Writing(f, p);
    n :| f.published <= n < |f.cells| && PageOf(f, n) == p && f.cells[n].Open?;
  }

  /** Filling a page that is being written records nothing in the queue yet. */
  lemma FilledPage(pages: seq<Page>, f: Fifo, p: nat, data: seq<byte>)
    requires Inv(f) && PagesMatch(pages, f) && p < |pages| && pages[p].status == PAGE_STATUS_ALLOC
    ensures PagesMatch(pages[p := pages[p].(buffer := data)], f)
  {
    hide Place;
    var n := FindWriter(pages, f, p);
    OnlyOwner(f, n);
  }

  /** Completing a page closes its position with the length given and the bytes in the page. */
  lemma ClosedPage(pages: seq<Page>, f: Fifo, n: nat, length: nat)
    requires Inv(f) && PagesMatch(pages, f) && f.published <= n < |f.cells| && f.cells[n].Open?
    ensures var p := PageOf(f, n);
            PagesMatch(pages[p := Page(PAGE_STATUS_WRITE_DONE, length, pages[p].buffer)],
                       f.(cells := f.cells[n := Closed(length, pages[p].buffer)]))
  {
    var p := PageOf(f, n);
    var after := pages[p := Page(PAGE_STATUS_WRITE_DONE, length, pages[p].buffer)];
    var g := f.(cells := f.cells[n := Closed(length, pages[p].buffer)]);
    OnlyOwner(f, n);
    hide Place;
    forall m | g.released <= m < |g.cells|
      ensures Holds(after[PageOf(g, m)], g.cells[m])
    {
      assert PageOf(g, m) == PageOf(f, m);
      assert Holds(pages[PageOf(f, m)], f.cells[m]);
    }
    forall q | 0 <= q < |after| && after[q].status == PAGE_STATUS_ALLOC
      ensures Writing(g, q)
    {
      var m := FindWriter(pages, f, q);
      assert m != n;
      assert PageOf(g, m) == q && g.cells[m].Open?;
    }
  }

  /** Publishing, delivering and releasing positions only narrows what the pages have to hold. */
  lemma NarrowedWindow(pages: seq<Page>, f: Fifo, g: Fifo)
    requires Inv(f) && PagesMatch(pages, f) && Inv(g)
    requires g.pages == f.pages && g.first == f.first && g.cells == f.cells && f.released <= g.released
    ensures PagesMatch(pages, g)
  {
    hide Place;
    forall m | g.released <= m < |g.cells|
      ensures Holds(pages[PageOf(g, m)], g.cells[m])
    {
      assert PageOf(g, m) == PageOf(f, m);
    }
    forall q | 0 <= q < |pages| && pages[q].status == PAGE_STATUS_ALLOC
      ensures Writing(g, q)
    {
      var m := FindWriter(pages, f, q);
      assert PageOf(g, m) == q && g.cells[m].Open?;
    }
  }

  /** The queue of a ring whose pages from `free` on are published, the first `read` of them delivered. */
  function Resumed(pages: seq<Page>, free: nat, read: nat, written: nat): (f: Fifo)
    requires |pages| > 0 && read <= written
  {
    var cells := seq(written, n requires n >= 0 => var p := pages[Place(free, n, |pages|)]; Closed(p.validLength, p.buffer));
    var empty := Empty(|pages|, free).(cells := cells, published := written);
    empty.(delivered := seq(read, n requires 0 <= n < read => Sent(empty, n)))
  }

  class Uplink {
    const pages: array<Page>
    const pageSize: nat
    const base: nat
    var guardBand: uint32
    var guardBandE: uint32
    var allocateIndex: nat
    var freeIndex: nat
    var readIndex: nat
    var writeIndex: nat
    ghost var fifo: Fifo

    /** The address of the data part of page `p`. */
    function BufferAddress(p: nat): nat {
      base + pageSize * p + PAGE_HEADER_SIZE
    }

    /** The shared indices are the positions of the queue, modulo the number of pages. */
    ghost predicate IndicesMatch()
      reads this
    {
      && fifo.pages > 0
      && allocateIndex == PageOf(fifo, |fifo.cells|)
      && writeIndex == PageOf(fifo, fifo.published)
      && readIndex == PageOf(fifo, |fifo.delivered|)
      && freeIndex == PageOf(fifo, fifo.released)
    }

    /** Holds before and after every access of either side. */
    ghost predicate Valid()
      reads this, pages
    {
      && 0 < pages.Length < WORD_LIMIT
      && pageSize > 0
      && fifo.pages == pages.Length
      && Inv(fifo)
      && IndicesMatch()
      && PagesMatch(pages[..], fifo)
    }

    /** What the page headers say: completed from free to write, ALLOC exactly where still being written. */
    lemma StatusByWindow(p: nat)
      requires Valid() && p < pages.Length
      ensures forall n :: fifo.released <= n < fifo.published ==> pages[PageOf(fifo, n)].status == PAGE_STATUS_WRITE_DONE
      ensures pages[p].status == PAGE_STATUS_ALLOC <==> Writing(fifo, p)
    {
      hide Place;
      forall n | fifo.released <= n < |fifo.cells|
        ensures Holds(pages[PageOf(fifo, n)], fifo.cells[n])
      {
      }
    }

    /**
     Registration: allocate_index becomes write_index, while the modem may still have to read and
     free pages published before. Those hold their messages, and no page is left in ALLOC.
     */
    constructor (pages: array<Page>, pageSize: nat, base: nat, free: nat, read: nat, write: nat,
                 guardBand: uint32, guardBandE: uint32)
      requires 0 < pages.Length < WORD_LIMIT && pageSize > 0
      requires free < pages.Length && read < pages.Length && write < pages.Length
      requires Distance(free, read, pages.Length) <= Distance(free, write, pages.Length)
      requires forall n :: 0 <= n < Distance(free, write, pages.Length) ==>
                 pages[Place(free, n, pages.Length)].status == PAGE_STATUS_WRITE_DONE
      requires forall p :: 0 <= p < pages.Length ==> pages[p].status != PAGE_STATUS_ALLOC
      ensures Valid() && fifo == Resumed(pages[..], free, Distance(free, read, pages.Length), Distance(free, write, pages.Length))
      ensures free == read == write ==> fifo == Empty(pages.Length, write)
      ensures this.pages == pages && this.pageSize == pageSize && this.base == base
      ensures this.guardBand == guardBand && this.guardBandE == guardBandE
    {
      var total := pages.Length;
      PlaceStart(free, total);
      DistancePlace(free, read, total);
      DistancePlace(free, write, total);
      hide Place;
      this.pages, this.pageSize, this.base := pages, pageSize, base;
      this.guardBand, this.guardBandE := guardBand, guardBandE;
      allocateIndex, freeIndex, readIndex, writeIndex := write, free, read, write;
      fifo := Resumed(pages[..], free, Distance(free, read, total), Distance(free, write, total));
    }

    /** The modem reads the page at read_index, if one is published. */
    method ModemRead()
      requires Valid()
      modifies `readIndex, `fifo
      ensures Valid()
      ensures if old(readIndex == writeIndex) then fifo == old(fifo) else Deliver(old(fifo), fifo)
      ensures old(readIndex != writeIndex) ==>
                var p := pages[old(readIndex)];
                fifo.delivered == old(fifo.delivered) + [Delivery(old(readIndex), p.validLength, p.buffer)]
      ensures old(readIndex == writeIndex) <==> |old(fifo.delivered)| == old(fifo.published)
    {
      hide Place;
      PlaceInjective(fifo.first, |fifo.delivered|, fifo.published, fifo.pages);
      if readIndex != writeIndex {
        PlaceNext(fifo.first, |fifo.delivered|, fifo.pages);
        ghost var before := fifo;
        var page := pages[readIndex];
        assert Holds(page, fifo.cells[|fifo.delivered|]);
        readIndex := if readIndex + 1 >= pages.Length then 0 else readIndex + 1;
        fifo := fifo.(delivered := fifo.delivered + [Sent(fifo, |fifo.delivered|)]);
        NarrowedWindow(pages[..], before, fifo);
      }
    }

    /** The modem gives back the page at free_index, if it has read one. */
    method ModemFree()
      requires Valid()
      modifies `freeIndex, `fifo
      ensures Valid()
      ensures if old(freeIndex == readIndex) then fifo == old(fifo) else Release(old(fifo), fifo)
      ensures old(freeIndex == readIndex) <==> old(fifo.released) == |old(fifo.delivered)|
    {
      hide Place;
      PlaceInjective(fifo.first, fifo.released, |fifo.delivered|, fifo.pages);
      if freeIndex != readIndex {
        PlaceNext(fifo.first, fifo.released, fifo.pages);
        ghost var before := fifo;
        freeIndex := if freeIndex + 1 >= pages.Length then 0 else freeIndex + 1;
        fifo := fifo.(released := fifo.released + 1);
        NarrowedWindow(pages[..], before, fifo);
      }
    }

    /** Any number of modem steps, as may happen between two accesses by the processor. */
    method ModemMoves()
      requires Valid()
      modifies `readIndex, `freeIndex, `fifo
      ensures Valid() && Reaches(old(fifo), fifo) && OnlyModem(old(fifo), fifo)
    {
      hide Inv, IndicesMatch, PagesMatch, Leads;
      var steps: nat := *;
      LeadsItself(Next, fifo);
      while steps > 0
        invariant Valid() && Reaches(old(fifo), fifo) && OnlyModem(old(fifo), fifo)
      {
        ghost var before := fifo;
        var read: bool := *;
        if read {
          ModemRead();
        } else {
          ModemFree();
        }
        if fifo != before {
          assert ModemStep(before, fifo);
          LeadsNext(Next, old(fifo), before, fifo);
        }
        steps := steps - 1;
      }
    }

    /**
     The loads of `ccci_ccb_write_alloc` and the count it makes of them, while the modem runs: zero
     exactly when the ring is full at the last load.
     */
    method CountAvailable() returns (available: uint32)
      requires Valid()
      modifies `readIndex, `freeIndex, `fifo
      ensures Valid() && Reaches(old(fifo), fifo) && OnlyModem(old(fifo), fifo)
      ensures available == 0 <==> |fifo.cells| - fifo.released == pages.Length - 1
    {
      hide Leads, Place, PagesMatch, Available;
      LeadsItself(Next, fifo);
      var total := pages.Length;
      ghost var f1 := fifo;
      var free1 := freeIndex;
      if allocateIndex == free1 {
        available := (total - 1) % WORD_LIMIT;
        Loads(total, f1.first, |f1.cells|, f1.released, f1.released, f1.released);
        assert Available(total, allocateIndex, free1, free1, free1) == available by {
          CountByBranch(total, allocateIndex, free1, free1, free1);
        }
      } else {
        ModemMoves();
        ghost var f2 := fifo;
        var free2 := freeIndex;
        ModemMoves();
        LeadsTransitive(Next, f1, f2, fifo);
        Loads(total, f1.first, |f1.cells|, f1.released, f2.released, fifo.released);
        if allocateIndex > free2 {
          available := (total - allocateIndex + freeIndex - 1) % WORD_LIMIT;
        } else {
          available := (freeIndex - allocateIndex - 1) % WORD_LIMIT;
        }
        CountByBranch(total, allocateIndex, free1, free2, freeIndex);
      }
    }

    /**
     `ccci_ccb_write_alloc`: reserves the page at allocate_index, or answers NULL exactly when the
     buffer is not ready or the ring was full when free_index was last loaded (state `seen`).
     */
    method WriteAlloc() returns (r: Option<nat>, ghost seen: Fifo)
      requires Valid()
      modifies `allocateIndex, `readIndex, `freeIndex, `fifo, pages
      ensures Valid() && Reaches(old(fifo), seen) && Reaches(seen, fifo)
      ensures OnlyModem(old(fifo), seen)
      ensures r.None? <==>
                guardBand != 0xDDBB_CCAA || guardBandE != 0x1100_FFEE || |seen.cells| - seen.released == pages.Length - 1
      ensures r.None? ==> fifo == seen && pages[..] == old(pages[..])
      ensures r.Some? ==>
                var n := |old(fifo.cells)|;
                && OnlyModem(seen.(cells := seen.cells + [Open]), fifo)
                && r.value == base + PageOf(fifo, n) * pageSize + 8 && PageOf(fifo, n) == old(allocateIndex)
                && (forall m :: fifo.released <= m < n ==> PageOf(fifo, m) != PageOf(fifo, n))
                && pages[..] == old(pages[..])[PageOf(fifo, n) := old(pages[PageOf(fifo, n)]).(status := 0x1111_1111)]
      ensures r.Some? ==>
                && (forall a: nat :: r.value <= a < r.value + pageSize - 8 ==> InPage(base, pageSize, old(allocateIndex), a))
                && (forall a: nat, q: nat :: r.value <= a < r.value + pageSize - 8 ==> !InHeader(base, pageSize, q, a))
    {
      hide Inv, PagesMatch, Leads, Place, IndicesMatch, InPage, InHeader;
      seen := fifo;
      LeadsItself(Next, fifo);
      if guardBand != HEADER_MAGIC_AFTER || guardBandE != TAIL_MAGIC_AFTER {
        return None, fifo;
      }
      var available := CountAvailable();
      seen := fifo;
      LeadsItself(Next, fifo);
      r := None;
      InvBounds();
      if available != 0 {
        ModemMoves();
        r := Some(BufferAddress(allocateIndex));
        Grant(seen);
        DataPart(old(allocateIndex), r.value);
      }
    }

    /** The data part of page `p` begins behind its header, and meets no header. */
    lemma DataPart(p: nat, r: nat)
      requires r == BufferAddress(p)
      ensures r == base + p * pageSize + 8
      ensures forall a: nat :: r <= a < r + pageSize - 8 ==> InPage(base, pageSize, p, a)
      ensures forall a: nat, q: nat :: r <= a < r + pageSize - 8 ==> !InHeader(base, pageSize, q, a)
    {
      hide InPage, InHeader;
      assert pageSize * p == p * pageSize;
      forall a: nat | r <= a < r + pageSize - 8
        ensures InPage(base, pageSize, p, a)
      {
        DataClear(base, pageSize, p, p, a);
      }
      forall a: nat, q: nat | r <= a < r + pageSize - 8
        ensures !InHeader(base, pageSize, q, a)
      {
        DataClear(base, pageSize, p, q, a);
      }
    }

    lemma InvBounds()
      requires Valid()
      ensures |fifo.cells| - fifo.released <= pages.Length - 1
    {
    }

    /** The two stores of write_alloc: the page becomes ALLOC and allocate_index moves on. */
    method Grant(ghost seen: Fifo)
      requires Valid() && Reaches(seen, fifo)
      requires |fifo.cells| - fifo.released < pages.Length - 1
      modifies `allocateIndex, `fifo, pages
      ensures Valid() && Reaches(seen, fifo)
      ensures fifo == old(fifo).(cells := old(fifo.cells) + [Open])
      ensures var p := old(allocateIndex);
              && p < pages.Length && p == PageOf(fifo, |old(fifo.cells)|)
              && pages[..] == old(pages[..])[p := old(pages[p]).(status := PAGE_STATUS_ALLOC)]
              && (forall m :: fifo.released <= m < |old(fifo.cells)| ==> PageOf(fifo, m) != p)
    {
      hide Leads, Place, PagesMatch;
      ghost var before := fifo;
      PlaceNext(fifo.first, |fifo.cells|, fifo.pages);
      OnlyOwner(fifo, |fifo.cells|);
      ReservedPage(pages[..], fifo);
      pages[allocateIndex] := pages[allocateIndex].(status := PAGE_STATUS_ALLOC);
      if allocateIndex + 1 >= pages.Length {
        allocateIndex := 0;
      } else {
        allocateIndex := allocateIndex + 1;
      }
      fifo := fifo.(cells := fifo.cells + [Open]);
      assert Reserve(before, fifo);
      LeadsNext(Next, seen, before, fifo);
      forall m: nat
        ensures PageOf(fifo, m) == PageOf(before, m)
      {
      }
    }

    /** The owner of a reserved page fills it through the pointer it was given. */
    method Fill(p: nat, data: seq<byte>)
      requires Valid() && p < pages.Length && pages[p].status == PAGE_STATUS_ALLOC
      modifies pages
      ensures Valid()
      ensures pages[..] == old(pages[..])[p := old(pages[p]).(buffer := data)]
    {
      FilledPage(pages[..], fifo, p, data);
      pages[p] := pages[p].(buffer := data);
    }

    /**
     `ccci_ccb_write_done`: completes the page whose data part is at `address`, then publishes the
     completed pages from write_index on, up to the first page still being written.
     */
    method WriteDone(address: nat, length: nat) returns (r: DoneResult, ghost n: nat)
      requires Valid()
      modifies `writeIndex, `readIndex, `freeIndex, `fifo, pages
      ensures Valid() && Reaches(old(fifo), fifo)
      ensures r == Notified <==> (
                && guardBand == 0xDDBB_CCAA && guardBandE == 0x1100_FFEE && length <= pageSize
                && exists p :: 0 <= p < pages.Length && BufferAddress(p) == address && old(pages[p].status) == 0x1111_1111)
      ensures r == Invalid ==> fifo == old(fifo) && writeIndex == old(writeIndex) && pages[..] == old(pages[..])
      ensures r == Notified ==>
                && old(fifo.published) <= n < |old(fifo.cells)| && old(fifo.cells)[n].Open?
                && address == BufferAddress(PageOf(fifo, n))
                && fifo.cells == old(fifo.cells)[n := Closed(length, old(pages[PageOf(fifo, n)].buffer))]
                && old(fifo.published) <= fifo.published
                && (fifo.published == |fifo.cells| || fifo.cells[fifo.published].Open?)
    {
      hide Leads, Place, PagesMatch, Inv, IndicesMatch, Next, BufferAddress;
      n := 0;
      LeadsItself(Next, fifo);
      if guardBand != HEADER_MAGIC_AFTER || guardBandE != TAIL_MAGIC_AFTER {
        return Invalid, n;
      }
      if length > pageSize {
        return Invalid, n;
      }
      var i := SearchPage(address);
      if i == pages.Length {
        return Invalid, n;
      }
      if pages[i].status != PAGE_STATUS_ALLOC {
        OnlyAddress(i);
        return Invalid, n;
      }
      n := Complete(i, length);
      r := Notified;
      LeadsItself(Next, old(fifo));
      LeadsNext(Next, old(fifo), old(fifo), fifo);
      ghost var completed := fifo;
      ModemMoves();
      LeadsTransitive(Next, old(fifo), completed, fifo);
      PublishPrefix(old(fifo));
    }

    /** The search for the page whose data part is at `address`. */
    method SearchPage(address: nat) returns (i: nat)
      ensures i <= pages.Length
      ensures i < pages.Length ==> address == BufferAddress(i)
      ensures i == pages.Length ==> forall p :: 0 <= p < pages.Length ==> address != BufferAddress(p)
    {
      i := 0;
      while i < pages.Length
        invariant i <= pages.Length
        invariant forall p :: 0 <= p < i ==> address != BufferAddress(p)
      {
        if BufferAddress(i) == address {
          return;
        }
        i := i + 1;
      }
    }

    lemma OnlyAddress(i: nat)
      requires pageSize > 0
      ensures forall p: nat :: BufferAddress(p) == BufferAddress(i) ==> p == i
    {
      forall p: nat | BufferAddress(p) == BufferAddress(i)
        ensures p == i
      {
        MulOrder(p, i, pageSize);
        MulOrder(i, p, pageSize);
      }
    }

    /** Status and length of page `i` are stored. */
    method Complete(i: nat, length: nat) returns (ghost n: nat)
      requires Valid() && i < pages.Length && pages[i].status == PAGE_STATUS_ALLOC
      modifies `fifo, pages
      ensures Valid() && Next(old(fifo), fifo)
      ensures old(fifo.published) <= n < |old(fifo.cells)| && old(fifo.cells)[n].Open? && PageOf(fifo, n) == i
      ensures fifo == old(fifo).(cells := old(fifo.cells)[n := Closed(length, old(pages[i].buffer))])
      ensures pages[..] == old(pages[..])[i := Page(PAGE_STATUS_WRITE_DONE, length, old(pages[i].buffer))]
    {
      hide Place, PagesMatch;
      n := FindWriter(pages[..], fifo, i);
      ClosedPage(pages[..], fifo, n, length);
      ghost var before := fifo;
      fifo := fifo.(cells := fifo.cells[n := Closed(length, pages[i].buffer)]);
      pages[i] := pages[i].(status := PAGE_STATUS_WRITE_DONE);
      pages[i] := pages[i].(validLength := length);
      assert pages[..] == old(pages[..])[i := Page(PAGE_STATUS_WRITE_DONE, length, old(pages[i].buffer))];
      assert Close(before, fifo, n);
      NextKeepsInv(before, fifo);
    }

    /** The publishing loop, with the modem reading and freeing pages as they appear. */
    method PublishPrefix(ghost start: Fifo)
      requires Valid() && Reaches(start, fifo)
      modifies `writeIndex, `readIndex, `freeIndex, `fifo
      ensures Valid() && Reaches(start, fifo)
      ensures fifo.cells == old(fifo.cells) && fifo.pages == old(fifo.pages) && fifo.first == old(fifo.first)
      ensures old(fifo.published) <= fifo.published
      ensures fifo.published == |fifo.cells| || fifo.cells[fifo.published].Open?
    {
      hide Leads, Place, PagesMatch, Inv, Holds, Next, IndicesMatch;
      var i := writeIndex;
      PublishIndices();
      while i != allocateIndex
        invariant Valid() && Reaches(start, fifo)
        invariant i == writeIndex < pages.Length
        invariant i == allocateIndex <==> fifo.published == |fifo.cells|
        invariant fifo.cells == old(fifo.cells) && fifo.pages == old(fifo.pages) && fifo.first == old(fifo.first)
        invariant old(fifo.published) <= fifo.published <= |fifo.cells|
        decreases |fifo.cells| - fifo.published
      {
        StatusOfWritePage();
        if pages[i].status == PAGE_STATUS_WRITE_DONE {
          PublishOne(start);
        } else {
          break;
        }
        i := i + 1;
        if i >= pages.Length {
          i := 0;
        }
        ghost var before := fifo;
        ModemMoves();
        LeadsTransitive(Next, start, before, fifo);
        PublishIndices();
      }
    }

    lemma PublishIndices()
      requires Valid()
      ensures writeIndex < pages.Length
      ensures writeIndex == allocateIndex <==> fifo.published == |fifo.cells|
      ensures fifo.published <= |fifo.cells|
    {
      PlaceInjective(fifo.first, fifo.published, |fifo.cells|, fifo.pages);
    }

    lemma StatusOfWritePage()
      requires Valid() && fifo.published < |fifo.cells|
      ensures writeIndex < pages.Length
      ensures pages[writeIndex].status == PAGE_STATUS_WRITE_DONE <==> fifo.cells[fifo.published].Closed?
    {
      assert Holds(pages[writeIndex], fifo.cells[fifo.published]);
    }

    /** write_index moves past one completed page. */
    method PublishOne(ghost start: Fifo)
      requires Valid() && Reaches(start, fifo)
      requires fifo.published < |fifo.cells| && fifo.cells[fifo.published].Closed?
      modifies `writeIndex, `fifo
      ensures Valid() && Reaches(start, fifo)
      ensures fifo == old(fifo).(published := old(fifo.published) + 1)
      ensures writeIndex == if old(writeIndex) + 1 >= pages.Length then 0 else old(writeIndex) + 1
    {
      hide Leads, Place, PagesMatch;
      ghost var before := fifo;
      PlaceNext(fifo.first, fifo.published, fifo.pages);
      if writeIndex + 1 >= pages.Length {
        writeIndex := 0;
      } else {
        writeIndex := writeIndex + 1;
      }
      fifo := fifo.(published := fifo.published + 1);
      assert Publish(before, fifo);
      LeadsNext(Next, start, before, fifo);
      NarrowedWindow(pages[..], before, fifo);
    }
  }

  /** Nothing but modem progress separates the two states. */
  ghost predicate OnlyModem(s: Fifo, t: Fifo) {
    && t.pages == s.pages && t.first == s.first
    && t.cells == s.cells && t.published == s.published
    && s.delivered <= t.delivered && s.released <= t.released
  }
}

/**
 The NVRAM history journal: log pages written round-robin into the last blocks of a partition, and
 a super page, in the very last block, that keeps the next sequence number. On NAND a block is
 erased before its first page is written again; eMMC and UFS overwrite in place.
 */
module NvramJournal {
  import opened Arithmetic
  import opened Bytes

  const DEFAULT_LOG_LEVEL: nat := 1

  /** A page of the device: erased, a journal page (both kinds carry the journal magic), or anything else. */
  datatype Page<E> = Erased | LogPage(sequence: nat, entry: E) | SuperPage(sequence: nat) | Foreign

  /** Place of the journal on the device; the last `logBlock` blocks of `pagesPerBlock` pages. */
  datatype Layout = Layout(total: nat, pagesPerBlock: nat, logBlock: nat, nand: bool) {

    ghost predicate Valid() {
      && pagesPerBlock > 0 && logBlock >= 2
      && logBlock * pagesPerBlock <= total
    }

    /** First page of the log area. */
    function Start(): int {
      total - logBlock * pagesPerBlock
    }

    /** First page of the super block. */
    function Super(): int {
      total - pagesPerBlock
    }

    /** Pages in the log area. */
    function Capacity(): int {
      pagesPerBlock * (logBlock - 1)
    }
  }

  lemma Geometry(l: Layout)
    requires l.Valid()
    ensures 0 <= l.Start() && l.Start() + l.Capacity() == l.Super() && l.Super() + l.pagesPerBlock == l.total
    ensures l.Capacity() >= l.pagesPerBlock
    ensures l.Capacity() % l.pagesPerBlock == 0
  {
    assert l.logBlock * l.pagesPerBlock == l.pagesPerBlock * (l.logBlock - 1) + l.pagesPerBlock;
    assert l.pagesPerBlock * (l.logBlock - 1) == l.pagesPerBlock + l.pagesPerBlock * (l.logBlock - 2);
    MultipleMod(l.logBlock - 1, l.pagesPerBlock);
    assert l.pagesPerBlock * (l.logBlock - 1) == (l.logBlock - 1) * l.pagesPerBlock;
  }

  /** Log area, super block, end of the partition. */
  lemma Areas(l: Layout)
    requires l.Valid()
    ensures 0 <= l.Start() <= l.Super() < l.total
  {
    Geometry(l);
  }

  /** The page that entry `k` is written to. */
  function PageOf(l: Layout, k: nat): (p: int)
    requires l.Valid()
    ensures l.Start() <= p < l.Super()
  {
    Geometry(l);
    l.Start() + k % l.Capacity()
  }

  /** The page in terms of the device: from the first log page on, round and round below the super block. */
  lemma PagePlace(l: Layout, k: nat)
    requires l.Valid()
    ensures l.pagesPerBlock * (l.logBlock - 1) > 0
    ensures PageOf(l, k) == l.total - l.logBlock * l.pagesPerBlock + k % (l.pagesPerBlock * (l.logBlock - 1))
  {
    Geometry(l);
  }

  /** The number of pages in `b` blocks. */
  function Blocks(l: Layout, b: nat): nat {
    MulOrder(0, b, l.pagesPerBlock);
    b * l.pagesPerBlock
  }

  /** First of the entries still on the device after `n` were logged. */
  function RetainedFrom(l: Layout, n: nat): (k: nat)
    requires l.Valid()
  {
    if !l.nand then (if n <= l.Capacity() then 0 else n - l.Capacity())
    else if n == 0 then 0
    else
      var current := (n - 1) / l.pagesPerBlock;
      if current <= l.logBlock - 2 then 0 else Blocks(l, current - (l.logBlock - 2))
  }

  /** Past the retained entries: on NAND the rest of the current block is erased. */
  function RetainedTo(l: Layout, n: nat): (k: nat)
    requires l.Valid()
  {
    if !l.nand || n == 0 then n else Blocks(l, (n - 1) / l.pagesPerBlock + 1)
  }

  /** The device holds every entry that should still be there, at its page. */
  ghost predicate Retains<E>(pages: seq<Page<E>>, l: Layout, logged: seq<E>)
    requires l.Valid() && |pages| == l.total
  {
    Geometry(l);
    && (forall k :: RetainedFrom(l, |logged|) <= k < |logged| ==> pages[PageOf(l, k)] == LogPage(k, logged[k]))
    && (forall k :: |logged| <= k < RetainedTo(l, |logged|) ==> pages[PageOf(l, k)] == Erased)
  }

  lemma BlocksAdd(l: Layout, a: nat, b: nat)
    ensures Blocks(l, a + b) == Blocks(l, a) + Blocks(l, b)
    ensures Blocks(l, 1) == l.pagesPerBlock
  {
  }

  lemma LogBlocks(l: Layout)
    requires l.Valid()
    ensures Blocks(l, l.logBlock - 1) == l.Capacity() >= l.pagesPerBlock > 0
  {
    Geometry(l);
  }

  /** Entry `k` lies in block k / pagesPerBlock of the entries. */
  lemma InBlock(l: Layout, k: nat)
    requires l.Valid()
    ensures Blocks(l, k / l.pagesPerBlock) <= k < Blocks(l, k / l.pagesPerBlock + 1)
  {
    BlocksAdd(l, k / l.pagesPerBlock, 1);
  }

  lemma WindowSize(l: Layout, n: nat)
    requires l.Valid()
    ensures RetainedFrom(l, n) <= n <= RetainedTo(l, n) <= RetainedFrom(l, n) + l.Capacity()
    ensures RetainedFrom(l, n) == 0 || RetainedTo(l, n) == RetainedFrom(l, n) + l.Capacity()
    ensures n > 0 ==> RetainedFrom(l, n) < n
  {
    LogBlocks(l);
    if l.nand && n > 0 {
      WindowSizeNand(l, n);
    }
  }

  lemma WindowSizeNand(l: Layout, n: nat)
    requires l.Valid() && l.nand && n > 0
    ensures RetainedFrom(l, n) < n <= RetainedTo(l, n) <= RetainedFrom(l, n) + l.Capacity()
    ensures RetainedFrom(l, n) == 0 || RetainedTo(l, n) == RetainedFrom(l, n) + l.Capacity()
  {
    var c, m := (n - 1) / l.pagesPerBlock, l.logBlock - 1;
    InBlock(l, n - 1);
    LogBlocks(l);
    hide Blocks;
    if c < m {
      BlocksAdd(l, c + 1, m - (c + 1));
    } else {
      BlocksAdd(l, c + 1 - m, m);
      BlocksAdd(l, c + 1 - m, m - 1);
    }
  }

  /** Two entries within one turn of the log area have different pages. */
  lemma DistinctPages(l: Layout, j: nat, k: nat)
    requires l.Valid() && j < k < j + l.Capacity()
    ensures PageOf(l, j) != PageOf(l, k)
  {
    Geometry(l);
    if j % l.Capacity() == k % l.Capacity() {
      SameResidue(j, k, l.Capacity());
    }
  }

  /**
   What page `p` holds once entry `n` is logged, if it held `page`: the entry itself at its place, and on
   NAND nothing in the rest of a block that is begun.
   */
  function PageAfter<E>(l: Layout, n: nat, entry: E, p: nat, page: Page<E>): Page<E>
    requires l.Valid()
  {
    var at := PageOf(l, n);
    if p == at then LogPage(n, entry)
    else if l.nand && n % l.pagesPerBlock == 0 && at < p < at + l.pagesPerBlock then Erased
    else page
  }

  /**
   Logging entry `n`, in terms of the device alone. The entry goes to page `at`, counted from the first
   page of the last logBlock blocks and wrapping before the last of them, whose first page gets the
   next number. On NAND the last block is erased first, and so is the block of `at` when it begins
   there. No other page changes.
   */
  ghost predicate EntryPlaced<E>(before: seq<Page<E>>, after: seq<Page<E>>, l: Layout, n: nat, entry: E) {
    && |before| == |after| == l.total
    && 0 < l.pagesPerBlock && 0 < l.pagesPerBlock * (l.logBlock - 1)
    && var at := l.total - l.logBlock * l.pagesPerBlock + n % (l.pagesPerBlock * (l.logBlock - 1));
    var last := l.total - l.pagesPerBlock;
    && 0 <= at < last < l.total
    && after[at] == LogPage(n, entry)
    && after[last] == SuperPage(n + 1)
    && forall p :: 0 <= p < l.total && p != at && p != last ==>
         after[p] == if l.nand && (p > last || (n % l.pagesPerBlock == 0 && at < p < at + l.pagesPerBlock)) then Erased
                     else before[p]
  }

  lemma BelowLog<E>(l: Layout, n: nat, entry: E, p: nat, page: Page<E>)
    requires l.Valid() && p < l.Start()
    ensures PageAfter(l, n, entry, p, page) == page
  {
    hide Layout.Start, Layout.Super;
  }

  lemma PlacesEntry<E>(before: seq<Page<E>>, written: seq<Page<E>>, after: seq<Page<E>>, l: Layout, n: nat, entry: E)
    requires l.Valid() && |before| == |written| == |after| == l.total && n + 1 < WORD_LIMIT
    requires forall p :: 0 <= p < l.total ==> written[p] == PageAfter(l, n, entry, p, before[p])
    requires 0 <= l.total - l.pagesPerBlock < l.total && after[l.total - l.pagesPerBlock] == SuperPage((n + 1) % WORD_LIMIT)
    requires forall p :: 0 <= p < l.total && p != l.total - l.pagesPerBlock ==>
               after[p] == if l.nand && l.total - l.pagesPerBlock < p then Erased else written[p]
    ensures EntryPlaced(before, after, l, n, entry)
  {
    PagePlace(l, n);
    hide PageOf;
    var at := PageOf(l, n);
  }

  class Journal<E(!new)> {
    const layout: Layout
    const pages: array<Page<E>>
    ghost var logged: seq<E>

    ghost predicate Valid()
      reads this, pages
    {
      && layout.Valid() && pages.Length == layout.total
      && |logged| < WORD_LIMIT
      && Retains(pages[..], layout, logged)
      && Sequence(pages[..], layout) == |logged|
    }

    /** A journal on a device without a super page. */
    constructor (layout: Layout, pages: array<Page<E>>)
      requires layout.Valid() && pages.Length == layout.total
      requires Sequence(pages[..], layout) == 0
      ensures Valid() && logged == []
      ensures this.layout == layout && this.pages == pages
    {
      this.layout, this.pages := layout, pages;
      logged := [];
    }

    /**
     `NVM_GetSequenceNum`: zero on a device without a journal page in the super block. In a journal
     it is the number of entries logged so far, and the last of them is found with it.
     */
    method GetSequenceNum() returns (sequence: nat)
      requires layout.Valid() && pages.Length == layout.total
      ensures sequence == Sequence(pages[..], layout)
      ensures Valid() ==> sequence == |logged|
      ensures Valid() && sequence > 0 ==>
                var p := PageOf(layout, sequence - 1);
                0 <= p < pages.Length && pages[p] == LogPage(sequence - 1, logged[sequence - 1])
    {
      Geometry(layout);
      if Valid() && logged != [] {
        WindowSize(layout, |logged|);
        ReadableExactly(pages[..], layout, logged, |logged| - 1);
      }
      var page := pages[layout.Super()];
      match page
      case LogPage(s, _) => sequence := s;
      case SuperPage(s) => sequence := s;
      case _ => sequence := 0;
    }

    /** MEMERASE of the block that starts at page `start`. */
    method EraseBlock(start: nat)
      requires start + layout.pagesPerBlock <= pages.Length
      modifies pages
      ensures forall p :: 0 <= p < pages.Length ==>
                pages[p] == if start <= p < start + layout.pagesPerBlock then Erased else old(pages[p])
    {
      forall p | start <= p < start + layout.pagesPerBlock {
        pages[p] := Erased;
      }
    }

    /** `NVM_IncSequenceNum`. */
    method IncSequenceNum(sequence: nat)
      requires layout.Valid() && pages.Length == layout.total && sequence < WORD_LIMIT
      modifies pages
      ensures forall p :: 0 <= p < layout.Super() ==> pages[p] == old(pages[p])
      ensures layout.Super() >= 0 && Sequence(pages[..], layout) == (sequence + 1) % WORD_LIMIT
      ensures 0 <= layout.total - layout.pagesPerBlock < pages.Length
      ensures pages[layout.total - layout.pagesPerBlock] == SuperPage((sequence + 1) % 0x1_0000_0000)
      ensures forall p :: 0 <= p < pages.Length && p != layout.total - layout.pagesPerBlock ==>
                pages[p] == if layout.nand && layout.total - layout.pagesPerBlock < p then Erased else old(pages[p])
    {
      Geometry(layout);
      var offset := layout.Super();
      if layout.nand {
        EraseBlock(offset);
      }
      pages[offset] := SuperPage((sequence + 1) % WORD_LIMIT);
    }

    /** The erase, if a block begins on NAND, and the write of one log page. */
    method WriteLogPage(sequence: nat, entry: E)
      requires layout.Valid() && pages.Length == layout.total && sequence == |logged|
      requires Retains(pages[..], layout, logged)
      modifies pages
      ensures Retains(pages[..], layout, logged + [entry])
      ensures forall p :: 0 <= p < pages.Length ==> pages[p] == PageAfter(layout, sequence, entry, p, old(pages[p]))
    {
      Geometry(layout);
      hide Retains;
      ghost var before := pages[..];
      var offset := sequence % (layout.pagesPerBlock * (layout.logBlock - 1));
      if layout.nand {
        if sequence % layout.pagesPerBlock == 0 {
          BlockAligned(layout, sequence);
          EraseBlock(layout.Start() + offset);
        }
      }
      assert PageOf(layout, sequence) == layout.Start() + offset;
      ghost var erased := pages[..];
      assert ErasedFor(before, erased, layout, sequence);
      pages[layout.Start() + offset] := LogPage(sequence, entry);
      assert pages[..] == erased[PageOf(layout, sequence) := LogPage(sequence, entry)];
      LoggedEntry(before, erased, layout, logged, entry);
    }

    /**
     `NVM_HistoryLog`, below the wrap of the sequence number: the entry is logged, the entries that
     must survive do, and no page outside log area and super block changes.
     */
    method HistoryLog(level: nat, entry: E)
      requires Valid() && |logged| + 1 < WORD_LIMIT
      modifies `logged, pages
      ensures Valid()
      ensures logged == if level < DEFAULT_LOG_LEVEL then old(logged) else old(logged) + [entry]
      ensures forall p :: 0 <= p < pages.Length && p < layout.Start() ==> pages[p] == old(pages[p])
      ensures if level < 1 then pages[..] == old(pages[..])
              else EntryPlaced(old(pages[..]), pages[..], layout, |old(logged)|, entry)
    {
      hide Retains, Sequence, PageOf, PageAfter, EntryPlaced, Layout.Valid, Layout.Start, Layout.Super, Layout.Capacity;
      if level < DEFAULT_LOG_LEVEL {
        return;
      }
      Areas(layout);
      var sequence := GetSequenceNum();
      WriteLogPage(sequence, entry);
      ghost var written := pages[..];
      IncSequenceNum(sequence);
      SuperIsApart(written, pages[..], layout, logged + [entry]);
      forall p | 0 <= p < pages.Length && p < layout.Start()
        ensures pages[p] == old(pages[p])
      {
        BelowLog(layout, sequence, entry, p, old(pages[p]));
      }
      PlacesEntry(old(pages[..]), written, pages[..], layout, sequence, entry);
      logged := logged + [entry];
    }
  }

  /** What the super page says. */
  function Sequence<E>(pages: seq<Page<E>>, l: Layout): nat
    requires l.Valid() && |pages| == l.total
  {
    Geometry(l);
    match pages[l.Super()]
    case LogPage(s, _) => s
    case SuperPage(s) => s
    case _ => 0
  }

  /** The block erased before entry `n` lies inside the log area. */
  lemma BlockAligned(l: Layout, n: nat)
    requires l.Valid() && n % l.pagesPerBlock == 0
    ensures l.Capacity() > 0 && n % l.Capacity() + l.pagesPerBlock <= l.Capacity()
  {
    Geometry(l);
    var p, c := l.pagesPerBlock, l.Capacity();
    var r, q := n % c, n / c;
    var b, m := n / p, l.logBlock - 1;
    assert n == b * p && n == q * c + r;
    assert r == (b - q * m) * p by {
      assert q * c == (q * m) * p;
    }
    if b < q * m {
      assert (q * m - b) * p == q * c - n;
      MulOrder(1, q * m - b, p);
      assert false;
    }
    MulOrder(b - q * m, m, p);
    MulOrder(m, b - q * m, p);
  }

  ghost predicate ErasedFor<E>(before: seq<Page<E>>, erased: seq<Page<E>>, l: Layout, n: nat)
    requires l.Valid() && |before| == |erased| == l.total
  {
    Geometry(l);
    if l.nand && n % l.pagesPerBlock == 0 then
      forall p :: 0 <= p < l.total ==>
        erased[p] == if PageOf(l, n) <= p < PageOf(l, n) + l.pagesPerBlock then Erased else before[p]
    else erased == before
  }

  /** Pages of the entries that follow `n` in its block are consecutive. */
  lemma PagesOfBlock(l: Layout, n: nat, j: nat)
    requires l.Valid() && n % l.pagesPerBlock == 0 && j < l.pagesPerBlock
    ensures PageOf(l, n + j) == PageOf(l, n) + j
  {
    BlockAligned(l, n);
    Geometry(l);
    var c := l.Capacity();
    Division(n + j, c, n / c, n % c + j);
  }

  lemma LoggedEntry<E>(before: seq<Page<E>>, erased: seq<Page<E>>, l: Layout, logged: seq<E>, entry: E)
    requires l.Valid() && |before| == |erased| == l.total
    requires Retains(before, l, logged) && ErasedFor(before, erased, l, |logged|)
    ensures var p := PageOf(l, |logged|); 0 <= p < |erased| && Retains(erased[p := LogPage(|logged|, entry)], l, logged + [entry])
  {
    Geometry(l);
    hide Layout.Start, Layout.Super, Layout.Capacity;
    var n := |logged|;
    var p := PageOf(l, n);
    var after, longer := erased[p := LogPage(n, entry)], logged + [entry];
    hide PageOf;
    forall k | RetainedFrom(l, n + 1) <= k < n + 1
      ensures after[PageOf(l, k)] == LogPage(k, longer[k])
    {
      if k < n {
        OlderEntry(before, erased, l, logged, k);
      }
    }
    forall k | n + 1 <= k < RetainedTo(l, n + 1)
      ensures after[PageOf(l, k)] == Erased
    {
      PageAhead(before, erased, l, logged, k);
    }
  }

  /** An entry that stays retained is not where entry `n` goes, nor in the block erased for it. */
  lemma OlderEntry<E>(before: seq<Page<E>>, erased: seq<Page<E>>, l: Layout, logged: seq<E>, k: nat)
    requires l.Valid() && |before| == |erased| == l.total
    requires Retains(before, l, logged) && ErasedFor(before, erased, l, |logged|)
    requires RetainedFrom(l, |logged| + 1) <= k < |logged|
    ensures PageOf(l, k) != PageOf(l, |logged|) && 0 <= PageOf(l, k) < l.total
    ensures erased[PageOf(l, k)] == LogPage(k, logged[k])
  {
    Geometry(l);
    hide Layout.Start, Layout.Super, Layout.Capacity, RetainedFrom, RetainedTo, PageOf;
    var n := |logged|;
    WindowSize(l, n + 1);
    WindowGrows(l, n);
    DistinctPages(l, k, n);
    if l.nand && n % l.pagesPerBlock == 0 {
      OutsideBlock(l, k, n);
    }
  }

  /** The pages after entry `n` in its block are erased. */
  lemma PageAhead<E>(before: seq<Page<E>>, erased: seq<Page<E>>, l: Layout, logged: seq<E>, k: nat)
    requires l.Valid() && |before| == |erased| == l.total
    requires Retains(before, l, logged) && ErasedFor(before, erased, l, |logged|)
    requires |logged| < k < RetainedTo(l, |logged| + 1)
    ensures PageOf(l, k) != PageOf(l, |logged|) && 0 <= PageOf(l, k) < l.total
    ensures erased[PageOf(l, k)] == Erased
  {
    Geometry(l);
    hide Layout.Start, Layout.Super, Layout.Capacity, RetainedFrom, RetainedTo, PageOf;
    var n := |logged|;
    WindowSize(l, n + 1);
    WindowGrows(l, n);
    DistinctPages(l, n, k);
    if n % l.pagesPerBlock == 0 {
      PagesOfBlock(l, n, k - n);
    }
  }

  /** An entry retained when block `n` is begun is not in the pages of that block. */
  lemma OutsideBlock(l: Layout, k: nat, n: nat)
    requires l.Valid() && n % l.pagesPerBlock == 0 && k < n && n + l.pagesPerBlock <= k + l.Capacity()
    ensures !(PageOf(l, n) <= PageOf(l, k) < PageOf(l, n) + l.pagesPerBlock)
  {
    var j := PageOf(l, k) - PageOf(l, n);
    if 0 <= j < l.pagesPerBlock {
      PagesOfBlock(l, n, j);
      DistinctPages(l, k, n + j);
    }
  }

  /** How the window of retained entries moves when entry `n` is logged. */
  lemma WindowGrows(l: Layout, n: nat)
    requires l.Valid()
    ensures RetainedFrom(l, n) <= RetainedFrom(l, n + 1)
    ensures if l.nand && n % l.pagesPerBlock == 0 then RetainedTo(l, n + 1) == n + l.pagesPerBlock
            else if l.nand then RetainedTo(l, n + 1) == RetainedTo(l, n)
            else RetainedTo(l, n + 1) == n + 1
  {
    if l.nand {
      WindowGrowsNand(l, n);
    }
  }

  lemma WindowGrowsNand(l: Layout, n: nat)
    requires l.Valid() && l.nand
    ensures RetainedFrom(l, n) <= RetainedFrom(l, n + 1)
    ensures RetainedTo(l, n + 1) == if n % l.pagesPerBlock == 0 then n + l.pagesPerBlock else RetainedTo(l, n)
  {
    var b := n / l.pagesPerBlock;
    BlocksAdd(l, b, 1);
    BlockBefore(l, n);
    hide Blocks;
    if n > 0 && n % l.pagesPerBlock == 0 && b - 1 > l.logBlock - 2 {
      BlocksAdd(l, b - 1 - (l.logBlock - 2), 1);
    }
  }

  /** The block of the entry before `n`. */
  lemma BlockBefore(l: Layout, n: nat)
    requires l.Valid()
    ensures n % l.pagesPerBlock == 0 ==> Blocks(l, n / l.pagesPerBlock) == n
    ensures n % l.pagesPerBlock != 0 ==> n > 0 && (n - 1) / l.pagesPerBlock == n / l.pagesPerBlock
    ensures n % l.pagesPerBlock == 0 && n > 0 ==> (n - 1) / l.pagesPerBlock == n / l.pagesPerBlock - 1
  {
    var p, b, r := l.pagesPerBlock, n / l.pagesPerBlock, n % l.pagesPerBlock;
    assert n == b * p + r;
    if r != 0 {
      Division(n - 1, p, b, r - 1);
    } else if n > 0 {
      FrontBlock(b, p);
      Division(n - 1, p, b - 1, p - 1);
    }
  }

  /** The super block holds no log entry. */
  lemma SuperIsApart<E>(written: seq<Page<E>>, after: seq<Page<E>>, l: Layout, logged: seq<E>)
    requires l.Valid() && |written| == |after| == l.total && Retains(written, l, logged)
    requires forall p :: 0 <= p < l.Super() ==> after[p] == written[p]
    ensures Retains(after, l, logged)
  {
    Geometry(l);
  }

  /** How old an entry may be: in entries where pages are overwritten one by one, in blocks on NAND. */
  lemma RetainedByAge(l: Layout, n: nat, k: nat)
    requires l.Valid() && k < n
    ensures k >= RetainedFrom(l, n) <==>
              if l.nand then (n - 1) / l.pagesPerBlock - k / l.pagesPerBlock <= l.logBlock - 2
              else n - k <= l.pagesPerBlock * (l.logBlock - 1)
  {
    InBlock(l, k);
    var b, first := k / l.pagesPerBlock, (n - 1) / l.pagesPerBlock - (l.logBlock - 2);
    if l.nand && first > 0 {
      hide Blocks;
      if b >= first {
        BlocksAdd(l, first, b - first);
      } else {
        BlocksAdd(l, b + 1, first - (b + 1));
      }
    }
  }

  /**
   What can be read back: entry `k` of `n` is at its page exactly when it is no older than the
   retention window says; every older one has been overwritten or erased.
   */
  lemma ReadableExactly<E>(pages: seq<Page<E>>, l: Layout, logged: seq<E>, k: nat)
    requires l.Valid() && |pages| == l.total && Retains(pages, l, logged) && k < |logged|
    ensures 0 <= PageOf(l, k) < |pages|
    ensures pages[PageOf(l, k)] == LogPage(k, logged[k]) <==> k >= RetainedFrom(l, |logged|)
    ensures pages[PageOf(l, k)] == LogPage(k, logged[k]) <==>
              if l.nand then (|logged| - 1) / l.pagesPerBlock - k / l.pagesPerBlock <= l.logBlock - 2
              else |logged| - k <= l.pagesPerBlock * (l.logBlock - 1)
  {
    RetainedByAge(l, |logged|, k);
    Geometry(l);
    var n, c := |logged|, l.Capacity();
    WindowSize(l, n);
    var lo := RetainedFrom(l, n);
    if k < lo {
      // the entry of the window that shares the page
      var m := lo + (k - lo) % c;
      SameTurn(k, lo, c);
      assert PageOf(l, m) == PageOf(l, k);
    }
  }

  lemma SameTurn(k: nat, lo: nat, c: nat)
    requires c > 0 && k < lo
    ensures lo <= lo + (k - lo) % c < lo + c && (lo + (k - lo) % c) % c == k % c
  {
    var r := (k - lo) % c;
    var q := (k - lo) / c;
    assert k - lo == q * c + r;
    var a, p := k / c, k % c;
    assert k == a * c + p;
    assert lo + r == (a - q) * c + p;
    if a < q {
      MulOrder(1, q - a, c);
      assert false;
    }
    Division(lo + r, c, a - q, p);
  }
}

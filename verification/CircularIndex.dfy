/** Page rings of `hardware/ccci/ccci_lib.c`: circular indices and page headers. */
module CircularIndex {
  import opened Bytes
  import opened Arithmetic

  const PAGE_STATUS_ALLOC: uint32 := 0x1111_1111
  const PAGE_STATUS_WRITE_DONE: uint32 := 0x2222_2222
  const HEADER_MAGIC_AFTER: uint32 := 0xDDBB_CCAA
  const TAIL_MAGIC_AFTER: uint32 := 0x1100_FFEE
  const PAGE_HEADER_SIZE: nat := 8

  datatype Page = Page(status: uint32, validLength: nat, buffer: seq<byte>)

  /** The circular index `n` steps after `first`. */
  function Place(first: nat, n: nat, pages: nat): (p: nat)
    requires pages > 0
    ensures p < pages
  {
    (first + n) % pages
  }

  /** Positions less than one turn apart have the same index only if they are the same. */
  lemma PlaceInjective(first: nat, m: nat, n: nat, pages: nat)
    requires pages > 0 && m <= n < m + pages
    ensures Place(first, m, pages) == Place(first, n, pages) <==> m == n
  {
    if Place(first, m, pages) == Place(first, n, pages) {
      SameResidue(first + m, first + n, pages);
    }
  }

  lemma PlaceStart(first: nat, pages: nat)
    requires first < pages
    ensures Place(first, 0, pages) == first
  {
  }

  /** How far index `b` is ahead of index `a`. */
  function Distance(a: nat, b: nat, pages: nat): (d: int)
    requires a < pages && b < pages
    ensures 0 <= d < pages
  {
    if a <= b then b - a else b - a + pages
  }

  lemma DistancePlace(a: nat, b: nat, pages: nat)
    requires a < pages && b < pages
    ensures Place(a, Distance(a, b, pages), pages) == b
  {
    Division(a + Distance(a, b, pages), pages, if a <= b then 0 else 1, b);
  }

  /** The wrap test that every index update in the source makes. */
  lemma PlaceNext(first: nat, n: nat, pages: nat)
    requires pages > 0
    ensures Place(first, n + 1, pages) == if Place(first, n, pages) + 1 >= pages then 0 else Place(first, n, pages) + 1
  {
    NextResidue(first + n, pages);
  }

  /** The circular index `d` places before index `p`. */
  function Back(p: nat, d: nat, total: nat): int {
    if d <= p then p - d else p - d + total
  }

  /** An index seen from a position at most one turn later. */
  lemma IndexBefore(a: nat, f: nat, total: nat)
    requires total > 0 && f <= a < f + total
    ensures f % total == Back(a % total, a - f, total)
  {
    var q, p, d := a / total, a % total, a - f;
    assert a == q * total + p;
    if d <= p {
      Division(f, total, q, p - d);
    } else {
      MulOrder(0, q, total);
      assert q > 0;
      FrontBlock(q, total);
      Division(f, total, q - 1, p - d + total);
    }
  }

  // Addresses. Page `q` starts at base + q * pageSize with its status and length, four bytes each.

  ghost predicate InHeader(base: nat, pageSize: nat, q: nat, a: nat) {
    base + q * pageSize <= a < base + q * pageSize + 8
  }

  ghost predicate InPage(base: nat, pageSize: nat, q: nat, a: nat) {
    base + q * pageSize <= a < base + q * pageSize + pageSize
  }

  /** What is written from eight bytes after the start of a page on stays in the page, and clear of every header. */
  lemma DataClear(base: nat, pageSize: nat, p: nat, q: nat, a: nat)
    requires base + p * pageSize + 8 <= a < base + p * pageSize + pageSize
    ensures InPage(base, pageSize, p, a) && !InHeader(base, pageSize, q, a)
  {
    MulOrder(p, q, pageSize);
    MulOrder(q, p, pageSize);
  }
}

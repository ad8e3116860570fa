/**
 What the uplink page ring of `hardware/ccci/ccci_lib.c` is for: a queue of pages. The
 application processor reserves places in order and fills them in any order; the modem receives
 them in the order of reservation. Positions count reservations since the start and never wrap;
 position n lives in page (first + n) % pages, where `first` is the page the
 ring started at.
 */
module PageFifo {
  import opened Bytes
  import opened CircularIndex
  import opened Runs

  /** A reserved position: still being written, or completed with a length and the page's bytes. */
  datatype Cell = Open | Closed(length: nat, data: seq<byte>)

  /** What the modem saw when it read a page. */
  datatype Delivery = Delivery(page: nat, length: nat, data: seq<byte>)

  datatype Fifo = Fifo(
    pages: nat,
    first: nat,
    cells: seq<Cell>,             // every reservation ever made
    published: nat,               // positions visible to the modem
    delivered: seq<Delivery>,     // what the modem has read
    released: nat)                // positions whose page the modem has given back

  function Empty(pages: nat, first: nat): Fifo {
    Fifo(pages, first, [], 0, [], 0)
  }

  /** The page that position `n` lives in. */
  function PageOf(s: Fifo, n: nat): (p: nat)
    requires s.pages > 0
    ensures p < s.pages
  {
    Place(s.first, n, s.pages)
  }

  ghost predicate Inv(s: Fifo) {
    && s.pages > 0
    && s.released <= |s.delivered| <= s.published <= |s.cells|
    && |s.cells| - s.released <= s.pages - 1
    && (forall n :: 0 <= n < s.published ==> s.cells[n].Closed?)
    && (forall n :: 0 <= n < |s.delivered| ==> s.delivered[n] == Sent(s, n))
  }

  function Sent(s: Fifo, n: nat): Delivery
    requires s.pages > 0 && n < |s.cells|
  {
    if s.cells[n].Closed? then Delivery(PageOf(s, n), s.cells[n].length, s.cells[n].data)
    else Delivery(PageOf(s, n), 0, [])
  }

  // The atomic steps, each one store to a shared index or page header.

  ghost predicate Reserve(s: Fifo, t: Fifo) {
    && |s.cells| - s.released < s.pages - 1
    && t == s.(cells := s.cells + [Open])
  }

  ghost predicate Close(s: Fifo, t: Fifo, n: nat) {
    && s.published <= n < |s.cells| == |t.cells|
    && s.cells[n].Open? && t.cells[n].Closed?
    && t == s.(cells := s.cells[n := t.cells[n]])
  }

  ghost predicate Publish(s: Fifo, t: Fifo) {
    && s.published < |s.cells| && s.cells[s.published].Closed?
    && t == s.(published := s.published + 1)
  }

  ghost predicate Deliver(s: Fifo, t: Fifo) {
    && s.pages > 0
    && |s.delivered| < s.published <= |s.cells|
    && t == s.(delivered := s.delivered + [Sent(s, |s.delivered|)])
  }

  ghost predicate Release(s: Fifo, t: Fifo) {
    && s.released < |s.delivered|
    && t == s.(released := s.released + 1)
  }

  ghost predicate ModemStep(s: Fifo, t: Fifo) {
    Deliver(s, t) || Release(s, t)
  }

  ghost predicate Next(s: Fifo, t: Fifo) {
    || Reserve(s, t)
    || (exists n :: Close(s, t, n))
    || Publish(s, t)
    || ModemStep(s, t)
  }

  /** A run of the system: any interleaving of processor and modem steps. */
  ghost predicate Run(run: seq<Fifo>) {
    IsRun(Next, run)
  }

  ghost predicate Reaches(s: Fifo, t: Fifo) {
    Leads(Next, s, t)
  }

  lemma NextKeepsInv(s: Fifo, t: Fifo)
    requires Inv(s) && Next(s, t)
    ensures Inv(t)
    ensures t.pages == s.pages && t.first == s.first && |s.cells| <= |t.cells| && s.published <= t.published && s.released <= t.released
    ensures s.delivered <= t.delivered
    ensures forall n :: 0 <= n < |s.cells| && s.cells[n].Closed? ==> t.cells[n] == s.cells[n]
  {
  }

  /** The invariant holds in every state of every run that starts in a state satisfying it. */
  lemma {:induction false} RunKeepsInv(run: seq<Fifo>, i: nat)
    requires Run(run) && Inv(run[0]) && i < |run|
    ensures Inv(run[i]) && run[i].pages == run[0].pages && run[i].first == run[0].first
    ensures |run[0].cells| <= |run[i].cells| && run[0].delivered <= run[i].delivered
  {
    hide Next, Inv;
    if i > 0 {
      RunKeepsInv(run, i - 1);
      assert Next(run[i - 1], run[i]);
      NextKeepsInv(run[i - 1], run[i]);
    }
  }

  /** What the ring's methods reach is a state of such a run. */
  lemma ReachableInv(s: Fifo, t: Fifo)
    requires Inv(s) && Reaches(s, t)
    ensures Inv(t) && t.pages == s.pages && t.first == s.first && s.delivered <= t.delivered
    ensures forall i :: 0 <= i < |t.delivered| ==> (
              && i < |t.cells| && t.cells[i].Closed?
              && t.delivered[i] == Delivery(PageOf(t, i), t.cells[i].length, t.cells[i].data))
  {
    var run :| IsRun(Next, run) && run[0] == s && run[|run| - 1] == t;
    RunKeepsInv(run, |run| - 1);
  }

  /** The position is reserved and completed. */
  predicate Completed(s: Fifo, n: nat) {
    n < |s.cells| && s.cells[n].Closed?
  }

  /** A cell that was not closed when the run began was closed by exactly one earlier step. */
  lemma {:induction false} ClosedByAStep(run: seq<Fifo>, i: nat, n: nat) returns (j: nat)
    requires Run(run) && Inv(run[0]) && !Completed(run[0], n) && i < |run|
    requires Completed(run[i], n)
    ensures j < i && n < |run[j].cells|
    ensures run[j].cells[n].Open? && run[j + 1].cells[n] == run[i].cells[n]
    ensures |run[j].delivered| <= n
  {
    RunKeepsInv(run, i - 1);
    assert Next(run[i - 1], run[i]);
    NextKeepsInv(run[i - 1], run[i]);
    if Completed(run[i - 1], n) {
      j := ClosedByAStep(run, i - 1, n);
    } else {
      j := i - 1;
    }
  }

  /**
   First in, first out. In any run, whatever the order of completion and the interleaving with the
   modem: the i-th page the modem reads is the i-th page reserved, with the length and bytes that it
   had when the run began, if it was complete then, or those recorded by the one step of the run that
   completed that reservation.
   */
  lemma ReadsInOrderOfReservation(run: seq<Fifo>, i: nat)
    requires Run(run) && Inv(run[0]) && i < |run[|run| - 1].delivered|
    ensures var d := run[|run| - 1].delivered[i];
            && d.page == PageOf(run[0], i)
            && if Completed(run[0], i) then run[0].cells[i] == Closed(d.length, d.data)
               else exists j :: 0 <= j < |run| - 1 && i < |run[j].cells| == |run[j + 1].cells|
                      && Close(run[j], run[j + 1], i)
                      && run[j + 1].cells[i] == Closed(d.length, d.data)
                      && |run[j].delivered| <= i
  {
    var last := run[|run| - 1];
    RunKeepsInv(run, |run| - 1);
    assert last.delivered[i] == Sent(last, i);
    if Completed(run[0], i) {
      ClosedStays(run, |run| - 1, i);
    } else {
      var j := ClosedByAStep(run, |run| - 1, i);
      RunKeepsInv(run, j);
      assert Next(run[j], run[j + 1]);
      OnlyCloseCloses(run[j], run[j + 1], i);
    }
  }

  lemma {:induction false} ClosedStays(run: seq<Fifo>, i: nat, n: nat)
    requires Run(run) && Inv(run[0]) && Completed(run[0], n) && i < |run|
    ensures n < |run[i].cells| && run[i].cells[n] == run[0].cells[n]
  {
    if i > 0 {
      RunKeepsInv(run, i - 1);
      ClosedStays(run, i - 1, n);
      assert Next(run[i - 1], run[i]);
      NextKeepsInv(run[i - 1], run[i]);
    }
  }

  lemma OnlyCloseCloses(s: Fifo, t: Fifo, n: nat)
    requires Inv(s) && Next(s, t) && n < |s.cells| && s.cells[n].Open?
    requires n < |t.cells| && t.cells[n].Closed?
    ensures |s.cells| == |t.cells| && Close(s, t, n)
  {
    var m :| Close(s, t, m);
    assert m == n;
  }

  /** A page is reused only after the modem has given it back. */
  lemma PageIsFree(s: Fifo, m: nat)
    requires Inv(s) && s.released <= m < |s.cells| && |s.cells| - s.released < s.pages
    ensures PageOf(s, m) != PageOf(s, |s.cells|)
  {
    PlaceInjective(s.first, m, |s.cells|, s.pages);
  }
}

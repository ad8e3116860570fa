/**
 The downlink page ring as a queue: the modem sends, the application processor takes pages in
 order and gives them back one at a time, or flushes everything. Positions count messages since
 the start and never wrap; position n lives in page (first + n) % pages.
 */
module DownlinkQueue {
  import opened Bytes
  import opened CircularIndex
  import opened Runs

  datatype Message = Message(length: nat, data: seq<byte>)

  datatype Queue = Queue(
    pages: nat,
    first: nat,
    sent: seq<Message>,   // everything the modem has published
    got: seq<nat>,        // positions handed to the reader
    read: nat,            // next position to hand out
    released: nat)        // positions whose page is free again

  function Empty(pages: nat, first: nat): Queue {
    Queue(pages, first, [], [], 0, 0)
  }

  function PageOf(s: Queue, n: nat): (p: nat)
    requires s.pages > 0
    ensures p < s.pages
  {
    Place(s.first, n, s.pages)
  }

  ghost predicate Inv(s: Queue) {
    && s.pages >= 2
    && s.released <= s.read <= |s.sent| <= s.released + s.pages - 1
    && (forall i, j :: 0 <= i < j < |s.got| ==> s.got[i] < s.got[j])
    && (forall i :: 0 <= i < |s.got| ==> s.got[i] < s.read)
  }

  ghost predicate Send(s: Queue, t: Queue) {
    && |s.sent| - s.released < s.pages - 1
    && |t.sent| == |s.sent| + 1
    && t == s.(sent := s.sent + [t.sent[|s.sent|]])
  }

  ghost predicate Get(s: Queue, t: Queue) {
    && s.read < |s.sent|
    && t == s.(got := s.got + [s.read], read := s.read + 1)
  }

  ghost predicate Done(s: Queue, t: Queue) {
    && s.read == s.released + 1
    && t == s.(released := s.released + 1)
  }

  /** First store of a flush: read_index becomes the write_index loaded before. */
  ghost predicate Skip(s: Queue, t: Queue) {
    && s.read <= t.read <= |s.sent|
    && t == s.(read := t.read)
  }

  /** Second store of a flush: everything handed out or skipped is given back. */
  ghost predicate Drop(s: Queue, t: Queue) {
    t == s.(released := s.read)
  }

  ghost predicate NextNoFlush(s: Queue, t: Queue) {
    Send(s, t) || Get(s, t) || Done(s, t)
  }

  ghost predicate Next(s: Queue, t: Queue) {
    NextNoFlush(s, t) || Skip(s, t) || Drop(s, t)
  }

  ghost predicate Run(run: seq<Queue>) {
    IsRun(Next, run)
  }

  ghost predicate RunNoFlush(run: seq<Queue>) {
    IsRun(NextNoFlush, run)
  }

  /** Every message is handed out at most once and in the order sent, flushes or not. */
  lemma {:induction false} OrderInEveryRun(run: seq<Queue>, i: nat)
    requires Run(run) && Inv(run[0]) && i < |run|
    ensures Inv(run[i]) && run[i].pages == run[0].pages && run[i].first == run[0].first
    ensures run[0].sent <= run[i].sent && run[0].got <= run[i].got
  {
    if i > 0 {
      OrderInEveryRun(run, i - 1);
      assert Next(run[i - 1], run[i]);
    }
  }

  /** Without a flush no message is skipped: position k is the k-th one handed out. */
  lemma {:induction false} NothingSkipped(run: seq<Queue>, i: nat)
    requires RunNoFlush(run) && run[0] == Empty(run[0].pages, run[0].first) && i < |run|
    ensures |run[i].got| == run[i].read
    ensures forall k :: 0 <= k < |run[i].got| ==> run[i].got[k] == k
  {
    if i > 0 {
      NothingSkipped(run, i - 1);
      assert NextNoFlush(run[i - 1], run[i]);
    }
  }

  /**
   Taking a second page before giving back the first wedges the ring: from then on, until a
   flush, no page is ever given back, so the modem can send only until the ring is full.
   */
  lemma {:induction false} TwoOutstandingNeverReleased(run: seq<Queue>, i: nat)
    requires RunNoFlush(run) && Inv(run[0]) && i < |run|
    requires run[0].read >= run[0].released + 2
    ensures run[i].released == run[0].released && run[i].read >= run[i].released + 2
    ensures Inv(run[i]) && run[i].pages == run[0].pages
    ensures |run[i].sent| <= run[0].released + run[0].pages - 1
  {
    if i > 0 {
      TwoOutstandingNeverReleased(run, i - 1);
      assert NextNoFlush(run[i - 1], run[i]);
    }
  }

  ghost predicate Reaches(s: Queue, t: Queue) {
    Leads(Next, s, t)
  }

}

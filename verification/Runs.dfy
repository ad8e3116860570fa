/** Runs of a transition system, given by its relation between successive states. */
module Runs {

  ghost predicate IsRun<S(!new)>(next: (S, S) -> bool, run: seq<S>) {
    && |run| > 0
    && forall i :: 0 <= i < |run| - 1 ==> next(run[i], run[i + 1])
  }

  /** Some run leads from `s` to `t`. */
  ghost predicate Leads<S(!new)>(next: (S, S) -> bool, s: S, t: S) {
    exists run :: IsRun(next, run) && run[0] == s && run[|run| - 1] == t
  }

  lemma LeadsItself<S(!new)>(next: (S, S) -> bool, s: S)
    ensures Leads(next, s, s)
  {
    assert IsRun(next, [s]);
  }

  lemma LeadsNext<S(!new)>(next: (S, S) -> bool, s: S, t: S, u: S)
    requires Leads(next, s, t) && next(t, u)
    ensures Leads(next, s, u)
  {
    var run :| IsRun(next, run) && run[0] == s && run[|run| - 1] == t;
    assert IsRun(next, run + [u]);
    assert (run + [u])[|run|] == u;
  }

  lemma LeadsTransitive<S(!new)>(next: (S, S) -> bool, s: S, t: S, u: S)
    requires Leads(next, s, t) && Leads(next, t, u)
    ensures Leads(next, s, u)
  {
    var a :| IsRun(next, a) && a[0] == s && a[|a| - 1] == t;
    var b :| IsRun(next, b) && b[0] == t && b[|b| - 1] == u;
    var run := a + b[1..];
    forall i | 0 <= i < |run| - 1
      ensures next(run[i], run[i + 1])
    {
      if i >= |a| - 1 {
        assert next(b[i - |a| + 1], b[i - |a| + 2]);
      }
    }
    assert IsRun(next, run) && run[0] == s && run[|run| - 1] == u;
  }
}

/**
  Putting runs of the pipeline machine together.
 */
module PipelineRuns {
  import opened SharedInfo
  import opened Pipeline

  ghost predicate CanReach(s: State, s': State) {
    exists steps :: Reaches(s, steps, s')
  }

  lemma OneStep(s: State, step: Step)
    requires Bounds(s) && Enabled(s, step)
    ensures CanReach(s, Apply(s, step))
  {
    assert Reaches(Apply(s, step), [step][1..], Apply(s, step));
    assert Reaches(s, [step], Apply(s, step));
  }

  /** One step of the fetcher with a fresh load. */
  lemma FetcherStep(s: State, f: Fetcher, info: Info)
    requires Bounds(s) && CanFetch(s, s.con.taken)
    requires FetchStep(s, s.con.taken, false) == s.(fet := f, info := info)
    ensures CanReach(s, s.(fet := f, info := info))
  {
    OneStep(s, Fetch(s.con.taken, false));
  }

  lemma {:induction false} RunsCompose(s: State, a: seq<Step>, s1: State, b: seq<Step>, s2: State)
    requires Reaches(s, a, s1) && Reaches(s1, b, s2)
    ensures Reaches(s, a + b, s2)
    decreases |a|
  {
    if a == [] {
      assert a + b == b;
    } else {
      RunsCompose(Apply(s, a[0]), a[1..], s1, b, s2);
      assert (a + b)[0] == a[0] && (a + b)[1..] == a[1..] + b;
    }
  }

  lemma Then(s: State, s1: State, s2: State)
    requires CanReach(s, s1) && CanReach(s1, s2)
    ensures CanReach(s, s2)
  {
    var a :| Reaches(s, a, s1);
    var b :| Reaches(s1, b, s2);
    RunsCompose(s, a, s1, b, s2);
  }
}

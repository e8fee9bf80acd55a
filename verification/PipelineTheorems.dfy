/**
  What the pipeline guarantees in every state that any interleaving of source,
  fetcher and consumer can reach.
 */
module PipelineTheorems {
  import opened EventLog
  import opened SharedInfo
  import opened Pipeline
  import opened PipelineInvariant
  import opened PipelineRuns

  ghost predicate Reachable(s: State) {
    exists cfg: Config, steps :: 1 <= cfg.thr < cfg.cap && Reaches(Init(cfg), steps, s)
  }

  lemma ReachableInv(s: State)
    requires Reachable(s)
    ensures Inv(s)
  {
    var cfg: Config, steps :| 1 <= cfg.thr < cfg.cap && Reaches(Init(cfg), steps, s);
    InitInv(cfg);
    RunKeepsInv(Init(cfg), steps, s);
  }

  /** Reachable with a consumer that publishes carefully. */
  ghost predicate CarefullyReachable(s: State) {
    exists cfg: Config, steps :: 1 <= cfg.thr < cfg.cap && CarefullyReaches(Init(cfg), steps, s)
  }

  lemma CarefullyReachableSafe(s: State)
    requires CarefullyReachable(s)
    ensures Safe(s) && Reachable(s)
  {
    var cfg: Config, steps :| 1 <= cfg.thr < cfg.cap && CarefullyReaches(Init(cfg), steps, s);
    InitInv(cfg);
    CarefulRunKeepsSafe(Init(cfg), steps, s);
    CarefulRunIsRun(Init(cfg), steps, s);
  }

  /** Between two events: nothing is in hand and no hole is half written. */
  predicate AtBoundary(f: Fetcher) {
    Getting(f.pc) || f.pc.FHandle? || f.pc.FEnd? || f.pc.FDone?
  }

  // ---------------------------------------------------------------------
  // The log
  // ---------------------------------------------------------------------

  /** Whether the stream's end wrote a hole shows in the log. */
  lemma EndHoleIsVisible(s: State)
    requires Reachable(s)
    ensures s.fet.endHole <==> EndsShort(s.fet.out)
  {
    ReachableInv(s);
    EveryIdAccounted(s.fet.out);
  }

  lemma BoundaryCovers(s: State)
    requires Reachable(s) && AtBoundary(s.fet)
    ensures Covered(s.fet.out) + s.fet.droppedNum == s.fet.consumed
    ensures GapFree(s.fet.out) || (ClosedByEndHole(s.fet.out) && s.fet.droppedNum == 0)
  {
    ReachableInv(s);
  }

  lemma PendingAppended(ids: seq<int>, covered: nat, pending: nat)
    requires ids == Ids(1, covered)
    ensures ids + Ids(covered + 1, pending) == Ids(1, covered + pending)
    ensures |ids| + pending == covered + pending
  {
    IdsConcat(1, covered, pending);
  }

  lemma NothingAppended(ids: seq<int>, first: int)
    ensures ids + Ids(first, 0) == ids
  {
  }

  lemma GapFreeAndPending(log: seq<Entry>, pending: nat)
    requires GapFree(log)
    ensures !EndsShort(log) && |Expand(log)| == Covered(log)
    ensures Accounted(log) + Ids(Covered(log) + 1, pending) == Ids(1, Covered(log) + pending)
    ensures Expand(log) + Ids(Covered(log) + 1, pending) == Ids(1, Covered(log) + pending)
  {
    EveryIdAccounted(log);
    PendingAppended(Expand(log), Covered(log), pending);
  }

  lemma ClosedAndPending(log: seq<Entry>)
    requires ClosedByEndHole(log)
    ensures EndsShort(log) && |Expand(log)| == Covered(log)
    ensures Accounted(log) + Ids(Covered(log) + 1, 0) == Ids(1, Covered(log))
    ensures Expand(log) + Ids(Covered(log) + 1, 0) != Ids(1, Covered(log))
  {
    EveryIdAccounted(log);
    EndHoleExpands(log);
    NothingAppended(Expand(log), Covered(log) + 1);
    NothingAppended(Accounted(log), Covered(log) + 1);
  }

  /** The output is a lossless encoding of the input exactly as long as the stream
      did not end in the middle of a run of dropped events, which shows in a last hole
      one short: expanding the log and adding the events being dropped gives the
      identifiers 1, 2, ... once each. Counting that hole as one later, it always is. */
  lemma LosslessIffNoEndHole(s: State)
    requires Reachable(s) && AtBoundary(s.fet)
    ensures Expand(s.fet.out) + Ids(Covered(s.fet.out) + 1, s.fet.droppedNum) == Ids(1, s.fet.consumed)
       <==> !EndsShort(s.fet.out)
    ensures |Expand(s.fet.out)| + s.fet.droppedNum == s.fet.consumed
    ensures Accounted(s.fet.out) + Ids(Covered(s.fet.out) + 1, s.fet.droppedNum) == Ids(1, s.fet.consumed)
  {
    BoundaryCovers(s);
    if GapFree(s.fet.out) {
      GapFreeAndPending(s.fet.out, s.fet.droppedNum);
    } else {
      ClosedAndPending(s.fet.out);
    }
  }

  lemma {:induction false} HoleFollowedByEvent(log: seq<Entry>, i: nat)
    requires GapFree(log) && i + 1 < |log| && log[i].Hole?
    ensures log[i + 1].Ev?
  {
    if i + 2 < |log| {
      HoleFollowedByEvent(Front(log), i);
    }
  }

  /** No two holes are adjacent, and identifiers strictly increase up to a hole
      written at the stream's end, whose identifier may repeat the one before it. */
  lemma LogIsOrdered(s: State, i: nat, j: nat)
    requires Reachable(s) && i < j < |s.fet.out|
    ensures j == i + 1 ==> s.fet.out[i].Ev? || s.fet.out[j].Ev?
    ensures s.fet.out[i].id < s.fet.out[j].id
         || (EndsShort(s.fet.out) && j == |s.fet.out| - 1 && s.fet.out[j] == Hole(s.fet.out[i].id, 1))
  {
    ReachableInv(s);
    EndHoleIsVisible(s);
    var log := s.fet.out;
    if s.fet.endHole {
      assert log[i] == Front(log)[i];
      GapFreeAscends(Front(log));
      if j < |log| - 1 {
        assert log[j] == Front(log)[j];
        if j == i + 1 && log[i].Hole? {
          HoleFollowedByEvent(Front(log), i);
        }
      }
    } else {
      GapFreeAscends(log);
      if j == i + 1 && log[i].Hole? {
        HoleFollowedByEvent(log, i);
      }
    }
  }

  /** The statistics are exact between events, whether or not the stream has ended. */
  lemma Conservation(s: State)
    requires Reachable(s) && AtBoundary(s.fet)
    ensures s.fet.consumed == Forwarded(s.fet.out) + s.fet.totalNum + s.fet.droppedNum
    ensures |s.fet.out| == Forwarded(s.fet.out) + s.fet.totalTimes
  {
    ReachableInv(s);
    CountsAddUp(s.fet.out);
  }

  // ---------------------------------------------------------------------
  // Space
  // ---------------------------------------------------------------------

  /** A hole push never fails, and after fetch returned an event the next write
      pointer is never NULL, for any threshold and however the consumer moves. */
  lemma SpaceGuarantee(s: State, observed: nat, check: bool)
    requires Reachable(s)
    ensures Bounds(s) && !s.fet.pc.FCrash?
    ensures s.fet.pc.FPushHole? && CanFetch(s, observed) ==>
      FetchStep(s, observed, check).fet.pc == FPublishHole(s.fet.pc.upto, s.fet.pc.ending)
    ensures s.fet.pc.FForward? && CanFetch(s, observed) ==>
      FetchStep(s, observed, check).fet.pc == FFill(s.fet.pc.id)
    ensures s.fet.pc.FPublishHole? || s.fet.pc.FFill? ==> |s.fet.out| - s.con.taken < s.cfg.cap
  {
    ReachableInv(s);
  }

  /** With an empty buffer and a fresh load, pending lost events are flushed next. */
  lemma EmptyBufferFlushes(s: State, check: bool)
    requires Reachable(s) && s.con.taken == |s.fet.out| && s.fet.droppedNum > 0
    requires s.fet.pc.FHandle? || s.fet.pc.FEnd?
    ensures Bounds(s)
    ensures FetchStep(s, s.con.taken, check).fet.pc == FPushHole(Covered(s.fet.out) + s.fet.droppedNum - (if s.fet.pc.FEnd? then 1 else 0), s.fet.pc.FEnd?)
  {
    ReachableInv(s);
  }

  // ---------------------------------------------------------------------
  // The end of the stream
  // ---------------------------------------------------------------------

  lemma QuietStep(s: State, step: Step)
    requires Inv(s) && Quiet(s.src, s.fet) && Enabled(s, step)
    ensures Apply(s, step).src == s.src && Quiet(s.src, Apply(s, step).fet)
    ensures Apply(s, step).fet.out == s.fet.out
    ensures Apply(s, step).fet.consumed == s.fet.consumed
  {
  }

  lemma {:induction false} QuietForever(s: State, steps: seq<Step>, s': State)
    requires Inv(s) && Quiet(s.src, s.fet) && Reaches(s, steps, s')
    ensures s'.src == s.src && s'.fet.out == s.fet.out && s'.fet.consumed == s.fet.consumed
    ensures Quiet(s'.src, s'.fet)
    decreases |steps|
  {
    if steps != [] {
      StepKeepsInv(s, steps[0]);
      QuietStep(s, steps[0]);
      QuietForever(Apply(s, steps[0]), steps[1..], s');
    }
  }

  /** fetch returns NULL only when the source is destroyed, the ring is drained and no
      dropped event is pending; and then every event pushed is in the log for good, as
      itself or in a hole. */
  lemma NullOnlyWhenDrained(s: State, steps: seq<Step>, s': State)
    requires Reachable(s) && s.fet.pc.FDone? && Reaches(s, steps, s')
    ensures Quiet(s.src, s.fet)
    ensures Accounted(s'.fet.out) == Ids(1, s'.src.pushed)
    ensures s'.src.pushed == s.src.pushed && s'.fet.out == s.fet.out
  {
    ReachableInv(s);
    QuietForever(s, steps, s');
    EveryIdAccounted(s.fet.out);
  }

  /** If is_done answers true, every event ever pushed was taken out of the buffer, as
      itself or in a hole, and nothing is pushed or written afterwards. */
  lemma IsDoneIsSound(s: State, steps: seq<Step>, s': State)
    requires Reachable(s) && s.con.pc.CDone? && Reaches(s, steps, s')
    ensures s.con.taken == |s.fet.out|
    ensures !EndsShort(s.fet.out) ==> Expand(s.fet.out) == Ids(1, s.src.pushed)
    ensures EndsShort(s.fet.out) ==>
              Expand(Front(s.fet.out)) + Ids(Last(s.fet.out).id + 2 - Last(s.fet.out).n, Last(s.fet.out).n)
                == Ids(1, s.src.pushed)
    ensures s'.fet.out == s.fet.out && s'.src.pushed == s.src.pushed
  {
    ReachableInv(s);
    QuietForever(s, steps, s');
    EveryIdAccounted(s.fet.out);
  }

  /** What becomes of lost events that are pending, or not, once the stream was found
      at its end. */
  predicate EndsWith(f: Fetcher, pending: bool) {
    match f.pc
    case FEnd => if pending then f.endHole || 0 < f.droppedNum else f.droppedNum == 0 && !f.endHole
    case FDone => f.endHole <==> pending
    case FPushHole(_, ending) => ending && pending
    case FPublishHole(_, ending) => ending && pending
    case FCount(_, ending) => ending && pending && f.endHole
    case FNotify(_, ending) => ending && pending && f.endHole
    case FReset(_, ending) => ending && pending && f.endHole
    case _ => false
  }

  lemma EndsWithKeptByFetch(s: State, observed: nat, check: bool, pending: bool)
    requires Inv(s) && EndsWith(s.fet, pending) && CanFetch(s, observed)
    ensures EndsWith(FetchStep(s, observed, check).fet, pending)
  {
  }

  lemma EndsWithKept(s: State, step: Step, pending: bool)
    requires Inv(s) && EndsWith(s.fet, pending) && Enabled(s, step)
    ensures EndsWith(Apply(s, step).fet, pending)
  {
    if step.Fetch? {
      EndsWithKeptByFetch(s, step.observed, step.check, pending);
      assert Apply(s, step) == FetchStep(s, step.observed, step.check);
    } else {
      assert Apply(s, step).fet == s.fet;
    }
  }

  lemma {:induction false} EndsWithForever(s: State, steps: seq<Step>, s': State, pending: bool)
    requires Inv(s) && EndsWith(s.fet, pending) && Reaches(s, steps, s')
    ensures EndsWith(s'.fet, pending)
    decreases |steps|
  {
    if steps != [] {
      StepKeepsInv(s, steps[0]);
      EndsWithKept(s, steps[0], pending);
      EndsWithForever(Apply(s, steps[0]), steps[1..], s', pending);
    }
  }

  /** Whether the whole output is a lossless encoding of the input is decided when
      handle_stream_end looks at dropped_num: when fetch has returned NULL, the log
      expands to exactly the identifiers of the events pushed if and only if no dropped
      event was pending when the stream was found at its end. */
  lemma LosslessIffNothingPending(s: State, steps: seq<Step>, s': State)
    requires Reachable(s) && s.fet.pc.FEnd? && !s.fet.endHole
    requires Reaches(s, steps, s') && s'.fet.pc.FDone?
    ensures Expand(s'.fet.out) == Ids(1, s'.src.pushed) <==> s.fet.droppedNum == 0
  {
    ReachableInv(s);
    EndsWithForever(s, steps, s', 0 < s.fet.droppedNum);
    RunKeepsInv(s, steps, s');
    EveryIdAccounted(s'.fet.out);
    if s'.fet.endHole {
      EndHoleExpands(s'.fet.out);
    } else {
      GapFreeExpands(s'.fet.out);
    }
  }

  // ---------------------------------------------------------------------
  // What may be reclaimed
  // ---------------------------------------------------------------------

  /** The consumer can still reach the event: it is not forwarded yet (perhaps not
      even pushed), or it is in the arbiter buffer. */
  ghost predicate Live(s: State, id: nat) {
    Handled(s.fet) < id || exists j :: s.con.taken <= j < |s.fet.out| && s.fet.out[j] == Ev(id)
  }

  /** The event's payload is still needed: it was neither published as processed nor
      dropped by the fetcher. The consumer may have taken it out of the buffer already
      and be working on it. */
  predicate Needed(s: State, id: nat) {
    s.info.lastProcessed < id && (Handled(s.fet) < id || Ev(id) in s.fet.out)
  }

  /** Nothing that is needed lies in a recorded dropped range. */
  lemma NeededIsNotDropped(s: State, id: nat)
    requires Inv(s) && Needed(s, id)
    ensures s.info.lastProcessed < id && !InSomeRange(s.info, id)
  {
    if id <= Handled(s.fet) {
      var j :| 0 <= j < |s.fet.out| && s.fet.out[j] == Ev(id);
    }
  }

  /** With a careful consumer, what it can still reach is needed. */
  lemma LiveIsNeeded(s: State, id: nat)
    requires Safe(s) && Live(s, id)
    ensures Needed(s, id)
  {
    assert Covered(s.fet.out) <= Handled(s.fet);
  }

  /** No event that the consumer can still reach is published as processed or lies in a
      recorded dropped range. */
  lemma GarbageCollectionIsSafe(s: State, id: nat)
    requires CarefullyReachable(s) && Live(s, id)
    ensures s.info.lastProcessed < id && !InSomeRange(s.info, id)
  {
    CarefullyReachableSafe(s);
    LiveIsNeeded(s, id);
    NeededIsNotDropped(s, id);
  }

  /** The assertion that published identifiers never decrease holds at every drop of a
      careful consumer, and for the entry it takes next. */
  lemma PublishingIsMonotone(s: State)
    requires CarefullyReachable(s)
    ensures s.con.pc.CNotifying? ==> MayPublish(s, s.con.pc.id)
    ensures s.con.pc.CIdle? && s.con.taken < |s.fet.out| ==> MayPublish(s, s.fet.out[s.con.taken].id)
  {
    CarefullyReachableSafe(s);
  }

  /** A recorded range contains only events that were read and not forwarded. */
  lemma RangesHoldOnlyLost(s: State, i: nat, id: nat)
    requires Reachable(s) && i < |s.info.slots| && 0 < id && Within(s.info.slots[i], id)
    ensures id <= s.fet.consumed && Ev(id) !in s.fet.out
  {
    ReachableInv(s);
  }

  /** The test for a range right before the current one is false on every call. */
  lemma AdjacencyTestIsDead(s: State)
    requires Reachable(s) && Notifying(s.fet.pc)
    ensures WellFormed(s.info) && !AdjacencyTest(s.info)
  {
    ReachableInv(s);
    AdjacencyNeverFires(s);
  }

  /** The only empty range is the one recorded when the stream ends after a single
      dropped event. */
  lemma EmptyRangeIff(s: State)
    requires Reachable(s) && Notifying(s.fet.pc)
    ensures NotifiedEnd(s.fet.pc) < s.fet.dropBegin
       <==> s.fet.pc.FNotify? && s.fet.pc.ending && s.fet.droppedNum == 1
  {
    ReachableInv(s);
  }

  lemma LiveShrinksByFetch(s: State, observed: nat, check: bool, id: nat)
    requires Inv(s) && CanFetch(s, observed) && Live(FetchStep(s, observed, check), id)
    ensures Live(s, id)
  {
    var s' := FetchStep(s, observed, check);
    FetchExtends(s, observed, check);
    if id <= Handled(s'.fet) {
      var j :| s'.con.taken <= j < |s'.fet.out| && s'.fet.out[j] == Ev(id);
      assert j < |s.fet.out| ==> s.fet.out[j] == Ev(id);
    }
  }

  /** A step never makes an event live again. */
  lemma LiveShrinks(s: State, step: Step, id: nat)
    requires Inv(s) && Enabled(s, step) && Live(Apply(s, step), id)
    ensures Live(s, id)
  {
    var s' := Apply(s, step);
    if step.Fetch? {
      LiveShrinksByFetch(s, step.observed, step.check, id);
    } else {
      assert s'.fet == s.fet && s.con.taken <= s'.con.taken;
    }
  }

  /** Nor is a payload ever needed again. */
  lemma NeededShrinks(s: State, step: Step, id: nat)
    requires Inv(s) && Enabled(s, step) && Needed(Apply(s, step), id)
    ensures Needed(s, id)
  {
    var s' := Apply(s, step);
    if step.Fetch? {
      FetchExtends(s, step.observed, step.check);
      assert s' == FetchStep(s, step.observed, step.check);
    } else {
      assert s'.fet == s.fet;
    }
  }

  /** The state after drop_older_than(bound) has dropped and published. */
  function AfterDropOlder(s: State, bound: nat): State
    requires Bounds(s)
  {
    s.(con := Consumer(CIdle, s.con.taken + OlderCount(Buffered(s), bound)),
       info := s.info.(lastProcessed := bound))
  }

  /** Those are the steps of drop_older_than, uninterrupted. */
  lemma DropOlderReaches(s: State, bound: nat)
    requires Inv(s) && s.con.pc.CIdle? && 0 < OlderCount(Buffered(s), bound) && MayPublish(s, bound)
    ensures CanReach(s, AfterDropOlder(s, bound))
  {
    var num := OlderCount(Buffered(s), bound);
    var s1 := s.(con := s.con.(pc := CDropping(num, bound)));
    DropOlderBegins(s, DropOlder(bound));
    OneStep(s, DropOlder(bound));
    var s2 := s.(con := Consumer(CNotifying(bound), s.con.taken + num));
    OneStep(s1, Continue);
    assert Apply(s1, Continue) == s2;
    Then(s, s1, s2);
    OneStep(s2, Continue);
    assert Apply(s2, Continue) == AfterDropOlder(s, bound);
    Then(s, s2, AfterDropOlder(s, bound));
  }

  /** A bound that names only handled events protects everything live. */
  lemma HandledBoundIsSafe(s: State, bound: nat, id: nat)
    requires Inv(s) && bound <= Handled(s.fet) && Live(AfterDropOlder(s, bound), id)
    ensures bound < id
  {
    LogAscends(s.fet.out);
    if id <= Handled(s.fet) {
      var n := OlderCount(Buffered(s), bound);
      var j :| s.con.taken + n <= j < |s.fet.out| && s.fet.out[j] == Ev(id);
      assert Buffered(s)[n] == s.fet.out[s.con.taken + n];
    }
  }

  lemma NewestBuffered(s: State)
    requires Inv(s) && s.fet.out != []
    ensures Last(s.fet.out).id <= Handled(s.fet)
    ensures s.fet.droppedNum == 0 && !s.fet.endHole ==> Last(s.fet.out).id == Handled(s.fet)
  {
    LogAscends(s.fet.out);
    assert Covered(s.fet.out) <= Handled(s.fet);
  }

  /** drop_older_than publishes its argument, not the identifier it found. That is
      safe exactly when the argument names no event the fetcher has not handled yet;
      while nothing is being dropped the caller can check that against the newest
      entry it sees in the buffer. */
  lemma {:induction false} DropOlderSafeIff(s: State, bound: nat)
    requires Inv(s) && s.con.pc.CIdle? && 0 < OlderCount(Buffered(s), bound)
    ensures (forall id: nat | Live(AfterDropOlder(s, bound), id) :: bound < id) <==> bound <= Handled(s.fet)
    ensures bound <= Last(s.fet.out).id ==> bound <= Handled(s.fet)
    ensures s.fet.droppedNum == 0 && !s.fet.endHole ==>
      (bound <= Handled(s.fet) <==> bound <= Last(s.fet.out).id)
  {
    NewestBuffered(s);
    if bound <= Handled(s.fet) {
      forall id: nat | Live(AfterDropOlder(s, bound), id)
        ensures bound < id
      {
        HandledBoundIsSafe(s, bound, id);
      }
    } else {
      assert Live(AfterDropOlder(s, bound), Handled(s.fet) + 1);
    }
  }
}

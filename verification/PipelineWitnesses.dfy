/**
  Runs of the pipeline that reach what PipelineTheorems says may go wrong: a stream
  that ends in the middle of a run of dropped events, and a consumer that publishes
  an event it has not come to yet.
 */
module PipelineWitnesses {
  import opened EventLog
  import opened SharedInfo
  import opened Pipeline
  import opened PipelineRuns
  import opened PipelineInvariant
  import opened PipelineTheorems

  /** A buffer for two entries, with threshold 1. */
  const SMALL := Config(2, 1, 3)

  ghost predicate FromSmall(s: State) {
    CanReach(Init(SMALL), s)
  }

  lemma FromSmallIsReachable(s: State)
    requires FromSmall(s)
    ensures Reachable(s)
  {
    var steps :| Reaches(Init(SMALL), steps, s);
    assert 1 <= SMALL.thr < SMALL.cap && Reaches(Init(SMALL), steps, s);
  }

  lemma Take(s: State, step: Step)
    requires FromSmall(s) && Bounds(s) && Enabled(s, step)
    ensures FromSmall(Apply(s, step))
  {
    OneStep(s, step);
    Then(Init(SMALL), s, Apply(s, step));
  }

  lemma TakeFetch(s: State, f: Fetcher, info: Info)
    requires FromSmall(s) && Bounds(s) && CanFetch(s, s.con.taken)
    requires FetchStep(s, s.con.taken, false) == s.(fet := f, info := info)
    ensures FromSmall(s.(fet := f, info := info))
  {
    FetcherStep(s, f, info);
    Then(Init(SMALL), s, s.(fet := f, info := info));
  }

  /** `n` events pushed, and the fetcher about to read. */
  function Pushed(n: nat, destroyed: bool): State {
    Init(SMALL).(src := Source(n, destroyed))
  }

  lemma PushedIsReached(n: nat)
    requires n <= 3
    ensures FromSmall(Pushed(n, false))
  {
    if n == 0 {
      assert Reaches(Init(SMALL), [], Init(SMALL));
    } else {
      PushedIsReached(n - 1);
      Take(Pushed(n - 1, false), SPush);
      assert Apply(Pushed(n - 1, false), SPush) == Pushed(n, false);
    }
  }

  /** The fetcher's state after it forwarded the next event. */
  function Forwarded1(s: State): Fetcher {
    s.fet.(consumed := s.fet.consumed + 1, lastEvId := 1, view := s.con.taken,
           out := s.fet.out + [Ev(s.fet.consumed + 1)])
  }

  lemma ReadOne(s: State)
    requires FromSmall(s) && Bounds(s) && s.fet.pc == FRead && s.fet.consumed < s.src.pushed
    ensures FromSmall(s.(fet := s.fet.(lastEvId := s.fet.consumed + 1, pc := FHandle(s.fet.consumed + 1))))
  {
    TakeFetch(s, s.fet.(lastEvId := s.fet.consumed + 1, pc := FHandle(s.fet.consumed + 1)), s.info);
  }

  lemma DecideToForward(s: State, id: nat)
    requires FromSmall(s) && Bounds(s) && s.fet.pc == FHandle(id) && s.fet.droppedNum == 0
    requires |s.fet.out| - s.con.taken < s.cfg.cap
    ensures FromSmall(s.(fet := s.fet.(view := s.con.taken, pc := FFill(id))))
  {
    var f1 := s.fet.(view := s.con.taken, pc := FForward(id));
    TakeFetch(s, f1, s.info);
    TakeFetch(s.(fet := f1), f1.(pc := FFill(id)), s.info);
  }

  lemma Forward(s: State, id: nat)
    requires FromSmall(s) && Bounds(s) && s.fet.pc == FFill(id)
    requires |s.fet.out| < s.fet.view + s.cfg.cap && s.fet.consumed < s.src.pushed
    ensures FromSmall(s.(fet := s.fet.(consumed := s.fet.consumed + 1, lastEvId := 1, out := s.fet.out + [Ev(id)],
                                       pc := FRead)))
  {
    var f1 := s.fet.(out := s.fet.out + [Ev(id)], pc := FFwdConsume(id));
    TakeFetch(s, f1, s.info);
    TakeFetch(s.(fet := f1), f1.(consumed := f1.consumed + 1, lastEvId := 1, pc := FRead), s.info);
  }

  lemma ForwardOne(s: State)
    requires FromSmall(s) && Bounds(s) && s.fet.pc == FRead && s.fet.droppedNum == 0
    requires s.fet.consumed < s.src.pushed && |s.fet.out| - s.con.taken < s.cfg.cap
    ensures FromSmall(s.(fet := Forwarded1(s)))
  {
    var id := s.fet.consumed + 1;
    var f1 := s.fet.(lastEvId := id, pc := FHandle(id));
    ReadOne(s);
    var f2 := f1.(view := s.con.taken, pc := FFill(id));
    DecideToForward(s.(fet := f1), id);
    Forward(s.(fet := f2), id);
    assert f2.(consumed := f2.consumed + 1, lastEvId := 1, out := f2.out + [Ev(id)], pc := FRead) == Forwarded1(s);
  }

  lemma DecideToDrop(s: State, id: nat)
    requires FromSmall(s) && Bounds(s) && s.fet.pc == FHandle(id) && s.fet.droppedNum == 0
    requires |s.fet.out| - s.con.taken == s.cfg.cap
    ensures FromSmall(s.(fet := s.fet.(view := s.con.taken, dropBegin := id, pc := FStarted(id))))
  {
    var f1 := s.fet.(view := s.con.taken, pc := FStart(id));
    TakeFetch(s, f1, s.info);
    TakeFetch(s.(fet := f1), f1.(dropBegin := id, pc := FStarted(id)), s.info);
  }

  lemma Dropped1(s: State, id: nat)
    requires FromSmall(s) && Bounds(s) && s.fet.pc == FStarted(id) && s.fet.droppedNum == 0
    requires s.fet.consumed < s.src.pushed
    ensures FromSmall(s.(fet := s.fet.(droppedNum := 1, holeNum := 1, consumed := s.fet.consumed + 1, pc := FRead)))
  {
    var f1 := s.fet.(droppedNum := 1, holeNum := 1, pc := FDropConsume(id));
    TakeFetch(s, f1, s.info);
    TakeFetch(s.(fet := f1), f1.(consumed := f1.consumed + 1, pc := FRead), s.info);
  }

  /** The fetcher drops the event it has in hand, the first of a run. */
  lemma DropOne(s: State, id: nat)
    requires FromSmall(s) && Bounds(s) && s.fet.pc == FHandle(id) && s.fet.droppedNum == 0
    requires |s.fet.out| - s.con.taken == s.cfg.cap && s.fet.consumed < s.src.pushed
    ensures FromSmall(s.(fet := s.fet.(view := s.con.taken, dropBegin := id, droppedNum := 1, holeNum := 1,
                                       consumed := s.fet.consumed + 1, pc := FRead)))
  {
    DecideToDrop(s, id);
    Dropped1(s.(fet := s.fet.(view := s.con.taken, dropBegin := id, pc := FStarted(id))), id);
  }

  /** The fetcher finds the source gone and its ring drained. */
  lemma FindTheEnd(s: State)
    requires FromSmall(s) && Bounds(s) && s.fet.pc == FRead
    requires s.src.destroyed && s.fet.consumed == s.src.pushed
    ensures FromSmall(s.(fet := s.fet.(pc := FEnd)))
  {
    TakeFetch(s, s.fet.(pc := FEmpty), s.info);
    var s1 := s.(fet := s.fet.(pc := FEmpty));
    var s2 := s.(fet := s.fet.(pc := FSawDestroyed));
    Take(s1, Fetch(s1.fet.view, true));
    assert Apply(s1, Fetch(s1.fet.view, true)) == s2;
    TakeFetch(s2, s2.fet.(pc := FEnd), s.info);
  }

  /** Two events are forwarded, the third one is dropped, the source goes, and the
      consumer takes what is there. */
  const BEFORE_END: Fetcher :=
    Fetcher(FEnd, 3, 3, [Ev(1), Ev(2)], 0, 1, 3, 1, 0, 0, false)

  function AtEnd(f: Fetcher, info: Info): State {
    State(SMALL, Source(3, true), f, Consumer(CIdle, 2), info)
  }

  lemma TwoForwarded()
    ensures FromSmall(Pushed(3, false).(fet := Fetcher(FRead, 1, 2, [Ev(1), Ev(2)], 0, 0, 0, 0, 0, 0, false)))
  {
    PushedIsReached(3);
    var s := Pushed(3, false);
    ForwardOne(s);
    assert [] + [Ev(1)] == [Ev(1)];
    var s1 := s.(fet := Forwarded1(s));
    ForwardOne(s1);
    assert [Ev(1)] + [Ev(2)] == [Ev(1), Ev(2)];
  }

  lemma ThirdDropped()
    ensures FromSmall(Pushed(3, false).(fet := BEFORE_END.(pc := FRead)))
  {
    TwoForwarded();
    var s := Pushed(3, false).(fet := Fetcher(FRead, 1, 2, [Ev(1), Ev(2)], 0, 0, 0, 0, 0, 0, false));
    ReadOne(s);
    DropOne(s.(fet := s.fet.(lastEvId := 3, pc := FHandle(3))), 3);
  }

  lemma EndIsReached()
    ensures FromSmall(AtEnd(BEFORE_END, INITIAL_INFO))
  {
    ThirdDropped();
    var s := Pushed(3, false).(fet := BEFORE_END.(pc := FRead));
    Take(s, SDestroy);
    var s1 := Pushed(3, true).(fet := BEFORE_END.(pc := FRead));
    assert Apply(s, SDestroy) == s1;
    FindTheEnd(s1);
    var s2 := Pushed(3, true).(fet := BEFORE_END);
    Take(s2, Pop);
    var s3 := s2.(con := Consumer(CIdle, 1));
    assert Apply(s2, Pop) == s3;
    Take(s3, Pop);
    assert Apply(s3, Pop) == AtEnd(BEFORE_END, INITIAL_INFO);
  }

  /** The hole of the stream's end is written, its range about to be recorded. */
  const END_HOLE_WRITTEN: Fetcher :=
    Fetcher(FNotify(2, true), 3, 3, [Ev(1), Ev(2), Hole(2, 1)], 2, 1, 3, 1, 1, 1, true)

  lemma EndHoleIsWritten()
    ensures FromSmall(AtEnd(END_HOLE_WRITTEN, INITIAL_INFO))
  {
    EndIsReached();
    var f := BEFORE_END;
    var f1 := f.(view := 2, pc := FPushHole(2, true));
    TakeFetch(AtEnd(f, INITIAL_INFO), f1, INITIAL_INFO);
    var f2 := f1.(pc := FPublishHole(2, true));
    TakeFetch(AtEnd(f1, INITIAL_INFO), f2, INITIAL_INFO);
    var f3 := f2.(out := [Ev(1), Ev(2), Hole(2, 1)], endHole := true, pc := FCount(2, true));
    assert f2.out + [Hole(2, 1)] == f3.out;
    TakeFetch(AtEnd(f2, INITIAL_INFO), f3, INITIAL_INFO);
    TakeFetch(AtEnd(f3, INITIAL_INFO), END_HOLE_WRITTEN, INITIAL_INFO);
  }

  /** The empty range of EmptyRangeIff is recorded on a real run. */
  lemma EmptyRangeIsReached() returns (s: State)
    ensures Reachable(s) && Notifying(s.fet.pc)
    ensures s.fet.dropBegin == 3 && NotifiedEnd(s.fet.pc) == 2
  {
    s := AtEnd(END_HOLE_WRITTEN, INITIAL_INFO);
    EndHoleIsWritten();
    FromSmallIsReachable(s);
  }

  lemma LossyLog()
    ensures var log := [Ev(1), Ev(2), Hole(2, 1)];
            EndsShort(log) && Expand(log) == [1, 2, 2] != Ids(1, 3)
  {
    var log := [Ev(1), Ev(2), Hole(2, 1)];
    assert Front(log) == [Ev(1), Ev(2)] && Front([Ev(1), Ev(2)]) == [Ev(1)] && Front([Ev(1)]) == [];
    assert Expand([Ev(1)]) == [1];
    assert Expand([Ev(1), Ev(2)]) == [1, 2];
    assert Covered([Ev(1)]) == 1 && Covered([Ev(1), Ev(2)]) == 2 && Covered(log) == 3;
    assert EntryIds(Hole(2, 1)) == [2];
    assert Ids(1, 3)[2] == 3;
  }

  /** The lossy log of LosslessIffNoEndHole is reached: the last of three events is lost,
      and the log stands for 1, 2, 2. */
  lemma LossyLogIsReached() returns (s: State)
    ensures Reachable(s) && AtBoundary(s.fet) && s.fet.consumed == 3
    ensures s.fet.out == [Ev(1), Ev(2), Hole(2, 1)] && EndsShort(s.fet.out)
    ensures Expand(s.fet.out) == [1, 2, 2] != Ids(1, 3)
  {
    EndHoleIsWritten();
    var s1 := AtEnd(END_HOLE_WRITTEN, INITIAL_INFO);
    var info := NotifyDropped(INITIAL_INFO, 3, 2);
    TakeFetch(s1, END_HOLE_WRITTEN.(pc := FReset(2, true)), info);
    var f := END_HOLE_WRITTEN.(droppedNum := 0, pc := FEnd);
    TakeFetch(AtEnd(END_HOLE_WRITTEN.(pc := FReset(2, true)), info), f, info);
    s := AtEnd(f, info);
    FromSmallIsReachable(s);
    LossyLog();
  }

  lemma DropUpTo5(s: State)
    requires FromSmall(s) && Bounds(s) && s.con == Consumer(CIdle, 0) && s.info == INITIAL_INFO
    requires |s.fet.out| == 1 && OlderCount(Buffered(s), 5) == 1
    ensures FromSmall(s.(con := Consumer(CIdle, 1), info := INITIAL_INFO.(lastProcessed := 5)))
  {
    Take(s, DropOlder(5));
    var s2 := s.(con := Consumer(CDropping(1, 5), 0));
    assert Apply(s, DropOlder(5)) == s2;
    Take(s2, Continue);
    var s3 := s.(con := Consumer(CNotifying(5), 1));
    assert Apply(s2, Continue) == s3;
    Take(s3, Continue);
    assert Apply(s3, Continue) == s.(con := Consumer(CIdle, 1), info := INITIAL_INFO.(lastProcessed := 5));
  }

  /** One event is in the buffer, the second one in the shared ring, and the consumer
      drops up to 5: the second event is published as processed before it was read. */
  lemma CarelessBoundIsReached() returns (s: State)
    ensures Reachable(s) && Live(s, 2) && 2 <= s.info.lastProcessed
  {
    PushedIsReached(2);
    var s0 := Pushed(2, false);
    ForwardOne(s0);
    var s1 := s0.(fet := Forwarded1(s0));
    assert Buffered(s1) == [Ev(1)];
    assert OlderCount([Ev(1)], 5) == 1 + OlderCount([Ev(1)][1..], 5) == 1;
    DropUpTo5(s1);
    s := s1.(con := Consumer(CIdle, 1), info := INITIAL_INFO.(lastProcessed := 5));
    FromSmallIsReachable(s);
  }
}

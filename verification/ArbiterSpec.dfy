/**
  handle_dropping_event (src/core/arbiter.c:438-567) as one function, and the
  proof that it is the run of the pipeline machine in which only the fetcher
  moves. ArbiterBuffer carries the same function out on its fields.
 */
module ArbiterSpec {
  import opened EventLog
  import opened SharedInfo
  import opened PipelineRuns
  import P = Pipeline

  /** The state that handle_dropping_event works on. `consumed` counts the events
      consumed from the shared-memory ring. */
  datatype Arbiter = Arbiter(
    cap: nat, thr: nat, buffered: seq<Entry>,
    droppedNum: nat, dropBegin: nat, holeNum: nat, totalNum: nat, totalTimes: nat,
    info: Info, consumed: nat)

  predicate Enough(a: Arbiter) {
    |a.buffered| + a.thr < a.cap
  }

  /** Whether the event is dropped (the method's result). */
  predicate Drops(a: Arbiter) {
    if a.droppedNum > 0 then !Enough(a) else |a.buffered| == a.cap
  }

  /** The state after the decision about event `id`. */
  function Handle(a: Arbiter, id: nat): Arbiter
    requires WellFormed(a.info)
  {
    if a.droppedNum > 0 then
      if Enough(a) then
        a.(buffered := a.buffered + [Hole(Before(id), a.holeNum)],
           totalNum := a.totalNum + a.droppedNum, totalTimes := a.totalTimes + 1,
           info := NotifyDropped(a.info, a.dropBegin, Before(id)), droppedNum := 0)
      else
        a.(droppedNum := a.droppedNum + 1, holeNum := a.holeNum + 1, consumed := a.consumed + 1,
           info := if (a.droppedNum + 1) % 10000 == 0 then NotifyDropped(a.info, a.dropBegin, Before(id))
                   else a.info)
    else if |a.buffered| == a.cap then
      a.(dropBegin := id, droppedNum := 1, holeNum := 1, consumed := a.consumed + 1)
    else a
  }

  /** What the buffer manager does with event `id`: drop it, or forward it as well. */
  function Managed(a: Arbiter, id: nat): Arbiter
    requires WellFormed(a.info)
  {
    var a' := Handle(a, id);
    if Drops(a) then a' else a'.(buffered := a'.buffered + [Ev(id)], consumed := a'.consumed + 1)
  }

  /** Identifiers in the buffer ascend and none is below the last one processed. */
  predicate InOrder(a: Arbiter) {
    && AscendingButLast(a.buffered)
    && forall i :: 0 <= i < |a.buffered| ==> a.info.lastProcessed <= a.buffered[i].id
  }

  /** The buffer does not end in the hole of a stream's end, and the event is newer than
      all of it, with one identifier in between for the hole if events are being dropped. */
  predicate Newer(a: Arbiter, id: nat) {
    var gap := if a.droppedNum > 0 then 1 else 0;
    && (forall i, j :: 0 <= i < j < |a.buffered| ==> a.buffered[i].id < a.buffered[j].id)
    && (forall i :: 0 <= i < |a.buffered| ==> a.buffered[i].id + gap < id)
    && a.info.lastProcessed + gap <= id
  }

  lemma {:induction false} ManagedInOrder(a: Arbiter, id: nat)
    requires WellFormed(a.info) && InOrder(a) && Newer(a, id)
    ensures InOrder(Managed(a, id))
  {
    NotifyChangesOneSlot(a.info, a.dropBegin, Before(id));
  }

  /** This part of a pipeline state. */
  function Project(s: P.State): Arbiter
    requires P.Bounds(s)
  {
    var f := s.fet;
    Arbiter(s.cfg.cap, s.cfg.thr, P.Buffered(s), f.droppedNum, f.dropBegin, f.holeNum, f.totalNum,
            f.totalTimes, s.info, f.consumed)
  }

  lemma ConsumeRun(s: P.State, id: nat)
    requires P.Bounds(s) && s.fet.pc == P.FDropConsume(id)
    ensures CanReach(s, s.(fet := s.fet.(consumed := s.fet.consumed + 1, pc := P.FRead)))
  {
    FetcherStep(s, s.fet.(consumed := s.fet.consumed + 1, pc := P.FRead), s.info);
  }

  lemma StartRun(s: P.State, id: nat)
    requires P.Bounds(s) && s.fet.pc == P.FStart(id)
    ensures CanReach(s, s.(fet := s.fet.(dropBegin := id, droppedNum := s.fet.droppedNum + 1, holeNum := 1,
                                         consumed := s.fet.consumed + 1, pc := P.FRead)))
  {
    var f1 := s.fet.(dropBegin := id, pc := P.FStarted(id));
    var f2 := f1.(droppedNum := f1.droppedNum + 1, holeNum := 1, pc := P.FDropConsume(id));
    FetcherStep(s, f1, s.info);
    FetcherStep(s.(fet := f1), f2, s.info);
    Then(s, s.(fet := f1), s.(fet := f2));
    ConsumeRun(s.(fet := f2), id);
    Then(s, s.(fet := f2), s.(fet := f2.(consumed := f2.consumed + 1, pc := P.FRead)));
  }

  lemma ContinueNotifyRun(s: P.State, id: nat)
    requires P.Bounds(s) && s.fet.pc == P.FContNotify(id)
    ensures CanReach(s, s.(fet := s.fet.(consumed := s.fet.consumed + 1, pc := P.FRead),
                           info := NotifyDropped(s.info, s.fet.dropBegin, Before(id))))
  {
    var info := NotifyDropped(s.info, s.fet.dropBegin, Before(id));
    var s1 := s.(fet := s.fet.(pc := P.FDropConsume(id)), info := info);
    FetcherStep(s, s1.fet, info);
    ConsumeRun(s1, id);
    Then(s, s1, s1.(fet := s1.fet.(consumed := s1.fet.consumed + 1, pc := P.FRead)));
  }

  lemma ContinueRun(s: P.State, id: nat)
    requires P.Bounds(s) && s.fet.pc == P.FContinue(id)
    ensures CanReach(s, s.(fet := s.fet.(droppedNum := s.fet.droppedNum + 1, holeNum := s.fet.holeNum + 1,
                                         consumed := s.fet.consumed + 1, pc := P.FRead),
                           info := if (s.fet.droppedNum + 1) % 10000 == 0
                                   then NotifyDropped(s.info, s.fet.dropBegin, Before(id)) else s.info))
  {
    var due := (s.fet.droppedNum + 1) % 10000 == 0;
    var f1 := s.fet.(droppedNum := s.fet.droppedNum + 1, holeNum := s.fet.holeNum + 1,
                     pc := if due then P.FContNotify(id) else P.FDropConsume(id));
    var s1 := s.(fet := f1);
    FetcherStep(s, f1, s.info);
    var f2 := f1.(consumed := f1.consumed + 1, pc := P.FRead);
    if due {
      ContinueNotifyRun(s1, id);
      Then(s, s1, s1.(fet := f2, info := NotifyDropped(s.info, f1.dropBegin, Before(id))));
    } else {
      ConsumeRun(s1, id);
      Then(s, s1, s1.(fet := f2));
    }
  }

  /** Where the fetcher goes on after a hole. */
  function AfterHole(upto: nat, ending: bool): P.FetcherPc {
    if ending then P.FEnd else P.FForward(upto + 1)
  }

  lemma PushRun(s: P.State, upto: nat, ending: bool)
    requires P.Bounds(s) && s.fet.pc == P.FPushHole(upto, ending) && |s.fet.out| - s.con.taken < s.cfg.cap
    ensures CanReach(s, s.(fet := s.fet.(view := s.con.taken, out := s.fet.out + [Hole(upto, s.fet.holeNum)],
                                         endHole := ending, pc := P.FCount(upto, ending))))
  {
    var f1 := s.fet.(view := s.con.taken, pc := P.FPublishHole(upto, ending));
    FetcherStep(s, f1, s.info);
    var f2 := f1.(out := f1.out + [Hole(upto, f1.holeNum)], endHole := ending, pc := P.FCount(upto, ending));
    FetcherStep(s.(fet := f1), f2, s.info);
    Then(s, s.(fet := f1), s.(fet := f2));
  }

  lemma NotifyRun(s: P.State, upto: nat, ending: bool)
    requires P.Bounds(s) && s.fet.pc == P.FNotify(upto, ending)
    ensures CanReach(s, s.(fet := s.fet.(droppedNum := 0, pc := AfterHole(upto, ending)),
                           info := NotifyDropped(s.info, s.fet.dropBegin, upto)))
  {
    var info := NotifyDropped(s.info, s.fet.dropBegin, upto);
    var s1 := s.(fet := s.fet.(pc := P.FReset(upto, ending)), info := info);
    FetcherStep(s, s1.fet, info);
    var f2 := s1.fet.(droppedNum := 0, pc := AfterHole(upto, ending));
    FetcherStep(s1, f2, info);
    Then(s, s1, s1.(fet := f2));
  }

  lemma CountRun(s: P.State, upto: nat, ending: bool)
    requires P.Bounds(s) && s.fet.pc == P.FCount(upto, ending)
    ensures CanReach(s, s.(fet := s.fet.(totalNum := s.fet.totalNum + s.fet.droppedNum,
                                         totalTimes := s.fet.totalTimes + 1,
                                         droppedNum := 0, pc := AfterHole(upto, ending)),
                           info := NotifyDropped(s.info, s.fet.dropBegin, upto)))
  {
    var f1 := s.fet.(totalNum := s.fet.totalNum + s.fet.droppedNum, totalTimes := s.fet.totalTimes + 1,
                     pc := P.FNotify(upto, ending));
    var s1 := s.(fet := f1);
    FetcherStep(s, f1, s.info);
    NotifyRun(s1, upto, ending);
    Then(s, s1, s1.(fet := f1.(droppedNum := 0, pc := AfterHole(upto, ending)),
                    info := NotifyDropped(s.info, f1.dropBegin, upto)));
  }

  lemma SendRun(s: P.State, upto: nat, ending: bool)
    requires P.Bounds(s) && s.fet.pc == P.FPushHole(upto, ending) && |s.fet.out| - s.con.taken < s.cfg.cap
    ensures CanReach(s, s.(fet := s.fet.(view := s.con.taken, out := s.fet.out + [Hole(upto, s.fet.holeNum)],
                                         totalNum := s.fet.totalNum + s.fet.droppedNum,
                                         totalTimes := s.fet.totalTimes + 1, endHole := ending,
                                         droppedNum := 0, pc := AfterHole(upto, ending)),
                           info := NotifyDropped(s.info, s.fet.dropBegin, upto)))
  {
    var s1 := s.(fet := s.fet.(view := s.con.taken, out := s.fet.out + [Hole(upto, s.fet.holeNum)],
                               endHole := ending, pc := P.FCount(upto, ending)));
    PushRun(s, upto, ending);
    CountRun(s1, upto, ending);
    Then(s, s1, s1.(fet := s1.fet.(totalNum := s1.fet.totalNum + s1.fet.droppedNum,
                                   totalTimes := s1.fet.totalTimes + 1,
                                   droppedNum := 0, pc := AfterHole(upto, ending)),
                    info := NotifyDropped(s1.info, s1.fet.dropBegin, upto)));
  }

  /** Where the decision about event `id` leads first. */
  function DecidedPc(a: Arbiter, id: nat): P.FetcherPc
    requires 0 < id
  {
    if a.droppedNum > 0 then (if Enough(a) then P.FPushHole(id - 1, false) else P.FContinue(id))
    else if Drops(a) then P.FStart(id) else P.FForward(id)
  }

  lemma DecideRun(s: P.State, id: nat)
    requires P.Bounds(s) && s.fet.pc == P.FHandle(id) && 0 < id
    ensures var s1 := s.(fet := s.fet.(view := s.con.taken, pc := DecidedPc(Project(s), id)));
            CanReach(s, s1) && P.Bounds(s1) && Project(s1) == Project(s)
  {
    FetcherStep(s, s.fet.(view := s.con.taken, pc := DecidedPc(Project(s), id)), s.info);
  }

  lemma SendIsHandle(s: P.State, id: nat) returns (s': P.State)
    requires P.Bounds(s) && 0 < id && s.fet.pc == P.FPushHole(id - 1, false)
    requires Project(s).droppedNum > 0 && Enough(Project(s))
    ensures CanReach(s, s') && P.Bounds(s') && s'.src == s.src && Project(s') == Handle(Project(s), id)
    ensures s'.fet.pc == P.FForward(id)
  {
    var f := s.fet;
    SendRun(s, id - 1, false);
    s' := s.(fet := f.(view := s.con.taken, out := f.out + [Hole(id - 1, f.holeNum)],
                       totalNum := f.totalNum + f.droppedNum, totalTimes := f.totalTimes + 1,
                       endHole := false, droppedNum := 0, pc := P.FForward(id)),
             info := NotifyDropped(s.info, f.dropBegin, id - 1));
    assert P.Buffered(s') == P.Buffered(s) + [Hole(id - 1, f.holeNum)];
  }

  lemma ContinueIsHandle(s: P.State, id: nat) returns (s': P.State)
    requires P.Bounds(s) && 0 < id && s.fet.pc == P.FContinue(id) && s.fet.consumed < s.src.pushed
    requires Project(s).droppedNum > 0 && !Enough(Project(s))
    ensures CanReach(s, s') && P.Bounds(s') && s'.src == s.src && Project(s') == Handle(Project(s), id) && s'.fet.pc == P.FRead
  {
    var f := s.fet;
    ContinueRun(s, id);
    s' := s.(fet := f.(droppedNum := f.droppedNum + 1, holeNum := f.holeNum + 1, consumed := f.consumed + 1,
                       pc := P.FRead),
             info := if (f.droppedNum + 1) % 10000 == 0 then NotifyDropped(s.info, f.dropBegin, id - 1)
                     else s.info);
  }

  lemma StartIsHandle(s: P.State, id: nat) returns (s': P.State)
    requires P.Bounds(s) && s.fet.pc == P.FStart(id) && s.fet.consumed < s.src.pushed
    requires Project(s).droppedNum == 0 && Drops(Project(s))
    ensures CanReach(s, s') && P.Bounds(s') && s'.src == s.src && Project(s') == Handle(Project(s), id) && s'.fet.pc == P.FRead
  {
    StartRun(s, id);
    s' := s.(fet := s.fet.(dropBegin := id, droppedNum := s.fet.droppedNum + 1, holeNum := 1,
                           consumed := s.fet.consumed + 1, pc := P.FRead));
  }

  /** The decision as one function is the run of the pipeline machine in which only the
      fetcher moves and its loads are fresh. */
  lemma HandleIsARun(s: P.State, id: nat) returns (s': P.State)
    requires P.Bounds(s) && s.fet.pc == P.FHandle(id) && 0 < id && s.fet.consumed < s.src.pushed
    ensures CanReach(s, s') && P.Bounds(s') && s'.src == s.src && Project(s') == Handle(Project(s), id)
    ensures s'.fet.pc == if Drops(Project(s)) then P.FRead else P.FForward(id)
  {
    var a := Project(s);
    var s1 := s.(fet := s.fet.(view := s.con.taken, pc := DecidedPc(a, id)));
    DecideRun(s, id);
    s' := s1;
    if a.droppedNum > 0 && Enough(a) {
      s' := SendIsHandle(s1, id);
    } else if a.droppedNum > 0 {
      s' := ContinueIsHandle(s1, id);
    } else if Drops(a) {
      s' := StartIsHandle(s1, id);
    }
    if s' != s1 {
      Then(s, s1, s');
    }
  }

  lemma FillRun(s: P.State, id: nat)
    requires P.Bounds(s) && s.fet.pc == P.FFill(id)
    requires |s.fet.out| < s.fet.view + s.cfg.cap && s.fet.consumed < s.src.pushed
    ensures CanReach(s, s.(fet := s.fet.(out := s.fet.out + [Ev(id)], consumed := s.fet.consumed + 1,
                                         lastEvId := 1, pc := P.FRead)))
  {
    var f1 := s.fet.(out := s.fet.out + [Ev(id)], pc := P.FFwdConsume(id));
    FetcherStep(s, f1, s.info);
    var s1 := s.(fet := f1);
    FetcherStep(s1, f1.(consumed := f1.consumed + 1, lastEvId := 1, pc := P.FRead), s.info);
    Then(s, s1, s1.(fet := f1.(consumed := f1.consumed + 1, lastEvId := 1, pc := P.FRead)));
  }

  /** The forwarding part of the buffer manager. */
  lemma ForwardRun(s: P.State, id: nat)
    requires P.Bounds(s) && s.fet.pc == P.FForward(id)
    requires |s.fet.out| - s.con.taken < s.cfg.cap && s.fet.consumed < s.src.pushed
    ensures CanReach(s, s.(fet := s.fet.(view := s.con.taken, out := s.fet.out + [Ev(id)],
                                         consumed := s.fet.consumed + 1, lastEvId := 1, pc := P.FRead)))
  {
    var s1 := s.(fet := s.fet.(view := s.con.taken, pc := P.FFill(id)));
    FetcherStep(s, s1.fet, s.info);
    FillRun(s1, id);
    Then(s, s1, s1.(fet := s1.fet.(out := s1.fet.out + [Ev(id)], consumed := s1.fet.consumed + 1,
                                   lastEvId := 1, pc := P.FRead)));
  }

  lemma ForwardIsManaged(s: P.State, id: nat) returns (s': P.State)
    requires P.Bounds(s) && s.fet.pc == P.FForward(id)
    requires |s.fet.out| - s.con.taken < s.cfg.cap && s.fet.consumed < s.src.pushed
    ensures CanReach(s, s') && P.Bounds(s') && s'.fet.pc == P.FRead
    ensures Project(s') == Project(s).(buffered := Project(s).buffered + [Ev(id)],
                                       consumed := Project(s).consumed + 1)
  {
    ForwardRun(s, id);
    s' := s.(fet := s.fet.(view := s.con.taken, out := s.fet.out + [Ev(id)], consumed := s.fet.consumed + 1,
                           lastEvId := 1, pc := P.FRead));
    assert P.Buffered(s') == P.Buffered(s) + [Ev(id)];
  }

  lemma RoomAfterHandle(a: Arbiter, id: nat)
    requires WellFormed(a.info) && 1 <= a.thr && |a.buffered| <= a.cap && !Drops(a)
    ensures |Handle(a, id).buffered| < a.cap
  {
  }

  /** What the buffer manager does with an event is the fetcher's run up to its next
      read: the event is lost, or it is the newest one in the buffer. */
  lemma ManagedIsARun(s: P.State, id: nat) returns (s': P.State)
    requires P.Bounds(s) && s.fet.pc == P.FHandle(id) && 0 < id && s.fet.consumed < s.src.pushed
    ensures CanReach(s, s') && P.Bounds(s') && s'.fet.pc == P.FRead
    ensures Project(s') == Managed(Project(s), id)
  {
    s' := HandleIsARun(s, id);
    if !Drops(Project(s)) {
      var s1 := s';
      RoomAfterHandle(Project(s), id);
      assert |P.Buffered(s1)| < s1.cfg.cap && s1.fet.consumed < s1.src.pushed;
      s' := ForwardIsManaged(s1, id);
      Then(s, s1, s');
    }
  }
}

/**
  What the threads of the pipeline do when nobody interrupts them: when is_done and
  fetch give their final answers, which events are dropped, and which ranges are
  recorded by then.
 */
module PipelineProgress {
  import opened EventLog
  import opened SharedInfo
  import opened Pipeline
  import opened PipelineInvariant
  import opened PipelineRuns
  import opened ArbiterSpec
  import opened PipelineTheorems

  // ---------------------------------------------------------------------
  // is_done
  // ---------------------------------------------------------------------

  /** One call of is_done and nothing else. */
  predicate OneCall(steps: seq<Step>) {
    steps != [] && steps[0] == AskDone && forall i :: 1 <= i < |steps| ==> steps[i] == Continue
  }

  ghost predicate AnswersTrue(s: State) {
    exists steps, s' :: OneCall(steps) && Reaches(s, steps, s') && s'.con.pc.CDone?
  }

  predicate Asking(pc: ConsumerPc) {
    pc.CDone1? || pc.CDone2? || pc.CDone3? || pc.CDone4? || pc.CDone5? || pc.CDone?
  }

  lemma CallStep(s: State)
    requires Inv(s) && Asking(s.con.pc)
    ensures var s' := Apply(s, Continue);
            s' == s.(con := s'.con) && s'.con.taken == s.con.taken && (Asking(s'.con.pc) || s'.con.pc.CIdle?)
  {
  }

  /** A call changes nothing that anybody else can see. */
  lemma {:induction false} CallChangesNothing(s: State, steps: seq<Step>, s': State)
    requires Inv(s) && (Asking(s.con.pc) || s.con.pc.CIdle?) && Reaches(s, steps, s')
    requires forall i :: 0 <= i < |steps| ==> steps[i] == Continue
    ensures Inv(s') && s'.src == s.src && s'.fet == s.fet && s'.con.taken == s.con.taken
    decreases |steps|
  {
    if steps != [] {
      StepKeepsInv(s, steps[0]);
      CallStep(s);
      CallChangesNothing(Apply(s, steps[0]), steps[1..], s');
    }
  }

  lemma TrueOnlyWhenDone(s: State, steps: seq<Step>, s': State)
    requires Inv(s) && s.con.pc.CIdle?
    requires OneCall(steps) && Reaches(s, steps, s') && s'.con.pc.CDone?
    ensures Quiet(s.src, s.fet) && s.con.taken == |s.fet.out|
  {
    StepKeepsInv(s, AskDone);
    CallChangesNothing(Apply(s, AskDone), steps[1..], s');
  }

  /** The state at one of the stages of a call. */
  function Stage(s: State, pc: ConsumerPc): State {
    s.(con := s.con.(pc := pc))
  }

  lemma CallGoesOn(s: State, pc: ConsumerPc, pc': ConsumerPc, rest: seq<Step>, s': State) returns (steps: seq<Step>)
    requires Bounds(Stage(s, pc)) && Asking(pc)
    requires Apply(Stage(s, pc), Continue) == Stage(s, pc') && Reaches(Stage(s, pc'), rest, s')
    requires forall i :: 0 <= i < |rest| ==> rest[i] == Continue
    ensures Reaches(Stage(s, pc), steps, s')
    ensures forall i :: 0 <= i < |steps| ==> steps[i] == Continue
  {
    steps := [Continue] + rest;
    assert steps[1..] == rest;
  }

  /** Each part of the answer is true in turn. */
  lemma AllPartsTrue(s: State) returns (steps: seq<Step>)
    requires Inv(s) && s.con.pc.CIdle? && Quiet(s.src, s.fet) && s.con.taken == |s.fet.out|
    ensures Reaches(Stage(s, CDone1), steps, Stage(s, CDone))
    ensures forall i :: 0 <= i < |steps| ==> steps[i] == Continue
  {
    var s' := Stage(s, CDone);
    assert Reaches(s', [], s');
    steps := CallGoesOn(s, CDone5, CDone, [], s');
    steps := CallGoesOn(s, CDone4, CDone5, steps, s');
    steps := CallGoesOn(s, CDone3, CDone4, steps, s');
    steps := CallGoesOn(s, CDone2, CDone3, steps, s');
    steps := CallGoesOn(s, CDone1, CDone2, steps, s');
  }

  lemma TrueWhenDone(s: State)
    requires Inv(s) && s.con.pc.CIdle? && Quiet(s.src, s.fet) && s.con.taken == |s.fet.out|
    ensures AnswersTrue(s)
  {
    var rest := AllPartsTrue(s);
    var steps := [AskDone] + rest;
    assert steps[1..] == rest;
    assert Apply(s, AskDone) == Stage(s, CDone1);
    assert OneCall(steps) && Reaches(s, steps, Stage(s, CDone));
  }

  /** Uninterrupted, is_done answers true if and only if the source is gone, everything
      was read and taken, and no dropped event is pending. */
  lemma IsDoneIff(s: State)
    requires Inv(s) && s.con.pc.CIdle?
    ensures AnswersTrue(s) <==> Quiet(s.src, s.fet) && s.con.taken == |s.fet.out|
  {
    if Quiet(s.src, s.fet) && s.con.taken == |s.fet.out| {
      TrueWhenDone(s);
    }
    if AnswersTrue(s) {
      var steps, s' :| OneCall(steps) && Reaches(s, steps, s') && s'.con.pc.CDone?;
      TrueOnlyWhenDone(s, steps, s');
    }
  }

  // ---------------------------------------------------------------------
  // drop
  // ---------------------------------------------------------------------

  lemma DropCompletes(s: State, n: nat, id: nat)
    requires Bounds(s) && s.con.pc == CDropping(n, id) && s.con.taken + n <= |s.fet.out| && MayPublish(s, id)
    ensures CanReach(s, s.(con := Consumer(CIdle, s.con.taken + n), info := s.info.(lastProcessed := id)))
  {
    var s1 := s.(con := Consumer(CNotifying(id), s.con.taken + n));
    OneStep(s, Continue);
    assert Apply(s, Continue) == s1;
    OneStep(s1, Continue);
    Then(s, s1, Apply(s1, Continue));
  }

  /** drop(k), uninterrupted, takes k entries, or all of them if there are fewer or k is
      0, and publishes the last one's identifier. */
  lemma DropReaches(s: State, k: nat)
    requires Inv(s) && s.con.pc.CIdle? && s.con.taken < |s.fet.out|
    ensures var size := |s.fet.out| - s.con.taken;
            var n := if k == 0 || size <= k then size else k;
            MayPublish(s, s.fet.out[s.con.taken + n - 1].id) ==>
            CanReach(s, s.(con := Consumer(CIdle, s.con.taken + n),
                           info := s.info.(lastProcessed := s.fet.out[s.con.taken + n - 1].id)))
  {
    var size := |s.fet.out| - s.con.taken;
    var n := if k == 0 || size <= k then size else k;
    var id := s.fet.out[s.con.taken + n - 1].id;
    var s1 := Stage(s, CDropping(n, id));
    OneStep(s, Drop(k));
    assert Apply(s, Drop(k)) == s1;
    if MayPublish(s, id) {
      DropCompletes(s1, n, id);
      Then(s, s1, s.(con := Consumer(CIdle, s.con.taken + n), info := s.info.(lastProcessed := id)));
    }
  }

  // ---------------------------------------------------------------------
  // The fetcher's decision, and its end
  // ---------------------------------------------------------------------

  /** An event is dropped exactly when the buffer is full by the load, or when events are
      being dropped and not more than the threshold is free; a run of dropped events is
      closed by a hole exactly when more is. */
  lemma DropsOnlyWhenItMust(s: State, observed: nat, check: bool)
    requires Reachable(s) && s.fet.pc.FHandle? && CanFetch(s, observed)
    ensures Bounds(s) && 0 < s.fet.pc.id
    ensures var pc := FetchStep(s, observed, check).fet.pc; var id := s.fet.pc.id;
            var held := |s.fet.out| - observed;
            && held <= s.cfg.cap
            && (s.fet.droppedNum == 0 ==> (pc == FStart(id) <==> held == s.cfg.cap))
            && (s.fet.droppedNum == 0 ==> (pc == FForward(id) <==> held < s.cfg.cap))
            && (s.fet.droppedNum > 0 ==> (pc == FContinue(id) <==> s.cfg.cap <= held + s.cfg.thr))
            && (s.fet.droppedNum > 0 ==> (pc == FPushHole(id - 1, false) <==> held + s.cfg.thr < s.cfg.cap))
  {
    ReachableInv(s);
  }

  /** With an event to read, fetch reads the next one and comes to the decision. */
  lemma ReadReaches(s: State)
    requires Inv(s) && s.fet.pc.FRead? && s.fet.consumed < s.src.pushed
    ensures CanReach(s, s.(fet := s.fet.(lastEvId := s.fet.consumed + 1, pc := FHandle(s.fet.consumed + 1))))
  {
    FetcherStep(s, s.fet.(lastEvId := s.fet.consumed + 1, pc := FHandle(s.fet.consumed + 1)), s.info);
  }

  /** With none left to come, it finds the end of the stream. */
  lemma EndIsFound(s: State)
    requires Inv(s) && s.fet.pc.FRead? && Drained(s.src, s.fet)
    ensures CanReach(s, s.(fet := s.fet.(pc := FEnd)))
  {
    var s1 := s.(fet := s.fet.(pc := FEmpty));
    FetcherStep(s, s1.fet, s.info);
    var s2 := s.(fet := s.fet.(pc := FSawDestroyed));
    OneStep(s1, Fetch(s1.fet.view, true));
    assert Apply(s1, Fetch(s1.fet.view, true)) == s2;
    Then(s, s1, s2);
    FetcherStep(s2, s2.fet.(pc := FEnd), s.info);
    Then(s, s2, s.(fet := s.fet.(pc := FEnd)));
  }

  /** The state in which fetch has returned NULL, with the hole for pending events. */
  function AtNull(s: State): State
    requires Bounds(s)
  {
    if s.fet.droppedNum == 0 then s.(fet := s.fet.(view := s.con.taken, pc := FDone))
    else
      s.(fet := s.fet.(view := s.con.taken, pc := FDone, droppedNum := 0, endHole := true,
                       out := s.fet.out + [Hole(Before(s.fet.lastEvId), s.fet.holeNum)],
                       totalNum := s.fet.totalNum + s.fet.droppedNum, totalTimes := s.fet.totalTimes + 1),
         info := NotifyDropped(s.info, s.fet.dropBegin, Before(s.fet.lastEvId)))
  }

  lemma NothingPendingAtEnd(s: State)
    requires Inv(s) && s.fet.pc.FEnd? && s.fet.droppedNum == 0
    ensures CanReach(s, AtNull(s))
  {
    FetcherStep(s, AtNull(s).fet, s.info);
  }

  lemma PendingAtEnd(s: State)
    requires Inv(s) && s.fet.pc.FEnd? && 0 < s.fet.droppedNum
    requires |s.fet.out| - s.con.taken + s.cfg.thr < s.cfg.cap
    ensures CanReach(s, AtNull(s))
  {
    var upto := Before(s.fet.lastEvId);
    var s1 := s.(fet := s.fet.(view := s.con.taken, pc := FPushHole(upto, true)));
    FetcherStep(s, s1.fet, s.info);
    SendRun(s1, upto, true);
    var s2 := AtNull(s).(fet := AtNull(s).fet.(pc := FEnd));
    Then(s, s1, s2);
    assert Bounds(s2);
    FetcherStep(s2, AtNull(s).fet, s2.info);
    Then(s, s2, AtNull(s));
  }

  /** Once the source is gone and everything read, fetch returns NULL as soon as there is
      room for the hole of the events that are pending, if any. */
  lemma FetchReturnsNull(s: State)
    requires Inv(s) && s.fet.pc.FEnd?
    requires s.fet.droppedNum == 0 || |s.fet.out| - s.con.taken + s.cfg.thr < s.cfg.cap
    ensures CanReach(s, AtNull(s)) && AtNull(s).fet.pc.FDone? && AtNull(s).fet.droppedNum == 0
    ensures |AtNull(s).fet.out| == |s.fet.out| + (if s.fet.droppedNum == 0 then 0 else 1)
  {
    if s.fet.droppedNum == 0 {
      NothingPendingAtEnd(s);
    } else {
      PendingAtEnd(s);
    }
  }

  // ---------------------------------------------------------------------
  // The ranges recorded
  // ---------------------------------------------------------------------

  /** How many of the n events being dropped have been recorded by now. */
  function RecordedOf(n: nat): nat {
    n - n % 10000
  }

  predicate Dropping(pc: FetcherPc) {
    || pc.FRead? || pc.FEmpty? || pc.FSawDestroyed? || pc.FHandle? || pc.FContinue? || pc.FDropConsume?
    || pc.FEnd? || pc.FPushHole? || pc.FPublishHole? || pc.FCount? || pc.FNotify?
  }

  /** The current slot holds the run of events being dropped, up to the last 10000th of
      them and without that; after a hole it holds all of the hole's events. */
  predicate UpToDate(f: Fetcher, r: Range) {
    match f.pc
    case FReset(upto, _) => r == Range(f.dropBegin, upto)
    case FContNotify(id) =>
      && f.droppedNum % 10000 == 0 && id == f.dropBegin + f.droppedNum - 1
      && (10000 < f.droppedNum ==> r == Range(f.dropBegin, f.dropBegin + f.droppedNum - 10002))
    case _ =>
      Dropping(f.pc) && 0 < RecordedOf(f.droppedNum) ==>
        r == Range(f.dropBegin, f.dropBegin + RecordedOf(f.droppedNum) - 2)
  }

  function CurrentRange(info: Info): Range
    requires WellFormed(info)
  {
    info.slots[info.next]
  }

  lemma UpToDateByContinue(cfg: Config, src: Source, f: Fetcher, r: Range)
    requires FetcherInv(cfg, src, f) && UpToDate(f, r) && f.pc.FContinue?
    ensures UpToDate(HandleStep(cfg, f), r)
  {
  }

  lemma UpToDateByHandling(cfg: Config, src: Source, f: Fetcher, r: Range)
    requires FetcherInv(cfg, src, f) && UpToDate(f, r) && Handling(f.pc) && !f.pc.FContinue?
    ensures UpToDate(HandleStep(cfg, f), r)
  {
  }

  lemma UpToDateBySending(cfg: Config, src: Source, f: Fetcher, r: Range)
    requires FetcherInv(cfg, src, f) && UpToDate(f, r) && Sending(f.pc)
    ensures UpToDate(SendStep(cfg, f), r)
  {
  }

  lemma UpToDateByForwarding(cfg: Config, src: Source, f: Fetcher, r: Range)
    requires FetcherInv(cfg, src, f) && UpToDate(f, r) && Forwarding(f.pc)
    ensures UpToDate(ForwardStep(cfg, f), r)
  {
  }

  lemma UpToDateByLocalStep(cfg: Config, src: Source, f: Fetcher, r: Range, check: bool)
    requires FetcherInv(cfg, src, f) && UpToDate(f, r)
    requires !Notifying(f.pc) && !f.pc.FDone? && !f.pc.FCrash?
    ensures UpToDate(LocalStep(cfg, src, f, check), r)
  {
    if f.pc.FContinue? {
      UpToDateByContinue(cfg, src, f, r);
    } else if Handling(f.pc) {
      UpToDateByHandling(cfg, src, f, r);
    } else if Sending(f.pc) {
      UpToDateBySending(cfg, src, f, r);
    } else if Forwarding(f.pc) {
      UpToDateByForwarding(cfg, src, f, r);
    }
  }

  lemma UpToDateByLoad(f: Fetcher, r: Range, observed: nat)
    requires UpToDate(f, r)
    ensures UpToDate(Load(f, observed), r) && Load(f, observed).pc == f.pc
  {
  }

  lemma UpToDateByLoading(cfg: Config, src: Source, f: Fetcher, r: Range, observed: nat, check: bool)
    requires FetcherInv(cfg, src, f) && UpToDate(f, r) && f.view <= observed <= |f.out|
    requires !Notifying(f.pc) && !f.pc.FDone? && !f.pc.FCrash?
    ensures Load(f, observed).view <= |f.out| <= Load(f, observed).view + cfg.cap
    ensures UpToDate(LocalStep(cfg, src, Load(f, observed), check), r)
  {
    LoadKeeps(cfg, src, f, observed);
    UpToDateByLoad(f, r, observed);
    var f1 := Load(f, observed);
    assert f1.pc == f.pc;
    UpToDateByLocalStep(cfg, src, f1, r, check);
  }

  lemma UpToDateByNotify(s: State)
    requires Inv(s) && UpToDate(s.fet, CurrentRange(s.info)) && Notifying(s.fet.pc)
    ensures WellFormed(NotifyStep(s).info) && UpToDate(NotifyStep(s).fet, CurrentRange(NotifyStep(s).info))
  {
    AdjacencyNeverFires(s);
    NotifyChangesOneSlot(s.info, s.fet.dropBegin, NotifiedEnd(s.fet.pc));
  }

  lemma UpToDateByFetch(s: State, observed: nat, check: bool)
    requires Inv(s) && UpToDate(s.fet, CurrentRange(s.info)) && CanFetch(s, observed)
    ensures var s' := FetchStep(s, observed, check);
            WellFormed(s'.info) && UpToDate(s'.fet, CurrentRange(s'.info))
  {
    if Notifying(s.fet.pc) {
      UpToDateByNotify(s);
    } else {
      UpToDateByLoading(s.cfg, s.src, s.fet, CurrentRange(s.info), observed, check);
      assert FetchStep(s, observed, check) == s.(fet := LocalStep(s.cfg, s.src, Load(s.fet, observed), check));
    }
  }

  lemma UpToDateByStep(s: State, step: Step)
    requires Inv(s) && UpToDate(s.fet, CurrentRange(s.info)) && Enabled(s, step)
    ensures var s' := Apply(s, step);
            WellFormed(s'.info) && UpToDate(s'.fet, CurrentRange(s'.info))
  {
    if step.Fetch? {
      UpToDateByFetch(s, step.observed, step.check);
      assert Apply(s, step) == FetchStep(s, step.observed, step.check);
    } else {
      assert Apply(s, step).fet == s.fet;
      assert Apply(s, step).info.slots == s.info.slots && Apply(s, step).info.next == s.info.next;
    }
  }

  lemma {:induction false} UpToDateOnRun(s: State, steps: seq<Step>, s': State)
    requires Inv(s) && UpToDate(s.fet, CurrentRange(s.info)) && Reaches(s, steps, s')
    ensures Inv(s') && UpToDate(s'.fet, CurrentRange(s'.info))
    decreases |steps|
  {
    if steps != [] {
      StepKeepsInv(s, steps[0]);
      UpToDateByStep(s, steps[0]);
      UpToDateOnRun(Apply(s, steps[0]), steps[1..], s');
    }
  }

  /** What is dropped is recorded: during a run of dropped events the range recorded for
      it is less than 10000 events behind, and when a hole has been pushed the range holds
      exactly the identifiers from its first event to its own. */
  lemma RangesKeepUp(s: State)
    requires Reachable(s)
    ensures Bounds(s) && UpToDate(s.fet, CurrentRange(s.info))
  {
    var cfg: Config, steps :| 1 <= cfg.thr < cfg.cap && Reaches(Init(cfg), steps, s);
    InitInv(cfg);
    UpToDateOnRun(Init(cfg), steps, s);
  }
}

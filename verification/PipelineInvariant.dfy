/**
  The invariant of the pipeline machine and the proof that every step of every
  thread keeps it.
 */
module PipelineInvariant {
  import opened EventLog
  import opened SharedInfo
  import opened Pipeline

  ghost predicate LogOk(f: Fetcher) {
    if f.endHole then ClosedByEndHole(f.out) else GapFree(f.out)
  }

  /** While events are being dropped: the hole's counter and its begin are right,
      and the log does not end in a hole. */
  predicate DropOk(f: Fetcher) {
    && (f.droppedNum > 0 ==> f.holeNum == f.droppedNum && f.dropBegin == Covered(f.out) + 1)
    && EndsInEvent(f.out)
    && !f.endHole
  }

  predicate InHand(src: Source, f: Fetcher, id: nat) {
    id == f.consumed + 1 <= src.pushed && f.lastEvId == id
  }

  predicate Drained(src: Source, f: Fetcher) {
    src.destroyed && f.consumed == src.pushed
  }

  /** Where a hole up to `upto` may be pushed from. */
  predicate SendContext(src: Source, f: Fetcher, upto: nat, ending: bool) {
    && f.droppedNum > 0
    && if ending then Drained(src, f) && upto + 1 == f.consumed
       else upto == f.consumed < src.pushed && f.lastEvId == upto + 1
  }

  /** The hole is in the log, `dropped_num` not reset yet. */
  predicate HolePushed(cfg: Config, src: Source, f: Fetcher, upto: nat, ending: bool) {
    && SendContext(src, f, upto, ending)
    && f.out != [] && Last(f.out) == Hole(upto, f.droppedNum)
    && Covered(f.out) == f.consumed
    && f.dropBegin + f.droppedNum == f.consumed + 1
    && f.endHole == ending
    && |f.out| - f.view + cfg.thr <= cfg.cap
  }

  predicate FetcherOk(cfg: Config, src: Source, f: Fetcher) {
    var done := Covered(f.out) + f.droppedNum;
    match f.pc
    case FRead => done == f.consumed && DropOk(f) && (f.droppedNum > 0 ==> f.lastEvId == f.consumed)
    case FEmpty => done == f.consumed && DropOk(f) && (f.droppedNum > 0 ==> f.lastEvId == f.consumed)
    case FSawDestroyed =>
      done == f.consumed && DropOk(f) && (f.droppedNum > 0 ==> f.lastEvId == f.consumed) && src.destroyed
    case FHandle(id) => done == f.consumed && DropOk(f) && InHand(src, f, id)
    case FStart(id) => done == f.consumed && DropOk(f) && InHand(src, f, id) && f.droppedNum == 0
    case FStarted(id) =>
      done == f.consumed && DropOk(f) && InHand(src, f, id) && f.droppedNum == 0 && f.dropBegin == id
    case FContinue(id) => done == f.consumed && DropOk(f) && InHand(src, f, id) && f.droppedNum > 0
    case FContNotify(id) => done == f.consumed + 1 && DropOk(f) && InHand(src, f, id) && f.droppedNum > 1
    case FDropConsume(id) => done == f.consumed + 1 && DropOk(f) && InHand(src, f, id) && f.droppedNum > 0
    case FPushHole(upto, ending) =>
      done == f.consumed && DropOk(f) && SendContext(src, f, upto, ending) && |f.out| - f.view + cfg.thr < cfg.cap
    case FPublishHole(upto, ending) =>
      done == f.consumed && DropOk(f) && SendContext(src, f, upto, ending) && |f.out| - f.view + cfg.thr < cfg.cap
    case FCount(upto, ending) => HolePushed(cfg, src, f, upto, ending)
    case FNotify(upto, ending) => HolePushed(cfg, src, f, upto, ending)
    case FReset(upto, ending) => HolePushed(cfg, src, f, upto, ending)
    case FForward(id) =>
      done == f.consumed == id - 1 < src.pushed && f.droppedNum == 0 && !f.endHole && |f.out| - f.view < cfg.cap
    case FFill(id) =>
      done == f.consumed == id - 1 < src.pushed && f.droppedNum == 0 && !f.endHole && |f.out| - f.view < cfg.cap
    case FFwdConsume(id) =>
      done == f.consumed + 1 == id <= src.pushed && f.droppedNum == 0 && !f.endHole && EndsInEvent(f.out)
    case FEnd =>
      Drained(src, f) && done == f.consumed && (f.droppedNum > 0 ==> DropOk(f) && f.lastEvId == f.consumed)
    case FDone => Drained(src, f) && done == f.consumed && f.droppedNum == 0
    case FCrash => false
  }

  /** The statistics: between the write of a hole and the update of the totals they
      lag behind by that hole. */
  predicate CountsOk(f: Fetcher) {
    if f.pc.FCount? then Lost(f.out) == f.totalNum + f.droppedNum && HoleTimes(f.out) == f.totalTimes + 1
    else Lost(f.out) == f.totalNum && HoleTimes(f.out) == f.totalTimes
  }

  /** Events up to b are of no further use once the first t entries are gone. */
  ghost predicate SafeBound(log: seq<Entry>, t: nat, b: nat) {
    && b <= Covered(log)
    && forall j :: t <= j < |log| ==> b <= log[j].id && (log[j].Ev? ==> b < log[j].id)
  }

  /** Every event of the range was read and never forwarded. */
  ghost predicate OnlyLost(log: seq<Entry>, consumed: nat, r: Range) {
    && r.end <= consumed
    && forall j :: 0 <= j < |log| && log[j].Ev? ==> !Within(r, log[j].id)
  }

  ghost predicate RangesOk(f: Fetcher, slots: seq<Range>) {
    forall i :: 0 <= i < |slots| && slots[i].end != 0 ==> OnlyLost(f.out, f.consumed, slots[i])
  }

  /** Ranges recorded before the stream's end are never empty. */
  predicate NonEmptyRanges(slots: seq<Range>) {
    forall i :: 0 <= i < |slots| ==> slots[i].begin <= slots[i].end
  }

  /** Only the range of the stream's end may be empty; nothing is recorded after it. */
  predicate EndRecorded(f: Fetcher) {
    f.endHole && !f.pc.FCount? && !f.pc.FNotify?
  }

  /** Nothing more will ever be written to the arbiter buffer. */
  predicate Quiet(src: Source, f: Fetcher) {
    Drained(src, f) && f.droppedNum == 0
  }

  predicate ConsumerOk(src: Source, f: Fetcher, con: Consumer) {
    match con.pc
    case CIdle => true
    case CDropping(num, _) => 1 <= num && con.taken + num <= |f.out|
    case CNotifying(_) => true
    case CDone1 => true
    case CDone2 => true
    case CDone3 => src.destroyed
    case CDone4 => Drained(src, f)
    case CDone5 => Quiet(src, f)
    case CDone => Quiet(src, f) && con.taken == |f.out|
  }

  /** What every step keeps, whatever identifiers the consumer publishes. */
  ghost predicate Inv(s: State) {
    && Bounds(s)
    && LogOk(s.fet)
    && FetcherOk(s.cfg, s.src, s.fet)
    && CountsOk(s.fet)
    && RangesOk(s.fet, s.info.slots)
    && (EndRecorded(s.fet) || NonEmptyRanges(s.info.slots))
    && ConsumerOk(s.src, s.fet, s.con)
  }

  /** What a consumer is about to publish is safe to publish. */
  ghost predicate PendingSafe(f: Fetcher, con: Consumer, lastProcessed: nat) {
    match con.pc
    case CDropping(num, id) =>
      con.taken + num <= |f.out| && SafeBound(f.out, con.taken + num, id) && lastProcessed <= id
    case CNotifying(id) => SafeBound(f.out, con.taken, id) && lastProcessed <= id
    case _ => true
  }

  /** What the steps of a careful consumer keep as well. */
  ghost predicate Safe(s: State) {
    && Inv(s)
    && SafeBound(s.fet.out, s.con.taken, s.info.lastProcessed)
    && PendingSafe(s.fet, s.con, s.info.lastProcessed)
  }

  lemma InitInv(cfg: Config)
    requires 1 <= cfg.thr < cfg.cap
    ensures Safe(Init(cfg))
  {
  }

  // ---------------------------------------------------------------------
  // The fetcher's own part
  // ---------------------------------------------------------------------

  lemma AppendEntry(log: seq<Entry>, e: Entry)
    ensures Front(log + [e]) == log && Last(log + [e]) == e
    ensures Covered(log + [e]) == Covered(log) + Weight(e)
    ensures Lost(log + [e]) == Lost(log) + if e.Hole? then e.n else 0
    ensures HoleTimes(log + [e]) == HoleTimes(log) + if e.Hole? then 1 else 0
  {
    FrontLastOfAppend(log, e);
  }

  /** What a step of the fetcher must keep of its own and shared state. */
  ghost predicate FetcherInv(cfg: Config, src: Source, f: Fetcher) {
    && 1 <= cfg.thr < cfg.cap
    && f.view <= |f.out| <= f.view + cfg.cap
    && f.consumed <= src.pushed <= MAX_EVENT_ID
    && LogOk(f)
    && FetcherOk(cfg, src, f)
    && CountsOk(f)
  }

  /** The newest event that was forwarded or counted as dropped. */
  function Handled(f: Fetcher): nat {
    if f.pc.FFwdConsume? then f.consumed + 1 else f.consumed
  }

  /** A step of the fetcher leaves the log alone, or appends an entry whose
      identifier lies beyond everything accounted for so far. */
  ghost predicate Extends(src: Source, f: Fetcher, f': Fetcher) {
    && f.consumed <= f'.consumed && Handled(f) <= Handled(f')
    && (f'.out == f.out ||
        (&& f'.out != []
         && f'.out == f.out + [Last(f'.out)]
         && Covered(f.out) <= Covered(f'.out)
         && Covered(f.out) <= Last(f'.out).id
         && (Last(f'.out).Ev? ==> Handled(f) < Last(f'.out).id && Covered(f.out) < Last(f'.out).id)))
    && (EndRecorded(f) ==> EndRecorded(f'))
    && (Quiet(src, f) ==> Quiet(src, f') && f'.out == f.out)
  }

  lemma GetEventKeeps(cfg: Config, src: Source, f: Fetcher, check: bool)
    requires FetcherInv(cfg, src, f) && Getting(f.pc)
    ensures FetcherInv(cfg, src, GetEventStep(src, f, check)) && Extends(src, f, GetEventStep(src, f, check))
  {
  }

  lemma DecideKeeps(cfg: Config, src: Source, f: Fetcher)
    requires FetcherInv(cfg, src, f) && f.pc.FHandle?
    ensures FetcherInv(cfg, src, HandleStep(cfg, f)) && Extends(src, f, HandleStep(cfg, f))
  {
  }

  lemma HandleKeeps(cfg: Config, src: Source, f: Fetcher)
    requires FetcherInv(cfg, src, f) && Handling(f.pc)
    ensures FetcherInv(cfg, src, HandleStep(cfg, f)) && Extends(src, f, HandleStep(cfg, f))
  {
    if f.pc.FHandle? {
      DecideKeeps(cfg, src, f);
    }
  }

  lemma PublishHoleKeeps(cfg: Config, src: Source, f: Fetcher)
    requires FetcherInv(cfg, src, f) && f.pc.FPublishHole?
    ensures FetcherInv(cfg, src, SendStep(cfg, f)) && Extends(src, f, SendStep(cfg, f))
  {
    AppendEntry(f.out, Hole(f.pc.upto, f.holeNum));
  }

  lemma ResetKeeps(cfg: Config, src: Source, f: Fetcher)
    requires FetcherInv(cfg, src, f) && f.pc.FReset?
    ensures FetcherInv(cfg, src, SendStep(cfg, f)) && Extends(src, f, SendStep(cfg, f))
  {
  }

  lemma SendKeeps(cfg: Config, src: Source, f: Fetcher)
    requires FetcherInv(cfg, src, f) && Sending(f.pc) && !f.pc.FPublishHole?
    ensures FetcherInv(cfg, src, SendStep(cfg, f)) && Extends(src, f, SendStep(cfg, f))
  {
    if f.pc.FReset? {
      ResetKeeps(cfg, src, f);
    }
  }

  lemma NotifyKeeps(cfg: Config, src: Source, f: Fetcher)
    requires FetcherInv(cfg, src, f) && Notifying(f.pc)
    ensures FetcherInv(cfg, src, AfterNotify(f)) && Extends(src, f, AfterNotify(f))
  {
  }

  lemma FillKeeps(cfg: Config, src: Source, f: Fetcher)
    requires FetcherInv(cfg, src, f) && f.pc.FFill?
    ensures FetcherInv(cfg, src, ForwardStep(cfg, f)) && Extends(src, f, ForwardStep(cfg, f))
  {
    AppendEntry(f.out, Ev(f.pc.id));
  }

  lemma AskKeeps(cfg: Config, src: Source, f: Fetcher)
    requires FetcherInv(cfg, src, f) && f.pc.FForward?
    ensures FetcherInv(cfg, src, ForwardStep(cfg, f)) && Extends(src, f, ForwardStep(cfg, f))
  {
  }

  lemma ConsumeKeeps(cfg: Config, src: Source, f: Fetcher)
    requires FetcherInv(cfg, src, f) && f.pc.FFwdConsume?
    ensures FetcherInv(cfg, src, ForwardStep(cfg, f)) && Extends(src, f, ForwardStep(cfg, f))
  {
  }

  lemma EndKeeps(cfg: Config, src: Source, f: Fetcher)
    requires FetcherInv(cfg, src, f) && f.pc.FEnd?
    ensures FetcherInv(cfg, src, EndStep(cfg, f)) && Extends(src, f, EndStep(cfg, f))
  {
  }

  lemma NewViewKeeps(cfg: Config, src: Source, f: Fetcher, observed: nat)
    requires FetcherOk(cfg, src, f) && f.view <= observed <= |f.out|
    ensures FetcherOk(cfg, src, f.(view := observed))
  {
  }

  lemma LoadKeeps(cfg: Config, src: Source, f: Fetcher, observed: nat)
    requires FetcherInv(cfg, src, f) && f.view <= observed <= |f.out|
    ensures FetcherInv(cfg, src, Load(f, observed)) && Extends(src, f, Load(f, observed))
  {
    NewViewKeeps(cfg, src, f, observed);
    assert Load(f, observed) == f || Load(f, observed) == f.(view := observed);
  }

  // ---------------------------------------------------------------------
  // What the fetcher publishes
  // ---------------------------------------------------------------------

  /** No event before a last hole is in its range. */
  lemma HoleOnlyLost(log: seq<Entry>, consumed: nat, begin: nat, upto: nat)
    requires log != [] && GapFree(Front(log)) && Last(log).Hole?
    requires Covered(Front(log)) < begin && upto <= consumed
    ensures OnlyLost(log, consumed, Range(begin, upto))
  {
    GapFreeAscends(Front(log));
    assert forall i :: 0 <= i < |log| - 1 ==> log[i] == Front(log)[i];
  }

  /** The events of the run being dropped, or of a hole just written, were not forwarded. */
  lemma NotifiedOnlyLost(cfg: Config, src: Source, f: Fetcher)
    requires FetcherInv(cfg, src, f) && Notifying(f.pc)
    ensures OnlyLost(f.out, f.consumed, Range(f.dropBegin, NotifiedEnd(f.pc)))
  {
    if f.pc.FNotify? {
      HoleOnlyLost(f.out, f.consumed, f.dropBegin, f.pc.upto);
    } else {
      LogAscends(f.out);
    }
  }

  /** The adjacency test of notify_dropped is false whenever a range is recorded. */
  lemma AdjacencyNeverFires(s: State)
    requires Inv(s) && Notifying(s.fet.pc)
    ensures !AdjacencyTest(s.info)
  {
    var r := s.info.slots[s.info.next];
    assert r.begin <= r.end;
  }

  // ---------------------------------------------------------------------
  // Steps of the fetcher as seen from the rest of the state
  // ---------------------------------------------------------------------

  lemma OnlyLostExtends(src: Source, f: Fetcher, f': Fetcher, r: Range)
    requires Extends(src, f, f') && OnlyLost(f.out, f.consumed, r)
    ensures OnlyLost(f'.out, f'.consumed, r)
  {
  }

  /** Everything a step of the fetcher does not write keeps its part of the invariant. */
  lemma RestKeepsInv(s: State, f': Fetcher)
    requires Inv(s) && FetcherInv(s.cfg, s.src, f') && Extends(s.src, s.fet, f')
    requires f'.view <= s.con.taken
    ensures Inv(s.(fet := f'))
  {
    forall i | 0 <= i < |s.info.slots| && s.info.slots[i].end != 0
      ensures OnlyLost(f'.out, f'.consumed, s.info.slots[i])
    {
      OnlyLostExtends(s.src, s.fet, f', s.info.slots[i]);
    }
  }

  lemma RecordedRangesOk(f: Fetcher, info: Info, begin: nat, end: nat)
    requires WellFormed(info) && RangesOk(f, info.slots)
    requires info.slots[info.next].end != Before(info.slots[info.next].begin)
    requires OnlyLost(f.out, f.consumed, Range(begin, end))
    ensures RangesOk(f, NotifyDropped(info, begin, end).slots)
  {
    NotifyChangesOneSlot(info, begin, end);
  }

  lemma AfterNotifyKeepsInv(s: State)
    requires Inv(s) && Notifying(s.fet.pc)
    ensures Inv(s.(fet := AfterNotify(s.fet)))
  {
    NotifyKeeps(s.cfg, s.src, s.fet);
    RestKeepsInv(s, AfterNotify(s.fet));
  }

  /** Recording a range of lost events keeps the invariant. */
  lemma RecordKeepsInv(s: State, begin: nat, end: nat)
    requires Inv(s) && !AdjacencyTest(s.info)
    requires OnlyLost(s.fet.out, s.fet.consumed, Range(begin, end))
    requires EndRecorded(s.fet) || begin <= end
    ensures Inv(s.(info := NotifyDropped(s.info, begin, end)))
  {
    NotifyChangesOneSlot(s.info, begin, end);
    RecordedRangesOk(s.fet, s.info, begin, end);
  }

  /** Only the hole of the stream's end has an empty range to record. */
  lemma NotifiedNonEmpty(cfg: Config, src: Source, f: Fetcher)
    requires FetcherInv(cfg, src, f) && Notifying(f.pc)
    ensures EndRecorded(AfterNotify(f)) || f.dropBegin <= NotifiedEnd(f.pc)
  {
  }

  lemma NotifyKeepsInv(s: State)
    requires Inv(s) && Notifying(s.fet.pc)
    ensures Inv(NotifyStep(s))
  {
    var f' := AfterNotify(s.fet);
    AfterNotifyKeepsInv(s);
    AdjacencyNeverFires(s);
    NotifiedOnlyLost(s.cfg, s.src, s.fet);
    NotifiedNonEmpty(s.cfg, s.src, s.fet);
    var s1 := s.(fet := f');
    RecordKeepsInv(s1, s.fet.dropBegin, NotifiedEnd(s.fet.pc));
    assert NotifyStep(s) == s1.(info := NotifyDropped(s.info, s.fet.dropBegin, NotifiedEnd(s.fet.pc)));
  }

  lemma LocalStepKeeps(cfg: Config, src: Source, f: Fetcher, check: bool)
    requires FetcherInv(cfg, src, f)
    requires !Notifying(f.pc) && !f.pc.FDone? && !f.pc.FCrash?
    ensures FetcherInv(cfg, src, LocalStep(cfg, src, f, check))
    ensures Extends(src, f, LocalStep(cfg, src, f, check))
  {
    var f' := LocalStep(cfg, src, f, check);
    if Getting(f.pc) {
      GetEventKeeps(cfg, src, f, check);
      assert f' == GetEventStep(src, f, check);
    } else if Handling(f.pc) {
      HandleKeeps(cfg, src, f);
      assert f' == HandleStep(cfg, f);
    } else if f.pc.FPublishHole? {
      PublishHoleKeeps(cfg, src, f);
      assert f' == SendStep(cfg, f);
    } else if Sending(f.pc) {
      SendKeeps(cfg, src, f);
      assert f' == SendStep(cfg, f);
    } else if f.pc.FFill? {
      FillKeeps(cfg, src, f);
      assert f' == ForwardStep(cfg, f);
    } else if Forwarding(f.pc) {
      if f.pc.FForward? {
        AskKeeps(cfg, src, f);
      } else {
        ConsumeKeeps(cfg, src, f);
      }
      assert f' == ForwardStep(cfg, f);
    } else {
      EndKeeps(cfg, src, f);
      assert f' == EndStep(cfg, f);
    }
  }

  lemma LocalStepKeepsView(cfg: Config, src: Source, f: Fetcher, check: bool)
    requires f.view <= |f.out| <= f.view + cfg.cap
    requires !Notifying(f.pc) && !f.pc.FDone? && !f.pc.FCrash?
    ensures LocalStep(cfg, src, f, check).view == f.view
  {
  }

  lemma LocalKeepsInv(s: State, check: bool)
    requires Inv(s) && !Notifying(s.fet.pc) && !s.fet.pc.FDone? && !s.fet.pc.FCrash?
    ensures Inv(s.(fet := LocalStep(s.cfg, s.src, s.fet, check)))
  {
    LocalStepKeeps(s.cfg, s.src, s.fet, check);
    LocalStepKeepsView(s.cfg, s.src, s.fet, check);
    RestKeepsInv(s, LocalStep(s.cfg, s.src, s.fet, check));
  }

  lemma LoadKeepsInv(s: State, observed: nat)
    requires Inv(s) && s.fet.view <= observed <= s.con.taken
    ensures Inv(s.(fet := Load(s.fet, observed)))
  {
    LoadKeeps(s.cfg, s.src, s.fet, observed);
    RestKeepsInv(s, Load(s.fet, observed));
  }

  lemma FetchKeepsInv(s: State, observed: nat, check: bool)
    requires Inv(s) && CanFetch(s, observed)
    ensures Inv(FetchStep(s, observed, check))
  {
    if Notifying(s.fet.pc) {
      NotifyKeepsInv(s);
    } else {
      LoadKeepsInv(s, observed);
      var s1 := s.(fet := Load(s.fet, observed));
      LocalKeepsInv(s1, check);
      assert FetchStep(s, observed, check) == s1.(fet := LocalStep(s.cfg, s.src, s1.fet, check));
    }
  }

  // ---------------------------------------------------------------------
  // The source and the consumer
  // ---------------------------------------------------------------------

  lemma SourceKeepsFetcherOk(cfg: Config, src: Source, src': Source, f: Fetcher)
    requires FetcherOk(cfg, src, f) && !src.destroyed
    requires src.pushed <= src'.pushed && (src'.destroyed ==> src'.pushed == src.pushed)
    ensures FetcherOk(cfg, src', f)
  {
  }

  lemma SourceChangeKeepsInv(s: State, src': Source)
    requires Inv(s) && !s.src.destroyed && src'.pushed <= MAX_EVENT_ID
    requires s.src.pushed <= src'.pushed && (src'.destroyed ==> src'.pushed == s.src.pushed)
    ensures Inv(s.(src := src'))
  {
    SourceKeepsFetcherOk(s.cfg, s.src, src', s.fet);
    assert ConsumerOk(src', s.fet, s.con);
  }

  lemma SourceStepKeepsInv(s: State, step: Step)
    requires Inv(s) && Enabled(s, step) && (step.SPush? || step.SDestroy?)
    ensures Inv(Apply(s, step))
  {
    SourceChangeKeepsInv(s, Apply(s, step).src);
    assert Apply(s, step) == s.(src := Apply(s, step).src);
  }

  lemma FetchStepKeepsInv(s: State, step: Step)
    requires Inv(s) && Enabled(s, step) && step.Fetch?
    ensures Inv(Apply(s, step))
  {
    FetchKeepsInv(s, step.observed, step.check);
    assert Apply(s, step) == FetchStep(s, step.observed, step.check);
  }

  lemma DropBegins(s: State, step: Step)
    requires Bounds(s) && Enabled(s, step) && step.Drop?
    ensures var num := DropCount(step.k, |s.fet.out| - s.con.taken);
            && s.con.taken + num <= |s.fet.out|
            && Apply(s, step) == if num == 0 then s else BeginDrop(s, num, s.fet.out[s.con.taken + num - 1].id)
  {
  }

  lemma DropOlderBegins(s: State, step: Step)
    requires Bounds(s) && Enabled(s, step) && step.DropOlder?
    ensures var num := OlderCount(Buffered(s), step.bound);
            s.con.taken + num <= |s.fet.out| && Apply(s, step) == BeginDrop(s, num, step.bound)
  {
  }

  lemma BeginDropKeepsInv(s: State, num: nat, id: nat)
    requires Inv(s) && s.con.pc.CIdle? && s.con.taken + num <= |s.fet.out|
    ensures Inv(BeginDrop(s, num, id))
  {
  }

  /** Publishing an identifier is no concern of the invariant. */
  lemma PublishKeepsInv(s: State, id: nat)
    requires Inv(s)
    ensures Inv(s.(info := s.info.(lastProcessed := id)))
  {
  }

  lemma ConsumerStepKeepsInv(s: State, step: Step)
    requires Inv(s) && Enabled(s, step) && (step.Drop? || step.DropOlder? || step.Pop? || step.Publish? || step.AskDone?)
    ensures Inv(Apply(s, step))
  {
    match step
    case Drop(k) =>
      var num := DropCount(k, |s.fet.out| - s.con.taken);
      DropBegins(s, step);
      if num > 0 {
        BeginDropKeepsInv(s, num, s.fet.out[s.con.taken + num - 1].id);
      }
    case DropOlder(bound) =>
      DropOlderBegins(s, step);
      BeginDropKeepsInv(s, OlderCount(Buffered(s), bound), bound);
    case Pop =>
      assert Inv(s.(con := s.con.(taken := s.con.taken + 1)));
    case Publish(id) =>
      PublishKeepsInv(s, id);
    case AskDone =>
      assert Apply(s, step) == s || Apply(s, step) == s.(con := s.con.(pc := CDone1));
  }

  lemma DoneKeepsConsumerOk(s: State)
    requires Inv(s) && !s.con.pc.CIdle? && !s.con.pc.CDropping? && !s.con.pc.CNotifying?
    ensures ConsumerOk(s.src, s.fet, DoneStep(s)) && DoneStep(s).taken == s.con.taken
  {
  }

  lemma ContinueKeepsInv(s: State, step: Step)
    requires Inv(s) && Enabled(s, step) && step.Continue?
    ensures Inv(Apply(s, step))
  {
    var s' := Apply(s, step);
    assert s'.fet == s.fet && s'.src == s.src && s'.cfg == s.cfg && s'.info.slots == s.info.slots;
    if !s.con.pc.CDropping? && !s.con.pc.CNotifying? {
      DoneKeepsConsumerOk(s);
    }
  }

  lemma StepKeepsInv(s: State, step: Step)
    requires Inv(s) && Enabled(s, step)
    ensures Inv(Apply(s, step))
  {
    match step
    case SPush => SourceStepKeepsInv(s, step);
    case SDestroy => SourceStepKeepsInv(s, step);
    case Fetch(_, _) => FetchStepKeepsInv(s, step);
    case Continue => ContinueKeepsInv(s, step);
    case _ => ConsumerStepKeepsInv(s, step);
  }

  lemma {:induction false} RunKeepsInv(s: State, steps: seq<Step>, s': State)
    requires Inv(s) && Reaches(s, steps, s')
    ensures Inv(s')
    decreases |steps|
  {
    if steps != [] {
      StepKeepsInv(s, steps[0]);
      RunKeepsInv(Apply(s, steps[0]), steps[1..], s');
    }
  }

  // ---------------------------------------------------------------------
  // A careful consumer
  // ---------------------------------------------------------------------

  lemma SafeBoundExtends(src: Source, f: Fetcher, f': Fetcher, t: nat, b: nat)
    requires Extends(src, f, f') && SafeBound(f.out, t, b) && t <= |f.out|
    ensures SafeBound(f'.out, t, b)
  {
  }

  lemma ExtendsTransitive(src: Source, f: Fetcher, f1: Fetcher, f2: Fetcher)
    requires Extends(src, f, f1) && f1.out == f.out && Handled(f1) == Handled(f) && Extends(src, f1, f2)
    ensures Extends(src, f, f2)
  {
  }

  lemma LocalExtends(cfg: Config, src: Source, f: Fetcher, observed: nat, check: bool)
    requires FetcherInv(cfg, src, f) && f.view <= observed <= |f.out|
    requires !Notifying(f.pc) && !f.pc.FDone? && !f.pc.FCrash?
    ensures FetcherInv(cfg, src, Load(f, observed))
    ensures Extends(src, f, LocalStep(cfg, src, Load(f, observed), check))
  {
    LoadKeeps(cfg, src, f, observed);
    var f1 := Load(f, observed);
    LocalStepKeeps(cfg, src, f1, check);
    ExtendsTransitive(src, f, f1, LocalStep(cfg, src, f1, check));
  }

  lemma FetchExtends(s: State, observed: nat, check: bool)
    requires Inv(s) && CanFetch(s, observed)
    ensures var s' := FetchStep(s, observed, check);
            && Extends(s.src, s.fet, s'.fet)
            && s'.con == s.con && s'.info.lastProcessed == s.info.lastProcessed
  {
    if Notifying(s.fet.pc) {
      NotifyKeeps(s.cfg, s.src, s.fet);
    } else {
      LocalExtends(s.cfg, s.src, s.fet, observed, check);
    }
  }

  /** Nothing of what a step of the fetcher does makes a safe bound unsafe. */
  lemma FetchKeepsSafe(s: State, observed: nat, check: bool)
    requires Safe(s) && CanFetch(s, observed)
    ensures Safe(FetchStep(s, observed, check))
  {
    FetchKeepsInv(s, observed, check);
    FetchExtends(s, observed, check);
    var f' := FetchStep(s, observed, check).fet;
    SafeBoundExtends(s.src, s.fet, f', s.con.taken, s.info.lastProcessed);
    match s.con.pc
    case CDropping(num, id) => SafeBoundExtends(s.src, s.fet, f', s.con.taken + num, id);
    case CNotifying(id) => SafeBoundExtends(s.src, s.fet, f', s.con.taken, id);
    case _ =>
  }

  /** The identifier of the last entry dropped bounds everything dropped. */
  lemma DroppedIdIsSafe(log: seq<Entry>, taken: nat, num: nat, lastProcessed: nat)
    requires Ascending(log) && IdsWithin(log, Covered(log)) && SafeBound(log, taken, lastProcessed)
    requires 0 < num && taken + num <= |log|
    ensures SafeBound(log, taken + num, log[taken + num - 1].id)
    ensures lastProcessed <= log[taken + num - 1].id
  {
  }

  /** A bound up to the newest buffered identifier is safe once the older entries are gone. */
  lemma OlderBoundIsSafe(log: seq<Entry>, taken: nat, bound: nat, lastProcessed: nat)
    requires Ascending(log) && IdsWithin(log, Covered(log)) && SafeBound(log, taken, lastProcessed)
    requires taken < |log| && bound <= Last(log).id && 0 < OlderCount(log[taken..], bound)
    ensures SafeBound(log, taken + OlderCount(log[taken..], bound), bound) && lastProcessed <= bound
  {
    var num := OlderCount(log[taken..], bound);
    assert log[taken..][0] == log[taken];
    assert log[taken..][num - 1] == log[taken + num - 1];
    assert num < |log[taken..]| ==> log[taken..][num] == log[taken + num];
  }

  /** What was taken may be published by hand. */
  lemma TakenIdIsSafe(log: seq<Entry>, taken: nat, id: nat)
    requires Ascending(log) && IdsWithin(log, Covered(log))
    requires 0 < taken <= |log| && id <= log[taken - 1].id
    ensures SafeBound(log, taken, id)
  {
  }

  lemma BeginDropKeepsSafe(s: State, num: nat, id: nat)
    requires Safe(s) && s.con.pc.CIdle? && s.con.taken + num <= |s.fet.out|
    requires 0 < num ==> SafeBound(s.fet.out, s.con.taken + num, id) && s.info.lastProcessed <= id
    ensures Safe(BeginDrop(s, num, id))
  {
    BeginDropKeepsInv(s, num, id);
  }

  lemma DropKeepsSafe(s: State, step: Step)
    requires Safe(s) && Enabled(s, step) && step.Drop?
    ensures Safe(Apply(s, step))
  {
    LogAscends(s.fet.out);
    var num := DropCount(step.k, |s.fet.out| - s.con.taken);
    DropBegins(s, step);
    if num > 0 {
      var id := s.fet.out[s.con.taken + num - 1].id;
      DroppedIdIsSafe(s.fet.out, s.con.taken, num, s.info.lastProcessed);
      BeginDropKeepsSafe(s, num, id);
    }
  }

  lemma CarefulBoundIsSafe(s: State, bound: nat)
    requires Safe(s) && s.con.taken + OlderCount(Buffered(s), bound) <= |s.fet.out|
    requires s.con.taken == |s.fet.out| || bound <= Last(s.fet.out).id
    ensures 0 < OlderCount(Buffered(s), bound) ==>
              SafeBound(s.fet.out, s.con.taken + OlderCount(Buffered(s), bound), bound) && s.info.lastProcessed <= bound
  {
    LogAscends(s.fet.out);
    if 0 < OlderCount(Buffered(s), bound) {
      OlderBoundIsSafe(s.fet.out, s.con.taken, bound, s.info.lastProcessed);
    }
  }

  lemma DropOlderKeepsSafe(s: State, step: Step)
    requires Safe(s) && Enabled(s, step) && Careful(s, step) && step.DropOlder?
    ensures Safe(Apply(s, step))
  {
    DropOlderBegins(s, step);
    CarefulBoundIsSafe(s, step.bound);
    BeginDropKeepsSafe(s, OlderCount(Buffered(s), step.bound), step.bound);
  }

  lemma PublishKeepsSafe(s: State, step: Step)
    requires Safe(s) && Enabled(s, step) && Careful(s, step) && step.Publish?
    ensures Safe(Apply(s, step))
  {
    LogAscends(s.fet.out);
    PublishKeepsInv(s, step.id);
    TakenIdIsSafe(s.fet.out, s.con.taken, step.id);
  }

  lemma SourceKeepsSafe(s: State, step: Step)
    requires Safe(s) && Enabled(s, step) && (step.SPush? || step.SDestroy?)
    ensures Safe(Apply(s, step))
  {
    SourceStepKeepsInv(s, step);
  }

  lemma FetchStepKeepsSafe(s: State, step: Step)
    requires Safe(s) && Enabled(s, step) && step.Fetch?
    ensures Safe(Apply(s, step))
  {
    FetchKeepsSafe(s, step.observed, step.check);
    assert Apply(s, step) == FetchStep(s, step.observed, step.check);
  }

  lemma PopKeepsSafe(s: State, step: Step)
    requires Safe(s) && Enabled(s, step) && step.Pop?
    ensures Safe(Apply(s, step))
  {
    ConsumerStepKeepsInv(s, step);
  }

  lemma AskDoneKeepsSafe(s: State, step: Step)
    requires Safe(s) && Enabled(s, step) && step.AskDone?
    ensures Safe(Apply(s, step))
  {
    ConsumerStepKeepsInv(s, step);
  }

  lemma ContinueKeepsSafe(s: State, step: Step)
    requires Safe(s) && Enabled(s, step) && step.Continue?
    ensures Safe(Apply(s, step))
  {
    ContinueKeepsInv(s, step);
  }

  lemma CarefulStepKeepsSafe(s: State, step: Step)
    requires Safe(s) && Enabled(s, step) && Careful(s, step)
    ensures Safe(Apply(s, step))
  {
    match step
    case SPush => SourceKeepsSafe(s, step);
    case SDestroy => SourceKeepsSafe(s, step);
    case Fetch(_, _) => FetchStepKeepsSafe(s, step);
    case Drop(_) => DropKeepsSafe(s, step);
    case DropOlder(_) => DropOlderKeepsSafe(s, step);
    case Pop => PopKeepsSafe(s, step);
    case Publish(_) => PublishKeepsSafe(s, step);
    case AskDone => AskDoneKeepsSafe(s, step);
    case Continue => ContinueKeepsSafe(s, step);
  }

  lemma {:induction false} CarefulRunKeepsSafe(s: State, steps: seq<Step>, s': State)
    requires Safe(s) && CarefullyReaches(s, steps, s')
    ensures Safe(s')
    decreases |steps|
  {
    if steps != [] {
      CarefulStepKeepsSafe(s, steps[0]);
      CarefulRunKeepsSafe(Apply(s, steps[0]), steps[1..], s');
    }
  }

  /** A careful run is a run. */
  lemma {:induction false} CarefulRunIsRun(s: State, steps: seq<Step>, s': State)
    requires CarefullyReaches(s, steps, s')
    ensures Reaches(s, steps, s')
    decreases |steps|
  {
    if steps != [] {
      CarefulRunIsRun(Apply(s, steps[0]), steps[1..], s');
    }
  }
}

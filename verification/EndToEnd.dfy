/**
  The whole path of a string payload: the source stores strings in auxiliary
  buffers while the fetcher and the consumer publish which events are lost or
  processed. The loop of writer_get_aux_buffer (src/shmbuf/buffer-aux.c:124-160)
  interleaves with the other two threads at every read of the shared header: the
  last processed identifier is one read, and each slot of the dropped ranges one.
 */
module EndToEnd {
  import opened Basics
  import opened EventLog
  import opened SharedInfo
  import opened PipelineInvariant
  import opened PipelineTheorems
  import opened AuxPool
  import P = Pipeline

  /** Where the source thread is while it stores a string for the event it builds. */
  datatype StoringPc =
    | Idle
    | Look(i: nat, bytes: seq<byte>)             // at the i-th oldest buffer
    | Slot(i: nat, j: nat, bytes: seq<byte>)     // scanning the dropped ranges
    | DoReset(i: nat, bytes: seq<byte>)          // found it reclaimable
    | DoesItFit(i: nat, bytes: seq<byte>)
    | Write(bytes: seq<byte>)                    // the current buffer has room

  /** `log` lists every string ever stored. */
  datatype System = System(p: P.State, pool: Pool, storing: StoringPc, log: seq<Pushed>, page: nat)

  datatype Step = Pipe(step: P.Step) | Begin(bytes: seq<byte>) | Advance

  function InitialSystem(cfg: P.Config, page: nat): System {
    System(P.Init(cfg), EMPTY_POOL, Idle, [], page)
  }

  predicate Ready(y: System) {
    && P.Bounds(y.p) && PoolOk(y.pool) && 0 < y.page
    && match y.storing
       case Idle => true
       case Look(i, _) => i <= |y.pool.age|
       case Slot(i, j, _) => i < |y.pool.age| && j <= DROPPED_RANGES_NUM
       case DoReset(i, _) => i < |y.pool.age|
       case DoesItFit(i, _) => i < |y.pool.age|
       case Write(bytes) => CurrentHasRoom(y.pool, |bytes|)
  }

  /** The source pushes its event and destroys the buffer between strings only. */
  predicate Enabled(y: System, step: Step)
    requires Ready(y)
  {
    match step
    case Pipe(step) => P.Enabled(y.p, step) && (step.SPush? || step.SDestroy? ==> y.storing.Idle?)
    case Begin(_) => y.storing.Idle? && !y.p.src.destroyed && y.p.src.pushed < MAX_EVENT_ID
    case Advance => !y.storing.Idle?
  }

  function AdvanceStep(y: System): System
    requires Ready(y) && !y.storing.Idle?
  {
    match y.storing
    case Look(i, bytes) =>
      if i == |y.pool.age| then y.(pool := NewBuffer(y.pool, |bytes|, y.page), storing := Write(bytes))
      else if y.pool.bufs[y.pool.age[i]].last <= y.p.info.lastProcessed then y.(storing := DoReset(i, bytes))
      else y.(storing := Slot(i, 0, bytes))
    case Slot(i, j, bytes) =>
      var a := y.pool.bufs[y.pool.age[i]];
      if j == DROPPED_RANGES_NUM then y.(storing := DoesItFit(i, bytes))
      else if SlotCovers(y.p.info.slots[j], a.first, a.last) then y.(storing := DoReset(i, bytes))
      else y.(storing := Slot(i, j + 1, bytes))
    case DoReset(i, bytes) =>
      y.(pool := ResetAt(y.pool, i), storing := DoesItFit(i, bytes))
    case DoesItFit(i, bytes) =>
      if Fits(y.pool.bufs[y.pool.age[i]], |bytes|) then y.(pool := TakeAt(y.pool, i), storing := Write(bytes))
      else y.(storing := Look(i + 1, bytes))
    case Write(bytes) =>
      var evid := y.p.src.pushed + 1;
      y.(pool := WriteString(y.pool, evid, bytes), storing := Idle,
         log := y.log + [Pushed(evid, y.pool.cur.value, y.pool.bufs[y.pool.cur.value].head, bytes)])
  }

  function Apply(y: System, step: Step): System
    requires Ready(y) && Enabled(y, step)
  {
    match step
    case Pipe(step) => y.(p := P.Apply(y.p, step))
    case Begin(bytes) =>
      y.(storing := if CurrentHasRoom(y.pool, |bytes|) then Write(bytes) else Look(0, bytes))
    case Advance => AdvanceStep(y)
  }

  ghost predicate Reaches(y: System, steps: seq<Step>, y': System)
    decreases |steps|
  {
    if steps == [] then y == y'
    else Ready(y) && Enabled(y, steps[0]) && Reaches(Apply(y, steps[0]), steps[1..], y')
  }

  // ---------------------------------------------------------------------
  // The invariant
  // ---------------------------------------------------------------------

  /** No event whose strings may be in the buffer is needed any more. */
  ghost predicate Unneeded(p: P.State, a: Aux) {
    forall id: nat :: a.first <= id <= a.last ==> !Needed(p, id)
  }

  ghost predicate StringsIntact(p: P.State, pool: Pool, log: seq<Pushed>) {
    forall k :: 0 <= k < |log| && Needed(p, log[k].evid) ==> Intact(pool, log[k])
  }

  ghost predicate SystemInv(y: System) {
    && Ready(y)
    && Inv(y.p)
    && WrittenUpTo(y.pool, y.p.src.pushed + 1)
    && StringsIntact(y.p, y.pool, y.log)
    && (y.storing.Idle? || y.storing.Write? ==> CurrentInUse(y.pool))
    && (y.storing.DoReset? ==> Unneeded(y.p, y.pool.bufs[y.pool.age[y.storing.i]]))
  }

  lemma InitialInv(cfg: P.Config, page: nat)
    requires 1 <= cfg.thr < cfg.cap && 0 < page
    ensures SystemInv(InitialSystem(cfg, page))
  {
    InitInv(cfg);
  }

  lemma PushedGrows(p: P.State, step: P.Step)
    requires P.Bounds(p) && P.Enabled(p, step)
    ensures p.src.pushed <= P.Apply(p, step).src.pushed
  {
  }

  /** Steps of the pipeline only take events off those needed, and never add one. */
  lemma PipeKeepsInv(y: System, step: Step)
    requires SystemInv(y) && Enabled(y, step) && step.Pipe?
    ensures SystemInv(Apply(y, step))
  {
    var p' := P.Apply(y.p, step.step);
    StepKeepsInv(y.p, step.step);
    forall id: nat | Needed(p', id)
      ensures Needed(y.p, id)
    {
      NeededShrinks(y.p, step.step, id);
    }
    assert y.p.src.pushed <= p'.src.pushed by { PushedGrows(y.p, step.step); }
  }

  /** A buffer found reclaimable holds no string that is still needed. */
  lemma ReclaimableIsUnneeded(p: P.State, a: Aux)
    requires Inv(p) && Reclaimable(a, p.info)
    ensures Unneeded(p, a)
  {
    forall id: nat | a.first <= id <= a.last && Needed(p, id)
      ensures false
    {
      NeededIsNotDropped(p, id);
    }
  }

  lemma NewBufferKeepsInv(y: System)
    requires SystemInv(y) && y.storing.Look? && y.storing.i == |y.pool.age|
    ensures SystemInv(AdvanceStep(y))
  {
    NewBufferKeepsOk(y.pool, |y.storing.bytes|, y.page);
    forall k | 0 <= k < |y.log| && Needed(y.p, y.log[k].evid)
      ensures Intact(AdvanceStep(y).pool, y.log[k])
    {
      NewBufferSpares(y.pool, |y.storing.bytes|, y.page, y.log[k]);
    }
  }

  lemma LookKeepsInv(y: System)
    requires SystemInv(y) && (y.storing.Look? || y.storing.Slot?)
    ensures SystemInv(AdvanceStep(y))
  {
    var i := y.storing.i;
    if i == |y.pool.age| {
      NewBufferKeepsInv(y);
    } else if AdvanceStep(y).storing.DoReset? {
      ReclaimableIsUnneeded(y.p, y.pool.bufs[y.pool.age[i]]);
    }
  }

  lemma ResetKeepsInv(y: System)
    requires SystemInv(y) && y.storing.DoReset?
    ensures SystemInv(AdvanceStep(y))
  {
    var i := y.storing.i;
    ResetKeepsOk(y.pool, i);
    forall k | 0 <= k < |y.log| && Needed(y.p, y.log[k].evid)
      ensures Intact(ResetAt(y.pool, i), y.log[k])
    {
      ResetSparesOthers(y.pool, i, y.log[k]);
    }
  }

  lemma FitKeepsInv(y: System)
    requires SystemInv(y) && y.storing.DoesItFit?
    ensures SystemInv(AdvanceStep(y))
  {
    var i := y.storing.i;
    if Fits(y.pool.bufs[y.pool.age[i]], |y.storing.bytes|) {
      TakeKeepsOk(y.pool, i, |y.storing.bytes|);
      forall k | 0 <= k < |y.log| && Needed(y.p, y.log[k].evid)
        ensures Intact(TakeAt(y.pool, i), y.log[k])
      {
        TakeSpares(y.pool, i, y.log[k]);
      }
    }
  }

  lemma WriteKeepsInv(y: System)
    requires SystemInv(y) && y.storing.Write?
    ensures SystemInv(AdvanceStep(y))
  {
    var evid := y.p.src.pushed + 1;
    var y' := AdvanceStep(y);
    WriteKeepsOk(y.pool, evid, y.storing.bytes);
    WriteThenRead(y.pool, evid, y.storing.bytes);
    forall k | 0 <= k < |y'.log| && Needed(y.p, y'.log[k].evid)
      ensures Intact(y'.pool, y'.log[k])
    {
      if k < |y.log| {
        assert y'.log[k] == y.log[k];
        WriteSpares(y.pool, evid, y.storing.bytes, y.log[k]);
      }
    }
  }

  lemma SystemStepKeepsInv(y: System, step: Step)
    requires SystemInv(y) && Enabled(y, step)
    ensures SystemInv(Apply(y, step)) && y.log <= Apply(y, step).log
  {
    if step.Pipe? {
      PipeKeepsInv(y, step);
    } else if step.Advance? {
      match y.storing
      case Look(_, _) => LookKeepsInv(y);
      case Slot(_, _, _) => LookKeepsInv(y);
      case DoReset(_, _) => ResetKeepsInv(y);
      case DoesItFit(_, _) => FitKeepsInv(y);
      case Write(_) => WriteKeepsInv(y);
    }
  }

  lemma {:induction false} SystemRunKeepsInv(y: System, steps: seq<Step>, y': System)
    requires SystemInv(y) && Reaches(y, steps, y')
    ensures SystemInv(y') && y.log <= y'.log
    decreases |steps|
  {
    if steps != [] {
      SystemStepKeepsInv(y, steps[0]);
      SystemRunKeepsInv(Apply(y, steps[0]), steps[1..], y');
    }
  }

  // ---------------------------------------------------------------------
  // Main results
  // ---------------------------------------------------------------------

  /** The bytes in a buffer from an offset on. */
  function ReadString(pool: Pool, idx: nat, off: nat, n: nat): seq<byte>
    requires idx < |pool.bufs| && off + n <= |pool.bufs[idx].data|
  {
    pool.bufs[idx].data[off..off + n]
  }

  /** Whatever source, fetcher and consumer do, whatever the consumer publishes, and
      however their steps interleave: a string whose event is neither published as
      processed nor dropped reads back byte for byte. This includes strings of events
      the consumer has taken out of the buffer and not published yet. */
  lemma StringsSurvive(cfg: P.Config, page: nat, steps: seq<Step>, y: System, k: nat)
    requires 1 <= cfg.thr < cfg.cap && 0 < page
    requires Reaches(InitialSystem(cfg, page), steps, y)
    requires k < |y.log| && Needed(y.p, y.log[k].evid)
    ensures var rec := y.log[k];
            && rec.idx < |y.pool.bufs| && rec.off + |rec.bytes| <= |y.pool.bufs[rec.idx].data|
            && ReadString(y.pool, rec.idx, rec.off, |rec.bytes|) == rec.bytes
  {
    InitialInv(cfg, page);
    SystemRunKeepsInv(InitialSystem(cfg, page), steps, y);
  }

  /** Every string stored is short enough for its offset to fit a reference. */
  predicate ShortStrings(steps: seq<Step>, page: nat) {
    forall i :: 0 <= i < |steps| && steps[i].Begin? ==> |steps[i].bytes| + 2 * page < HALF
  }

  ghost predicate AllAddressable(y: System) {
    && Addressable(y.pool)
    && (y.storing.Look? || y.storing.Slot? || y.storing.DoReset? || y.storing.DoesItFit? ==>
          |y.storing.bytes| + 2 * y.page < HALF)
    && forall k :: 0 <= k < |y.log| ==> y.log[k].off < HALF
  }

  lemma NewBufferAddressable(p: Pool, size: nat, page: nat)
    requires 0 < page && Addressable(p) && size + 2 * page < HALF
    ensures Addressable(NewBuffer(p, size, page))
  {
  }

  lemma WriteAddressable(p: Pool, evid: nat, bytes: seq<byte>)
    requires PoolOk(p) && CurrentHasRoom(p, |bytes|) && Addressable(p)
    ensures Addressable(WriteString(p, evid, bytes)) && p.bufs[p.cur.value].head < HALF
  {
  }

  lemma ScanKeepsAddressable(y: System)
    requires Ready(y) && AllAddressable(y) && !y.storing.Idle? && !y.storing.Write?
    ensures AllAddressable(AdvanceStep(y)) && AdvanceStep(y).page == y.page
  {
    match y.storing
    case Look(i, bytes) =>
      if i == |y.pool.age| {
        NewBufferAddressable(y.pool, |bytes|, y.page);
      }
    case DoReset(i, _) =>
      assert Addressable(ResetAt(y.pool, i));
    case DoesItFit(i, _) =>
      assert Addressable(TakeAt(y.pool, i));
    case _ =>
  }

  lemma WriteKeepsAddressable(y: System)
    requires Ready(y) && AllAddressable(y) && y.storing.Write?
    ensures AllAddressable(AdvanceStep(y)) && AdvanceStep(y).page == y.page
  {
    WriteAddressable(y.pool, y.p.src.pushed + 1, y.storing.bytes);
  }

  lemma StepKeepsAddressable(y: System, step: Step)
    requires Ready(y) && Enabled(y, step) && AllAddressable(y)
    requires step.Begin? ==> |step.bytes| + 2 * y.page < HALF
    ensures AllAddressable(Apply(y, step)) && Apply(y, step).page == y.page
  {
    if step.Advance? && y.storing.Write? {
      WriteKeepsAddressable(y);
    } else if step.Advance? {
      ScanKeepsAddressable(y);
    }
  }

  lemma {:induction false} RunKeepsAddressable(y: System, steps: seq<Step>, y': System)
    requires Reaches(y, steps, y') && AllAddressable(y) && ShortStrings(steps, y.page)
    ensures AllAddressable(y')
    decreases |steps|
  {
    if steps != [] {
      StepKeepsAddressable(y, steps[0]);
      RunKeepsAddressable(Apply(y, steps[0]), steps[1..], y');
    }
  }

  /** read_str: the bytes behind a packed reference. */
  function ReadPacked(pool: Pool, elem: nat, n: nat): seq<byte>
    requires UnpackIdx(elem) < |pool.bufs|
    requires UnpackOff(elem) + n <= |pool.bufs[UnpackIdx(elem)].data|
  {
    ReadString(pool, UnpackIdx(elem), UnpackOff(elem), n)
  }

  /** So the reference that the source stored in the event leads the consumer back to
      the string. The code asserts that offsets are below 2^32, and here they are. */
  lemma ReferencesSurvive(cfg: P.Config, page: nat, steps: seq<Step>, y: System, k: nat)
    requires 1 <= cfg.thr < cfg.cap && 0 < page
    requires Reaches(InitialSystem(cfg, page), steps, y) && ShortStrings(steps, page)
    requires |y.pool.bufs| <= HALF
    requires k < |y.log| && Needed(y.p, y.log[k].evid)
    ensures y.log[k].off < HALF
    ensures var rec := y.log[k]; var elem := Pack(rec.idx, rec.off);
            && UnpackIdx(elem) < |y.pool.bufs|
            && UnpackOff(elem) + |rec.bytes| <= |y.pool.bufs[UnpackIdx(elem)].data|
            && ReadPacked(y.pool, elem, |rec.bytes|) == rec.bytes
  {
    RunKeepsAddressable(InitialSystem(cfg, page), steps, y);
    StringsSurvive(cfg, page, steps, y, k);
    PackRoundTrip(y.log[k].idx, y.log[k].off);
  }

  // ---------------------------------------------------------------------
  // With a consumer that publishes carefully
  // ---------------------------------------------------------------------

  ghost predicate CarefullyReaches(y: System, steps: seq<Step>, y': System)
    decreases |steps|
  {
    if steps == [] then y == y'
    else
      && Ready(y) && Enabled(y, steps[0]) && (steps[0].Pipe? ==> P.Careful(y.p, steps[0].step))
      && CarefullyReaches(Apply(y, steps[0]), steps[1..], y')
  }

  lemma {:induction false} CarefulRunKeepsPipelineSafe(y: System, steps: seq<Step>, y': System)
    requires CarefullyReaches(y, steps, y') && Safe(y.p)
    ensures Reaches(y, steps, y') && Safe(y'.p)
    decreases |steps|
  {
    if steps != [] {
      var y1 := Apply(y, steps[0]);
      if steps[0].Pipe? {
        CarefulStepKeepsSafe(y.p, steps[0].step);
      } else {
        assert y1.p == y.p;
      }
      CarefulRunKeepsPipelineSafe(y1, steps[1..], y');
    }
  }

  /** Then every string of an event that the consumer can still come to, because it is
      not forwarded yet or still in the arbiter buffer, reads back. */
  lemma StringsOfLiveEventsSurvive(cfg: P.Config, page: nat, steps: seq<Step>, y: System, k: nat)
    requires 1 <= cfg.thr < cfg.cap && 0 < page
    requires CarefullyReaches(InitialSystem(cfg, page), steps, y)
    requires k < |y.log| && Live(y.p, y.log[k].evid)
    ensures var rec := y.log[k];
            && rec.idx < |y.pool.bufs| && rec.off + |rec.bytes| <= |y.pool.bufs[rec.idx].data|
            && ReadString(y.pool, rec.idx, rec.off, |rec.bytes|) == rec.bytes
  {
    InitInv(cfg);
    CarefulRunKeepsPipelineSafe(InitialSystem(cfg, page), steps, y);
    LiveIsNeeded(y.p, y.log[k].evid);
    StringsSurvive(cfg, page, steps, y, k);
  }

  lemma HandledAtMostPushed(p: P.State)
    requires Inv(p)
    ensures Handled(p.fet) <= p.src.pushed
  {
  }

  /** That includes the strings stored for the event being built. */
  lemma StringsOfUnpushedEventsAreLive(y: System, id: nat)
    requires SystemInv(y) && y.p.src.pushed < id
    ensures Live(y.p, id)
  {
    HandledAtMostPushed(y.p);
  }

  // ---------------------------------------------------------------------
  // The scan without interference
  // ---------------------------------------------------------------------

  lemma SlotsToDecision(y: System, i: nat, j: nat, bytes: seq<byte>) returns (steps: seq<Step>)
    requires Ready(y) && y.storing == Slot(i, j, bytes)
    requires forall k :: 0 <= k < j ==> !SlotCovers(y.p.info.slots[k], y.pool.bufs[y.pool.age[i]].first, y.pool.bufs[y.pool.age[i]].last)
    ensures var a := y.pool.bufs[y.pool.age[i]];
            Reaches(y, steps, y.(storing := if WasDropped(y.p.info, a.first, a.last) then DoReset(i, bytes) else DoesItFit(i, bytes)))
    decreases DROPPED_RANGES_NUM - j
  {
    var y1 := AdvanceStep(y);
    if y1.storing.Slot? {
      var rest := SlotsToDecision(y1, i, j + 1, bytes);
      steps := [Advance] + rest;
      assert steps[1..] == rest;
    } else {
      steps := [Advance];
      assert Reaches(y1, steps[1..], y1);
    }
  }

  ghost predicate CanReach(y: System, y': System) {
    exists steps :: Reaches(y, steps, y')
  }

  lemma OneStep(y: System, step: Step)
    requires Ready(y) && Enabled(y, step)
    ensures CanReach(y, Apply(y, step))
  {
    assert Reaches(Apply(y, step), [step][1..], Apply(y, step));
    assert Reaches(y, [step], Apply(y, step));
  }

  lemma StepFirst(y: System, step: Step, rest: seq<Step>, y2: System)
    requires Ready(y) && Enabled(y, step) && Reaches(Apply(y, step), rest, y2)
    ensures Reaches(y, [step] + rest, y2)
  {
    assert ([step] + rest)[1..] == rest;
  }

  lemma {:induction false} RunsCompose(y: System, a: seq<Step>, y1: System, b: seq<Step>, y2: System)
    requires Reaches(y, a, y1) && Reaches(y1, b, y2)
    ensures Reaches(y, a + b, y2)
    decreases |a|
  {
    if a == [] {
      assert a + b == b;
    } else {
      var step, rest := a[0], a[1..];
      RunsCompose(Apply(y, step), rest, y1, b, y2);
      StepFirst(y, step, rest + b, y2);
      HeadThenRest(a, b);
    }
  }

  lemma ReachTransitive(y: System, y1: System, y2: System)
    requires CanReach(y, y1) && CanReach(y1, y2)
    ensures CanReach(y, y2)
  {
    var a :| Reaches(y, a, y1);
    var b :| Reaches(y1, b, y2);
    RunsCompose(y, a, y1, b, y2);
  }

  /** One buffer is looked at, and reset when it is reclaimable. */
  function Examined(y: System, i: nat, bytes: seq<byte>): System
    requires Ready(y) && i < |y.pool.age|
  {
    var reclaim := Reclaimable(y.pool.bufs[y.pool.age[i]], y.p.info);
    y.(pool := if reclaim then ResetAt(y.pool, i) else y.pool, storing := DoesItFit(i, bytes))
  }

  lemma ExamineIsARun(y: System, i: nat, bytes: seq<byte>)
    requires Ready(y) && y.storing == Look(i, bytes) && i < |y.pool.age|
    ensures CanReach(y, Examined(y, i, bytes)) && Ready(Examined(y, i, bytes))
  {
    var y1 := AdvanceStep(y);
    var y2 := y.(storing := if Reclaimable(y.pool.bufs[y.pool.age[i]], y.p.info) then DoReset(i, bytes)
                            else DoesItFit(i, bytes));
    OneStep(y, Advance);
    if y1.storing.Slot? {
      var steps := SlotsToDecision(y1, i, 0, bytes);
      assert Reaches(y1, steps, y2);
      ReachTransitive(y, y1, y2);
    }
    ResetKeepsOk(y.pool, i);
    if y2.storing.DoReset? {
      OneStep(y2, Advance);
      ReachTransitive(y, y2, Examined(y, i, bytes));
    }
  }

  /** The sequential loop, as AuxBuffers carries it out, is the run of this machine in
      which no other thread moves. */
  lemma {:induction false} ScanIsARun(y: System, i: nat, bytes: seq<byte>)
    requires Ready(y) && y.storing == Look(i, bytes)
    ensures CanReach(y, y.(pool := Scan(y.pool, i, |bytes|, y.p.info, y.page), storing := Write(bytes)))
    decreases |y.pool.age| - i
  {
    if i == |y.pool.age| {
      OneStep(y, Advance);
    } else {
      var y1 := Examined(y, i, bytes);
      ExamineIsARun(y, i, bytes);
      OneStep(y1, Advance);
      var y2 := AdvanceStep(y1);
      ReachTransitive(y, y1, y2);
      if y2.storing.Look? {
        ScanIsARun(y2, i + 1, bytes);
        ReachTransitive(y, y2, y.(pool := Scan(y.pool, i, |bytes|, y.p.info, y.page), storing := Write(bytes)));
      }
    }
  }

  /** What StoreString and the log make of the state in which the source starts to store. */
  function Stored(y: System, bytes: seq<byte>): System
    requires Ready(y) && CurrentInUse(y.pool)
  {
    var evid := y.p.src.pushed + 1;
    GetAuxKeepsOk(y.pool, |bytes|, y.p.info, y.page);
    var q := GetAux(y.pool, |bytes|, y.p.info, y.page);
    y.(pool := StoreString(y.pool, evid, bytes, y.p.info, y.page),
       log := y.log + [Pushed(evid, q.cur.value, q.bufs[q.cur.value].head, bytes)])
  }

  /** Storing a string without interference is the run of this machine from Begin until
      the source is idle again. */
  lemma StoringIsARun(y: System, bytes: seq<byte>)
    requires Ready(y) && y.storing.Idle? && CurrentInUse(y.pool) && Enabled(y, Begin(bytes))
    ensures CanReach(y, Stored(y, bytes))
  {
    GetAuxKeepsOk(y.pool, |bytes|, y.p.info, y.page);
    var y1 := Apply(y, Begin(bytes));
    OneStep(y, Begin(bytes));
    var y2 := y.(pool := GetAux(y.pool, |bytes|, y.p.info, y.page), storing := Write(bytes));
    if y1.storing.Look? {
      ScanIsARun(y1, 0, bytes);
      ReachTransitive(y, y1, y2);
    }
    OneStep(y2, Advance);
    assert AdvanceStep(y2) == Stored(y, bytes);
    ReachTransitive(y, y2, Stored(y, bytes));
  }
}

/**
  The arbiter ring and the queue that Pipeline keeps in its place. Whatever the two
  sides of the ring of SpscRun are told, stale loads included, is what the queue
  says; and each step of Pipeline is a run of the ring after which the ring holds
  what the queue holds. RingPipeline makes whole runs of the former.
 */
module RingLayers {
  import opened RingIndex
  import opened EventLog
  import opened PipelineInvariant
  import P = Pipeline
  import R = SpscRun

  /** The fetcher holds a slot it was given. */
  predicate Filling(pc: P.FetcherPc) {
    pc.FPublishHole? || pc.FFill?
  }

  /** The ring stands for the queue of the pipeline's state. Its writer may have loaded
      the tail less often than the fetcher, which also asks for the free space. */
  ghost predicate SameQueue(s: P.State, r: R.State<Entry>) {
    && R.Inv(r) && R.WellFormed(r)
    && r.ring.capacity == s.cfg.cap + 1
    && r.pushed == s.fet.out
    && r.counters.consumed == s.con.taken
    && r.counters.seenConsumed <= s.fet.view
  }

  /** And neither thread is in the middle of asking it. */
  ghost predicate Refines(r: R.State<Entry>, s: P.State) {
    && P.Bounds(s) && SameQueue(s, r)
    && r.reader.RIdle?
    && if Filling(s.fet.pc) then r.writer.WReady? && 0 < r.writer.free else r.writer.WIdle?
  }

  ghost predicate CanReach(r: R.State<Entry>, r': R.State<Entry>) {
    exists steps :: R.Reaches(r, steps, r')
  }

  lemma NoStep(r: R.State<Entry>)
    ensures CanReach(r, r)
  {
    assert R.Reaches(r, [], r);
  }

  lemma OneStep(r: R.State<Entry>, step: R.Step<Entry>)
    requires R.WellFormed(r) && R.Enabled(r, step)
    ensures CanReach(r, R.Apply(r, step))
  {
    assert R.Reaches(R.Apply(r, step), [step][1..], R.Apply(r, step));
    assert R.Reaches(r, [step], R.Apply(r, step));
  }

  lemma {:induction false} RingRunsCompose(
    r: R.State<Entry>, a: seq<R.Step<Entry>>, r1: R.State<Entry>, b: seq<R.Step<Entry>>, r2: R.State<Entry>)
    requires R.Reaches(r, a, r1) && R.Reaches(r1, b, r2)
    ensures R.Reaches(r, a + b, r2)
    decreases |a|
  {
    if a == [] {
      assert a + b == b;
    } else {
      RingRunsCompose(R.Apply(r, a[0]), a[1..], r1, b, r2);
      assert (a + b)[0] == a[0] && (a + b)[1..] == a[1..] + b;
    }
  }

  lemma Then(r: R.State<Entry>, r1: R.State<Entry>, r2: R.State<Entry>)
    requires CanReach(r, r1) && CanReach(r1, r2)
    ensures CanReach(r, r2)
  {
    var a :| R.Reaches(r, a, r1);
    var b :| R.Reaches(r1, b, r2);
    RingRunsCompose(r, a, r1, b, r2);
  }

  lemma TwoSteps(r: R.State<Entry>, a: R.Step<Entry>, b: R.Step<Entry>)
    requires R.WellFormed(r) && R.Enabled(r, a)
    requires R.WellFormed(R.Apply(r, a)) && R.Enabled(R.Apply(r, a), b)
    ensures CanReach(r, R.Apply(R.Apply(r, a), b))
  {
    OneStep(r, a);
    OneStep(R.Apply(r, a), b);
    Then(r, R.Apply(r, a), R.Apply(R.Apply(r, a), b));
  }

  // ---------------------------------------------------------------------
  // The fetcher's side
  // ---------------------------------------------------------------------

  /** The free space that handle_dropping_event asks for is that of the queue, whatever
      tail the load returns. */
  lemma FreeSpaceIsExact(r: R.State<Entry>, s: P.State, observed: nat)
    requires P.Bounds(s) && SameQueue(s, r) && s.fet.view <= observed <= s.con.taken
    ensures FreeNum(r.ring.head, observed % r.ring.capacity, r.ring.capacity)
         == P.FreeSpace(s.cfg, s.fet.(view := observed))
  {
    WrittenNumExact(r.counters.written, observed, r.ring.capacity);
  }

  /** And the size that is_done asks for is the queue's. */
  lemma SizeIsExact(r: R.State<Entry>, s: P.State)
    requires P.Bounds(s) && SameQueue(s, r)
    ensures WrittenNum(r.ring.head, r.ring.tail, r.ring.capacity) == |s.fet.out| - s.con.taken
  {
    MixedIndicesExact(r.ring, r.counters);
  }

  /** The ring after write_ptr, given what a load of the tail would return. */
  function Asked(r: R.State<Entry>, observed: nat): R.State<Entry>
    requires R.Inv(r) && R.WellFormed(r) && r.writer.WIdle?
    requires r.counters.seenConsumed <= observed <= r.counters.consumed
  {
    R.StepKeepsInv(r, R.WBegin(WriteOffNowrap));
    var r1 := R.Apply(r, R.WBegin(WriteOffNowrap));
    if r1.writer.WReloading? then R.Apply(r1, R.WReload(observed)) else r1
  }

  /** Whatever write_ptr does on the ring, the queue has a load with the same answer: if
      the cache offers something, so does the queue by any load; if not, the tail is
      loaded, and both answers are the same by the same load. */
  lemma AskAgrees(r: R.State<Entry>, s: P.State, observed: nat)
    requires Refines(r, s) && r.writer.WIdle? && s.fet.view <= observed <= s.con.taken
    ensures var r1 := R.Apply(r, R.WBegin(WriteOffNowrap));
            var room := P.FreeSpace(s.cfg, s.fet.(view := observed));
            if r1.writer.WReady? then 0 < r1.writer.free && 0 < room
            else
              && R.WellFormed(r1) && R.Enabled(r1, R.WReload(observed))
              && R.Apply(r1, R.WReload(observed)).writer.free == room
  {
    var begin := R.WBegin(WriteOffNowrap);
    R.StepKeepsInv(r, begin);
    R.FailureNeedsReload(r, WriteOffNowrap, ReadOff);
    var r1 := R.Apply(r, begin);
    if r1.writer.WReloading? {
      R.ReloadKeepsInv(r1, R.WReload(observed));
    }
  }

  /** So write_ptr hands out a slot exactly when the queue has room by the same load. */
  lemma AskIsARun(r: R.State<Entry>, s: P.State, observed: nat)
    requires Refines(r, s) && r.writer.WIdle? && s.fet.view <= observed <= s.con.taken
    ensures var r' := Asked(r, observed);
            && CanReach(r, r') && R.Inv(r') && R.WellFormed(r')
            && r'.writer.WReady? && (0 < r'.writer.free <==> 0 < P.FreeSpace(s.cfg, s.fet.(view := observed)))
            && r'.pushed == r.pushed && r'.counters.consumed == r.counters.consumed
            && r'.counters.seenConsumed <= observed && r'.ring.capacity == r.ring.capacity && r'.reader == r.reader
  {
    var begin := R.WBegin(WriteOffNowrap);
    var r1 := R.Apply(r, begin);
    AskAgrees(r, s, observed);
    R.StepKeepsInv(r, begin);
    if r1.writer.WReloading? {
      R.StepKeepsInv(r1, R.WReload(observed));
      TwoSteps(r, begin, R.WReload(observed));
    } else {
      OneStep(r, begin);
    }
  }

  /** The ring after the slot handed out was filled and write_finish published it. */
  function Filled(r: R.State<Entry>, e: Entry): R.State<Entry>
    requires R.Inv(r) && R.WellFormed(r) && r.writer.WReady? && 0 < r.writer.free
  {
    R.StepKeepsInv(r, R.WTouch(0, e));
    R.Apply(R.Apply(r, R.WTouch(0, e)), R.WFinish(1))
  }

  /** Filling the slot and write_finish append the entry to the queue. */
  lemma FillAgrees(r: R.State<Entry>, e: Entry)
    requires R.Inv(r) && R.WellFormed(r) && r.writer.WReady? && 0 < r.writer.free
    ensures var r' := Filled(r, e);
            && R.Inv(r') && R.WellFormed(r')
            && r'.writer.WIdle? && r'.pushed == r.pushed + [e]
            && r'.counters == r.counters.(written := r.counters.written + 1)
            && r'.ring.capacity == r.ring.capacity && r'.reader == r.reader
  {
    var touch := R.WTouch(0, e);
    R.StepKeepsInv(r, touch);
    var r1 := R.Apply(r, touch);
    R.StepKeepsInv(r1, R.WFinish(1));
    assert R.Window(r1.slots, r1.writer.head, 1) == [e];
  }

  lemma FillIsARun(r: R.State<Entry>, e: Entry)
    requires R.Inv(r) && R.WellFormed(r) && r.writer.WReady? && 0 < r.writer.free
    ensures CanReach(r, Filled(r, e))
  {
    R.StepKeepsInv(r, R.WTouch(0, e));
    TwoSteps(r, R.WTouch(0, e), R.WFinish(1));
  }

  // ---------------------------------------------------------------------
  // The consumer's side
  // ---------------------------------------------------------------------

  /** The ring after the consumer looked for elements, with a fresh load of the head when
      its cache asks for one. */
  function Looked(r: R.State<Entry>, rop: ReadOp): R.State<Entry>
    requires R.Inv(r) && R.WellFormed(r) && r.reader.RIdle?
  {
    R.StepKeepsInv(r, R.RBegin(rop));
    var r1 := R.Apply(r, R.RBegin(rop));
    if r1.reader.RReloading? then R.Apply(r1, R.RReload(r.counters.written)) else r1
  }

  lemma LookIsARun(r: R.State<Entry>, rop: ReadOp)
    requires R.Inv(r) && R.WellFormed(r) && r.reader.RIdle?
    ensures var r' := Looked(r, rop);
            && CanReach(r, r') && R.Inv(r') && R.WellFormed(r') && r'.reader.RReady?
            && r' == r.(ring := r'.ring, reader := r'.reader, counters := r'.counters)
            && r'.counters == r.counters.(seenWritten := r'.counters.seenWritten)
            && r'.ring.capacity == r.ring.capacity
  {
    var begin := R.RBegin(rop);
    var r1 := R.Apply(r, begin);
    R.StepKeepsInv(r, begin);
    if r1.reader.RReloading? {
      var load := R.RReload(r.counters.written);
      R.StepKeepsInv(r1, load);
      TwoSteps(r, begin, load);
    } else {
      OneStep(r, begin);
    }
  }

  /** How many elements the consumer then believes in. */
  lemma LookedNumber(r: R.State<Entry>, rop: ReadOp)
    requires R.Inv(r) && R.WellFormed(r) && r.reader.RIdle?
    ensures Looked(r, rop).reader.RReady?
    ensures var num := Looked(r, rop).reader.num; var size := r.counters.written - r.counters.consumed;
            && num <= size
            && (rop.ReadOff? ==> (num == 0 <==> size == 0))
            && (rop.Peek? && 0 < rop.want ==> (if num < rop.want then num else rop.want)
                                              == (if size < rop.want then size else rop.want))
            && (rop == Peek(0) ==> num == size)
  {
    LookIsARun(r, rop);
    MixedIndicesExact(r.ring, r.counters);
  }

  /** Whatever the consumer finds on the ring is what the queue holds: it is offered some
      element exactly when there is one, as many of those it wants as there are, and the
      slots it is offered hold the oldest entries. */
  lemma LookAgrees(r: R.State<Entry>, s: P.State, rop: ReadOp)
    requires Refines(r, s)
    ensures var r' := Looked(r, rop); var size := |s.fet.out| - s.con.taken;
            && r'.reader.RReady? && r'.reader.num <= size
            && (rop.ReadOff? ==> (r'.reader.num == 0 <==> size == 0))
            && (rop.Peek? && 0 < rop.want ==>
                  P.DropCount(rop.want, r'.reader.num) == P.DropCount(rop.want, size))
            && (rop == Peek(0) ==> r'.reader.num == size)
            && r'.reader.num <= |r'.slots| && r'.reader.tail < |r'.slots|
            && R.Window(r'.slots, r'.reader.tail, r'.reader.num)
                 == s.fet.out[s.con.taken..s.con.taken + r'.reader.num]
  {
    LookIsARun(r, rop);
    LookedNumber(r, rop);
    var r' := Looked(r, rop);
    forall i | 0 <= i < r'.reader.num
      ensures r'.slots[Advance(r'.reader.tail, i, |r'.slots|)] == s.fet.out[s.con.taken + i]
    {
      R.ReadIsExact(r', i);
    }
  }

  /** Consuming n of the elements offered takes the n oldest entries of the queue. */
  lemma ConsumeAgrees(r: R.State<Entry>, n: nat)
    requires R.Inv(r) && R.WellFormed(r) && r.reader.RReady? && n <= r.reader.num
    ensures var r' := R.Apply(r, R.RConsume(n));
            && R.Inv(r') && R.WellFormed(r') && r'.reader.RIdle?
            && r'.pushed == r.pushed && r'.popped == r.pushed[..r.counters.consumed + n]
            && r'.counters == r.counters.(consumed := r.counters.consumed + n)
            && r'.ring.capacity == r.ring.capacity && r'.writer == r.writer
  {
    R.StepKeepsInv(r, R.RConsume(n));
  }

  lemma TakeIsARun(r: R.State<Entry>, n: nat) returns (r': R.State<Entry>)
    requires R.Inv(r) && R.WellFormed(r) && r.reader.RIdle?
    requires 0 < n <= r.counters.written - r.counters.consumed
    ensures CanReach(r, r') && R.Inv(r') && R.WellFormed(r') && r'.reader.RIdle?
    ensures r'.pushed == r.pushed && r'.counters.consumed == r.counters.consumed + n
    ensures r'.counters.seenConsumed == r.counters.seenConsumed
    ensures r'.ring.capacity == r.ring.capacity && r'.writer == r.writer
  {
    var r1 := Looked(r, Peek(n));
    LookIsARun(r, Peek(n));
    LookedNumber(r, Peek(n));
    ConsumeAgrees(r1, n);
    OneStep(r1, R.RConsume(n));
    r' := R.Apply(r1, R.RConsume(n));
    Then(r, r1, r');
  }

  // ---------------------------------------------------------------------
  // Steps and runs of the pipeline
  // ---------------------------------------------------------------------

  lemma FetchKeepsBounds(s: P.State, observed: nat, check: bool)
    requires Inv(s) && P.CanFetch(s, observed)
    ensures P.Bounds(P.FetchStep(s, observed, check))
  {
    FetchKeepsInv(s, observed, check);
  }

  /** The queue has room when it is asked, so it gives a slot. */
  lemma AskingStepOnQueue(s: P.State, observed: nat, check: bool)
    requires Inv(s) && P.CanFetch(s, observed)
    requires s.fet.pc.FPushHole? || s.fet.pc.FForward?
    ensures 0 < P.FreeSpace(s.cfg, s.fet.(view := observed))
    ensures var s' := P.FetchStep(s, observed, check);
            && s'.fet.out == s.fet.out && s'.fet.view == observed && Filling(s'.fet.pc)
            && s'.con == s.con && s'.cfg == s.cfg
  {
  }

  /** A step of the fetcher that asks for a slot is given one. */
  lemma AskingStep(r: R.State<Entry>, s: P.State, observed: nat, check: bool) returns (r': R.State<Entry>)
    requires Inv(s) && Refines(r, s) && P.CanFetch(s, observed)
    requires s.fet.pc.FPushHole? || s.fet.pc.FForward?
    ensures CanReach(r, r') && Refines(r', P.FetchStep(s, observed, check))
  {
    FetchKeepsBounds(s, observed, check);
    AskingStepOnQueue(s, observed, check);
    AskIsARun(r, s, observed);
    r' := Asked(r, observed);
  }

  /** The entry that a filling step writes. */
  function EntryOf(f: P.Fetcher): Entry
    requires Filling(f.pc)
  {
    if f.pc.FFill? then Ev(f.pc.id) else Hole(f.pc.upto, f.holeNum)
  }

  lemma FillingStepOnQueue(s: P.State, observed: nat, check: bool)
    requires P.Bounds(s) && P.CanFetch(s, observed) && Filling(s.fet.pc)
    ensures var s' := P.FetchStep(s, observed, check);
            && s'.fet.out == s.fet.out + [EntryOf(s.fet)] && s'.fet.view == s.fet.view && !Filling(s'.fet.pc)
            && s'.con == s.con && s'.cfg == s.cfg
  {
  }

  /** A step that writes to the slot publishes the entry. */
  lemma FillingStep(r: R.State<Entry>, s: P.State, observed: nat, check: bool) returns (r': R.State<Entry>)
    requires Inv(s) && Refines(r, s) && P.CanFetch(s, observed) && Filling(s.fet.pc)
    ensures CanReach(r, r') && Refines(r', P.FetchStep(s, observed, check))
  {
    FetchKeepsBounds(s, observed, check);
    FillingStepOnQueue(s, observed, check);
    FillAgrees(r, EntryOf(s.fet));
    FillIsARun(r, EntryOf(s.fet));
    r' := Filled(r, EntryOf(s.fet));
  }

  lemma OtherLocalStep(cfg: P.Config, src: P.Source, f: P.Fetcher, check: bool)
    requires f.view <= |f.out| <= f.view + cfg.cap
    requires !f.pc.FPushHole? && !f.pc.FForward? && !Filling(f.pc)
    requires !P.Notifying(f.pc) && !f.pc.FDone? && !f.pc.FCrash?
    ensures var f' := P.LocalStep(cfg, src, f, check);
            f'.out == f.out && f'.view == f.view && !Filling(f'.pc)
  {
  }

  /** Every other step of the fetcher leaves the ring alone. */
  lemma OtherFetchStep(s: P.State, observed: nat, check: bool)
    requires Inv(s) && P.CanFetch(s, observed)
    requires !s.fet.pc.FPushHole? && !s.fet.pc.FForward? && !Filling(s.fet.pc)
    ensures var s' := P.FetchStep(s, observed, check);
            && s'.fet.out == s.fet.out && s.fet.view <= s'.fet.view && s'.con == s.con && s'.cfg == s.cfg
            && !Filling(s'.fet.pc)
  {
    if !P.Notifying(s.fet.pc) {
      LoadKeeps(s.cfg, s.src, s.fet, observed);
      OtherLocalStep(s.cfg, s.src, P.Load(s.fet, observed), check);
    }
  }

  lemma FetchIsARun(r: R.State<Entry>, s: P.State, observed: nat, check: bool) returns (r': R.State<Entry>)
    requires Inv(s) && Refines(r, s) && P.CanFetch(s, observed)
    ensures CanReach(r, r') && Refines(r', P.FetchStep(s, observed, check))
  {
    if s.fet.pc.FPushHole? || s.fet.pc.FForward? {
      r' := AskingStep(r, s, observed, check);
    } else if Filling(s.fet.pc) {
      r' := FillingStep(r, s, observed, check);
    } else {
      FetchKeepsInv(s, observed, check);
      OtherFetchStep(s, observed, check);
      NoStep(r);
      r' := r;
    }
  }

  /** How many entries a step takes out of the queue. */
  function Takes(s: P.State, step: P.Step): nat {
    if step.Pop? then 1 else if step.Continue? && s.con.pc.CDropping? then s.con.pc.num else 0
  }

  lemma TakesWhatIsThere(s: P.State, step: P.Step)
    requires Inv(s) && P.Enabled(s, step) && !step.Fetch?
    ensures P.Apply(s, step).con.taken == s.con.taken + Takes(s, step) <= |s.fet.out|
    ensures P.Apply(s, step).fet == s.fet && P.Apply(s, step).cfg == s.cfg
  {
  }

  /** Every step of the pipeline, whoever makes it, is a run of the arbiter ring. */
  lemma StepIsARun(r: R.State<Entry>, s: P.State, step: P.Step) returns (r': R.State<Entry>)
    requires Inv(s) && Refines(r, s) && P.Enabled(s, step)
    ensures CanReach(r, r') && Refines(r', P.Apply(s, step))
  {
    StepKeepsInv(s, step);
    if step.Fetch? {
      r' := FetchIsARun(r, s, step.observed, step.check);
      assert P.Apply(s, step) == P.FetchStep(s, step.observed, step.check);
    } else {
      TakesWhatIsThere(s, step);
      if Takes(s, step) == 0 {
        NoStep(r);
        r' := r;
      } else {
        r' := TakeIsARun(r, Takes(s, step));
      }
    }
  }

  lemma {:induction false} RunIsARun(r: R.State<Entry>, s: P.State, steps: seq<P.Step>, s': P.State)
    returns (r': R.State<Entry>)
    requires Inv(s) && Refines(r, s) && P.Reaches(s, steps, s')
    ensures CanReach(r, r') && Refines(r', s')
    decreases |steps|
  {
    if steps == [] {
      NoStep(r);
      r' := r;
    } else {
      var r1 := StepIsARun(r, s, steps[0]);
      StepKeepsInv(s, steps[0]);
      r' := RunIsARun(r1, P.Apply(s, steps[0]), steps[1..], s');
      Then(r, r1, r');
    }
  }

  /** So every run of the pipeline is one of the ring, from the empty ring on, and what
      the consumer was handed in it is the log up to what it took. */
  lemma EveryRunIsARingRun(cfg: P.Config, slots: seq<Entry>, steps: seq<P.Step>, s: P.State)
    returns (r: R.State<Entry>)
    requires 1 <= cfg.thr < cfg.cap && |slots| == cfg.cap + 1
    requires P.Reaches(P.Init(cfg), steps, s)
    ensures CanReach(R.Init(slots), r) && Refines(r, s)
    ensures r.popped == s.fet.out[..s.con.taken]
  {
    InitInv(cfg);
    R.InitInv(slots);
    r := RunIsARun(R.Init(slots), P.Init(cfg), steps, s);
  }
}

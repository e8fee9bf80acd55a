/**
  The pipeline with the arbiter ring itself in place of the queue. Fetcher and
  consumer get every answer about slots and elements from the ring's indices and
  caches, and every entry from its slots, one access at a time. Each of these runs
  is shown to be a run of Pipeline, so what holds there holds here.
 */
module RingPipeline {
  import opened Basics
  import opened RingIndex
  import opened EventLog
  import opened PipelineInvariant
  import opened PipelineTheorems
  import opened RingLayers
  import P = Pipeline
  import Q = PipelineRuns
  import R = SpscRun

  /** What the consumer looks into the ring for. */
  datatype Look = ForDrop(k: nat) | ForOlder(bound: nat) | ForPop

  /** `p` holds the threads' own state, and of the queue what was published to the ring
      and how much was consumed from it. `filled` says whether the fetcher has written to
      the slot it was given. */
  datatype State = State(p: P.State, r: R.State<Entry>, filled: bool, look: Option<Look>)

  datatype Step =
    | Plain(step: P.Step)                 // touches neither slots nor caches
    | Ask | LoadTail(observed: nat)       // write_ptr
    | Touch | Finish                      // the copy into the slot, write_finish
    | Begin(look: Look) | LoadHead(observed: nat)
    | Take                                // consume what was decided on

  predicate Asks(pc: P.FetcherPc) {
    pc.FPushHole? || pc.FForward?
  }

  predicate OfConsumer(step: P.Step) {
    step.Publish? || step.AskDone? || step.Continue?
  }

  /** Steps that only ask the ring for its free space or size, if anything. Both answers
      are exact, see FreeSpaceIsExact and SizeIsExact. */
  predicate IsPlain(s: P.State, step: P.Step) {
    || step.SPush? || step.SDestroy?
    || (step.Fetch? && !Asks(s.fet.pc) && !Filling(s.fet.pc))
    || (OfConsumer(step) && !s.con.pc.CDropping?)
  }

  function Rop(look: Look): ReadOp {
    match look
    case ForDrop(k) => Peek(k)
    case ForOlder(_) => Peek(0)
    case ForPop => ReadOff
  }

  predicate HasSlot(d: State) {
    Filling(d.p.fet.pc) && d.r.writer.WReady? && 0 < d.r.writer.free
  }

  ghost predicate Ready(d: State) {
    P.Bounds(d.p) && R.Inv(d.r) && R.WellFormed(d.r)
  }

  /** A load of the head may be stale, but for drop_older_than, which asks for all there
      is; a load of the tail is not older than the fetcher's last one. */
  ghost predicate Enabled(d: State, step: Step)
    requires Ready(d)
  {
    match step
    case Plain(step) => P.Enabled(d.p, step) && IsPlain(d.p, step) && (OfConsumer(step) ==> d.look.None?)
    case Ask => Asks(d.p.fet.pc) && d.r.writer.WIdle?
    case LoadTail(observed) =>
      Asks(d.p.fet.pc) && d.p.fet.view <= observed && R.Enabled(d.r, R.WReload(observed))
    case Touch => HasSlot(d) && !d.filled
    case Finish => HasSlot(d) && d.filled
    case Begin(_) => d.p.con.pc.CIdle? && d.look.None? && d.r.reader.RIdle?
    case LoadHead(observed) =>
      && d.look.Some? && d.p.con.pc.CIdle? && R.Enabled(d.r, R.RReload(observed))
      && (d.look.value.ForOlder? ==> observed == d.r.counters.written)
    case Take =>
      && d.r.reader.RReady?
      && if d.p.con.pc.CDropping? then d.p.con.pc.num <= d.r.reader.num
         else d.p.con.pc.CIdle? && d.look == Some(ForPop) && 0 < d.r.reader.num
  }

  /** Where the answer of write_ptr leads. */
  function AnswerPc(pc: P.FetcherPc, free: nat): P.FetcherPc
    requires Asks(pc)
  {
    match pc
    case FPushHole(upto, ending) => if 0 < free then P.FPublishHole(upto, ending) else P.FCount(upto, ending)
    case FForward(id) => if 0 < free then P.FFill(id) else P.FCrash
  }

  function Answered(d: State, r: R.State<Entry>, view: nat): State
    requires Asks(d.p.fet.pc) && r.writer.WReady?
  {
    d.(r := r, p := d.p.(fet := d.p.fet.(view := view, pc := AnswerPc(d.p.fet.pc, r.writer.free))))
  }

  /** The fetcher after write_finish. */
  function Finished(f: P.Fetcher, out: seq<Entry>): P.Fetcher
    requires Filling(f.pc)
  {
    match f.pc
    case FPublishHole(upto, ending) => f.(out := out, endHole := ending, pc := P.FCount(upto, ending))
    case FFill(id) => f.(out := out, pc := P.FFwdConsume(id))
  }

  /** The entries the ring offers its reader. */
  function Offered(r: R.State<Entry>): seq<Entry>
    requires R.WellFormed(r) && r.reader.RReady?
  {
    R.Window(r.slots, r.reader.tail, r.reader.num)
  }

  /** How many of the entries offered are to be dropped. */
  function ToDrop(look: Look, offered: seq<Entry>): (n: nat)
    ensures n <= |offered|
  {
    match look
    case ForDrop(k) => P.DropCount(k, |offered|)
    case ForOlder(bound) => OlderCount(offered, bound)
    case ForPop => 0
  }

  /** The consumer after it saw what is offered. */
  function Decided(d: State, r: R.State<Entry>, look: Look): State
    requires R.WellFormed(r) && r.reader.RReady?
  {
    var n := ToDrop(look, Offered(r));
    if look.ForPop? && 0 < r.reader.num then d.(r := r, look := Some(look))
    else if n == 0 then d.(r := R.Apply(r, R.RConsume(0)), look := None)
    else
      var id := if look.ForOlder? then look.bound else Offered(r)[n - 1].id;
      d.(r := r, look := None, p := d.p.(con := d.p.con.(pc := P.CDropping(n, id))))
  }

  ghost function Apply(d: State, step: Step): State
    requires Ready(d) && Enabled(d, step)
  {
    match step
    case Plain(step) => d.(p := P.Apply(d.p, step))
    case Ask =>
      var r := R.Apply(d.r, R.WBegin(WriteOffNowrap));
      if r.writer.WReady? then Answered(d, r, d.p.fet.view) else d.(r := r)
    case LoadTail(observed) => Answered(d, R.Apply(d.r, R.WReload(observed)), observed)
    case Touch => d.(r := R.Apply(d.r, R.WTouch(0, EntryOf(d.p.fet))), filled := true)
    case Finish =>
      var r := R.Apply(d.r, R.WFinish(1));
      d.(r := r, filled := false, p := d.p.(fet := Finished(d.p.fet, r.pushed)))
    case Begin(look) =>
      R.StepKeepsInv(d.r, R.RBegin(Rop(look)));
      var r := R.Apply(d.r, R.RBegin(Rop(look)));
      if r.reader.RReady? then Decided(d, r, look) else d.(r := r, look := Some(look))
    case LoadHead(observed) =>
      R.StepKeepsInv(d.r, R.RReload(observed));
      Decided(d, R.Apply(d.r, R.RReload(observed)), d.look.value)
    case Take =>
      var dropping := d.p.con.pc.CDropping?;
      var r := R.Apply(d.r, R.RConsume(if dropping then d.p.con.pc.num else 1));
      var pc := if dropping then P.CNotifying(d.p.con.pc.id) else P.CIdle;
      d.(r := r, look := None, p := d.p.(con := P.Consumer(pc, r.counters.consumed)))
  }

  ghost predicate Reaches(d: State, steps: seq<Step>, d': State)
    decreases |steps|
  {
    if steps == [] then d == d'
    else Ready(d) && Enabled(d, steps[0]) && Reaches(Apply(d, steps[0]), steps[1..], d')
  }

  // ---------------------------------------------------------------------
  // The invariant
  // ---------------------------------------------------------------------

  predicate WriterOk(f: P.Fetcher, r: R.State<Entry>, filled: bool) {
    if Filling(f.pc) then
      && r.writer.WReady? && 0 < r.writer.free
      && (filled ==> r.writer.head < |r.slots| && r.slots[r.writer.head] == EntryOf(f))
    else !filled && (r.writer.WIdle? || (Asks(f.pc) && r.writer.WReloading?))
  }

  predicate ReaderOk(pc: P.ConsumerPc, r: R.State<Entry>, look: Option<Look>) {
    if pc.CDropping? then look.None? && r.reader.RReady? && pc.num <= r.reader.num
    else if look.None? then r.reader.RIdle?
    else pc.CIdle? && (r.reader.RReloading? || (look.value.ForPop? && r.reader.RReady? && 0 < r.reader.num))
  }

  ghost predicate RingInv(d: State) {
    && Inv(d.p)
    && SameQueue(d.p, d.r)
    && WriterOk(d.p.fet, d.r, d.filled)
    && ReaderOk(d.p.con.pc, d.r, d.look)
  }

  /** The step is one of the queue's, or the queue does not move. */
  ghost predicate QueueMoves(p: P.State, p': P.State) {
    p' == p || exists step :: P.Bounds(p) && P.Enabled(p, step) && P.Apply(p, step) == p'
  }

  ghost predicate Kept(d: State, d': State) {
    RingInv(d') && QueueMoves(d.p, d'.p)
  }

  // ---------------------------------------------------------------------
  // The fetcher
  // ---------------------------------------------------------------------

  lemma MoveKeepsInv(p: P.State, step: P.Step)
    requires Inv(p) && P.Enabled(p, step)
    ensures Inv(P.Apply(p, step)) && QueueMoves(p, P.Apply(p, step))
  {
    StepKeepsInv(p, step);
  }

  /** An answer of write_ptr is the queue's answer by the same load. */
  lemma AnsweredKept(d: State, r: R.State<Entry>, view: nat)
    requires RingInv(d) && Asks(d.p.fet.pc) && P.CanFetch(d.p, view)
    requires R.Inv(r) && R.WellFormed(r) && r.writer.WReady? && r.reader == d.r.reader
    requires r.ring.capacity == d.r.ring.capacity && r.pushed == d.r.pushed
    requires r.counters.consumed == d.r.counters.consumed && r.counters.seenConsumed <= view
    requires 0 < r.writer.free <==> 0 < P.FreeSpace(d.p.cfg, d.p.fet.(view := view))
    ensures Kept(d, Answered(d, r, view))
    ensures Answered(d, r, view).p == P.FetchStep(d.p, view, false)
  {
    MoveKeepsInv(d.p, P.Fetch(view, false));
    assert P.Apply(d.p, P.Fetch(view, false)) == Answered(d, r, view).p;
  }

  lemma AskKept(d: State)
    requires RingInv(d) && Enabled(d, Ask)
    ensures Kept(d, Apply(d, Ask))
    ensures Apply(d, Ask).r.writer.WReady? ==> Apply(d, Ask).p == P.FetchStep(d.p, d.p.fet.view, false)
  {
    var begin := R.WBegin(WriteOffNowrap);
    var r := R.Apply(d.r, begin);
    R.StepKeepsInv(d.r, begin);
    R.FailureNeedsReload(d.r, WriteOffNowrap, ReadOff);
    if r.writer.WReady? {
      AnsweredKept(d, r, d.p.fet.view);
    }
  }

  lemma LoadTailKept(d: State, observed: nat)
    requires RingInv(d) && Enabled(d, LoadTail(observed))
    ensures Kept(d, Apply(d, LoadTail(observed)))
    ensures Apply(d, LoadTail(observed)).p == P.FetchStep(d.p, observed, false)
  {
    var load := R.WReload(observed);
    R.StepKeepsInv(d.r, load);
    AnsweredKept(d, R.Apply(d.r, load), observed);
  }

  lemma TouchKept(d: State)
    requires RingInv(d) && Enabled(d, Touch)
    ensures Kept(d, Apply(d, Touch))
  {
    R.StepKeepsInv(d.r, R.WTouch(0, EntryOf(d.p.fet)));
  }

  lemma FinishOnQueue(p: P.State, out: seq<Entry>)
    requires Inv(p) && Filling(p.fet.pc) && out == p.fet.out + [EntryOf(p.fet)]
    ensures var p' := p.(fet := Finished(p.fet, out));
            Inv(p') && QueueMoves(p, p') && p' == P.FetchStep(p, p.fet.view, false)
  {
    MoveKeepsInv(p, P.Fetch(p.fet.view, false));
    assert P.Apply(p, P.Fetch(p.fet.view, false)) == p.(fet := Finished(p.fet, out));
  }

  /** Publishing the slot appends the entry that was written to it. */
  lemma FinishOnRing(p: P.State, r: R.State<Entry>, look: Option<Look>)
    requires SameQueue(p, r) && WriterOk(p.fet, r, true) && Filling(p.fet.pc) && ReaderOk(p.con.pc, r, look)
    ensures var r' := R.Apply(r, R.WFinish(1)); var p' := p.(fet := Finished(p.fet, r'.pushed));
            && r'.pushed == p.fet.out + [EntryOf(p.fet)]
            && SameQueue(p', r') && WriterOk(p'.fet, r', false) && ReaderOk(p.con.pc, r', look)
  {
    R.StepKeepsInv(r, R.WFinish(1));
    assert R.Window(r.slots, r.writer.head, 1) == [EntryOf(p.fet)];
  }

  lemma FinishKept(d: State)
    requires RingInv(d) && Enabled(d, Finish)
    ensures Kept(d, Apply(d, Finish))
    ensures Apply(d, Finish).p == P.FetchStep(d.p, d.p.fet.view, false)
  {
    FinishOnRing(d.p, d.r, d.look);
    FinishOnQueue(d.p, R.Apply(d.r, R.WFinish(1)).pushed);
  }

  // ---------------------------------------------------------------------
  // The consumer
  // ---------------------------------------------------------------------

  /** The slots offered hold the oldest entries of the queue. */
  lemma OfferedIsOldest(p: P.State, r: R.State<Entry>)
    requires SameQueue(p, r) && r.reader.RReady?
    ensures p.con.taken + r.reader.num <= |p.fet.out|
    ensures Offered(r) == p.fet.out[p.con.taken..p.con.taken + r.reader.num]
  {
    forall i | 0 <= i < r.reader.num
      ensures r.slots[Advance(r.reader.tail, i, |r.slots|)] == p.fet.out[p.con.taken + i]
    {
      R.ReadIsExact(r, i);
    }
  }

  lemma BeginDropMoves(p: P.State, step: P.Step, n: nat, id: nat)
    requires Inv(p) && P.Enabled(p, step) && 0 < n && P.Apply(p, step) == P.BeginDrop(p, n, id)
    ensures Inv(p.(con := p.con.(pc := P.CDropping(n, id))))
    ensures QueueMoves(p, p.(con := p.con.(pc := P.CDropping(n, id))))
  {
    MoveKeepsInv(p, step);
  }

  lemma OfferedAt(p: P.State, r: R.State<Entry>, i: nat)
    requires SameQueue(p, r) && r.reader.RReady? && i < r.reader.num
    ensures p.con.taken + i < |p.fet.out| && Offered(r)[i] == p.fet.out[p.con.taken + i]
  {
    R.ReadIsExact(r, i);
  }

  /** A decision to drop is one the consumer could have made on the queue. */
  lemma DropDecision(p: P.State, n: nat, id: nat)
    requires Inv(p) && p.con.pc.CIdle? && 0 < n && p.con.taken + n <= |p.fet.out|
    requires id == p.fet.out[p.con.taken + n - 1].id
    ensures var p' := p.(con := p.con.(pc := P.CDropping(n, id)));
            Inv(p') && QueueMoves(p, p')
  {
    DropBegins(p, P.Drop(n));
    BeginDropMoves(p, P.Drop(n), n, id);
  }

  lemma OlderDecision(p: P.State, r: R.State<Entry>, bound: nat)
    requires Inv(p) && p.con.pc.CIdle? && SameQueue(p, r) && r.reader.RReady?
    requires p.con.taken + r.reader.num == |p.fet.out|
    requires 0 < OlderCount(Offered(r), bound)
    ensures var p' := p.(con := p.con.(pc := P.CDropping(OlderCount(Offered(r), bound), bound)));
            Inv(p') && QueueMoves(p, p')
  {
    OfferedIsOldest(p, r);
    assert Offered(r) == P.Buffered(p);
    DropOlderBegins(p, P.DropOlder(bound));
    BeginDropMoves(p, P.DropOlder(bound), OlderCount(Offered(r), bound), bound);
  }

  /** A decision concerns the consumer's side of the ring only. */
  ghost predicate ForReader(d: State, r: R.State<Entry>, look: Look) {
    && d.p.con.pc.CIdle?
    && SameQueue(d.p, r) && r.reader.RReady? && r.writer == d.r.writer && r.slots == d.r.slots
    && (look.ForOlder? ==> d.p.con.taken + r.reader.num == |d.p.fet.out|)
  }

  /** The ring and its two sides fit a consumer that decided to drop n entries. */
  lemma SidesAfterDecision(d: State, r: R.State<Entry>, look: Look, n: nat, id: nat)
    requires WriterOk(d.p.fet, d.r, d.filled) && ForReader(d, r, look) && n <= r.reader.num
    ensures var p' := d.p.(con := d.p.con.(pc := P.CDropping(n, id)));
            SameQueue(p', r) && WriterOk(p'.fet, r, d.filled) && ReaderOk(p'.con.pc, r, None)
  {
  }

  lemma DropDecided(d: State, r: R.State<Entry>, look: Look)
    requires RingInv(d) && ForReader(d, r, look)
    requires look.ForDrop? && 0 < ToDrop(look, Offered(r))
    ensures Kept(d, Decided(d, r, look))
  {
    var n := ToDrop(look, Offered(r));
    var id := Offered(r)[n - 1].id;
    OfferedAt(d.p, r, n - 1);
    DropDecision(d.p, n, id);
    SidesAfterDecision(d, r, look, n, id);
  }

  lemma OlderDecided(d: State, r: R.State<Entry>, look: Look)
    requires RingInv(d) && ForReader(d, r, look)
    requires look.ForOlder? && 0 < ToDrop(look, Offered(r))
    ensures Kept(d, Decided(d, r, look))
  {
    OlderDecision(d.p, r, look.bound);
    SidesAfterDecision(d, r, look, ToDrop(look, Offered(r)), look.bound);
  }

  lemma NothingDecided(d: State, r: R.State<Entry>)
    requires RingInv(d) && d.p.con.pc.CIdle?
    requires SameQueue(d.p, r) && r.reader.RReady? && r.writer == d.r.writer && r.slots == d.r.slots
    ensures Kept(d, d.(r := R.Apply(r, R.RConsume(0)), look := None))
  {
    R.StepKeepsInv(r, R.RConsume(0));
  }

  lemma DecidedKept(d: State, r: R.State<Entry>, look: Look)
    requires RingInv(d) && ForReader(d, r, look)
    ensures Kept(d, Decided(d, r, look))
  {
    if look.ForPop? && 0 < r.reader.num {
      assert Decided(d, r, look) == d.(r := r, look := Some(look));
    } else if ToDrop(look, Offered(r)) == 0 {
      NothingDecided(d, r);
      assert Decided(d, r, look) == d.(r := R.Apply(r, R.RConsume(0)), look := None);
    } else if look.ForOlder? {
      OlderDecided(d, r, look);
    } else {
      DropDecided(d, r, look);
    }
  }

  lemma BeginKept(d: State, look: Look)
    requires RingInv(d) && Enabled(d, Begin(look))
    ensures Kept(d, Apply(d, Begin(look)))
  {
    var begin := R.RBegin(Rop(look));
    R.StepKeepsInv(d.r, begin);
    var r := R.Apply(d.r, begin);
    if r.reader.RReady? {
      DecidedKept(d, r, look);
    }
  }

  lemma LoadHeadKept(d: State, observed: nat)
    requires RingInv(d) && Enabled(d, LoadHead(observed))
    ensures Kept(d, Apply(d, LoadHead(observed)))
  {
    var load := R.RReload(observed);
    R.StepKeepsInv(d.r, load);
    DecidedKept(d, R.Apply(d.r, load), d.look.value);
  }

  lemma TakeKept(d: State)
    requires RingInv(d) && Enabled(d, Take)
    ensures Kept(d, Apply(d, Take))
    ensures Apply(d, Take).p == P.Apply(d.p, if d.p.con.pc.CDropping? then P.Continue else P.Pop)
  {
    var n := if d.p.con.pc.CDropping? then d.p.con.pc.num else 1;
    R.StepKeepsInv(d.r, R.RConsume(n));
    OfferedIsOldest(d.p, d.r);
    var step := if d.p.con.pc.CDropping? then P.Continue else P.Pop;
    MoveKeepsInv(d.p, step);
    assert P.Apply(d.p, step) == Apply(d, Take).p;
  }

  // ---------------------------------------------------------------------
  // Steps and runs
  // ---------------------------------------------------------------------

  /** A plain step leaves the queue alone. */
  lemma PlainSparesQueue(p: P.State, step: P.Step)
    requires Inv(p) && P.Enabled(p, step) && IsPlain(p, step)
    ensures var p' := P.Apply(p, step);
            && p'.cfg == p.cfg && p'.fet.out == p.fet.out && p'.con.taken == p.con.taken
            && p.fet.view <= p'.fet.view
            && (if step.Fetch? then !Filling(p'.fet.pc) && p'.con == p.con else p'.fet == p.fet)
            && (p'.con == p.con || (OfConsumer(step) && !p'.con.pc.CDropping?))
  {
    if step.Fetch? {
      OtherFetchStep(p, step.observed, step.check);
      assert P.Apply(p, step) == P.FetchStep(p, step.observed, step.check);
    } else {
      TakesWhatIsThere(p, step);
    }
  }

  lemma PlainSparesRing(p: P.State, p': P.State, r: R.State<Entry>, filled: bool, look: Option<Look>, step: P.Step)
    requires SameQueue(p, r) && WriterOk(p.fet, r, filled) && ReaderOk(p.con.pc, r, look)
    requires IsPlain(p, step) && (OfConsumer(step) ==> look.None?)
    requires p'.cfg == p.cfg && p'.fet.out == p.fet.out && p'.con.taken == p.con.taken && p.fet.view <= p'.fet.view
    requires if step.Fetch? then !Filling(p'.fet.pc) && p'.con == p.con else p'.fet == p.fet
    requires p'.con == p.con || (OfConsumer(step) && !p'.con.pc.CDropping?)
    ensures SameQueue(p', r) && WriterOk(p'.fet, r, filled) && ReaderOk(p'.con.pc, r, look)
  {
  }

  lemma PlainKept(d: State, step: P.Step)
    requires RingInv(d) && Enabled(d, Plain(step))
    ensures Kept(d, Apply(d, Plain(step)))
  {
    MoveKeepsInv(d.p, step);
    PlainSparesQueue(d.p, step);
    PlainSparesRing(d.p, P.Apply(d.p, step), d.r, d.filled, d.look, step);
  }

  /** Every step on the ring is a step on the queue, or none. */
  lemma RingStepIsQueueStep(d: State, step: Step)
    requires RingInv(d) && Enabled(d, step)
    ensures Kept(d, Apply(d, step))
  {
    match step
    case Plain(s) => PlainKept(d, s);
    case Ask => AskKept(d);
    case LoadTail(observed) => LoadTailKept(d, observed);
    case Touch => TouchKept(d);
    case Finish => FinishKept(d);
    case Begin(look) => BeginKept(d, look);
    case LoadHead(observed) => LoadHeadKept(d, observed);
    case Take => TakeKept(d);
  }

  lemma FreshDrop(d: State, r: R.State<Entry>, k: nat)
    requires P.Bounds(d.p) && ForReader(d, r, ForDrop(k)) && r.reader.num == |d.p.fet.out| - d.p.con.taken
    ensures Decided(d, r, ForDrop(k)).p == P.Apply(d.p, P.Drop(k))
  {
    var n := ToDrop(ForDrop(k), Offered(r));
    DropBegins(d.p, P.Drop(k));
    if 0 < n {
      OfferedAt(d.p, r, n - 1);
    }
  }

  lemma FreshOlder(d: State, r: R.State<Entry>, bound: nat)
    requires P.Bounds(d.p) && ForReader(d, r, ForOlder(bound)) && r.reader.num == |d.p.fet.out| - d.p.con.taken
    ensures Decided(d, r, ForOlder(bound)).p == P.Apply(d.p, P.DropOlder(bound))
  {
    OfferedIsOldest(d.p, r);
    assert Offered(r) == P.Buffered(d.p);
    DropOlderBegins(d.p, P.DropOlder(bound));
  }

  /** After a look that missed nothing the consumer decides what it would on the queue. */
  lemma FreshDecision(d: State, r: R.State<Entry>, look: Look)
    requires RingInv(d) && ForReader(d, r, look) && !look.ForPop?
    requires r.reader.num == |d.p.fet.out| - d.p.con.taken
    ensures Decided(d, r, look).p == P.Apply(d.p, if look.ForDrop? then P.Drop(look.k) else P.DropOlder(look.bound))
  {
    match look
    case ForDrop(k) => FreshDrop(d, r, k);
    case ForOlder(bound) => FreshOlder(d, r, bound);
  }

  lemma MovesReach(p: P.State, p': P.State)
    requires QueueMoves(p, p')
    ensures Q.CanReach(p, p')
  {
    if p' == p {
      assert P.Reaches(p, [], p);
    } else {
      var step :| P.Bounds(p) && P.Enabled(p, step) && P.Apply(p, step) == p';
      Q.OneStep(p, step);
    }
  }

  lemma {:induction false} RingRunIsQueueRun(d: State, steps: seq<Step>, d': State)
    requires RingInv(d) && Reaches(d, steps, d')
    ensures RingInv(d') && Q.CanReach(d.p, d'.p)
    decreases |steps|
  {
    if steps == [] {
      assert P.Reaches(d.p, [], d.p);
    } else {
      var d1 := Apply(d, steps[0]);
      RingStepIsQueueStep(d, steps[0]);
      MovesReach(d.p, d1.p);
      RingRunIsQueueRun(d1, steps[1..], d');
      Q.Then(d.p, d1.p, d'.p);
    }
  }

  function Init(cfg: P.Config, slots: seq<Entry>): State {
    State(P.Init(cfg), R.Init(slots), false, None)
  }

  /** Whatever source, fetcher and consumer do on the ring itself, from the empty ring on:
      their state is one that Pipeline reaches, and the consumer got the entries of the
      log in order, each as it was written. */
  lemma RunsOnTheRing(cfg: P.Config, slots: seq<Entry>, steps: seq<Step>, d: State)
    requires 1 <= cfg.thr < cfg.cap && |slots| == cfg.cap + 1
    requires Reaches(Init(cfg, slots), steps, d)
    ensures Reachable(d.p) && P.Bounds(d.p) && d.r.popped == d.p.fet.out[..d.p.con.taken]
  {
    InitInv(cfg);
    R.InitInv(slots);
    RingRunIsQueueRun(Init(cfg, slots), steps, d);
    var ps :| P.Reaches(P.Init(cfg), ps, d.p);
  }
}

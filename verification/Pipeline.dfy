/**
  One event stream from its source to its consumer, as a state machine.

  The source pushes events 1, 2, 3, ... to the shared-memory ring and at some
  point destroys its buffer. The fetcher thread (src/core/shamon.c:53-68,
  src/core/arbiter.c:393-567) reads them, drops them while the arbiter buffer
  has too little space, and publishes which it dropped. The consumer takes
  entries out of the arbiter buffer, publishes the last processed identifier,
  either as part of a drop or by hand, and may ask whether the buffer is done.

  Each step is one access to state that another thread can see. The two rings
  appear as queues; RingPipeline has the arbiter ring itself in its place. The
  fetcher's loads of that ring's tail may be stale: they return any count of taken
  entries between the last one it saw (`view`) and the current one.

  The state is grouped by the thread that writes it.
 */
module Pipeline {
  import opened EventLog
  import opened SharedInfo

  /** Where the fetcher thread is. `id` is the event it has in hand. */
  datatype FetcherPc =
    | FRead                                       // get_event: look into the ring
    | FEmpty                                      // found nothing: spin, or check readiness
    | FSawDestroyed                               // destroyed flag was set; load the ring's size
    | FHandle(id: nat)                            // handle_dropping_event: load the free space
    | FStart(id: nat) | FStarted(id: nat)         // start_dropping
    | FContinue(id: nat) | FContNotify(id: nat)   // continue_dropping
    | FDropConsume(id: nat)                       // consume the dropped event
    | FPushHole(upto: nat, ending: bool)          // push_dropped_event: ask for a slot
    | FPublishHole(upto: nat, ending: bool)       //   write the hole
    | FCount(upto: nat, ending: bool)             //   update the totals
    | FNotify(upto: nat, ending: bool)            //   publish the dropped range
    | FReset(upto: nat, ending: bool)             // dropped_num = 0
    | FForward(id: nat)                           // ask for a slot for the event
    | FFill(id: nat) | FFwdConsume(id: nat)       // write the event; consume it
    | FEnd                                        // handle_stream_end
    | FDone                                       // fetch returned NULL
    | FCrash                                      // the slot pointer was NULL

  datatype ConsumerPc =
    | CIdle
    | CDropping(num: nat, id: nat)   // found `num` entries to drop; `id` to be published
    | CNotifying(id: nat)            // dropped them
    | CDone1 | CDone2 | CDone3 | CDone4 | CDone5   // is_done, after each true part
    | CDone                          // is_done returned true

  datatype Config = Config(cap: nat, thr: nat, shmCap: nat)

  datatype Source = Source(pushed: nat, destroyed: bool)

  /** What the fetcher thread writes: the tail of the shared-memory ring, the log of
      entries written to the arbiter ring, and the fields of the arbiter buffer.
      lastEvId is the fetch call's local variable, holeNum the counter of the hole
      event, endHole says whether handle_stream_end wrote a hole. */
  datatype Fetcher = Fetcher(
    pc: FetcherPc, lastEvId: nat,
    consumed: nat, out: seq<Entry>, view: nat,
    droppedNum: nat, dropBegin: nat, holeNum: nat, totalNum: nat, totalTimes: nat,
    endHole: bool)

  datatype Consumer = Consumer(pc: ConsumerPc, taken: nat)

  datatype State = State(cfg: Config, src: Source, fet: Fetcher, con: Consumer, info: Info)

  datatype Step =
    | SPush | SDestroy
    | Fetch(observed: nat, check: bool)   // one step of the fetcher
    | Drop(k: nat) | DropOlder(bound: nat) | Pop | Publish(id: nat) | AskDone
    | Continue                            // next step of the consumer's operation

  function Init(cfg: Config): State {
    State(cfg, Source(0, false), Fetcher(FRead, 1, 0, [], 0, 0, 0, 0, 0, 0, false), Consumer(CIdle, 0),
          INITIAL_INFO)
  }

  predicate Bounds(s: State) {
    && 1 <= s.cfg.thr < s.cfg.cap
    && s.fet.consumed <= s.src.pushed <= MAX_EVENT_ID
    && s.fet.view <= s.con.taken <= |s.fet.out| <= s.fet.view + s.cfg.cap
    && WellFormed(s.info)
  }

  /** The free space by the tail the fetcher last loaded. */
  function FreeSpace(cfg: Config, f: Fetcher): nat
    requires f.view <= |f.out| <= f.view + cfg.cap
  {
    cfg.cap - (|f.out| - f.view)
  }

  function Buffered(s: State): seq<Entry>
    requires Bounds(s)
  {
    s.fet.out[s.con.taken..]
  }

  predicate CanRead(src: Source, f: Fetcher) {
    f.consumed < src.pushed
  }

  // ---------------------------------------------------------------------
  // The fetcher
  // ---------------------------------------------------------------------

  predicate Getting(pc: FetcherPc) {
    pc.FRead? || pc.FEmpty? || pc.FSawDestroyed?
  }

  /** get_event (arbiter.c:393-436) and generic_is_ready (stream-generic.c:14-19). */
  function GetEventStep(src: Source, f: Fetcher, check: bool): Fetcher
    requires Getting(f.pc)
  {
    match f.pc
    case FRead =>
      if CanRead(src, f) then f.(lastEvId := f.consumed + 1, pc := FHandle(f.consumed + 1))
      else f.(pc := FEmpty)
    case FEmpty =>
      if check && src.destroyed then f.(pc := FSawDestroyed) else f.(pc := FRead)
    case FSawDestroyed =>
      if CanRead(src, f) then f.(pc := FRead) else f.(pc := FEnd)
  }

  predicate Handling(pc: FetcherPc) {
    pc.FHandle? || pc.FStart? || pc.FStarted? || pc.FContinue? || pc.FDropConsume?
  }

  /** handle_dropping_event, start_dropping, continue_dropping (arbiter.c:505-567). */
  function HandleStep(cfg: Config, f: Fetcher): Fetcher
    requires Handling(f.pc) && f.view <= |f.out| <= f.view + cfg.cap
  {
    match f.pc
    case FHandle(id) =>
      if f.droppedNum > 0 then
        if FreeSpace(cfg, f) > cfg.thr then f.(pc := FPushHole(Before(id), false))
        else f.(pc := FContinue(id))
      else if FreeSpace(cfg, f) == 0 then f.(pc := FStart(id))
      else f.(pc := FForward(id))
    case FStart(id) =>
      f.(dropBegin := id, pc := FStarted(id))
    case FStarted(id) =>
      f.(droppedNum := f.droppedNum + 1, holeNum := 1, pc := FDropConsume(id))
    case FContinue(id) =>
      f.(droppedNum := f.droppedNum + 1, holeNum := f.holeNum + 1,
         pc := if (f.droppedNum + 1) % 10000 == 0 then FContNotify(id) else FDropConsume(id))
    case FDropConsume(id) =>
      f.(consumed := f.consumed + 1, pc := FRead)
  }

  predicate Sending(pc: FetcherPc) {
    pc.FPushHole? || pc.FPublishHole? || pc.FCount? || pc.FReset?
  }

  /** push_dropped_event and send_dropped_event (arbiter.c:438-503). The result of
      the push is not looked at, as in the code. */
  function SendStep(cfg: Config, f: Fetcher): Fetcher
    requires Sending(f.pc) && f.view <= |f.out| <= f.view + cfg.cap
  {
    match f.pc
    case FPushHole(upto, ending) =>
      if FreeSpace(cfg, f) > 0 then f.(pc := FPublishHole(upto, ending)) else f.(pc := FCount(upto, ending))
    case FPublishHole(upto, ending) =>
      f.(out := f.out + [Hole(upto, f.holeNum)], endHole := ending, pc := FCount(upto, ending))
    case FCount(upto, ending) =>
      f.(totalNum := f.totalNum + f.droppedNum, totalTimes := f.totalTimes + 1, pc := FNotify(upto, ending))
    case FReset(upto, ending) =>
      f.(droppedNum := 0, pc := if ending then FEnd else FForward(upto + 1))
  }

  predicate Notifying(pc: FetcherPc) {
    pc.FContNotify? || pc.FNotify?
  }

  /** The last identifier of the range a notification publishes. */
  function NotifiedEnd(pc: FetcherPc): nat
    requires Notifying(pc)
  {
    match pc
    case FContNotify(id) => Before(id)
    case FNotify(upto, _) => upto
  }

  function AfterNotify(f: Fetcher): Fetcher
    requires Notifying(f.pc)
  {
    match f.pc
    case FContNotify(id) => f.(pc := FDropConsume(id))
    case FNotify(upto, ending) => f.(pc := FReset(upto, ending))
  }

  predicate Forwarding(pc: FetcherPc) {
    pc.FForward? || pc.FFill? || pc.FFwdConsume?
  }

  /** The forwarding part of the buffer manager (shamon.c:63-67). */
  function ForwardStep(cfg: Config, f: Fetcher): Fetcher
    requires Forwarding(f.pc) && f.view <= |f.out| <= f.view + cfg.cap
  {
    match f.pc
    case FForward(id) =>
      if FreeSpace(cfg, f) > 0 then f.(pc := FFill(id)) else f.(pc := FCrash)
    case FFill(id) =>
      f.(out := f.out + [Ev(id)], pc := FFwdConsume(id))
    case FFwdConsume(id) =>
      f.(consumed := f.consumed + 1, lastEvId := 1, pc := FRead)
  }

  /** handle_stream_end (arbiter.c:460-488). */
  function EndStep(cfg: Config, f: Fetcher): Fetcher
    requires f.pc.FEnd? && f.view <= |f.out| <= f.view + cfg.cap
  {
    if f.droppedNum == 0 then f.(pc := FDone)
    else if FreeSpace(cfg, f) > cfg.thr then f.(pc := FPushHole(Before(f.lastEvId), true))
    else f
  }

  /** Whether the fetcher's next step loads the arbiter ring's tail. */
  predicate LoadsTail(pc: FetcherPc) {
    pc.FHandle? || pc.FPushHole? || pc.FForward? || pc.FEnd?
  }

  function Load(f: Fetcher, observed: nat): Fetcher {
    if LoadsTail(f.pc) then f.(view := observed) else f
  }

  predicate CanFetch(s: State, observed: nat) {
    s.fet.view <= observed <= s.con.taken && !s.fet.pc.FDone? && !s.fet.pc.FCrash?
  }

  /** A step of the fetcher that publishes no range only changes its own fields. */
  function LocalStep(cfg: Config, src: Source, f: Fetcher, check: bool): Fetcher
    requires f.view <= |f.out| <= f.view + cfg.cap
    requires !Notifying(f.pc) && !f.pc.FDone? && !f.pc.FCrash?
  {
    if Getting(f.pc) then GetEventStep(src, f, check)
    else if Handling(f.pc) then HandleStep(cfg, f)
    else if Sending(f.pc) then SendStep(cfg, f)
    else if Forwarding(f.pc) then ForwardStep(cfg, f)
    else EndStep(cfg, f)
  }

  function NotifyStep(s: State): State
    requires Bounds(s) && Notifying(s.fet.pc)
  {
    s.(fet := AfterNotify(s.fet), info := NotifyDropped(s.info, s.fet.dropBegin, NotifiedEnd(s.fet.pc)))
  }

  function FetchStep(s: State, observed: nat, check: bool): State
    requires Bounds(s) && CanFetch(s, observed)
  {
    if Notifying(s.fet.pc) then NotifyStep(s)
    else s.(fet := LocalStep(s.cfg, s.src, Load(s.fet, observed), check))
  }

  // ---------------------------------------------------------------------
  // The consumer
  // ---------------------------------------------------------------------

  /** vms_arbiter_buffer_drop works on k - 1 in 64 bits, so k == 0 asks for everything. */
  function DropCount(k: nat, available: nat): nat {
    if k == 0 || available < k then available else k
  }

  /** drop and drop_older_than: `num` entries are to be dropped and `id` published. */
  function BeginDrop(s: State, num: nat, id: nat): State {
    if num == 0 then s else s.(con := s.con.(pc := CDropping(num, id)))
  }

  function DropStep(s: State, k: nat): State
    requires Bounds(s)
  {
    var num := DropCount(k, |s.fet.out| - s.con.taken);
    if num == 0 then s else BeginDrop(s, num, s.fet.out[s.con.taken + num - 1].id)
  }

  function DropOlderStep(s: State, bound: nat): State
    requires Bounds(s)
  {
    BeginDrop(s, OlderCount(Buffered(s), bound), bound)
  }

  /** is_done (arbiter.c:661-676), one part per step; `ready` when the answer is false. */
  function DoneStep(s: State): Consumer
    requires Bounds(s)
  {
    var empty := |s.fet.out| == s.con.taken;
    match s.con.pc
    case CDone1 => s.con.(pc := if empty then CDone2 else CIdle)
    case CDone2 => s.con.(pc := if s.src.destroyed then CDone3 else CIdle)
    case CDone3 => s.con.(pc := if CanRead(s.src, s.fet) then CIdle else CDone4)
    case CDone4 => s.con.(pc := if s.fet.droppedNum == 0 then CDone5 else CIdle)
    case CDone5 => s.con.(pc := if empty then CDone else CIdle)
    case _ => s.con.(pc := CIdle)
  }

  /** The rest of the drop calls (arbiter.c:87-89), and is_done. */
  function ContinueStep(s: State): State
    requires Bounds(s)
  {
    match s.con.pc
    case CDropping(num, id) => s.(con := Consumer(CNotifying(id), s.con.taken + num))
    case CNotifying(id) => s.(info := s.info.(lastProcessed := id), con := s.con.(pc := CIdle))
    case _ => s.(con := DoneStep(s))
  }

  // ---------------------------------------------------------------------
  // Steps and runs
  // ---------------------------------------------------------------------

  /** An identifier is only published if the one before it is not larger: the code
      asserts it (buffer.c:372-373). See PublishingIsMonotone. */
  predicate MayPublish(s: State, id: nat) {
    s.info.lastProcessed <= id
  }

  predicate Enabled(s: State, step: Step)
    requires Bounds(s)
  {
    match step
    case SPush => !s.src.destroyed && s.src.pushed - s.fet.consumed < s.cfg.shmCap && s.src.pushed < MAX_EVENT_ID
    case SDestroy => !s.src.destroyed
    case Fetch(observed, _) => CanFetch(s, observed)
    case Drop(_) => s.con.pc.CIdle?
    case DropOlder(_) => s.con.pc.CIdle?
    case Pop => s.con.pc.CIdle? && s.con.taken < |s.fet.out|
    case Publish(id) => s.con.pc.CIdle? && MayPublish(s, id)
    case AskDone => s.con.pc.CIdle?
    case Continue => !s.con.pc.CIdle? && (s.con.pc.CNotifying? ==> MayPublish(s, s.con.pc.id))
  }

  function Apply(s: State, step: Step): State
    requires Bounds(s) && Enabled(s, step)
  {
    match step
    case SPush => s.(src := s.src.(pushed := s.src.pushed + 1))
    case SDestroy => s.(src := s.src.(destroyed := true))
    case Fetch(observed, check) => FetchStep(s, observed, check)
    case Drop(k) => DropStep(s, k)
    case DropOlder(bound) => DropOlderStep(s, bound)
    case Pop => s.(con := s.con.(taken := s.con.taken + 1))
    case Publish(id) => s.(info := s.info.(lastProcessed := id))
    case AskDone => s.(con := s.con.(pc := if s.fet.droppedNum == 0 then CDone1 else CIdle))
    case Continue => ContinueStep(s)
  }

  ghost predicate Reaches(s: State, steps: seq<Step>, s': State)
    decreases |steps|
  {
    if steps == [] then s == s'
    else Bounds(s) && Enabled(s, steps[0]) && Reaches(Apply(s, steps[0]), steps[1..], s')
  }

  /** What keeps a consumer from publishing an event it may still come to: the bound of
      drop_older_than names no event newer than the newest one buffered, and what is
      published by hand was taken before. */
  predicate Careful(s: State, step: Step)
    requires Bounds(s)
  {
    && (step.DropOlder? ==> s.con.taken == |s.fet.out| || step.bound <= Last(s.fet.out).id)
    && (step.Publish? ==> 0 < s.con.taken && step.id <= s.fet.out[s.con.taken - 1].id)
  }

  ghost predicate CarefullyReaches(s: State, steps: seq<Step>, s': State)
    decreases |steps|
  {
    if steps == [] then s == s'
    else
      && Bounds(s) && Enabled(s, steps[0]) && Careful(s, steps[0])
      && CarefullyReaches(Apply(s, steps[0]), steps[1..], s')
  }
}

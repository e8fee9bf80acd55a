/**
  The ring of src/core/spsc_ringbuf.c used by one writer and one reader at the
  same time. Every load or store of a shared index, and every touch of a slot,
  is one step, and the steps of the two sides interleave in any order.

  A load of the other side's index is allowed to be stale: it may return any
  value that index had since the last value this side saw. Slots are modelled
  as soon as they are written; a slot may be written many times before it is
  published, so a copy that is interrupted half way is covered.
 */
module SpscRun {
  import opened RingIndex

  datatype WriterPc =
    | WIdle
    | WReloading(head: nat)            // decided to load `tail`, not done yet
    | WReady(head: nat, free: nat)     // may fill `free` slots from `head` on

  datatype ReaderPc =
    | RIdle
    | RReloading(tail: nat)            // decided to load `head`, not done yet
    | RReady(tail: nat, num: nat)      // may read `num` slots from `tail` on

  datatype State<T> = State(
    ring: Ring,
    slots: seq<T>,
    writer: WriterPc,
    reader: ReaderPc,
    counters: Counters,   // what the indices stand for
    pushed: seq<T>,       // everything published so far
    popped: seq<T>        // everything consumed so far, as found in the slots
  )

  /** `observed` is the count whose index the relaxed or acquire load returned. */
  datatype Step<T> =
    | WBegin(wop: WriteOp)
    | WReload(observed: nat)
    | WTouch(offset: nat, value: T)
    | WFinish(n: nat)
    | RBegin(rop: ReadOp)
    | RReload(observed: nat)
    | RConsume(n: nat)

  function Init<T>(slots: seq<T>): State<T> {
    State(Ring(|slots|, 0, 0, 0, 0), slots, WIdle, RIdle, Counters(0, 0, 0, 0), [], [])
  }

  predicate WellFormed<T>(s: State<T>) {
    && InRange(s.ring)
    && |s.slots| == s.ring.capacity
    && (s.writer.WReady? ==> s.writer.head < s.ring.capacity && s.writer.free < s.ring.capacity)
    && (s.reader.RReady? ==> s.reader.tail < s.ring.capacity && s.reader.num < s.ring.capacity)
  }

  predicate Enabled<T>(s: State<T>, step: Step<T>)
    requires WellFormed(s)
  {
    match step
    case WBegin(_) => s.writer.WIdle?
    case WReload(observed) => s.writer.WReloading? && s.counters.seenConsumed <= observed <= s.counters.consumed
    case WTouch(offset, _) => s.writer.WReady? && offset < s.writer.free
    case WFinish(n) => s.writer.WReady? && n <= s.writer.free
    case RBegin(_) => s.reader.RIdle?
    case RReload(observed) => s.reader.RReloading? && s.counters.seenWritten <= observed <= s.counters.written
    case RConsume(n) => s.reader.RReady? && n <= s.reader.num
  }

  /** The elements of n slots from index `from` on, wrapping around. */
  function Window<T>(slots: seq<T>, from: nat, n: nat): (w: seq<T>)
    requires from < |slots| && n <= |slots|
    ensures |w| == n
    ensures forall i :: 0 <= i < n ==> w[i] == slots[Advance(from, i, |slots|)]
  {
    seq(n, i requires 0 <= i < n => slots[Advance(from, i, |slots|)])
  }

  function Apply<T>(s: State<T>, step: Step<T>): State<T>
    requires WellFormed(s) && Enabled(s, step)
  {
    var c := s.ring.capacity;
    match step
    case WBegin(op) =>
      if NeedsTail(s.ring, op) then s.(writer := WReloading(s.ring.head))
      else s.(writer := WReady(s.ring.head, WriteSpan(s.ring.head, s.ring.seenTail, c).total))
    case WReload(observed) =>
      var r := s.ring.(seenTail := observed % c);
      var free := WriteSpan(s.ring.head, r.seenTail, c).total;
      s.(ring := r, writer := WReady(s.ring.head, free), counters := s.counters.(seenConsumed := observed))
    case WTouch(offset, value) =>
      s.(slots := s.slots[Advance(s.writer.head, offset, c) := value])
    case WFinish(n) =>
      s.(ring := Publish(s.ring, n), writer := WIdle,
         counters := s.counters.(written := s.counters.written + n),
         pushed := s.pushed + Window(s.slots, s.writer.head, n))
    case RBegin(op) =>
      if NeedsHead(s.ring, op) then s.(reader := RReloading(s.ring.tail))
      else s.(reader := RReady(s.ring.tail, WrittenNum(s.ring.seenHead, s.ring.tail, c)))
    case RReload(observed) =>
      var r := s.ring.(seenHead := observed % c);
      var num := WrittenNum(r.seenHead, s.ring.tail, c);
      s.(ring := r, reader := RReady(s.ring.tail, num), counters := s.counters.(seenWritten := observed))
    case RConsume(n) =>
      s.(ring := Consume(s.ring, n), reader := RIdle,
         counters := s.counters.(consumed := s.counters.consumed + n),
         popped := s.popped + Window(s.slots, s.reader.tail, n))
  }

  ghost predicate Reaches<T>(s: State<T>, steps: seq<Step<T>>, s': State<T>)
    decreases |steps|
  {
    if steps == [] then s == s'
    else WellFormed(s) && Enabled(s, steps[0]) && Reaches(Apply(s, steps[0]), steps[1..], s')
  }

  // ---------------------------------------------------------------------
  // The invariant
  // ---------------------------------------------------------------------

  /** The slot of the i-th element ever pushed. */
  function SlotOf(i: nat, capacity: nat): (slot: nat)
    requires 0 < capacity
    ensures slot < capacity
  {
    i % capacity
  }

  ghost predicate InFlightIntact<T>(s: State<T>)
    requires 0 < s.ring.capacity == |s.slots| && |s.pushed| == s.counters.written
  {
    forall i :: s.counters.consumed <= i < s.counters.written ==>
      s.slots[SlotOf(i, s.ring.capacity)] == s.pushed[i]
  }

  ghost predicate Inv<T>(s: State<T>) {
    && Represents(s.ring, s.counters)
    && |s.slots| == s.ring.capacity
    && |s.pushed| == s.counters.written
    && (s.writer.WReloading? ==> s.writer.head == s.ring.head)
    && (s.writer.WReady? ==>
          && s.writer.head == s.ring.head
          && s.writer.free == s.ring.capacity - 1 - (s.counters.written - s.counters.seenConsumed))
    && (s.reader.RReloading? ==> s.reader.tail == s.ring.tail)
    && (s.reader.RReady? ==>
          && s.reader.tail == s.ring.tail
          && s.reader.num == s.counters.seenWritten - s.counters.consumed)
    && InFlightIntact(s)
    && s.popped == s.pushed[..s.counters.consumed]
  }

  lemma InitInv<T>(slots: seq<T>)
    requires |slots| > 0
    ensures Inv(Init(slots))
  {
  }

  lemma BeginKeepsInv<T>(s: State<T>, step: Step<T>)
    requires Inv(s) && WellFormed(s) && Enabled(s, step) && (step.WBegin? || step.RBegin?)
    ensures Inv(Apply(s, step))
  {
    MixedIndicesExact(s.ring, s.counters);
  }

  lemma ReloadKeepsInv<T>(s: State<T>, step: Step<T>)
    requires Inv(s) && WellFormed(s) && Enabled(s, step) && (step.WReload? || step.RReload?)
    ensures Inv(Apply(s, step))
  {
    var s' := Apply(s, step);
    assert Represents(s'.ring, s'.counters);
    MixedIndicesExact(s'.ring, s'.counters);
  }

  /** A slot the writer may touch is none of those holding a published, unread element. */
  lemma TouchedSlotIsFree<T>(s: State<T>, offset: nat, i: nat)
    requires Inv(s) && s.writer.WReady? && offset < s.writer.free
    requires s.counters.consumed <= i < s.counters.written
    ensures Advance(s.writer.head, offset, s.ring.capacity) != SlotOf(i, s.ring.capacity)
  {
    AdvanceIndex(s.counters.written, offset, s.ring.capacity);
    IndexInjective(i, s.counters.written + offset, s.ring.capacity);
  }

  lemma TouchKeepsInv<T>(s: State<T>, step: Step<T>)
    requires Inv(s) && WellFormed(s) && Enabled(s, step) && step.WTouch?
    ensures Inv(Apply(s, step))
  {
    forall i | s.counters.consumed <= i < s.counters.written
      ensures Apply(s, step).slots[SlotOf(i, s.ring.capacity)] == s.pushed[i]
    {
      TouchedSlotIsFree(s, step.offset, i);
    }
  }

  /** What is published is what was put into the slots. */
  lemma PublishedIntact<T>(s: State<T>, n: nat, i: nat)
    requires Inv(s) && s.writer.WReady? && n <= s.writer.free
    requires s.counters.consumed <= i < s.counters.written + n
    ensures s.writer.head < |s.slots| && n <= |s.slots|
    ensures s.slots[SlotOf(i, |s.slots|)] == (s.pushed + Window(s.slots, s.writer.head, n))[i]
  {
    if i < s.counters.written {
      assert s.slots[SlotOf(i, s.ring.capacity)] == s.pushed[i];
    } else {
      AdvanceIndex(s.counters.written, i - s.counters.written, s.ring.capacity);
    }
  }

  lemma FinishKeepsInv<T>(s: State<T>, step: Step<T>)
    requires Inv(s) && WellFormed(s) && Enabled(s, step) && step.WFinish?
    ensures Inv(Apply(s, step))
  {
    var s' := Apply(s, step);
    MixedIndicesExact(s.ring, s.counters);
    PublishRepresents(s.ring, s.counters, step.n);
    forall i | s'.counters.consumed <= i < s'.counters.written
      ensures s'.slots[SlotOf(i, s.ring.capacity)] == s'.pushed[i]
    {
      PublishedIntact(s, step.n, i);
    }
  }

  /** What the reader finds in a slot it was offered is the element pushed there. */
  lemma ReadIsExact<T>(s: State<T>, offset: nat)
    requires Inv(s) && s.reader.RReady? && offset < s.reader.num
    ensures s.reader.tail < |s.slots|
    ensures s.slots[Advance(s.reader.tail, offset, s.ring.capacity)] == s.pushed[s.counters.consumed + offset]
  {
    AdvanceIndex(s.counters.consumed, offset, s.ring.capacity);
    var i := s.counters.consumed + offset;
    assert s.slots[SlotOf(i, s.ring.capacity)] == s.pushed[i];
  }

  /** All that the reader may read at once is the next stretch of what was pushed. */
  lemma ReadWindow<T>(s: State<T>, n: nat)
    requires Inv(s) && s.reader.RReady? && n <= s.reader.num
    ensures s.counters.consumed + n <= |s.pushed| && n <= |s.slots| && s.reader.tail < |s.slots|
    ensures s.popped + Window(s.slots, s.reader.tail, n) == s.pushed[..s.counters.consumed + n]
  {
    forall i | 0 <= i < n
      ensures s.slots[Advance(s.reader.tail, i, |s.slots|)] == s.pushed[s.counters.consumed + i]
    {
      ReadIsExact(s, i);
    }
    assert Window(s.slots, s.reader.tail, n) == s.pushed[s.counters.consumed..s.counters.consumed + n];
  }

  lemma ConsumeKeepsInv<T>(s: State<T>, step: Step<T>)
    requires Inv(s) && WellFormed(s) && Enabled(s, step) && step.RConsume?
    ensures Inv(Apply(s, step))
  {
    MixedIndicesExact(s.ring, s.counters);
    ConsumeRepresents(s.ring, s.counters, step.n);
    ReadWindow(s, step.n);
  }

  lemma StepKeepsInv<T>(s: State<T>, step: Step<T>)
    requires Inv(s) && WellFormed(s) && Enabled(s, step)
    ensures Inv(Apply(s, step)) && WellFormed(Apply(s, step))
    ensures s.pushed <= Apply(s, step).pushed
    ensures s.counters.consumed <= Apply(s, step).counters.consumed
  {
    match step
    case WBegin(_) => BeginKeepsInv(s, step);
    case RBegin(_) => BeginKeepsInv(s, step);
    case WReload(_) => ReloadKeepsInv(s, step);
    case RReload(_) => ReloadKeepsInv(s, step);
    case WTouch(_, _) => TouchKeepsInv(s, step);
    case WFinish(_) => FinishKeepsInv(s, step);
    case RConsume(_) => ConsumeKeepsInv(s, step);
  }

  // ---------------------------------------------------------------------
  // Main results
  // ---------------------------------------------------------------------

  /** Every interleaving keeps the invariant, and the history only grows. */
  lemma {:induction false} RunKeepsInv<T>(s: State<T>, steps: seq<Step<T>>, s': State<T>)
    requires Inv(s) && Reaches(s, steps, s')
    ensures Inv(s') && s.pushed <= s'.pushed && s.counters.consumed <= s'.counters.consumed
    decreases |steps|
  {
    if steps != [] {
      StepKeepsInv(s, steps[0]);
      RunKeepsInv(Apply(s, steps[0]), steps[1..], s');
    }
  }

  /** What the slots hold between the two shared indices, oldest first. */
  function InFlight<T>(s: State<T>): seq<T>
    requires InRange(s.ring) && |s.slots| == s.ring.capacity
  {
    Window(s.slots, s.ring.tail, WrittenNum(s.ring.head, s.ring.tail, s.ring.capacity))
  }

  lemma {:induction false} CapacityConstant<T>(s: State<T>, steps: seq<Step<T>>, s': State<T>)
    requires Reaches(s, steps, s')
    ensures s'.ring.capacity == s.ring.capacity
    decreases |steps|
  {
    if steps != [] {
      CapacityConstant(Apply(s, steps[0]), steps[1..], s');
    }
  }

  lemma InFlightIsRest<T>(s: State<T>)
    requires Inv(s)
    ensures InFlight(s) == s.pushed[s.counters.consumed..]
  {
    MixedIndicesExact(s.ring, s.counters);
    forall i | 0 <= i < s.counters.written - s.counters.consumed
      ensures InFlight(s)[i] == s.pushed[s.counters.consumed + i]
    {
      AdvanceIndex(s.counters.consumed, i, s.ring.capacity);
      assert s.slots[SlotOf(s.counters.consumed + i, s.ring.capacity)] == s.pushed[s.counters.consumed + i];
    }
  }

  /** The concurrent ring is a FIFO queue: on every run from an empty ring, what
      was consumed followed by what is in flight is what was pushed, in order. */
  lemma FifoOnEveryRun<T>(slots: seq<T>, steps: seq<Step<T>>, s: State<T>)
    requires |slots| > 0 && Reaches(Init(slots), steps, s)
    ensures InRange(s.ring) && |s.slots| == s.ring.capacity == |slots|
    ensures s.popped + InFlight(s) == s.pushed
    ensures |InFlight(s)| < |slots|
  {
    InitInv(slots);
    RunKeepsInv(Init(slots), steps, s);
    CapacityConstant(Init(slots), steps, s);
    InFlightIsRest(s);
  }

  /** A slot between write_ptr and write_finish is none the reader may look at. */
  lemma SidesNeverShareASlot<T>(s: State<T>, offset: nat, i: nat)
    requires Inv(s) && s.writer.WReady? && offset < s.writer.free
    requires s.reader.RReady? && i < s.reader.num
    ensures Advance(s.writer.head, offset, s.ring.capacity) != Advance(s.reader.tail, i, s.ring.capacity)
  {
    AdvanceIndex(s.counters.consumed, i, s.ring.capacity);
    TouchedSlotIsFree(s, offset, s.counters.consumed + i);
  }

  /** As long as the reader keeps an offered slot, the slot reads the same at any
      two moments, whatever the writer does in between: no copy is ever torn. */
  lemma ReadsNeverTear<T>(s: State<T>, steps: seq<Step<T>>, s': State<T>, offset: nat)
    requires Inv(s) && Reaches(s, steps, s')
    requires s.reader.RReady? && s'.reader.RReady? && offset < s.reader.num && offset < s'.reader.num
    requires s.counters.consumed == s'.counters.consumed
    ensures s.reader.tail == s'.reader.tail < |s.slots| == |s'.slots|
    ensures s.slots[Advance(s.reader.tail, offset, |s.slots|)] == s'.slots[Advance(s.reader.tail, offset, |s.slots|)]
  {
    RunKeepsInv(s, steps, s');
    CapacityConstant(s, steps, s');
    ReadIsExact(s, offset);
    ReadIsExact(s', offset);
  }

  /** The writer is told "no space" exactly when, by the tail it last loaded, the
      ring is full. With a fresh load that means the ring really is full. */
  lemma {:induction false} NoSpaceMeansFull<T>(s: State<T>, observed: nat)
    requires Inv(s) && WellFormed(s) && Enabled(s, WReload(observed))
    ensures Apply(s, WReload(observed)).writer.free == 0
       <==> s.counters.written - observed == s.ring.capacity - 1
    ensures observed == s.counters.consumed ==>
      (Apply(s, WReload(observed)).writer.free == 0 <==> IsFull(s.ring.head, s.ring.tail, s.ring.capacity))
  {
    ReloadKeepsInv(s, WReload(observed));
    MixedIndicesExact(s.ring, s.counters);
  }

  /** The reader is told "no element" exactly when, by the head it last loaded, the
      ring is empty. With a fresh load that means the ring really is empty. */
  lemma {:induction false} NoElementMeansEmpty<T>(s: State<T>, observed: nat)
    requires Inv(s) && WellFormed(s) && Enabled(s, RReload(observed))
    ensures Apply(s, RReload(observed)).reader.num == 0 <==> observed == s.counters.consumed
    ensures observed == s.counters.written ==>
      (Apply(s, RReload(observed)).reader.num == 0 <==> IsEmpty(s.ring.head, s.ring.tail))
  {
    ReloadKeepsInv(s, RReload(observed));
    MixedIndicesExact(s.ring, s.counters);
  }

  /** The caches are only trusted when they offer something: without a reload the
      single-slot operations never report "no space" or "no element". */
  lemma {:induction false} FailureNeedsReload<T>(s: State<T>, wop: WriteOp, rop: ReadOp)
    requires Inv(s) && WellFormed(s)
    ensures s.writer.WIdle? && !wop.Acquire? && Apply(s, WBegin(wop)).writer.WReady? ==>
      0 < Apply(s, WBegin(wop)).writer.free <= s.ring.capacity - 1 - (s.counters.written - s.counters.consumed)
    ensures s.reader.RIdle? && rop.ReadOff? && Apply(s, RBegin(rop)).reader.RReady? ==>
      0 < Apply(s, RBegin(rop)).reader.num <= s.counters.written - s.counters.consumed
  {
    MixedIndicesExact(s.ring, s.counters);
  }

  /** The abstract queue that both rings of the pipeline stand for: what was sent into it
      and what came out. */
  datatype Fifo<T> = Fifo(bound: nat, sent: seq<T>, received: seq<T>)

  /** One side at a time sends or receives some elements, or nothing happens. What comes
      out is what was sent, in order, and never more than `bound` elements are inside. */
  ghost predicate FifoNext<T>(q: Fifo<T>, q': Fifo<T>) {
    && q'.bound == q.bound
    && q.sent <= q'.sent
    && q.received <= q'.received <= q.sent
    && (q.sent == q'.sent || q.received == q'.received)
    && |q'.sent| - |q.received| <= q.bound
  }

  function Abstract<T>(s: State<T>): Fifo<T>
    requires 0 < s.ring.capacity
  {
    Fifo(s.ring.capacity - 1, s.pushed, s.popped)
  }

  /** Each step of either side is one step of the bounded queue, or none at all. */
  lemma StepRefinesFifo<T>(s: State<T>, step: Step<T>)
    requires Inv(s) && WellFormed(s) && Enabled(s, step)
    ensures FifoNext(Abstract(s), Abstract(Apply(s, step)))
  {
    StepKeepsInv(s, step);
  }
}

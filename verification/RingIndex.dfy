/**
  Index arithmetic of the single-producer single-consumer ring
  (src/core/spsc_ringbuf.c) and the meaning of its four index fields.

  The ring has `capacity` slots, one of which always stays unused. `head` and
  `seenTail` belong to the writer, `tail` and `seenHead` to the reader; each
  `seen` field is a possibly stale copy of an index of the other side.

  The meaning is given by four unbounded counters: how many elements were
  published (`written`), how many were consumed (`consumed`), and how much of
  each the other side has seen. Every index field is its counter modulo the
  capacity, and that is all the C code ever stores.
 */
module RingIndex {

  datatype Ring = Ring(capacity: nat, head: nat, tail: nat, seenHead: nat, seenTail: nat)

  datatype Counters = Counters(written: nat, consumed: nat, seenWritten: nat, seenConsumed: nat)

  /** What get_write_off reports: `n` slots from `head` on and `wrapN` more after the wrap. */
  datatype Span = Span(n: nat, wrapN: nat, total: nat)

  predicate IsEmpty(head: nat, tail: nat) {
    head == tail
  }

  predicate IsFull(head: nat, tail: nat, capacity: nat) {
    head + 1 == tail || (head == capacity - 1 && tail == 0)
  }

  /** The ensures clauses are the checks the C function makes on its own result. */
  function WrittenNum(head: nat, tail: nat, capacity: nat): (num: nat)
    requires head < capacity && tail < capacity
    ensures num < capacity
    ensures IsEmpty(head, tail) <==> num == 0
    ensures IsFull(head, tail, capacity) <==> num == capacity - 1
  {
    if tail < head then head - tail
    else if tail == head then 0
    else capacity - tail + head
  }

  function FreeNum(head: nat, tail: nat, capacity: nat): (num: nat)
    requires head < capacity && tail < capacity
    ensures num + WrittenNum(head, tail, capacity) == capacity - 1
    ensures IsFull(head, tail, capacity) <==> num == 0
  {
    if tail < head then (capacity - head - 1) + tail
    else if head == tail then capacity - 1
    else tail - head - 1
  }

  /** The two reported parts always add up to the number of free slots. */
  function WriteSpan(head: nat, tail: nat, capacity: nat): (span: Span)
    requires head < capacity && tail < capacity
    ensures span.n + span.wrapN == span.total == FreeNum(head, tail, capacity)
    ensures span.n == 0 <==> span.total == 0
  {
    if tail < head then
      if tail == 0 then Span(capacity - head - 1, 0, capacity - head - 1)
      else Span(capacity - head, tail - 1, capacity - head + tail - 1)
    else if tail == head then Span(capacity - 1, 0, capacity - 1)
    else Span(tail - head - 1, 0, tail - head - 1)
  }

  function Min(a: nat, b: nat): nat {
    if a < b then a else b
  }

  /** Advance an index by n, as write_finish and consume do. */
  function Advance(index: nat, n: nat, capacity: nat): nat {
    if index + n >= capacity then index + n - capacity else index + n
  }

  predicate InRange(r: Ring) {
    r.head < r.capacity && r.tail < r.capacity && r.seenHead < r.capacity && r.seenTail < r.capacity
  }

  /** The order of the counters: the reader sees at most what was written, the
      writer sees at most what was consumed, and the writer never overtakes
      what it believes is still unread. */
  predicate Ordered(k: Counters, capacity: nat) {
    k.seenConsumed <= k.consumed <= k.seenWritten <= k.written < k.seenConsumed + capacity
  }

  predicate Represents(r: Ring, k: Counters)
    ensures Represents(r, k) ==> InRange(r)
  {
    && 0 < r.capacity
    && Ordered(k, r.capacity)
    && r.head == k.written % r.capacity
    && r.tail == k.consumed % r.capacity
    && r.seenHead == k.seenWritten % r.capacity
    && r.seenTail == k.seenConsumed % r.capacity
  }

  lemma MultipleBelow(d: int, c: int)
    requires -c < d * c < c
    ensures d == 0
  {
  }

  lemma ModUnique(a: nat, q: nat, rest: nat, c: nat)
    requires 0 < c && rest < c && a == q * c + rest
    ensures a % c == rest && a / c == q
  {
    var d := q - a / c;
    assert d * c == q * c - (a / c) * c;
    MultipleBelow(d, c);
  }

  /** Moving a counter by less than a full round moves its index by Advance. */
  lemma AdvanceIndex(a: nat, n: nat, c: nat)
    requires 0 < c && n <= c
    ensures (a + n) % c == Advance(a % c, n, c)
  {
    if a % c + n >= c {
      assert a + n == (a / c + 1) * c + (a % c + n - c);
      ModUnique(a + n, a / c + 1, a % c + n - c, c);
    } else {
      ModUnique(a + n, a / c, a % c + n, c);
    }
  }

  /** Two counters less than a full round apart: the index difference is exact. */
  lemma WrittenNumExact(w: nat, r: nat, c: nat)
    requires r <= w < r + c
    ensures WrittenNum(w % c, r % c, c) == w - r
    ensures FreeNum(w % c, r % c, c) == c - 1 - (w - r)
  {
    AdvanceIndex(r, w - r, c);
  }

  /** Distinct counters less than a full round apart have distinct indices. */
  lemma IndexInjective(a: nat, b: nat, c: nat)
    requires 0 < c && a < b < a + c
    ensures a % c != b % c
  {
    WrittenNumExact(b, a, c);
  }

  /** Every mix of a fresh and a stale index gives an exact count, never an approximation. */
  lemma {:induction false} MixedIndicesExact(r: Ring, k: Counters)
    requires Represents(r, k)
    ensures WrittenNum(r.head, r.tail, r.capacity) == k.written - k.consumed
    ensures FreeNum(r.head, r.tail, r.capacity) == r.capacity - 1 - (k.written - k.consumed)
    ensures WrittenNum(r.seenHead, r.tail, r.capacity) == k.seenWritten - k.consumed
    ensures WriteSpan(r.head, r.seenTail, r.capacity).total == r.capacity - 1 - (k.written - k.seenConsumed)
  {
    WrittenNumExact(k.written, k.consumed, r.capacity);
    WrittenNumExact(k.seenWritten, k.consumed, r.capacity);
    WrittenNumExact(k.written, k.seenConsumed, r.capacity);
  }

  // ---------------------------------------------------------------------
  // The updates the operations make, on the fields alone
  // ---------------------------------------------------------------------

  /** The writer's ways to ask for space (lines 170-242). */
  datatype WriteOp = WriteOff | WriteOffNowrap | Acquire(req: nat)

  predicate NeedsTail(r: Ring, op: WriteOp)
    requires InRange(r)
  {
    var free := WriteSpan(r.head, r.seenTail, r.capacity);
    match op
    case WriteOff => free.total == 0
    case WriteOffNowrap => r.seenTail == 0 || free.total == 0
    case Acquire(req) => free.total < req
  }

  /** The reader's ways to ask for elements (lines 268-292, 315-349). */
  datatype ReadOp = ReadOff | ReadAcquire(req: nat) | Peek(want: nat)

  predicate NeedsHead(r: Ring, op: ReadOp)
    requires InRange(r)
  {
    var num := WrittenNum(r.seenHead, r.tail, r.capacity);
    match op
    case ReadOff => num == 0
    case ReadAcquire(req) => num < req
    case Peek(want) => num < want || want == 0
  }

  function Publish(r: Ring, n: nat): Ring {
    r.(head := Advance(r.head, n, r.capacity))
  }

  function Consume(r: Ring, n: nat): Ring {
    r.(tail := Advance(r.tail, n, r.capacity))
  }

  /** Publishing at most the free slots the writer knows of keeps the meaning. */
  lemma PublishRepresents(r: Ring, k: Counters, n: nat)
    requires Represents(r, k)
    requires n <= WriteSpan(r.head, r.seenTail, r.capacity).total
    ensures Represents(Publish(r, n), k.(written := k.written + n))
  {
    MixedIndicesExact(r, k);
    AdvanceIndex(k.written, n, r.capacity);
  }

  /** Consuming keeps the meaning exactly when no more is consumed than the reader
      has *seen*; that more is present in the ring does not help. */
  lemma {:induction false} ConsumeRepresents(r: Ring, k: Counters, n: nat)
    requires Represents(r, k) && n <= r.capacity
    ensures Represents(Consume(r, n), k.(consumed := k.consumed + n))
       <==> n <= WrittenNum(r.seenHead, r.tail, r.capacity)
  {
    MixedIndicesExact(r, k);
    AdvanceIndex(k.consumed, n, r.capacity);
    var k' := k.(consumed := k.consumed + n);
    assert Consume(r, n).tail == k'.consumed % r.capacity;
    assert Ordered(k', r.capacity) <==> n <= WrittenNum(r.seenHead, r.tail, r.capacity);
  }

  /** consume does not look at seenHead. Consuming an element that is present but
      not yet seen leaves the reader believing in a nearly full ring. */
  lemma ConsumeUnseenBreaksCache()
    ensures var r := Ring(4, 1, 0, 0, 0);
            && Represents(r, Counters(1, 0, 0, 0))
            && WrittenNum(r.head, r.tail, 4) == 1
            && WrittenNum(Consume(r, 1).head, Consume(r, 1).tail, 4) == 0
            && WrittenNum(Consume(r, 1).seenHead, Consume(r, 1).tail, 4) == 3
  {
  }

  /** The reported contiguous part is what fits up to the end of the slots, but only when
      the ring is not empty: with head == tail the whole ring is reported as one run
      from any head. */
  lemma {:induction false} ContiguousPart(head: nat, tail: nat, capacity: nat)
    requires head < capacity && tail < capacity
    ensures WriteSpan(head, tail, capacity).n == Min(WriteSpan(head, tail, capacity).total, capacity - head)
       <==> !(head == tail && head > 1)
  {
  }
}

/**
  The operations of src/core/spsc_ringbuf.c as they update the ring in place.
  Each method here runs without the other side moving; SpscRun shows what
  happens when the two sides interleave. The contracts speak about the counters
  the indices stand for, not about the index arithmetic.
 */
module RingbufModule {
  import opened RingIndex

  class Ringbuf {
    const capacity: nat
    var head: nat
    var tail: nat
    var seenHead: nat
    var seenTail: nat
    ghost var counters: Counters

    function View(): Ring
      reads this
    {
      Ring(capacity, head, tail, seenHead, seenTail)
    }

    ghost predicate Valid()
      reads this
    {
      Represents(View(), counters)
    }

    /** How many elements are published and not consumed. */
    ghost function Count(): nat
      requires Valid()
      reads this
    {
      counters.written - counters.consumed
    }

    /** How many slots the writer knows to be free. */
    ghost function Granted(): nat
      requires Valid()
      reads this
    {
      capacity - 1 - (counters.written - counters.seenConsumed)
    }

    /** How many of them are reported as one run; see ContiguousPart for the case of a
        ring that looks empty. */
    ghost function Run(): nat
      requires Valid()
      reads this
    {
      if Granted() == capacity - 1 then Granted() else Min(Granted(), capacity - head)
    }

    /** What get_write_off computes from the cached tail. */
    lemma SpanIsGranted()
      requires Valid()
      ensures var span := WriteSpan(head, seenTail, capacity);
              span.total == Granted() && span.n == Run() && span.n + span.wrapN == Granted()
    {
      MixedIndicesExact(View(), counters);
    }

    /** How many elements the reader has seen and not consumed. */
    ghost function Seen(): nat
      requires Valid()
      reads this
    {
      counters.seenWritten - counters.consumed
    }

    constructor (capacity: nat)
      requires 0 < capacity
      ensures Valid() && this.capacity == capacity && counters == Counters(0, 0, 0, 0)
    {
      this.capacity := capacity;
      head, tail, seenHead, seenTail := 0, 0, 0, 0;
      counters := Counters(0, 0, 0, 0);
    }

    method Size() returns (num: nat)
      requires Valid()
      ensures num == Count() < capacity
    {
      MixedIndicesExact(View(), counters);
      num := WrittenNum(head, tail, capacity);
    }

    method Free() returns (num: nat)
      requires Valid()
      ensures num + Count() == capacity - 1
    {
      MixedIndicesExact(View(), counters);
      num := FreeNum(head, tail, capacity);
    }

    method Empty() returns (empty: bool)
      requires Valid()
      ensures empty <==> Count() == 0
    {
      MixedIndicesExact(View(), counters);
      empty := IsEmpty(head, tail);
    }

    method Full() returns (full: bool)
      requires Valid()
      ensures full <==> Count() == capacity - 1
    {
      MixedIndicesExact(View(), counters);
      full := IsFull(head, tail, capacity);
    }

    /** Loading `tail` afresh: the writer now knows of every free slot. */
    method LoadTail()
      requires Valid()
      modifies this`seenTail, this`counters
      ensures Valid()
      ensures counters == old(counters).(seenConsumed := counters.consumed)
    {
      seenTail := tail;
      counters := counters.(seenConsumed := counters.consumed);
    }

    /** Loading `head` afresh: the reader has now seen every element. */
    method LoadHead()
      requires Valid()
      modifies this`seenHead, this`counters
      ensures Valid()
      ensures counters == old(counters).(seenWritten := counters.written)
    {
      seenHead := head;
      counters := counters.(seenWritten := counters.written);
    }

    method WriteOff() returns (off: nat, n: nat, wrapN: nat)
      requires Valid()
      modifies this`seenTail, this`counters
      ensures Valid() && off == head == old(head)
      ensures n + wrapN == Granted() && n == Run()
      ensures n + wrapN == 0 <==> Count() == capacity - 1
      ensures counters == if old(Granted()) == 0 then old(counters).(seenConsumed := counters.consumed) else old(counters)
    {
      off := head;
      SpanIsGranted();
      var span := WriteSpan(off, seenTail, capacity);
      if span.total == 0 {
        LoadTail();
        span := WriteSpan(off, seenTail, capacity);
      }
      SpanIsGranted();
      n, wrapN := span.n, span.wrapN;
    }

    /** Offers a slot exactly when the ring is not full. */
    method WriteOffNowrap() returns (off: nat, n: nat)
      requires Valid()
      modifies this`seenTail, this`counters
      ensures Valid() && off == head == old(head) < capacity
      ensures n == Run() <= Granted()
      ensures n == 0 <==> Count() == capacity - 1
      ensures counters == if old(seenTail == 0 || Granted() == 0) then old(counters).(seenConsumed := counters.consumed)
                          else old(counters)
    {
      off := head;
      SpanIsGranted();
      if seenTail == 0 || WriteSpan(off, seenTail, capacity).total == 0 {
        LoadTail();
      }
      SpanIsGranted();
      n := WriteSpan(off, seenTail, capacity).n;
    }

    /** Fewer than `req` slots are offered only when fewer are free. */
    method Acquire(req: nat) returns (off: nat, n: nat, wrapN: nat)
      requires Valid()
      modifies this`seenTail, this`counters
      ensures Valid() && off == head == old(head)
      ensures n + wrapN == Granted() && n == Run()
      ensures n + wrapN < req ==> n + wrapN == capacity - 1 - Count()
      ensures counters == if old(Granted()) < req then old(counters).(seenConsumed := counters.consumed) else old(counters)
    {
      off := head;
      var span := WriteSpan(off, seenTail, capacity);
      if span.total < req {
        SpanIsGranted();
        LoadTail();
        span := WriteSpan(off, seenTail, capacity);
      }
      SpanIsGranted();
      n, wrapN := span.n, span.wrapN;
    }

    /** Compares the whole free space with `req` but offers only its first run, which may
        be shorter. */
    method AcquireNowrap(req: nat) returns (off: nat, n: nat)
      requires Valid()
      modifies this`seenTail, this`counters
      ensures Valid() && off == head == old(head)
      ensures n == Run() <= Granted()
      ensures Granted() < req ==> Granted() == capacity - 1 - Count()
      ensures n == 0 && 0 < req ==> Count() == capacity - 1
      ensures counters == if old(Granted()) < req then old(counters).(seenConsumed := counters.consumed) else old(counters)
    {
      off := head;
      var span := WriteSpan(off, seenTail, capacity);
      if span.total < req {
        SpanIsGranted();
        LoadTail();
        span := WriteSpan(off, seenTail, capacity);
      }
      SpanIsGranted();
      n := span.n;
    }

    method WriteFinish(n: nat)
      requires Valid() && n <= Granted()
      modifies this`head, this`counters
      ensures Valid() && head == old(counters.written + n) % capacity
      ensures counters == old(counters).(written := old(counters.written) + n)
    {
      PublishRepresents(View(), counters, n) by { MixedIndicesExact(View(), counters); }
      var newHead := head + n;
      if newHead >= capacity {
        newHead := newHead - capacity;
      }
      head := newHead;
      counters := counters.(written := counters.written + n);
    }

    /** Offers every element seen; reloads only when all of those are used up. */
    method ReadOffNowrap() returns (off: nat, n: nat)
      requires Valid()
      modifies this`seenHead, this`counters
      ensures Valid() && off == tail == old(tail) < capacity
      ensures n == Seen()
      ensures n == 0 <==> Count() == 0
      ensures counters == if old(Seen()) == 0 then old(counters).(seenWritten := counters.written) else old(counters)
    {
      off := tail;
      MixedIndicesExact(View(), counters);
      n := WrittenNum(seenHead, off, capacity);
      if n == 0 {
        LoadHead();
        MixedIndicesExact(View(), counters);
        n := WrittenNum(seenHead, off, capacity);
      }
    }

    method ReadAcquire(req: nat) returns (off: nat, n: nat)
      requires Valid()
      modifies this`seenHead, this`counters
      ensures Valid() && off == tail == old(tail) < capacity
      ensures n == Seen()
      ensures n < req ==> n == Count()
      ensures counters == if old(Seen()) < req then old(counters).(seenWritten := counters.written) else old(counters)
    {
      off := tail;
      MixedIndicesExact(View(), counters);
      n := WrittenNum(seenHead, off, capacity);
      if n < req {
        LoadHead();
        MixedIndicesExact(View(), counters);
        n := WrittenNum(seenHead, off, capacity);
      }
    }

    /** The caller must have *seen* the n elements: seenHead is not reloaded here. */
    method Consume(n: nat)
      requires Valid() && n <= Seen()
      modifies this`tail, this`counters
      ensures Valid() && tail == old(counters.consumed + n) % capacity
      ensures counters == old(counters).(consumed := old(counters.consumed) + n)
    {
      ConsumeRepresents(View(), counters, n) by { MixedIndicesExact(View(), counters); }
      MixedIndicesExact(View(), counters);
      var newTail := tail + n;
      if newTail >= capacity {
        newTail := newTail - capacity;
      }
      tail := newTail;
      counters := counters.(consumed := counters.consumed + n);
    }

    /** Consumes exactly min(n, what is in the ring), however stale the cache was. */
    method ConsumeUpto(n: nat) returns (done: nat)
      requires Valid()
      modifies this`tail, this`seenHead, this`counters
      ensures Valid()
      ensures done == if n <= old(Count()) then n else old(Count())
      ensures counters == old(counters).(consumed := old(counters.consumed) + done,
                                         seenWritten := if old(Seen()) < n then counters.written
                                                        else old(counters.seenWritten))
    {
      MixedIndicesExact(View(), counters);
      var k := WrittenNum(seenHead, tail, capacity);
      if k < n {
        LoadHead();
        MixedIndicesExact(View(), counters);
        k := WrittenNum(seenHead, tail, capacity);
      }
      done := if k < n then k else n;
      if done > 0 {
        Consume(done);
      }
    }

    /** Splits the first min(n, num) elements into a run up to the end of the slots
        and a run from slot 0. With n == 0 only the up-to-date number is wanted. */
    method Peek(n: nat) returns (num: nat, off: nat, len1: nat, len2: nat)
      requires Valid()
      modifies this`seenHead, this`counters
      ensures Valid() && num == Seen()
      ensures n == 0 ==> num == Count() && len1 == len2 == 0
      ensures num < n ==> num == Count()
      ensures 0 < n ==> len1 + len2 == if num < n then num else n
      ensures off == tail == old(tail) && off + len1 <= capacity
      ensures 0 < len2 ==> off + len1 == capacity && len2 <= off
      ensures 0 < n && 0 < num ==> 0 < len1
      ensures counters == if old(Seen()) < n || n == 0 then old(counters).(seenWritten := counters.written) else old(counters)
    {
      off, len1, len2 := tail, 0, 0;
      MixedIndicesExact(View(), counters);
      num := WrittenNum(seenHead, tail, capacity);
      if num < n || n == 0 {
        LoadHead();
        MixedIndicesExact(View(), counters);
        num := WrittenNum(seenHead, tail, capacity);
      }
      if n == 0 || num == 0 {
        return;
      }
      var m := if num < n then num else n;
      if tail < seenHead {
        len1 := m;
      } else {
        len1 := if capacity - tail > m then m else capacity - tail;
        var rest: int := if seenHead < m - len1 then seenHead else m - len1;
        len2 := rest;
      }
    }
  }
}

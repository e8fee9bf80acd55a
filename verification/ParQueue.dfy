/**
  The queue of src/core/par_queue.c: an array of slots on top of the ring. A slot
  holds one element; where the C code hands out a pointer into the slots, the
  methods here hand out the slot's index.
 */
module ParQueueModule {
  import opened Basics
  import opened RingIndex
  import opened RingbufModule
  import opened SharedInfo

  /** The value of size_t that stands for "all" in peek. */
  const SIZE_MAX: nat := MAX64

  /** The elements of n slots from the one with counter `from` on, oldest first. */
  ghost function Unroll<T>(slots: seq<T>, from: nat, n: nat): (q: seq<T>)
    requires 0 < |slots|
    ensures |q| == n
    ensures forall i :: 0 <= i < n ==> q[i] == slots[(from + i) % |slots|]
  {
    seq(n, i requires 0 <= i < n => slots[(from + i) % |slots|])
  }

  /** Two runs of slots, up to the end and from slot 0 on, are one stretch of the queue. */
  lemma SegmentsUnroll<T>(slots: seq<T>, from: nat, len1: nat, len2: nat)
    requires 0 < |slots| && from % |slots| + len1 <= |slots|
    requires 0 < len2 ==> from % |slots| + len1 == |slots|
    requires len2 <= from % |slots|
    ensures var off := from % |slots|;
            slots[off..off + len1] + slots[..len2] == Unroll(slots, from, len1 + len2)
  {
    var off := from % |slots|;
    var runs := slots[off..off + len1] + slots[..len2];
    var q := Unroll(slots, from, len1 + len2);
    forall i | 0 <= i < len1 + len2
      ensures runs[i] == q[i]
    {
      AdvanceIndex(from, i, |slots|);
    }
    assert runs == q;
  }

  /** Writing to a slot outside a stretch of the queue does not change the stretch. */
  lemma UnrollUnchanged<T>(slots: seq<T>, from: nat, n: nat, at: nat, value: T)
    requires 0 < |slots| && from + n <= at < from + |slots|
    ensures Unroll(slots[at % |slots| := value], from, n) == Unroll(slots, from, n)
  {
    var q := Unroll(slots, from, n);
    var q' := Unroll(slots[at % |slots| := value], from, n);
    forall i | 0 <= i < n
      ensures q'[i] == q[i]
    {
      IndexInjective(from + i, at, |slots|);
    }
    assert q' == q;
  }

  lemma UnrollPrefix<T>(slots: seq<T>, from: nat, n: nat, m: nat)
    requires 0 < |slots| && m <= n
    ensures Unroll(slots, from, m) == Unroll(slots, from, n)[..m]
  {
  }

  /** The two runs of peek hold the oldest elements. */
  lemma RunsAreOldest<T>(slots: seq<T>, from: nat, n: nat, len1: nat, len2: nat)
    requires 0 < |slots| && len1 + len2 <= n && from % |slots| + len1 <= |slots|
    requires 0 < len2 ==> from % |slots| + len1 == |slots|
    requires len2 <= from % |slots|
    ensures var off := from % |slots|;
            slots[off..off + len1] + slots[..len2] == Unroll(slots, from, n)[..len1 + len2]
  {
    SegmentsUnroll(slots, from, len1, len2);
    UnrollPrefix(slots, from, n, len1 + len2);
  }

  class ParQueue<T(0)> {
    const capacity: nat
    const ringbuf: Ringbuf
    const data: array<T>

    ghost predicate Valid()
      reads this, ringbuf, data
    {
      && ringbuf.Valid()
      && 0 < capacity
      && ringbuf.capacity == capacity + 1 == data.Length
    }

    /** The slot of the i-th element ever pushed. */
    ghost function SlotOf(i: nat): (slot: nat)
      requires Valid()
      reads this, ringbuf, data
      ensures slot < data.Length
    {
      i % data.Length
    }

    /** The queue: published and not consumed, oldest first. */
    ghost function Contents(): (q: seq<T>)
      requires Valid()
      reads this, ringbuf, data
      ensures |q| == ringbuf.Count() <= capacity
      ensures forall i :: 0 <= i < |q| ==> q[i] == data[SlotOf(ringbuf.counters.consumed + i)]
    {
      Unroll(data[..], ringbuf.counters.consumed, ringbuf.Count())
    }

    constructor (capacity: nat)
      requires 0 < capacity
      ensures Valid() && this.capacity == capacity && Contents() == []
      ensures fresh(ringbuf) && fresh(data)
    {
      this.capacity := capacity;
      ringbuf := new Ringbuf(capacity + 1);
      data := new T[capacity + 1];
    }

    /** NULL exactly when the queue is full. */
    method WritePtr() returns (slot: Option<nat>)
      requires Valid()
      modifies ringbuf
      ensures Valid() && Contents() == old(Contents())
      ensures slot == None <==> |Contents()| == capacity
      ensures slot != None ==> 0 < ringbuf.Granted() && slot.value == ringbuf.head
      ensures ringbuf.counters == old(ringbuf.counters).(seenConsumed := ringbuf.counters.seenConsumed)
    {
      var off, n := ringbuf.WriteOffNowrap();
      slot := if n > 0 then Some(off) else None;
    }

    /** What was put into the slot of the last WritePtr becomes the newest element. */
    method WriteFinish()
      requires Valid() && 0 < ringbuf.Granted()
      modifies ringbuf
      ensures Valid() && ringbuf.head < data.Length
      ensures old(ringbuf.head) < data.Length && Contents() == old(Contents()) + [data[old(ringbuf.head)]]
      ensures ringbuf.counters == old(ringbuf.counters).(written := old(ringbuf.counters.written) + 1)
    {
      assert ringbuf.head == SlotOf(ringbuf.counters.written);
      ringbuf.WriteFinish(1);
    }

    method Push(elem: T) returns (ok: bool)
      requires Valid()
      modifies ringbuf, data
      ensures Valid()
      ensures ok <==> |old(Contents())| < capacity
      ensures Contents() == if ok then old(Contents()) + [elem] else old(Contents())
    {
      var slot := WritePtr();
      if slot == None {
        return false;
      }
      assert slot.value == SlotOf(ringbuf.counters.written);
      UnrollUnchanged(data[..], ringbuf.counters.consumed, ringbuf.Count(), ringbuf.counters.written, elem);
      data[slot.value] := elem;
      assert data[..] == old(data[..])[slot.value := elem];
      WriteFinish();
      return true;
    }

    method Pop() returns (elem: Option<T>)
      requires Valid()
      modifies ringbuf
      ensures Valid()
      ensures elem == None <==> old(Contents()) == []
      ensures elem == None ==> Contents() == old(Contents())
      ensures elem != None ==> old(Contents()) == [elem.value] + Contents()
    {
      var off, n := ringbuf.ReadOffNowrap();
      if n == 0 {
        return None;
      }
      assert off == SlotOf(ringbuf.counters.consumed);
      elem := Some(data[off]);
      ringbuf.Consume(1);
    }

    /** The k elements must have been seen by a peek. */
    method Drop(k: nat)
      requires Valid() && k <= ringbuf.Seen()
      modifies ringbuf
      ensures Valid() && k <= |old(Contents())| && Contents() == old(Contents())[k..]
      ensures ringbuf.Seen() == old(ringbuf.Seen()) - k
    {
      ringbuf.Consume(k);
    }

    method FreeSpace() returns (num: nat)
      requires Valid()
      ensures num + |Contents()| == capacity
    {
      num := ringbuf.Free();
    }

    method Size() returns (num: nat)
      requires Valid()
      ensures num == |Contents()|
    {
      num := ringbuf.Size();
    }

    /** top and peek1: the oldest element and how many were seen. */
    method Top() returns (elem: Option<T>, num: nat)
      requires Valid()
      modifies ringbuf
      ensures Valid() && Contents() == old(Contents()) && num == ringbuf.Seen()
      ensures elem == if Contents() == [] then None else Some(Contents()[0])
      ensures num == 0 <==> Contents() == []
    {
      var off, n := ringbuf.ReadOffNowrap();
      num := n;
      if n == 0 {
        return None, 0;
      }
      assert off == SlotOf(ringbuf.counters.consumed);
      elem := Some(data[off]);
    }

    /** The slots of the first elements, in two runs: from `off` and from slot 0. With
        n == 0 every element is wanted. */
    method Peek(n: nat) returns (num: nat, off: nat, len1: nat, len2: nat)
      requires Valid() && capacity < SIZE_MAX
      modifies ringbuf
      ensures Valid() && Contents() == old(Contents()) && num == ringbuf.Seen()
      ensures n == 0 ==> num == |Contents()|
      ensures num < n ==> num == |Contents()|
      ensures 0 < n < num ==> len1 + len2 == n
      ensures n == 0 || num <= n ==> len1 + len2 == num
      ensures len1 + len2 <= |Contents()|
      ensures off + len1 <= data.Length && len2 <= off
      ensures data[..][off..off + len1] + data[..][..len2] == Contents()[..len1 + len2]
      ensures 0 < num ==> 0 < len1
    {
      var want := if n == 0 then SIZE_MAX else n;
      num, off, len1, len2 := ringbuf.Peek(want);
      assert Contents() == old(Contents());
      RunsAreOldest(data[..], ringbuf.counters.consumed, ringbuf.Count(), len1, len2);
    }

    /** Element k of the queue, or NULL when there is none. */
    method PeekAt(k: nat) returns (elem: Option<T>)
      requires Valid() && capacity < SIZE_MAX && k <= SIZE_MAX
      modifies ringbuf
      ensures Valid() && Contents() == old(Contents())
      ensures elem == if k < |Contents()| then Some(Contents()[k]) else None
    {
      var num, off, len1, len2 := Peek(if k == SIZE_MAX then k else k + 1);
      if num <= k {
        return None;
      }
      assert Contents()[k] == (data[..][off..off + len1] + data[..][..len2])[k];
      if k < len1 {
        return Some(data[off + k]);
      }
      return Some(data[k - len1]);
    }

    /** Element min(k, size - 1), and that index; it may be dropped up to there. */
    method PeekAtmostAt(k: nat) returns (elem: Option<T>, at: nat)
      requires Valid() && capacity < SIZE_MAX && k <= SIZE_MAX
      modifies ringbuf
      ensures Valid() && Contents() == old(Contents())
      ensures Contents() == [] ==> elem == None && at == 0
      ensures Contents() != [] ==>
        && at == (if k < |Contents()| then k else |Contents()| - 1)
        && elem == Some(Contents()[at]) && at < ringbuf.Seen()
    {
      var num, off, len1, len2 := Peek(if k == SIZE_MAX then k else k + 1);
      if num == 0 {
        return None, 0;
      }
      at := if num <= k then num - 1 else k;
      assert Contents()[at] == (data[..][off..off + len1] + data[..][..len2])[at];
      if at < len1 {
        elem := Some(data[off + at]);
      } else {
        elem := Some(data[at - len1]);
      }
    }
  }
}

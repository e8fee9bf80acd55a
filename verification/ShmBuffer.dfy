/**
  The shared-memory ring of fixed-size slots (src/shmbuf/buffer.c:431-561), byte
  for byte: pushing an element at once or piece by piece, and popping it.
 */
module ShmBufferModule {
  import opened Basics
  import opened RingIndex
  import opened RingbufModule
  import opened ParQueueModule
  import opened AuxPool

  /** memcpy of `bytes` to offset p. */
  function Overwrite(mem: seq<byte>, p: nat, bytes: seq<byte>): (mem': seq<byte>)
    requires p + |bytes| <= |mem|
    ensures |mem'| == |mem|
  {
    mem[..p] + bytes + mem[p + |bytes|..]
  }

  function SlotBytes(mem: seq<byte>, elemSize: nat, k: nat): (slot: seq<byte>)
    requires (k + 1) * elemSize <= |mem|
    ensures |slot| == elemSize
  {
    assert (k + 1) * elemSize == k * elemSize + elemSize;
    mem[k * elemSize..k * elemSize + elemSize]
  }

  lemma SlotInBounds(k: nat, n: nat, elemSize: nat)
    requires k < n
    ensures (k + 1) * elemSize == k * elemSize + elemSize <= n * elemSize
  {
    assert n * elemSize == (k + 1) * elemSize + (n - k - 1) * elemSize;
  }

  /** The memory as a sequence of n slots. */
  ghost function Slots(mem: seq<byte>, elemSize: nat, n: nat): (slots: seq<seq<byte>>)
    requires |mem| == n * elemSize
    ensures |slots| == n
    ensures forall k :: 0 <= k < n ==> |slots[k]| == elemSize
  {
    seq(n, k requires 0 <= k < n => (SlotInBounds(k, n, elemSize); SlotBytes(mem, elemSize, k)))
  }

  lemma SlotIs(mem: seq<byte>, elemSize: nat, n: nat, k: nat)
    requires |mem| == n * elemSize && k < n
    ensures k * elemSize + elemSize <= |mem|
    ensures mem[k * elemSize..k * elemSize + elemSize] == Slots(mem, elemSize, n)[k]
  {
    SlotInBounds(k, n, elemSize);
    assert Slots(mem, elemSize, n)[k] == SlotBytes(mem, elemSize, k);
  }

  lemma OverwriteSlices(mem: seq<byte>, p: nat, bytes: seq<byte>, from: nat, to: nat)
    requires p + |bytes| <= |mem| && from <= to <= |mem|
    ensures to <= p || p + |bytes| <= from ==> Overwrite(mem, p, bytes)[from..to] == mem[from..to]
    ensures from == p && p + |bytes| <= to ==> Overwrite(mem, p, bytes)[from..to] == bytes + mem[p + |bytes|..to]
  {
    var mem' := Overwrite(mem, p, bytes);
    assert mem'[..p] == mem[..p] && mem'[p..p + |bytes|] == bytes && mem'[p + |bytes|..] == mem[p + |bytes|..];
    forall i | from <= i < to
      ensures mem'[i] == if p <= i < p + |bytes| then bytes[i - p] else mem[i]
    {
      if p + |bytes| <= i {
        assert mem'[i] == mem'[p + |bytes|..][i - p - |bytes|];
      }
    }
  }

  /** Writing within one slot changes the start of that slot and nothing else. */
  lemma OverwriteOneSlot(mem: seq<byte>, elemSize: nat, n: nat, k: nat, bytes: seq<byte>)
    requires |mem| == n * elemSize && k < n && |bytes| <= elemSize
    ensures k * elemSize + |bytes| <= |mem|
    ensures var slots := Slots(mem, elemSize, n);
            Slots(Overwrite(mem, k * elemSize, bytes), elemSize, n)
              == slots[k := bytes + slots[k][|bytes|..]]
  {
    SlotInBounds(k, n, elemSize);
    var mem' := Overwrite(mem, k * elemSize, bytes);
    var slots, slots' := Slots(mem, elemSize, n), Slots(mem', elemSize, n);
    forall j | 0 <= j < n
      ensures slots'[j] == if j == k then bytes + slots[k][|bytes|..] else slots[j]
    {
      SlotIs(mem, elemSize, n, j);
      SlotIs(mem', elemSize, n, j);
      OverwriteSlices(mem, k * elemSize, bytes, j * elemSize, j * elemSize + elemSize);
      if j < k {
        SlotInBounds(j, k, elemSize);
      } else if k < j {
        SlotInBounds(k, j, elemSize);
      }
    }
    assert slots' == slots[k := bytes + slots[k][|bytes|..]];
  }

  /** Writing a second piece right behind a first is writing both at once. */
  lemma OverwriteTwice(mem: seq<byte>, p: nat, a: seq<byte>, b: seq<byte>)
    requires p + |a| + |b| <= |mem|
    ensures Overwrite(Overwrite(mem, p, a), p + |a|, b) == Overwrite(mem, p, a + b)
  {
  }

  function Flatten(pieces: seq<seq<byte>>): seq<byte> {
    if pieces == [] then [] else Flatten(pieces[..|pieces| - 1]) + pieces[|pieces| - 1]
  }

  lemma FlattenStep(pieces: seq<seq<byte>>, i: nat)
    requires i < |pieces|
    ensures Flatten(pieces[..i + 1]) == Flatten(pieces[..i]) + pieces[i]
  {
    assert pieces[..i + 1][..i] == pieces[..i];
  }

  lemma {:induction false} FlattenPrefix(pieces: seq<seq<byte>>, i: nat)
    requires i <= |pieces|
    ensures |Flatten(pieces[..i])| <= |Flatten(pieces)|
    decreases |pieces| - i
  {
    if i < |pieces| {
      FlattenStep(pieces, i);
      FlattenPrefix(pieces, i + 1);
    } else {
      assert pieces[..i] == pieces;
    }
  }

  lemma UnrollFront<T>(slots: seq<T>, from: nat, n: nat)
    requires 0 < |slots| && 0 < n
    ensures Unroll(slots, from, n) == [slots[from % |slots|]] + Unroll(slots, from + 1, n - 1)
  {
  }

  class ShmBuffer {
    const capacity: nat
    const elemSize: nat
    const ring: Ringbuf
    const data: array<byte>

    ghost predicate Valid()
      reads this, ring
    {
      && ring.Valid()
      && 0 < capacity && 0 < elemSize
      && ring.capacity == capacity + 1
      && data.Length == (capacity + 1) * elemSize
    }

    /** The queue of elements, each as the bytes of its whole slot. */
    ghost function Contents(): seq<seq<byte>>
      requires Valid()
      reads this, ring, data
    {
      Unroll(Slots(data[..], elemSize, capacity + 1), ring.counters.consumed, ring.Count())
    }

    constructor (capacity: nat, elemSize: nat)
      requires 0 < capacity && 0 < elemSize
      ensures Valid() && this.capacity == capacity && this.elemSize == elemSize && Contents() == []
      ensures fresh(ring) && fresh(data)
    {
      this.capacity := capacity;
      this.elemSize := elemSize;
      ring := new Ringbuf(capacity + 1);
      data := new byte[(capacity + 1) * elemSize](_ => 0);
    }

    /** Where the element goes, or NULL when the buffer is full. */
    method StartPush() returns (mem: Option<nat>)
      requires Valid()
      modifies ring
      ensures Valid() && Contents() == old(Contents())
      ensures mem == None <==> |Contents()| == capacity
      ensures mem != None ==> 0 < ring.Granted() && mem.value == ring.head * elemSize
      ensures ring.counters == old(ring.counters).(seenConsumed := ring.counters.seenConsumed)
      ensures ring.head == old(ring.head)
    {
      var off, n := ring.WriteOffNowrap();
      mem := if n == 0 then None else Some(off * elemSize);
    }

    method PartialPush(prevPush: nat, elem: seq<byte>) returns (next: nat)
      requires prevPush + |elem| <= data.Length
      modifies data
      ensures data[..] == Overwrite(old(data[..]), prevPush, elem)
      ensures next == prevPush + |elem|
    {
      forall i | 0 <= i < |elem| {
        data[prevPush + i] := elem[i];
      }
      next := prevPush + |elem|;
    }

    /** The slot as it is now becomes the newest element. */
    method FinishPush()
      requires Valid() && 0 < ring.Granted()
      modifies ring
      ensures Valid() && old(ring.head) < capacity + 1
      ensures Contents() == old(Contents()) + [Slots(data[..], elemSize, capacity + 1)[old(ring.head)]]
    {
      ring.WriteFinish(1);
    }

    /** What a slot holds after an element of at most elemSize bytes was put there: the
        rest of the slot keeps its old bytes. */
    ghost function PushedSlot(elem: seq<byte>): seq<byte>
      requires Valid() && |elem| <= elemSize
      reads this, ring, data
    {
      elem + Slots(data[..], elemSize, capacity + 1)[ring.head][|elem|..]
    }

    /** The contract both ways of pushing share: they have the same effect on every byte. */
    method Push(elem: seq<byte>) returns (ok: bool)
      requires Valid() && |elem| <= elemSize
      modifies ring, data
      ensures Valid()
      ensures ok <==> |old(Contents())| < capacity
      ensures !ok ==> data[..] == old(data[..]) && Contents() == old(Contents())
      ensures ok ==> old(ring.head * elemSize) + |elem| <= data.Length
      ensures ok ==> data[..] == Overwrite(old(data[..]), old(ring.head * elemSize), elem)
      ensures ok ==> Contents() == old(Contents()) + [old(PushedSlot(elem))]
    {
      var dst := StartPush();
      if dst == None {
        return false;
      }
      OverwriteOneSlot(data[..], elemSize, capacity + 1, ring.head, elem);
      UnrollUnchanged(Slots(data[..], elemSize, capacity + 1), ring.counters.consumed, ring.Count(),
                      ring.counters.written, PushedSlot(elem));
      var next := PartialPush(dst.value, elem);
      FinishPush();
      return true;
    }

    /** Any number of partial_push calls, each where the last one ended. */
    method PushPieces(start: nat, pieces: seq<seq<byte>>)
      requires start + |Flatten(pieces)| <= data.Length
      modifies data
      ensures data[..] == Overwrite(old(data[..]), start, Flatten(pieces))
    {
      var at := start;
      for i := 0 to |pieces|
        invariant |Flatten(pieces[..i])| <= |Flatten(pieces)| && at == start + |Flatten(pieces[..i])|
        invariant data[..] == Overwrite(old(data[..]), start, Flatten(pieces[..i]))
      {
        FlattenStep(pieces, i);
        FlattenPrefix(pieces, i + 1);
        OverwriteTwice(old(data[..]), start, Flatten(pieces[..i]), pieces[i]);
        at := PartialPush(at, pieces[i]);
      }
      assert pieces[..|pieces|] == pieces;
    }

    /** start_push, a partial_push for every piece, finish_push. */
    method PiecewisePush(pieces: seq<seq<byte>>) returns (ok: bool)
      requires Valid() && |Flatten(pieces)| <= elemSize
      modifies ring, data
      ensures Valid()
      ensures ok <==> |old(Contents())| < capacity
      ensures !ok ==> data[..] == old(data[..]) && Contents() == old(Contents())
      ensures ok ==> old(ring.head * elemSize) + |Flatten(pieces)| <= data.Length
      ensures ok ==> data[..] == Overwrite(old(data[..]), old(ring.head * elemSize), Flatten(pieces))
      ensures ok ==> Contents() == old(Contents()) + [old(PushedSlot(Flatten(pieces)))]
    {
      var p := StartPush();
      if p == None {
        return false;
      }
      ghost var elem := Flatten(pieces);
      OverwriteOneSlot(data[..], elemSize, capacity + 1, ring.head, elem);
      UnrollUnchanged(Slots(data[..], elemSize, capacity + 1), ring.counters.consumed, ring.Count(),
                      ring.counters.written, PushedSlot(elem));
      PushPieces(p.value, pieces);
      FinishPush();
      return true;
    }

    /** The bytes of one slot. */
    method ReadSlot(k: nat) returns (bytes: seq<byte>)
      requires Valid() && k <= capacity
      ensures bytes == Slots(data[..], elemSize, capacity + 1)[k]
    {
      SlotIs(data[..], elemSize, capacity + 1, k);
      bytes := data[..][k * elemSize..k * elemSize + elemSize];
    }

    method Pop() returns (elem: Option<seq<byte>>)
      requires Valid()
      modifies ring
      ensures Valid()
      ensures elem == None <==> old(Contents()) == []
      ensures elem == None ==> Contents() == old(Contents())
      ensures elem != None ==> old(Contents()) == [elem.value] + Contents()
    {
      var tail, size := ring.ReadOffNowrap();
      if size == 0 {
        return None;
      }
      ghost var slots := Slots(data[..], elemSize, capacity + 1);
      ghost var from, n := ring.counters.consumed, ring.Count();
      UnrollFront(slots, from, n);
      var bytes := ReadSlot(tail);
      elem := Some(bytes);
      assert Contents() == [elem.value] + Unroll(slots, from + 1, n - 1);
      ring.Consume(1);
      assert Contents() == Unroll(slots, from + 1, n - 1);
    }
  }
}

/**
  The operations on the shared header (src/shmbuf/buffer.c:370-375 and 602-626,
  src/shmbuf/buffer-aux.c:107-122) and on the auxiliary buffers
  (src/shmbuf/buffer-aux.c:56-160, src/shmbuf/buffer.c:563-600) as they update
  their state in place. Each is proved against the function of SharedInfo or
  AuxPool that EndToEnd reasons about.
 */
module AuxBuffersModule {
  import opened Basics
  import opened SharedInfo
  import opened AuxPool

  class SharedHeader {
    var lastProcessed: nat
    var slots: seq<Range>
    var next: nat

    function View(): Info
      reads this
    {
      Info(lastProcessed, slots, next)
    }

    ghost predicate Valid()
      reads this
    {
      WellFormed(View())
    }

    constructor ()
      ensures Valid() && View() == INITIAL_INFO
    {
      lastProcessed := 0;
      slots := [Range(0, 0), Range(0, 0), Range(0, 0), Range(0, 0), Range(0, 0)];
      next := 0;
    }

    method SetLastProcessed(id: nat)
      requires Valid() && lastProcessed <= id
      modifies this
      ensures Valid() && View() == old(View()).(lastProcessed := id)
    {
      lastProcessed := id;
    }

    method NotifyDroppedRange(begin: nat, end: nat)
      requires Valid()
      modifies this
      ensures Valid() && View() == NotifyDropped(old(View()), begin, end)
    {
      var idx := next;
      var r := slots[idx];
      if r.begin == begin || r.end == Before(r.begin) {
        slots := slots[idx := r.(end := end)];
        return;
      }
      if idx + 1 == DROPPED_RANGES_NUM {
        idx := 0;
      } else {
        idx := idx + 1;
      }
      next := idx;
      slots := slots[idx := Range(begin, end)];
    }

    /** ab_was_dropped */
    method CoversDropped(first: nat, last: nat) returns (dropped: bool)
      requires Valid()
      ensures dropped <==> WasDropped(View(), first, last)
    {
      var i := 0;
      while i < DROPPED_RANGES_NUM
        invariant 0 <= i <= DROPPED_RANGES_NUM
        invariant forall j :: 0 <= j < i ==> !SlotCovers(slots[j], first, last)
      {
        var r := slots[i];
        if r.end != 0 && r.begin <= first && r.end >= last {
          return true;
        }
        i := i + 1;
      }
      return false;
    }
  }

  class AuxBuffers {
    const page: nat
    const header: SharedHeader
    var bufs: seq<Aux>
    var age: seq<nat>
    var cur: Option<nat>

    function View(): Pool
      reads this
    {
      Pool(bufs, age, cur)
    }

    ghost predicate Valid()
      reads this, header
    {
      0 < page && header.Valid() && PoolOk(View()) && CurrentInUse(View())
    }

    /** Within the loop the current buffer may be reset for a moment. */
    ghost predicate Valid'()
      reads this, header
    {
      0 < page && header.Valid() && PoolOk(View())
    }

    constructor (page: nat, header: SharedHeader)
      requires 0 < page && header.Valid()
      ensures Valid() && View() == EMPTY_POOL && this.header == header && this.page == page
    {
      this.page := page;
      this.header := header;
      bufs, age, cur := [], [], None;
    }

    method NewAuxBuffer(size: nat)
      requires 0 < page && PoolOk(View())
      modifies this
      ensures View() == NewBuffer(old(View()), size, page)
      ensures PoolOk(View()) && CurrentInUse(View()) && CurrentHasRoom(View(), size)
    {
      NewBufferKeepsOk(View(), size, page);
      var idx := |bufs|;
      var n := NewSize(size, page);
      bufs := bufs + [Aux(n, 0, 0, MAX64, false, seq(n, _ => 0))];
      age := age + [idx];
      cur := Some(idx);
    }

    /** The first part of the loop body: reset the buffer if its events are all
        processed or dropped. */
    method ResetIfReclaimable(i: nat)
      requires Valid'() && i < |age|
      modifies this
      ensures Valid'() && age == old(age)
      ensures View() == if Reclaimable(old(bufs[age[i]]), header.View()) then ResetAt(old(View()), i)
                        else old(View())
    {
      ResetKeepsOk(View(), i);
      var idx := age[i];
      var reclaim := bufs[idx].last <= header.lastProcessed;
      if !reclaim {
        reclaim := header.CoversDropped(bufs[idx].first, bufs[idx].last);
      }
      if reclaim {
        bufs := bufs[idx := bufs[idx].(reusable := true, head := 0, first := 0, last := MAX64)];
      }
    }

    /** The second part: make the buffer current and the youngest. */
    method TakeBuffer(i: nat)
      requires Valid'() && i < |age|
      modifies this
      ensures View() == TakeAt(old(View()), i)
    {
      var idx := age[i];
      age := age[..i] + age[i + 1..] + [idx];
      cur := Some(idx);
      bufs := bufs[idx := bufs[idx].(reusable := false)];
    }

    /** The loop over the age list. */
    method FindOrAdd(size: nat)
      requires Valid()
      modifies this
      ensures View() == Scan(old(View()), 0, size, header.View(), page)
    {
      ghost var info := header.View();
      var i := 0;
      while i < |age|
        invariant 0 <= i <= |age|
        invariant Valid'() && header.View() == info
        invariant Scan(old(View()), 0, size, info, page) == Scan(View(), i, size, info, page)
        decreases |age| - i
      {
        ResetIfReclaimable(i);
        if bufs[age[i]].reusable && bufs[age[i]].size >= size {
          TakeBuffer(i);
          return;
        }
        i := i + 1;
      }
      NewAuxBuffer(size);
    }

    /** writer_get_aux_buffer: afterwards the current buffer has room for `size`. */
    method GetAuxBuffer(size: nat)
      requires Valid()
      modifies this
      ensures Valid() && CurrentHasRoom(View(), size)
      ensures View() == GetAux(old(View()), size, header.View(), page)
      ensures old(CurrentHasRoom(View(), size)) ==> View() == old(View())
      ensures !old(CurrentHasRoom(View(), size)) ==>
                && (forall k :: FirstUsable(old(View()), 0, k, size, header.View()) ==>
                      Reused(old(View()), View(), 0, k, header.View()))
                && (NoneUsable(old(View()), 0, size, header.View()) ==> Added(old(View()), View(), 0, header.View()))
                && (|bufs| == |old(bufs)| + 1 <==> NoneUsable(old(View()), 0, size, header.View()))
    {
      GetAuxKeepsOk(View(), size, header.View(), page);
      if cur.Some? && bufs[cur.value].size - bufs[cur.value].head >= size {
        return;
      }
      GetAuxReuses(View(), size, header.View(), page);
      FindOrAdd(size);
    }

    /** The copy of _buffer_push_strn and the bookkeeping of buffer_push_strn. */
    method CopyIn(evid: nat, bytes: seq<byte>) returns (idx: nat, off: nat)
      requires PoolOk(View()) && CurrentHasRoom(View(), |bytes|)
      modifies this
      ensures View() == WriteString(old(View()), evid, bytes)
      ensures idx == old(cur.value) && off == old(bufs[cur.value].head)
      ensures |bufs| == |old(bufs)| && Holds(old(bufs)[idx], bufs[idx], evid, bytes)
      ensures forall i :: 0 <= i < |bufs| && i != idx ==> bufs[i] == old(bufs)[i]
    {
      WriteHolds(View(), evid, bytes);
      idx := cur.value;
      var a := bufs[idx];
      off := a.head;
      a := a.(data := a.data[..off] + bytes + a.data[off + |bytes|..], head := off + |bytes|);
      if a.first == 0 {
        a := a.(first := evid);
      }
      a := a.(last := evid);
      bufs := bufs[idx := a];
    }

    /** Where a stored string lies; the two halves of buffer_push_strn together. */
    method StoreBytes(evid: nat, bytes: seq<byte>) returns (idx: nat, off: nat)
      requires Valid() && 0 < evid && WrittenUpTo(View(), evid)
      modifies this
      ensures Valid() && WrittenUpTo(View(), evid)
      ensures View() == StoreString(old(View()), evid, bytes, header.View(), page)
      ensures Intact(View(), Pushed(evid, idx, off, bytes))
      ensures old(Addressable(View())) && |bytes| + 2 * page < HALF ==> Addressable(View())
    {
      StoreKeepsOk(View(), evid, bytes, header.View(), page);
      GetAuxBuffer(|bytes|);
      idx, off := CopyIn(evid, bytes);
    }

    /** The bytes lie behind the reference. */
    predicate PointsTo(elem: nat, bytes: seq<byte>)
      reads this
    {
      var idx, off := UnpackIdx(elem), UnpackOff(elem);
      && idx < |bufs|
      && off + |bytes| <= |bufs[idx].data|
      && bufs[idx].data[off..off + |bytes|] == bytes
    }

    /** buffer_push_strn: the packed reference leads back to the bytes. Event identifiers
        do not decrease from one call to the next. */
    method PushStrN(evid: nat, bytes: seq<byte>) returns (elem: nat)
      requires Valid() && 0 < evid && WrittenUpTo(View(), evid)
      requires Addressable(View()) && |bytes| + 2 * page < HALF
      modifies this
      ensures Valid() && WrittenUpTo(View(), evid) && Addressable(View())
      ensures View() == StoreString(old(View()), evid, bytes, header.View(), page)
      ensures |bufs| <= HALF ==>
                PointsTo(elem, bytes) && Intact(View(), Pushed(evid, UnpackIdx(elem), UnpackOff(elem), bytes))
    {
      var idx, off := StoreBytes(evid, bytes);
      PackRoundTrip(idx, off);
      elem := Pack(idx, off);
    }

    /** buffer_push_str: the packed reference leads read_str back to the string and the
        zero that ends it. */
    method PushStr(evid: nat, str: seq<byte>) returns (elem: nat)
      requires Valid() && 0 < evid && WrittenUpTo(View(), evid)
      requires Addressable(View()) && |str| + 1 + 2 * page < HALF
      modifies this
      ensures Valid() && WrittenUpTo(View(), evid) && Addressable(View())
      ensures View() == StoreString(old(View()), evid, str + [0], header.View(), page)
      ensures |bufs| <= HALF ==> PointsTo(elem, str + [0])
    {
      elem := PushStrN(evid, str + [0]);
    }
  }
}

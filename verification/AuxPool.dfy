/**
  The auxiliary buffers that hold the string payloads of events
  (src/shmbuf/buffer-aux.c:38-160, src/shmbuf/buffer.c:563-600), as functions on
  values. A buffer is named by its index `idx`, which is its position in `bufs`;
  the age list holds indices. AuxBuffers gives the operations as they update
  this state in place.
 */
module AuxPool {
  import opened Basics
  import opened RingIndex
  import opened SharedInfo

  type byte = x: nat | x < 256

  datatype Aux = Aux(size: nat, head: nat, first: nat, last: nat, reusable: bool, data: seq<byte>)

  datatype Pool = Pool(bufs: seq<Aux>, age: seq<nat>, cur: Option<nat>)

  /** sizeof(struct aux_buffer) */
  const HEADER: nat := 48

  const EMPTY_POOL := Pool([], [], None)

  // ---------------------------------------------------------------------
  // Sizes and references
  // ---------------------------------------------------------------------

  lemma RoundUp(x: nat, page: nat)
    requires 0 < page
    ensures x + page < (x / page + 2) * page <= x + 2 * page
  {
    assert x == (x / page) * page + x % page;
    assert (x / page + 2) * page == (x / page) * page + 2 * page;
  }

  /** The usable size of a new buffer: whole pages, and always more than asked for. */
  function NewSize(size: nat, page: nat): (n: nat)
    requires 0 < page
    ensures size + page < n <= size + 2 * page
    ensures (n + HEADER) % page == 0
  {
    RoundUp(size + HEADER, page);
    ModUnique(((size + HEADER) / page + 2) * page, (size + HEADER) / page + 2, 0, page);
    ((size + HEADER) / page + 2) * page - HEADER
  }

  const HALF: nat := 0x1_0000_0000

  /** off | (idx << 32) on 64 bits, for an offset below 2^32 as the code asserts. */
  function Pack(idx: nat, off: nat): nat
    requires off < HALF
  {
    (idx % HALF) * HALF + off
  }

  function UnpackIdx(elem: nat): nat {
    elem / HALF
  }

  function UnpackOff(elem: nat): nat {
    elem % HALF
  }

  /** A reference reads back as it was packed exactly while fewer than 2^32 buffers
      were ever created. */
  lemma {:induction false} PackRoundTrip(idx: nat, off: nat)
    requires off < HALF
    ensures UnpackOff(Pack(idx, off)) == off
    ensures UnpackIdx(Pack(idx, off)) == idx <==> idx < HALF
  {
  }

  // ---------------------------------------------------------------------
  // The operations
  // ---------------------------------------------------------------------

  predicate AuxOk(a: Aux) {
    && a.head <= a.size == |a.data|
    && (a.first == 0 ==> a.head == 0)
    && (a.reusable ==> a.first == 0)
    && (0 < a.first ==> a.first <= a.last)
  }

  predicate IsPermutation(age: seq<nat>, n: nat) {
    && |age| == n
    && (forall i :: 0 <= i < n ==> age[i] < n)
    && (forall i, j :: 0 <= i < j < n ==> age[i] != age[j])
  }

  /** The age list is a permutation of all buffers, the current one last. */
  predicate PoolOk(p: Pool) {
    && (forall i :: 0 <= i < |p.bufs| ==> AuxOk(p.bufs[i]))
    && IsPermutation(p.age, |p.bufs|)
    && (p.cur.None? <==> p.bufs == [])
    && (p.cur.Some? ==> p.cur.value == p.age[|p.age| - 1])
  }

  predicate CurrentInUse(p: Pool)
    requires PoolOk(p)
  {
    p.cur.Some? ==> !p.bufs[p.cur.value].reusable
  }

  function FreeSpace(a: Aux): nat
    requires AuxOk(a)
  {
    a.size - a.head
  }

  function NewBuffer(p: Pool, size: nat, page: nat): Pool
    requires 0 < page
  {
    var n := NewSize(size, page);
    Pool(p.bufs + [Aux(n, 0, 0, MAX64, false, seq(n, _ => 0))], p.age + [|p.bufs|], Some(|p.bufs|))
  }

  predicate Reclaimable(a: Aux, info: Info) {
    a.last <= info.lastProcessed || WasDropped(info, a.first, a.last)
  }

  function Reset(a: Aux): Aux {
    a.(reusable := true, head := 0, first := 0, last := MAX64)
  }

  /** Reset the i-th oldest buffer. */
  function ResetAt(p: Pool, i: nat): Pool
    requires PoolOk(p) && i < |p.age|
  {
    p.(bufs := p.bufs[p.age[i] := Reset(p.bufs[p.age[i]])])
  }

  lemma ResetKeepsOk(p: Pool, i: nat)
    requires PoolOk(p) && i < |p.age|
    ensures PoolOk(ResetAt(p, i))
  {
  }

  predicate Fits(a: Aux, size: nat) {
    a.reusable && a.size >= size
  }

  /** Move the i-th oldest buffer to the end of the age list and make it current. */
  function TakeAt(p: Pool, i: nat): Pool
    requires PoolOk(p) && i < |p.age|
  {
    var idx := p.age[i];
    Pool(p.bufs[idx := p.bufs[idx].(reusable := false)], p.age[..i] + p.age[i + 1..] + [idx], Some(idx))
  }

  /** The loop of writer_get_aux_buffer from position i of the age list on. */
  function Scan(p: Pool, i: nat, size: nat, info: Info, page: nat): Pool
    requires PoolOk(p) && i <= |p.age| && 0 < page
    decreases |p.age| - i
  {
    if i == |p.age| then NewBuffer(p, size, page)
    else
      var p1 := if Reclaimable(p.bufs[p.age[i]], info) then ResetAt(p, i) else p;
      ResetKeepsOk(p, i);
      if Fits(p1.bufs[p.age[i]], size) then TakeAt(p1, i) else Scan(p1, i + 1, size, info, page)
  }

  predicate CurrentHasRoom(p: Pool, size: nat)
    requires PoolOk(p)
  {
    p.cur.Some? && FreeSpace(p.bufs[p.cur.value]) >= size
  }

  function GetAux(p: Pool, size: nat, info: Info, page: nat): Pool
    requires PoolOk(p) && 0 < page
  {
    if CurrentHasRoom(p, size) then p else Scan(p, 0, size, info, page)
  }

  /** Copy the bytes into the current buffer and note the event they belong to. */
  function WriteString(p: Pool, evid: nat, bytes: seq<byte>): Pool
    requires PoolOk(p) && CurrentHasRoom(p, |bytes|)
  {
    var a := p.bufs[p.cur.value];
    p.(bufs := p.bufs[p.cur.value := Aux(a.size, a.head + |bytes|,
                                        if a.first == 0 then evid else a.first, evid, a.reusable,
                                        a.data[..a.head] + bytes + a.data[a.head + |bytes|..])])
  }

  // ---------------------------------------------------------------------
  // What they keep
  // ---------------------------------------------------------------------

  lemma NewBufferKeepsOk(p: Pool, size: nat, page: nat)
    requires PoolOk(p) && 0 < page
    ensures PoolOk(NewBuffer(p, size, page)) && CurrentHasRoom(NewBuffer(p, size, page), size)
    ensures CurrentInUse(NewBuffer(p, size, page))
  {
  }

  lemma TakeKeepsOk(p: Pool, i: nat, size: nat)
    requires PoolOk(p) && i < |p.age| && Fits(p.bufs[p.age[i]], size)
    ensures PoolOk(TakeAt(p, i)) && CurrentHasRoom(TakeAt(p, i), size)
    ensures CurrentInUse(TakeAt(p, i))
  {
  }

  lemma {:induction false} ScanKeepsOk(p: Pool, i: nat, size: nat, info: Info, page: nat)
    requires PoolOk(p) && i <= |p.age| && 0 < page
    ensures PoolOk(Scan(p, i, size, info, page))
    ensures CurrentHasRoom(Scan(p, i, size, info, page), size)
    ensures CurrentInUse(Scan(p, i, size, info, page))
    decreases |p.age| - i
  {
    if i == |p.age| {
      NewBufferKeepsOk(p, size, page);
    } else {
      var p1 := if Reclaimable(p.bufs[p.age[i]], info) then ResetAt(p, i) else p;
      ResetKeepsOk(p, i);
      if Fits(p1.bufs[p.age[i]], size) {
        TakeKeepsOk(p1, i, size);
      } else {
        ScanKeepsOk(p1, i + 1, size, info, page);
      }
    }
  }

  /** The buffer handed out is current, last in age, and has room, so the copy of
      the string stays in bounds. */
  lemma GetAuxKeepsOk(p: Pool, size: nat, info: Info, page: nat)
    requires PoolOk(p) && CurrentInUse(p) && 0 < page
    ensures PoolOk(GetAux(p, size, info, page)) && CurrentInUse(GetAux(p, size, info, page))
    ensures CurrentHasRoom(GetAux(p, size, info, page), size)
  {
    if !CurrentHasRoom(p, size) {
      ScanKeepsOk(p, 0, size, info, page);
    }
  }

  // ---------------------------------------------------------------------
  // Which buffer is reused
  // ---------------------------------------------------------------------

  /** All events of the buffer are processed, or lie in one recorded dropped range. */
  predicate Spent(a: Aux, info: Info) {
    || a.last <= info.lastProcessed
    || exists j :: 0 <= j < |info.slots| && info.slots[j].end != 0
                   && info.slots[j].begin <= a.first && a.last <= info.slots[j].end
  }

  predicate Usable(a: Aux, size: nat, info: Info) {
    a.size >= size && (a.reusable || Spent(a, info))
  }

  /** The oldest buffer, from position i of the age list on, that can be used. */
  predicate FirstUsable(p: Pool, i: nat, k: nat, size: nat, info: Info)
    requires PoolOk(p)
  {
    && i <= k < |p.age| && Usable(p.bufs[p.age[k]], size, info)
    && forall j :: i <= j < k ==> !Usable(p.bufs[p.age[j]], size, info)
  }

  predicate NoneUsable(p: Pool, i: nat, size: nat, info: Info)
    requires PoolOk(p)
  {
    forall j :: i <= j < |p.age| ==> !Usable(p.bufs[p.age[j]], size, info)
  }

  /** What a spent buffer looks like once it was come across, and any other. */
  predicate Passed(a: Aux, a': Aux, info: Info) {
    a' == if Spent(a, info) then Aux(a.size, 0, 0, MAX64, true, a.data) else a
  }

  /** The k-th oldest buffer was emptied and is current, in use and youngest. */
  predicate Reused(p: Pool, p': Pool, i: nat, k: nat, info: Info)
    requires PoolOk(p) && i <= k < |p.age|
  {
    var idx := p.age[k];
    && |p'.bufs| == |p.bufs|
    && p'.age == p.age[..k] + p.age[k + 1..] + [idx] && p'.cur == Some(idx)
    && p'.bufs[idx].head == 0 && p'.bufs[idx].first == 0 && !p'.bufs[idx].reusable
    && p'.bufs[idx].size == p.bufs[idx].size && p'.bufs[idx].data == p.bufs[idx].data
    && (forall j :: i <= j < k ==> Passed(p.bufs[p.age[j]], p'.bufs[p.age[j]], info))
    && (forall j :: 0 <= j < |p.age| && (j < i || k < j) ==> p'.bufs[p.age[j]] == p.bufs[p.age[j]])
  }

  /** One buffer was added, empty, current and youngest. */
  predicate Added(p: Pool, p': Pool, i: nat, info: Info)
    requires PoolOk(p)
  {
    var n := |p.bufs|;
    && |p'.bufs| == n + 1 && p'.age == p.age + [n] && p'.cur == Some(n)
    && p'.bufs[n].head == 0 && p'.bufs[n].first == 0 && !p'.bufs[n].reusable
    && (forall j :: i <= j < n ==> Passed(p.bufs[p.age[j]], p'.bufs[p.age[j]], info))
    && (forall j :: 0 <= j < i && j < n ==> p'.bufs[p.age[j]] == p.bufs[p.age[j]])
  }

  /** The loop passes by buffer i: it is emptied if it is spent, and the others are left. */
  lemma PassOne(p: Pool, i: nat, info: Info) returns (p1: Pool)
    requires PoolOk(p) && i < |p.age|
    ensures p1 == if Reclaimable(p.bufs[p.age[i]], info) then ResetAt(p, i) else p
    ensures PoolOk(p1) && p1.age == p.age && |p1.bufs| == |p.bufs| && p1.cur == p.cur
    ensures Passed(p.bufs[p.age[i]], p1.bufs[p.age[i]], info)
    ensures forall j :: 0 <= j < |p.age| && j != i ==> p1.bufs[p.age[j]] == p.bufs[p.age[j]]
  {
    ResetKeepsOk(p, i);
    p1 := if Reclaimable(p.bufs[p.age[i]], info) then ResetAt(p, i) else p;
  }

  lemma {:induction false} ScanReuses(p: Pool, i: nat, k: nat, size: nat, info: Info, page: nat)
    requires PoolOk(p) && 0 < page && FirstUsable(p, i, k, size, info)
    ensures Reused(p, Scan(p, i, size, info, page), i, k, info)
    decreases |p.age| - i
  {
    var p1 := PassOne(p, i, info);
    if i < k {
      ScanReuses(p1, i + 1, k, size, info, page);
    }
  }

  lemma {:induction false} ScanAdds(p: Pool, i: nat, size: nat, info: Info, page: nat)
    requires PoolOk(p) && i <= |p.age| && 0 < page && NoneUsable(p, i, size, info)
    ensures Added(p, Scan(p, i, size, info, page), i, info)
    decreases |p.age| - i
  {
    if i < |p.age| {
      var p1 := PassOne(p, i, info);
      ScanAdds(p1, i + 1, size, info, page);
    }
  }

  lemma {:induction false} SomeFirst(p: Pool, i: nat, size: nat, info: Info) returns (k: nat)
    requires PoolOk(p) && !NoneUsable(p, i, size, info)
    ensures FirstUsable(p, i, k, size, info)
    decreases |p.age| - i
  {
    var j :| i <= j < |p.age| && Usable(p.bufs[p.age[j]], size, info);
    if Usable(p.bufs[p.age[i]], size, info) {
      k := i;
    } else {
      k := SomeFirst(p, i + 1, size, info);
    }
  }

  /** When the current buffer lacks room, the oldest buffer that is large enough and
      free, processed or dropped is reused; a new one is made if and only if there is
      none. */
  lemma GetAuxReuses(p: Pool, size: nat, info: Info, page: nat)
    requires PoolOk(p) && 0 < page && !CurrentHasRoom(p, size)
    ensures var p' := GetAux(p, size, info, page);
            && (forall k :: FirstUsable(p, 0, k, size, info) ==> Reused(p, p', 0, k, info))
            && (NoneUsable(p, 0, size, info) ==> Added(p, p', 0, info))
            && (|p'.bufs| == |p.bufs| + 1 <==> NoneUsable(p, 0, size, info))
            && (|p'.bufs| == |p.bufs| <==> !NoneUsable(p, 0, size, info))
  {
    forall k | FirstUsable(p, 0, k, size, info)
      ensures Reused(p, GetAux(p, size, info, page), 0, k, info)
    {
      ScanReuses(p, 0, k, size, info, page);
    }
    if NoneUsable(p, 0, size, info) {
      ScanAdds(p, 0, size, info, page);
    } else {
      var k := SomeFirst(p, 0, size, info);
      ScanReuses(p, 0, k, size, info, page);
    }
  }

  /** Every buffer's strings belong to events up to `newest`. */
  predicate WrittenUpTo(p: Pool, newest: nat) {
    forall i :: 0 <= i < |p.bufs| && 0 < p.bufs[i].first ==> p.bufs[i].last <= newest
  }

  /** Every offset of every buffer fits the 32 bits a reference has for it. */
  predicate Addressable(p: Pool) {
    forall i :: 0 <= i < |p.bufs| ==> p.bufs[i].size < HALF
  }

  /** What storing bytes for an event makes of a buffer: they lie behind what was there,
      and the buffer's events reach from the first one stored since it was empty to this. */
  predicate Holds(a: Aux, a': Aux, evid: nat, bytes: seq<byte>) {
    && a'.size == a.size && a'.reusable == a.reusable && |a'.data| == |a.data|
    && a'.head == a.head + |bytes| <= |a.data|
    && a'.data[..a.head] == a.data[..a.head]
    && a'.data[a.head..a'.head] == bytes
    && a'.data[a'.head..] == a.data[a'.head..]
    && a'.first == (if a.first == 0 then evid else a.first) && a'.last == evid
  }

  lemma WriteHolds(p: Pool, evid: nat, bytes: seq<byte>)
    requires PoolOk(p) && CurrentHasRoom(p, |bytes|)
    ensures var p' := WriteString(p, evid, bytes);
            && |p'.bufs| == |p.bufs| && p'.age == p.age && p'.cur == p.cur
            && Holds(p.bufs[p.cur.value], p'.bufs[p.cur.value], evid, bytes)
            && forall i :: 0 <= i < |p.bufs| && i != p.cur.value ==> p'.bufs[i] == p.bufs[i]
  {
  }

  lemma WriteKeepsOk(p: Pool, evid: nat, bytes: seq<byte>)
    requires PoolOk(p) && CurrentHasRoom(p, |bytes|) && !p.bufs[p.cur.value].reusable
    requires WrittenUpTo(p, evid) && 0 < evid
    ensures PoolOk(WriteString(p, evid, bytes)) && WrittenUpTo(WriteString(p, evid, bytes), evid)
  {
  }

  lemma {:induction false} ScanKeepsWritten(p: Pool, i: nat, size: nat, info: Info, page: nat, newest: nat)
    requires PoolOk(p) && i <= |p.age| && 0 < page && WrittenUpTo(p, newest)
    ensures WrittenUpTo(Scan(p, i, size, info, page), newest)
    ensures Addressable(p) && size + 2 * page < HALF ==> Addressable(Scan(p, i, size, info, page))
    decreases |p.age| - i
  {
    if i < |p.age| {
      var p1 := if Reclaimable(p.bufs[p.age[i]], info) then ResetAt(p, i) else p;
      ResetKeepsOk(p, i);
      if !Fits(p1.bufs[p.age[i]], size) {
        ScanKeepsWritten(p1, i + 1, size, info, page, newest);
      }
    }
  }

  // ---------------------------------------------------------------------
  // Strings
  // ---------------------------------------------------------------------

  /** A string that was pushed for event `evid`, and where. */
  datatype Pushed = Pushed(evid: nat, idx: nat, off: nat, bytes: seq<byte>)

  /** The string still reads back: nothing overwrote it, and its buffer knows that it
      holds a string of that event. */
  predicate Intact(p: Pool, rec: Pushed) {
    && rec.idx < |p.bufs|
    && var a := p.bufs[rec.idx];
       && 0 < a.first <= rec.evid <= a.last
       && rec.off + |rec.bytes| <= a.head <= |a.data|
       && a.data[rec.off..rec.off + |rec.bytes|] == rec.bytes
  }

  /** Only a reset of its own buffer can hurt a string. */
  lemma ResetSparesOthers(p: Pool, i: nat, rec: Pushed)
    requires PoolOk(p) && i < |p.age| && Intact(p, rec) && rec.idx != p.age[i]
    ensures Intact(ResetAt(p, i), rec)
  {
  }

  lemma NewBufferSpares(p: Pool, size: nat, page: nat, rec: Pushed)
    requires 0 < page && Intact(p, rec)
    ensures Intact(NewBuffer(p, size, page), rec)
  {
  }

  lemma TakeSpares(p: Pool, i: nat, rec: Pushed)
    requires PoolOk(p) && i < |p.age| && Intact(p, rec)
    ensures Intact(TakeAt(p, i), rec)
  {
  }

  lemma WriteSpares(p: Pool, evid: nat, bytes: seq<byte>, rec: Pushed)
    requires PoolOk(p) && CurrentHasRoom(p, |bytes|) && WrittenUpTo(p, evid)
    requires Intact(p, rec)
    ensures Intact(WriteString(p, evid, bytes), rec)
  {
    var a := p.bufs[p.cur.value];
    var a' := WriteString(p, evid, bytes).bufs[p.cur.value];
    if rec.idx == p.cur.value {
      assert a'.data[..a.head] == a.data[..a.head];
      assert a'.data[rec.off..rec.off + |rec.bytes|] == a'.data[..a.head][rec.off..rec.off + |rec.bytes|];
      assert a.data[rec.off..rec.off + |rec.bytes|] == a.data[..a.head][rec.off..rec.off + |rec.bytes|];
    }
  }

  /** A string reads back right after it was pushed. */
  lemma WriteThenRead(p: Pool, evid: nat, bytes: seq<byte>)
    requires PoolOk(p) && CurrentHasRoom(p, |bytes|) && WrittenUpTo(p, evid) && 0 < evid
    ensures Intact(WriteString(p, evid, bytes),
                   Pushed(evid, p.cur.value, p.bufs[p.cur.value].head, bytes))
  {
  }

  // ---------------------------------------------------------------------
  // Storing a string
  // ---------------------------------------------------------------------

  /** _buffer_push_strn and buffer_push_strn together. */
  function StoreString(p: Pool, evid: nat, bytes: seq<byte>, info: Info, page: nat): Pool
    requires PoolOk(p) && CurrentInUse(p) && 0 < page
  {
    GetAuxKeepsOk(p, |bytes|, info, page);
    WriteString(GetAux(p, |bytes|, info, page), evid, bytes)
  }

  /** Storing a string keeps the pool in order, and the string reads back. */
  lemma StoreKeepsOk(p: Pool, evid: nat, bytes: seq<byte>, info: Info, page: nat)
    requires PoolOk(p) && CurrentInUse(p) && 0 < page && WrittenUpTo(p, evid) && 0 < evid
    ensures var q := GetAux(p, |bytes|, info, page);
            var p' := StoreString(p, evid, bytes, info, page);
            && PoolOk(q) && CurrentHasRoom(q, |bytes|)
            && PoolOk(p') && CurrentInUse(p') && WrittenUpTo(p', evid)
            && Intact(p', Pushed(evid, q.cur.value, q.bufs[q.cur.value].head, bytes))
            && (Addressable(p) && |bytes| + 2 * page < HALF ==> Addressable(p'))
  {
    GetAuxKeepsOk(p, |bytes|, info, page);
    var q := GetAux(p, |bytes|, info, page);
    if !CurrentHasRoom(p, |bytes|) {
      ScanKeepsWritten(p, 0, |bytes|, info, page, evid);
    }
    WriteKeepsOk(q, evid, bytes);
    WriteThenRead(q, evid, bytes);
  }
}

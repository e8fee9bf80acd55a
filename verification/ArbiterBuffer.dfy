/**
  The arbiter buffer (src/core/arbiter.c) as an object: the consumer's drop
  operations with their search over the wrapped queue, and the fetcher's decision
  whether to drop or forward an event. Each method here runs without the other
  thread moving; Pipeline covers the interleavings.
 */
module ArbiterBufferModule {
  import opened Basics
  import opened EventLog
  import opened SharedInfo
  import opened AuxBuffersModule
  import opened ParQueueModule
  import opened ArbiterSpec
  import P = Pipeline

  function CeilLog2(n: nat): nat {
    if n <= 1 then 0 else 1 + CeilLog2((n + 1) / 2)
  }

  lemma {:induction false} CeilLog2Monotone(m: nat, n: nat)
    requires m <= n
    ensures CeilLog2(m) <= CeilLog2(n)
  {
    if 1 < m {
      CeilLog2Monotone((m + 1) / 2, (n + 1) / 2);
    }
  }

  /** The search takes no more iterations than there are elements. */
  lemma {:induction false} CeilLog2Below(n: nat)
    ensures CeilLog2(n) <= n
    ensures 0 < n ==> CeilLog2(n) < n
  {
    if 1 < n {
      CeilLog2Below((n + 1) / 2);
    }
  }

  lemma CeilLog2Halves(width: nat, half: nat)
    requires 0 < half < width && half <= (width + 1) / 2
    ensures 1 + CeilLog2(half) <= CeilLog2(width)
  {
    CeilLog2Monotone(half, (width + 1) / 2);
  }

  predicate SplitsAt(entries: seq<Entry>, bound: nat, k: nat) {
    && k <= |entries|
    && (0 < k ==> entries[k - 1].id <= bound)
    && (1 < k ==> entries[k - 2].id != bound)
    && (k < |entries| ==> bound < entries[k].id || (0 < k && entries[k - 1].id == bound))
  }

  /** A position that splits ascending entries at the bound is the count to remove. */
  lemma SplitIsOlderCount(entries: seq<Entry>, bound: nat, k: nat)
    requires AscendingButLast(entries) && SplitsAt(entries, bound, k)
    ensures OlderCount(entries, bound) == k
  {
    if 0 < k {
      OlderCountExact(entries, bound, k - 1);
    }
    if k < |entries| {
      OlderCountExact(entries, bound, k);
    }
  }

  /** A first part that reaches the bound decides the count on its own. */
  lemma {:induction false} FirstPartDecides(a: seq<Entry>, b: seq<Entry>, bound: nat)
    requires a != [] && bound <= a[|a| - 1].id
    ensures OlderCount(a + b, bound) == OlderCount(a, bound)
  {
    if 1 < |a| {
      assert (a + b)[1..] == a[1..] + b;
      FirstPartDecides(a[1..], b, bound);
    }
  }

  /** A first part that lies below the bound goes as a whole. */
  lemma {:induction false} FirstPartGoes(a: seq<Entry>, b: seq<Entry>, bound: nat)
    requires forall i :: 0 <= i < |a| ==> a[i].id < bound
    ensures OlderCount(a + b, bound) == |a| + OlderCount(b, bound)
  {
    if a == [] {
      assert a + b == b;
    } else {
      assert (a + b)[1..] == a[1..] + b;
      FirstPartGoes(a[1..], b, bound);
    }
  }

  lemma PartsAscend(a: seq<Entry>, b: seq<Entry>)
    requires AscendingButLast(a + b)
    ensures AscendingButLast(a) && AscendingButLast(b)
    ensures forall i :: 0 <= i < |a| ==> a[i].id <= a[|a| - 1].id
  {
    var all := a + b;
    assert forall i :: 0 <= i < |a| ==> all[i] == a[i];
    assert forall i :: 0 <= i < |b| ==> all[|a| + i] == b[i];
  }

  lemma RestAscends(entries: seq<Entry>, k: nat)
    requires AscendingButLast(entries) && 0 < k <= |entries|
    ensures AscendingButLast(entries[k..])
    ensures forall i :: 0 <= i < |entries[k..]| ==> entries[k - 1].id <= entries[k..][i].id
  {
    PartsAscend(entries[..k], entries[k..]) by { assert entries[..k] + entries[k..] == entries; }
  }

  lemma FirstIsLowest(entries: seq<Entry>, bound: nat)
    requires AscendingButLast(entries) && (entries != [] ==> bound <= entries[0].id)
    ensures forall i :: 0 <= i < |entries| ==> bound <= entries[i].id
  {
  }

  lemma OlderRestAscends(entries: seq<Entry>, bound: nat)
    requires AscendingButLast(entries) && 0 < OlderCount(entries, bound)
    ensures entries[0].id <= bound
    ensures var rest := entries[OlderCount(entries, bound)..];
            AscendingButLast(rest) && forall i :: 0 <= i < |rest| ==> bound <= rest[i].id
  {
    var k := OlderCount(entries, bound);
    RestAscends(entries, k);
    var rest := entries[k..];
    if rest != [] {
      assert rest[0] == entries[k] && entries[k - 1].id <= rest[0].id;
    }
    FirstIsLowest(rest, bound);
  }

  /** What the search knows: everything below `bot` is older than `id`, the entry at
      `bot` is not newer (unless nothing was compared there yet), and everything above
      `top` is newer. */
  predicate Narrowed(events: seq<Entry>, id: nat, bot: nat, top: nat) {
    && bot <= top < |events|
    && (0 < bot ==> events[bot].id <= id && events[bot - 1].id < id)
    && (top + 1 < |events| ==> id < events[top + 1].id)
  }

  /** One iteration: the pivot is compared, and the range halves. */
  method Narrow(events: seq<Entry>, id: nat, bot: nat, top: nat) returns (bot': nat, top': nat)
    requires Narrowed(events, id, bot, top) && AscendingButLast(events)
    requires bot == top ==> |events| == 1
    ensures bot' <= top' < |events|
    ensures bot' == top' ==> SplitsAt(events, id, if id < events[top'].id then top' else top' + 1)
    ensures bot' < top' ==>
              Narrowed(events, id, bot', top') && top' - bot' < top - bot && top' - bot' <= (top - bot + 1) / 2
  {
    bot', top' := bot, top;
    var pivot := (bot + top) / 2;
    if id < events[pivot].id {
      top' := if pivot == 0 then 0 else pivot - 1;
    } else if bot == pivot {
      if events[pivot].id == id {
        top' := bot;
      } else {
        bot' := top;
      }
    } else {
      bot' := pivot;
    }
  }

  /** The binary search of drop_older_than in one of the two runs of the queue: how
      many of its entries are to be dropped, and after how many iterations. */
  method FindOlder(events: seq<Entry>, id: nat) returns (k: nat, steps: nat)
    requires events != [] && AscendingButLast(events)
    ensures k == OlderCount(events, id)
    ensures steps <= 1 + CeilLog2(|events| - 1) <= |events|
  {
    var bot: nat, top: nat := 0, |events| - 1;
    steps := 0;
    CeilLog2Below(|events| - 1);
    while true
      invariant Narrowed(events, id, bot, top)
      invariant bot == top ==> |events| == 1
      invariant steps + CeilLog2(top - bot) <= CeilLog2(|events| - 1)
      decreases top - bot
    {
      steps := steps + 1;
      ghost var width := top - bot;
      bot, top := Narrow(events, id, bot, top);
      if top == bot {
        k := if id < events[top].id then top else top + 1;
        SplitIsOlderCount(events, id, k);
        return;
      }
      CeilLog2Halves(width, top - bot);
    }
  }

  /** Looks into the run that can hold the bound, and searches there. */
  method SearchParts(part1: seq<Entry>, part2: seq<Entry>, id: nat) returns (k: nat)
    requires part1 != [] && AscendingButLast(part1 + part2)
    ensures k == OlderCount(part1 + part2, id) && k <= |part1| + |part2|
  {
    PartsAscend(part1, part2);
    if id <= part1[|part1| - 1].id {
      FirstPartDecides(part1, part2, id);
      var steps;
      k, steps := FindOlder(part1, id);
    } else if part2 != [] {
      FirstPartGoes(part1, part2, id);
      var steps;
      k, steps := FindOlder(part2, id);
      k := |part1| + k;
    } else {
      FirstPartGoes(part1, part2, id);
      k := |part1|;
    }
  }

  class ArbiterBuffer {
    const queue: ParQueue<Entry>
    const header: SharedHeader
    var dropSpaceThreshold: nat
    var droppedNum: nat
    var totalDroppedTimes: nat
    var totalDroppedNum: nat
    var dropBeginId: nat
    var holeNum: nat       // the counter of the hole event being built
    var consumed: nat      // events consumed from the shared-memory ring

    ghost predicate Valid()
      reads this, queue, queue.ringbuf, queue.data, header
    {
      && queue.Valid() && queue.capacity < SIZE_MAX
      && header.Valid()
      && 1 <= dropSpaceThreshold < queue.capacity
    }

    ghost function Contents(): seq<Entry>
      requires Valid()
      reads this, queue, queue.ringbuf, queue.data, header
    {
      queue.Contents()
    }

    ghost function View(): Arbiter
      requires Valid()
      reads this, queue, queue.ringbuf, queue.data, header
    {
      Arbiter(queue.capacity, dropSpaceThreshold, Contents(), droppedNum, dropBeginId, holeNum,
              totalDroppedNum, totalDroppedTimes, header.View(), consumed)
    }

    ghost predicate Ordered()
      requires Valid()
      reads this, queue, queue.ringbuf, queue.data, header
    {
      InOrder(View())
    }

    constructor (capacity: nat, header: SharedHeader)
      requires 3 <= capacity < SIZE_MAX && header.Valid()
      ensures Valid() && this.header == header && fresh(queue) && fresh(queue.ringbuf) && fresh(queue.data)
      ensures View() == Arbiter(capacity, 1, [], 0, 0, 0, 0, 0, header.View(), 0)
    {
      queue := new ParQueue<Entry>(capacity);
      this.header := header;
      dropSpaceThreshold := 1;
      droppedNum, totalDroppedTimes, totalDroppedNum, dropBeginId, holeNum, consumed := 0, 0, 0, 0, 0, 0;
    }

    /** The threshold stays below the capacity, as the code asserts. */
    method SetDropSpaceThreshold(thr: nat) returns (before: nat)
      requires Valid() && 1 <= thr < queue.capacity
      modifies this
      ensures Valid() && before == old(dropSpaceThreshold)
      ensures View() == old(View()).(thr := thr)
    {
      before := dropSpaceThreshold;
      dropSpaceThreshold := thr;
    }

    // -------------------------------------------------------------------
    // The fetcher's decision
    // -------------------------------------------------------------------

    /** The result of the push is not looked at: without room the hole is lost, and the
        totals and the range are updated all the same. */
    method PushDroppedEvent(notifyId: nat)
      requires Valid()
      modifies this, queue.ringbuf, queue.data, header
      ensures Valid()
      ensures View() == old(View()).(buffered := if |old(Contents())| < queue.capacity
                                                 then old(Contents()) + [Hole(notifyId, holeNum)]
                                                 else old(Contents()),
                                     totalNum := old(totalDroppedNum) + old(droppedNum),
                                     totalTimes := old(totalDroppedTimes) + 1,
                                     info := NotifyDropped(old(header.View()), dropBeginId, notifyId))
    {
      var ok := queue.Push(Hole(notifyId, holeNum));
      totalDroppedNum := totalDroppedNum + droppedNum;
      totalDroppedTimes := totalDroppedTimes + 1;
      header.NotifyDroppedRange(dropBeginId, notifyId);
    }

    method StartDropping(id: nat)
      requires Valid() && droppedNum == 0
      modifies this
      ensures Valid()
      ensures View() == old(View()).(dropBegin := id, droppedNum := 1, holeNum := 1, consumed := old(consumed) + 1)
    {
      dropBeginId := id;
      droppedNum := droppedNum + 1;
      holeNum := 0;
      holeNum := holeNum + 1;
      consumed := consumed + 1;
    }

    method ContinueDropping(id: nat)
      requires Valid()
      modifies this, header
      ensures Valid()
      ensures View() == old(View()).(droppedNum := old(droppedNum) + 1, holeNum := old(holeNum) + 1,
                                     consumed := old(consumed) + 1,
                                     info := if (old(droppedNum) + 1) % 10000 == 0
                                             then NotifyDropped(old(header.View()), dropBeginId, Before(id))
                                             else old(header.View()))
    {
      droppedNum := droppedNum + 1;
      holeNum := holeNum + 1;
      if droppedNum % 10000 == 0 {
        header.NotifyDroppedRange(dropBeginId, Before(id));
      }
      consumed := consumed + 1;
    }

    /** Whether event `id` is dropped rather than forwarded, and what that leaves behind. */
    method HandleDroppingEvent(id: nat) returns (drop: bool)
      requires Valid()
      modifies this, queue.ringbuf, queue.data, header
      ensures Valid()
      ensures drop == Drops(old(View()))
      ensures View() == Handle(old(View()), id)
      ensures old(droppedNum) == 0 ==> (drop <==> |old(Contents())| == queue.capacity)
      ensures old(droppedNum) > 0 ==> (drop <==> queue.capacity <= |old(Contents())| + dropSpaceThreshold)
      ensures drop ==>
                && Contents() == old(Contents()) && consumed == old(consumed) + 1
                && droppedNum == old(droppedNum) + 1 && holeNum == (if old(droppedNum) == 0 then 0 else old(holeNum)) + 1
                && dropBeginId == if old(droppedNum) == 0 then id else old(dropBeginId)
      ensures !drop ==>
                && consumed == old(consumed)
                && Contents() == old(Contents()) + if old(droppedNum) == 0 then [] else [Hole(Before(id), old(holeNum))]
      ensures !drop ==> |Contents()| < queue.capacity && droppedNum == 0
    {
      var free := queue.FreeSpace();
      if droppedNum > 0 {
        if free > dropSpaceThreshold {
          PushDroppedEvent(Before(id));
          droppedNum := 0;
          return false;
        }
        ContinueDropping(id);
        return true;
      }
      if free == 0 {
        StartDropping(id);
        return true;
      }
      return false;
    }

    /** The event is copied to the slot behind the write pointer, which is never NULL here,
        and published. */
    method ForwardEvent(id: nat)
      requires Valid() && |Contents()| < queue.capacity
      modifies this, queue.ringbuf, queue.data
      ensures Valid()
      ensures Contents() == old(Contents()) + [Ev(id)] && consumed == old(consumed) + 1
      ensures droppedNum == old(droppedNum)
      ensures View() == old(View()).(buffered := old(Contents()) + [Ev(id)], consumed := old(consumed) + 1)
    {
      ghost var was := Contents();
      var out := queue.WritePtr();
      assert out != None && Contents() == was;
      UnrollUnchanged(queue.data[..], queue.ringbuf.counters.consumed, queue.ringbuf.Count(),
                      queue.ringbuf.counters.written, Ev(id));
      queue.data[out.value] := Ev(id);
      assert Contents() == was;
      queue.WriteFinish();
      consumed := consumed + 1;
    }

    /** What the buffer manager does with event `id`: drop it or forward it. */
    method ManageEvent(id: nat)
      requires Valid()
      modifies this, queue.ringbuf, queue.data, header
      ensures Valid()
      ensures View() == Managed(old(View()), id)
      ensures consumed == old(consumed) + 1
      ensures var full := if old(droppedNum) == 0 then |old(Contents())| == queue.capacity
                          else queue.capacity <= |old(Contents())| + dropSpaceThreshold;
              if full then Contents() == old(Contents()) && droppedNum == old(droppedNum) + 1
              else
                && droppedNum == 0
                && Contents() == old(Contents()) + (if old(droppedNum) == 0 then [] else [Hole(Before(id), old(holeNum))])
                                 + [Ev(id)]
      ensures old(Ordered()) && Newer(old(View()), id) ==> Ordered()
    {
      ghost var was := View();
      if InOrder(was) && Newer(was, id) {
        ManagedInOrder(was, id);
      }
      var drop := HandleDroppingEvent(id);
      if !drop {
        ForwardEvent(id);
      }
    }

    // -------------------------------------------------------------------
    // The consumer's drop operations
    // -------------------------------------------------------------------

    /** What both drops do: consume k seen entries, then publish the identifier. */
    method Release(k: nat, id: nat)
      requires Valid() && k <= queue.ringbuf.Seen() && header.lastProcessed <= id
      modifies this, queue.ringbuf, header
      ensures Valid() && k <= |old(Contents())|
      ensures Contents() == old(Contents())[k..] && header.lastProcessed == id
      ensures View() == old(View()).(buffered := old(Contents())[k..],
                                     info := old(header.View()).(lastProcessed := id))
    {
      queue.Drop(k);
      header.SetLastProcessed(id);
    }

    /** How many entries drop(k) takes, and the last one's identifier. */
    method LastToDrop(k: nat) returns (num: nat, id: nat)
      requires Valid() && k <= SIZE_MAX
      modifies queue.ringbuf
      ensures Valid() && View() == old(View())
      ensures num == if k == 0 || |Contents()| <= k then |Contents()| else k
      ensures 0 < num ==> id == Contents()[num - 1].id && num <= queue.ringbuf.Seen()
    {
      ghost var was := Contents();
      var elem, at := queue.PeekAtmostAt(Before(k));
      assert Contents() == was;
      if elem == None {
        return 0, 0;
      }
      num, id := at + 1, elem.value.id;
    }

    /** Drops min(k, size) entries, or all for k == 0, and publishes the last one's identifier. */
    method Drop(k: nat) returns (num: nat)
      requires Valid() && Ordered() && k <= SIZE_MAX
      modifies this, queue.ringbuf, header
      ensures Valid() && Ordered()
      ensures num == if k == 0 || |old(Contents())| <= k then |old(Contents())| else k
      ensures View() == old(View()).(buffered := old(Contents())[num..],
                                     info := if num == 0 then old(header.View())
                                             else old(header.View()).(lastProcessed := old(Contents())[num - 1].id))
    {
      ghost var was := Contents();
      var id;
      num, id := LastToDrop(k);
      assert Contents() == was;
      if num > 0 {
        RestAscends(was, num);
        Release(num, id);
      }
    }

    /** How many entries drop_older_than removes. */
    method CountOlder(id: nat) returns (k: nat)
      requires Valid() && AscendingButLast(Contents())
      modifies queue.ringbuf
      ensures Valid() && View() == old(View())
      ensures k == OlderCount(Contents(), id) && k <= queue.ringbuf.Seen()
    {
      var n, off, len1, len2 := queue.Peek(0);
      if n == 0 {
        return 0;
      }
      var part1, part2 := queue.data[off..off + len1], queue.data[..len2];
      assert part1 + part2 == Contents();
      k := SearchParts(part1, part2, id);
    }

    /** Drops exactly the entries up to `id` (but for an end hole repeating it) and
        publishes `id` if there were any. */
    method DropOlderThan(id: nat) returns (k: nat)
      requires Valid() && Ordered()
      modifies this, queue.ringbuf, header
      ensures Valid() && Ordered()
      ensures k == OlderCount(old(Contents()), id)
      ensures View() == old(View()).(buffered := old(Contents())[k..],
                                     info := if k == 0 then old(header.View())
                                             else old(header.View()).(lastProcessed := id))
    {
      ghost var was := Contents();
      k := CountOlder(id);
      assert Contents() == was;
      if k > 0 {
        OlderRestAscends(was, id);
        Release(k, id);
      }
    }
  }
}

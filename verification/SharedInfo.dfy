/**
  The facts the monitor publishes to the source in the shared header: the
  identifier of the last processed event and the ring of the last five dropped
  ranges (src/shmbuf/buffer-private.h:26-51, src/shmbuf/buffer.c:370-375 and
  602-626, src/shmbuf/buffer-aux.c:107-122).
 */
module SharedInfo {

  const DROPPED_RANGES_NUM := 5
  const MAX64: nat := 0xffff_ffff_ffff_ffff

  /** Event identifiers are 1 .. MAX_EVENT_ID: 0 and MAX64 mark an unused string buffer. */
  const MAX_EVENT_ID: nat := MAX64 - 1

  datatype Range = Range(begin: nat, end: nat)

  datatype Info = Info(lastProcessed: nat, slots: seq<Range>, next: nat)

  predicate WellFormed(info: Info) {
    |info.slots| == DROPPED_RANGES_NUM && info.next < DROPPED_RANGES_NUM
  }

  /** The header is zeroed when the buffer is created. */
  const INITIAL_INFO :=
    Info(0, [Range(0, 0), Range(0, 0), Range(0, 0), Range(0, 0), Range(0, 0)], 0)

  /** x - 1 on 64 bits. */
  function Before(x: nat): nat {
    if x == 0 then MAX64 else x - 1
  }

  predicate ExtendsCurrent(info: Info, begin: nat)
    requires WellFormed(info)
  {
    var r := info.slots[info.next];
    r.begin == begin || r.end == Before(r.begin)
  }

  function NextSlot(info: Info): nat {
    if info.next + 1 == DROPPED_RANGES_NUM then 0 else info.next + 1
  }

  /** Publish that the events begin .. end were dropped. */
  function NotifyDropped(info: Info, begin: nat, end: nat): Info
    requires WellFormed(info)
  {
    if ExtendsCurrent(info, begin) then
      info.(slots := info.slots[info.next := info.slots[info.next].(end := end)])
    else
      info.(slots := info.slots[NextSlot(info) := Range(begin, end)], next := NextSlot(info))
  }

  predicate Within(r: Range, id: nat) {
    r.begin <= id <= r.end
  }

  /** A range with end 0 is an unused slot and is skipped by the scan. */
  predicate InSomeRange(info: Info, id: nat) {
    exists i :: 0 <= i < |info.slots| && info.slots[i].end != 0 && Within(info.slots[i], id)
  }

  /** The test of ab_was_dropped for one slot. */
  predicate SlotCovers(r: Range, first: nat, last: nat) {
    r.end != 0 && r.begin <= first && r.end >= last
  }

  predicate WasDropped(info: Info, first: nat, last: nat) {
    exists i :: 0 <= i < |info.slots| && SlotCovers(info.slots[i], first, last)
  }

  /** The test meant for a range right before the current one. It compares the end of
      the current slot with the begin of the same slot. */
  predicate AdjacencyTest(info: Info)
    requires WellFormed(info)
  {
    info.slots[info.next].end == Before(info.slots[info.next].begin)
  }

  /** One slot changes and then ends at `end`; it is the current one exactly when that
      starts at the same event or the adjacency test fires. It becomes the range that was
      to be recorded exactly when the test does not fire, or fires without effect. */
  lemma {:induction false} NotifyChangesOneSlot(info: Info, begin: nat, end: nat)
    requires WellFormed(info)
    ensures var info' := NotifyDropped(info, begin, end); var r := info'.slots[info'.next];
            && WellFormed(info') && info'.lastProcessed == info.lastProcessed
            && info'.slots == info.slots[info'.next := r] && r.end == end
            && (info'.next == info.next <==> info.slots[info.next].begin == begin || AdjacencyTest(info))
            && (r == Range(begin, end) <==> !AdjacencyTest(info) || info.slots[info.next].begin == begin)
  {
  }

  /** The range goes to the slot after the current one, and to slot 0 after the last. */
  predicate TakesNextSlot(info: Info, info': Info)
    requires WellFormed(info)
  {
    info'.next == (if info.next == 4 then 0 else info.next + 1)
  }

  lemma {:induction false} NewRangeTakesNextSlot(info: Info, begin: nat, end: nat)
    requires WellFormed(info) && !AdjacencyTest(info) && info.slots[info.next].begin != begin
    ensures TakesNextSlot(info, NotifyDropped(info, begin, end))
    ensures NotifyDropped(info, begin, end) ==
            Info(info.lastProcessed,
                 info.slots[if info.next == 4 then 0 else info.next + 1 := Range(begin, end)],
                 if info.next == 4 then 0 else info.next + 1)
  {
  }

  /** The ranges recorded one after the other. */
  function NotifyAll(info: Info, ranges: seq<Range>): Info
    requires WellFormed(info)
    ensures WellFormed(NotifyAll(info, ranges))
    decreases |ranges|
  {
    if ranges == [] then info
    else NotifyDropped(NotifyAll(info, ranges[..|ranges| - 1]), ranges[|ranges| - 1].begin, ranges[|ranges| - 1].end)
  }

  /** Non-empty ranges, each beginning where no other does. */
  predicate SeparateRanges(ranges: seq<Range>) {
    && (forall i :: 0 <= i < |ranges| ==> 0 < ranges[i].begin <= ranges[i].end)
    && (forall i, j :: 0 <= i < j < |ranges| ==> ranges[i].begin != ranges[j].begin)
  }

  /** The slot that the i-th range after this one goes to. */
  function SlotAfter(next: nat, i: nat): nat {
    (next + 1 + i) % 5
  }

  /** The newest range is in the current slot. */
  lemma {:induction false} LastIsCurrent(info: Info, ranges: seq<Range>)
    requires WellFormed(info) && !AdjacencyTest(info) && SeparateRanges(ranges)
    requires forall j :: 0 <= j < |ranges| ==> ranges[j].begin != info.slots[info.next].begin
    ensures var info' := NotifyAll(info, ranges);
            && info'.next == (info.next + |ranges|) % 5
            && info'.slots[info'.next] == (if ranges == [] then info.slots[info.next] else ranges[|ranges| - 1])
    decreases |ranges|
  {
    if ranges != [] {
      LastIsCurrent(info, ranges[..|ranges| - 1]);
    }
  }

  lemma SlotsDiffer(next: nat, i: nat, n: nat)
    requires i < n < i + 5
    ensures SlotAfter(next, i) != (next + n + 1) % 5
  {
  }

  /** Five slots are used in turn: the last five ranges recorded are there, each in its
      slot, whatever was there before. */
  lemma {:induction false} LastFiveAreRecorded(info: Info, ranges: seq<Range>, i: nat)
    requires WellFormed(info) && !AdjacencyTest(info) && SeparateRanges(ranges)
    requires forall j :: 0 <= j < |ranges| ==> ranges[j].begin != info.slots[info.next].begin
    requires i < |ranges| <= i + 5
    ensures NotifyAll(info, ranges).slots[SlotAfter(info.next, i)] == ranges[i]
    decreases |ranges|
  {
    var before := ranges[..|ranges| - 1];
    LastIsCurrent(info, before);
    LastIsCurrent(info, ranges);
    if i < |before| {
      LastFiveAreRecorded(info, before, i);
      SlotsDiffer(info.next, i, |before|);
      NotifyChangesOneSlot(NotifyAll(info, before), ranges[|before|].begin, ranges[|before|].end);
    }
  }
}

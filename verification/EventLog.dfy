/**
  The log of entries the fetcher writes to the arbiter buffer: forwarded events
  and hole events that stand for runs of lost events
  (src/core/arbiter.c:438-567, src/core/stream.c:20-28).
 */
module EventLog {

  /** A hole with identifier `id` and counter `n` stands for the events id-n+1 .. id. */
  datatype Entry = Ev(id: nat) | Hole(id: nat, n: nat)

  function Weight(e: Entry): nat {
    match e
    case Ev(_) => 1
    case Hole(_, n) => n
  }

  function Front<T>(s: seq<T>): seq<T>
    requires s != []
  {
    s[..|s| - 1]
  }

  function Last<T>(s: seq<T>): T
    requires s != []
  {
    s[|s| - 1]
  }

  lemma FrontLastOfAppend<T>(s: seq<T>, x: T)
    ensures Front(s + [x]) == s && Last(s + [x]) == x
  {
  }

  /** How many input events the log accounts for. */
  function Covered(log: seq<Entry>): nat {
    if log == [] then 0 else Covered(Front(log)) + Weight(Last(log))
  }

  function Forwarded(log: seq<Entry>): nat {
    if log == [] then 0 else Forwarded(Front(log)) + if Last(log).Ev? then 1 else 0
  }

  function HoleTimes(log: seq<Entry>): nat {
    if log == [] then 0 else HoleTimes(Front(log)) + if Last(log).Hole? then 1 else 0
  }

  /** The events the holes of the log stand for, counted. */
  function Lost(log: seq<Entry>): nat {
    if log == [] then 0 else Lost(Front(log)) + if Last(log).Hole? then Last(log).n else 0
  }

  function Ids(first: int, n: nat): (ids: seq<int>)
    ensures |ids| == n
  {
    seq(n, i => first + i)
  }

  function EntryIds(e: Entry): seq<int> {
    match e
    case Ev(id) => [id]
    case Hole(id, n) => Ids(id - n + 1, n)
  }

  /** The input identifiers the log stands for, in order. */
  function Expand(log: seq<Entry>): seq<int> {
    if log == [] then [] else Expand(Front(log)) + EntryIds(Last(log))
  }

  predicate EndsInEvent(log: seq<Entry>) {
    log == [] || Last(log).Ev?
  }

  /** A log without gaps: every entry continues where the log before it ends, and
      no hole follows a hole. */
  predicate GapFree(log: seq<Entry>) {
    log == [] ||
    (&& GapFree(Front(log))
     && match Last(log)
        case Ev(id) => id == Covered(Front(log)) + 1
        case Hole(id, n) => 0 < n && id == Covered(Front(log)) + n && EndsInEvent(Front(log)))
  }

  /** A gap-free log followed by the hole of handle_stream_end, whose identifier is
      one too small. */
  predicate ClosedByEndHole(log: seq<Entry>) {
    && log != []
    && GapFree(Front(log))
    && EndsInEvent(Front(log))
    && Last(log).Hole? && 0 < Last(log).n
    && Last(log).id == Covered(Front(log)) + Last(log).n - 1
  }

  /** The log ends in a hole whose identifier is one short of what the log covers. */
  predicate EndsShort(log: seq<Entry>) {
    log != [] && Last(log).Hole? && Last(log).id + 1 == Covered(log)
  }

  /** The identifiers the log stands for, with such a last hole shifted by the one it
      is short of. */
  function Accounted(log: seq<Entry>): seq<int> {
    if EndsShort(log) then Expand(Front(log)) + Ids(Last(log).id + 2 - Last(log).n, Last(log).n)
    else Expand(log)
  }

  lemma {:induction false} CountsAddUp(log: seq<Entry>)
    ensures Covered(log) == Forwarded(log) + Lost(log)
    ensures |log| == Forwarded(log) + HoleTimes(log)
  {
    if log != [] {
      CountsAddUp(Front(log));
    }
  }

  lemma IdsConcat(first: int, m: nat, n: nat)
    ensures Ids(first, m) + Ids(first + m, n) == Ids(first, m + n)
  {
  }

  /** A gap-free log expands to exactly the input identifiers, each once, in order. */
  lemma {:induction false} GapFreeExpands(log: seq<Entry>)
    requires GapFree(log)
    ensures Expand(log) == Ids(1, Covered(log))
  {
    if log != [] {
      GapFreeExpands(Front(log));
      IdsConcat(1, Covered(Front(log)), Weight(Last(log)));
      assert EntryIds(Last(log)) == Ids(1 + Covered(Front(log)), Weight(Last(log)));
    }
  }

  /** The end hole repeats the identifier before its first lost event and misses the
      last lost one, though the number of identifiers is right. */
  lemma EndHoleExpands(log: seq<Entry>)
    requires ClosedByEndHole(log)
    ensures |Expand(log)| == Covered(log)
    ensures Expand(log) != Ids(1, Covered(log))
  {
    GapFreeExpands(Front(log));
    assert Last(Expand(log)) == Last(log).id;
    assert Last(Ids(1, Covered(log))) == Covered(log);
  }

  /** The two shapes of a log are told apart by their last entry, and either way the
      log accounts for every identifier up to what it covers, once and in order. */
  lemma {:induction false} EveryIdAccounted(log: seq<Entry>)
    requires GapFree(log) || ClosedByEndHole(log)
    ensures EndsShort(log) <==> ClosedByEndHole(log)
    ensures EndsShort(log) <==> !GapFree(log)
    ensures Accounted(log) == Ids(1, Covered(log))
  {
    if EndsShort(log) {
      GapFreeExpands(Front(log));
      IdsConcat(1, Covered(Front(log)), Last(log).n);
    } else {
      GapFreeExpands(log);
    }
  }

  /** Identifiers never decrease, and those of events are larger than all before. */
  predicate Ascending(log: seq<Entry>) {
    forall i, j :: 0 <= i < j < |log| ==>
      log[i].id <= log[j].id && (log[j].Ev? ==> log[i].id < log[j].id)
  }

  predicate IdsWithin(log: seq<Entry>, bound: nat) {
    forall i :: 0 <= i < |log| ==> log[i].id <= bound
  }

  lemma {:induction false} GapFreeAscends(log: seq<Entry>)
    requires GapFree(log)
    ensures forall i, j :: 0 <= i < j < |log| ==> log[i].id < log[j].id
    ensures IdsWithin(log, Covered(log))
    ensures EndsInEvent(log) && log != [] ==> Last(log).id == Covered(log)
  {
    if log != [] {
      GapFreeAscends(Front(log));
      assert forall i :: 0 <= i < |log| - 1 ==> log[i] == Front(log)[i];
    }
  }

  /** The fetcher's logs: strictly ascending, but for a last entry that may repeat the
      identifier before it (the hole written at the stream's end). */
  predicate AscendingButLast(entries: seq<Entry>) {
    && (forall i, j :: 0 <= i < j < |entries| - 1 ==> entries[i].id < entries[j].id)
    && (forall i :: 0 <= i < |entries| - 1 ==> entries[i].id <= entries[|entries| - 1].id)
  }

  lemma ClosedAscends(log: seq<Entry>)
    requires ClosedByEndHole(log)
    ensures Ascending(log) && IdsWithin(log, Covered(log)) && AscendingButLast(log)
  {
    GapFreeAscends(Front(log));
    assert forall i :: 0 <= i < |log| - 1 ==> log[i] == Front(log)[i];
  }

  lemma LogAscends(log: seq<Entry>)
    requires GapFree(log) || ClosedByEndHole(log)
    ensures Ascending(log) && IdsWithin(log, Covered(log))
    ensures AscendingButLast(log)
  {
    if GapFree(log) {
      GapFreeAscends(log);
    } else {
      ClosedAscends(log);
    }
  }

  /** What drop_older_than removes: the leading entries with an identifier of at most
      `bound`, stopping after one that has exactly this identifier. */
  function OlderCount(entries: seq<Entry>, bound: nat): (k: nat)
    ensures k <= |entries|
    ensures forall i :: 0 <= i < k ==> entries[i].id <= bound
    ensures k < |entries| ==> bound < entries[k].id || (0 < k && entries[k - 1].id == bound)
  {
    if entries == [] || bound < entries[0].id then 0
    else if entries[0].id == bound then 1
    else 1 + OlderCount(entries[1..], bound)
  }

  lemma {:induction false} StopsAtBound(entries: seq<Entry>, bound: nat, i: nat)
    requires i < |entries| && entries[i].id == bound
    ensures OlderCount(entries, bound) <= i + 1
  {
    if 0 < i {
      StopsAtBound(entries[1..], bound, i - 1);
    }
  }

  /** Among ascending entries exactly those up to the bound are removed, except that a
      last entry repeating the bound's identifier stays. */
  lemma OlderCountExact(entries: seq<Entry>, bound: nat, i: nat)
    requires AscendingButLast(entries) && i < |entries|
    ensures i < OlderCount(entries, bound)
       <==> entries[i].id <= bound && !(0 < i && entries[i - 1].id == entries[i].id == bound)
  {
    var k := OlderCount(entries, bound);
    if k <= i && entries[i].id <= bound {
      assert 0 < k && entries[k - 1].id == bound;
      assert entries[k - 1].id <= entries[i].id;
    }
    if i < k && 0 < i && entries[i - 1].id == entries[i].id == bound {
      StopsAtBound(entries, bound, i - 1);
    }
  }
}

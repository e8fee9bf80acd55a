/**
  A stream's records of its events, looked up by kind (src/core/stream.c:190-249,
  src/shmbuf/buffer.c:665-676, src/core/source.c:10-20).

  The first lookup builds a cache indexed by kind; every later lookup of a small kind
  reads the cache alone. An entry that was never filled, or one past the end, is not a
  value the code can rely on: reading one is the outcome Undefined.
 */
module StreamCache {
  import opened Basics
  import opened SourceControl

  const MAX_EVENTS_CACHE_SIZE: nat := 128

  datatype Lookup = Found(record: Record) | Missing | Undefined

  function ToLookup(r: Option<Record>): Lookup {
    if r.Some? then Found(r.value) else Missing
  }

  // ---------------------------------------------------------------------
  // The records and the two scans
  // ---------------------------------------------------------------------

  function MaxKind(recs: seq<Record>): (m: nat) {
    if recs == [] then 0
    else
      var m := MaxKind(recs[..|recs| - 1]);
      if recs[|recs| - 1].kind > m then recs[|recs| - 1].kind else m
  }

  /** What the scan that stops at the first match finds. */
  function First(recs: seq<Record>, kind: nat): Option<Record> {
    if recs == [] then None
    else if recs[0].kind == kind then Some(recs[0])
    else First(recs[1..], kind)
  }

  /** What a scan that overwrites its find is left with. */
  function LastOf(recs: seq<Record>, kind: nat): Option<Record> {
    if recs == [] then None
    else if recs[|recs| - 1].kind == kind then Some(recs[|recs| - 1])
    else LastOf(recs[..|recs| - 1], kind)
  }

  function CacheSize(recs: seq<Record>): nat {
    (if MaxKind(recs) > MAX_EVENTS_CACHE_SIZE then MAX_EVENTS_CACHE_SIZE else MaxKind(recs)) + 1
  }

  /** The cache is the one built from these records. */
  predicate CacheOf(cache: seq<Option<Record>>, recs: seq<Record>) {
    && |cache| == CacheSize(recs)
    && forall k :: 0 <= k < |cache| ==> cache[k] == LastOf(recs, k)
  }

  function BuiltCache(recs: seq<Record>): (cache: seq<Option<Record>>)
    ensures CacheOf(cache, recs)
  {
    seq(CacheSize(recs), k requires 0 <= k => LastOf(recs, k))
  }

  /** What a lookup gets once the cache is there. */
  function CachedLookup(cache: seq<Option<Record>>, recs: seq<Record>, kind: nat): Lookup {
    if kind >= MAX_EVENTS_CACHE_SIZE then ToLookup(First(recs, kind))
    else if kind < |cache| && cache[kind].Some? then Found(cache[kind].value)
    else Undefined
  }

  predicate Registered(recs: seq<Record>, kind: nat) {
    exists i :: 0 <= i < |recs| && recs[i].kind == kind
  }

  predicate FirstAt(recs: seq<Record>, kind: nat, i: int) {
    0 <= i < |recs| && recs[i].kind == kind && forall k :: 0 <= k < i ==> recs[k].kind != kind
  }

  predicate LastAt(recs: seq<Record>, kind: nat, i: int) {
    0 <= i < |recs| && recs[i].kind == kind && forall k :: i < k < |recs| ==> recs[k].kind != kind
  }

  predicate DistinctKinds(recs: seq<Record>) {
    forall i, j :: 0 <= i < j < |recs| ==> recs[i].kind != recs[j].kind
  }

  // ---------------------------------------------------------------------
  // Lemmas
  // ---------------------------------------------------------------------

  lemma {:induction false} FirstFinds(recs: seq<Record>, kind: nat)
    ensures First(recs, kind).Some? <==> Registered(recs, kind)
    ensures First(recs, kind).Some? ==> First(recs, kind).value in recs && First(recs, kind).value.kind == kind
  {
    if recs != [] && recs[0].kind != kind {
      FirstFinds(recs[1..], kind);
      if Registered(recs, kind) {
        var i :| 0 <= i < |recs| && recs[i].kind == kind;
        assert recs[1..][i - 1].kind == kind;
      }
      if Registered(recs[1..], kind) {
        var i :| 0 <= i < |recs[1..]| && recs[1..][i].kind == kind;
        assert recs[i + 1].kind == kind;
      }
    }
  }

  lemma {:induction false} LastFinds(recs: seq<Record>, kind: nat)
    ensures LastOf(recs, kind).Some? <==> Registered(recs, kind)
    ensures LastOf(recs, kind).Some? ==> LastOf(recs, kind).value in recs && LastOf(recs, kind).value.kind == kind
    ensures LastOf(recs, kind).Some? ==> kind <= MaxKind(recs)
  {
    if recs != [] {
      var shorter := recs[..|recs| - 1];
      LastFinds(shorter, kind);
      if recs[|recs| - 1].kind != kind {
        if Registered(recs, kind) {
          var i :| 0 <= i < |recs| && recs[i].kind == kind;
          assert shorter[i].kind == kind;
        }
        if Registered(shorter, kind) {
          var i :| 0 <= i < |shorter| && shorter[i].kind == kind;
          assert recs[i].kind == kind;
        }
      }
    }
  }

  lemma {:induction false} FirstIndex(recs: seq<Record>, kind: nat) returns (i: nat)
    requires Registered(recs, kind)
    ensures FirstAt(recs, kind, i) && First(recs, kind) == Some(recs[i])
  {
    i := 0;
    if recs[0].kind != kind {
      var at :| 0 <= at < |recs| && recs[at].kind == kind;
      assert recs[1..][at - 1].kind == kind;
      var rest := FirstIndex(recs[1..], kind);
      i := rest + 1;
      forall k | 0 <= k < i
        ensures recs[k].kind != kind
      {
        if k > 0 {
          assert recs[k] == recs[1..][k - 1];
        }
      }
    }
  }

  lemma {:induction false} LastIndex(recs: seq<Record>, kind: nat) returns (i: nat)
    requires Registered(recs, kind)
    ensures LastAt(recs, kind, i) && LastOf(recs, kind) == Some(recs[i])
  {
    i := |recs| - 1;
    if recs[i].kind != kind {
      var shorter := recs[..i];
      var at :| 0 <= at < |recs| && recs[at].kind == kind;
      assert shorter[at].kind == kind;
      var last := i;
      i := LastIndex(shorter, kind);
      forall k | i < k < |recs|
        ensures recs[k].kind != kind
      {
        if k < last {
          assert recs[k] == shorter[k];
        }
      }
    }
  }

  /** Exactly when a lookup in the cache gives what the plain scan gives: for a kind too
      big for the cache always, else when the kind is registered and the first record
      with it equals the last one. An unregistered small kind is never answered. */
  lemma CacheAgreesIff(cache: seq<Option<Record>>, recs: seq<Record>, kind: nat)
    requires CacheOf(cache, recs)
    ensures CachedLookup(cache, recs, kind) == ToLookup(First(recs, kind))
            <==> kind >= 128
                 || exists i, j :: FirstAt(recs, kind, i) && LastAt(recs, kind, j) && recs[i] == recs[j]
  {
    FirstFinds(recs, kind);
    LastFinds(recs, kind);
    if Registered(recs, kind) {
      var i := FirstIndex(recs, kind);
      var j := LastIndex(recs, kind);
      forall i', j' | FirstAt(recs, kind, i') && LastAt(recs, kind, j')
        ensures i' == i && j' == j
      {
      }
    }
  }

  /** The two ways to disagree: a small kind that was never registered, and one that two
      different records have. Only the first call, which builds the cache, says Missing. */
  lemma CacheMayDisagree()
    ensures var a, b := Record("a", 10, 16, ""), Record("b", 10, 16, "");
            && CachedLookup(BuiltCache([a]), [a], 5) == Undefined && ToLookup(First([a], 5)) == Missing
            && CachedLookup(BuiltCache([a, b]), [a, b], 10) == Found(b)
            && ToLookup(First([a, b], 10)) == Found(a)
  {
    var a, b := Record("a", 10, 16, ""), Record("b", 10, 16, "");
    assert [a][1..] == [] && [a][..0] == [] && [a, b][..1] == [a];
    LastFinds([a], 5);
    FirstFinds([a], 5);
    assert MaxKind([a]) == 10;
    assert MaxKind([a, b]) == 10;
  }

  lemma DistinctKindsHaveOneRecord(recs: seq<Record>, kind: nat)
    requires DistinctKinds(recs)
    ensures First(recs, kind) == LastOf(recs, kind)
  {
    FirstFinds(recs, kind);
    LastFinds(recs, kind);
  }

  /** With pairwise distinct kinds every registered kind is looked up alike, by the call
      that builds the cache and by every later one. */
  lemma RegisteredLookupsAgree(cache: seq<Option<Record>>, recs: seq<Record>, kind: nat)
    requires DistinctKinds(recs) && Registered(recs, kind)
    requires CacheOf(cache, recs)
    ensures First(recs, kind).Some?
    ensures CachedLookup(cache, recs, kind) == Found(First(recs, kind).value)
    ensures ToLookup(LastOf(recs, kind)) == Found(First(recs, kind).value)
  {
    FirstFinds(recs, kind);
    DistinctKindsHaveOneRecord(recs, kind);
    CacheAgreesIff(cache, recs, kind);
  }

  // ---------------------------------------------------------------------
  // The source's side: registration
  // ---------------------------------------------------------------------

  const LAST_SPECIAL_KIND: nat := 9     // VMS_EVENT_LAST_SPECIAL_KIND

  function RegisteredAt(r: Record, i: nat): Record {
    r.(kind := 1 + i + LAST_SPECIAL_KIND)
  }

  /** vms_shm_buffer_register_all_events on the records of a control block. */
  method RegisterAllEvents(recs: array<Record>)
    modifies recs
    ensures forall i :: 0 <= i < recs.Length ==> recs[i] == RegisteredAt(old(recs[i]), i)
    ensures DistinctKinds(recs[..])
    ensures forall i :: 0 <= i < recs.Length ==>
              && recs[i].kind == 10 + i
              && recs[i].name == old(recs[i]).name && recs[i].size == old(recs[i]).size
              && recs[i].signature == old(recs[i]).signature
  {
    for i := 0 to recs.Length
      invariant forall j :: 0 <= j < i ==> recs[j] == RegisteredAt(old(recs[j]), j)
      invariant forall j :: i <= j < recs.Length ==> recs[j] == old(recs[j])
    {
      recs[i] := RegisteredAt(recs[i], i);
    }
  }

  // ---------------------------------------------------------------------
  // The stream's side
  // ---------------------------------------------------------------------

  method GetMaxKind(recs: seq<Record>) returns (max: nat)
    ensures max == MaxKind(recs)
    ensures forall i :: 0 <= i < |recs| ==> recs[i].kind <= max
    ensures max == 0 || Registered(recs, max)
  {
    max := 0;
    for i := 0 to |recs|
      invariant max == MaxKind(recs[..i])
      invariant forall j :: 0 <= j < i ==> recs[j].kind <= max
      invariant max == 0 || Registered(recs, max)
    {
      assert recs[..i + 1][..i] == recs[..i];
      if recs[i].kind > max {
        max := recs[i].kind;
      }
    }
    assert recs[..|recs|] == recs;
  }

  method GetEventRecordNoCache(recs: seq<Record>, kind: nat) returns (r: Lookup)
    ensures r == ToLookup(First(recs, kind))
  {
    assert recs[0..] == recs;
    for i := 0 to |recs|
      invariant First(recs, kind) == First(recs[i..], kind)
    {
      if recs[i].kind == kind {
        return Found(recs[i]);
      }
      assert recs[i..][1..] == recs[i + 1..];
    }
    r := Missing;
  }

  class Stream {
    var events: seq<Record>                  // the control block of the incoming buffer
    var cache: array?<Option<Record>>

    /** The cache, once built, is of the records as they are now. */
    ghost predicate Valid()
      reads this, cache
    {
      cache != null ==> CacheOf(cache[..], events)
    }

    constructor (recs: seq<Record>)
      ensures Valid() && events == recs && cache == null
    {
      events, cache := recs, null;
    }

    method BuildCache(kind: nat) returns (r: Lookup)
      modifies this`cache
      ensures cache != null && fresh(cache) && CacheOf(cache[..], events)
      ensures r == ToLookup(LastOf(events, kind))
    {
      var maxKind := GetMaxKind(events);
      var size := (if maxKind > MAX_EVENTS_CACHE_SIZE then MAX_EVENTS_CACHE_SIZE else maxKind) + 1;
      var fill := new Option<Record>[size](_ => None);
      var found: Option<Record> := None;
      for i := 0 to |events|
        invariant forall k :: 0 <= k < size ==> fill[k] == LastOf(events[..i], k)
        invariant found == LastOf(events[..i], kind)
      {
        assert events[..i + 1][..i] == events[..i];
        if events[i].kind < size {
          fill[events[i].kind] := Some(events[i]);
        }
        if events[i].kind == kind {
          found := Some(events[i]);
        }
      }
      assert events[..|events|] == events;
      cache := fill;
      r := ToLookup(found);
    }

    /** vms_stream_get_event_record */
    method GetEventRecord(kind: nat) returns (r: Lookup)
      requires Valid()
      modifies this`cache
      ensures Valid() && cache != null
      ensures old(cache) != null ==>
                cache == old(cache) && r == CachedLookup(old(cache[..]), events, kind)
      ensures old(cache) == null ==> fresh(cache) && r == ToLookup(LastOf(events, kind))
      ensures DistinctKinds(events) && Registered(events, kind) ==> r == ToLookup(First(events, kind))
    {
      if cache != null {
        if kind < MAX_EVENTS_CACHE_SIZE {
          r := if kind < cache.Length && cache[kind].Some? then Found(cache[kind].value) else Undefined;
        } else {
          r := GetEventRecordNoCache(events, kind);
        }
      } else {
        r := BuildCache(kind);
      }
      if DistinctKinds(events) && Registered(events, kind) {
        RegisteredLookupsAgree(cache[..], events, kind);
      }
    }
  }
}

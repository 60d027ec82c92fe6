/** The bounded map of the notification bridge from ferry ids to the ids the desktop issued, with expiry. */
module NotificationIds {
  import opened Recency

  const LRU_MAX := 200
  const LRU_TTL_SECS := 14400.0

  datatype IdEntry = IdEntry(dbusId: int, expiresAt: real)

  datatype Event =
    | Stored(ferryId: string, dbusId: int, now: real)   // a Notify() call returned an id
    | Removed(ferryId: string)                          // remove()
    | Closed(dbusId: int)                               // the desktop reports NotificationClosed
    | Expired(now: real)                                // _expire_old()

  function HasDbusId(dbusId: int): (string, IdEntry) -> bool {
    (_: string, v: IdEntry) => v.dbusId == dbusId
  }

  function ExpiredAt(now: real): (string, IdEntry) -> bool {
    (_: string, v: IdEntry) => v.expiresAt < now
  }

  function InSeq(keys: seq<string>): (string, IdEntry) -> bool {
    (k: string, _: IdEntry) => k in keys
  }

  function ToOp(e: Event): Op<IdEntry> {
    match e
    case Stored(f, d, now) => Put(f, IdEntry(d, now + LRU_TTL_SECS))
    case Removed(f) => Drop(IsKey(f))
    case Closed(d) => Drop(HasDbusId(d))
    case Expired(now) => Drop(ExpiredAt(now))
  }

  function ToOps(events: seq<Event>): (ops: seq<Op<IdEntry>>)
    ensures |ops| == |events| && forall i :: 0 <= i < |events| ==> ops[i] == ToOp(events[i])
  {
    if events == [] then [] else ToOps(events[..|events| - 1]) + [ToOp(events[|events| - 1])]
  }

  function IdMap(events: seq<Event>): Ordered<IdEntry> {
    Bounded(ToOps(events), LRU_MAX)
  }

  lemma IdMapSnoc(events: seq<Event>, e: Event)
    ensures IdMap(events + [e]) == Apply(IdMap(events), ToOp(e), LRU_MAX)
    ensures ToOps(events + [e])[..|events|] == ToOps(events)
  {
    var all := events + [e];
    assert all[..|all| - 1] == events;
    var ops := ToOps(all);
    assert ops[..|ops| - 1] == ToOps(events);
  }

  /** _get_replaces_id. */
  function ReplacesId(m: Ordered<IdEntry>, ferryId: string): int {
    var e := Find(m, ferryId);
    if e.Some? then e.value.dbusId else 0
  }

  class Ids {
    var idMap: Ordered<IdEntry>
    ghost var events: seq<Event>

    constructor ()
      ensures Valid() && events == []
    {
      idMap, events := [], [];
    }

    ghost predicate Valid()
      reads this
    {
      idMap == IdMap(events)
    }

    method StoreId(ferryId: string, dbusId: int, now: real)
      requires Valid()
      modifies this
      ensures Valid() && events == old(events) + [Stored(ferryId, dbusId, now)]
    {
      var entry := IdEntry(dbusId, now + LRU_TTL_SECS);
      idMap := Without(idMap, ferryId) + [Entry(ferryId, entry)];
      Evict();
      IdMapSnoc(events, Stored(ferryId, dbusId, now));
      events := events + [Stored(ferryId, dbusId, now)];
    }

    method Evict()
      modifies this`idMap
      ensures idMap == Trim(old(idMap), LRU_MAX)
    {
      while |idMap| > LRU_MAX
        invariant Trim(idMap, LRU_MAX) == Trim(old(idMap), LRU_MAX)
      {
        TrimAfterPop(idMap, LRU_MAX);
        idMap := idMap[1..];
      }
    }

    /** Both bulk removals first collect the keys, then pop them one by one. */
    method PopAll(which: (string, IdEntry) -> bool)
      requires Distinct(idMap)
      modifies this`idMap
      ensures idMap == Keep(old(idMap), which)
    {
      var doomed := Picked(idMap, which);
      var i := 0;
      KeepAll(idMap, InSeq(doomed[..0]));
      while i < |doomed|
        invariant 0 <= i <= |doomed|
        invariant idMap == Keep(old(idMap), InSeq(doomed[..i]))
      {
        KeepOneMore(old(idMap), doomed, i);
        idMap := Without(idMap, doomed[i]);
        i := i + 1;
      }
      assert doomed[..i] == doomed;
      PickedAreDropped(old(idMap), which);
    }

    method RemoveByDbusId(dbusId: int)
      requires Valid()
      modifies this
      ensures Valid() && events == old(events) + [Closed(dbusId)]
    {
      AlwaysAgree(ToOps(events), LRU_MAX);
      PopAll(HasDbusId(dbusId));
      IdMapSnoc(events, Closed(dbusId));
      events := events + [Closed(dbusId)];
    }

    method ExpireOld(now: real)
      requires Valid()
      modifies this
      ensures Valid() && events == old(events) + [Expired(now)]
    {
      AlwaysAgree(ToOps(events), LRU_MAX);
      PopAll(ExpiredAt(now));
      IdMapSnoc(events, Expired(now));
      events := events + [Expired(now)];
    }

    method Remove(ferryId: string)
      requires Valid()
      modifies this
      ensures Valid() && events == old(events) + [Removed(ferryId)]
    {
      idMap := Without(idMap, ferryId);
      IdMapSnoc(events, Removed(ferryId));
      events := events + [Removed(ferryId)];
    }

    method GetReplacesId(ferryId: string) returns (id: int)
      requires Valid()
      ensures id == ReplacesId(IdMap(events), ferryId)
    {
      var e := Find(idMap, ferryId);
      id := if e.Some? then e.value.dbusId else 0;
    }
  }

  lemma TrimAfterPop(m: Ordered<IdEntry>, cap: nat)
    requires |m| > cap
    ensures Trim(m[1..], cap) == Trim(m, cap)
  {
  }

  lemma {:induction false} KeepAll(m: Ordered<IdEntry>, which: (string, IdEntry) -> bool)
    requires forall e :: e in m ==> !which(e.key, e.value)
    ensures Keep(m, which) == m
  {
    if m != [] {
      KeepAll(m[..|m| - 1], which);
      assert m == m[..|m| - 1] + [m[|m| - 1]] && m[|m| - 1] in m;
    }
  }

  lemma {:induction false} KeepNone(m: Ordered<IdEntry>, which: (string, IdEntry) -> bool)
    requires forall e :: e in m ==> which(e.key, e.value)
    ensures Keep(m, which) == []
  {
    if m != [] {
      KeepNone(m[..|m| - 1], which);
      assert m[|m| - 1] in m;
    }
  }

  /** The keys a predicate picks, in order. */
  function Picked(m: Ordered<IdEntry>, which: (string, IdEntry) -> bool): seq<string> {
    if m == [] then []
    else Picked(m[..|m| - 1], which) + if which(m[|m| - 1].key, m[|m| - 1].value) then [m[|m| - 1].key] else []
  }

  lemma {:induction false} KeepSame(m: Ordered<IdEntry>, p: (string, IdEntry) -> bool, q: (string, IdEntry) -> bool)
    requires forall e :: e in m ==> (p(e.key, e.value) <==> q(e.key, e.value))
    ensures Keep(m, p) == Keep(m, q)
  {
    if m != [] {
      KeepSame(m[..|m| - 1], p, q);
      assert m[|m| - 1] in m;
    }
  }

  lemma {:induction false} KeepTwice(m: Ordered<IdEntry>, gone: seq<string>, key: string)
    ensures Without(Keep(m, InSeq(gone)), key) ==
            Keep(m, InSeq(gone + [key]))
  {
    if m != [] {
      var front, last := m[..|m| - 1], m[|m| - 1];
      KeepTwice(front, gone, key);
      var kept := Keep(m, InSeq(gone));
      if last.key !in gone {
        assert kept[..|kept| - 1] == Keep(front, InSeq(gone));
      }
    }
  }

  lemma KeepOneMore(m: Ordered<IdEntry>, gone: seq<string>, i: nat)
    requires i < |gone|
    ensures Without(Keep(m, InSeq(gone[..i])), gone[i]) == Keep(m, InSeq(gone[..i + 1]))
  {
    KeepTwice(m, gone[..i], gone[i]);
    assert gone[..i + 1] == gone[..i] + [gone[i]];
  }

  lemma {:induction false} PickedKeys(m: Ordered<IdEntry>, which: (string, IdEntry) -> bool)
    ensures forall k :: k in Picked(m, which) <==> exists e :: e in m && e.key == k && which(e.key, e.value)
  {
    if m != [] {
      PickedKeys(m[..|m| - 1], which);
      assert forall e :: e in m <==> e in m[..|m| - 1] || e == m[|m| - 1];
    }
  }

  lemma PickedAreDropped(m: Ordered<IdEntry>, which: (string, IdEntry) -> bool)
    requires Distinct(m)
    ensures Keep(m, InSeq(Picked(m, which))) == Keep(m, which)
  {
    PickedKeys(m, which);
    KeepSame(m, InSeq(Picked(m, which)), which);
  }

  // ----- over every run -----

  /** The clock readings of the run do not go back. */
  ghost predicate ClockOk(events: seq<Event>) {
    forall i, j :: 0 <= i <= j < |events| && Timed(events[i]) && Timed(events[j]) ==> events[i].now <= events[j].now
  }

  predicate Timed(e: Event) {
    e.Stored? || e.Expired?
  }

  ghost predicate ByExpiry(m: Ordered<IdEntry>) {
    forall i, j :: 0 <= i < j < |m| ==> m[i].value.expiresAt <= m[j].value.expiresAt
  }

  /** Every entry expires at the latest one time-to-live after some store of the run. */
  lemma {:induction false} EntriesWereStored(events: seq<Event>)
    ensures forall e :: e in IdMap(events) ==>
              exists i :: 0 <= i < |events| && events[i].Stored? && e.value.expiresAt == events[i].now + LRU_TTL_SECS
  {
    if events != [] {
      var before, last := events[..|events| - 1], events[|events| - 1];
      EntriesWereStored(before);
      assert events == before + [last];
      IdMapSnoc(before, last);
      ApplyMembers(IdMap(before), ToOp(last), LRU_MAX);
      forall e | e in IdMap(events)
        ensures exists i :: 0 <= i < |events| && events[i].Stored? && e.value.expiresAt == events[i].now + LRU_TTL_SECS
      {
        if e in IdMap(before) {
          var i :| 0 <= i < |before| && before[i].Stored? && e.value.expiresAt == before[i].now + LRU_TTL_SECS;
          assert events[i] == before[i];
        } else {
          assert last.Stored? && e.value.expiresAt == last.now + LRU_TTL_SECS && events[|events| - 1] == last;
        }
      }
    }
  }

  lemma KeepByExpiry(m: Ordered<IdEntry>, which: (string, IdEntry) -> bool)
    requires ByExpiry(m)
    ensures ByExpiry(Keep(m, which))
  {
    var ix := KeepIndices(m, which);
  }

  lemma TouchByExpiry(m: Ordered<IdEntry>, key: string, v: IdEntry, cap: nat)
    requires ByExpiry(m) && forall e :: e in m ==> e.value.expiresAt <= v.expiresAt
    ensures ByExpiry(Touch(m, key, v, cap))
  {
    KeepByExpiry(m, IsKey(key));
    KeepMembers(m, IsKey(key));
    var w := Without(m, key) + [Entry(key, v)];
    assert forall i :: 0 <= i < |Without(m, key)| ==> w[i] in m;
    assert ByExpiry(w);
  }

  lemma StepByExpiry(m: Ordered<IdEntry>, e: Event)
    requires ByExpiry(m)
    requires e.Stored? ==> forall x :: x in m ==> x.value.expiresAt <= e.now + LRU_TTL_SECS
    ensures ByExpiry(Apply(m, ToOp(e), LRU_MAX))
  {
    match e
    case Stored(f, d, now) => TouchByExpiry(m, f, IdEntry(d, now + LRU_TTL_SECS), LRU_MAX);
    case _ => KeepByExpiry(m, ToOp(e).which);
  }

  /** With a clock that does not go back, the map is ordered by expiry. */
  lemma {:induction false} OrderedByExpiry(events: seq<Event>)
    requires ClockOk(events)
    ensures ByExpiry(IdMap(events))
  {
    if events != [] {
      var before, last := events[..|events| - 1], events[|events| - 1];
      OrderedByExpiry(before);
      if last.Stored? {
        StoresWereEarlier(events);
      }
      StepByExpiry(IdMap(before), last);
      assert events == before + [last];
      IdMapSnoc(before, last);
    }
  }

  lemma StoresWereEarlier(events: seq<Event>)
    requires events != [] && ClockOk(events) && Timed(events[|events| - 1])
    ensures forall e :: e in IdMap(events[..|events| - 1]) ==> e.value.expiresAt <= events[|events| - 1].now + LRU_TTL_SECS
  {
    var before := events[..|events| - 1];
    EntriesWereStored(before);
    forall e | e in IdMap(before) ensures e.value.expiresAt <= events[|events| - 1].now + LRU_TTL_SECS {
      var i :| 0 <= i < |before| && before[i].Stored? && e.value.expiresAt == before[i].now + LRU_TTL_SECS;
      assert events[i] == before[i] && Timed(events[i]);
    }
  }

  lemma SliceSnoc(m: Ordered<IdEntry>, n: nat)
    requires n < |m|
    ensures m[..|m| - 1][n..] + [m[|m| - 1]] == m[n..]
  {
  }

  /** So expiry removes a prefix: the entries that stay are the younger ones, untouched. */
  lemma {:induction false} ExpiryRemovesAPrefix(m: Ordered<IdEntry>, now: real) returns (n: nat)
    requires ByExpiry(m)
    ensures n <= |m| && Keep(m, ExpiredAt(now)) == m[n..]
    ensures forall i :: 0 <= i < n ==> m[i].value.expiresAt < now
  {
    var expired := ExpiredAt(now);
    if m == [] || m[|m| - 1].value.expiresAt < now {
      n := |m|;
      KeepNone(m, expired);
    } else {
      n := ExpiryRemovesAPrefix(m[..|m| - 1], now);
      SliceSnoc(m, n);
    }
  }

  /** The id was issued for this ferry id by store i, and nothing since replaced, removed, closed or expired it. */
  ghost predicate Current(events: seq<Event>, ferryId: string, dbusId: int, i: nat) {
    && i < |events| && events[i].Stored? && events[i].ferryId == ferryId && events[i].dbusId == dbusId
    && forall j :: i < j < |events| ==>
         match events[j]
         case Stored(f, _, _) => f != ferryId
         case Removed(f) => f != ferryId
         case Closed(d) => d != dbusId
         case Expired(now) => now <= events[i].now + 14400.0
  }

  lemma FoundIsCurrent(events: seq<Event>, ferryId: string)
    requires Find(IdMap(events), ferryId).Some?
    ensures exists i: nat :: Current(events, ferryId, ReplacesId(IdMap(events), ferryId), i)
  {
    var ops, v := ToOps(events), Find(IdMap(events), ferryId).value;
    LookupAgrees(ops, LRU_MAX, ferryId);
    UnboundedIsLastPut(ops, ferryId, v);
    var i: nat :| LastPut(ops, ferryId, v, i);
    LastPutIsCurrent(events, ferryId, v, i);
    assert Current(events, ferryId, v.dbusId, i) && ReplacesId(IdMap(events), ferryId) == v.dbusId;
  }

  lemma CurrentIsFound(events: seq<Event>, ferryId: string, dbusId: int, i: nat)
    requires Current(events, ferryId, dbusId, i) && |OthersSince(ToOps(events), ferryId)| < LRU_MAX
    ensures ReplacesId(IdMap(events), ferryId) == dbusId
  {
    var ops, v := ToOps(events), IdEntry(dbusId, events[i].now + LRU_TTL_SECS);
    LastPutIsCurrent(events, ferryId, v, i);
    UnboundedIsLastPut(ops, ferryId, v);
    LookupAgrees(ops, LRU_MAX, ferryId);
  }

  /** Over every run the map has at most 200 entries; looking an id up gives 0 or the id last stored for it and not
      since removed, closed or expired; and it gives that id unless 200 other ids were stored since. */
  lemma LookupIsCurrent(events: seq<Event>, ferryId: string)
    ensures |IdMap(events)| <= 200
    ensures var id := ReplacesId(IdMap(events), ferryId);
            && (id != 0 ==> exists i: nat :: Current(events, ferryId, id, i))
            && (forall i: nat, d ::
                  Current(events, ferryId, d, i) && |OthersSince(ToOps(events), ferryId)| < 200 ==> id == d)
  {
    LookupAgrees(ToOps(events), LRU_MAX, ferryId);
    if Find(IdMap(events), ferryId).Some? {
      FoundIsCurrent(events, ferryId);
    }
    forall i: nat, d | Current(events, ferryId, d, i) && |OthersSince(ToOps(events), ferryId)| < LRU_MAX
      ensures ReplacesId(IdMap(events), ferryId) == d
    {
      CurrentIsFound(events, ferryId, d, i);
    }
  }

  predicate Leaves<V>(op: Op<V>, key: string, value: V) {
    match op
    case Put(k, _) => k != key
    case Drop(which) => !which(key, value)
  }

  predicate LeavesId(e: Event, ferryId: string, dbusId: int, stored: real) {
    match e
    case Stored(f, _, _) => f != ferryId
    case Removed(f) => f != ferryId
    case Closed(d) => d != dbusId
    case Expired(now) => now <= stored + 14400.0
  }

  /** An event leaves the id of a store in place for the map exactly if it does so in the history. */
  lemma SurvivesAlike(e: Event, ferryId: string, v: IdEntry, stored: real)
    requires v.expiresAt == stored + LRU_TTL_SECS
    ensures Leaves(ToOp(e), ferryId, v) <==> LeavesId(e, ferryId, v.dbusId, stored)
  {
  }

  lemma LastPutIsCurrent(events: seq<Event>, ferryId: string, v: IdEntry, i: nat)
    ensures LastPut(ToOps(events), ferryId, v, i) <==>
            Current(events, ferryId, v.dbusId, i) && v.expiresAt == events[i].now + LRU_TTL_SECS
  {
    var ops := ToOps(events);
    if i < |events| && events[i].Stored? && v.expiresAt == events[i].now + LRU_TTL_SECS {
      forall j | i < j < |events|
        ensures ops[j] == ToOp(events[j])
        ensures Leaves(ops[j], ferryId, v) <==> LeavesId(events[j], ferryId, v.dbusId, events[i].now)
      {
        SurvivesAlike(events[j], ferryId, v, events[i].now);
      }
    }
  }
}

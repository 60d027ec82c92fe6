/** The store against a plain map from ids to records that only save, delete and clear change: over every run the
    index lists exactly the stored records, and every answer is the one the map gives. */
module InterruptedStoreRuns {
  import opened Bytes
  import opened InterruptedStore

  type Plain = map<string, Record>

  datatype Op =
    | Saves(record: Record)
    | Deletes(id: string)
    | Clears
    | Gets(id: string)
    | Lists(sender: Option<string>)
    | Prunes

  datatype Event = Event(op: Op, at: int)

  function Step(j: Json, p: Prefs, e: Event): Prefs {
    match e.op
    case Saves(r) => Save(j, p, r)
    case Deletes(id) => Delete(p, id)
    case Clears => Clear(p)
    case Gets(id) => Get(j, p, id, e.at).0
    case Lists(sender) => ListForSender(j, p, sender, e.at).0
    case Prunes => PruneExpired(j, p, e.at).0
  }

  function PlainStep(m: Plain, op: Op): Plain {
    match op
    case Saves(r) => m[r.transferId := r]
    case Deletes(id) => m - {id}
    case Clears => map[]
    case Gets(_) => m
    case Lists(_) => m
    case Prunes => m
  }

  function Run(j: Json, p: Prefs, events: seq<Event>): Prefs {
    if events == [] then p else Step(j, Run(j, p, events[..|events| - 1]), events[|events| - 1])
  }

  function PlainRun(m: Plain, events: seq<Event>): Plain {
    if events == [] then m else PlainStep(PlainRun(m, events[..|events| - 1]), events[|events| - 1].op)
  }

  // ----- the relation -----

  predicate GoodIds(ids: seq<string>) {
    Once(ids) && forall i :: 0 <= i < |ids| ==> GoodId(ids[i])
  }

  /** The index is well formed and lists exactly the ids that have a record. */
  ghost predicate IndexMatches(p: Prefs) {
    GoodIds(LoadIndex(p)) && forall id :: Key(id) in p <==> id in LoadIndex(p)
  }

  predicate Holds(j: Json, p: Prefs, m: Plain, id: string) {
    id in m && m[id].transferId == id && Stored(j, p, id) == Some(m[id])
  }

  ghost predicate Rel(j: Json, p: Prefs, m: Plain, now: int) {
    && IndexMatches(p)
    && (forall id :: id in LoadIndex(p) ==> Holds(j, p, m, id))
    && (forall id :: id in m && id !in LoadIndex(p) ==> Expired(m[id], now))
  }

  // ----- sequence facts -----

  lemma {:induction false} MinusMembers(ids: seq<string>, gone: seq<string>)
    requires GoodIds(ids)
    ensures GoodIds(Minus(ids, gone))
    ensures forall id :: id in Minus(ids, gone) <==> id in ids && id !in gone
  {
    if ids != [] {
      var before := ids[..|ids| - 1];
      MinusMembers(before, gone);
      assert ids == before + [ids[|ids| - 1]];
    }
  }

  predicate IsStale(j: Json, p: Prefs, id: string, now: int, missingToo: bool) {
    if Key(id) !in p then missingToo else Stored(j, p, id).None? || Expired(Stored(j, p, id).value, now)
  }

  lemma {:induction false} StaleMembers(j: Json, p: Prefs, ids: seq<string>, now: int, missingToo: bool)
    ensures forall id :: id in Stale(j, p, ids, now, missingToo) <==> id in ids && IsStale(j, p, id, now, missingToo)
  {
    if ids != [] {
      StaleMembers(j, p, ids[..|ids| - 1], now, missingToo);
      assert ids == ids[..|ids| - 1] + [ids[|ids| - 1]];
    }
  }

  lemma {:induction false} MinusStaleCount(j: Json, p: Prefs, ids: seq<string>, gone: seq<string>, now: int,
                                           missingToo: bool)
    requires forall id :: id in ids ==> (id in gone <==> IsStale(j, p, id, now, missingToo))
    ensures |Minus(ids, gone)| + |Stale(j, p, ids, now, missingToo)| == |ids|
  {
    if ids != [] {
      MinusStaleCount(j, p, ids[..|ids| - 1], gone, now, missingToo);
      assert ids[|ids| - 1] in ids;
    }
  }

  // ----- the index as stored -----

  lemma SaveIndexLoads(p: Prefs, ids: seq<string>)
    requires GoodIds(ids)
    ensures LoadIndex(SaveIndex(p, ids)) == ids
    ensures forall id :: Key(id) in SaveIndex(p, ids) <==> Key(id) in p
    ensures forall id :: Key(id) in p ==> SaveIndex(p, ids)[Key(id)] == p[Key(id)]
  {
    IndexRoundTrip(ids);
    forall id ensures Key(id) != KEY_INDEX {
      KeysDiffer(id, id);
    }
  }

  lemma RemovedKeys(p: Prefs, gone: seq<string>)
    ensures LoadIndex(p - KeysOf(gone)) == LoadIndex(p)
    ensures forall id :: Key(id) in p - KeysOf(gone) <==> Key(id) in p && id !in gone
  {
    forall id ensures Key(id) != KEY_INDEX && (Key(id) in KeysOf(gone) <==> id in gone) {
      KeysDiffer(id, id);
      forall i | 0 <= i < |gone| ensures Key(id) == Key(gone[i]) <==> id == gone[i] {
        KeysDiffer(id, gone[i]);
      }
    }
  }

  /** Forgetting ids leaves an index that matches, without them, and keeps every other record. */
  lemma ForgetKeeps(p: Prefs, gone: seq<string>)
    requires IndexMatches(p)
    ensures var q := Forget(p, LoadIndex(p), gone);
            && IndexMatches(q)
            && (forall id :: id in LoadIndex(q) <==> id in LoadIndex(p) && id !in gone)
            && (forall id :: Key(id) in q ==> Key(id) in p && q[Key(id)] == p[Key(id)])
  {
    if gone != [] {
      RemovedKeys(p, gone);
      MinusMembers(LoadIndex(p), gone);
      SaveIndexLoads(p - KeysOf(gone), Minus(LoadIndex(p), gone));
    }
  }

  /** If only records that the map lost or that have expired are forgotten, the store still matches the map. */
  lemma ForgetRel(j: Json, p: Prefs, m: Plain, m': Plain, gone: seq<string>, now: int)
    requires Rel(j, p, m, now)
    requires forall id :: id in m' ==> id in m && m'[id] == m[id]
    requires forall id :: id in m && id !in m' ==> id in gone || id !in LoadIndex(p)
    requires forall id :: id in gone && id in m' ==> Expired(m'[id], now)
    ensures Rel(j, Forget(p, LoadIndex(p), gone), m', now)
  {
    ForgetKeeps(p, gone);
    var q := Forget(p, LoadIndex(p), gone);
    forall id | id in LoadIndex(q) ensures Holds(j, q, m', id) {
      assert Holds(j, p, m, id);
    }
  }

  // ----- every operation keeps the relation -----

  lemma SaveKeeps(j: Json, p: Prefs, r: Record)
    requires GoodId(r.transferId) && IndexMatches(p)
    ensures var q := Save(j, p, r);
            && IndexMatches(q)
            && (forall id :: id in LoadIndex(q) <==> id in LoadIndex(p) || id == r.transferId)
            && (forall id :: Key(id) in q ==> if id == r.transferId then q[Key(id)] == j.write(r)
                                              else Key(id) in p && q[Key(id)] == p[Key(id)])
  {
    var q := p[Key(r.transferId) := j.write(r)];
    forall id ensures Key(id) != KEY_INDEX && (Key(id) == Key(r.transferId) <==> id == r.transferId) {
      KeysDiffer(id, r.transferId);
    }
    var ids := LoadIndex(p);
    assert LoadIndex(q) == ids;
    if r.transferId !in ids {
      assert GoodIds(ids + [r.transferId]);
      SaveIndexLoads(q, ids + [r.transferId]);
    }
  }

  lemma SaveRel(j: Json, p: Prefs, m: Plain, r: Record, now: int)
    requires RoundTrips(j) && GoodId(r.transferId) && Rel(j, p, m, now)
    ensures Rel(j, Save(j, p, r), m[r.transferId := r], now)
  {
    SaveKeeps(j, p, r);
    var m', q := m[r.transferId := r], Save(j, p, r);
    forall id | id in LoadIndex(q) ensures Holds(j, q, m', id) {
      assert Key(id) in q;
      if id != r.transferId {
        assert Holds(j, p, m, id);
      }
    }
  }

  lemma DeleteIsForget(p: Prefs, id: string)
    requires IndexMatches(p)
    ensures Delete(p, id) == if id in LoadIndex(p) then Forget(p, LoadIndex(p), [id]) else p
  {
    assert KeysOf([id]) == {Key(id)} by {
      assert [id][0] == id;
    }
    RemovedKeys(p, [id]);
    if id !in LoadIndex(p) {
      assert Key(id) !in p;
      assert p - {Key(id)} == p;
    }
  }

  lemma DeleteRel(j: Json, p: Prefs, m: Plain, id: string, now: int)
    requires Rel(j, p, m, now)
    ensures Rel(j, Delete(p, id), m - {id}, now)
    ensures id !in m || Expired(m[id], now) ==> Rel(j, Delete(p, id), m, now)
  {
    DeleteIsForget(p, id);
    if id in LoadIndex(p) {
      assert Holds(j, p, m, id);
      ForgetRel(j, p, m, m - {id}, [id], now);
      if Expired(m[id], now) {
        ForgetRel(j, p, m, m, [id], now);
      }
    } else {
      ForgetRel(j, p, m, m - {id}, [], now);
    }
  }

  lemma ClearRel(j: Json, p: Prefs, m: Plain, now: int)
    requires Rel(j, p, m, now)
    ensures Rel(j, Clear(p), map[], now)
  {
    var ids := LoadIndex(p);
    RemovedKeys(p, ids);
    SaveIndexLoads(p - KeysOf(ids), []);
  }

  lemma PruneRel(j: Json, p: Prefs, m: Plain, now: int, missingToo: bool)
    requires Rel(j, p, m, now)
    ensures Rel(j, Forget(p, LoadIndex(p), Stale(j, p, LoadIndex(p), now, missingToo)), m, now)
  {
    var ids := LoadIndex(p);
    StaleMembers(j, p, ids, now, missingToo);
    forall id | id in Stale(j, p, ids, now, missingToo) && id in m ensures Expired(m[id], now) {
      assert Holds(j, p, m, id);
    }
    ForgetRel(j, p, m, m, Stale(j, p, ids, now, missingToo), now);
  }

  lemma Later(j: Json, p: Prefs, m: Plain, now: int, later: int)
    requires Rel(j, p, m, now) && now <= later
    ensures Rel(j, p, m, later)
  {
  }

  // ----- the answers -----

  /** get returns the record the map holds, unless it has expired. */
  lemma GetAnswers(j: Json, p: Prefs, m: Plain, id: string, now: int)
    requires Rel(j, p, m, now)
    ensures Get(j, p, id, now).1 == if id in m && !Expired(m[id], now) then Some(m[id]) else None
  {
    if id in LoadIndex(p) {
      assert Holds(j, p, m, id);
    } else {
      assert Key(id) !in p;
    }
  }

  lemma GetRel(j: Json, p: Prefs, m: Plain, id: string, now: int)
    requires Rel(j, p, m, now)
    ensures Rel(j, Get(j, p, id, now).0, m, now)
  {
    var r := Stored(j, p, id);
    if r.Some? && Expired(r.value, now) {
      assert id in LoadIndex(p);
      assert Holds(j, p, m, id);
      DeleteRel(j, p, m, id, now);
    }
  }

  lemma {:induction false} ListedMembers(j: Json, p: Prefs, m: Plain, ids: seq<string>, sender: Option<string>,
                                         now: int)
    requires Once(ids) && forall id :: id in ids ==> Holds(j, p, m, id)
    ensures var out := Listed(j, p, ids, sender, now);
            && (forall r :: r in out <==>
                  r.transferId in ids && r.transferId in m && m[r.transferId] == r && Wanted(r, sender, now))
            && (forall i, k :: 0 <= i < k < |out| ==> out[i].transferId != out[k].transferId)
  {
    if ids != [] {
      var before, last := ids[..|ids| - 1], ids[|ids| - 1];
      assert ids == before + [last] && last !in before;
      ListedMembers(j, p, m, before, sender, now);
      assert Holds(j, p, m, last);
      var earlier := Listed(j, p, before, sender, now);
      forall i | 0 <= i < |earlier| ensures earlier[i].transferId != last {
        assert earlier[i] in earlier;
      }
    }
  }

  /** listForSender returns exactly the unexpired records of that sender in the map, each once. */
  lemma ListAnswers(j: Json, p: Prefs, m: Plain, sender: Option<string>, now: int)
    requires Rel(j, p, m, now)
    ensures var out := ListForSender(j, p, sender, now).1;
            && (forall r :: r in out <==> r.transferId in m && m[r.transferId] == r && Wanted(r, sender, now))
            && (forall i, k :: 0 <= i < k < |out| ==> out[i].transferId != out[k].transferId)
  {
    ListedMembers(j, p, m, LoadIndex(p), sender, now);
  }

  /** pruneExpired leaves exactly the unexpired records, and counts what it removed. */
  lemma PruneAnswers(j: Json, p: Prefs, m: Plain, now: int)
    requires Rel(j, p, m, now)
    ensures var (q, removed) := PruneExpired(j, p, now);
            && (forall id :: id in LoadIndex(q) <==> id in m && !Expired(m[id], now))
            && removed == |LoadIndex(p)| - |LoadIndex(q)|
  {
    var ids := LoadIndex(p);
    var gone := Stale(j, p, ids, now, true);
    StaleMembers(j, p, ids, now, true);
    MinusStaleCount(j, p, ids, gone, now, true);
    ForgetKeeps(p, gone);
    MinusMembers(ids, gone);
    if gone != [] {
      SaveIndexLoads(p - KeysOf(gone), Minus(ids, gone));
    }
    forall id | id in ids ensures id in gone <==> Expired(m[id], now) {
      assert Holds(j, p, m, id);
    }
  }

  // ----- every run -----

  predicate ClockForward(events: seq<Event>, start: int, now: int) {
    if events == [] then start <= now
    else events[|events| - 1].at <= now && ClockForward(events[..|events| - 1], start, events[|events| - 1].at)
  }

  predicate SavesGoodIds(events: seq<Event>) {
    forall i :: 0 <= i < |events| && events[i].op.Saves? ==> GoodId(events[i].op.record.transferId)
  }

  lemma StepRel(j: Json, p: Prefs, m: Plain, e: Event)
    requires RoundTrips(j) && Rel(j, p, m, e.at)
    requires e.op.Saves? ==> GoodId(e.op.record.transferId)
    ensures Rel(j, Step(j, p, e), PlainStep(m, e.op), e.at)
  {
    match e.op
    case Saves(r) => SaveRel(j, p, m, r, e.at);
    case Deletes(id) => DeleteRel(j, p, m, id, e.at);
    case Clears => ClearRel(j, p, m, e.at);
    case Gets(id) => GetRel(j, p, m, id, e.at);
    case Lists(sender) => PruneRel(j, p, m, e.at, false);
    case Prunes => PruneRel(j, p, m, e.at, true);
  }

  lemma {:induction false} RunRel(j: Json, p: Prefs, m: Plain, events: seq<Event>, start: int, now: int)
    requires RoundTrips(j) && Rel(j, p, m, start)
    requires ClockForward(events, start, now) && SavesGoodIds(events)
    ensures Rel(j, Run(j, p, events), PlainRun(m, events), now)
  {
    if events == [] {
      Later(j, p, m, start, now);
    } else {
      var before, e := events[..|events| - 1], events[|events| - 1];
      RunRel(j, p, m, before, start, e.at);
      StepRel(j, Run(j, p, before), PlainRun(m, before), e);
      Later(j, Run(j, p, events), PlainRun(m, events), e.at, now);
    }
  }

  /** From an empty store, after any run of operations with good ids and a clock that never goes back, the decoded
      index is the set of stored keys, and get and listForSender answer as the plain map does. */
  lemma StoreIsAPlainMap(j: Json, events: seq<Event>, start: int, now: int, id: string, sender: Option<string>)
    requires RoundTrips(j) && ClockForward(events, start, now) && SavesGoodIds(events)
    ensures var p, m := Run(j, map[], events), PlainRun(map[], events);
            && (forall k :: k in LoadIndex(p) <==> Key(k) in p)
            && Get(j, p, id, now).1 == (if id in m && !Expired(m[id], now) then Some(m[id]) else None)
            && (forall r :: r in ListForSender(j, p, sender, now).1
                            <==> r.transferId in m && m[r.transferId] == r && Wanted(r, sender, now))
  {
    assert Rel(j, map[], map[], start);
    RunRel(j, map[], map[], events, start, now);
    GetAnswers(j, Run(j, map[], events), PlainRun(map[], events), id, now);
    ListAnswers(j, Run(j, map[], events), PlainRun(map[], events), sender, now);
  }

  /** Saving into any store that matches a map: the record is found by get, and it is listed if and only if its id is
      good. */
  lemma SavedIsListedIffGood(j: Json, p: Prefs, m: Plain, r: Record, now: int)
    requires RoundTrips(j) && Rel(j, p, m, now) && !Expired(r, now)
    ensures var q := Save(j, p, r);
            && Get(j, q, r.transferId, now).1 == Some(r)
            && (r in ListForSender(j, q, None, now).1 <==> GoodId(r.transferId))
  {
    KeysDiffer(r.transferId, r.transferId);
    if GoodId(r.transferId) {
      SaveRel(j, p, m, r, now);
      ListAnswers(j, Save(j, p, r), m[r.transferId := r], None, now);
    } else {
      BadIdIsNotListed(j, p, m, r, now);
    }
  }

  lemma BadIdIsNotListed(j: Json, p: Prefs, m: Plain, r: Record, now: int)
    requires RoundTrips(j) && Rel(j, p, m, now) && !GoodId(r.transferId)
    ensures r !in ListForSender(j, Save(j, p, r), None, now).1
  {
    var p1, q := p[Key(r.transferId) := j.write(r)], Save(j, p, r);
    KeysDiffer(r.transferId, r.transferId);
    var ids := LoadIndex(p);
    assert LoadIndex(p1) == ids && r.transferId !in ids;
    assert q == SaveIndex(p1, ids + [r.transferId]);
    assert (ids + [r.transferId])[|ids|] == r.transferId;
    SurvivesIffGood(ids + [r.transferId], r.transferId);
    forall id | id in LoadIndex(q) ensures Stored(j, q, id) != Some(r) {
      KeysDiffer(id, r.transferId);
      if Key(id) in p {
        assert Holds(j, p, m, id);
      }
    }
    ListedComeFromTheirKeys(j, q, LoadIndex(q), None, now);
  }

  lemma {:induction false} ListedComeFromTheirKeys(j: Json, p: Prefs, ids: seq<string>, sender: Option<string>,
                                                   now: int)
    ensures forall r :: r in Listed(j, p, ids, sender, now) ==> exists id :: id in ids && Stored(j, p, id) == Some(r)
  {
    if ids != [] {
      ListedComeFromTheirKeys(j, p, ids[..|ids| - 1], sender, now);
      assert ids == ids[..|ids| - 1] + [ids[|ids| - 1]];
    }
  }
}

/** The store over whatever preferences it finds, with records that cannot be read, are missing, or are not listed. */
module InterruptedStoreRepair {
  import opened Bytes
  import opened InterruptedStore
  import opened InterruptedStoreRuns

  /** There is a record for the id, it can be read, and it has not expired. */
  predicate Current(j: Json, p: Prefs, id: string, now: int) {
    Key(id) in p && j.parse(p[Key(id)]).Some? && now <= j.parse(p[Key(id)]).value.expireAt
  }

  /** Whatever string is stored as the index, the ids read from it are good and distinct. */
  lemma LoadedIdsAreGood(p: Prefs)
    ensures GoodIds(LoadIndex(p))
  {
    if KEY_INDEX in p {
      PiecesHaveNoComma(p[KEY_INDEX]);
      OnceMembers(Split(p[KEY_INDEX]));
    }
  }

  lemma ForgetForgets(p: Prefs, gone: seq<string>)
    ensures var q := Forget(p, LoadIndex(p), gone);
            && (forall id :: id in LoadIndex(q) <==> id in LoadIndex(p) && id !in gone)
            && (forall id :: Key(id) in q <==> Key(id) in p && id !in gone)
            && (forall id :: Key(id) in q ==> q[Key(id)] == p[Key(id)])
  {
    if gone != [] {
      LoadedIdsAreGood(p);
      RemovedKeys(p, gone);
      MinusMembers(LoadIndex(p), gone);
      SaveIndexLoads(p - KeysOf(gone), Minus(LoadIndex(p), gone));
    }
  }

  /** pruneExpired over any preferences: what is listed afterwards is exactly what was listed and current; of the listed
      ids the others lose their records, and nothing else is touched. */
  lemma PruneRepairs(j: Json, p: Prefs, now: int)
    ensures var (q, removed) := PruneExpired(j, p, now);
            && (forall id :: id in LoadIndex(q) <==> id in LoadIndex(p) && Current(j, p, id, now))
            && (forall id :: Key(id) in q <==> Key(id) in p && (id !in LoadIndex(p) || Current(j, p, id, now)))
            && (forall id :: Key(id) in q ==> q[Key(id)] == p[Key(id)])
            && removed == |LoadIndex(p)| - |LoadIndex(q)|
  {
    var ids := LoadIndex(p);
    var gone := Stale(j, p, ids, now, true);
    StaleMembers(j, p, ids, now, true);
    ForgetForgets(p, gone);
    forall id | id in ids ensures id in gone <==> !Current(j, p, id, now) {
    }
    MinusStaleCount(j, p, ids, gone, now, true);
    if gone != [] {
      LoadedIdsAreGood(p);
      MinusMembers(ids, gone);
      SaveIndexLoads(p - KeysOf(gone), Minus(ids, gone));
    }
  }

  lemma {:induction false} ListedAreWanted(j: Json, p: Prefs, ids: seq<string>, sender: Option<string>, now: int)
    ensures forall r :: r in Listed(j, p, ids, sender, now) <==>
                          Wanted(r, sender, now) && exists id :: id in ids && Stored(j, p, id) == Some(r)
  {
    if ids != [] {
      var before, last := ids[..|ids| - 1], ids[|ids| - 1];
      ListedAreWanted(j, p, before, sender, now);
      assert ids == before + [last];
      forall r ensures r in Listed(j, p, ids, sender, now) <==>
                         Wanted(r, sender, now) && exists id :: id in ids && Stored(j, p, id) == Some(r)
      {
        assert r in Listed(j, p, ids, sender, now) <==>
                 r in Listed(j, p, before, sender, now) || (Stored(j, p, last) == Some(r) && Wanted(r, sender, now));
      }
    }
  }

  /** listForSender over any preferences: it returns exactly the listed records that can be read, have not expired and
      are of that sender; it forgets the unreadable and the expired, and keeps an id without a record. */
  lemma ListRepairs(j: Json, p: Prefs, sender: Option<string>, now: int)
    ensures var (q, out) := ListForSender(j, p, sender, now);
            && (forall r :: r in out <==> Wanted(r, sender, now)
                                          && exists id :: id in LoadIndex(p) && Stored(j, p, id) == Some(r))
            && (forall id :: id in LoadIndex(q) <==>
                               id in LoadIndex(p) && (Key(id) !in p || Current(j, p, id, now)))
            && (forall id :: Key(id) in q <==> Key(id) in p && (id !in LoadIndex(p) || Current(j, p, id, now)))
            && (forall id :: Key(id) in q ==> q[Key(id)] == p[Key(id)])
  {
    var ids := LoadIndex(p);
    StaleMembers(j, p, ids, now, false);
    ListedAreWanted(j, p, ids, sender, now);
    ForgetForgets(p, Stale(j, p, ids, now, false));
    forall id | id in ids ensures id in Stale(j, p, ids, now, false) <==> Key(id) in p && !Current(j, p, id, now) {
    }
  }

  /** get over any preferences: an expired record is deleted, an unreadable one stays where it is. */
  lemma GetRepairs(j: Json, p: Prefs, id: string, now: int)
    ensures var (q, r) := Get(j, p, id, now);
            && (r.Some? <==> Current(j, p, id, now)) && (r.Some? ==> r == j.parse(p[Key(id)]) && q == p)
            && (Key(id) !in p || j.parse(p[Key(id)]).None? ==> q == p)
            && (Key(id) in p && j.parse(p[Key(id)]).Some? && r.None? ==> Key(id) !in q && id !in LoadIndex(q))
  {
    var q := p - {Key(id)};
    if Get(j, p, id, now).0 != p {
      DeleteForgets(p, id);
    }
  }

  lemma DeleteForgets(p: Prefs, id: string)
    ensures var q := Delete(p, id); Key(id) !in q && id !in LoadIndex(q)
  {
    KeysDiffer(id, id);
    var q := p - {Key(id)};
    var ids := LoadIndex(q);
    LoadedIdsAreGood(q);
    if id in ids {
      MinusMembers(ids, [id]);
      SaveIndexLoads(q, Minus(ids, [id]));
    }
  }

  /** clear over any preferences: every listed record goes, and nothing is listed any more. */
  lemma ClearRepairs(p: Prefs)
    ensures LoadIndex(Clear(p)) == []
    ensures forall id :: Key(id) in Clear(p) <==> Key(id) in p && id !in LoadIndex(p)
  {
    RemovedKeys(p, LoadIndex(p));
    forall id ensures Key(id) != KEY_INDEX {
      KeysDiffer(id, id);
    }
  }
}

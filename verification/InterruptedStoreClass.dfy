/** The object InterruptedTransferStore. It carries the plain map it stands for, and as long as it is used in order
    (good ids, a clock that does not go back) it answers as that map does. */
module InterruptedStoreClass {
  import opened Bytes
  import opened InterruptedStore
  import opened InterruptedStoreRuns

  class InterruptedTransferStore {
    const json: Json
    var prefs: Prefs
    ghost var plain: Plain
    ghost var clock: int
    ghost var inOrder: bool

    ghost predicate Valid()
      reads this
    {
      RoundTrips(json) && (inOrder ==> Rel(json, prefs, plain, clock))
    }

    /** Over whatever an earlier process left behind. */
    constructor (json: Json, prefs: Prefs, ghost plain: Plain, ghost clock: int)
      requires RoundTrips(json)
      ensures Valid() && this.json == json && this.prefs == prefs && this.plain == plain && this.clock == clock
      ensures inOrder <==> Rel(json, prefs, plain, clock)
    {
      this.json, this.prefs, this.plain, this.clock := json, prefs, plain, clock;
      inOrder := Rel(json, prefs, plain, clock);
    }

    /** Replaces the record of that id, and no other. */
    method DoSave(r: Record)
      requires Valid()
      modifies this
      ensures Valid() && plain == old(plain)[r.transferId := r] && clock == old(clock)
      ensures inOrder <==> old(inOrder) && GoodId(r.transferId)
      ensures prefs == Save(json, old(prefs), r)
    {
      ghost var before := prefs;
      prefs := prefs[Key(r.transferId) := json.write(r)];
      var current := LoadIndex(prefs);
      if r.transferId !in current {
        prefs := SaveIndex(prefs, current + [r.transferId]);
      }
      inOrder := inOrder && GoodId(r.transferId);
      if inOrder {
        SaveRel(json, before, plain, r, clock);
      }
      plain := plain[r.transferId := r];
    }

    /** Removes the record of that id, and no other. */
    method DoDelete(id: string)
      requires Valid()
      modifies this
      ensures Valid() && plain == old(plain) - {id} && clock == old(clock) && inOrder == old(inOrder)
      ensures prefs == Delete(old(prefs), id)
    {
      ghost var before := prefs;
      prefs := prefs - {Key(id)};
      var current := LoadIndex(prefs);
      if id in current {
        prefs := SaveIndex(prefs, Minus(current, [id]));
      }
      if inOrder {
        DeleteRel(json, before, plain, id, clock);
      }
      plain := plain - {id};
    }

    method RemoveKeys(ids: seq<string>)
      modifies this`prefs
      ensures prefs == old(prefs) - KeysOf(ids)
    {
      var i := 0;
      while i < |ids|
        invariant 0 <= i <= |ids|
        invariant prefs == old(prefs) - KeysOf(ids[..i])
      {
        assert KeysOf(ids[..i + 1]) == KeysOf(ids[..i]) + {Key(ids[i])};
        prefs := prefs - {Key(ids[i])};
        i := i + 1;
      }
      assert ids[..i] == ids;
    }

    /** Removes every record. */
    method DoClear()
      requires Valid()
      modifies this
      ensures Valid() && plain == map[] && clock == old(clock) && inOrder == old(inOrder)
      ensures prefs == Clear(old(prefs))
    {
      ghost var before := prefs;
      RemoveKeys(LoadIndex(prefs));
      prefs := prefs[KEY_INDEX := ""];
      if inOrder {
        ClearRel(json, before, plain, clock);
      }
      plain := map[];
    }

    /** The record the map holds, unless it has expired; and the map stays as it is. */
    method DoGet(id: string, now: int) returns (r: Option<Record>)
      requires Valid()
      modifies this
      ensures Valid() && plain == old(plain) && clock == now && (inOrder <==> old(inOrder) && old(clock) <= now)
      ensures inOrder ==> r == if id in plain && !Expired(plain[id], now) then Some(plain[id]) else None
      ensures (prefs, r) == Get(json, old(prefs), id, now)
    {
      ghost var before, map0 := prefs, plain;
      inOrder := inOrder && clock <= now;
      if inOrder {
        Later(json, prefs, plain, clock, now);
        GetAnswers(json, prefs, plain, id, now);
        GetRel(json, prefs, plain, id, now);
      }
      clock := now;
      if Key(id) !in prefs {
        return None;
      }
      r := json.parse(prefs[Key(id)]);
      if r.Some? && Expired(r.value, now) {
        DoDelete(id);
        plain := map0;
        r := None;
      }
    }

    /** The loop of listForSender: what it returns and what it finds to delete. */
    method Scan(index: seq<string>, sender: Option<string>, now: int)
      returns (toDelete: seq<string>, result: seq<Record>)
      ensures toDelete == Stale(json, prefs, index, now, false)
      ensures result == Listed(json, prefs, index, sender, now)
    {
      toDelete, result := [], [];
      var i := 0;
      while i < |index|
        invariant 0 <= i <= |index|
        invariant result == Listed(json, prefs, index[..i], sender, now)
        invariant toDelete == Stale(json, prefs, index[..i], now, false)
      {
        var id := index[i];
        assert index[..i + 1][..i] == index[..i];
        i := i + 1;
        if Key(id) !in prefs {
          continue;
        }
        var r := json.parse(prefs[Key(id)]);
        if r.None? || Expired(r.value, now) {
          toDelete := toDelete + [id];
        } else if sender.None? || r.value.senderIdentity == sender.value {
          result := result + [r.value];
        }
      }
      assert index[..i] == index;
    }

    /** Exactly the map's unexpired records of that sender, each once; and the map stays as it is. */
    method DoListForSender(sender: Option<string>, now: int) returns (result: seq<Record>)
      requires Valid()
      modifies this
      ensures Valid() && plain == old(plain) && clock == now && (inOrder <==> old(inOrder) && old(clock) <= now)
      ensures inOrder ==>
                && (forall r :: r in result <==>
                      r.transferId in plain && plain[r.transferId] == r && Wanted(r, sender, now))
                && (forall i, k :: 0 <= i < k < |result| ==> result[i].transferId != result[k].transferId)
      ensures (prefs, result) == ListForSender(json, old(prefs), sender, now)
    {
      var index := LoadIndex(prefs);
      var toDelete;
      toDelete, result := Scan(index, sender, now);
      if toDelete != [] {
        RemoveKeys(toDelete);
        prefs := SaveIndex(prefs, Minus(index, toDelete));
      }
      inOrder := inOrder && clock <= now;
      if inOrder {
        Later(json, old(prefs), plain, clock, now);
        ListAnswers(json, old(prefs), plain, sender, now);
        PruneRel(json, old(prefs), plain, now, false);
      }
      clock := now;
    }

    /** The loop of pruneExpired. */
    method FindStale(index: seq<string>, now: int) returns (toDelete: seq<string>)
      ensures toDelete == Stale(json, prefs, index, now, true)
    {
      toDelete := [];
      var i := 0;
      while i < |index|
        invariant 0 <= i <= |index|
        invariant toDelete == Stale(json, prefs, index[..i], now, true)
      {
        var id := index[i];
        assert index[..i + 1][..i] == index[..i];
        i := i + 1;
        if Key(id) !in prefs {
          toDelete := toDelete + [id];
          continue;
        }
        var r := json.parse(prefs[Key(id)]);
        if r.None? || Expired(r.value, now) {
          toDelete := toDelete + [id];
        }
      }
      assert index[..i] == index;
    }

    /** Leaves exactly the map's unexpired records, and counts what it removed. */
    method DoPruneExpired(now: int) returns (removed: nat)
      requires Valid()
      modifies this
      ensures Valid() && plain == old(plain) && clock == now && (inOrder <==> old(inOrder) && old(clock) <= now)
      ensures inOrder ==>
                && (forall id :: id in LoadIndex(prefs) <==> id in plain && !Expired(plain[id], now))
                && removed == |LoadIndex(old(prefs))| - |LoadIndex(prefs)|
      ensures (prefs, removed) == PruneExpired(json, old(prefs), now)
    {
      var index := LoadIndex(prefs);
      var toDelete := FindStale(index, now);
      if toDelete != [] {
        RemoveKeys(toDelete);
        prefs := SaveIndex(prefs, Minus(index, toDelete));
      }
      removed := |toDelete|;
      inOrder := inOrder && clock <= now;
      if inOrder {
        Later(json, old(prefs), plain, clock, now);
        PruneAnswers(json, old(prefs), plain, now);
        PruneRel(json, old(prefs), plain, now, true);
      }
      clock := now;
    }
  }
}

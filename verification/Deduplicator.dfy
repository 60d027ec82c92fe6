/** NotificationDeduplicator: an access-ordered cache of content hashes against the history of what was seen. */
module Deduplicator {
  import opened Bytes
  import opened Recency

  const MAX_ENTRIES := 200

  /** What is hashed: the title, a zero byte, the body. */
  function Preimage(title: Bytes, body: Bytes): Bytes {
    title + [0] + body
  }

  /** One title continues the other one after a zero byte, and the bodies make up for it. */
  ghost predicate ZeroByteShift(t: Bytes, b: Bytes, t': Bytes, b': Bytes) {
    || (exists x: Bytes :: t' == t + [0] + x && b == x + [0] + b')
    || (exists x: Bytes :: t == t' + [0] + x && b' == x + [0] + b)
  }

  /** Two notifications hash the same bytes without being equal if and only if one title is the other one
      continued with a zero byte; so never when both titles are free of zero bytes. */
  lemma PreimageCollision(t: Bytes, b: Bytes, t': Bytes, b': Bytes)
    ensures Preimage(t, b) == Preimage(t', b') && (t, b) != (t', b') <==> ZeroByteShift(t, b, t', b')
    ensures 0 !in t && 0 !in t' && Preimage(t, b) == Preimage(t', b') ==> t == t' && b == b'
  {
    if Preimage(t, b) == Preimage(t', b') {
      var p := Preimage(t, b);
      assert p[..|t|] == t && p[|t|] == 0 && p[|t| + 1..] == b;
      assert p[..|t'|] == t' && p[|t'|] == 0 && p[|t'| + 1..] == b';
      if |t| < |t'| {
        SplitAt(t, b, t', b');
      } else if |t'| < |t| {
        SplitAt(t', b', t, b);
      }
    }
    if x: Bytes :| t' == t + [0] + x && b == x + [0] + b' {
      assert Preimage(t, b) == t + [0] + x + [0] + b' == Preimage(t', b');
    }
    if x: Bytes :| t == t' + [0] + x && b' == x + [0] + b {
      assert Preimage(t', b') == t' + [0] + x + [0] + b == Preimage(t, b);
    }
  }

  lemma SplitAt(t: Bytes, b: Bytes, t': Bytes, b': Bytes)
    requires Preimage(t, b) == Preimage(t', b') && |t| < |t'|
    ensures exists x: Bytes :: t' == t + [0] + x && b == x + [0] + b'
    ensures 0 in t'
  {
    var p := Preimage(t, b);
    assert p[..|t'|] == t' && p[|t'| + 1..] == b' && p[|t| + 1..] == b && p[..|t|] == t && p[|t|] == 0;
    assert t'[|t|] == 0;
    var x := t'[|t| + 1..];
    assert t' == t + [0] + x;
    assert b == p[|t| + 1..|t'|] + [p[|t'|]] + p[|t'| + 1..];
    assert p[|t'|] == 0 && p[|t| + 1..|t'|] == x;
  }

  // ----- the object -----

  datatype Event = Seen(id: string, title: Bytes, body: Bytes) | Removed(id: string)

  function ToOp(sha: Hash, e: Event): Op<string> {
    match e
    case Seen(id, title, body) => Put(id, sha(Preimage(title, body)))
    case Removed(id) => Drop(IsKey(id))
  }

  function ToOps(sha: Hash, events: seq<Event>): seq<Op<string>> {
    if events == [] then [] else ToOps(sha, events[..|events| - 1]) + [ToOp(sha, events[|events| - 1])]
  }

  /** The cache after a history. */
  function Cache(sha: Hash, events: seq<Event>): Ordered<string> {
    Bounded(ToOps(sha, events), MAX_ENTRIES)
  }

  class NotificationDeduplicator {
    const sha: Hash
    var cache: Ordered<string>
    ghost var events: seq<Event>

    constructor (sha: Hash)
      ensures Valid() && events == [] && this.sha == sha
    {
      this.sha, cache, events := sha, [], [];
    }

    ghost predicate Valid()
      reads this
    {
      cache == Cache(sha, events)
    }

    /** Reading the map moves the key to the young end, and so does writing it; a new key may evict the eldest. */
    method ShouldSend(id: string, title: Bytes, body: Bytes) returns (send: bool)
      requires Valid()
      modifies this
      ensures Valid() && events == old(events) + [Seen(id, title, body)]
      ensures send <==> !HeldBack(sha, old(events), id, title, body)
    {
      var hash := sha(Preimage(title, body));
      var prev := Find(cache, id);
      cache := Without(cache, id) + [Entry(id, hash)];
      if |cache| > MAX_ENTRIES {
        cache := cache[|cache| - MAX_ENTRIES..];
      }
      send := prev != Some(hash);
      ToOpsSnoc(sha, events, Seen(id, title, body));
      events := events + [Seen(id, title, body)];
    }

    method Remove(id: string)
      requires Valid()
      modifies this
      ensures Valid() && events == old(events) + [Removed(id)]
    {
      cache := Without(cache, id);
      ToOpsSnoc(sha, events, Removed(id));
      events := events + [Removed(id)];
    }
  }

  lemma ToOpsSnoc(sha: Hash, events: seq<Event>, e: Event)
    ensures Cache(sha, events + [e]) == Apply(Cache(sha, events), ToOp(sha, e), MAX_ENTRIES)
  {
    var all := events + [e];
    assert all[..|all| - 1] == events;
    var ops := ToOps(sha, all);
    assert ops[..|ops| - 1] == ToOps(sha, events);
  }

  // ----- against history -----

  /** The last notification seen for an id, unless it was removed since. */
  function LastSeen(events: seq<Event>, id: string): Option<(Bytes, Bytes)> {
    if events == [] then None
    else
      match events[|events| - 1]
      case Seen(i, t, b) => if i == id then Some((t, b)) else LastSeen(events[..|events| - 1], id)
      case Removed(i) => if i == id then None else LastSeen(events[..|events| - 1], id)
  }

  /** The other ids seen since the id itself was last seen. */
  function OtherIdsSince(events: seq<Event>, id: string): set<string> {
    if events == [] then {}
    else
      var before := OtherIdsSince(events[..|events| - 1], id);
      match events[|events| - 1]
      case Seen(i, _, _) => if i == id then {} else before + {i}
      case Removed(_) => before
  }

  lemma {:induction false} HistoryOfHashes(sha: Hash, events: seq<Event>, id: string)
    ensures var m := Unbounded(ToOps(sha, events));
            && (id in m <==> LastSeen(events, id).Some?)
            && (id in m ==> var (t, b) := LastSeen(events, id).value; m[id] == sha(Preimage(t, b)))
    ensures OthersSince(ToOps(sha, events), id) == OtherIdsSince(events, id)
  {
    if events != [] {
      HistoryOfHashes(sha, events[..|events| - 1], id);
      var ops := ToOps(sha, events);
      assert ops[..|ops| - 1] == ToOps(sha, events[..|events| - 1]);
    }
  }

  /** The cache still holds a hash for the id. */
  predicate Cached(sha: Hash, events: seq<Event>, id: string) {
    Find(Cache(sha, events), id).Some?
  }

  predicate HeldBack(sha: Hash, events: seq<Event>, id: string, title: Bytes, body: Bytes) {
    Find(Cache(sha, events), id) == Some(sha(Preimage(title, body)))
  }

  /** After any history a notification is held back if and only if the cache still holds its id and the last one seen
      for it, not removed since, hashes alike. The id is still held while fewer than 200 other ids were seen since,
      and the cache never exceeds 200 entries. */
  lemma HeldBackIffHashedAlike(sha: Hash, events: seq<Event>, id: string, title: Bytes, body: Bytes)
    ensures var last := LastSeen(events, id);
            && |Cache(sha, events)| <= 200
            && (Cached(sha, events, id) ==> last.Some?)
            && (last.Some? && |OtherIdsSince(events, id)| < 200 ==> Cached(sha, events, id))
            && (HeldBack(sha, events, id, title, body) <==>
                  Cached(sha, events, id)
                  && sha(Preimage(title, body)) == sha(Preimage(last.value.0, last.value.1)))
  {
    HistoryOfHashes(sha, events, id);
    LookupAgrees(ToOps(sha, events), MAX_ENTRIES, id);
  }

  /** Without a hash collision, then: held back if and only if the id is still held and the notification repeats the
      last one, or differs from it by the shift of a zero byte. If neither title has a zero byte, only repeats are. */
  lemma HeldBackIffRepeated(sha: Hash, events: seq<Event>, id: string, title: Bytes, body: Bytes)
    requires var last := LastSeen(events, id);
             last.Some? ==> NoCollision(sha, Preimage(title, body), Preimage(last.value.0, last.value.1))
    ensures var last := LastSeen(events, id);
            && (HeldBack(sha, events, id, title, body) <==>
                  Cached(sha, events, id) && last.Some?
                  && (last.value == (title, body) || ZeroByteShift(title, body, last.value.0, last.value.1)))
            && (last.Some? && 0 !in title && 0 !in last.value.0 ==>
                  !ZeroByteShift(title, body, last.value.0, last.value.1))
  {
    HeldBackIffHashedAlike(sha, events, id, title, body);
    if LastSeen(events, id).Some? {
      var (t, b) := LastSeen(events, id).value;
      PreimageCollision(title, body, t, b);
    }
  }

  /** It does hold back what is no repeat: the body "BC" with a zero byte between, then the title with the B. */
  lemma ShiftedZeroByteIsHeldBack(sha: Hash, id: string)
    ensures HeldBack(sha, [Seen(id, [65], [66, 0, 67])], id, [65, 0, 66], [67])
  {
    var events := [Seen(id, [65], [66, 0, 67])];
    assert Preimage([65], [66, 0, 67]) == Preimage([65, 0, 66], [67]) == [65, 0, 66, 0, 67];
    assert events[..0] == [];
    HeldBackIffHashedAlike(sha, events, id, [65, 0, 66], [67]);
    assert OtherIdsSince(events, id) == {};
  }
}

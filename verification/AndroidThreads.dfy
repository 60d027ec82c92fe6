/** Threads of the Android client that send on one session. Nothing locks encryptFrame: the counter is read for the
    nonce, read again and written back by the increment, and the frame is written later. */
module AndroidThreads {
  import opened Bytes
  import opened SecureChannel
  import opened SessionTraffic

  datatype Event =
    | Reads(thread: nat)     // val nonce = makeNonce(sendCounter)
    | Loads(thread: nat)     // sendCounter++ reads the field
    | Stores(thread: nat)    // sendCounter++ writes it back
    | Writes(thread: nat)    // the sealed frame goes to the socket

  /** How far a thread is with message `id`. */
  datatype Phase = Chosen(id: nat) | Loaded(id: nat, seen: nat) | Sealed(id: nat)

  /** numbers[id] is the number that the id-th encryption took; order are the ids on the wire. */
  datatype Threads = Threads(counter: nat, numbers: seq<nat>, at: map<nat, Phase>, order: seq<nat>)

  const START := Threads(0, [], map[], [])

  function Happens(t: Threads, e: Event): Threads {
    match e
    case Reads(x) =>
      if x in t.at then t else t.(numbers := t.numbers + [t.counter], at := t.at[x := Chosen(|t.numbers|)])
    case Loads(x) =>
      if x !in t.at || !t.at[x].Chosen? then t else t.(at := t.at[x := Loaded(t.at[x].id, t.counter)])
    case Stores(x) =>
      if x !in t.at || !t.at[x].Loaded? then t
      else t.(counter := t.at[x].seen + 1, at := t.at[x := Sealed(t.at[x].id)])
    case Writes(x) =>
      if x !in t.at || !t.at[x].Sealed? then t else t.(at := t.at - {x}, order := t.order + [t.at[x].id])
  }

  function AllHappen(events: seq<Event>): Threads {
    if events == [] then START else Happens(AllHappen(events[..|events| - 1]), events[|events| - 1])
  }

  /** A thread has taken a nonce and not yet moved the counter. */
  predicate Open(t: Threads, x: nat) {
    x in t.at && !t.at[x].Sealed?
  }

  /** No encryption begins while another thread is between its first read of the counter and its write. */
  ghost predicate Apart(events: seq<Event>) {
    events == [] ||
    (var front, e := events[..|events| - 1], events[|events| - 1];
     Apart(front) && (e.Reads? && e.thread !in AllHappen(front).at ==> forall x :: !Open(AllHappen(front), x)))
  }

  /** No encryption begins while another thread still has to write its frame. */
  predicate OneAtATime(events: seq<Event>) {
    events == [] ||
    (var front, e := events[..|events| - 1], events[|events| - 1];
     OneAtATime(front) && (e.Reads? ==> AllHappen(front).at == map[]))
  }

  predicate Distinct(s: seq<nat>) {
    forall i, j :: 0 <= i < j < |s| ==> s[i] != s[j]
  }

  predicate CountsUp(s: seq<nat>) {
    forall i :: 0 <= i < |s| ==> s[i] == i
  }

  // ----- what every interleaving keeps -----

  /** No encryption that began is twice on the wire or with the threads. */
  ghost predicate Once(t: Threads) {
    && (forall x :: x in t.at ==> t.at[x].id < |t.numbers| && t.at[x].id !in t.order)
    && (forall x, y :: x in t.at && y in t.at && t.at[x].id == t.at[y].id ==> x == y)
    && (forall i :: 0 <= i < |t.order| ==> t.order[i] < |t.numbers|)
    && Distinct(t.order)
  }

  ghost predicate Held(t: Threads, id: nat) {
    exists x :: x in t.at && t.at[x].id == id
  }

  /** And none is lost. */
  ghost predicate Kept(t: Threads) {
    forall id: nat :: id < |t.numbers| ==> id in t.order || Held(t, id)
  }

  lemma HappensOnce(t: Threads, e: Event)
    requires Once(t)
    ensures Once(Happens(t, e))
  {
  }

  lemma HappensKept(t: Threads, e: Event)
    requires Kept(t)
    ensures Kept(Happens(t, e))
  {
    var t' := Happens(t, e);
    forall id: nat | id < |t'.numbers| ensures id in t'.order || Held(t', id) {
      if id < |t.numbers| && id !in t'.order {
        StillHeld(t, e, id);
      } else if id >= |t.numbers| {
        assert e.thread in t'.at && t'.at[e.thread].id == id;
      }
    }
  }

  lemma StillHeld(t: Threads, e: Event, id: nat)
    requires id in t.order || Held(t, id)
    requires id !in Happens(t, e).order
    ensures Held(Happens(t, e), id)
  {
    var t' := Happens(t, e);
    assert id !in t.order by {
      assert t.order <= t'.order;
    }
    var x :| x in t.at && t.at[x].id == id;
    assert t'.order == t.order || t'.order == t.order + [t.at[e.thread].id];
    assert x in t'.at && t'.at[x].id == id;
  }

  lemma {:induction false} AllTracked(events: seq<Event>)
    ensures Once(AllHappen(events)) && Kept(AllHappen(events))
  {
    if events != [] {
      AllTracked(events[..|events| - 1]);
      HappensOnce(AllHappen(events[..|events| - 1]), events[|events| - 1]);
      HappensKept(AllHappen(events[..|events| - 1]), events[|events| - 1]);
    }
  }

  ghost predicate Bounded(t: Threads, n: nat) {
    && t.counter <= n && (forall i :: 0 <= i < |t.numbers| ==> t.numbers[i] <= n)
    && (forall x :: x in t.at && t.at[x].Loaded? ==> t.at[x].seen < n)
  }

  lemma {:induction false} AllBounded(events: seq<Event>)
    ensures Bounded(AllHappen(events), |events|)
    ensures forall i :: 0 <= i < |AllHappen(events).numbers| ==> AllHappen(events).numbers[i] < |events|
  {
    if events != [] {
      AllBounded(events[..|events| - 1]);
    }
  }

  // ----- when the numbers are distinct -----

  /** With encryptions apart, the counter is the number of encryptions, except while one of them is open. */
  ghost predicate InTurnInv(t: Threads) {
    && CountsUp(t.numbers)
    && (forall x, y :: Open(t, x) && Open(t, y) ==> x == y)
    && (forall x :: Open(t, x) ==> t.counter + 1 == |t.numbers| && (t.at[x].Loaded? ==> t.at[x].seen == t.counter))
    && ((forall x :: !Open(t, x)) ==> t.counter == |t.numbers|)
  }

  lemma HappensInTurn(t: Threads, e: Event)
    requires InTurnInv(t)
    requires e.Reads? && e.thread !in t.at ==> forall x :: !Open(t, x)
    ensures InTurnInv(Happens(t, e))
  {
    var t', x := Happens(t, e), e.thread;
    forall y | y != x ensures Open(t', y) <==> Open(t, y) {
    }
    if e.Stores? && x in t.at && t.at[x].Loaded? {
      assert Open(t, x);
      assert forall y :: Open(t', y) ==> Open(t, y) && y != x;
    } else if (e.Reads? && x !in t.at) || (e.Loads? && Open(t, x)) {
      assert Open(t', x);
    } else {
      assert forall y :: Open(t', y) <==> Open(t, y);
    }
  }

  lemma {:induction false} ApartMeansInTurn(events: seq<Event>)
    requires Apart(events)
    ensures InTurnInv(AllHappen(events))
  {
    if events != [] {
      ApartMeansInTurn(events[..|events| - 1]);
      HappensInTurn(AllHappen(events[..|events| - 1]), events[|events| - 1]);
    }
  }

  lemma NumbersOnlyGrow(t: Threads, e: Event)
    ensures t.numbers <= Happens(t, e).numbers
  {
  }

  lemma {:induction false} OverlapRepeats(events: seq<Event>)
    requires !Apart(events)
    ensures !Distinct(AllHappen(events).numbers)
  {
    var front, e := events[..|events| - 1], events[|events| - 1];
    var t := AllHappen(front);
    if !Apart(front) {
      OverlapRepeats(front);
      var i, j :| 0 <= i < j < |t.numbers| && t.numbers[i] == t.numbers[j];
      NumbersOnlyGrow(t, e);
      assert AllHappen(events).numbers[i] == AllHappen(events).numbers[j];
    } else {
      ApartMeansInTurn(front);
      var x :| Open(t, x);
      var numbers := AllHappen(events).numbers;
      assert numbers[t.counter] == t.counter == numbers[|numbers| - 1];
    }
  }

  /** No two frames share a number if and only if no encryption begins while another one is open; then the numbers
      count up in the order in which the encryptions began. */
  lemma NumbersDistinctIffApart(events: seq<Event>)
    ensures Distinct(AllHappen(events).numbers) <==> Apart(events)
    ensures Apart(events) ==> CountsUp(AllHappen(events).numbers)
  {
    if Apart(events) {
      ApartMeansInTurn(events);
    } else {
      OverlapRepeats(events);
    }
  }

  // ----- what is delivered -----

  /** The frames on the wire, when the id-th encryption was of texts[id]. */
  function Wire(t: Threads, texts: seq<Bytes>): (frames: seq<Numbered>)
    requires forall i :: 0 <= i < |t.order| ==> t.order[i] < |t.numbers| && t.order[i] < |texts|
    ensures |frames| == |t.order|
    ensures forall i :: 0 <= i < |frames| ==> frames[i] == Numbered(t.numbers[t.order[i]], texts[t.order[i]])
  {
    seq(|t.order|, i requires 0 <= i < |t.order| => Numbered(t.numbers[t.order[i]], texts[t.order[i]]))
  }

  /** As many messages as encryptions began, none of which ends the session. */
  ghost predicate Messages(c: Aead, key: Key, events: seq<Event>, texts: seq<Bytes>, ends: Bytes -> bool) {
    && Ideal(c, {key}) && |events| <= TWO_TO_THE_64 && |texts| == |AllHappen(events).numbers|
    && forall i :: 0 <= i < |texts| ==> |texts[i]| <= MAX_AEAD_PLAINTEXT && !ends(texts[i])
  }

  lemma WireIsSendable(c: Aead, key: Key, events: seq<Event>, texts: seq<Bytes>, ends: Bytes -> bool)
    requires Messages(c, key, events, texts, ends)
    ensures Once(AllHappen(events)) && Sendable(c, key, Wire(AllHappen(events), texts), ends)
  {
    AllTracked(events);
    AllBounded(events);
  }

  /** With everything written, numbers that count up on the wire were all different. */
  lemma CountingIsDistinct(t: Threads)
    requires Once(t) && Kept(t) && t.at == map[]
    requires forall i :: 0 <= i < |t.order| ==> t.numbers[t.order[i]] == i
    ensures Distinct(t.numbers)
  {
    forall id: nat | id < |t.numbers| ensures t.numbers[id] < |t.order| && t.order[t.numbers[id]] == id {
      assert id in t.order || Held(t, id);
    }
  }

  /** Every message goes out at most once, whatever the threads do. Once all that were begun are written, a reliable
      link delivers all of them if and only if no encryption began while another was open and the frames were
      written in the order in which the encryptions began. */
  lemma AndroidDeliversIff(c: Aead, key: Key, events: seq<Event>, texts: seq<Bytes>, ends: Bytes -> bool)
    requires Messages(c, key, events, texts, ends) && AllHappen(events).at == map[]
    ensures var t := AllHappen(events);
            && Once(t) && (forall id: nat :: id < |texts| ==> id in t.order)
            && (SessionLoop(c, key, 0, WireOf(c, key, Wire(t, texts)), ends) == Texts(Wire(t, texts))
                <==> Apart(events) && CountsUp(t.order))
  {
    var t := AllHappen(events);
    WireIsSendable(c, key, events, texts, ends);
    NumbersDistinctIffApart(events);
    DeliveredIffCounting(c, key, Wire(t, texts), ends);
    NothingHeld(events);
    NumbersOnTheWire(t, texts);
    if forall i :: 0 <= i < |t.order| ==> t.numbers[t.order[i]] == i {
      AllTracked(events);
      CountingIsDistinct(t);
    }
  }

  lemma NumbersOnTheWire(t: Threads, texts: seq<Bytes>)
    requires Once(t) && |texts| == |t.numbers|
    ensures (forall i :: 0 <= i < |t.order| ==> Wire(t, texts)[i].number == i) <==>
            (forall i :: 0 <= i < |t.order| ==> t.numbers[t.order[i]] == i)
  {
    forall i | 0 <= i < |t.order| ensures Wire(t, texts)[i].number == t.numbers[t.order[i]] {
    }
  }

  lemma NothingHeld(events: seq<Event>)
    requires AllHappen(events).at == map[]
    ensures forall id: nat :: id < |AllHappen(events).numbers| ==> id in AllHappen(events).order
  {
    AllTracked(events);
    forall id: nat | id < |AllHappen(events).numbers| ensures id in AllHappen(events).order {
      assert !Held(AllHappen(events), id);
    }
  }

  /** One message is under way at most, and the wire carries exactly the earlier ones, in order. */
  ghost predicate Orderly(t: Threads) {
    && CountsUp(t.order) && (forall x, y :: x in t.at && y in t.at ==> x == y)
    && (forall x :: x in t.at ==> t.at[x].id == |t.order| && |t.numbers| == |t.order| + 1)
    && (t.at == map[] ==> |t.numbers| == |t.order|) && |t.order| <= |t.numbers|
  }

  lemma HappensOrderly(t: Threads, e: Event)
    requires Orderly(t) && (e.Reads? ==> t.at == map[])
    ensures Orderly(Happens(t, e))
  {
    if e.Writes? && e.thread in t.at && t.at[e.thread].Sealed? {
      assert forall y :: y !in t.at - {e.thread};
      assert t.at - {e.thread} == map[];
    } else if e.thread in t.at {
      assert e.thread in Happens(t, e).at;
    }
  }

  lemma {:induction false} OneAtATimeCounts(events: seq<Event>)
    requires OneAtATime(events)
    ensures Apart(events) && Orderly(AllHappen(events))
  {
    if events != [] {
      OneAtATimeCounts(events[..|events| - 1]);
      HappensOrderly(AllHappen(events[..|events| - 1]), events[|events| - 1]);
    }
  }

  /** A lock held from the encryption to the write is enough: everything written is delivered, in that order. */
  lemma OneAtATimeDelivers(c: Aead, key: Key, events: seq<Event>, texts: seq<Bytes>, ends: Bytes -> bool)
    requires Messages(c, key, events, texts, ends) && OneAtATime(events)
    ensures var t := AllHappen(events);
            && Once(t) && |t.order| <= |texts|
            && SessionLoop(c, key, 0, WireOf(c, key, Wire(t, texts)), ends) == texts[..|t.order|]
  {
    var t := AllHappen(events);
    WireIsSendable(c, key, events, texts, ends);
    OneAtATimeCounts(events);
    NumbersDistinctIffApart(events);
    DeliveredIffCounting(c, key, Wire(t, texts), ends);
    NumbersOnTheWire(t, texts);
    assert Texts(Wire(t, texts)) == texts[..|t.order|];
  }

  // ----- the two ways it fails -----

  lemma HappenOne(events: seq<Event>, e: Event)
    ensures AllHappen(events + [e]) == Happens(AllHappen(events), e)
  {
    assert (events + [e])[..|events|] == events;
  }

  lemma HappenFour(events: seq<Event>, e0: Event, e1: Event, e2: Event, e3: Event)
    ensures AllHappen(events + [e0, e1, e2, e3])
         == Happens(Happens(Happens(Happens(AllHappen(events), e0), e1), e2), e3)
  {
    HappenOne(events, e0);
    HappenOne(events + [e0], e1);
    HappenOne(events + [e0] + [e1], e2);
    HappenOne(events + [e0] + [e1] + [e2], e3);
    assert events + [e0, e1, e2, e3] == events + [e0] + [e1] + [e2] + [e3];
  }

  /** Two threads encrypt one after the other and write the other way round: the peer hands on nothing. */
  lemma AndroidCanStall(c: Aead, key: Key, p: Bytes, q: Bytes, ends: Bytes -> bool)
    requires Ideal(c, {key}) && |p| <= MAX_AEAD_PLAINTEXT && |q| <= MAX_AEAD_PLAINTEXT && !ends(p) && !ends(q)
    ensures var t := AllHappen([Reads(1), Loads(1), Stores(1), Reads(2)] + [Loads(2), Stores(2), Writes(2), Writes(1)]);
            && t == Threads(2, [0, 1], map[], [1, 0])
            && SessionLoop(c, key, 0, WireOf(c, key, Wire(t, [p, q])), ends) == []
  {
    StallRun();
    var t := Threads(2, [0, 1], map[], [1, 0]);
    assert Wire(t, [p, q]) == [Numbered(1, q), Numbered(0, p)];
    DeliversLeading(c, key, [Numbered(1, q), Numbered(0, p)], ends);
  }

  lemma StallRun()
    ensures AllHappen([Reads(1), Loads(1), Stores(1), Reads(2)] + [Loads(2), Stores(2), Writes(2), Writes(1)])
         == Threads(2, [0, 1], map[], [1, 0])
  {
    var half := [Reads(1), Loads(1), Stores(1), Reads(2)];
    assert AllHappen(half) == Threads(1, [0, 1], map[1 := Sealed(0), 2 := Chosen(1)], []) by {
      HappenFour([], Reads(1), Loads(1), Stores(1), Reads(2));
      assert [] + half == half;
    }
    HappenFour(half, Loads(2), Stores(2), Writes(2), Writes(1));
    assert map[1 := Sealed(0), 2 := Sealed(1)] - {2} - {1} == map[];
  }

  /** Two threads read the counter before either moves it: both frames carry number 0. Written in the order in which
      the encryptions began, the first is handed on and the second is refused. */
  lemma AndroidCanRepeatANumber(c: Aead, key: Key, p: Bytes, q: Bytes, ends: Bytes -> bool)
    requires Ideal(c, {key}) && |p| <= MAX_AEAD_PLAINTEXT && |q| <= MAX_AEAD_PLAINTEXT && !ends(p) && !ends(q)
    ensures var t := AllHappen([Reads(1), Reads(2), Loads(1), Stores(1)] + [Loads(2), Stores(2), Writes(1), Writes(2)]);
            && t == Threads(2, [0, 0], map[], [0, 1])
            && SessionLoop(c, key, 0, WireOf(c, key, Wire(t, [p, q])), ends) == [p]
  {
    RepeatRun();
    var t := Threads(2, [0, 0], map[], [0, 1]);
    assert Wire(t, [p, q]) == [Numbered(0, p), Numbered(0, q)];
    DeliversLeading(c, key, [Numbered(0, p), Numbered(0, q)], ends);
    LeadingInTurn([Numbered(0, p), Numbered(0, q)], 0);
  }

  lemma RepeatRun()
    ensures AllHappen([Reads(1), Reads(2), Loads(1), Stores(1)] + [Loads(2), Stores(2), Writes(1), Writes(2)])
         == Threads(2, [0, 0], map[], [0, 1])
  {
    var half := [Reads(1), Reads(2), Loads(1), Stores(1)];
    assert AllHappen(half) == Threads(1, [0, 0], map[1 := Sealed(0), 2 := Chosen(1)], []) by {
      HappenFour([], Reads(1), Reads(2), Loads(1), Stores(1));
      assert [] + half == half;
    }
    HappenFour(half, Loads(2), Stores(2), Writes(1), Writes(2));
    assert map[1 := Sealed(0), 2 := Sealed(1)] - {1} - {2} == map[];
  }

  lemma DeliversLeading(c: Aead, key: Key, frames: seq<Numbered>, ends: Bytes -> bool)
    requires Sendable(c, key, frames, ends)
    ensures SessionLoop(c, key, 0, WireOf(c, key, frames), ends) == Texts(frames[..Leading(frames, 0)])
  {
    LoopDelivers(c, key, frames, 0, [], ends);
    assert WireOf(c, key, frames) + [] == WireOf(c, key, frames);
  }
}

/** NotificationDispatcher: a bounded buffer for notifications while no session is live, with expiry. The state
    carries a ledger of what became of every notification, which no operation reads. */
module BurstBuffer {
  const BURST_MAX := 20
  const BURST_TTL_MS := 60000

  datatype Notification = Notification(ferryId: string, packageName: string, appLabel: string, title: string,
                                       body: string, postedAt: int, category: string, isRemove: bool)

  datatype Message =
    | Post(ferryId: string, packageName: string, appLabel: string, title: string, body: string, postedAt: int,
           category: string)
    | Remove(ferryId: string)

  function Take(s: string, n: nat): string {
    if |s| <= n then s else s[..n]
  }

  function ToMessage(dto: Notification): Message {
    if dto.isRemove then Remove(dto.ferryId)
    else Post(dto.ferryId, Take(dto.packageName, 255), Take(dto.appLabel, 100), Take(dto.title, 200),
              Take(dto.body, 1000), dto.postedAt, dto.category)
  }

  datatype Entry = Entry(dto: Notification, enqueuedAt: int)

  /** What removeAll is asked to take out. */
  datatype Test = Before(cutoff: int) | About(ferryId: string)

  predicate Matches(t: Test, e: Entry) {
    match t
    case Before(cutoff) => e.enqueuedAt < cutoff
    case About(id) => e.dto.ferryId == id
  }

  function RemoveAll(s: seq<Entry>, t: Test): seq<Entry> {
    if s == [] then []
    else RemoveAll(s[..|s| - 1], t) + if Matches(t, s[|s| - 1]) then [] else [s[|s| - 1]]
  }

  // ----- the ledger -----

  /** A notification with the number of the call that enqueued it. */
  datatype Item = Item(serial: nat, entry: Entry)

  datatype Kind = Sent | Expired | DroppedAsOldest | Removed

  /** What became of an item and when; or a REMOVE that enqueueRemove sent itself. */
  datatype Fate = Fate(kind: Kind, item: Item, at: int) | RemovalSent(ferryId: string)

  datatype Ledger = Ledger(arrived: seq<Item>, buffer: seq<Item>, log: seq<Fate>)

  const EMPTY := Ledger([], [], [])

  function Entries(items: seq<Item>): (s: seq<Entry>)
    ensures |s| == |items| && forall i :: 0 <= i < |s| ==> s[i] == items[i].entry
  {
    seq(|items|, i requires 0 <= i < |items| => items[i].entry)
  }

  function Kept(s: seq<Item>, t: Test): seq<Item> {
    if s == [] then []
    else Kept(s[..|s| - 1], t) + if Matches(t, s[|s| - 1].entry) then [] else [s[|s| - 1]]
  }

  function Taken(s: seq<Item>, t: Test): seq<Item> {
    if s == [] then []
    else Taken(s[..|s| - 1], t) + if Matches(t, s[|s| - 1].entry) then [s[|s| - 1]] else []
  }

  function Mark(kind: Kind, s: seq<Item>, at: int): seq<Fate> {
    seq(|s|, i requires 0 <= i < |s| => Fate(kind, s[i], at))
  }

  /** Some items leave the buffer. */
  function Settle(l: Ledger, kind: Kind, gone: seq<Item>, rest: seq<Item>, at: int): Ledger {
    l.(buffer := rest, log := l.log + Mark(kind, gone, at))
  }

  function Arrive(l: Ledger, e: Entry): Ledger {
    var item := Item(|l.arrived|, e);
    l.(arrived := l.arrived + [item], buffer := l.buffer + [item])
  }

  function Purge(l: Ledger, now: int): Ledger {
    var t := Before(now - BURST_TTL_MS);
    Settle(l, Expired, Taken(l.buffer, t), Kept(l.buffer, t), now)
  }

  function SendAll(l: Ledger, now: int): Ledger {
    Settle(l, Sent, l.buffer, [], now)
  }

  function DropOldest(l: Ledger): Ledger {
    if |l.buffer| < BURST_MAX then l else Settle(l, DroppedAsOldest, l.buffer[..1], l.buffer[1..], 0)
  }

  /** The clock is read twice: `now` for the purge and `stamp` for the new entry. */
  function Enqueue(l: Ledger, dto: Notification, now: int, stamp: int, live: bool): Ledger {
    var p := Purge(l, now);
    if live then SendAll(Arrive(p, Entry(dto, now)), now) else Arrive(DropOldest(p), Entry(dto, stamp))
  }

  function Flush(l: Ledger, now: int, live: bool): Ledger {
    if live then SendAll(Purge(l, now), now) else Purge(l, now)
  }

  function EnqueueRemove(l: Ledger, ferryId: string, live: bool): Ledger {
    var t := About(ferryId);
    var m := Settle(l, Removed, Taken(l.buffer, t), Kept(l.buffer, t), 0);
    if live then m.(log := m.log + [RemovalSent(ferryId)]) else m
  }

  /** The items of the log, the sent ones among them, and the messages handed to the client. */
  function Items(log: seq<Fate>): seq<Item> {
    if log == [] then []
    else Items(log[..|log| - 1]) + if log[|log| - 1].Fate? then [log[|log| - 1].item] else []
  }

  function SentItems(log: seq<Fate>): seq<Item> {
    if log == [] then []
    else
      SentItems(log[..|log| - 1])
      + if log[|log| - 1].Fate? && log[|log| - 1].kind.Sent? then [log[|log| - 1].item] else []
  }

  function Messages(log: seq<Fate>): seq<Message> {
    if log == [] then []
    else Messages(log[..|log| - 1]) + FateMessage(log[|log| - 1])
  }

  function FateMessage(f: Fate): seq<Message> {
    match f
    case Fate(kind, item, _) => if kind.Sent? then [ToMessage(item.entry.dto)] else []
    case RemovalSent(id) => [Remove(id)]
  }

  function ToMessages(s: seq<Entry>): seq<Message> {
    seq(|s|, i requires 0 <= i < |s| => ToMessage(s[i].dto))
  }

  lemma Snoc(log: seq<Fate>, f: Fate)
    ensures Items(log + [f]) == Items(log) + if f.Fate? then [f.item] else []
    ensures SentItems(log + [f]) == SentItems(log) + if f.Fate? && f.kind.Sent? then [f.item] else []
    ensures Messages(log + [f]) == Messages(log) + FateMessage(f)
  {
    assert (log + [f])[..|log|] == log;
  }

  lemma MarkSnoc(log: seq<Fate>, kind: Kind, s: seq<Item>, at: int)
    requires s != []
    ensures log + Mark(kind, s, at)
         == (log + Mark(kind, s[..|s| - 1], at)) + [Fate(kind, s[|s| - 1], at)]
    ensures ToMessages(Entries(s)) == ToMessages(Entries(s[..|s| - 1])) + [ToMessage(s[|s| - 1].entry.dto)]
  {
  }

  lemma {:induction false} MarkedItems(log: seq<Fate>, kind: Kind, s: seq<Item>, at: int)
    ensures Items(log + Mark(kind, s, at)) == Items(log) + s
  {
    if s == [] {
      assert log + Mark(kind, s, at) == log;
    } else {
      var before, last := s[..|s| - 1], s[|s| - 1];
      MarkedItems(log, kind, before, at);
      Snoc(log + Mark(kind, before, at), Fate(kind, last, at));
      MarkSnoc(log, kind, s, at);
      assert s == before + [last];
    }
  }

  lemma {:induction false} MarkedSentItems(log: seq<Fate>, kind: Kind, s: seq<Item>, at: int)
    ensures SentItems(log + Mark(kind, s, at)) == SentItems(log) + if kind.Sent? then s else []
  {
    if s == [] {
      assert log + Mark(kind, s, at) == log;
    } else {
      var before, last := s[..|s| - 1], s[|s| - 1];
      MarkedSentItems(log, kind, before, at);
      Snoc(log + Mark(kind, before, at), Fate(kind, last, at));
      MarkSnoc(log, kind, s, at);
      assert s == before + [last];
    }
  }

  lemma {:induction false} MarkedMessages(log: seq<Fate>, kind: Kind, s: seq<Item>, at: int)
    ensures Messages(log + Mark(kind, s, at)) == Messages(log) + if kind.Sent? then ToMessages(Entries(s)) else []
  {
    if s == [] {
      assert log + Mark(kind, s, at) == log;
    } else {
      var before, last := s[..|s| - 1], s[|s| - 1];
      MarkedMessages(log, kind, before, at);
      Snoc(log + Mark(kind, before, at), Fate(kind, last, at));
      MarkSnoc(log, kind, s, at);
    }
  }

  // ----- the object -----

  class NotificationDispatcher {
    var buffer: seq<Entry>
    var sent: seq<Message>
    ghost var ledger: Ledger

    constructor ()
      ensures Valid() && ledger == EMPTY
    {
      buffer, sent, ledger := [], [], EMPTY;
    }

    ghost predicate Valid()
      reads this
    {
      buffer == Entries(ledger.buffer) && sent == Messages(ledger.log)
    }

    method PurgeExpired(now: int)
      requires Valid()
      modifies this
      ensures Valid() && ledger == Purge(old(ledger), now)
    {
      var cutoff := now - BURST_TTL_MS;
      buffer := RemoveAll(buffer, Before(cutoff));
      EntriesKept(ledger.buffer, Before(cutoff));
      MarkedMessages(ledger.log, Expired, Taken(ledger.buffer, Before(cutoff)), now);
      ledger := Purge(ledger, now);
    }

    method Send(dto: Notification)
      modifies this`sent
      ensures sent == old(sent) + [ToMessage(dto)]
    {
      if dto.isRemove {
        sent := sent + [Remove(dto.ferryId)];
        return;
      }
      var safeTitle := Take(dto.title, 200);
      var safeBody := Take(dto.body, 1000);
      var safePkg := Take(dto.packageName, 255);
      var safeLabel := Take(dto.appLabel, 100);
      sent := sent + [Post(dto.ferryId, safePkg, safeLabel, safeTitle, safeBody, dto.postedAt, dto.category)];
    }

    method SendEntries(toFlush: seq<Entry>)
      modifies this`sent
      ensures sent == old(sent) + ToMessages(toFlush)
    {
      var i := 0;
      while i < |toFlush|
        invariant 0 <= i <= |toFlush|
        invariant sent == old(sent) + ToMessages(toFlush[..i])
      {
        Send(toFlush[i].dto);
        i := i + 1;
      }
      assert toFlush[..i] == toFlush;
    }

    method DoEnqueue(dto: Notification, now: int, stamp: int, live: bool)
      requires Valid()
      modifies this
      ensures Valid() && ledger == Enqueue(old(ledger), dto, now, stamp, live)
    {
      PurgeExpired(now);
      if live {
        var toFlush := buffer;
        buffer := [];
        SendEntries(toFlush);
        Send(dto);
        ArriveAndSend(ledger, dto, now);
        ledger := SendAll(Arrive(ledger, Entry(dto, now)), now);
      } else {
        if |buffer| >= BURST_MAX {
          buffer := buffer[1..];
          DropIsSilent(ledger);
          ledger := DropOldest(ledger);
        }
        buffer := buffer + [Entry(dto, stamp)];
        ledger := Arrive(ledger, Entry(dto, stamp));
      }
    }

    method DoFlush(now: int, live: bool)
      requires Valid()
      modifies this
      ensures Valid() && ledger == Flush(old(ledger), now, live)
    {
      PurgeExpired(now);
      if !live {
        return;
      }
      var toFlush := buffer;
      buffer := [];
      SendEntries(toFlush);
      MarkedMessages(ledger.log, Sent, ledger.buffer, now);
      ledger := SendAll(ledger, now);
    }

    method DoEnqueueRemove(ferryId: string, live: bool)
      requires Valid()
      modifies this
      ensures Valid() && ledger == EnqueueRemove(old(ledger), ferryId, live)
    {
      buffer := RemoveAll(buffer, About(ferryId));
      EntriesKept(ledger.buffer, About(ferryId));
      MarkedMessages(ledger.log, Removed, Taken(ledger.buffer, About(ferryId)), 0);
      ledger := EnqueueRemove(ledger, ferryId, false);
      if live {
        sent := sent + [Remove(ferryId)];
        Snoc(ledger.log, RemovalSent(ferryId));
        ledger := ledger.(log := ledger.log + [RemovalSent(ferryId)]);
      }
    }
  }

  lemma ArriveAndSend(l: Ledger, dto: Notification, now: int)
    ensures Messages(SendAll(Arrive(l, Entry(dto, now)), now).log)
         == Messages(l.log) + ToMessages(Entries(l.buffer)) + [ToMessage(dto)]
  {
    var items := Arrive(l, Entry(dto, now)).buffer;
    MarkedMessages(l.log, Sent, items, now);
    MarkSnoc(l.log, Sent, items, now);
    assert items[..|items| - 1] == l.buffer;
  }

  lemma DropIsSilent(l: Ledger)
    ensures Messages(DropOldest(l).log) == Messages(l.log)
    ensures Entries(DropOldest(l).buffer) == if |l.buffer| < BURST_MAX then Entries(l.buffer) else Entries(l.buffer)[1..]
  {
    if |l.buffer| >= BURST_MAX {
      MarkedMessages(l.log, DroppedAsOldest, l.buffer[..1], 0);
    }
  }

  lemma {:induction false} EntriesKept(items: seq<Item>, t: Test)
    ensures Entries(Kept(items, t)) == RemoveAll(Entries(items), t)
  {
    if items != [] {
      EntriesKept(items[..|items| - 1], t);
      assert Entries(items)[..|items| - 1] == Entries(items[..|items| - 1]);
    }
  }

  // ----- what every run keeps -----

  predicate Ascending(s: seq<Item>) {
    forall i, j :: 0 <= i < j < |s| ==> s[i].serial < s[j].serial
  }

  /** Every enqueued notification is, once, in the log or in the buffer. */
  predicate Conserved(l: Ledger) {
    multiset(Items(l.log)) + multiset(l.buffer) == multiset(l.arrived)
  }

  /** Sent and still buffered notifications are in the order in which they were enqueued. */
  predicate InOrder(l: Ledger) {
    Ascending(SentItems(l.log) + l.buffer)
  }

  predicate Numbered(l: Ledger) {
    && (forall i :: 0 <= i < |l.arrived| ==> l.arrived[i].serial == i)
    && (forall x :: x in SentItems(l.log) + l.buffer ==> x.serial < |l.arrived|)
  }

  predicate TimelyFate(kind: Kind, item: Item, at: int) {
    match kind
    case Sent => at - item.entry.enqueuedAt <= 60000
    case Expired => at - item.entry.enqueuedAt > 60000
    case DroppedAsOldest => true
    case Removed => true
  }

  /** Nothing is sent after its 60 seconds, nothing expires within them. */
  predicate Timely(log: seq<Fate>) {
    forall i :: 0 <= i < |log| && log[i].Fate? ==> TimelyFate(log[i].kind, log[i].item, log[i].at)
  }

  predicate Sound(l: Ledger) {
    Conserved(l) && InOrder(l) && Numbered(l) && Timely(l.log)
  }

  lemma {:induction false} KeptAndTaken(s: seq<Item>, t: Test)
    ensures multiset(Kept(s, t)) + multiset(Taken(s, t)) == multiset(s)
    ensures |Kept(s, t)| <= |s|
  {
    if s != [] {
      var before, last := s[..|s| - 1], s[|s| - 1];
      KeptAndTaken(before, t);
      assert s == before + [last];
      assert multiset(s) == multiset(before) + multiset{last};
    }
  }

  lemma {:induction false} KeptMembers(s: seq<Item>, t: Test)
    ensures forall x :: x in Kept(s, t) <==> x in s && !Matches(t, x.entry)
  {
    if s != [] {
      KeptMembers(s[..|s| - 1], t);
      assert s == s[..|s| - 1] + [s[|s| - 1]];
    }
  }

  lemma {:induction false} TakenMembers(s: seq<Item>, t: Test)
    ensures forall x :: x in Taken(s, t) <==> x in s && Matches(t, x.entry)
  {
    if s != [] {
      TakenMembers(s[..|s| - 1], t);
      assert s == s[..|s| - 1] + [s[|s| - 1]];
    }
  }

  lemma AscendingSnoc(s: seq<Item>, x: Item)
    ensures Ascending(s + [x]) <==> Ascending(s) && forall y :: y in s ==> y.serial < x.serial
  {
    var all := s + [x];
    assert forall i :: 0 <= i < |s| ==> all[i] == s[i];
    if Ascending(all) {
      forall y | y in s ensures y.serial < x.serial {
        var i :| 0 <= i < |s| && s[i] == y;
        assert all[i].serial < all[|s|].serial;
      }
      assert forall i, j :: 0 <= i < j < |s| ==> all[i].serial < all[j].serial;
    }
  }

  lemma {:induction false} KeptAscending(front: seq<Item>, s: seq<Item>, t: Test)
    requires Ascending(front + s)
    ensures Ascending(front + Kept(s, t))
  {
    if s != [] {
      var before, last := s[..|s| - 1], s[|s| - 1];
      assert front + s == front + before + [last];
      AscendingSnoc(front + before, last);
      KeptAscending(front, before, t);
      KeptMembers(before, t);
      AscendingSnoc(front + Kept(before, t), last);
      assert front + Kept(s, t) == front + Kept(before, t) + if Matches(t, last.entry) then [] else [last];
    }
  }

  lemma TimelyMarks(log: seq<Fate>, kind: Kind, gone: seq<Item>, at: int)
    requires Timely(log) && forall x :: x in gone ==> TimelyFate(kind, x, at)
    ensures Timely(log + Mark(kind, gone, at))
  {
    var all := log + Mark(kind, gone, at);
    forall i | |log| <= i < |all| ensures TimelyFate(all[i].kind, all[i].item, all[i].at) {
      assert all[i] == Fate(kind, gone[i - |log|], at) && gone[i - |log|] in gone;
    }
  }

  lemma SubMultiset(gone: seq<Item>, rest: seq<Item>, whole: seq<Item>, x: Item)
    requires multiset(rest) + multiset(gone) == multiset(whole)
    ensures x in gone || x in rest ==> x in whole
  {
    assert x in multiset(rest) + multiset(gone) <==> x in multiset(whole);
  }

  lemma SettleKeeps(l: Ledger, kind: Kind, gone: seq<Item>, rest: seq<Item>, at: int)
    requires Sound(l)
    requires multiset(rest) + multiset(gone) == multiset(l.buffer)
    requires Ascending(SentItems(l.log) + (if kind.Sent? then gone else []) + rest)
    requires forall x :: x in gone ==> TimelyFate(kind, x, at)
    ensures Sound(Settle(l, kind, gone, rest, at))
  {
    MarkedItems(l.log, kind, gone, at);
    MarkedSentItems(l.log, kind, gone, at);
    TimelyMarks(l.log, kind, gone, at);
    var m := Settle(l, kind, gone, rest, at);
    assert Conserved(m) by {
      assert multiset(Items(l.log) + gone) == multiset(Items(l.log)) + multiset(gone);
    }
    forall x | x in SentItems(m.log) + rest ensures x.serial < |l.arrived| {
      SubMultiset(gone, rest, l.buffer, x);
      assert x in SentItems(l.log) + l.buffer;
    }
  }

  lemma ArriveKeeps(l: Ledger, e: Entry)
    requires Sound(l)
    ensures Sound(Arrive(l, e))
  {
    var item := Item(|l.arrived|, e);
    AscendingSnoc(SentItems(l.log) + l.buffer, item);
    assert SentItems(l.log) + (l.buffer + [item]) == SentItems(l.log) + l.buffer + [item];
  }

  lemma PurgeKeeps(l: Ledger, now: int)
    requires Sound(l)
    ensures Sound(Purge(l, now)) && |Purge(l, now).buffer| <= |l.buffer|
    ensures forall x :: x in Purge(l, now).buffer ==> TimelyFate(Sent, x, now)
  {
    var t := Before(now - BURST_TTL_MS);
    KeptAndTaken(l.buffer, t);
    KeptMembers(l.buffer, t);
    TakenMembers(l.buffer, t);
    KeptAscending(SentItems(l.log), l.buffer, t);
    assert SentItems(l.log) + [] == SentItems(l.log);
    SettleKeeps(l, Expired, Taken(l.buffer, t), Kept(l.buffer, t), now);
  }

  lemma SendAllKeeps(l: Ledger, now: int)
    requires Sound(l) && forall x :: x in l.buffer ==> TimelyFate(Sent, x, now)
    ensures Sound(SendAll(l, now))
  {
    assert SentItems(l.log) + l.buffer + [] == SentItems(l.log) + l.buffer;
    SettleKeeps(l, Sent, l.buffer, [], now);
  }

  lemma DropOneOrdered(front: seq<Item>, b: seq<Item>)
    requires Ascending(front + b) && b != []
    ensures Ascending(front + b[1..])
  {
    forall i, j | 0 <= i < j < |front + b[1..]| ensures (front + b[1..])[i].serial < (front + b[1..])[j].serial {
      var i', j' := if i < |front| then i else i + 1, if j < |front| then j else j + 1;
      assert (front + b)[i'].serial < (front + b)[j'].serial;
    }
  }

  lemma DropOldestKeeps(l: Ledger)
    requires Sound(l)
    ensures Sound(DropOldest(l))
  {
    if |l.buffer| >= BURST_MAX {
      var front, b := SentItems(l.log), l.buffer;
      assert b == b[..1] + b[1..];
      DropOneOrdered(front, b);
      assert front + [] + b[1..] == front + b[1..];
      SettleKeeps(l, DroppedAsOldest, b[..1], b[1..], 0);
    }
  }

  lemma RemovalKeeps(l: Ledger, ferryId: string)
    requires Sound(l)
    ensures Sound(l.(log := l.log + [RemovalSent(ferryId)]))
  {
    Snoc(l.log, RemovalSent(ferryId));
    assert Items(l.log) + [] == Items(l.log) && SentItems(l.log) + [] == SentItems(l.log);
  }

  lemma RemoveKeeps(l: Ledger, ferryId: string, live: bool)
    requires Sound(l)
    ensures Sound(EnqueueRemove(l, ferryId, live))
    ensures |EnqueueRemove(l, ferryId, live).buffer| <= |l.buffer|
  {
    var t := About(ferryId);
    KeptAndTaken(l.buffer, t);
    KeptAscending(SentItems(l.log), l.buffer, t);
    assert SentItems(l.log) + [] == SentItems(l.log);
    SettleKeeps(l, Removed, Taken(l.buffer, t), Kept(l.buffer, t), 0);
    RemovalKeeps(EnqueueRemove(l, ferryId, false), ferryId);
  }

  // ----- every run -----

  datatype Event =
    | Enqueued(dto: Notification, now: int, stamp: int, live: bool)
    | Flushed(now: int, live: bool)
    | RemoveEnqueued(ferryId: string, live: bool)

  function Step(l: Ledger, e: Event): Ledger {
    match e
    case Enqueued(dto, now, stamp, live) => Enqueue(l, dto, now, stamp, live)
    case Flushed(now, live) => Flush(l, now, live)
    case RemoveEnqueued(id, live) => EnqueueRemove(l, id, live)
  }

  function Run(l: Ledger, events: seq<Event>): Ledger {
    if events == [] then l else Step(Run(l, events[..|events| - 1]), events[|events| - 1])
  }

  lemma StepKeeps(l: Ledger, e: Event)
    requires Sound(l) && |l.buffer| <= BURST_MAX
    ensures Sound(Step(l, e)) && |Step(l, e).buffer| <= BURST_MAX
  {
    match e
    case Enqueued(dto, now, stamp, live) =>
      PurgeKeeps(l, now);
      if live {
        ArriveKeeps(Purge(l, now), Entry(dto, now));
        SendAllKeeps(Arrive(Purge(l, now), Entry(dto, now)), now);
      } else {
        DropOldestKeeps(Purge(l, now));
        ArriveKeeps(DropOldest(Purge(l, now)), Entry(dto, stamp));
      }
    case Flushed(now, live) =>
      PurgeKeeps(l, now);
      if live {
        SendAllKeeps(Purge(l, now), now);
      }
    case RemoveEnqueued(id, live) => RemoveKeeps(l, id, live);
  }

  /** After any run, whatever the clock does: at most 20 notifications are buffered; each enqueued one is exactly
      once among the sent, expired, dropped, removed and buffered ones; sent ones keep the order of their enqueue
      calls and precede the buffered ones; none was sent later than 60 seconds after its stamp and none expired
      earlier. */
  lemma {:induction false} NothingIsLost(events: seq<Event>)
    ensures var l := Run(EMPTY, events);
            |l.buffer| <= 20 && Conserved(l) && InOrder(l) && Numbered(l) && Timely(l.log)
  {
    if events != [] {
      NothingIsLost(events[..|events| - 1]);
      StepKeeps(Run(EMPTY, events[..|events| - 1]), events[|events| - 1]);
    }
  }

  // ----- dropping -----

  predicate DropsLate(log: seq<Fate>, n: nat) {
    forall i :: 0 <= i < |log| && log[i].Fate? && log[i].kind.DroppedAsOldest? ==> log[i].item.serial + BURST_MAX < n
  }

  lemma MarksDropNothing(log: seq<Fate>, kind: Kind, gone: seq<Item>, at: int, n: nat)
    requires DropsLate(log, n) && kind != DroppedAsOldest
    ensures DropsLate(log + Mark(kind, gone, at), n)
  {
  }

  lemma {:induction false} SerialGap(s: seq<Item>, i: nat)
    requires Ascending(s) && i < |s|
    ensures s[0].serial + i <= s[i].serial
  {
    if i > 0 {
      SerialGap(s, i - 1);
    }
  }

  lemma OldestSerial(front: seq<Item>, s: seq<Item>, n: nat)
    requires Ascending(front + s) && (forall x :: x in front + s ==> x.serial < n) && |s| >= BURST_MAX
    ensures s[0].serial + BURST_MAX <= n
  {
    assert Ascending(s) by {
      assert forall i :: 0 <= i < |s| ==> (front + s)[|front| + i] == s[i];
    }
    SerialGap(s, BURST_MAX - 1);
    assert s[BURST_MAX - 1] in front + s;
  }

  lemma DropIsLate(l: Ledger, e: Entry)
    requires Sound(l) && DropsLate(l.log, |l.arrived|)
    ensures DropsLate(Arrive(DropOldest(l), e).log, |l.arrived| + 1)
  {
    if |l.buffer| >= BURST_MAX {
      OldestSerial(SentItems(l.log), l.buffer, |l.arrived|);
      assert Mark(DroppedAsOldest, l.buffer[..1], 0) == [Fate(DroppedAsOldest, l.buffer[0], 0)];
    }
  }

  /** A notification is dropped as the oldest only after at least 20 later ones were enqueued. */
  lemma {:induction false} OnlyTheOldestIsDropped(events: seq<Event>)
    ensures DropsLate(Run(EMPTY, events).log, |Run(EMPTY, events).arrived|)
  {
    if events != [] {
      var l, e := Run(EMPTY, events[..|events| - 1]), events[|events| - 1];
      OnlyTheOldestIsDropped(events[..|events| - 1]);
      NothingIsLost(events[..|events| - 1]);
      match e
      case Enqueued(dto, now, stamp, live) =>
        PurgeKeeps(l, now);
        MarksDropNothing(l.log, Expired, Taken(l.buffer, Before(now - BURST_TTL_MS)), now, |l.arrived|);
        if live {
          var q := Arrive(Purge(l, now), Entry(dto, now));
          MarksDropNothing(q.log, Sent, q.buffer, now, |q.arrived|);
        } else {
          DropIsLate(Purge(l, now), Entry(dto, stamp));
        }
      case Flushed(now, live) =>
        MarksDropNothing(l.log, Expired, Taken(l.buffer, Before(now - BURST_TTL_MS)), now, |l.arrived|);
        MarksDropNothing(Purge(l, now).log, Sent, Purge(l, now).buffer, now, |l.arrived|);
      case RemoveEnqueued(id, live) =>
        MarksDropNothing(l.log, Removed, Taken(l.buffer, About(id)), 0, |l.arrived|);
    }
  }

  // ----- after a removal -----

  /** Since l, nothing about the id was sent or buffered but what was enqueued later. */
  predicate Forgotten(l: Ledger, m: Ledger, ferryId: string) {
    var n := |SentItems(l.log)|;
    && |l.arrived| <= |m.arrived| && SentItems(l.log) <= SentItems(m.log)
    && (forall x :: x in SentItems(m.log)[n..] && x.entry.dto.ferryId == ferryId ==> |l.arrived| <= x.serial)
    && (forall x :: x in m.buffer && x.entry.dto.ferryId == ferryId ==> |l.arrived| <= x.serial)
  }

  lemma SettleForgotten(l: Ledger, m: Ledger, ferryId: string, kind: Kind, gone: seq<Item>, rest: seq<Item>, at: int)
    requires Forgotten(l, m, ferryId) && multiset(rest) + multiset(gone) == multiset(m.buffer)
    ensures Forgotten(l, Settle(m, kind, gone, rest, at), ferryId)
  {
    MarkedSentItems(m.log, kind, gone, at);
    var n, m' := |SentItems(l.log)|, Settle(m, kind, gone, rest, at);
    forall x | (x in SentItems(m'.log)[n..] || x in rest) && x.entry.dto.ferryId == ferryId
      ensures |l.arrived| <= x.serial
    {
      SubMultiset(gone, rest, m.buffer, x);
      if x in SentItems(m'.log)[n..] && x !in gone {
        var i :| n <= i < |SentItems(m'.log)| && SentItems(m'.log)[i] == x;
        assert SentItems(m.log)[i] == x;
      }
    }
  }

  lemma ArriveForgotten(l: Ledger, m: Ledger, ferryId: string, e: Entry)
    requires Forgotten(l, m, ferryId)
    ensures Forgotten(l, Arrive(m, e), ferryId)
  {
  }

  lemma PurgeForgotten(l: Ledger, m: Ledger, ferryId: string, now: int)
    requires Forgotten(l, m, ferryId)
    ensures Forgotten(l, Purge(m, now), ferryId)
  {
    var t := Before(now - BURST_TTL_MS);
    KeptAndTaken(m.buffer, t);
    SettleForgotten(l, m, ferryId, Expired, Taken(m.buffer, t), Kept(m.buffer, t), now);
  }

  lemma DropForgotten(l: Ledger, m: Ledger, ferryId: string)
    requires Forgotten(l, m, ferryId)
    ensures Forgotten(l, DropOldest(m), ferryId)
  {
    if |m.buffer| >= BURST_MAX {
      assert m.buffer == m.buffer[..1] + m.buffer[1..];
      SettleForgotten(l, m, ferryId, DroppedAsOldest, m.buffer[..1], m.buffer[1..], 0);
    }
  }

  lemma StepForgotten(l: Ledger, m: Ledger, ferryId: string, e: Event)
    requires Forgotten(l, m, ferryId)
    ensures Forgotten(l, Step(m, e), ferryId)
  {
    match e
    case Enqueued(dto, now, stamp, live) =>
      var p := Purge(m, now);
      PurgeForgotten(l, m, ferryId, now);
      if live {
        ArriveForgotten(l, p, ferryId, Entry(dto, now));
        var q := Arrive(p, Entry(dto, now));
        SettleForgotten(l, q, ferryId, Sent, q.buffer, [], now);
      } else {
        DropForgotten(l, p, ferryId);
        ArriveForgotten(l, DropOldest(p), ferryId, Entry(dto, stamp));
      }
    case Flushed(now, live) =>
      PurgeForgotten(l, m, ferryId, now);
      if live {
        SettleForgotten(l, Purge(m, now), ferryId, Sent, Purge(m, now).buffer, [], now);
      }
    case RemoveEnqueued(id, live) =>
      KeptAndTaken(m.buffer, About(id));
      SettleForgotten(l, m, ferryId, Removed, Taken(m.buffer, About(id)), Kept(m.buffer, About(id)), 0);
      Snoc(EnqueueRemove(m, id, false).log, RemovalSent(id));
  }

  lemma RemovalForgets(l: Ledger, ferryId: string, live: bool)
    ensures Forgotten(EnqueueRemove(l, ferryId, live), EnqueueRemove(l, ferryId, live), ferryId)
  {
    KeptMembers(l.buffer, About(ferryId));
  }

  /** Whatever follows an enqueueRemove, no notification for that id which was enqueued before it is sent after it. */
  lemma {:induction false} NothingSentAfterRemoval(before: seq<Event>, ferryId: string, live: bool, after: seq<Event>)
    ensures var l := Step(Run(EMPTY, before), RemoveEnqueued(ferryId, live));
            Forgotten(l, Run(l, after), ferryId)
  {
    var l := Step(Run(EMPTY, before), RemoveEnqueued(ferryId, live));
    if after == [] {
      RemovalForgets(Run(EMPTY, before), ferryId, live);
    } else {
      NothingSentAfterRemoval(before, ferryId, live, after[..|after| - 1]);
      StepForgotten(l, Run(l, after[..|after| - 1]), ferryId, after[|after| - 1]);
    }
  }

  // ----- with a session -----

  predicate AlwaysLive(events: seq<Event>) {
    forall i :: 0 <= i < |events| ==> events[i].live
  }

  /** While the session is live every notification is sent by the call that enqueues it. */
  lemma {:induction false} LiveSessionSendsAll(events: seq<Event>)
    requires AlwaysLive(events)
    ensures var l := Run(EMPTY, events);
            l.buffer == [] && SentItems(l.log) == l.arrived
  {
    if events != [] {
      LiveSessionSendsAll(events[..|events| - 1]);
      var l, e := Run(EMPTY, events[..|events| - 1]), events[|events| - 1];
      LiveStep(l, e);
    }
  }

  lemma LiveStep(l: Ledger, e: Event)
    requires e.live && l.buffer == [] && SentItems(l.log) == l.arrived
    ensures Step(l, e).buffer == [] && SentItems(Step(l, e).log) == Step(l, e).arrived
  {
    match e
    case Enqueued(dto, now, stamp, _) =>
      PurgeEmpty(l, now);
      MarkedSentItems(l.log, Sent, [Item(|l.arrived|, Entry(dto, now))], now);
      assert [] + [Item(|l.arrived|, Entry(dto, now))] == [Item(|l.arrived|, Entry(dto, now))];
    case Flushed(now, _) =>
      PurgeEmpty(l, now);
      MarkedSentItems(l.log, Sent, [], now);
    case RemoveEnqueued(id, _) =>
      assert l.log + [] == l.log;
      Snoc(l.log, RemovalSent(id));
  }

  lemma PurgeEmpty(l: Ledger, now: int)
    requires l.buffer == []
    ensures Purge(l, now) == l
  {
    assert l.log + [] == l.log;
  }
}

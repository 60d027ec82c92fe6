/** What each call of the notification dispatcher hands to the client and leaves in the buffer, after any run. */
module BurstSteps {
  import opened BurstBuffer

  /** What a step handed to the client, as notifications. */
  function NewlySent(l: Ledger, m: Ledger): seq<Item>
    requires |SentItems(l.log)| <= |SentItems(m.log)|
  {
    SentItems(m.log)[|SentItems(l.log)|..]
  }

  lemma NewlySentIs(l: Ledger, m: Ledger, s: seq<Item>)
    requires SentItems(m.log) == SentItems(l.log) + s
    ensures SentItems(l.log) <= SentItems(m.log) && NewlySent(l, m) == s
  {
  }

  /** The notification is at most 60 seconds old. */
  predicate Young(x: Item, now: int) {
    now - x.entry.enqueuedAt <= 60000
  }

  lemma {:induction false} KeptIsOrdered(s: seq<Item>, t: Test)
    requires Ascending(s)
    ensures Ascending(Kept(s, t))
  {
    assert [] + s == s;
    KeptAscending([], s, t);
    assert [] + Kept(s, t) == Kept(s, t);
  }

  lemma BackIsOrdered(front: seq<Item>, s: seq<Item>)
    requires Ascending(front + s)
    ensures Ascending(s)
  {
    assert forall i :: 0 <= i < |s| ==> (front + s)[|front| + i] == s[i];
  }

  /** After a run the buffer is in the order of the enqueue calls, and younger than the next call. */
  lemma BufferIsOrdered(events: seq<Event>)
    ensures var l := Run(EMPTY, events);
            Ascending(l.buffer) && forall x :: x in l.buffer ==> x.serial < |l.arrived|
  {
    NothingIsLost(events);
    var l := Run(EMPTY, events);
    BackIsOrdered(SentItems(l.log), l.buffer);
    forall x | x in l.buffer ensures x.serial < |l.arrived| {
      assert x in SentItems(l.log) + l.buffer;
    }
  }

  /** Purging is silent, and leaves the young ones in order. */
  lemma PurgeLeavesTheYoung(l: Ledger, now: int)
    requires Ascending(l.buffer)
    ensures var p := Purge(l, now);
            && SentItems(p.log) == SentItems(l.log) && Messages(p.log) == Messages(l.log) && p.arrived == l.arrived
            && Ascending(p.buffer) && (forall x :: x in p.buffer <==> x in l.buffer && Young(x, now))
  {
    var t := Before(now - BURST_TTL_MS);
    KeptMembers(l.buffer, t);
    KeptIsOrdered(l.buffer, t);
    MarkedSentItems(l.log, Expired, Taken(l.buffer, t), now);
    MarkedMessages(l.log, Expired, Taken(l.buffer, t), now);
  }

  lemma SendAllSends(l: Ledger, now: int)
    ensures var s := SendAll(l, now);
            && s.buffer == [] && SentItems(s.log) == SentItems(l.log) + l.buffer
            && Messages(s.log) == Messages(l.log) + ToMessages(Entries(l.buffer))
  {
    MarkedSentItems(l.log, Sent, l.buffer, now);
    MarkedMessages(l.log, Sent, l.buffer, now);
  }

  /** A flush with a live session empties the buffer: it sends exactly the buffered notifications that are at most 60
      seconds old, in the order in which they were enqueued. Without a session it sends nothing and forgets only
      the older ones. */
  lemma FlushSendsTheYoung(events: seq<Event>, now: int)
    ensures var l := Run(EMPTY, events);
            var m := Step(l, Flushed(now, true));
            && m.buffer == [] && SentItems(l.log) <= SentItems(m.log)
            && var sent := NewlySent(l, m);
            && (forall x :: x in sent <==> x in l.buffer && Young(x, now)) && Ascending(sent)
            && Messages(m.log) == Messages(l.log) + ToMessages(Entries(sent))
    ensures var l := Run(EMPTY, events);
            var m := Step(l, Flushed(now, false));
            && Messages(m.log) == Messages(l.log) && SentItems(m.log) == SentItems(l.log)
            && (forall x :: x in m.buffer <==> x in l.buffer && Young(x, now)) && Ascending(m.buffer)
  {
    var l := Run(EMPTY, events);
    BufferIsOrdered(events);
    PurgeLeavesTheYoung(l, now);
    var p := Purge(l, now);
    SendAllSends(p, now);
    NewlySentIs(l, SendAll(p, now), p.buffer);
  }

  lemma ArrivesLast(l: Ledger, e: Entry)
    requires Ascending(l.buffer) && forall x :: x in l.buffer ==> x.serial < |l.arrived|
    ensures var a := Arrive(l, e);
            var item := Item(|l.arrived|, e);
            && a.buffer == l.buffer + [item] && Ascending(a.buffer)
            && a.log == l.log && a.arrived == l.arrived + [item]
  {
    AscendingSnoc(l.buffer, Item(|l.arrived|, e));
  }

  /** Enqueueing with a live session sends what was buffered and still young, then the new notification. */
  lemma LiveEnqueueSendsAll(events: seq<Event>, dto: Notification, now: int, stamp: int)
    ensures var l := Run(EMPTY, events);
            var m := Step(l, Enqueued(dto, now, stamp, true));
            var item := Item(|l.arrived|, Entry(dto, now));
            && m.buffer == [] && SentItems(l.log) <= SentItems(m.log) && m.arrived == l.arrived + [item]
            && var sent := NewlySent(l, m);
            && (forall x :: x in sent <==> (x in l.buffer && Young(x, now)) || x == item)
            && Ascending(sent) && sent != [] && sent[|sent| - 1] == item
            && Messages(m.log) == Messages(l.log) + ToMessages(Entries(sent))
  {
    var l := Run(EMPTY, events);
    BufferIsOrdered(events);
    PurgeLeavesTheYoung(l, now);
    var p := Purge(l, now);
    ArrivesLast(p, Entry(dto, now));
    var a := Arrive(p, Entry(dto, now));
    SendAllSends(a, now);
    NewlySentIs(l, SendAll(a, now), a.buffer);
  }

  /** Enqueueing without a session sends nothing and buffers the new notification behind the young ones; one of these is
      missing only if it was the oldest and the buffer is full. */
  lemma IdleEnqueueBuffers(events: seq<Event>, dto: Notification, now: int, stamp: int)
    ensures var l := Run(EMPTY, events);
            var m := Step(l, Enqueued(dto, now, stamp, false));
            var item := Item(|l.arrived|, Entry(dto, stamp));
            && Messages(m.log) == Messages(l.log) && m.arrived == l.arrived + [item]
            && m.buffer != [] && m.buffer[|m.buffer| - 1] == item && Ascending(m.buffer)
            && (forall x :: x in m.buffer ==> (x in l.buffer && Young(x, now)) || x == item)
            && (forall x :: x in l.buffer && Young(x, now) && x !in m.buffer ==>
                  |m.buffer| == 20 && forall y :: y in m.buffer ==> x.serial < y.serial)
  {
    var l := Run(EMPTY, events);
    BufferIsOrdered(events);
    NothingIsLost(events);
    PurgeLeavesTheYoung(l, now);
    PurgeKeeps(l, now);
    var p := Purge(l, now);
    DropsOnlyTheFirst(p);
    ArrivesLast(DropOldest(p), Entry(dto, stamp));
  }

  lemma DropsOnlyTheFirst(l: Ledger)
    requires Ascending(l.buffer)
    ensures var d := DropOldest(l);
            && Messages(d.log) == Messages(l.log) && d.arrived == l.arrived && Ascending(d.buffer)
            && (forall x :: x in d.buffer ==> x in l.buffer)
            && (forall x :: x in l.buffer && x !in d.buffer ==>
                  |d.buffer| == |l.buffer| - 1 >= 19 && forall y :: y in d.buffer ==> x.serial < y.serial)
  {
    DropIsSilent(l);
    if |l.buffer| >= BURST_MAX {
      TailIsOrdered(l.buffer);
    }
  }

  lemma TailIsOrdered(s: seq<Item>)
    requires Ascending(s) && s != []
    ensures Ascending(s[1..]) && forall y :: y in s[1..] ==> y in s && s[0].serial < y.serial
    ensures forall x :: x in s && x !in s[1..] ==> x == s[0]
  {
    forall y | y in s[1..] ensures y in s && s[0].serial < y.serial {
      var i :| 0 <= i < |s[1..]| && s[1..][i] == y;
      assert s[i + 1] == y;
    }
    assert s == [s[0]] + s[1..];
  }

  /** enqueueRemove takes every buffered notification of that id out, and no other; with a live session its last and
      only message is the removal. */
  lemma RemovalLeavesNothing(events: seq<Event>, ferryId: string, live: bool)
    ensures var l := Run(EMPTY, events);
            var m := Step(l, RemoveEnqueued(ferryId, live));
            && (forall x :: x in m.buffer <==> x in l.buffer && x.entry.dto.ferryId != ferryId) && Ascending(m.buffer)
            && Messages(m.log) == Messages(l.log) + (if live then [Remove(ferryId)] else [])
            && SentItems(m.log) == SentItems(l.log) && m.arrived == l.arrived
  {
    BufferIsOrdered(events);
    RemovalSteps(Run(EMPTY, events), ferryId, live);
  }

  lemma RemovalSteps(l: Ledger, ferryId: string, live: bool)
    requires Ascending(l.buffer)
    ensures var m := EnqueueRemove(l, ferryId, live);
            && (forall x :: x in m.buffer <==> x in l.buffer && x.entry.dto.ferryId != ferryId) && Ascending(m.buffer)
            && Messages(m.log) == Messages(l.log) + (if live then [Remove(ferryId)] else [])
            && SentItems(m.log) == SentItems(l.log) && m.arrived == l.arrived
  {
    var t := About(ferryId);
    KeptMembers(l.buffer, t);
    KeptIsOrdered(l.buffer, t);
    MarkedSentItems(l.log, Removed, Taken(l.buffer, t), 0);
    MarkedMessages(l.log, Removed, Taken(l.buffer, t), 0);
    Snoc(EnqueueRemove(l, ferryId, false).log, RemovalSent(ferryId));
  }

  /** The text is a beginning of the other, and is cut only at the limit. */
  predicate CutAt(text: string, whole: string, limit: nat) {
    text <= whole && (text == whole || |text| == limit) && |text| <= limit
  }

  /** The message carries the notification within the limits of the protocol. */
  lemma MessageFits(dto: Notification)
    ensures dto.isRemove ==> ToMessage(dto) == Remove(dto.ferryId)
    ensures !dto.isRemove ==>
              var m := ToMessage(dto);
              && m.Post? && m.ferryId == dto.ferryId && m.postedAt == dto.postedAt && m.category == dto.category
              && CutAt(m.title, dto.title, 200) && CutAt(m.body, dto.body, 1000)
              && CutAt(m.packageName, dto.packageName, 255) && CutAt(m.appLabel, dto.appLabel, 100)
  {
  }
}

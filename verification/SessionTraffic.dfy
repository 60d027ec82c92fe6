/** What a reliable link delivers of frames written in any order; and tasks that share one session on Linux, where
    encrypting and writing is one step. */
module SessionTraffic {
  import opened Bytes
  import opened SecureChannel

  /** A frame: the number in its nonce and its plaintext. */
  datatype Numbered = Numbered(number: nat, plaintext: Bytes)

  function WireOf(c: Aead, key: Key, frames: seq<Numbered>): Bytes {
    if frames == [] then [] else SealedFrame(c, key, frames[0].number, frames[0].plaintext) + WireOf(c, key, frames[1..])
  }

  /** How many frames come numbered counter, counter + 1, ... before the first one that does not. */
  function Leading(frames: seq<Numbered>, counter: nat): (n: nat)
    ensures n <= |frames|
  {
    if frames == [] || frames[0].number != counter then 0 else 1 + Leading(frames[1..], counter + 1)
  }

  function Texts(frames: seq<Numbered>): (texts: seq<Bytes>)
    ensures |texts| == |frames| && forall i :: 0 <= i < |frames| ==> texts[i] == frames[i].plaintext
  {
    seq(|frames|, i requires 0 <= i < |frames| => frames[i].plaintext)
  }

  lemma {:induction false} LeadingInTurn(frames: seq<Numbered>, counter: nat)
    ensures var n := Leading(frames, counter);
            && (forall i :: 0 <= i < n ==> frames[i].number == counter + i)
            && (n < |frames| ==> frames[n].number != counter + n)
  {
    if frames != [] && frames[0].number == counter {
      LeadingInTurn(frames[1..], counter + 1);
    }
  }

  lemma FrameHead(c: Aead, key: Key, counter: nat, plaintext: Bytes, rest: Bytes)
    requires Ideal(c, {key}) && |plaintext| <= MAX_AEAD_PLAINTEXT
    ensures var f := SealedFrame(c, key, counter, plaintext);
            && FirstFrame(f + rest) == Some(f) && (f + rest)[|f|..] == rest && |f| >= 16
            && f[4..16] == MakeNonce(counter) && |f| == 16 + FromBigEndian(f[..4])
            && f[16..] == c.seal(key, MakeNonce(counter), plaintext)
  {
    var ciphertext := c.seal(key, MakeNonce(counter), plaintext);
    var f := SealedFrame(c, key, counter, plaintext);
    assert |ciphertext| == |plaintext| + AEAD_TAG_SIZE;
    Pow256Values();
    BigEndianRoundTrip(|ciphertext|, 4);
    assert f[..4] == BigEndian(|ciphertext|, 4) == (f + rest)[..4];
    assert f[4..16] == MakeNonce(counter) && f[16..] == ciphertext;
    assert (f + rest)[..|f|] == f && (f + rest)[|f|..] == rest;
  }

  /** Decrypting a sealed frame gives the plaintext, and moves the counter, exactly when its number is the
      expected one. */
  lemma DecryptSealed(c: Aead, key: Key, expected: nat, counter: nat, plaintext: Bytes)
    requires Ideal(c, {key}) && |plaintext| <= MAX_AEAD_PLAINTEXT && counter < TWO_TO_THE_64
    ensures var o := Decrypt(c, key, expected, SealedFrame(c, key, counter, plaintext));
            if expected == counter then o == (Ok(plaintext), expected + 1) else o.0.Error? && o.1 == expected
  {
    FrameHead(c, key, counter, plaintext, []);
    var f := SealedFrame(c, key, counter, plaintext);
    assert f[16..16 + FromBigEndian(f[..4])] == f[16..];
    if expected < TWO_TO_THE_64 {
      NoncesDiffer(expected, counter);
    }
    assert c.open(key, MakeNonce(counter), c.seal(key, MakeNonce(counter), plaintext)) == Some(plaintext);
  }

  /** Frames a link may carry to a peer that does not hang up. */
  ghost predicate Sendable(c: Aead, key: Key, frames: seq<Numbered>, ends: Bytes -> bool) {
    && Ideal(c, {key})
    && forall i :: 0 <= i < |frames| ==>
         |frames[i].plaintext| <= MAX_AEAD_PLAINTEXT && !ends(frames[i].plaintext) && frames[i].number < TWO_TO_THE_64
  }

  lemma LoopOn(c: Aead, key: Key, counter: nat, frame: Bytes, rest: Bytes, ends: Bytes -> bool, p: Bytes, inTurn: bool)
    requires FirstFrame(frame + rest) == Some(frame) && (frame + rest)[|frame|..] == rest && !ends(p)
    requires var o := Decrypt(c, key, counter, frame); if inTurn then o == (Ok(p), counter + 1) else o.0.Error?
    ensures SessionLoop(c, key, counter, frame + rest, ends) ==
            if inTurn then [p] + SessionLoop(c, key, counter + 1, rest, ends) else []
  {
    LoopHead(c, key, counter, frame, rest, ends);
  }

  lemma LoopStep(c: Aead, key: Key, f: Numbered, counter: nat, rest: Bytes, ends: Bytes -> bool)
    requires Ideal(c, {key}) && |f.plaintext| <= MAX_AEAD_PLAINTEXT && !ends(f.plaintext) && f.number < TWO_TO_THE_64
    ensures SessionLoop(c, key, counter, SealedFrame(c, key, f.number, f.plaintext) + rest, ends) ==
            if f.number == counter then [f.plaintext] + SessionLoop(c, key, counter + 1, rest, ends) else []
  {
    FrameHead(c, key, f.number, f.plaintext, rest);
    DecryptSealed(c, key, counter, f.number, f.plaintext);
    LoopOn(c, key, counter, SealedFrame(c, key, f.number, f.plaintext), rest, ends, f.plaintext, f.number == counter);
  }

  /** A plaintext that ends the session is itself handed on, and is the last: whatever follows it is not read. */
  lemma EndIsHandedOn(c: Aead, key: Key, p: Bytes, counter: nat, rest: Bytes, ends: Bytes -> bool)
    requires Ideal(c, {key}) && |p| <= MAX_AEAD_PLAINTEXT && ends(p) && counter < TWO_TO_THE_64
    ensures SessionLoop(c, key, counter, SealedFrame(c, key, counter, p) + rest, ends) == [p]
  {
    FrameHead(c, key, counter, p, rest);
    DecryptSealed(c, key, counter, counter, p);
    LoopHead(c, key, counter, SealedFrame(c, key, counter, p), rest, ends);
  }

  lemma LoopTurn(c: Aead, key: Key, frames: seq<Numbered>, counter: nat, tail: Bytes, ends: Bytes -> bool)
    requires Sendable(c, key, frames, ends) && FirstFrame(tail).None?
    ensures SessionLoop(c, key, counter, WireOf(c, key, frames) + tail, ends) ==
            if frames != [] && frames[0].number == counter
            then [frames[0].plaintext] + SessionLoop(c, key, counter + 1, WireOf(c, key, frames[1..]) + tail, ends)
            else []
  {
    if frames == [] {
      assert [] + tail == tail;
    } else {
      var wire, f := WireOf(c, key, frames[1..]), frames[0];
      var sealed := SealedFrame(c, key, f.number, f.plaintext);
      AppendAssociates(sealed, wire, tail);
      assert WireOf(c, key, frames) + tail == sealed + (wire + tail);
      LoopStep(c, key, f, counter, wire + tail, ends);
    }
  }

  /** A function of a counter and some frames that hands on a frame in turn and stops at one out of turn. */
  ghost predicate HandsOnInTurn(f: (nat, seq<Numbered>) -> seq<Bytes>, ok: seq<Numbered> -> bool) {
    forall counter: nat, frames: seq<Numbered> {:trigger f(counter, frames), ok(frames)} ::
      ok(frames) ==>
        && (frames != [] ==> ok(frames[1..]))
        && f(counter, frames) ==
           if frames != [] && frames[0].number == counter then [frames[0].plaintext] + f(counter + 1, frames[1..]) else []
  }

  lemma OneTurn(f: (nat, seq<Numbered>) -> seq<Bytes>, ok: seq<Numbered> -> bool, frames: seq<Numbered>, counter: nat)
    requires HandsOnInTurn(f, ok) && ok(frames)
    ensures frames != [] ==> ok(frames[1..])
    ensures f(counter, frames) ==
            if frames != [] && frames[0].number == counter then [frames[0].plaintext] + f(counter + 1, frames[1..])
            else []
  {
    var _ := f(counter, frames);
  }

  lemma {:induction false} InTurn(f: (nat, seq<Numbered>) -> seq<Bytes>, ok: seq<Numbered> -> bool,
                                  frames: seq<Numbered>, counter: nat)
    requires HandsOnInTurn(f, ok) && ok(frames)
    ensures f(counter, frames) == Texts(frames[..Leading(frames, counter)])
    decreases |frames|
  {
    OneTurn(f, ok, frames, counter);
    if frames != [] && frames[0].number == counter {
      var n := Leading(frames[1..], counter + 1);
      InTurn(f, ok, frames[1..], counter + 1);
      TextsCons(frames, n);
      assert Leading(frames, counter) == n + 1;
    } else {
      assert Leading(frames, counter) == 0;
      assert Texts(frames[..0]) == [];
    }
  }

  lemma TextsCons(frames: seq<Numbered>, n: nat)
    requires frames != [] && n < |frames|
    ensures [frames[0].plaintext] + Texts(frames[1..][..n]) == Texts(frames[..n + 1])
  {
  }

  ghost function Receives(c: Aead, key: Key, tail: Bytes, ends: Bytes -> bool): (nat, seq<Numbered>) -> seq<Bytes> {
    (counter: nat, frames: seq<Numbered>) => SessionLoop(c, key, counter, WireOf(c, key, frames) + tail, ends)
  }

  ghost function MaySend(c: Aead, key: Key, ends: Bytes -> bool): seq<Numbered> -> bool {
    (frames: seq<Numbered>) => Sendable(c, key, frames, ends)
  }

  lemma SendableRest(c: Aead, key: Key, frames: seq<Numbered>, ends: Bytes -> bool)
    requires Sendable(c, key, frames, ends) && frames != []
    ensures Sendable(c, key, frames[1..], ends)
  {
  }

  lemma ReceivesTurn(c: Aead, key: Key, tail: Bytes, ends: Bytes -> bool, counter: nat, frames: seq<Numbered>)
    requires Sendable(c, key, frames, ends) && FirstFrame(tail).None?
    ensures var f := Receives(c, key, tail, ends);
            f(counter, frames) ==
            if frames != [] && frames[0].number == counter then [frames[0].plaintext] + f(counter + 1, frames[1..])
            else []
  {
    LoopTurn(c, key, frames, counter, tail, ends);
  }

  lemma ReceivesInTurn(c: Aead, key: Key, tail: Bytes, ends: Bytes -> bool)
    requires FirstFrame(tail).None?
    ensures HandsOnInTurn(Receives(c, key, tail, ends), MaySend(c, key, ends))
  {
    var f, ok := Receives(c, key, tail, ends), MaySend(c, key, ends);
    forall counter: nat, frames: seq<Numbered> {:trigger f(counter, frames), ok(frames)} | ok(frames)
      ensures frames != [] ==> ok(frames[1..])
      ensures f(counter, frames) ==
              if frames != [] && frames[0].number == counter then [frames[0].plaintext] + f(counter + 1, frames[1..])
              else []
    {
      ReceivesTurn(c, key, tail, ends, counter, frames);
      if frames != [] {
        SendableRest(c, key, frames, ends);
      }
    }
  }

  /** A reliable link carries the frames to the peer in the order they were written, plus at most an incomplete
      one. The peer hands on exactly the plaintexts up to the first frame that is out of turn. */
  lemma LoopDelivers(c: Aead, key: Key, frames: seq<Numbered>, counter: nat, tail: Bytes, ends: Bytes -> bool)
    requires Sendable(c, key, frames, ends) && FirstFrame(tail).None?
    ensures SessionLoop(c, key, counter, WireOf(c, key, frames) + tail, ends)
            == Texts(frames[..Leading(frames, counter)])
  {
    ReceivesInTurn(c, key, tail, ends);
    InTurn(Receives(c, key, tail, ends), MaySend(c, key, ends), frames, counter);
  }

  /** So everything written is delivered if and only if the numbers on the wire are 0, 1, 2, ... */
  lemma DeliveredIffCounting(c: Aead, key: Key, frames: seq<Numbered>, ends: Bytes -> bool)
    requires Sendable(c, key, frames, ends)
    ensures var delivered := SessionLoop(c, key, 0, WireOf(c, key, frames), ends);
            && delivered <= Texts(frames)
            && (delivered == Texts(frames) <==> forall i :: 0 <= i < |frames| ==> frames[i].number == i)
  {
    LoopDelivers(c, key, frames, 0, [], ends);
    LeadingInTurn(frames, 0);
    assert WireOf(c, key, frames) + [] == WireOf(c, key, frames);
    var n := Leading(frames, 0);
    assert Texts(frames[..n]) == Texts(frames)[..n];
    if n == |frames| {
      assert frames[..n] == frames;
    }
  }

  lemma AppendAssociates(a: Bytes, b: Bytes, c: Bytes)
    ensures (a + b) + c == a + (b + c)
  {
  }

  lemma {:induction false} WireConcat(c: Aead, key: Key, xs: seq<Numbered>, ys: seq<Numbered>)
    ensures WireOf(c, key, xs + ys) == WireOf(c, key, xs) + WireOf(c, key, ys)
  {
    if xs == [] {
      assert xs + ys == ys;
    } else {
      WireConcat(c, key, xs[1..], ys);
      assert (xs + ys)[1..] == xs[1..] + ys;
      AppendAssociates(SealedFrame(c, key, xs[0].number, xs[0].plaintext), WireOf(c, key, xs[1..]), WireOf(c, key, ys));
    }
  }

  // ----- Linux: encrypt and write with no await between them -----

  /** The plaintexts as frames 0, 1, 2, ... */
  function Counting(sent: seq<Bytes>): seq<Numbered> {
    seq(|sent|, i requires 0 <= i < |sent| => Numbered(i, sent[i]))
  }

  lemma WireSnoc(c: Aead, key: Key, sent: seq<Bytes>, p: Bytes)
    ensures WireOf(c, key, Counting(sent + [p])) == WireOf(c, key, Counting(sent)) + SealedFrame(c, key, |sent|, p)
  {
    assert Counting(sent + [p]) == Counting(sent) + [Numbered(|sent|, p)];
    WireConcat(c, key, Counting(sent), [Numbered(|sent|, p)]);
    assert WireOf(c, key, [Numbered(|sent|, p)]) == SealedFrame(c, key, |sent|, p) + [];
  }

  /** One end of a session with the bytes its writer has sent. */
  class PeerSession {
    const session: FerrySession
    var written: Bytes

    constructor (session: FerrySession)
      requires session.Valid() && session.sent == []
      ensures this.session == session && written == [] && Valid()
    {
      this.session, written := session, [];
    }

    ghost predicate Valid()
      reads this, session
    {
      && session.Valid()
      && written == WireOf(session.cipher, session.keys.sendKey, Counting(session.sent))
    }

    /** send_encrypted up to its first await. */
    method SendEncrypted(plaintext: Bytes) returns (ok: bool)
      requires Valid()
      modifies this, session
      ensures Valid()
      ensures ok <==> |plaintext| <= MAX_AEAD_PLAINTEXT && |old(session.sent)| < TWO_TO_THE_64
      ensures session.sent == if ok then old(session.sent) + [plaintext] else old(session.sent)
    {
      var o := session.EncryptFrame(plaintext);
      if o.Error? {
        return false;
      }
      WireSnoc(session.cipher, session.keys.sendKey, old(session.sent), plaintext);
      written := written + o.bytes;
      ok := true;
    }
  }

  lemma LoopContinues(c: Aead, key: Key, counter: nat, frame: Bytes, rest: Bytes, ends: Bytes -> bool,
                      before: seq<Bytes>, o: Outcome, counter1: nat)
    requires FirstFrame(frame + rest) == Some(frame) && (frame + rest)[|frame|..] == rest
    requires (o, counter1) == Decrypt(c, key, counter, frame)
    ensures before + SessionLoop(c, key, counter, frame + rest, ends) ==
            if o.Error? then before
            else before + [o.bytes] + if ends(o.bytes) then [] else SessionLoop(c, key, counter1, rest, ends)
  {
    LoopHead(c, key, counter, frame, rest, ends);
  }

  /** _run_session_loop over whatever arrives: read a frame, decrypt it, hand it on; any failure ends it. */
  method RunSessionLoop(session: FerrySession, stream: Bytes, ends: Bytes -> bool) returns (delivered: seq<Bytes>)
    requires session.Valid()
    modifies session`recvCounter
    ensures delivered == SessionLoop(session.cipher, session.keys.recvKey, old(session.recvCounter), stream, ends)
  {
    delivered := [];
    var rest := stream;
    ghost var c, key := session.cipher, session.keys.recvKey;
    ghost var all := SessionLoop(c, key, session.recvCounter, stream, ends);
    while true
      invariant session.Valid()
      invariant delivered + SessionLoop(c, key, session.recvCounter, rest, ends) == all
      decreases |rest|
    {
      if |rest| < 4 {
        return;
      }
      var total := 16 + FromBigEndian(rest[..4]);
      if |rest| < total {
        return;
      }
      ghost var counter, before := session.recvCounter, delivered;
      var frame := rest[..total];
      assert rest == frame + rest[total..];
      rest := rest[total..];
      var o := session.DecryptFrame(frame);
      LoopContinues(c, key, counter, frame, rest, ends, before, o, session.recvCounter);
      if o.Error? {
        return;
      }
      delivered := delivered + [o.bytes];
      if ends(o.bytes) {
        return;
      }
    }
  }

  /** The elements of s that carry the tag j. */
  function Tagged<T>(tags: seq<nat>, s: seq<T>, j: nat): seq<T>
    requires |tags| == |s|
  {
    if s == [] then []
    else Tagged(tags[..|s| - 1], s[..|s| - 1], j) + if tags[|s| - 1] == j then [s[|s| - 1]] else []
  }

  lemma TaggedSnoc<T>(tags: seq<nat>, s: seq<T>, t: nat, x: T, j: nat)
    requires |tags| == |s|
    ensures Tagged(tags + [t], s + [x], j) == Tagged(tags, s, j) + if t == j then [x] else []
  {
    assert (tags + [t])[..|s|] == tags && (s + [x])[..|s|] == s;
  }

  function Count(s: seq<nat>, x: nat): nat {
    if s == [] then 0 else Count(s[..|s| - 1], x) + if s[|s| - 1] == x then 1 else 0
  }

  /** What each task has sent after a schedule: as many of its messages, in its order, as it had turns. */
  ghost predicate Served(programs: seq<seq<Bytes>>, schedule: seq<nat>, tags: seq<nat>, sent: seq<Bytes>,
                         next: seq<nat>) {
    && |tags| == |sent| <= |schedule| && |next| == |programs|
    && forall j :: 0 <= j < |programs| ==>
         && next[j] == Min(Count(schedule, j), |programs[j]|)
         && Tagged(tags, sent, j) == programs[j][..next[j]]
  }

  lemma ServedSnoc(programs: seq<seq<Bytes>>, schedule: seq<nat>, tags: seq<nat>, sent: seq<Bytes>, next: seq<nat>,
                   t: nat)
    requires Served(programs, schedule, tags, sent, next)
    ensures t < |programs| && next[t] < |programs[t]| ==>
              Served(programs, schedule + [t], tags + [t], sent + [programs[t][next[t]]], next[t := next[t] + 1])
    ensures t >= |programs| || next[t] >= |programs[t]| ==> Served(programs, schedule + [t], tags, sent, next)
  {
    assert (schedule + [t])[..|schedule|] == schedule;
    if t < |programs| && next[t] < |programs[t]| {
      var p := programs[t][next[t]];
      forall j | 0 <= j < |programs| ensures Tagged(tags + [t], sent + [p], j)
                                             == programs[j][..if j == t then next[j] + 1 else next[j]] {
        TaggedSnoc(tags, sent, t, p, j);
      }
    }
  }

  /** One task's turn. */
  method TakeTurn(peer: PeerSession, programs: seq<seq<Bytes>>, ghost turns: seq<nat>, t: nat, tags: seq<nat>,
                  next: seq<nat>)
    returns (tags': seq<nat>, next': seq<nat>)
    requires peer.Valid() && Served(programs, turns, tags, peer.session.sent, next) && |turns| < TWO_TO_THE_64
    requires forall j :: 0 <= j < |programs| ==> forall p :: p in programs[j] ==> |p| <= MAX_AEAD_PLAINTEXT
    modifies peer, peer.session
    ensures peer.Valid() && Served(programs, turns + [t], tags', peer.session.sent, next')
  {
    ghost var before := peer.session.sent;
    tags', next' := tags, next;
    if t < |programs| && next[t] < |programs[t]| {
      var p := programs[t][next[t]];
      assert p in programs[t];
      var ok := peer.SendEncrypted(p);
      tags', next' := tags + [t], next[t := next[t] + 1];
      assert peer.session.sent == before + [p];
    }
    ServedSnoc(programs, turns, tags, before, next, t);
  }

  /** Any schedule of tasks that each send their own messages on one session: the wire carries the frames in
      counter order, and every task's messages appear in the order the task sent them, none missing. */
  method RunTasks(peer: PeerSession, programs: seq<seq<Bytes>>, schedule: seq<nat>) returns (tags: seq<nat>)
    requires peer.Valid() && peer.session.sent == [] && |schedule| <= TWO_TO_THE_64
    requires forall j :: 0 <= j < |programs| ==> forall p :: p in programs[j] ==> |p| <= MAX_AEAD_PLAINTEXT
    modifies peer, peer.session
    ensures peer.Valid()
    ensures exists next: seq<nat> :: Served(programs, schedule, tags, peer.session.sent, next)
  {
    tags := [];
    var next: seq<nat> := seq(|programs|, _ => 0);
    var i := 0;
    while i < |schedule|
      invariant 0 <= i <= |schedule|
      invariant peer.Valid() && Served(programs, schedule[..i], tags, peer.session.sent, next)
    {
      assert schedule[..i + 1] == schedule[..i] + [schedule[i]];
      tags, next := TakeTurn(peer, programs, schedule[..i], schedule[i], tags, next);
      i := i + 1;
    }
    assert schedule[..i] == schedule;
  }

  /** So a reliable link delivers everything that was sent, however the senders interleaved. */
  lemma LinuxDeliversAll(c: Aead, key: Key, sent: seq<Bytes>, ends: Bytes -> bool)
    requires Ideal(c, {key}) && |sent| <= TWO_TO_THE_64
    requires forall i :: 0 <= i < |sent| ==> |sent[i]| <= MAX_AEAD_PLAINTEXT && !ends(sent[i])
    ensures SessionLoop(c, key, 0, WireOf(c, key, Counting(sent)), ends) == sent
  {
    DeliveredIffCounting(c, key, Counting(sent), ends);
    assert Texts(Counting(sent)) == sent;
  }
}

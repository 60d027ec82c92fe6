/** Pairing of a Linux service with an Android phone, whose rules differ: the phone needs no decision of its own
    once Linux has accepted, echoes ACCEPTs, and sends its own ACCEPT from a coroutine that runs later. */
module PairingAndroid {
  import opened Pairing

  /** The phone. launched counts coroutines that still have to send an ACCEPT; sent and read count ACCEPTs; rejected,
      as history, whether a REJECT got through. */
  datatype Phone = Phone(
    state: SessionState, trust: bool, userAccepts: nat, launched: nat, sent: nat, read: nat, rejected: bool)

  datatype Link = Link(linux: End, phone: Phone, toLinux: seq<Msg>, toPhone: seq<Msg>)

  datatype PhoneEvent =
    | PhoneAccepts                       // acceptPairing
    | PhoneLaunchRuns                    // its coroutine gets to send
    | PhoneRejects(gotThrough: bool)     // rejectPairing closes the socket while its coroutine sends
    | PhoneDelivers
    | PhoneDrops

  datatype Move = OfLinux(e: Event) | OfPhone(p: PhoneEvent)

  function Begin(): Link {
    Link(Start().me, Phone(Pairing, false, 0, 0, 0, 0, false), [], [])
  }

  function LinuxStep(s: Link, e: Event): Link {
    // The Linux rules are those of two Linux peers; only its own half is used.
    var t := Step(System(s.linux, s.linux, s.toLinux, s.toPhone), e);
    s.(linux := t.me, toLinux := t.inbox, toPhone := t.outbox)
  }

  /** The PAIR_DECISION branch on the phone. */
  function PhoneReads(p: Phone, m: Msg): (Phone, seq<Msg>) {
    match m
    case Reject => (p.(state := Closed), [])
    case Capabilities => (p, [])
    case Accept =>
      var q := p.(read := p.read + 1);
      match p.state
      case Pairing => (q.(state := Established, trust := true, sent := p.sent + 1), [Accept, Capabilities])
      case WaitingForRemoteDecision => (q.(state := Established, trust := true), [])
      case Established => (q.(sent := p.sent + 1), [Accept])
      case _ => (q, [])
  }

  function PhoneStep(s: Link, e: PhoneEvent): Link {
    var p := s.phone;
    if p.state.Closed? then s
    else
      match e
      case PhoneAccepts =>
        if p.state.Pairing? then
          s.(phone := p.(state := WaitingForRemoteDecision, userAccepts := p.userAccepts + 1, launched := p.launched + 1))
        else s
      case PhoneLaunchRuns =>
        if p.launched == 0 then s
        else s.(phone := p.(launched := p.launched - 1, sent := p.sent + 1),
                toLinux := s.toLinux + [Accept] + if p.state.Established? then [Capabilities] else [])
      case PhoneRejects(gotThrough) =>
        s.(phone := p.(state := Closed, rejected := gotThrough),
           toLinux := s.toLinux + if gotThrough then [Reject] else [])
      case PhoneDelivers =>
        if s.toPhone == [] then s
        else
          var r := PhoneReads(p, s.toPhone[0]);
          s.(phone := r.0, toPhone := s.toPhone[1..], toLinux := s.toLinux + r.1)
      case PhoneDrops => s.(phone := p.(state := Closed))
  }

  function Moves(s: Link, m: Move): Link {
    match m
    case OfLinux(e) => LinuxStep(s, e)
    case OfPhone(p) => PhoneStep(s, p)
  }

  function RunLink(s: Link, moves: seq<Move>): Link {
    if moves == [] then s else Moves(RunLink(s, moves[..|moves| - 1]), moves[|moves| - 1])
  }

  // ----- safety -----

  ghost predicate LinkSafe(s: Link) {
    && (Accept in s.toPhone ==> s.linux.userAccepted)
    && (s.linux.state.WaitingForRemoteDecision? || s.linux.trust ==> s.linux.userAccepted)
    && (s.phone.trust || s.phone.state.Established? || s.phone.read > 0 ==> s.linux.userAccepted)
    && s.phone.sent + s.phone.launched <= s.phone.userAccepts + s.phone.read
  }

  lemma MovesAreSafe(s: Link, m: Move)
    requires LinkSafe(s)
    ensures LinkSafe(Moves(s, m))
  {
    if m == OfPhone(PhoneDelivers) && s.toPhone != [] {
      assert s.toPhone[0] in s.toPhone && forall x :: x in s.toPhone[1..] ==> x in s.toPhone;
    }
  }

  /** Trust on either device implies that the Linux user accepted; and the phone never sends more ACCEPTs than
      its user made and it read, so the echo cannot feed itself. */
  lemma {:induction false} TrustNeedsTheLinuxUser(moves: seq<Move>)
    ensures var s := RunLink(Begin(), moves);
            && LinkSafe(s)
            && (s.linux.trust || s.phone.trust ==> s.linux.userAccepted)
            && s.phone.sent <= s.phone.userAccepts + s.phone.read
  {
    if moves != [] {
      TrustNeedsTheLinuxUser(moves[..|moves| - 1]);
      MovesAreSafe(RunLink(Begin(), moves[..|moves| - 1]), moves[|moves| - 1]);
    }
  }

  /** The phone's user is not needed, although the documentation asks for Accept on both devices. */
  lemma PhoneUserIsNotNeeded()
    ensures var s := RunLink(Begin(), [OfLinux(UserAccepts), OfPhone(PhoneDelivers), OfLinux(Delivers)]);
            s.linux.trust && s.phone.trust && s.phone.userAccepts == 0
  {
    var m0, m1, m2 := OfLinux(UserAccepts), OfPhone(PhoneDelivers), OfLinux(Delivers);
    assert [m0, m1, m2][..2] == [m0, m1] && [m0, m1][..1] == [m0];
    assert RunLink(Begin(), [m0]) == LinuxStep(Begin(), UserAccepts);
    assert RunLink(Begin(), [m0]).toPhone == [Accept];
    assert RunLink(Begin(), [m0, m1]).toLinux == [Accept, Capabilities];
  }

  // ----- rejection -----

  ghost predicate LinkTold(s: Link) {
    && (s.linux.userRejected ==> s.linux.state.Closed? && (s.phone.state.Closed? || Reject in s.toPhone))
    && (s.phone.rejected ==> s.phone.state.Closed? && (s.linux.state.Closed? || Reject in s.toLinux))
    && (Reject in s.toPhone ==> s.linux.userRejected)
    && (Reject in s.toLinux ==> s.phone.rejected)
  }

  lemma LinuxTells(s: Link, e: Event)
    requires LinkTold(s)
    ensures LinkTold(LinuxStep(s, e))
  {
    if e.Delivers? && s.toLinux != [] {
      assert s.toLinux == [s.toLinux[0]] + s.toLinux[1..] && s.toLinux[0] in s.toLinux;
    }
  }

  lemma PhoneTells(s: Link, e: PhoneEvent)
    requires LinkTold(s)
    ensures LinkTold(PhoneStep(s, e))
  {
    if e.PhoneDelivers? && s.toPhone != [] {
      assert s.toPhone == [s.toPhone[0]] + s.toPhone[1..] && s.toPhone[0] in s.toPhone;
    }
  }

  /** After every run: a REJECT that was sent closes both devices once the other one has read all that was sent. */
  lemma {:induction false} RejectionClosesBoth(moves: seq<Move>)
    ensures var s := RunLink(Begin(), moves);
            && LinkTold(s)
            && (s.linux.userRejected ==> s.linux.state.Closed? && (s.toPhone == [] ==> s.phone.state.Closed?))
            && (s.phone.rejected ==> s.phone.state.Closed? && (s.toLinux == [] ==> s.linux.state.Closed?))
  {
    if moves != [] {
      RejectionClosesBoth(moves[..|moves| - 1]);
      var s := RunLink(Begin(), moves[..|moves| - 1]);
      match moves[|moves| - 1]
      case OfLinux(e) => LinuxTells(s, e);
      case OfPhone(e) => PhoneTells(s, e);
    }
  }

  /** A device that is closed, by a rejection made or read or by the link, never persists trust afterwards and sends
      nothing more. */
  lemma {:induction false} ClosedDeviceIsFinal(s: Link, moves: seq<Move>)
    ensures s.linux.state.Closed? ==> RunLink(s, moves).linux == s.linux
    ensures s.phone.state.Closed? ==> RunLink(s, moves).phone == s.phone
  {
    if moves != [] {
      ClosedDeviceIsFinal(s, moves[..|moves| - 1]);
    }
  }

  /** Every way a session closes: the phone's own rejection, whether or not it gets through, a REJECT read, a drop. */
  lemma PhoneCloses(s: Link, gotThrough: bool)
    requires !s.phone.state.Closed?
    ensures var t := PhoneStep(s, PhoneRejects(gotThrough));
            t.phone == s.phone.(state := Closed, rejected := gotThrough)
            && t.toLinux == s.toLinux + (if gotThrough then [Reject] else [])
    ensures s.toPhone != [] && s.toPhone[0].Reject? ==>
              var t := PhoneStep(s, PhoneDelivers); t.phone == s.phone.(state := Closed) && t.toLinux == s.toLinux
    ensures PhoneStep(s, PhoneDrops).phone == s.phone.(state := Closed)
  {
    assert s.toLinux + [] == s.toLinux;
  }

  // ----- completion -----

  predicate Calm(moves: seq<Move>) {
    forall i :: 0 <= i < |moves| ==> CalmMove(moves[i])
  }

  predicate CalmMove(m: Move) {
    m in {OfLinux(UserAccepts), OfLinux(Delivers), OfPhone(PhoneAccepts), OfPhone(PhoneLaunchRuns), OfPhone(PhoneDelivers)}
  }

  ghost predicate LinkDetermined(s: Link) {
    var l, p := s.linux, s.phone;
    && Reject !in s.toLinux && Reject !in s.toPhone
    && l.state == StateOf(l.userAccepted, l.heard) && (l.trust <==> l.state.Established?)
    && p.state == (if p.read > 0 then Established else if p.userAccepts > 0 then WaitingForRemoteDecision else Pairing)
    && (p.trust <==> p.state.Established?)
    && (l.userAccepted <==> p.read > 0 || Accept in s.toPhone)
    && (p.userAccepts > 0 || p.read > 0 <==> l.heard || Accept in s.toLinux || p.launched > 0)
  }

  lemma MoveDetermined(s: Link, m: Move)
    requires LinkDetermined(s) && CalmMove(m)
    ensures LinkDetermined(Moves(s, m))
  {
    if m == OfPhone(PhoneDelivers) && s.toPhone != [] {
      assert s.toPhone == [s.toPhone[0]] + s.toPhone[1..] && s.toPhone[0] in s.toPhone;
    }
    if m == OfLinux(Delivers) && s.toLinux != [] {
      assert s.toLinux == [s.toLinux[0]] + s.toLinux[1..] && s.toLinux[0] in s.toLinux;
    }
  }

  lemma {:induction false} RunLinkDetermined(moves: seq<Move>)
    requires Calm(moves)
    ensures LinkDetermined(RunLink(Begin(), moves))
  {
    if moves != [] {
      RunLinkDetermined(moves[..|moves| - 1]);
      MoveDetermined(RunLink(Begin(), moves[..|moves| - 1]), moves[|moves| - 1]);
    }
  }

  predicate Settled(s: Link) {
    s.toLinux == [] && s.toPhone == [] && s.phone.launched == 0
  }

  /** With nobody rejecting and the link up, once everything sent and launched has arrived: both devices are
      established and trust each other if and only if the Linux user accepted. */
  lemma SettledIsComplete(moves: seq<Move>)
    requires Calm(moves) && Settled(RunLink(Begin(), moves))
    ensures var s := RunLink(Begin(), moves);
            && (s.linux.trust <==> s.linux.userAccepted) && (s.linux.state.Established? <==> s.linux.userAccepted)
            && (s.phone.trust <==> s.linux.userAccepted) && (s.phone.state.Established? <==> s.linux.userAccepted)
  {
    RunLinkDetermined(moves);
  }

  /** What the phone does: its user's Accept counts once and sends an ACCEPT later; an ACCEPT
      it reads that establishes it without its user is echoed with its capabilities, one that finds it established is
      echoed alone, and nothing else is answered. */
  lemma PhoneAnswers(s: Link)
    requires !s.phone.state.Closed?
    ensures s.toPhone != [] ==>
            var t := PhoneStep(s, PhoneDelivers);
            var accept := s.toPhone[0].Accept?;
            && t.toPhone == s.toPhone[1..]
            && t.toLinux == s.toLinux + (if accept && s.phone.state.Pairing? then [Accept, Capabilities]
                                         else if accept && s.phone.state.Established? then [Accept] else [])
            && t.phone.sent - s.phone.sent
               == |t.toLinux| - |s.toLinux| - (if accept && s.phone.state.Pairing? then 1 else 0)
    ensures PhoneStep(s, PhoneAccepts) ==
            if s.phone.state.Pairing?
            then s.(phone := s.phone.(state := WaitingForRemoteDecision, userAccepts := s.phone.userAccepts + 1,
                                      launched := s.phone.launched + 1))
            else s
    ensures s.phone.launched > 0 ==>
              PhoneStep(s, PhoneLaunchRuns).toLinux
                == s.toLinux + [Accept] + (if s.phone.state.Established? then [Capabilities] else [])
  {
  }

  /** An ACCEPT on its way to the phone may be echoed with CAPABILITIES; the echo may cause CAPABILITIES. */
  function PhoneWeight(inbox: seq<Msg>): nat {
    if inbox == [] then 0 else (if inbox[0].Accept? then 4 else 1) + PhoneWeight(inbox[1..])
  }

  function Pending(s: Link): nat {
    Weight(s.toLinux) + PhoneWeight(s.toPhone) + 4 * s.phone.launched
  }

  lemma {:induction false} PhoneWeightAppend(a: seq<Msg>, b: seq<Msg>)
    ensures PhoneWeight(a + b) == PhoneWeight(a) + PhoneWeight(b)
  {
    if a == [] {
      assert a + b == b;
    } else {
      PhoneWeightAppend(a[1..], b);
      assert (a + b)[1..] == a[1..] + b;
    }
  }

  /** Every delivery and every launched send brings the exchange closer to its end, so the echo terminates. */
  lemma ProgressShrinks(s: Link)
    ensures !s.linux.state.Closed? && s.toLinux != [] ==> Pending(LinuxStep(s, Delivers)) < Pending(s)
    ensures !s.phone.state.Closed? && s.toPhone != [] ==> Pending(PhoneStep(s, PhoneDelivers)) < Pending(s)
    ensures !s.phone.state.Closed? && s.phone.launched > 0 ==> Pending(PhoneStep(s, PhoneLaunchRuns)) < Pending(s)
  {
    assert Weight([Accept]) == 2 && Weight([Capabilities]) == 1;
    assert Weight([Accept, Capabilities]) == 2 + Weight([Accept, Capabilities][1..]);
    assert [Accept, Capabilities][1..] == [Capabilities];
    assert PhoneWeight([Capabilities]) == 1;
    if s.toLinux != [] {
      PhoneWeightAppend(s.toPhone, Replies(s.linux, s.toLinux[0]));
    }
    if s.toPhone != [] {
      WeightAppend(s.toLinux, PhoneReads(s.phone, s.toPhone[0]).1);
    }
    WeightAppend(s.toLinux, [Accept]);
    WeightAppend(s.toLinux + [Accept], [Capabilities]);
    assert s.toLinux + [Accept] + [] == s.toLinux + [Accept];
  }
}

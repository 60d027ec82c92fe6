/** Pairing of two Linux services. PAIR_DECISION messages cross on two FIFO channels while both users decide;
    accept_pairing, reject_pairing and the PAIR_DECISION branch of the session loop are atomic steps. */
module Pairing {

  datatype SessionState =
    | Pairing | WaitingForLocalDecision | WaitingForRemoteDecision | Established | Closed

  datatype Msg = Accept | Reject | Capabilities

  /** One end: its session, whether trust was persisted, and, as history, what its user decided and whether it
      has read an ACCEPT. */
  datatype End = End(state: SessionState, trust: bool, userAccepted: bool, userRejected: bool, heard: bool)

  /** The system as one end sees it: inbox is what it still has to read, outbox what the peer has to read. */
  datatype System = System(me: End, peer: End, inbox: seq<Msg>, outbox: seq<Msg>)

  datatype Event = UserAccepts | UserRejects | Delivers | LinkDrops

  datatype Action = Here(e: Event) | There(e: Event)

  function Swap(s: System): System {
    System(s.peer, s.me, s.outbox, s.inbox)
  }

  function Start(): System {
    var e := End(Pairing, false, false, false, false);
    System(e, e, [], [])
  }

  /** accept_pairing: PAIRING waits for the peer; WAITING_FOR_LOCAL_DECISION passes through PAIR_ACCEPTED, persists
      trust and is established. In every open state an ACCEPT is sent. */
  function Accepting(e: End): End {
    match e.state
    case Pairing => e.(state := WaitingForRemoteDecision, userAccepted := true)
    case WaitingForLocalDecision => e.(state := Established, trust := true, userAccepted := true)
    case _ => e.(userAccepted := true)
  }

  /** The PAIR_DECISION branch of the session loop. */
  function Reading(e: End, m: Msg): End {
    match m
    case Reject => e.(state := Closed)
    case Accept =>
      (match e.state
       case Pairing => e.(state := WaitingForLocalDecision, heard := true)
       case WaitingForRemoteDecision => e.(state := Established, trust := true, heard := true)
       case _ => e.(heard := true))
    case Capabilities => e
  }

  /** What reading a message makes an end send. */
  function Replies(e: End, m: Msg): seq<Msg> {
    if m.Accept? && e.state.WaitingForRemoteDecision? then [Capabilities] else []
  }

  function Step(s: System, e: Event): System {
    if s.me.state.Closed? then s
    else
      match e
      case UserAccepts => s.(me := Accepting(s.me), outbox := s.outbox + [Accept])
      case UserRejects => s.(me := s.me.(state := Closed, userRejected := true), outbox := s.outbox + [Reject])
      case Delivers =>
        if s.inbox == [] then s
        else s.(me := Reading(s.me, s.inbox[0]), inbox := s.inbox[1..], outbox := s.outbox + Replies(s.me, s.inbox[0]))
      case LinkDrops => s.(me := s.me.(state := Closed))
  }

  function Act(s: System, a: Action): System {
    match a
    case Here(e) => Step(s, e)
    case There(e) => Swap(Step(Swap(s), e))
  }

  function Run(s: System, actions: seq<Action>): System {
    if actions == [] then s else Act(Run(s, actions[..|actions| - 1]), actions[|actions| - 1])
  }

  // ----- safety -----

  ghost predicate EndSafe(e: End, peer: End, inbox: seq<Msg>) {
    && (Accept in inbox ==> peer.userAccepted)
    && (e.state.WaitingForLocalDecision? ==> peer.userAccepted)
    && (e.state.WaitingForRemoteDecision? ==> e.userAccepted)
    && (e.trust ==> e.userAccepted && peer.userAccepted)
  }

  ghost predicate Safe(s: System) {
    EndSafe(s.me, s.peer, s.inbox) && EndSafe(s.peer, s.me, s.outbox)
  }

  lemma StepIsSafe(s: System, e: Event)
    requires Safe(s)
    ensures Safe(Step(s, e))
  {
    if e.Delivers? && s.inbox != [] {
      assert s.inbox[0] in s.inbox && forall m :: m in s.inbox[1..] ==> m in s.inbox;
    }
  }

  /** Trust on either side is persisted only if both users accepted, in every run with rejections, repeated
      clicks and link failures. */
  lemma {:induction false} TrustNeedsBothUsers(actions: seq<Action>)
    ensures var s := Run(Start(), actions);
            Safe(s) && (s.me.trust || s.peer.trust ==> s.me.userAccepted && s.peer.userAccepted)
  {
    if actions != [] {
      TrustNeedsBothUsers(actions[..|actions| - 1]);
      var s := Run(Start(), actions[..|actions| - 1]);
      var a := actions[|actions| - 1];
      StepIsSafe(if a.Here? then s else Swap(s), a.e);
    }
  }

  // ----- rejection -----

  /** A rejection closes the end it was made at, and is on its way to the other until that one is closed too. */
  ghost predicate EndTold(e: End, peer: End, inbox: seq<Msg>) {
    && (e.userRejected ==> e.state.Closed?)
    && (peer.userRejected ==> e.state.Closed? || Reject in inbox)
    && (Reject in inbox ==> peer.userRejected)
  }

  ghost predicate Told(s: System) {
    EndTold(s.me, s.peer, s.inbox) && EndTold(s.peer, s.me, s.outbox)
  }

  lemma StepTells(s: System, e: Event)
    requires Told(s)
    ensures Told(Step(s, e))
    ensures Step(s, e).me.state.Closed? ==>
              s.me.state.Closed? || e.LinkDrops? || Step(s, e).me.userRejected || s.peer.userRejected
    ensures e.LinkDrops? ==> Step(s, e).me.state.Closed?
  {
    if e.Delivers? && s.inbox != [] {
      assert s.inbox == [s.inbox[0]] + s.inbox[1..];
      assert s.inbox[0] in s.inbox;
    }
  }

  predicate LinkHolds(actions: seq<Action>) {
    forall i :: 0 <= i < |actions| ==> !actions[i].e.LinkDrops?
  }

  /** After every run: an end that has rejected, or whose peer has rejected and which has read all that was sent, is
      closed; and while the link holds no end is closed for another reason. */
  lemma {:induction false} RejectionCloses(actions: seq<Action>)
    ensures var s := Run(Start(), actions);
            && Told(s)
            && (s.me.userRejected || (s.peer.userRejected && s.inbox == []) ==> s.me.state.Closed?)
            && (s.peer.userRejected || (s.me.userRejected && s.outbox == []) ==> s.peer.state.Closed?)
            && (LinkHolds(actions) && (s.me.state.Closed? || s.peer.state.Closed?) ==>
                  s.me.userRejected || s.peer.userRejected)
  {
    if actions != [] {
      RejectionCloses(actions[..|actions| - 1]);
      var s := Run(Start(), actions[..|actions| - 1]);
      var a := actions[|actions| - 1];
      StepTells(if a.Here? then s else Swap(s), a.e);
      assert actions[|actions| - 1] in actions;
    }
  }

  /** A closed end does nothing more: no later click or message makes it persist trust or count as accepting. */
  lemma {:induction false} ClosedIsFinal(s: System, actions: seq<Action>)
    ensures s.me.state.Closed? ==> Run(s, actions).me == s.me
    ensures s.peer.state.Closed? ==> Run(s, actions).peer == s.peer
  {
    if actions != [] {
      ClosedIsFinal(s, actions[..|actions| - 1]);
    }
  }

  /** A rejection does arrive: reading what was sent closes the peer of an end that rejected. */
  lemma {:induction false} RejectionArrives(actions: seq<Action>) returns (more: seq<Action>)
    requires Run(Start(), actions).peer.userRejected
    ensures Run(Start(), actions + more).me.state.Closed?
    ensures forall i :: 0 <= i < |more| ==> more[i] == Here(Delivers)
    decreases |Run(Start(), actions).inbox|
  {
    var s := Run(Start(), actions);
    RejectionCloses(actions);
    if s.me.state.Closed? {
      more := [];
      assert actions + more == actions;
    } else {
      var next := actions + [Here(Delivers)];
      assert next[..|next| - 1] == actions;
      var rest := RejectionArrives(next);
      more := [Here(Delivers)] + rest;
      assert actions + more == next + rest;
    }
  }

  // ----- completion -----

  predicate Undisturbed(actions: seq<Action>) {
    forall i :: 0 <= i < |actions| ==> actions[i].e.UserAccepts? || actions[i].e.Delivers?
  }

  /** Without rejections and failures, the state of an end is determined by whether its user accepted and whether
      it has read an ACCEPT. */
  function StateOf(accepted: bool, heard: bool): SessionState {
    if accepted then (if heard then Established else WaitingForRemoteDecision)
    else (if heard then WaitingForLocalDecision else Pairing)
  }

  ghost predicate EndDetermined(e: End, peer: End, inbox: seq<Msg>) {
    && Reject !in inbox
    && e.state == StateOf(e.userAccepted, e.heard)
    && (e.trust <==> e.state.Established?)
    && (peer.userAccepted <==> e.heard || Accept in inbox)
  }

  ghost predicate Determined(s: System) {
    EndDetermined(s.me, s.peer, s.inbox) && EndDetermined(s.peer, s.me, s.outbox)
  }

  lemma StepDetermined(s: System, e: Event)
    requires Determined(s) && (e.UserAccepts? || e.Delivers?)
    ensures Determined(Step(s, e))
  {
    if e.Delivers? && s.inbox != [] {
      assert s.inbox == [s.inbox[0]] + s.inbox[1..];
      assert s.inbox[0] in s.inbox;
    }
  }

  lemma {:induction false} RunDetermined(actions: seq<Action>)
    requires Undisturbed(actions)
    ensures Determined(Run(Start(), actions))
  {
    if actions != [] {
      RunDetermined(actions[..|actions| - 1]);
      var s := Run(Start(), actions[..|actions| - 1]);
      var a := actions[|actions| - 1];
      StepDetermined(if a.Here? then s else Swap(s), a.e);
    }
  }

  predicate Drained(s: System) {
    s.inbox == [] && s.outbox == []
  }

  /** With nobody rejecting and the link up, once the channels have drained: an end is established, and has
      persisted trust, if and only if both users accepted; in every interleaving, crossing ACCEPTs and repeated
      clicks included. */
  lemma DrainedIsComplete(actions: seq<Action>)
    requires Undisturbed(actions) && Drained(Run(Start(), actions))
    ensures var s := Run(Start(), actions);
            var both := s.me.userAccepted && s.peer.userAccepted;
            && (s.me.state.Established? <==> both) && (s.me.trust <==> both)
            && (s.peer.state.Established? <==> both) && (s.peer.trust <==> both)
  {
    RunDetermined(actions);
  }

  /** What a user clicks counts as long as the end is open. */
  lemma ClicksCount(s: System)
    requires !s.me.state.Closed?
    ensures var t := Step(s, UserAccepts); t.me.userAccepted && t.outbox == s.outbox + [Accept] && t.inbox == s.inbox
    ensures var t := Step(s, UserRejects); t.me.userRejected && t.outbox == s.outbox + [Reject] && t.me.trust == s.me.trust
  {
  }

  /** Every end that reading an ACCEPT establishes advertises its capabilities, and reading sends nothing else. */
  lemma CapabilitiesFollow(s: System)
    requires !s.me.state.Closed? && s.inbox != []
    ensures var t := Step(s, Delivers);
            && t.outbox == s.outbox
                           + (if t.me.state.Established? && !s.me.state.Established? then [Capabilities] else [])
            && t.inbox == s.inbox[1..]
  {
  }

  /** How much is still in flight; an ACCEPT may cause one CAPABILITIES. */
  function Weight(inbox: seq<Msg>): nat {
    if inbox == [] then 0 else (if inbox[0].Accept? then 2 else 1) + Weight(inbox[1..])
  }

  function InFlight(s: System): nat {
    Weight(s.inbox) + Weight(s.outbox)
  }

  lemma {:induction false} WeightAppend(a: seq<Msg>, b: seq<Msg>)
    ensures Weight(a + b) == Weight(a) + Weight(b)
  {
    if a == [] {
      assert a + b == b;
    } else {
      WeightAppend(a[1..], b);
      assert (a + b)[1..] == a[1..] + b;
    }
  }

  lemma DeliveryShrinks(s: System)
    requires !s.me.state.Closed? && s.inbox != []
    ensures InFlight(Step(s, Delivers)) < InFlight(s)
  {
    WeightAppend(s.outbox, Replies(s.me, s.inbox[0]));
    assert Weight([Capabilities]) == 1;
  }

  lemma {:induction false} RunConcat(s: System, xs: seq<Action>, ys: seq<Action>)
    ensures Run(s, xs + ys) == Run(Run(s, xs), ys)
  {
    if ys == [] {
      assert xs + ys == xs;
    } else {
      RunConcat(s, xs, ys[..|ys| - 1]);
      assert (xs + ys)[..|xs + ys| - 1] == xs + ys[..|ys| - 1];
    }
  }

  /** As long as something is in flight, one of the ends can read. */
  lemma NextDelivery(s: System) returns (a: Action)
    requires Determined(s) && !Drained(s)
    ensures a.e.Delivers? && Determined(Act(s, a)) && InFlight(Act(s, a)) < InFlight(s)
  {
    if s.inbox != [] {
      a := Here(Delivers);
      StepDetermined(s, Delivers);
      DeliveryShrinks(s);
    } else {
      a := There(Delivers);
      StepDetermined(Swap(s), Delivers);
      DeliveryShrinks(Swap(s));
    }
  }

  predicate OnlyDeliveries(actions: seq<Action>) {
    forall i :: 0 <= i < |actions| ==> actions[i].e.Delivers?
  }

  lemma {:induction false} Drains(s: System) returns (more: seq<Action>)
    requires Determined(s)
    ensures OnlyDeliveries(more) && Drained(Run(s, more))
    decreases InFlight(s)
  {
    more := [];
    if !Drained(s) {
      var a := NextDelivery(s);
      var rest := Drains(Act(s, a));
      more := [a] + rest;
      RunConcat(s, [a], rest);
      assert [a][..0] == [];
    }
  }

  /** The channels do drain: deliveries alone empty them, after finitely many steps. */
  lemma CanDrain(actions: seq<Action>) returns (more: seq<Action>)
    requires Undisturbed(actions)
    ensures Undisturbed(actions + more) && Drained(Run(Start(), actions + more))
    ensures OnlyDeliveries(more)
  {
    RunDetermined(actions);
    more := Drains(Run(Start(), actions));
    RunConcat(Start(), actions, more);
  }
}

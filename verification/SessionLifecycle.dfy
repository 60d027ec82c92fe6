/** One connection from start to end: _run_handshake with the session loop inside it, where every await may
    fail, be cancelled, or let the user decide about pairing. */
module SessionLifecycle {

  datatype SessionState =
    | Disconnected | Connecting | Handshaking | Pairing | WaitingForLocalDecision | WaitingForRemoteDecision
    | PairAccepted | Authenticating | Established | Closing | Failed

  /** FerrySession.transition's table. */
  predicate InTable(from: SessionState, to: SessionState) {
    match from
    case Disconnected => to.Connecting?
    case Connecting => to.Handshaking? || to.Failed? || to.Closing?
    case Handshaking => to.Authenticating? || to.Failed? || to.Closing?
    case Authenticating => to.Established? || to.Pairing? || to.Failed? || to.Closing?
    case Pairing => to.WaitingForLocalDecision? || to.WaitingForRemoteDecision? || to.Failed? || to.Closing?
    case WaitingForLocalDecision => to.WaitingForRemoteDecision? || to.PairAccepted? || to.Failed? || to.Closing?
    case WaitingForRemoteDecision => to.WaitingForLocalDecision? || to.PairAccepted? || to.Failed? || to.Closing?
    case PairAccepted => to.Established? || to.Failed? || to.Closing?
    case Established => to.Closing? || to.Failed?
    case Closing => to.Disconnected?
    case Failed => to.Disconnected?
  }

  predicate Over(s: SessionState) {
    s.Disconnected? || s.Failed?
  }

  /** The order in which a session goes through its states; the two waiting states are on a par. */
  function Rank(s: SessionState): nat {
    match s
    case Disconnected => 0
    case Connecting => 1
    case Handshaking => 2
    case Authenticating => 3
    case Pairing => 4
    case WaitingForLocalDecision => 5
    case WaitingForRemoteDecision => 5
    case PairAccepted => 6
    case Established => 7
    case Closing => 8
    case Failed => 8
  }

  /** The table never leads back, except to DISCONNECTED or between the two waiting states; it establishes a session
      only behind the authentication of a known peer or an accepted pairing, and accepts a pairing only from a waiting
      state; every state that is not over can be closed, and any that is not closing can fail. */
  lemma TableMovesOn(from: SessionState, to: SessionState)
    ensures InTable(from, to) ==>
              to.Disconnected? || Rank(from) < Rank(to) || (Rank(from) == Rank(to) == 5 && from != to)
    ensures to.Established? ==> (InTable(from, to) <==> from.Authenticating? || from.PairAccepted?)
    ensures to.PairAccepted? ==> (InTable(from, to) <==> Rank(from) == 5)
    ensures to.Closing? || to.Failed? ==> (InTable(from, to) <==> 1 <= Rank(from) <= 7)
    ensures to.Disconnected? ==> (InTable(from, to) <==> Rank(from) == 8)
  {
  }

  /** How an await, or a call that may raise, turns out. */
  datatype Signal = Proceeds | Raises | TaskCancelled

  /** What the session loop sees next; decisions of the user fall between two awaits. */
  datatype LoopEvent =
    | UserAccepts(persistOk: bool) | UserRejects
    | AcceptArrives(persistOk: bool) | RejectArrives | OtherMessage
    | LoopStops(how: Signal)      // end of stream or DISCONNECT, an error or a timeout, cancellation

  datatype Script = Script(
    exchange: Signal,      // sending and receiving the handshake, parsing it, deriving keys
    authenticate: Signal,  // signatures and the look-up of the peer
    knownPeer: bool,
    announce: Signal,      // known: sending CAPABILITIES, whose errors are swallowed; new: telling the UI
    events: seq<LoopEvent>,
    waitClosed: Signal)    // writer.wait_closed() in the final block

  /** The task is cancelled before the session loop is entered. */
  predicate CancelledEarly(s: Script) {
    || s.exchange.TaskCancelled?
    || (s.exchange.Proceeds? && s.authenticate.TaskCancelled?)
    || (s.exchange.Proceeds? && s.authenticate.Proceeds? && s.announce.TaskCancelled?)
  }

  /** accept_pairing. */
  function AfterClick(s: SessionState, persistOk: bool): SessionState {
    match s
    case Pairing => WaitingForRemoteDecision
    case WaitingForLocalDecision => if persistOk then Established else PairAccepted
    case _ => s
  }

  /** An ACCEPT of the peer. */
  function AfterAccept(s: SessionState, persistOk: bool): SessionState {
    match s
    case Pairing => WaitingForLocalDecision
    case WaitingForRemoteDecision => if persistOk then Established else PairAccepted
    case _ => s
  }

  /** The state in which the session loop stops, and what stopped it; the idle timeout if nothing else does. */
  function LoopRun(s: SessionState, events: seq<LoopEvent>): (SessionState, Signal)
    decreases |events|
  {
    if events == [] then (s, Raises)
    else
      match events[0]
      case UserAccepts(ok) => LoopRun(AfterClick(s, ok), events[1..])
      case UserRejects => LoopRun(Failed, events[1..])
      case AcceptArrives(ok) =>
        if s.WaitingForRemoteDecision? && !ok then (PairAccepted, Raises) else LoopRun(AfterAccept(s, ok), events[1..])
      case RejectArrives => (s, Proceeds)
      case OtherMessage => LoopRun(s, events[1..])
      case LoopStops(how) => (s, how)
  }

  /** The loop with its final block. */
  function LoopResult(s: SessionState, events: seq<LoopEvent>): (SessionState, Signal) {
    var (last, how) := LoopRun(s, events);
    if last.Failed? then (Failed, Raises) else (Disconnected, if how.TaskCancelled? then TaskCancelled else Proceeds)
  }

  /** How the try block of _run_handshake leaves the session. */
  function TryResult(s: Script): (SessionState, Signal) {
    var entered := if s.knownPeer then Established else Pairing;
    if !s.exchange.Proceeds? then (Handshaking, s.exchange)
    else if !s.authenticate.Proceeds? then (Authenticating, s.authenticate)
    else if s.announce.TaskCancelled? || (s.announce.Raises? && !s.knownPeer) then (entered, s.announce)
    else LoopResult(entered, s.events)
  }

  /** How the session ends. */
  function EndsIn(s: Script): SessionState {
    var (state, how) := TryResult(s);
    if Over(state) then state
    else if how.Raises? then Failed
    else if s.waitClosed.TaskCancelled? then state
    else Disconnected
  }

  /** An event that the loop survives. */
  predicate Survives(e: LoopEvent) {
    e.UserAccepts? || e.UserRejects? || (e.AcceptArrives? && e.persistOk) || e.OtherMessage?
  }

  predicate Decision(e: LoopEvent) {
    (e.UserAccepts? && e.persistOk) || (e.AcceptArrives? && e.persistOk) || e.OtherMessage?
  }

  predicate Clicked(events: seq<LoopEvent>) {
    exists e :: e in events && e.UserAccepts?
  }

  predicate Heard(events: seq<LoopEvent>) {
    exists e :: e in events && e.AcceptArrives?
  }

  function StateOf(clicked: bool, heard: bool): SessionState {
    if clicked then (if heard then Established else WaitingForRemoteDecision)
    else (if heard then WaitingForLocalDecision else Pairing)
  }

  /** While the database works, the state depends only on whether this user has clicked Accept and whether the peer's
      ACCEPT has arrived: the session is established as soon as both have, in whichever order and however often. */
  lemma {:induction false} DecisionsDetermineTheState(clicked: bool, heard: bool, events: seq<LoopEvent>,
                                                      rest: seq<LoopEvent>)
    requires forall e :: e in events ==> Decision(e)
    ensures LoopRun(StateOf(clicked, heard), events + rest)
         == LoopRun(StateOf(clicked || Clicked(events), heard || Heard(events)), rest)
    decreases |events|
  {
    if events == [] {
      assert events + rest == rest;
    } else {
      var e, more := events[0], events[1..];
      assert e in events && events == [e] + more && (events + rest)[1..] == more + rest;
      assert Clicked(events) == (e.UserAccepts? || Clicked(more)) && Heard(events) == (e.AcceptArrives? || Heard(more));
      DecisionsDetermineTheState(clicked || e.UserAccepts?, heard || e.AcceptArrives?, more, rest);
    }
  }

  lemma {:induction false} FailedStays(events: seq<LoopEvent>)
    ensures LoopRun(Failed, events).0 == Failed
  {
    if events != [] {
      FailedStays(events[1..]);
    }
  }

  /** The state after an event that the loop survives. */
  function After(s: SessionState, e: LoopEvent): SessionState {
    if e.UserAccepts? then AfterClick(s, e.persistOk)
    else if e.AcceptArrives? then AfterAccept(s, e.persistOk)
    else if e.UserRejects? then Failed else s
  }

  /** A user who rejects while the loop runs ends the session FAILED, whatever follows; and nothing else in the loop
      does. */
  lemma {:induction false} RejectingFails(s: SessionState, before: seq<LoopEvent>, after: seq<LoopEvent>)
    ensures (forall e :: e in before ==> Survives(e)) ==> LoopRun(s, before + [UserRejects] + after).0 == Failed
    ensures !s.Failed? && UserRejects !in before ==> LoopRun(s, before).0 != Failed
    decreases |before|
  {
    var events := before + [UserRejects] + after;
    if before == [] {
      assert events == [UserRejects] + after && events[1..] == after;
      FailedStays(after);
    } else {
      var e := before[0];
      assert events[0] == e && events[1..] == before[1..] + [UserRejects] + after && e in before;
      RejectingFails(After(s, e), before[1..], after);
    }
  }

  /** What stops the loop: a REJECT, whatever the user has decided so far, the end of the stream, an error or a
      cancellation, a database error while the peer's ACCEPT persists trust, and otherwise the idle timeout. Nothing
      that follows counts. */
  lemma {:induction false} StopsTheLoop(s: SessionState, before: seq<LoopEvent>, stop: LoopEvent, after: seq<LoopEvent>)
    requires forall e :: e in before ==> Survives(e)
    ensures var last := LoopRun(s, before).0;
            && LoopRun(s, before) == (last, Raises)
            && (stop.RejectArrives? ==> LoopRun(s, before + [stop] + after) == (last, Proceeds))
            && (stop.LoopStops? ==> LoopRun(s, before + [stop] + after) == (last, stop.how))
            && (stop == AcceptArrives(false) && last.WaitingForRemoteDecision? ==>
                  LoopRun(s, before + [stop] + after) == (PairAccepted, Raises))
    decreases |before|
  {
    var events := before + [stop] + after;
    if before == [] {
      assert events == [stop] + after;
    } else {
      assert events[0] == before[0] && events[1..] == before[1..] + [stop] + after && before[0] in before;
      assert forall e :: e in before[1..] ==> e in before;
      StopsTheLoop(After(s, before[0]), before[1..], stop, after);
    }
  }

  /** An error of the database while trust is persisted is never made good: the session is not established later. */
  lemma {:induction false} FailedPersistIsFinal(events: seq<LoopEvent>)
    ensures LoopRun(PairAccepted, events).0 in {PairAccepted, Failed}
    ensures LoopRun(WaitingForLocalDecision, [UserAccepts(false)] + events) == LoopRun(PairAccepted, events)
  {
    assert ([UserAccepts(false)] + events)[1..] == events;
    if events != [] {
      if events[0].UserRejects? {
        FailedStays(events[1..]);
      } else {
        FailedPersistIsFinal(events[1..]);
      }
    }
  }

  /** When a connection ends FAILED: something went wrong before the loop, or the user rejected while it ran. */
  lemma FailedIff(s: Script)
    ensures EndsIn(s).Failed? <==>
              || s.exchange.Raises?
              || (s.exchange.Proceeds? && s.authenticate.Raises?)
              || (s.exchange.Proceeds? && s.authenticate.Proceeds? && s.announce.Raises? && !s.knownPeer)
              || (s.exchange.Proceeds? && s.authenticate.Proceeds?
                  && (s.announce.Proceeds? || (s.announce.Raises? && s.knownPeer))
                  && LoopRun(if s.knownPeer then Established else Pairing, s.events).0.Failed?)
  {
  }

  class Connection {
    const remoteAddr: string
    var state: SessionState
    var activeSessions: set<string>
    ghost var trace: seq<SessionState>

    constructor (remoteAddr: string, activeSessions: set<string>)
      ensures state == Disconnected && trace == [Disconnected]
      ensures this.remoteAddr == remoteAddr && this.activeSessions == activeSessions
    {
      this.remoteAddr, this.activeSessions := remoteAddr, activeSessions;
      state, trace := Disconnected, [Disconnected];
    }

    /** Every state the session ever had followed from the one before it. */
    ghost predicate Lawful()
      reads this
    {
      && trace != [] && trace[|trace| - 1] == state
      && forall i :: 0 <= i < |trace| - 1 ==> InTable(trace[i], trace[i + 1])
    }

    /** False stands for the RuntimeError. */
    method Transition(to: SessionState) returns (ok: bool)
      requires Lawful()
      modifies this`state, this`trace
      ensures Lawful()
      ensures ok <==> InTable(old(state), to)
      ensures state == if ok then to else old(state)
      ensures trace == if ok then old(trace) + [to] else old(trace)
    {
      ok := InTable(state, to);
      if ok {
        state := to;
        trace := trace + [to];
      }
    }

    method AcceptPairing(persistOk: bool)
      requires Lawful()
      modifies this`state, this`trace
      ensures Lawful() && old(trace) <= trace
      ensures state == AfterClick(old(state), persistOk)
    {
      var ok: bool;
      if state == Pairing {
        ok := Transition(WaitingForRemoteDecision);
      } else if state == WaitingForLocalDecision {
        ok := Transition(PairAccepted);
        if persistOk {
          ok := Transition(Established);
        }
      }
    }

    /** The PAIR_DECISION ACCEPT branch; a database error escapes to the loop. */
    method OnAccept(persistOk: bool) returns (s: Signal)
      requires Lawful()
      modifies this`state, this`trace
      ensures Lawful() && old(trace) <= trace
      ensures state == AfterAccept(old(state), persistOk)
      ensures s == if old(state).WaitingForRemoteDecision? && !persistOk then Raises else Proceeds
    {
      var ok: bool;
      s := Proceeds;
      if state == Pairing {
        ok := Transition(WaitingForLocalDecision);
      } else if state == WaitingForRemoteDecision {
        ok := Transition(PairAccepted);
        if !persistOk {
          return Raises;
        }
        ok := Transition(Established);
      }
    }

    /** The states a session can have while its loop runs. */
    ghost predicate InLoop()
      reads this
    {
      state in {Pairing, WaitingForLocalDecision, WaitingForRemoteDecision, PairAccepted, Established, Failed}
    }

    /** The loop up to whatever stops it. */
    method HandleEvents(events: seq<LoopEvent>) returns (how: Signal)
      requires Lawful() && InLoop()
      modifies this`state, this`trace
      ensures Lawful() && InLoop() && old(trace) <= trace
      ensures (state, how) == LoopRun(old(state), events)
    {
      var i := 0;
      while i < |events|
        invariant 0 <= i <= |events|
        invariant Lawful() && InLoop() && old(trace) <= trace
        invariant LoopRun(old(state), events) == LoopRun(state, events[i..])
      {
        var e := events[i];
        assert events[i..][0] == e && events[i..][1..] == events[i + 1..];
        i := i + 1;
        match e
        case UserAccepts(ok) => AcceptPairing(ok);
        case UserRejects => var _ := Transition(Failed);
        case AcceptArrives(ok) =>
          var r := OnAccept(ok);
          if r == Raises {
            return Raises;
          }
        case RejectArrives => return Proceeds;
        case OtherMessage =>
        case LoopStops(h) => return h;
      }
      how := Raises;   // when nothing more happens, the idle timeout fires
    }

    /** _run_session_loop: whatever stops it, its final block closes the session, unless the user has rejected:
        then the state is FAILED and the refused transition raises out of the loop. */
    method RunSessionLoop(events: seq<LoopEvent>) returns (s: Signal)
      requires Lawful() && InLoop()
      modifies this`state, this`trace
      ensures Lawful() && old(trace) <= trace
      ensures (state, s) == LoopResult(old(state), events)
      ensures var last := LoopRun(old(state), events).0;
              if last.Failed? then state == Failed
              else state == Disconnected && |trace| >= 3 && trace[|trace| - 3..] == [last, Closing, Disconnected]
    {
      var how := HandleEvents(events);
      var closing := Transition(Closing);
      if !closing {
        return Raises;
      }
      var closed := Transition(Disconnected);
      s := if how == TaskCancelled then TaskCancelled else Proceeds;
    }

    /** The try block of _run_handshake. */
    method Handshake(script: Script) returns (s: Signal)
      requires Lawful() && state == Disconnected
      modifies this
      ensures Lawful() && old(trace) <= trace
      ensures activeSessions == old(activeSessions)
                + (if script.exchange.Proceeds? && script.authenticate.Proceeds? then {remoteAddr} else {})
      ensures (state, s) == TryResult(script)
    {
      var ok := Transition(Connecting);
      ok := Transition(Handshaking);
      if script.exchange != Proceeds {
        return script.exchange;
      }
      ok := Transition(Authenticating);
      if script.authenticate != Proceeds {
        return script.authenticate;
      }
      ok := Transition(if script.knownPeer then Established else Pairing);
      activeSessions := activeSessions + {remoteAddr};
      if script.announce == TaskCancelled || (script.announce == Raises && !script.knownPeer) {
        return script.announce;
      }
      s := RunSessionLoop(script.events);
    }

    /** _run_handshake as a whole. Whatever happens, the peer's key leaves the active sessions and every change of
        state was in the table. The session ends DISCONNECTED or FAILED if and only if it is not both cancelled
        before its loop and cancelled again while the final block waits for the socket to close. */
    method RunHandshake(script: Script)
      requires Lawful() && state == Disconnected
      modifies this
      ensures Lawful() && old(trace) <= trace
      ensures activeSessions == old(activeSessions) - {remoteAddr}
      ensures state == EndsIn(script)
      ensures Over(state) <==> !(CancelledEarly(script) && script.waitClosed.TaskCancelled?)
    {
      var s := Handshake(script);
      if s == Raises && state !in {Established, Closing, Failed, Disconnected} {
        var ok := Transition(Failed);
      }
      activeSessions := activeSessions - {remoteAddr};
      if script.waitClosed == TaskCancelled {
        return;   // CancelledError is not an Exception: it leaves the final block at once
      }
      if !Over(state) {
        var ok := Transition(Closing);
        if ok {
          ok := Transition(Disconnected);
        }
      }
    }
  }

  /** The exception is real: cancelled during the key exchange and again in the final block, the session is left
      in HANDSHAKING, although its key is gone. */
  method DoublyCancelledSessionStaysOpen() returns (c: Connection)
    ensures !Over(c.state) && c.activeSessions == {}
  {
    c := new Connection("peer", {});
    c.RunHandshake(Script(TaskCancelled, Proceeds, true, Proceeds, [], TaskCancelled));
    assert CancelledEarly(Script(TaskCancelled, Proceeds, true, Proceeds, [], TaskCancelled));
  }
}

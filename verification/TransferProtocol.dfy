/** Sending one file between two Linux services: send_file on one side, the session loop with an IncomingTransfer
    on the other, two FIFO channels, and users, timers, disk errors and disconnects interfering between any two
    atomic steps. A step that is not enabled leaves the system alone. */
module TransferProtocol {
  import opened Bytes
  import opened ChunkCodec
  import opened Transfers
  import opened IncomingTransfer

  datatype Msg =
    | RequestMsg(meta: Metadata) | ChunkMsg(c: ChunkFrame) | CompleteMsg
    | AcceptMsg | RejectMsg | ResultMsg(ok: bool) | CancelMsg | ErrorMsg

  datatype Response = SaysYes | SaysNo | SaysCancel

  /** Where the send_file coroutine waits. */
  datatype Pc =
    | NotStarted
    | RequestSent               // TRANSFER_REQUEST written, the response event not yet registered
    | AwaitResponse
    | Streaming
    | SentComplete              // TRANSFER_COMPLETE written, the result event not yet registered
    | AwaitResult
    | Finished(success: bool)

  datatype Sender = Sender(
    pc: Pc,
    active: bool,                        // listed in _active_outgoing_transfers
    cancelled: bool,                     // OutgoingTransfer._cancelled
    nextSeq: nat,
    response: Option<seq<Response>>,     // the holder of a registered _transfer_events entry
    result: Option<seq<bool>>,           // the holder of a registered _result_events entry
    loopRuns: bool)

  datatype Receiving = Receiving(
    incoming: Option<Receiver>,          // the entry of _incoming_transfers
    files: Files,
    popPending: bool,                    // _on_transfer_complete is still awaiting its send
    loopRuns: bool)

  /** history: what the verified publication contained, and whether the receiving user ever accepted. */
  datatype System = System(
    sender: Sender, receiving: Receiving,
    toReceiver: seq<Msg>, toSender: seq<Msg>,
    meta: Metadata, temp: Path, final: Path, alternative: Path,
    published: Option<Bytes>, userAccepted: bool)

  datatype Action =
    | SendRequest | RegisterResponse | WakeResponse | ResponseTimeout
    | StreamChunk(data: Bytes)           // whatever the file holds by now
    | ReadFails | NoticeCancel | StreamEnds | RegisterResult | WakeResult | ResultTimeout
    | SenderUserCancels | SendFails | SenderDelivers | SenderLoopEnds
    | ReceiverDelivers(os: Os) | ReceiverUserAccepts(os: Os) | ReceiverUserRejects(os: Os)
    | ReceiverUserCancels(os: Os) | AcceptanceTimeout(os: Os) | PopFinished | ReceiverLoopEnds(os: Os)
    | DuplicateComplete

  function Initial(meta: Metadata, temp: Path, final: Path, alternative: Path, files: Files): System {
    System(Sender(NotStarted, false, false, 0, None, None, true), Receiving(None, files, false, true),
           [], [], meta, temp, final, alternative, None, false)
  }

  // ----- the sending side -----

  function SignalResponse(s: Sender, v: Response): Sender {
    if s.response.Some? then s.(response := Some(s.response.value + [v])) else s
  }

  function SignalResult(s: Sender, v: bool): Sender {
    if s.result.Some? then s.(result := Some(s.result.value + [v])) else s
  }

  /** xfer.cancel() and waking both waits. */
  function CancelOutgoing(s: Sender): Sender {
    SignalResult(SignalResponse(if s.active then s.(cancelled := true) else s, SaysCancel), false)
  }

  function End(s: Sender, success: bool): Sender {
    s.(pc := Finished(success), active := false)
  }

  function SenderHandles(s: Sender, m: Msg): Sender {
    match m
    case AcceptMsg => SignalResponse(s, SaysYes)
    case RejectMsg => SignalResponse(s, SaysNo)
    case ResultMsg(ok) => SignalResult(s, ok)
    case CancelMsg => CancelOutgoing(s)
    case _ => s
  }

  /** One step of the send_file coroutine, its timers or its user. */
  function Move(s: Sender, a: Action): Sender {
    match a
    case SendRequest => if s.pc.NotStarted? then s.(pc := RequestSent, active := true) else s
    case RegisterResponse => if s.pc.RequestSent? then s.(pc := AwaitResponse, response := Some([])) else s
    case WakeResponse =>
      if !s.pc.AwaitResponse? || s.response.None? || s.response.value == [] then s
      else if s.response.value[0].SaysYes? then s.(pc := Streaming, response := None)
      else End(s.(response := None), false)
    case ResponseTimeout =>
      // wait_for cancels the wait before its `del`, so the entry stays registered
      if s.pc.AwaitResponse? then End(s, false) else s
    case StreamChunk(data) => if CanStream(s, data) then s.(nextSeq := s.nextSeq + 1) else s
    case ReadFails => if s.pc.Streaming? then End(s, false) else s
    case NoticeCancel => if s.pc.Streaming? && s.cancelled then End(s, false) else s
    case StreamEnds => if s.pc.Streaming? && !s.cancelled then s.(pc := SentComplete) else s
    case RegisterResult => if s.pc.SentComplete? then s.(pc := AwaitResult, result := Some([])) else s
    case WakeResult =>
      if !s.pc.AwaitResult? || s.result.None? || s.result.value == [] then s
      else End(s.(result := None), s.result.value[0])
    case ResultTimeout => if s.pc.AwaitResult? then End(s, false) else s
    case SenderUserCancels => if s.active then CancelOutgoing(s) else s
    case SendFails =>
      // a write on a closed session raises out of send_file
      if s.loopRuns || s.pc.Finished? then s else End(s, false)
    case SenderLoopEnds => if s.loopRuns then CancelOutgoing(s).(loopRuns := false) else s
    case _ => s
  }

  predicate CanStream(s: Sender, data: Bytes) {
    s.pc.Streaming? && !s.cancelled && 0 < |data| <= CHUNK_SIZE
  }

  /** What the step writes to the channel. */
  function Sends(meta: Metadata, s: Sender, a: Action): seq<Msg> {
    match a
    case SendRequest => if s.pc.NotStarted? then [RequestMsg(meta)] else []
    case StreamChunk(data) => if CanStream(s, data) then [ChunkMsg(ChunkFrame(meta.id, s.nextSeq, data))] else []
    case ReadFails => if s.pc.Streaming? then [CancelMsg] else []
    case NoticeCancel => if s.pc.Streaming? && s.cancelled then [CancelMsg] else []
    case StreamEnds => if s.pc.Streaming? && !s.cancelled then [CompleteMsg] else []
    case _ => []
  }

  function SenderStep(y: System, a: Action): System {
    if a.SenderDelivers? then
      if !y.sender.loopRuns || y.toSender == [] then y
      else y.(sender := SenderHandles(y.sender, y.toSender[0]), toSender := y.toSender[1..])
    else
      y.(sender := Move(y.sender, a), toReceiver := y.toReceiver + Sends(y.meta, y.sender, a))
  }

  // ----- the receiving side -----

  function Drop(v: Receiving, os: Os): Receiving {
    if v.incoming.None? then v
    else v.(incoming := None, files := Cancel(v.incoming.value, v.files, os).files)
  }

  function CloseReceiver(y: System, os: Os): System {
    y.(receiving := Drop(y.receiving, os).(loopRuns := false))
  }

  function OnChunk(y: System, c: ChunkFrame, os: Os): System {
    var v := y.receiving;
    if v.incoming.None? then y
    else
      var s := ReceiveChunk(v.incoming.value, v.files, c, os);
      match s.verdict
      case Raised(Io) =>
        y.(receiving := v.(incoming := None, files := s.files), toSender := y.toSender + [ErrorMsg])
      case Raised(NoHandle) => CloseReceiver(y, os)     // an AttributeError escapes to the session loop
      case Raised(_) => y.(receiving := Drop(v, os))
      case _ => y.(receiving := v.(incoming := Some(s.r), files := s.files))
  }

  function OnComplete(sha: Hash, y: System, os: Os): System {
    var v := y.receiving;
    if v.incoming.None? then y
    else
      var r := v.incoming.value;
      var s := Finalise(sha, r, v.files, os);
      var v1 := v.(incoming := Some(s.r), files := s.files);
      match s.verdict
      case Returned(ok) =>
        y.(receiving := v1.(popPending := true), toSender := y.toSender + [ResultMsg(ok)],
           published := if ok then Some(Content(s.files, Destination(r, v.files))) else y.published)
      case _ => CloseReceiver(y.(receiving := v1), os)
  }

  function ReceiverHandles(sha: Hash, y: System, m: Msg, os: Os): System {
    match m
    case RequestMsg(meta) =>
      if y.receiving.incoming.Some? then y.(toSender := y.toSender + [RejectMsg])
      else y.(receiving := y.receiving.(incoming := Some(Fresh(meta, y.temp, y.final, y.alternative))))
    case ChunkMsg(c) => OnChunk(y, c, os)
    case CompleteMsg => OnComplete(sha, y, os)
    case CancelMsg => y.(receiving := Drop(y.receiving, os))
    case _ => y
  }

  function ReceiverStep(sha: Hash, y: System, a: Action): System {
    var v := y.receiving;
    match a
    case ReceiverDelivers(os) =>
      if !v.loopRuns || v.popPending || y.toReceiver == [] then y
      else ReceiverHandles(sha, y.(toReceiver := y.toReceiver[1..]), y.toReceiver[0], os)
    case ReceiverUserAccepts(os) =>
      if !v.loopRuns || v.incoming.None? then y
      else
        var s := Begin(v.incoming.value, v.files, os);
        var y1 := y.(receiving := v.(incoming := Some(s.r), files := s.files), userAccepted := true);
        if s.verdict.Done? then y1.(toSender := y1.toSender + [AcceptMsg]) else y1
    case ReceiverUserRejects(os) =>
      if !v.loopRuns || v.incoming.None? then y
      else y.(receiving := Drop(v, os), toSender := y.toSender + [RejectMsg])
    case ReceiverUserCancels(os) =>
      if v.incoming.None? then y
      else y.(receiving := Drop(v, os), toSender := if v.loopRuns then y.toSender + [CancelMsg] else y.toSender)
    case AcceptanceTimeout(os) =>
      if v.incoming.None? then y
      else y.(receiving := Drop(v, os), toSender := if v.loopRuns then y.toSender + [RejectMsg] else y.toSender)
    case PopFinished =>
      if !v.popPending then y else y.(receiving := v.(incoming := None, popPending := false))
    case ReceiverLoopEnds(os) => if v.loopRuns then CloseReceiver(y, os) else y
    case DuplicateComplete => y.(toReceiver := y.toReceiver + [CompleteMsg])
    case _ => y
  }

  function StepSystem(sha: Hash, y: System, a: Action): (z: System)
    ensures z.meta == y.meta
  {
    ReceiverStep(sha, SenderStep(y, a), a)
  }

  function RunSystem(sha: Hash, y: System, actions: seq<Action>): (z: System)
    ensures z.meta == y.meta
  {
    if actions == [] then y
    else StepSystem(sha, RunSystem(sha, y, actions[..|actions| - 1]), actions[|actions| - 1])
  }

  // ----- safety -----

  /** A verified publication happened: it has the announced hash, and the receiving user had accepted. */
  ghost predicate Verified(sha: Hash, y: System) {
    y.published.Some? && sha(y.published.value) == y.meta.sha256 && y.userAccepted
  }

  ghost predicate Positive(s: Sender) {
    (s.result.Some? && true in s.result.value) || s.pc == Finished(true)
  }

  /** A positive verdict exists somewhere between the receiver and the caller of send_file. */
  ghost predicate PositiveVerdict(y: System) {
    ResultMsg(true) in y.toSender || Positive(y.sender)
  }

  ghost predicate ReceiverInv(y: System) {
    y.receiving.incoming.Some? ==>
      var r := y.receiving.incoming.value;
      && Related(r, y.receiving.files, true)
      && SameTransfer(Fresh(y.meta, y.temp, y.final, y.alternative), r)
      && (r.state.Transferring? || r.state.Resuming? ==> y.userAccepted)
  }

  ghost predicate Inv(sha: Hash, y: System) {
    && ReceiverInv(y)
    && (forall m :: m in y.toReceiver && m.RequestMsg? ==> m.meta == y.meta)
    && (y.published.Some? || PositiveVerdict(y) ==> Verified(sha, y))
  }

  lemma MoveIsNotPositive(s: Sender, a: Action)
    ensures Positive(Move(s, a)) ==> Positive(s)
  {
  }

  lemma HandlingIsPositiveOnlyForResults(s: Sender, m: Msg)
    ensures Positive(SenderHandles(s, m)) ==> Positive(s) || m == ResultMsg(true)
  {
  }

  lemma SendsHonestRequests(meta: Metadata, s: Sender, a: Action)
    ensures forall m :: m in Sends(meta, s, a) && m.RequestMsg? ==> m.meta == meta
  {
  }

  lemma SenderStepKeepsInv(sha: Hash, y: System, a: Action)
    requires Inv(sha, y)
    ensures Inv(sha, SenderStep(y, a))
  {
    if a.SenderDelivers? {
      if y.toSender != [] {
        HandlingIsPositiveOnlyForResults(y.sender, y.toSender[0]);
        assert forall m :: m in y.toSender[1..] ==> m in y.toSender;
      }
    } else {
      MoveIsNotPositive(y.sender, a);
      SendsHonestRequests(y.meta, y.sender, a);
    }
  }

  lemma FinaliseVerifies(sha: Hash, r: Receiver, files: Files, os: Os)
    requires Related(r, files, true)
    ensures var s := Finalise(sha, r, files, os);
            && Related(s.r, s.files, true)
            && (s.verdict == Returned(true) ==>
                  && (r.state.Transferring? || r.state.Resuming?)
                  && sha(Content(s.files, Destination(r, files))) == r.meta.sha256)
            && (s.r.state.Transferring? || s.r.state.Resuming? ==> r.state == s.r.state)
  {
    RelatedFinalise(sha, r, files, Call(OpFinalise, os), true);
  }

  lemma OnCompleteKeepsInv(sha: Hash, y: System, os: Os)
    requires Inv(sha, y)
    ensures Inv(sha, OnComplete(sha, y, os))
  {
    if y.receiving.incoming.Some? {
      FinaliseVerifies(sha, y.receiving.incoming.value, y.receiving.files, os);
    }
  }

  lemma OnChunkKeepsInv(sha: Hash, y: System, c: ChunkFrame, os: Os)
    requires Inv(sha, y)
    ensures Inv(sha, OnChunk(y, c, os))
  {
    if y.receiving.incoming.Some? {
      RelatedChunk(y.receiving.incoming.value, y.receiving.files, c, os, true);
    }
  }

  lemma AcceptKeepsInv(sha: Hash, y: System, os: Os)
    requires Inv(sha, y)
    ensures Inv(sha, ReceiverStep(sha, y, ReceiverUserAccepts(os)))
  {
    if y.receiving.loopRuns && y.receiving.incoming.Some? {
      RelatedOthers(sha, y.receiving.incoming.value, y.receiving.files, Call(OpBegin, os), true);
    }
  }

  lemma DeliverKeepsInv(sha: Hash, y: System, os: Os)
    requires Inv(sha, y)
    ensures Inv(sha, ReceiverStep(sha, y, ReceiverDelivers(os)))
  {
    if y.receiving.loopRuns && !y.receiving.popPending && y.toReceiver != [] {
      var y1 := y.(toReceiver := y.toReceiver[1..]);
      var m := y.toReceiver[0];
      assert m in y.toReceiver && forall x :: x in y1.toReceiver ==> x in y.toReceiver;
      assert Inv(sha, y1);
      match m
      case ChunkMsg(c) => OnChunkKeepsInv(sha, y1, c, os);
      case CompleteMsg => OnCompleteKeepsInv(sha, y1, os);
      case _ =>
    }
  }

  lemma ReceiverStepKeepsInv(sha: Hash, y: System, a: Action)
    requires Inv(sha, y)
    ensures Inv(sha, ReceiverStep(sha, y, a))
  {
    match a
    case ReceiverDelivers(os) => DeliverKeepsInv(sha, y, os);
    case ReceiverUserAccepts(os) => AcceptKeepsInv(sha, y, os);
    case _ =>
  }

  lemma StepKeepsInv(sha: Hash, y: System, a: Action)
    requires Inv(sha, y)
    ensures Inv(sha, StepSystem(sha, y, a))
  {
    SenderStepKeepsInv(sha, y, a);
    ReceiverStepKeepsInv(sha, SenderStep(y, a), a);
  }

  lemma {:induction false} RunKeepsInv(sha: Hash, y: System, actions: seq<Action>)
    requires Inv(sha, y)
    ensures Inv(sha, RunSystem(sha, y, actions))
  {
    if actions != [] {
      RunKeepsInv(sha, y, actions[..|actions| - 1]);
      StepKeepsInv(sha, RunSystem(sha, y, actions[..|actions| - 1]), actions[|actions| - 1]);
    }
  }

  /** Sender-success safety. In every interleaving, send_file returns True only if the receiver's finalise
      returned True after its user had accepted, and the published bytes have the hash build_metadata computed;
      so they are the source as it was then, unless the two collide. The source may change while it is streamed,
      and COMPLETE may be duplicated. */
  lemma SuccessMeansPublished(sha: Hash, source: Bytes, meta: Metadata, temp: Path, final: Path, alternative: Path,
                              files: Files, actions: seq<Action>)
    requires meta.sha256 == sha(source)
    ensures var z := RunSystem(sha, Initial(meta, temp, final, alternative, files), actions);
            z.sender.pc == Finished(true) ==>
              && z.published.Some? && z.userAccepted
              && sha(z.published.value) == sha(source)
              && (NoCollision(sha, z.published.value, source) ==> z.published.value == source)
  {
    RunKeepsInv(sha, Initial(meta, temp, final, alternative, files), actions);
  }
}

/** What a "no" does to a transfer between two Linux services: nothing of the file leaves the sender before the
    receiving user has accepted, and once the receiver has let go of the transfer its disk stays as it is. */
module TransferRefusal {
  import opened Bytes
  import opened ChunkCodec
  import opened Transfers
  import opened IncomingTransfer
  import opened TransferProtocol

  // ----- before the acceptance -----

  /** The sender has not passed its wait for the answer. */
  predicate NotStreaming(s: Sender) {
    s.pc.NotStarted? || s.pc.RequestSent? || s.pc.AwaitResponse? || s.pc == Finished(false)
  }

  /** No acceptance is on its way, no chunk was written, and the receiver's disk is the one it started with. */
  ghost predicate Untouched(y: System, files: Files) {
    && !y.userAccepted
    && AcceptMsg !in y.toSender
    && (y.sender.response.Some? ==> SaysYes !in y.sender.response.value)
    && NotStreaming(y.sender)
    && (forall m :: m in y.toReceiver ==> !m.ChunkMsg?)
    && y.receiving.files == files && y.published.None?
    && (y.receiving.incoming.Some? ==> !y.receiving.incoming.value.tempSet)
  }

  lemma SenderStaysUntouched(y: System, a: Action, files: Files)
    requires Untouched(y, files)
    ensures Untouched(SenderStep(y, a), files)
  {
    if a.SenderDelivers? {
      if y.toSender != [] {
        assert forall m :: m in y.toSender[1..] ==> m in y.toSender;
      }
    }
  }

  lemma CompletingStaysUntouched(sha: Hash, y: System, os: Os, files: Files)
    requires Untouched(y, files)
    ensures Untouched(OnComplete(sha, y, os), files)
  {
  }

  lemma HandlingStaysUntouched(sha: Hash, y: System, m: Msg, os: Os, files: Files)
    requires Untouched(y, files) && !m.ChunkMsg?
    ensures Untouched(ReceiverHandles(sha, y, m, os), files)
  {
    if m.CompleteMsg? {
      CompletingStaysUntouched(sha, y, os, files);
    }
  }

  lemma ReceiverStaysUntouched(sha: Hash, y: System, a: Action, files: Files)
    requires Untouched(y, files)
    ensures var z := ReceiverStep(sha, y, a); z.userAccepted || Untouched(z, files)
  {
    match a
    case ReceiverDelivers(os) =>
      if y.receiving.loopRuns && !y.receiving.popPending && y.toReceiver != [] {
        assert forall m :: m in y.toReceiver[1..] ==> m in y.toReceiver;
        assert y.toReceiver[0] in y.toReceiver;
        HandlingStaysUntouched(sha, y.(toReceiver := y.toReceiver[1..]), y.toReceiver[0], os, files);
      }
    case _ =>
  }

  lemma AcceptanceIsRemembered(sha: Hash, y: System, a: Action)
    ensures y.userAccepted ==> StepSystem(sha, y, a).userAccepted
  {
  }

  lemma {:induction false} UntouchedUntilAccepted(sha: Hash, y: System, actions: seq<Action>, files: Files)
    requires Untouched(y, files)
    ensures var z := RunSystem(sha, y, actions); z.userAccepted || Untouched(z, files)
  {
    if actions != [] {
      var before, a := actions[..|actions| - 1], actions[|actions| - 1];
      UntouchedUntilAccepted(sha, y, before, files);
      var z := RunSystem(sha, y, before);
      AcceptanceIsRemembered(sha, z, a);
      if !z.userAccepted {
        SenderStaysUntouched(z, a, files);
        ReceiverStaysUntouched(sha, SenderStep(z, a), a, files);
      }
    }
  }

  /** Consent. In every interleaving, a sender that streams, has completed or waits for the result, and every chunk
      on its way, needed the receiving user to accept; until then the receiver's disk does not change. */
  lemma NothingWithoutConsent(sha: Hash, meta: Metadata, temp: Path, final: Path, alternative: Path, files: Files,
                              actions: seq<Action>)
    ensures var z := RunSystem(sha, Initial(meta, temp, final, alternative, files), actions);
            && (z.sender.pc.Streaming? || z.sender.pc.SentComplete? || z.sender.pc.AwaitResult? ==> z.userAccepted)
            && (z.sender.pc == Finished(true) ==> z.userAccepted)
            && (forall m :: m in z.toReceiver && m.ChunkMsg? ==> z.userAccepted)
            && (!z.userAccepted ==> z.receiving.files == files && z.published.None?)
  {
    UntouchedUntilAccepted(sha, Initial(meta, temp, final, alternative, files), actions, files);
  }

  // ----- the receiver lets go -----

  predicate NoRequest(msgs: seq<Msg>) {
    forall m :: m in msgs ==> !m.RequestMsg?
  }

  /** The request has been read, and the receiver has no transfer (any more). */
  ghost predicate Gone(y: System) {
    && !y.sender.pc.NotStarted?
    && NoRequest(y.toReceiver)
    && y.receiving.incoming.None?
  }

  lemma SenderStaysGone(y: System, a: Action)
    requires Gone(y)
    ensures var z := SenderStep(y, a);
            Gone(z) && z.receiving == y.receiving && z.published == y.published && z.userAccepted == y.userAccepted
  {
  }

  lemma ReceiverStaysGone(sha: Hash, y: System, a: Action)
    requires Gone(y)
    ensures var z := ReceiverStep(sha, y, a);
            Gone(z) && z.receiving.files == y.receiving.files && z.published == y.published
            && z.userAccepted == y.userAccepted
  {
    if a.ReceiverDelivers? && y.toReceiver != [] {
      assert y.toReceiver[0] in y.toReceiver && forall m :: m in y.toReceiver[1..] ==> m in y.toReceiver;
    }
  }

  lemma {:induction false} RunStaysGone(sha: Hash, y: System, actions: seq<Action>)
    requires Gone(y)
    ensures var z := RunSystem(sha, y, actions);
            Gone(z) && z.receiving.files == y.receiving.files && z.published == y.published
            && z.userAccepted == y.userAccepted
  {
    if actions != [] {
      RunStaysGone(sha, y, actions[..|actions| - 1]);
      var z, a := RunSystem(sha, y, actions[..|actions| - 1]), actions[|actions| - 1];
      SenderStaysGone(z, a);
      ReceiverStaysGone(sha, SenderStep(z, a), a);
    }
  }

  /** There is one request: it is unsent, on its way (nothing was written before it), or read. */
  ghost predicate OneRequest(y: System) {
    && (y.sender.pc.NotStarted? || y.receiving.incoming.Some? ==> NoRequest(y.toReceiver))
    && (y.receiving.incoming.Some? ==> !y.sender.pc.NotStarted?)
    && (NoRequest(y.toReceiver) || exists i: nat :: OnlyAt(y.toReceiver, i))
  }

  ghost predicate OnlyAt(msgs: seq<Msg>, i: nat) {
    i < |msgs| && NoRequest(msgs[..i]) && NoRequest(msgs[i + 1..])
  }

  lemma AppendKeepsOne(msgs: seq<Msg>, more: seq<Msg>)
    requires NoRequest(msgs) || exists i: nat :: OnlyAt(msgs, i)
    requires NoRequest(more)
    ensures NoRequest(msgs) ==> NoRequest(msgs + more)
    ensures NoRequest(msgs + more) || exists i: nat :: OnlyAt(msgs + more, i)
  {
    if !NoRequest(msgs) {
      var i: nat :| OnlyAt(msgs, i);
      assert (msgs + more)[..i] == msgs[..i] && (msgs + more)[i + 1..] == msgs[i + 1..] + more;
      assert OnlyAt(msgs + more, i);
    }
  }

  lemma FirstRequest(msgs: seq<Msg>, m: Msg)
    requires NoRequest(msgs)
    ensures OnlyAt(msgs + [m], |msgs|)
  {
    assert (msgs + [m])[..|msgs|] == msgs;
  }

  /** Reading one message: if it is the request, none is left. */
  lemma TailKeepsOne(msgs: seq<Msg>)
    requires msgs != [] && (NoRequest(msgs) || exists i: nat :: OnlyAt(msgs, i))
    ensures NoRequest(msgs) ==> NoRequest(msgs[1..]) && !msgs[0].RequestMsg?
    ensures msgs[0].RequestMsg? ==> NoRequest(msgs[1..])
    ensures NoRequest(msgs[1..]) || exists i: nat :: OnlyAt(msgs[1..], i)
  {
    if NoRequest(msgs) {
      assert msgs[0] in msgs && forall m :: m in msgs[1..] ==> m in msgs;
    } else {
      var i: nat :| OnlyAt(msgs, i);
      if i > 0 {
        assert msgs[0] in msgs[..i];
        assert msgs[1..][..i - 1] == msgs[1..i] && msgs[1..][i..] == msgs[i + 1..];
        assert forall m :: m in msgs[1..i] ==> m in msgs[..i];
        assert OnlyAt(msgs[1..], i - 1);
      }
    }
  }

  lemma OneMoveOneRequest(meta: Metadata, s: Sender, a: Action)
    ensures !(a.SendRequest? && s.pc.NotStarted?) ==> NoRequest(Sends(meta, s, a))
    ensures Move(s, a).pc.NotStarted? ==> s.pc.NotStarted? && !a.SendRequest?
  {
  }

  lemma SenderKeepsOneRequest(y: System, a: Action)
    requires OneRequest(y)
    ensures OneRequest(SenderStep(y, a))
  {
    if a.SendRequest? && y.sender.pc.NotStarted? {
      FirstRequest(y.toReceiver, RequestMsg(y.meta));
    } else if !a.SenderDelivers? {
      OneMoveOneRequest(y.meta, y.sender, a);
      AppendKeepsOne(y.toReceiver, Sends(y.meta, y.sender, a));
    }
  }

  lemma ReceiverKeepsOneRequest(sha: Hash, y: System, a: Action)
    requires OneRequest(y)
    ensures OneRequest(ReceiverStep(sha, y, a))
  {
    if a.DuplicateComplete? {
      AppendKeepsOne(y.toReceiver, [CompleteMsg]);
    } else if a.ReceiverDelivers? && y.toReceiver != [] {
      TailKeepsOne(y.toReceiver);
    }
  }

  lemma StepKeepsOneRequest(sha: Hash, y: System, a: Action)
    requires OneRequest(y)
    ensures OneRequest(StepSystem(sha, y, a))
  {
    SenderKeepsOneRequest(y, a);
    ReceiverKeepsOneRequest(sha, SenderStep(y, a), a);
  }

  lemma {:induction false} RunKeepsOneRequest(sha: Hash, y: System, actions: seq<Action>)
    requires OneRequest(y)
    ensures OneRequest(RunSystem(sha, y, actions))
  {
    if actions != [] {
      RunKeepsOneRequest(sha, y, actions[..|actions| - 1]);
      StepKeepsOneRequest(sha, RunSystem(sha, y, actions[..|actions| - 1]), actions[|actions| - 1]);
    }
  }

  /** The events by which a receiver that has a transfer lets go of it. */
  predicate Withdraws(y: System, a: Action) {
    match a
    case ReceiverUserRejects(_) => y.receiving.loopRuns
    case ReceiverUserCancels(_) | AcceptanceTimeout(_) => true
    case ReceiverLoopEnds(_) => y.receiving.loopRuns
    case ReceiverDelivers(_) =>
      y.receiving.loopRuns && !y.receiving.popPending && y.toReceiver != [] && y.toReceiver[0].CancelMsg?
    case _ => false
  }

  function OsOf(a: Action): Os
    requires a.ReceiverUserRejects? || a.ReceiverUserCancels? || a.AcceptanceTimeout? || a.ReceiverLoopEnds?
             || a.ReceiverDelivers?
  {
    a.os
  }

  /** Whatever ends it, the part file goes if it can be unlinked and nothing else does; and the sender is told, unless
      it was the sender who cancelled or the connection is gone. */
  lemma WithdrawalDiscards(sha: Hash, y: System, a: Action)
    requires y.receiving.incoming.Some? && Withdraws(y, a)
    ensures var z := StepSystem(sha, y, a);
            var r := y.receiving.incoming.value;
            && z.receiving.incoming.None? && z.published == y.published && z.userAccepted == y.userAccepted
            && z.receiving.loopRuns == (y.receiving.loopRuns && !a.ReceiverLoopEnds?)
            && z.receiving.files == (if r.tempSet && OsOf(a).unlinkOk then y.receiving.files - {r.temp}
                                     else y.receiving.files)
            && z.toSender == y.toSender
                          + (if a.ReceiverDelivers? || a.ReceiverLoopEnds? || !y.receiving.loopRuns then []
                             else if a.ReceiverUserCancels? then [CancelMsg] else [RejectMsg])
  {
    assert y.toReceiver + [] == y.toReceiver && y.toSender + [] == y.toSender;
  }

  /** A refusal is final. If the receiver lets go of the transfer before its user has accepted, then whatever happens
      afterwards send_file never returns True, never streams, and the receiver's disk stays as it was at the start. */
  lemma RefusalIsFinal(sha: Hash, source: Bytes, meta: Metadata, temp: Path, final: Path, alternative: Path, files: Files,
                       before: seq<Action>, a: Action, after: seq<Action>)
    requires meta.sha256 == sha(source)
    ensures var y := RunSystem(sha, Initial(meta, temp, final, alternative, files), before);
            !y.userAccepted && y.receiving.incoming.Some? && Withdraws(y, a) ==>
              var z := RunSystem(sha, StepSystem(sha, y, a), after);
              NotStreaming(z.sender) && z.receiving.files == files && z.published.None? && z.receiving.incoming.None?
  {
    var start := Initial(meta, temp, final, alternative, files);
    var y := RunSystem(sha, start, before);
    UntouchedUntilAccepted(sha, start, before, files);
    RunKeepsOneRequest(sha, start, before);
    if !y.userAccepted && y.receiving.incoming.Some? && Withdraws(y, a) {
      var x := StepSystem(sha, y, a);
      WithdrawalDiscards(sha, y, a);
      StepKeepsOneRequest(sha, y, a);
      SenderStaysUntouched(y, a, files);
      ReceiverStaysUntouched(sha, SenderStep(y, a), a, files);
      GoneAfterwards(sha, y, a);
      RunStaysGone(sha, x, after);
      UntouchedUntilAccepted(sha, x, after, files);
    }
  }

  lemma GoneAfterwards(sha: Hash, y: System, a: Action)
    requires OneRequest(y) && y.receiving.incoming.Some? && Withdraws(y, a)
    ensures Gone(StepSystem(sha, y, a))
  {
    WithdrawalDiscards(sha, y, a);
    if a.ReceiverDelivers? {
      assert forall m :: m in y.toReceiver[1..] ==> m in y.toReceiver;
    }
  }

  // ----- the sender gives up -----

  /** The sender has been refused or cancelled, or has failed, and can no longer succeed. */
  predicate Hopeless(s: Sender) {
    match s.pc
    case RequestSent | Streaming => s.cancelled
    case AwaitResponse => s.cancelled || (s.response.Some? && s.response.value != [] && !s.response.value[0].SaysYes?)
    case AwaitResult => s.result.Some? && s.result.value != [] && !s.result.value[0]
    case Finished(success) => !success
    case _ => false
  }

  /** It stays so, and writes nothing but a CANCEL. */
  lemma MoveStaysHopeless(meta: Metadata, s: Sender, a: Action)
    requires Hopeless(s)
    ensures Hopeless(Move(s, a))
    ensures Sends(meta, s, a) == [] || Sends(meta, s, a) == [CancelMsg]
  {
  }

  lemma HandlingStaysHopeless(s: Sender, m: Msg)
    requires Hopeless(s)
    ensures Hopeless(SenderHandles(s, m))
  {
  }

  lemma {:induction false} RunStaysHopeless(sha: Hash, y: System, actions: seq<Action>)
    requires Hopeless(y.sender)
    ensures var z := RunSystem(sha, y, actions);
            Hopeless(z.sender) && forall m :: m in z.toReceiver ==> m in y.toReceiver || m.CancelMsg? || m.CompleteMsg?
  {
    if actions != [] {
      RunStaysHopeless(sha, y, actions[..|actions| - 1]);
      StepStaysHopeless(sha, RunSystem(sha, y, actions[..|actions| - 1]), actions[|actions| - 1]);
    }
  }

  lemma StepStaysHopeless(sha: Hash, y: System, a: Action)
    requires Hopeless(y.sender)
    ensures var z := StepSystem(sha, y, a);
            Hopeless(z.sender) && forall m :: m in z.toReceiver ==> m in y.toReceiver || m.CancelMsg? || m.CompleteMsg?
  {
    if a.SenderDelivers? {
      if y.toSender != [] {
        HandlingStaysHopeless(y.sender, y.toSender[0]);
      }
    } else {
      MoveStaysHopeless(y.meta, y.sender, a);
    }
    ReceiverOnlyReads(sha, SenderStep(y, a), a);
  }

  lemma ReceiverOnlyReads(sha: Hash, y: System, a: Action)
    ensures var z := ReceiverStep(sha, y, a);
            z.sender == y.sender && forall m :: m in z.toReceiver ==> m in y.toReceiver || m.CompleteMsg?
  {
    if a.ReceiverDelivers? && y.toReceiver != [] {
      assert forall m :: m in y.toReceiver[1..] ==> m in y.toReceiver;
    }
  }

  /** send_file is listed as active exactly while it runs. */
  predicate ActiveWhileRunning(s: Sender) {
    s.active <==> !s.pc.NotStarted? && !s.pc.Finished?
  }

  lemma StepKeepsActive(y: System, a: Action)
    requires ActiveWhileRunning(y.sender)
    ensures ActiveWhileRunning(SenderStep(y, a).sender)
  {
  }

  lemma {:induction false} RunKeepsActive(sha: Hash, y: System, actions: seq<Action>)
    requires ActiveWhileRunning(y.sender)
    ensures ActiveWhileRunning(RunSystem(sha, y, actions).sender)
  {
    if actions != [] {
      RunKeepsActive(sha, y, actions[..|actions| - 1]);
      var z, a := RunSystem(sha, y, actions[..|actions| - 1]), actions[|actions| - 1];
      StepKeepsActive(z, a);
      ReceiverOnlyReads(sha, SenderStep(z, a), a);
    }
  }

  /** The events that cancel: the sender's own user, the peer's CANCEL, the end of the connection. */
  predicate Cancels(y: System, a: Action) {
    match a
    case SenderUserCancels => true
    case SenderDelivers => y.sender.loopRuns && y.toSender != [] && y.toSender[0].CancelMsg?
    case SenderLoopEnds => y.sender.loopRuns
    case _ => false
  }

  /** A cancellation before COMPLETE is written, or while the sender waits for a result that has not arrived, is
      final: whatever happens afterwards, send_file does not return True and writes no further chunk. */
  lemma CancellationIsFinal(sha: Hash, meta: Metadata, temp: Path, final: Path, alternative: Path, files: Files,
                            before: seq<Action>, a: Action, after: seq<Action>)
    ensures var y := RunSystem(sha, Initial(meta, temp, final, alternative, files), before);
            Cancels(y, a)
            && (y.sender.pc.RequestSent? || y.sender.pc.AwaitResponse? || y.sender.pc.Streaming?
                || (y.sender.pc.AwaitResult? && y.sender.result == Some([]))) ==>
              var z := RunSystem(sha, StepSystem(sha, y, a), after);
              && z.sender.pc != Finished(true)
              && forall m :: m in z.toReceiver && m.ChunkMsg? ==> m in y.toReceiver
  {
    var start := Initial(meta, temp, final, alternative, files);
    var y := RunSystem(sha, start, before);
    RunKeepsActive(sha, start, before);
    if Cancels(y, a)
       && (y.sender.pc.RequestSent? || y.sender.pc.AwaitResponse? || y.sender.pc.Streaming?
           || (y.sender.pc.AwaitResult? && y.sender.result == Some([]))) {
      var x := StepSystem(sha, y, a);
      CancelLeavesNoHope(y, a);
      ReceiverOnlyReads(sha, SenderStep(y, a), a);
      RunStaysHopeless(sha, x, after);
    }
  }

  lemma CancelLeavesNoHope(y: System, a: Action)
    requires ActiveWhileRunning(y.sender) && Cancels(y, a)
    requires y.sender.pc.RequestSent? || y.sender.pc.AwaitResponse? || y.sender.pc.Streaming?
             || (y.sender.pc.AwaitResult? && y.sender.result == Some([]))
    ensures Hopeless(SenderStep(y, a).sender) && SenderStep(y, a).toReceiver == y.toReceiver
  {
  }

  /** Each answer that comes while the sender waits for it decides send_file: only ACCEPT lets it stream, and the result
      it returns is the one the receiver sent. */
  lemma AnswersDecide(s: Sender, m: Msg)
    ensures s.pc.AwaitResponse? && s.response == Some([]) ==>
              Move(SenderHandles(s, m), WakeResponse).pc
                == if m.AcceptMsg? then Streaming else if m.RejectMsg? || m.CancelMsg? then Finished(false) else s.pc
    ensures s.pc.AwaitResult? && s.result == Some([]) ==>
              Move(SenderHandles(s, m), WakeResult).pc
                == if m.ResultMsg? then Finished(m.ok) else if m.CancelMsg? then Finished(false) else s.pc
  {
    assert s.response == Some([]) ==> s.response.value + [SaysNo] == [SaysNo];
  }

  /** Every other way out of send_file is a False, with a CANCEL written if it was streaming. */
  lemma FailuresEndIt(meta: Metadata, s: Sender)
    ensures s.pc.AwaitResponse? ==> Move(s, ResponseTimeout).pc == Finished(false)
    ensures s.pc.AwaitResult? ==> Move(s, ResultTimeout).pc == Finished(false)
    ensures s.pc.Streaming? ==> Move(s, ReadFails).pc == Finished(false) && Sends(meta, s, ReadFails) == [CancelMsg]
    ensures s.pc.Streaming? && s.cancelled ==>
              Move(s, NoticeCancel).pc == Finished(false) && Sends(meta, s, NoticeCancel) == [CancelMsg]
    ensures !s.loopRuns && !s.pc.Finished? ==> Move(s, SendFails).pc == Finished(false)
    ensures !Move(s, SenderLoopEnds).loopRuns
    ensures forall a :: s.pc.Finished? ==> Move(s, a).pc == s.pc && Sends(meta, s, a) == []
  {
  }

  // ----- what the receiver does with each message -----

  /** A second request while a transfer is there is rejected and touches nothing. */
  lemma BusyRejects(sha: Hash, y: System, meta: Metadata, os: Os)
    requires y.receiving.incoming.Some?
    ensures var z := ReceiverHandles(sha, y, RequestMsg(meta), os);
            z == y.(toSender := y.toSender + [RejectMsg])
  {
  }

  /** The chunk is the one the receiver waits for. */
  predicate Fits(r: Receiver, c: ChunkFrame) {
    && (r.state.Transferring? || r.state.Resuming?)
    && c.id == r.meta.id && c.seqNo == r.nextSeq && |c.data| <= r.meta.chunkSize
  }

  /** The chunk waited for is taken in; if it cannot be written the transfer ends and an ERROR is sent. */
  lemma FittingChunk(y: System, c: ChunkFrame, os: Os)
    requires y.receiving.incoming.Some? && Fits(y.receiving.incoming.value, c) && y.receiving.incoming.value.isOpen
    ensures var r := y.receiving.incoming.value;
            var z := OnChunk(y, c, os);
            if os.writeOk then
              && z.receiving.incoming == Some(r.(hasher := r.hasher + c.data, nextSeq := r.nextSeq + 1,
                                                 bytesReceived := r.bytesReceived + |c.data|))
              && z.receiving.files == Append(y.receiving.files, r.temp, c.data) && z.toSender == y.toSender
            else
              && z.receiving.incoming.None? && z.toSender == y.toSender + [ErrorMsg]
              && z.receiving.files == if r.tempSet && os.unlinkOk then y.receiving.files - {r.temp}
                                      else y.receiving.files
  {
    RefusedChunkPromises(y.receiving.incoming.value, y.receiving.files, c, os);
  }

  /** Any other chunk ends the transfer without a word, and if the handle is gone the connection too. */
  lemma UnfittingChunk(y: System, c: ChunkFrame, os: Os)
    requires y.receiving.incoming.Some?
    requires !Fits(y.receiving.incoming.value, c) || !y.receiving.incoming.value.isOpen
    ensures var r := y.receiving.incoming.value;
            var z := OnChunk(y, c, os);
            && z.receiving.incoming.None? && z.toSender == y.toSender
            && z.receiving.loopRuns == (y.receiving.loopRuns && !Fits(r, c))
            && z.receiving.files == if r.tempSet && os.unlinkOk then y.receiving.files - {r.temp} else y.receiving.files
  {
    RefusedChunkPromises(y.receiving.incoming.value, y.receiving.files, c, os);
  }

  /** COMPLETE is answered with the verdict on the hash; if finalise raises, the connection ends unanswered. */
  lemma CompleteOutcome(sha: Hash, y: System, os: Os)
    requires y.receiving.incoming.Some?
    ensures var r := y.receiving.incoming.value;
            var files := y.receiving.files;
            var z := OnComplete(sha, y, os);
            var closes := r.isOpen ==> os.flushOk;
            var good := closes && sha(r.hasher) == r.meta.sha256 && (r.state.Transferring? || r.state.Resuming?)
                        && r.tempSet && r.finalSet && os.renameOk && r.temp in files;
            var bad := closes && sha(r.hasher) != r.meta.sha256 && !Terminal(r.state);
            && z.toSender == y.toSender + (if good then [ResultMsg(true)] else if bad then [ResultMsg(false)] else [])
            && z.published == (if good then Some(files[r.temp]) else y.published)
            && (good || bad ==> z.receiving.popPending && z.receiving.loopRuns == y.receiving.loopRuns)
            && (!good && !bad ==> z.receiving.incoming.None? && !z.receiving.loopRuns)
  {
    FinaliseDecides(sha, y.receiving.incoming.value, y.receiving.files, os);
    assert y.toSender + [] == y.toSender;
  }

  /** Once the answer to COMPLETE is written, the transfer is no longer listed, and messages are read again. */
  lemma AnsweredIsForgotten(sha: Hash, y: System, os: Os)
    requires y.receiving.incoming.Some? && !y.receiving.popPending && OnComplete(sha, y, os).receiving.popPending
    ensures var z := ReceiverStep(sha, OnComplete(sha, y, os), PopFinished);
            && z.receiving.incoming.None? && !z.receiving.popPending && z.receiving.loopRuns == y.receiving.loopRuns
            && z.receiving.files == OnComplete(sha, y, os).receiving.files
  {
    CompleteOutcome(sha, y, os);
  }

  /** ACCEPT is written exactly if the part file could be created. */
  lemma AcceptOutcome(sha: Hash, y: System, os: Os)
    requires y.receiving.loopRuns && y.receiving.incoming.Some?
    ensures var r := y.receiving.incoming.value;
            var z := ReceiverStep(sha, y, ReceiverUserAccepts(os));
            var begins := (r.state.Idle? || r.state.Requested?) && os.stagingOk && os.pathSafe && os.openOk;
            && z.toSender == y.toSender + (if begins then [AcceptMsg] else [])
            && z.receiving.files == (if begins then y.receiving.files[r.temp := []] else y.receiving.files)
            && z.receiving.incoming.Some? && (begins ==> z.receiving.incoming.value.state.Transferring?)
  {
    assert y.toSender + [] == y.toSender;
  }
}

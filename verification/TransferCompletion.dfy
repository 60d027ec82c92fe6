/** The counterpart of SuccessMeansPublished: for every source there is an undisturbed run in which
    send_file returns True and the source is published. */
module TransferCompletion {
  import opened Bytes
  import opened ChunkCodec
  import opened Transfers
  import opened IncomingTransfer
  import opened OutgoingTransfer
  import opened TransferProtocol
  import LinuxDelivery

  ghost predicate Reaches(sha: Hash, y: System, z: System) {
    exists actions :: RunSystem(sha, y, actions) == z
  }

  lemma {:induction false} RunConcat(sha: Hash, y: System, xs: seq<Action>, ys: seq<Action>)
    ensures RunSystem(sha, y, xs + ys) == RunSystem(sha, RunSystem(sha, y, xs), ys)
  {
    if ys == [] {
      assert xs + ys == xs;
    } else {
      RunConcat(sha, y, xs, ys[..|ys| - 1]);
      assert (xs + ys)[..|xs + ys| - 1] == xs + ys[..|ys| - 1];
    }
  }

  /** One more step, after a run. */
  lemma Then(sha: Hash, y: System, z: System, a: Action)
    requires Reaches(sha, y, z)
    ensures Reaches(sha, y, StepSystem(sha, z, a))
  {
    var xs :| RunSystem(sha, y, xs) == z;
    assert (xs + [a])[..|xs + [a]| - 1] == xs;
    assert RunSystem(sha, y, xs + [a]) == StepSystem(sha, z, a);
  }

  lemma Chained(sha: Hash, x: System, y: System, z: System)
    requires Reaches(sha, x, y) && Reaches(sha, y, z)
    ensures Reaches(sha, x, z)
  {
    var xs :| RunSystem(sha, x, xs) == y;
    var ys :| RunSystem(sha, y, ys) == z;
    RunConcat(sha, x, xs, ys);
  }

  lemma Stay(sha: Hash, y: System)
    ensures Reaches(sha, y, y)
  {
    assert RunSystem(sha, y, []) == y;
  }

  const DELIVER := ReceiverDelivers(ALL_OK)

  // ----- request, accept -----

  function Asked(y: System): System {
    y.(sender := y.sender.(pc := AwaitResponse, active := true, response := Some([])), toReceiver := [RequestMsg(y.meta)])
  }

  lemma Ask(sha: Hash, y: System)
    requires y.sender.pc.NotStarted? && y.toReceiver == []
    ensures Reaches(sha, y, Asked(y))
  {
    Stay(sha, y);
    Then(sha, y, y, SendRequest);
    Then(sha, y, StepSystem(sha, y, SendRequest), RegisterResponse);
    assert StepSystem(sha, StepSystem(sha, y, SendRequest), RegisterResponse) == Asked(y);
  }

  function Pending(y: System): System {
    y.(receiving := y.receiving.(incoming := Some(Fresh(y.meta, y.temp, y.final, y.alternative))), toReceiver := [])
  }

  lemma Announce(sha: Hash, y: System)
    requires y.toReceiver == [RequestMsg(y.meta)] && Ready(y)
    ensures Reaches(sha, y, Pending(y))
  {
    Stay(sha, y);
    Then(sha, y, y, DELIVER);
    assert StepSystem(sha, y, DELIVER) == Pending(y);
  }

  /** The receiving side is up and has no transfer. */
  ghost predicate Ready(y: System) {
    y.receiving.loopRuns && !y.receiving.popPending && y.receiving.incoming.None?
  }

  function Granted(y: System): System
    requires y.receiving.incoming.Some?
  {
    var s := Begin(y.receiving.incoming.value, y.receiving.files, ALL_OK);
    y.(receiving := y.receiving.(incoming := Some(s.r), files := s.files), userAccepted := true, toSender := [AcceptMsg])
  }

  lemma Grant(sha: Hash, y: System)
    requires y.receiving.loopRuns && y.receiving.incoming == Some(Fresh(y.meta, y.temp, y.final, y.alternative))
    requires y.toSender == []
    ensures Reaches(sha, y, Granted(y))
  {
    Stay(sha, y);
    Then(sha, y, y, ReceiverUserAccepts(ALL_OK));
    assert StepSystem(sha, y, ReceiverUserAccepts(ALL_OK)) == Granted(y);
  }

  function Go(y: System): System {
    y.(sender := y.sender.(pc := Streaming, response := None), toSender := [])
  }

  lemma Proceed(sha: Hash, y: System)
    requires y.sender.loopRuns && y.toSender == [AcceptMsg] && y.sender.pc.AwaitResponse? && y.sender.response == Some([])
    ensures Reaches(sha, y, Go(y))
  {
    Stay(sha, y);
    Then(sha, y, y, SenderDelivers);
    var y1 := StepSystem(sha, y, SenderDelivers);
    assert y.sender.response.value + [SaysYes] == [SaysYes];
    assert y1 == y.(sender := y.sender.(response := Some([SaysYes])), toSender := []);
    Then(sha, y, y1, WakeResponse);
    assert StepSystem(sha, y1, WakeResponse) == Go(y);
  }

  // ----- chunks -----

  /** Both sides are streaming, in step, with nothing in flight. */
  ghost predicate InStep(y: System, index: nat) {
    && y.sender.pc.Streaming? && !y.sender.cancelled && y.sender.nextSeq == index && y.sender.loopRuns
    && y.toReceiver == [] && y.toSender == []
    && y.receiving.loopRuns && !y.receiving.popPending
    && y.receiving.incoming.Some?
    && var r := y.receiving.incoming.value;
       && r.state.Transferring? && r.isOpen && r.tempSet && r.finalSet && r.nextSeq == index
       && r.temp in y.receiving.files
       && r.meta == y.meta && r.meta.chunkSize == CHUNK_SIZE
  }

  function After(y: System, data: Bytes, chunks: nat): System
    requires y.receiving.incoming.Some?
  {
    var r := y.receiving.incoming.value;
    y.(sender := y.sender.(nextSeq := y.sender.nextSeq + chunks),
       receiving := y.receiving.(incoming := Some(LinuxDelivery.Advanced(r, data, chunks)),
                                 files := Append(y.receiving.files, r.temp, data)))
  }

  lemma AfterTwice(y: System, a: Bytes, b: Bytes, n: nat)
    requires y.receiving.incoming.Some?
    ensures After(After(y, a, 1), b, n) == After(y, a + b, n + 1)
  {
    var r := y.receiving.incoming.value;
    LinuxDelivery.AdvancedTwice(r, a, b, n);
    LinuxDelivery.AppendTwice(y.receiving.files, r.temp, a, b);
  }

  lemma AfterNothing(y: System)
    requires y.receiving.incoming.Some?
    ensures After(y, [], 0) == y
  {
    var r := y.receiving.incoming.value;
    assert r.hasher + [] == r.hasher;
    assert r.temp in y.receiving.files ==> y.receiving.files[r.temp] + [] == y.receiving.files[r.temp];
    assert Append(y.receiving.files, r.temp, []) == y.receiving.files;
  }

  function OneSent(y: System, data: Bytes): System {
    y.(sender := y.sender.(nextSeq := y.sender.nextSeq + 1),
       toReceiver := [ChunkMsg(ChunkFrame(y.meta.id, y.sender.nextSeq, data))])
  }

  lemma SendOne(sha: Hash, y: System, data: Bytes)
    requires y.sender.pc.Streaming? && !y.sender.cancelled && y.toReceiver == [] && 0 < |data| <= CHUNK_SIZE
    ensures Reaches(sha, y, OneSent(y, data))
  {
    Stay(sha, y);
    Then(sha, y, y, StreamChunk(data));
    assert StepSystem(sha, y, StreamChunk(data)) == OneSent(y, data);
  }

  lemma ReceiveOne(sha: Hash, y: System, index: nat, data: Bytes)
    requires InStep(y, index) && 0 < |data| <= CHUNK_SIZE
    ensures Reaches(sha, OneSent(y, data), After(y, data, 1))
  {
    var y1 := OneSent(y, data);
    var c := ChunkFrame(y.meta.id, index, data);
    Stay(sha, y1);
    Then(sha, y1, y1, DELIVER);
    assert StepSystem(sha, y1, DELIVER) == OnChunk(y1.(toReceiver := []), c, ALL_OK);
    assert ReceiveChunk(y.receiving.incoming.value, y.receiving.files, c, ALL_OK).verdict.Done?;
  }

  lemma StillInStep(y: System, index: nat, data: Bytes, chunks: nat)
    requires InStep(y, index)
    ensures InStep(After(y, data, chunks), index + chunks)
  {
  }

  lemma OneChunk(sha: Hash, y: System, index: nat, data: Bytes)
    requires InStep(y, index) && 0 < |data| <= CHUNK_SIZE
    ensures Reaches(sha, y, After(y, data, 1)) && InStep(After(y, data, 1), index + 1)
  {
    SendOne(sha, y, data);
    ReceiveOne(sha, y, index, data);
    Chained(sha, y, OneSent(y, data), After(y, data, 1));
    StillInStep(y, index, data, 1);
  }

  lemma AfterMore(y: System, chunks: seq<ChunkFrame>)
    requires y.receiving.incoming.Some? && chunks != []
    ensures After(After(y, chunks[0].data, 1), Payloads(chunks[1..]), |chunks[1..]|)
         == After(y, Payloads(chunks), |chunks|)
  {
    AfterTwice(y, chunks[0].data, Payloads(chunks[1..]), |chunks[1..]|);
  }

  lemma {:induction false} AllChunks(sha: Hash, y: System, index: nat, chunks: seq<ChunkFrame>)
    requires InStep(y, index) && forall i :: 0 <= i < |chunks| ==> 0 < |chunks[i].data| <= CHUNK_SIZE
    ensures Reaches(sha, y, After(y, Payloads(chunks), |chunks|))
    decreases |chunks|
  {
    if chunks == [] {
      AfterNothing(y);
      Stay(sha, y);
    } else {
      var y1 := After(y, chunks[0].data, 1);
      OneChunk(sha, y, index, chunks[0].data);
      AllChunks(sha, y1, index + 1, chunks[1..]);
      AfterMore(y, chunks);
      Chained(sha, y, y1, After(y, Payloads(chunks), |chunks|));
    }
  }

  // ----- complete, result -----

  function Ended(y: System): System {
    y.(sender := y.sender.(pc := AwaitResult, result := Some([])), toReceiver := [CompleteMsg])
  }

  lemma EndStream(sha: Hash, y: System, index: nat)
    requires InStep(y, index)
    ensures Reaches(sha, y, Ended(y))
  {
    Stay(sha, y);
    Then(sha, y, y, StreamEnds);
    Then(sha, y, StepSystem(sha, y, StreamEnds), RegisterResult);
    assert StepSystem(sha, StepSystem(sha, y, StreamEnds), RegisterResult) == Ended(y);
  }

  lemma Verify(sha: Hash, y: System, index: nat, source: Bytes)
    requires InStep(y, index) && y.meta.sha256 == sha(source)
    requires var r := y.receiving.incoming.value; r.hasher == source && y.receiving.files[r.temp] == source
    ensures var z := StepSystem(sha, Ended(y), DELIVER);
            && z.sender == Ended(y).sender && z.toSender == [ResultMsg(true)] && z.published == Some(source)
  {
    var r := y.receiving.incoming.value;
    LinuxDelivery.FinaliseComplete(sha, r, y.receiving.files, source, ALL_OK);
    assert StepSystem(sha, Ended(y), DELIVER) == OnComplete(sha, Ended(y).(toReceiver := []), ALL_OK);
  }

  lemma Report(sha: Hash, y: System)
    requires y.sender.loopRuns && y.toSender == [ResultMsg(true)] && y.sender.pc.AwaitResult? && y.sender.result == Some([])
    ensures var z := StepSystem(sha, StepSystem(sha, y, SenderDelivers), WakeResult);
            z.sender.pc == Finished(true) && z.published == y.published && Reaches(sha, y, z)
  {
    Stay(sha, y);
    Then(sha, y, y, SenderDelivers);
    var y1 := StepSystem(sha, y, SenderDelivers);
    assert y.sender.result.value + [true] == [true];
    assert y1.sender.result == Some([true]);
    Then(sha, y, y1, WakeResult);
  }

  /** An undisturbed transfer of any source succeeds and publishes it. */
  lemma UndisturbedTransferSucceeds(sha: Hash, source: Bytes, meta: Metadata, temp: Path, final: Path, alternative: Path,
                                    files: Files)
    requires meta.chunkSize == CHUNK_SIZE && meta.sha256 == sha(source)
    ensures exists z :: Reaches(sha, Initial(meta, temp, final, alternative, files), z)
                        && z.sender.pc == Finished(true) && z.published == Some(source)
  {
    var y0 := Initial(meta, temp, final, alternative, files);
    var y1 := Accepting(sha, meta, temp, final, alternative, files);
    var owed := ChunksFrom(meta.id, source, 0);
    ChunksCoverTheRest(meta.id, source, 0);
    AllChunks(sha, y1, 0, owed);
    StillInStep(y1, 0, Payloads(owed), |owed|);
    assert Payloads(owed) == source[0..] == source && [] + source == source;
    var y2 := After(y1, source, |owed|);
    Chained(sha, y0, y1, y2);
    EndStream(sha, y2, |owed|);
    Chained(sha, y0, y2, Ended(y2));
    Verify(sha, y2, |owed|, source);
    Then(sha, y0, Ended(y2), DELIVER);
    var y3 := StepSystem(sha, Ended(y2), DELIVER);
    Report(sha, y3);
    Chained(sha, y0, y3, StepSystem(sha, StepSystem(sha, y3, SenderDelivers), WakeResult));
  }

  lemma Accepting(sha: Hash, meta: Metadata, temp: Path, final: Path, alternative: Path, files: Files) returns (y: System)
    requires meta.chunkSize == CHUNK_SIZE
    ensures Reaches(sha, Initial(meta, temp, final, alternative, files), y)
    ensures InStep(y, 0) && y.meta == meta
    ensures var r := y.receiving.incoming.value; r.temp == temp && r.hasher == [] && y.receiving.files[temp] == []
  {
    var y0 := Initial(meta, temp, final, alternative, files);
    Ask(sha, y0);
    var y1 := Asked(y0);
    Announce(sha, y1);
    var y2 := Pending(y1);
    Chained(sha, y0, y1, y2);
    Grant(sha, y2);
    var y3 := Granted(y2);
    Chained(sha, y0, y2, y3);
    Proceed(sha, y3);
    y := Go(y3);
    Chained(sha, y0, y3, y);
  }
}

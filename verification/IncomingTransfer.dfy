/** The Linux receiver: IncomingTransfer as a step function over its fields and the disk.
    The class in IncomingTransferClass.dfy is proved to compute exactly these steps. */
module IncomingTransfer {
  import opened Bytes
  import opened ChunkCodec
  import opened Transfers

  /** What the operating system does during one call. Everything is allowed to go wrong. */
  datatype Os = Os(
    stagingOk: bool,    // the staging directory can be created
    pathSafe: bool,     // resolve_safe_destination accepts the name
    openOk: bool,
    writeOk: bool,
    flushOk: bool,
    survives: nat,      // when flush or close fails: how many bytes had reached the disk
    statOk: bool,
    truncateOk: bool,
    rereadOk: bool,
    reread: nat,        // when re-reading fails: how many bytes had been hashed
    renameOk: bool,
    unlinkOk: bool)

  datatype Error =
    | BadState | WrongTransfer | OutOfOrder | TooBig | NoHandle | Io | Unsafe | NotFound
    | EmptyPart | BadSize | Misaligned | Inconsistent | InvalidPayload | Unset

  datatype Verdict = Done | Returned(ok: bool) | Raised(error: Error)

  datatype Receiver = Receiver(
    meta: Metadata,
    temp: Path,           // <staging>/<transfer_id>.part
    final: Path,          // the resolved destination
    alternative: Path,    // the destination with the id prefix, used when final is taken
    state: TransferState,
    tempSet: bool,        // _temp_path is not None
    finalSet: bool,       // _final_path is not None
    isOpen: bool,         // _temp_fh is not None
    hasher: Bytes,        // the bytes the running hash has absorbed
    bytesReceived: nat,
    nextSeq: nat)

  datatype Step = Step(r: Receiver, files: Files, verdict: Verdict)

  /** The transfer a receiver serves never changes. */
  ghost predicate SameTransfer(r: Receiver, s: Receiver) {
    r.meta == s.meta && r.temp == s.temp && r.final == s.final && r.alternative == s.alternative
  }

  function Fresh(meta: Metadata, temp: Path, final: Path, alternative: Path): Receiver {
    Receiver(meta, temp, final, alternative, Idle, false, false, false, [], 0, 0)
  }

  function Begin(r: Receiver, files: Files, os: Os): (s: Step)
    ensures SameTransfer(r, s.r)
  {
    if !InTable(r.state, Accepted) then Step(r, files, Raised(BadState))
    else if !os.stagingOk then Step(r.(state := Failed), files, Raised(Io))
    else if !os.pathSafe then Step(r.(state := Accepted, tempSet := true), files, Raised(Unsafe))
    else if !os.openOk then Step(r.(state := Failed, tempSet := true, finalSet := true), files, Raised(Io))
    else Step(r.(state := Transferring, tempSet := true, finalSet := true, isOpen := true),
              files[r.temp := []], Done)
  }

  function Cleanup(r: Receiver, files: Files, os: Os): Files {
    if r.tempSet && os.unlinkOk then Unlink(files, r.temp) else files
  }

  function ReceiveChunk(r: Receiver, files: Files, c: ChunkFrame, os: Os): (s: Step)
    ensures SameTransfer(r, s.r)
  {
    if !r.state.Transferring? && !r.state.Resuming? then Step(r, files, Raised(BadState))
    else if c.id != r.meta.id then Step(r, files, Raised(WrongTransfer))
    else if c.seqNo != r.nextSeq then Step(r, files, Raised(OutOfOrder))
    else if |c.data| > r.meta.chunkSize then Step(r, files, Raised(TooBig))
    else if !r.isOpen then Step(r, files, Raised(NoHandle))
    else if !os.writeOk then
      Step(r.(isOpen := false, state := Failed), Cleanup(r, files, os), Raised(Io))
    else
      Step(r.(hasher := r.hasher + c.data, bytesReceived := r.bytesReceived + |c.data|, nextSeq := r.nextSeq + 1),
           Append(files, r.temp, c.data), Done)
  }

  /** Where finalise puts the file. */
  function Destination(r: Receiver, files: Files): Path {
    if r.final in files then r.alternative else r.final
  }

  /** finalise gets as far as the rename. */
  predicate Publishes(sha: Hash, r: Receiver, files: Files, os: Os) {
    && (r.isOpen ==> os.flushOk)
    && sha(r.hasher) == r.meta.sha256
    && r.tempSet && r.finalSet && os.renameOk && r.temp in files
  }

  function Finalise(sha: Hash, r: Receiver, files: Files, os: Os): (s: Step)
    ensures SameTransfer(r, s.r)
  {
    if r.isOpen && !os.flushOk then Step(r, files, Raised(Io))
    else
      var r1 := r.(isOpen := false);
      if sha(r.hasher) != r.meta.sha256 then
        var files' := Cleanup(r, files, os);
        if InTable(r.state, Failed) then Step(r1.(state := Failed), files', Returned(false))
        else Step(r1, files', Raised(BadState))
      else if !r.tempSet || !r.finalSet then Step(r1, files, Raised(Unset))
      else if !os.renameOk || r.temp !in files then Step(r1, files, Raised(Io))
      else
        // The rename comes before the state check: a refused transition leaves the file published.
        var files' := Rename(files, r.temp, Destination(r, files));
        if InTable(r.state, Completed) then Step(r1.(state := Completed), files', Returned(true))
        else Step(r1, files', Raised(BadState))
  }

  /** The bytes that are on disk once the handle is closed. */
  function AfterClose(r: Receiver, files: Files, os: Os): Files {
    if r.isOpen && !os.flushOk && r.temp in files
    then files[r.temp := files[r.temp][..Min(os.survives, |files[r.temp]|)]]
    else files
  }

  function OnDisk(r: Receiver, files: Files, os: Os): nat {
    if r.tempSet && r.temp in files && os.statOk then |files[r.temp]| else 0
  }

  /** Cut the part file, of which n bytes are on disk, down to whole chunks and keep it for a resume. */
  function Retain(r: Receiver, files: Files, n: nat, os: Os): (s: Step)
    requires n > 0 ==> r.temp in files && n == |files[r.temp]|
    ensures SameTransfer(r, s.r)
  {
    var next := if r.meta.chunkSize > 0 then n / r.meta.chunkSize else r.nextSeq;
    var aligned := if r.meta.chunkSize > 0 then ChunkFloor(n, r.meta.chunkSize) else 0;
    var cut := aligned < n && os.truncateOk;
    var files' := if cut then files[r.temp := files[r.temp][..aligned]] else files;
    var r' := r.(bytesReceived := if cut then aligned else n, nextSeq := next);
    if InTable(r.state, TransferState.Interrupted)
    then Step(r'.(state := TransferState.Interrupted), files', Done)
    else Step(r', files', Raised(BadState))
  }

  function Interrupt(r: Receiver, files: Files, os: Os): (s: Step)
    ensures SameTransfer(r, s.r)
  {
    if r.state.Interrupted? || Terminal(r.state) then Step(r, files, Done)
    else if !r.state.Transferring? && !r.state.Accepted? then Step(r.(state := Failed), files, Done)
    else if r.meta.fileSize == 0 then Step(r.(state := Failed), files, Done)
    else
      var files1 := AfterClose(r, files, os);
      var n := OnDisk(r, files1, os);
      var r1 := r.(isOpen := false);
      if n == 0 && r.bytesReceived == 0 then Step(r1.(state := Failed), files1, Done)
      else Retain(r1, files1, n, os)
  }

  datatype ResumePayload = ResumePayload(id: TransferId, offset: nat, chunkIndex: nat, partialSha: string)

  predicate LowerHex64(s: string) {
    |s| == 64 && forall i :: 0 <= i < |s| ==> s[i] in "0123456789abcdef"
  }

  /** TransferResumeRequestPayload.validate; its own check runs with the default chunk size 65536. */
  predicate PayloadValid(p: ResumePayload, chunkSize: int) {
    && p.offset <= MAX_FILE_SIZE
    && LowerHex64(p.partialSha)
    && chunkSize > 0
    && !(p.chunkIndex == 0 && p.offset != 0)
    && p.offset == p.chunkIndex * chunkSize
  }

  datatype Prepared = Payload(payload: ResumePayload) | Refused(error: Error)

  /** prepare_resume_request: the verdict, and the receiver with its counters set from the disk. */
  function PrepareResume(sha: Hash, r: Receiver, files: Files, expectedBytes: Option<nat>, expectedIndex: Option<nat>)
    : (result: (Receiver, Prepared))
    ensures SameTransfer(r, result.0)
  {
    if !r.state.Interrupted? then (r, Refused(BadState))
    else if !r.tempSet || r.temp !in files then (r, Refused(NotFound))
    else
      var n := |files[r.temp]|;
      if n == 0 then (r, Refused(EmptyPart))
      else if r.meta.fileSize <= 0 || n > r.meta.fileSize || r.meta.chunkSize <= 0 then (r, Refused(BadSize))
      else if n % r.meta.chunkSize != 0 then (r, Refused(Misaligned))
      else
        var index := n / r.meta.chunkSize;
        if expectedBytes.Some? && expectedBytes.value != n then (r, Refused(Inconsistent))
        else if expectedIndex.Some? && expectedIndex.value != index then (r, Refused(Inconsistent))
        else
          var p := ResumePayload(r.meta.id, n, index, sha(files[r.temp]));
          (r.(bytesReceived := n, nextSeq := index),
           if PayloadValid(p, CHUNK_SIZE) then Payload(p) else Refused(InvalidPayload))
  }

  function Resume(r: Receiver, files: Files, chunkIndex: nat, os: Os): (s: Step)
    ensures SameTransfer(r, s.r)
  {
    if !r.state.Interrupted? && !r.state.ResumeRequested? then Step(r, files, Raised(BadState))
    else if !r.tempSet || r.temp !in files then Step(r.(state := Failed), files, Raised(NotFound))
    else if !os.openOk then Step(r.(state := Failed), files, Raised(Io))
    else
      var part := files[r.temp];
      Step(r.(state := Resuming, isOpen := true,
              hasher := if os.rereadOk then part else part[..Min(os.reread, |part|)],
              bytesReceived := |part|, nextSeq := chunkIndex),
           files, Done)
  }

  function Cancel(r: Receiver, files: Files, os: Os): (s: Step)
    ensures SameTransfer(r, s.r)
  {
    Step(r.(isOpen := false, state := TransferState.Cancelled), Cleanup(r, files, os), Done)
  }

  // ----- runs: any calls, in any order, with any frames -----

  datatype Op =
    | OpBegin | OpChunk(c: ChunkFrame) | OpFinalise | OpInterrupt
    | OpPrepare(expectedBytes: Option<nat>, expectedIndex: Option<nat>) | OpResume(chunkIndex: nat) | OpCancel

  datatype Call = Call(op: Op, os: Os)

  function Apply(sha: Hash, r: Receiver, files: Files, call: Call): (s: Step)
    ensures SameTransfer(r, s.r)
  {
    match call.op
    case OpBegin => Begin(r, files, call.os)
    case OpChunk(c) => ReceiveChunk(r, files, c, call.os)
    case OpFinalise => Finalise(sha, r, files, call.os)
    case OpInterrupt => Interrupt(r, files, call.os)
    case OpPrepare(b, i) => Step(PrepareResume(sha, r, files, b, i).0, files, Done)
    case OpResume(i) => Resume(r, files, i, call.os)
    case OpCancel => Cancel(r, files, call.os)
  }

  /** The receiver and the disk after a sequence of calls. */
  function Run(sha: Hash, r: Receiver, files: Files, calls: seq<Call>): (Receiver, Files) {
    if calls == [] then (r, files)
    else
      var (r1, files1) := Run(sha, r, files, calls[..|calls| - 1]);
      var s := Apply(sha, r1, files1, calls[|calls| - 1]);
      (s.r, s.files)
  }

  /** Every resume in the run managed to re-read the whole .part file. */
  ghost predicate RereadsComplete(calls: seq<Call>) {
    forall i :: 0 <= i < |calls| && calls[i].op.OpResume? ==> calls[i].os.rereadOk
  }

  /** The hash skipped a piece in the middle of the file but agrees with it before and after. */
  ghost predicate Skipped(part: Bytes, hasher: Bytes) {
    exists k: nat :: SkippedAt(part, hasher, k)
  }

  ghost predicate SkippedAt(part: Bytes, hasher: Bytes, k: nat) {
    && k <= |hasher| <= |part|
    && part[..k] == hasher[..k]
    && part[|part| - |hasher| + k..] == hasher[k..]
  }

  /** How hash and disk are related after any calls at all. In TRANSFERRING the hash has absorbed exactly the
      .part file. An interrupt truncates the file and leaves the hash alone. A resume re-reads the file,
      but an I/O error during the re-read is ignored, and then the hash lacks a piece. */
  ghost predicate Related(r: Receiver, files: Files, rereadsComplete: bool) {
    && (r.state.Transferring? || r.state.Resuming? ==> r.tempSet && r.finalSet)
    && (r.state.Transferring? || r.state.Interrupted? ==> r.finalSet)
    && (r.state.Idle? || r.state.Accepted? ==> r.hasher == [])
    && !r.state.Requested? && !r.state.ResumeRequested? && !r.state.Cancelling?
    && (r.temp in files ==>
          var part := files[r.temp];
          && (r.state.Transferring? ==> part == r.hasher)
          && (r.state.Interrupted? ==> part <= r.hasher)
          && (r.state.Resuming? ==> Skipped(part, r.hasher) && (rereadsComplete ==> part == r.hasher)))
  }

  lemma SkippedAppend(part: Bytes, hasher: Bytes, data: Bytes)
    requires Skipped(part, hasher)
    ensures Skipped(part + data, hasher + data)
  {
    var k: nat :| SkippedAt(part, hasher, k);
    var p, h := part + data, hasher + data;
    assert p[..k] == part[..k] && h[..k] == hasher[..k];
    assert p[|p| - |h| + k..] == part[|part| - |hasher| + k..] + data;
    assert h[k..] == hasher[k..] + data;
    assert SkippedAt(p, h, k);
  }

  lemma RelatedChunk(r: Receiver, files: Files, c: ChunkFrame, os: Os, complete: bool)
    requires Related(r, files, complete)
    ensures var s := ReceiveChunk(r, files, c, os); Related(s.r, s.files, complete)
  {
    if r.state.Resuming? && r.temp in files {
      SkippedAppend(files[r.temp], r.hasher, c.data);
    }
  }

  lemma RelatedRetain(r: Receiver, files: Files, n: nat, os: Os, complete: bool)
    requires n > 0 ==> r.temp in files && n == |files[r.temp]|
    requires r.state.Transferring? ==> r.finalSet && (r.temp in files ==> files[r.temp] <= r.hasher)
    requires r.state.Accepted? ==> r.hasher == []
    requires r.state.Transferring? || r.state.Accepted?
    ensures var s := Retain(r, files, n, os); Related(s.r, s.files, complete)
  {
  }

  lemma RelatedInterrupt(r: Receiver, files: Files, os: Os, complete: bool)
    requires Related(r, files, complete)
    ensures var s := Interrupt(r, files, os); Related(s.r, s.files, complete)
  {
    if r.state.Transferring? || r.state.Accepted? {
      var files1 := AfterClose(r, files, os);
      RelatedRetain(r.(isOpen := false), files1, OnDisk(r, files1, os), os, complete);
    }
  }

  lemma RelatedResume(sha: Hash, r: Receiver, files: Files, call: Call, complete: bool)
    requires Related(r, files, complete) && call.op.OpResume? && (complete ==> call.os.rereadOk)
    ensures var s := Apply(sha, r, files, call); Related(s.r, s.files, complete)
  {
    if r.temp in files {
      var part := files[r.temp];
      var seeded := if call.os.rereadOk then part else part[..Min(call.os.reread, |part|)];
      assert SkippedAt(part, seeded, |seeded|);
    }
  }

  lemma RelatedFinalise(sha: Hash, r: Receiver, files: Files, call: Call, complete: bool)
    requires Related(r, files, complete) && call.op.OpFinalise?
    ensures var s := Apply(sha, r, files, call); Related(s.r, s.files, complete)
  {
  }

  lemma RelatedOthers(sha: Hash, r: Receiver, files: Files, call: Call, complete: bool)
    requires Related(r, files, complete) && (call.op.OpBegin? || call.op.OpPrepare? || call.op.OpCancel?)
    ensures var s := Apply(sha, r, files, call); Related(s.r, s.files, complete)
  {
  }

  lemma RelatedStep(sha: Hash, r: Receiver, files: Files, call: Call, complete: bool)
    requires Related(r, files, complete)
    requires complete && call.op.OpResume? ==> call.os.rereadOk
    ensures var s := Apply(sha, r, files, call); Related(s.r, s.files, complete)
  {
    match call.op
    case OpChunk(c) => RelatedChunk(r, files, c, call.os, complete);
    case OpFinalise => RelatedFinalise(sha, r, files, call, complete);
    case OpInterrupt => RelatedInterrupt(r, files, call.os, complete);
    case OpResume(_) => RelatedResume(sha, r, files, call, complete);
    case _ => RelatedOthers(sha, r, files, call, complete);
  }

  // ----- what one call promises -----

  /** When a transfer begins, and how each failure leaves it. */
  lemma BeginDecides(r: Receiver, files: Files, os: Os)
    ensures var s := Begin(r, files, os);
            var entered := (r.state.Idle? || r.state.Requested?) && os.stagingOk;
            && (s.verdict == Done <==> entered && os.pathSafe && os.openOk)
            && (s.verdict == Done ==> s.r.state.Transferring? && s.r.isOpen && s.files == files[r.temp := []])
            && (s.verdict != Done ==>
                  && s.files == files
                  && s.r.state == if !r.state.Idle? && !r.state.Requested? then r.state
                                  else if os.stagingOk && !os.pathSafe then Accepted else Failed)
            && s.r.tempSet == (r.tempSet || entered) && s.r.finalSet == (r.finalSet || (entered && os.pathSafe))
            && s.r.hasher == r.hasher
  {
  }

  lemma ChunkPromises(r: Receiver, files: Files, c: ChunkFrame, os: Os, complete: bool)
    requires Related(r, files, complete)
    ensures var s := ReceiveChunk(r, files, c, os);
            && Related(s.r, s.files, complete) && s.files - {r.temp} == files - {r.temp}
            && (s.verdict == Done <==>
                  (r.state.Transferring? || r.state.Resuming?) && r.isOpen && os.writeOk
                  && c.id == r.meta.id && c.seqNo == r.nextSeq && |c.data| <= r.meta.chunkSize)
            && (s.verdict == Done && r.temp in files ==>
                  r.temp in s.files && s.files[r.temp] == files[r.temp] + c.data)
            && (s.verdict == Done ==>
                  && s.r.state == r.state && s.r.isOpen && s.r.hasher == r.hasher + c.data
                  && s.r.bytesReceived == r.bytesReceived + |c.data| && s.r.nextSeq == r.nextSeq + 1)
  {
    RelatedChunk(r, files, c, os, complete);
  }

  /** A refused chunk changes nothing; one that could not be written ends the transfer and discards the part file. */
  lemma RefusedChunkPromises(r: Receiver, files: Files, c: ChunkFrame, os: Os)
    ensures var s := ReceiveChunk(r, files, c, os);
            && (s.verdict == Raised(Io) <==>
                  (r.state.Transferring? || r.state.Resuming?) && r.isOpen && !os.writeOk
                  && c.id == r.meta.id && c.seqNo == r.nextSeq && |c.data| <= r.meta.chunkSize)
            && (s.verdict == Raised(Io) ==>
                  && s.r.state.Failed? && !s.r.isOpen
                  && s.files == if r.tempSet && os.unlinkOk then files - {r.temp} else files)
            && (s.verdict != Done && s.verdict != Raised(Io) ==> s.r == r && s.files == files)
  {
  }

  lemma FinalisePromises(sha: Hash, r: Receiver, files: Files, os: Os, complete: bool)
    requires Related(r, files, complete)
    ensures var s := Finalise(sha, r, files, os);
            && Related(s.r, s.files, complete)
            && (s.verdict == Returned(true) ==>
                  var dest := Destination(r, files);
                  && s.r.state.Completed? && r.temp in files && dest in s.files && s.files[dest] == files[r.temp]
                  && (complete ==> sha(s.files[dest]) == r.meta.sha256)
                  && s.files - {dest} == files - {dest, r.temp})
            && (s.verdict == Returned(false) ==>
                  s.r.state.Failed? && sha(s.r.hasher) != r.meta.sha256 && s.files - {r.temp} == files - {r.temp})
  {
    RelatedFinalise(sha, r, files, Call(OpFinalise, os), complete);
  }

  /** When finalise returns True, when False, and the disk it leaves. */
  lemma FinaliseDecides(sha: Hash, r: Receiver, files: Files, os: Os)
    ensures var s := Finalise(sha, r, files, os);
            && (s.verdict == Returned(true) <==>
                  && (r.state.Transferring? || r.state.Resuming?) && (r.isOpen ==> os.flushOk)
                  && sha(r.hasher) == r.meta.sha256 && r.tempSet && r.finalSet && os.renameOk && r.temp in files)
            && (s.verdict == Returned(false) <==>
                  !Terminal(r.state) && (r.isOpen ==> os.flushOk) && sha(r.hasher) != r.meta.sha256)
            && (s.verdict == Returned(true) && r.final !in files ==>
                  s.files == (files - {r.temp})[r.final := files[r.temp]])
            && (s.verdict == Returned(true) && r.final in files ==>
                  s.files == (files - {r.temp})[r.alternative := files[r.temp]])
            && (sha(r.hasher) != r.meta.sha256 && (r.isOpen ==> os.flushOk) ==>
                  s.files == if r.tempSet && os.unlinkOk then files - {r.temp} else files)
            && ((r.isOpen && !os.flushOk) || (sha(r.hasher) == r.meta.sha256 && !Publishes(sha, r, files, os)) ==>
                  s.verdict.Raised? && s.files == files)
            && (s.verdict.Raised? ==> s.r.state == r.state && s.r.hasher == r.hasher)
            && (s.verdict.Returned? ==> !s.r.isOpen)
  {
  }

  lemma RetainPromises(r: Receiver, files: Files, n: nat, os: Os)
    requires n > 0 ==> r.temp in files && n == |files[r.temp]|
    ensures var s := Retain(r, files, n, os);
            && s.files - {r.temp} == files - {r.temp} && s.r.hasher == r.hasher
            && (r.temp in files ==> r.temp in s.files && s.files[r.temp] <= files[r.temp])
            && (r.temp in files && n == |files[r.temp]| ==>
                  && s.r.bytesReceived == |s.files[r.temp]|
                  && (os.truncateOk && r.meta.chunkSize > 0 ==> |s.files[r.temp]| % r.meta.chunkSize == 0))
  {
  }

  lemma InterruptPromises(r: Receiver, files: Files, os: Os, complete: bool)
    requires Related(r, files, complete)
    ensures var s := Interrupt(r, files, os);
            && Related(s.r, s.files, complete) && s.files - {r.temp} == files - {r.temp} && s.r.hasher == r.hasher
            && (r.state.Transferring? && s.r.state.Interrupted? && r.temp in files ==>
                  && r.temp in s.files && s.files[r.temp] <= files[r.temp]
                  && (os.statOk ==> s.r.bytesReceived == |s.files[r.temp]|)
                  && (os.statOk && os.truncateOk && r.meta.chunkSize > 0 ==>
                        |s.files[r.temp]| % r.meta.chunkSize == 0))
            && (r.state.Resuming? ==> s.r.state.Failed?)
  {
    RelatedInterrupt(r, files, os, complete);
    if r.state.Transferring? || r.state.Accepted? {
      var files1 := AfterClose(r, files, os);
      RetainPromises(r.(isOpen := false), files1, OnDisk(r, files1, os), os);
    }
  }

  /** How many bytes of the part file reach the disk when an interrupt closes it. */
  function Flushed(r: Receiver, files: Files, os: Os): nat {
    var n := |Content(files, r.temp)|;
    if r.isOpen && !os.flushOk then Min(os.survives, n) else n
  }

  /** Which transfers an interrupt keeps for a resume, which it fails, and which it leaves alone. */
  lemma InterruptDecides(r: Receiver, files: Files, os: Os)
    ensures var s := Interrupt(r, files, os);
            var onDisk := if r.tempSet && os.statOk then Flushed(r, files, os) else 0;
            && (r.state.Interrupted? || Terminal(r.state) ==> s.r == r && s.files == files)
            && (r.state.Transferring? ==>
                  s.r.state == if r.meta.fileSize > 0 && (onDisk > 0 || r.bytesReceived > 0)
                               then TransferState.Interrupted else Failed)
            && (r.state.Transferring? && s.r.state.Interrupted? ==> s.verdict == Done && !s.r.isOpen)
            && (r.state.Accepted? ==>
                  if r.meta.fileSize > 0 && (onDisk > 0 || r.bytesReceived > 0)
                  then s.r.state == r.state && s.verdict == Raised(BadState) else s.r.state.Failed?)
            && (!r.state.Transferring? && !r.state.Accepted? && !r.state.Interrupted? && !Terminal(r.state) ==>
                  s.r.state.Failed? && s.files == files)
  {
  }

  /** What is left of the part file: what reached the disk, and if it could be examined and truncated the whole
      chunks of that, with the counters to match. */
  lemma InterruptCuts(r: Receiver, files: Files, os: Os)
    requires r.state.Transferring? && r.tempSet && r.temp in files && r.meta.chunkSize > 0
    requires Interrupt(r, files, os).r.state.Interrupted?
    ensures var s := Interrupt(r, files, os);
            var flushed := Flushed(r, files, os);
            r.temp in s.files && s.files[r.temp] <= files[r.temp]
            && var part := s.files[r.temp];
            && (os.statOk && os.truncateOk ==>
                  && |part| % r.meta.chunkSize == 0 && |part| <= flushed < |part| + r.meta.chunkSize
                  && s.r.nextSeq == |part| / r.meta.chunkSize)
            && (!os.statOk || !os.truncateOk ==> |part| == flushed)
            && s.r.bytesReceived == if os.statOk then |part| else 0
  {
    var n := Flushed(r, files, os);
    var floor := ChunkFloor(n, r.meta.chunkSize);
    assert files[r.temp][..n][..floor] == files[r.temp][..floor];
    assert files[r.temp][..|files[r.temp]|] == files[r.temp];
    FloorIsWhole(n, r.meta.chunkSize);
  }

  /** A resume request can be made for exactly these transfers. */
  lemma PrepareDecides(sha: Hash, r: Receiver, files: Files, expectedBytes: Option<nat>, expectedIndex: Option<nat>)
    ensures var (s, p) := PrepareResume(sha, r, files, expectedBytes, expectedIndex);
            var n := |Content(files, r.temp)|;
            && (p.Payload? <==>
                  && r.state.Interrupted? && r.tempSet && 0 < n <= r.meta.fileSize && n <= MAX_FILE_SIZE
                  && r.meta.chunkSize == CHUNK_SIZE && n % CHUNK_SIZE == 0 && LowerHex64(sha(files[r.temp]))
                  && expectedBytes in {None, Some(n)} && expectedIndex in {None, Some(n / CHUNK_SIZE)})
            && (p.Payload? ==>
                  && p.payload == ResumePayload(r.meta.id, n, n / CHUNK_SIZE, sha(files[r.temp]))
                  && s == r.(bytesReceived := n, nextSeq := n / CHUNK_SIZE))
  {
    var n := |Content(files, r.temp)|;
    if n > 0 && r.meta.chunkSize > 0 && n % r.meta.chunkSize == 0 {
      WholeChunks(n, r.meta.chunkSize);
    }
  }

  lemma WholeChunks(n: nat, chunkSize: nat)
    requires n > 0 && chunkSize > 0 && n % chunkSize == 0
    ensures n / chunkSize > 0 && (n == n / chunkSize * CHUNK_SIZE <==> chunkSize == CHUNK_SIZE)
  {
    var q := n / chunkSize;
    assert n == q * chunkSize;
    if chunkSize < CHUNK_SIZE {
      Monotone(q, chunkSize, CHUNK_SIZE);
    } else if chunkSize > CHUNK_SIZE {
      Monotone(q, CHUNK_SIZE, chunkSize);
    }
  }

  lemma Monotone(k: nat, a: nat, b: nat)
    requires k > 0 && a < b
    ensures k * a < k * b
  {
  }

  lemma ResumePromises(sha: Hash, r: Receiver, files: Files, chunkIndex: nat, os: Os, complete: bool)
    requires Related(r, files, complete)
    ensures var s := Resume(r, files, chunkIndex, os);
            && Related(s.r, files, complete && (s.verdict != Done || os.rereadOk))
            && (s.verdict == Done ==>
                  && s.r.state.Resuming? && r.temp in files && s.r.bytesReceived == |files[r.temp]|
                  && s.r.nextSeq == chunkIndex && (os.rereadOk ==> s.r.hasher == files[r.temp]))
            && (s.verdict == Done <==>
                  (r.state.Interrupted? || r.state.ResumeRequested?) && r.tempSet && r.temp in files && os.openOk)
            && (s.verdict != Done ==>
                  s.r == r.(state := if r.state.Interrupted? || r.state.ResumeRequested? then Failed else r.state))
  {
    if complete && os.rereadOk {
      RelatedResume(sha, r, files, Call(OpResume(chunkIndex), os), true);
    } else {
      RelatedWeaken(r, files, complete, false);
      RelatedResume(sha, r, files, Call(OpResume(chunkIndex), os), false);
    }
  }

  /** The relation holds after every run of calls, whatever the peer sends and whatever fails. */
  lemma {:induction false} RelatedRun(sha: Hash, meta: Metadata, temp: Path, final: Path, alternative: Path,
                                      files: Files, calls: seq<Call>)
    ensures var (r, files1) := Run(sha, Fresh(meta, temp, final, alternative), files, calls);
            && Related(r, files1, RereadsComplete(calls))
            && SameTransfer(Fresh(meta, temp, final, alternative), r)
  {
    if calls != [] {
      var before := calls[..|calls| - 1];
      RelatedRun(sha, meta, temp, final, alternative, files, before);
      var (r, files1) := Run(sha, Fresh(meta, temp, final, alternative), files, before);
      assert RereadsComplete(calls) ==> RereadsComplete(before);
      RelatedWeaken(r, files1, RereadsComplete(before), RereadsComplete(calls));
      RelatedStep(sha, r, files1, calls[|calls| - 1], RereadsComplete(calls));
    }
  }

  lemma RelatedWeaken(r: Receiver, files: Files, strong: bool, weak: bool)
    requires Related(r, files, strong) && (weak ==> strong)
    ensures Related(r, files, weak)
  {
  }

  /** Main safety result. After any run of calls with complete re-reads, finalise returns True only when
      the published file has the announced hash (and so is the announced file, if that is no collision);
      nothing else on disk changes, and an existing file is overwritten only when both names were taken. */
  lemma FinaliseIsSafe(sha: Hash, meta: Metadata, temp: Path, final: Path, alternative: Path,
                       files: Files, calls: seq<Call>, os: Os, source: Bytes)
    requires RereadsComplete(calls)
    ensures var (r, files1) := Run(sha, Fresh(meta, temp, final, alternative), files, calls);
            var s := Finalise(sha, r, files1, os);
            s.verdict == Returned(true) ==>
              var dest := Destination(r, files1);
              && (r.state.Transferring? || r.state.Resuming?) && s.r.state.Completed?
              && dest in s.files && r.temp in files1 && s.files[dest] == r.hasher == files1[r.temp]
              && sha(s.files[dest]) == meta.sha256
              && (meta.sha256 == sha(source) && NoCollision(sha, s.files[dest], source) ==> s.files[dest] == source)
              && s.files - {dest} == files1 - {dest, temp}
              && (dest in files1 <==> final in files1 && alternative in files1)
  {
    RelatedRun(sha, meta, temp, final, alternative, files, calls);
  }

  /** Exactly when a published file carries the hashed bytes. finalise renames whenever the running hash
      matches, also in INTERRUPTED, where it then raises; and a resume whose re-read failed leaves a hash that
      skipped bytes. In all those cases the published file is what was hashed if and only if its length is the
      number of bytes hashed. */
  lemma PublishedIffLengthsAgree(sha: Hash, meta: Metadata, temp: Path, final: Path, alternative: Path,
                                 files: Files, calls: seq<Call>, os: Os)
    ensures var (r, files1) := Run(sha, Fresh(meta, temp, final, alternative), files, calls);
            Publishes(sha, r, files1, os) && (r.state.Transferring? || r.state.Resuming? || r.state.Interrupted?) ==>
              var s := Finalise(sha, r, files1, os);
              var published := s.files[Destination(r, files1)];
              && sha(r.hasher) == meta.sha256
              && (published == r.hasher <==> |files1[r.temp]| == |r.hasher|)
              && (r.state.Transferring? ==> published == r.hasher)
              && (s.verdict == Returned(true) <==> !r.state.Interrupted?)
  {
    RelatedRun(sha, meta, temp, final, alternative, files, calls);
    var (r, files1) := Run(sha, Fresh(meta, temp, final, alternative), files, calls);
    if Publishes(sha, r, files1, os) && (r.state.Transferring? || r.state.Resuming? || r.state.Interrupted?) {
      RenamePublishesThePart(sha, r, files1, os);
      if r.state.Resuming? {
        SkippedNothing(files1[r.temp], r.hasher);
      }
    }
  }

  lemma SkippedNothing(part: Bytes, hasher: Bytes)
    requires Skipped(part, hasher)
    ensures |part| == |hasher| ==> part == hasher
  {
    var k: nat :| SkippedAt(part, hasher, k);
    if |part| == |hasher| {
      assert part == part[..k] + part[k..] && hasher == hasher[..k] + hasher[k..];
    }
  }

  lemma RenamePublishesThePart(sha: Hash, r: Receiver, files: Files, os: Os)
    requires Publishes(sha, r, files, os) && (r.state.Transferring? || r.state.Resuming? || r.state.Interrupted?)
    ensures var s := Finalise(sha, r, files, os);
            && Destination(r, files) in s.files && s.files[Destination(r, files)] == files[r.temp]
            && (s.verdict == Returned(true) <==> !r.state.Interrupted?)
  {
  }

  /** In terms a caller can look up: if the metadata describes a source that does not collide with what was hashed,
      the published file is that source exactly if the .part file has the announced size. */
  lemma PublishedIffSizeMatches(sha: Hash, meta: Metadata, temp: Path, final: Path, alternative: Path,
                                files: Files, calls: seq<Call>, os: Os, source: Bytes)
    requires meta.sha256 == sha(source) && meta.fileSize == |source|
    ensures var (r, files1) := Run(sha, Fresh(meta, temp, final, alternative), files, calls);
            && Publishes(sha, r, files1, os) && (r.state.Transferring? || r.state.Resuming? || r.state.Interrupted?)
            && NoCollision(sha, r.hasher, source) ==>
              (Finalise(sha, r, files1, os).files[Destination(r, files1)] == source <==>
               |files1[r.temp]| == meta.fileSize)
  {
    PublishedIffLengthsAgree(sha, meta, temp, final, alternative, files, calls, os);
  }

  /** What an interrupt takes away: bytes that a failed flush lost, or an incomplete last chunk. */
  predicate CutsNothing(r: Receiver, files: Files, os: Os)
    requires r.temp in files && r.meta.chunkSize > 0
  {
    && (!r.isOpen || os.flushOk || os.survives >= |files[r.temp]|)
    && (!os.statOk || !os.truncateOk || |files[r.temp]| % r.meta.chunkSize == 0)
  }

  /** finalise right after an interrupt publishes what was received if and only if the interrupt cut nothing. */
  lemma InterruptedPublishesIffNothingCut(sha: Hash, r: Receiver, files: Files, os: Os, later: Os, complete: bool)
    requires Related(r, files, complete) && r.state.Transferring? && r.temp in files && r.meta.chunkSize > 0
    requires var i := Interrupt(r, files, os);
             i.r.state.Interrupted? && Publishes(sha, i.r, i.files, later)
    ensures var i := Interrupt(r, files, os);
            var f := Finalise(sha, i.r, i.files, later);
            && f.verdict == Raised(BadState)
            && (f.files[Destination(i.r, i.files)] == files[r.temp] <==> CutsNothing(r, files, os))
  {
    var i := Interrupt(r, files, os);
    RenamePublishesThePart(sha, i.r, i.files, later);
    var kept := AfterClose(r, files, os)[r.temp];
    CutLength(kept, r.meta.chunkSize, os);
    assert kept <= files[r.temp];
    assert i.files[r.temp] == if os.statOk && os.truncateOk then kept[..ChunkFloor(|kept|, r.meta.chunkSize)] else kept;
  }

  lemma CutLength(kept: Bytes, chunkSize: nat, os: Os)
    requires chunkSize > 0
    ensures kept[..ChunkFloor(|kept|, chunkSize)] == kept <==> |kept| % chunkSize == 0
  {
    FloorIsWhole(|kept|, chunkSize);
  }

  lemma FloorIsWhole(n: nat, chunkSize: nat)
    requires chunkSize > 0
    ensures ChunkFloor(n, chunkSize) == n <==> n % chunkSize == 0
  {
    assert n == n / chunkSize * chunkSize + n % chunkSize;
  }

  const ALL_OK := Os(true, true, true, true, true, 0, true, true, true, 0, true, true)

  /** Three bytes received in chunks of two. */
  function ThreeBytes(sha: Hash, id: TransferId): (s: Step)
    ensures s.r.state.Transferring? && s.r.isOpen && s.r.hasher == [1, 2, 3] && s.r.meta.sha256 == sha([1, 2, 3])
    ensures s.r.tempSet && s.r.finalSet && s.r.temp == "t" && s.r.final == "f"
    ensures s.files == map["t" := [1, 2, 3]] && s.r.meta.fileSize == 3 && s.r.meta.chunkSize == 2
  {
    var s0 := Begin(Fresh(Metadata(id, 3, 2, 2, sha([1, 2, 3])), "t", "f", "a"), map[], ALL_OK);
    var s1 := ReceiveChunk(s0.r, s0.files, ChunkFrame(id, 0, [1, 2]), ALL_OK);
    ReceiveChunk(s1.r, s1.files, ChunkFrame(id, 1, [3]), ALL_OK)
  }

  /** The failing family is real: three bytes received in chunks of two, an interrupt that cuts the last one,
      then finalise. The hash still matches, so two of the three bytes are published, and the call raises. */
  lemma InterruptedFinalisePublishesAStub(sha: Hash, id: TransferId)
    ensures var s := ThreeBytes(sha, id);
            var i := Interrupt(s.r, s.files, ALL_OK);
            var f := Finalise(sha, i.r, i.files, ALL_OK);
            && i.r.state.Interrupted? && f.verdict == Raised(BadState)
            && "f" in f.files && f.files["f"] == [1, 2]
  {
    var s := ThreeBytes(sha, id);
    var i := Interrupt(s.r, s.files, ALL_OK);
    assert i.files["t"] == [1, 2];
  }

  /** Every call except cancel moves the state inside the transition table, in at most two moves, and leaves
      COMPLETED, FAILED and CANCELLED alone; cancel always ends in CANCELLED. */
  lemma StatesFollowTheTable(sha: Hash, r: Receiver, files: Files, call: Call)
    ensures var s := Apply(sha, r, files, call);
            && (!call.op.OpCancel? ==> Follows(r.state, s.r.state))
            && (!call.op.OpCancel? && Terminal(r.state) ==> s.r.state == r.state)
            && (call.op.OpCancel? ==> s.r.state.Cancelled?)
  {
    match call.op
    case OpBegin => TwoMoves(sha, r, files, call);
    case OpResume(_) => TwoMoves(sha, r, files, call);
    case OpInterrupt => InterruptMoves(r, files, call.os);
    case _ =>
  }

  lemma TwoMoves(sha: Hash, r: Receiver, files: Files, call: Call)
    requires call.op.OpBegin? || call.op.OpResume?
    ensures var s := Apply(sha, r, files, call);
            Follows(r.state, s.r.state) && (Terminal(r.state) ==> s.r.state == r.state)
  {
    assert InTable(r.state, Accepted) ==> InTable(Accepted, Failed) && InTable(Accepted, Transferring);
    assert InTable(Interrupted, ResumeRequested) && InTable(ResumeRequested, Failed) && InTable(ResumeRequested, Resuming);
  }

  lemma InterruptMoves(r: Receiver, files: Files, os: Os)
    ensures var s := Interrupt(r, files, os);
            Follows(r.state, s.r.state) && (Terminal(r.state) ==> s.r.state == r.state)
  {
  }
}

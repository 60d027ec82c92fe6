/** Android to Android: any number of interrupt and resume cycles over one transfer, with short reads, the records
    that both phones keep between sessions, and the 32-bit narrowing of the resume offset. */
module AndroidResume {
  import opened Bytes
  import opened ChunkCodec
  import opened Transfers
  import opened AndroidReceiver
  import opened AndroidSender

  /** What the receiver's InterruptedRecord remembers. */
  datatype Record = Record(bytesReceived: nat, chunkIndex: int)

  datatype Request = Request(chunkIndex: int, offset: nat, partialSha: string)

  datatype Reason = TransferNotFound | PartialCorrupt

  datatype Answer = Accept(chunkIndex: int) | Reject(reason: Reason)

  /** computePrefixSha256FromUri: nothing if the content cannot be opened or read, or ends too early; the loop does
      nothing for a length that is not positive. */
  function PrefixSha(sha: Hash, source: Bytes, readable: bool, length: int): Option<string> {
    if !readable then None
    else if length <= 0 then Some(sha([]))
    else if length > |source| then None
    else Some(sha(source[..length]))
  }

  /** onResumeRequest, up to its answer. `saved` says that the sender's store holds an unexpired record with a content
      URI, `readable` that the URI can still be read. The offset arrives narrowed to an Int. */
  function OnResumeRequest(sha: Hash, source: Bytes, saved: bool, readable: bool, q: Request): Answer {
    if !saved then Reject(TransferNotFound)
    else if PrefixSha(sha, source, readable, ToInt(q.offset)) == Some(q.partialSha) then Accept(q.chunkIndex)
    else Reject(PartialCorrupt)
  }

  /** How streamChunksFromStream leaves sendFile. It returns false only when it saw the cancel flag set; the flags are
      then looked at again, and another sendFile may have reset them. A broken socket throws past all of it. */
  datatype SendEnd = Threw | StreamedAll | SawCancel(cancelled: bool, byPeer: bool, bytesSent: nat, peerKnown: bool)

  /** Whether sendFile saves a record to resume from. */
  predicate SavesRecord(end: SendEnd) {
    end.SawCancel? && !end.cancelled && !end.byPeer && end.bytesSent > 0 && end.peerKnown
  }

  /** One transfer as both phones see it. */
  datatype World = World(
    r: Receiver, files: Files,
    record: Option<Record>,      // what the receiver's store remembers
    waiting: bool,               // requestResume has rebuilt r and waits for an answer
    asked: Option<Request>,      // a request the sender has not handled
    answer: Option<Answer>,      // an answer the waiting receiver has not read
    sending: bool,               // the sender is still in sendFile
    saved: bool,                 // the sender's store has a record with a content URI
    serving: nat,                // coroutines that accepted a request and have not ended
    streaming: bool, sent: nat, seqNo: int,   // a sender that streams stands at byte `sent` with number seqNo
    skipFrom: nat, skipTo: nat)  // what a failed re-read left out of the digest

  datatype Action =
    | Start(os: Os)
    | Send(size: nat, os: Os)              // one read of the sender's stream, as short as it likes, and its chunk
    | SendFileEnds(end: SendEnd)
    | Drop(peerKnown: bool)                // the session ends at the receiver
    | Ask(os: Os, requestSent: bool)       // requestResume
    | Decide(readable: bool, acceptSent: bool, skipOk: bool)   // onResumeRequest
    | Hear(os: Os)                         // the answer arrives
    | GivesUp                              // 120 seconds without an answer
    | ServingEnds                          // the finally block of onResumeRequest
    | SenderForgets | ReceiverForgets      // a record expires
    | Discard                              // discardInterrupted, which the screen offers for a listed record

  function NextFrame(source: Bytes, w: World, size: nat): ChunkFrame
    requires w.sent <= |source|
  {
    ChunkFrame(w.r.meta.id, w.seqNo, source[w.sent..Min(w.sent + Min(size, w.r.meta.chunkSize), |source|)])
  }

  /** The receiver is thrown away with its .part file. */
  function CancelReceiver(w: World, r: Receiver, files: Files): World {
    var c := Cancel(r, files);
    w.(r := c.r, files := c.files, waiting := false, answer := None)
  }

  /** The final block of the receiver's session loop: a receiver that only waited is not eligible. */
  function DropSession(w: World, peerKnown: bool): World {
    var v := w.(streaming := false, answer := None);
    if w.waiting then CancelReceiver(v, w.r, w.files)
    else if !Receiving(w.r) then v
    else if !peerKnown then CancelReceiver(v, Interrupt(w.r, w.files).r, w.files)
    else
      v.(r := Interrupt(w.r, w.files).r,
         record := Some(Record(w.r.bytesReceived, ToInt(w.r.bytesReceived / Max1(w.r.meta.chunkSize)))))
  }

  /** requestResume: a new receiver is begun over the .part file and interrupted at once. */
  function AskToResume(sha: Hash, w: World, os: Os, requestSent: bool): World {
    if w.record.None? || w.waiting || Receiving(w.r) then w
    else if w.r.temp !in w.files then w.(record := None)
    else
      var begun := Begin(Fresh(w.r.meta, w.r.temp, w.r.final, w.r.alternative), w.files, os);
      var r1 := Interrupt(begun.r, begun.files).r;
      if !requestSent then CancelReceiver(w, r1, begun.files)
      else
        var q := Request(w.record.value.chunkIndex, w.record.value.bytesReceived, sha(w.files[w.r.temp]));
        w.(r := r1, files := begun.files, waiting := true, asked := Some(q), answer := None)
  }

  /** onResumeRequest: a receiver that no longer waits reads neither the answer nor the chunks. */
  function DecideRequest(sha: Hash, source: Bytes, w: World, readable: bool, acceptSent: bool, skipOk: bool): World {
    if w.asked.None? then w
    else
      var v := w.(asked := None);
      var a := OnResumeRequest(sha, source, w.saved, readable, w.asked.value);
      if a.Reject? then v.(answer := if w.waiting then Some(a) else None)
      else if !acceptSent then v
      else if !w.waiting then v.(serving := w.serving + 1)
      else
        var seek := ToInt(w.asked.value.offset);
        var ok := skipOk && 0 <= seek <= |source|;
        v.(serving := w.serving + 1, answer := Some(a),
           streaming := ok, sent := if ok then seek else w.sent, seqNo := a.chunkIndex)
  }

  /** TRANSFER_RESUME_ACCEPT with a receiver in place; whatever resume throws ends the transfer. */
  function OnAccept(w: World, index: int, os: Os): World {
    var s := Resume(w.r, w.files, index, os);
    if !s.verdict.Done? then CancelReceiver(w, s.r, s.files)
    else
      var part := Content(w.files, w.r.temp);
      w.(r := s.r, record := None, waiting := false, answer := None,
         skipFrom := if os.rereadOk then 0 else Min(os.reread, |part|), skipTo := if os.rereadOk then 0 else |part|)
  }

  function HearAnswer(w: World, os: Os): World {
    if !w.waiting || w.answer.None? then w
    else
      match w.answer.value
      case Reject(_) => CancelReceiver(w, w.r, w.files).(record := None)
      case Accept(index) => OnAccept(w, index, os)
  }

  function Act(sha: Hash, source: Bytes, w: World, a: Action): World
    requires w.sent <= |source|
  {
    match a
    case Start(os) =>
      var s := Begin(w.r, w.files, os);
      if s.verdict.Done? then w.(r := s.r, files := s.files, streaming := w.sending, sent := 0, seqNo := 0)
      else w.(r := s.r)
    case Send(size, os) =>
      if !w.streaming || !Receiving(w.r) then w
      else
        var c := NextFrame(source, w, size);
        var s := ReceiveChunk(w.r, w.files, c, os);
        if !s.verdict.Done? then CancelReceiver(w, s.r, s.files)
        else w.(r := s.r, files := s.files, sent := w.sent + |c.data|, seqNo := Increment(w.seqNo))
    case SendFileEnds(end) =>
      if !w.sending then w else w.(sending := false, streaming := false, saved := SavesRecord(end))
    case Drop(peerKnown) => DropSession(w, peerKnown)
    case Ask(os, requestSent) => AskToResume(sha, w, os, requestSent)
    case Decide(readable, acceptSent, skipOk) => DecideRequest(sha, source, w, readable, acceptSent, skipOk)
    case Hear(os) => HearAnswer(w, os)
    case GivesUp => if w.waiting then CancelReceiver(w, w.r, w.files) else w
    case ServingEnds =>
      if w.serving == 0 then w
      else w.(serving := w.serving - 1, saved := false, streaming := w.streaming && w.serving > 1)
    case SenderForgets => w.(saved := false)
    case ReceiverForgets => w.(record := None)
    case Discard => if w.record.None? then w else w.(files := Unlink(w.files, w.r.temp), record := None)
  }

  function Max1(n: nat): (m: nat)
    ensures m > 0
  {
    if n == 0 then 1 else n
  }

  ghost predicate Describes(sha: Hash, meta: Metadata, source: Bytes) {
    meta.Valid() && meta.fileSize == |source| && meta.sha256 == sha(source)
  }

  ghost predicate PartIs(w: World, source: Bytes, length: nat) {
    length <= |source| && w.r.temp in w.files && w.files[w.r.temp] == source[..length]
  }

  /** No two prefixes of the source collide. */
  ghost predicate DistinctPrefixes(sha: Hash, source: Bytes) {
    forall i, j :: 0 <= i <= |source| && 0 <= j <= |source| && sha(source[..i]) == sha(source[..j]) ==> i == j
  }

  /** The receiver has taken in the first bytes of the source, and a sender that streams stands right behind them. */
  ghost predicate InStep(source: Bytes, w: World) {
    && PartIs(w, source, w.r.bytesReceived)
    && w.skipFrom <= w.skipTo <= w.r.bytesReceived
    && w.r.digest == source[..w.skipFrom] + source[w.skipTo..w.r.bytesReceived]
    && (w.streaming ==> w.sent == w.r.bytesReceived && w.seqNo == w.r.nextSeq)
    && w.record.None? && !w.waiting
  }

  /** The request names the length and the hash of the .part file, and an accepting sender stands at its end. */
  ghost predicate Asking(sha: Hash, source: Bytes, w: World) {
    && (w.r.state.Interrupted? || w.r.state.Failed?)
    && (w.r.temp in w.files ==>
          && w.files[w.r.temp] <= source
          && (w.asked.Some? ==> w.asked.value.offset == |w.files[w.r.temp]|
                                && w.asked.value.partialSha == sha(w.files[w.r.temp]))
          && (w.answer.Some? && w.answer.value.Accept? && w.streaming ==>
                w.sent == |w.files[w.r.temp]| && w.seqNo == w.answer.value.chunkIndex)
          && (w.asked.Some? || (w.answer.Some? && w.answer.value.Reject?) ==> !w.streaming))
  }

  /** Both sides are in step at all times. */
  ghost predicate Honest(sha: Hash, source: Bytes, w: World) {
    && Describes(sha, w.r.meta, source)
    && w.sent <= |source|
    && (w.r.state.Idle? ==> Content(w.files, w.r.temp) == []
                            && w.r == Fresh(w.r.meta, w.r.temp, w.r.final, w.r.alternative)
                            && w.record.None? && w.skipFrom == 0 && w.skipTo == 0)
    && (Receiving(w.r) ==> InStep(source, w))
    && (w.r.state.Transferring? ==> w.skipFrom == w.skipTo)
    && (w.waiting ==> Asking(sha, source, w))
    && (w.record.Some? && w.r.temp in w.files ==>
          PartIs(w, source, w.record.value.bytesReceived) && (w.waiting || !w.streaming))
    && (w.sending ==> !w.saved && w.serving == 0)
    && (w.streaming ==> w.sending || w.serving > 0)
  }

  /** A request for an honest .part file is accepted if and only if the sender has a record, can still read the file
      behind it, and the length fits a 32-bit Int; then the sender seeks to exactly the end of the .part file. A
      larger offset is narrowed and refused, never obeyed. */
  lemma AcceptedIffReadableAndFits(sha: Hash, source: Bytes, saved: bool, readable: bool, part: Bytes, index: int)
    requires part <= source && DistinctPrefixes(sha, source)
    ensures OnResumeRequest(sha, source, saved, readable, Request(index, |part|, sha(part))) ==
            if !saved then Reject(TransferNotFound)
            else if readable && |part| < TWO_TO_THE_32 / 2 then Accept(index)
            else Reject(PartialCorrupt)
    ensures |part| < TWO_TO_THE_32 / 2 ==> ToInt(|part|) == |part|
  {
    assert part == source[..|part|];
    assert source[..0] == [];
    var n := ToInt(|part|);
    if |part| >= TWO_TO_THE_32 / 2 {
      assert n != |part|;
      assert 0 <= n <= |source| ==> sha(source[..n]) != sha(part);
      assert sha(source[..0]) != sha(part);
    }
  }

  // ----- every step keeps the two sides in step -----

  lemma HonestStart(sha: Hash, source: Bytes, w: World, os: Os)
    requires Honest(sha, source, w)
    ensures Honest(sha, source, Act(sha, source, w, Start(os)))
  {
    assert source[..0] == [] && source[0..0] == [];
  }

  lemma NextBytes(source: Bytes, from: nat, upTo: nat, k: nat)
    requires k <= from <= upTo <= |source|
    ensures source[..from] + source[from..upTo] == source[..upTo]
    ensures source[k..from] + source[from..upTo] == source[k..upTo]
  {
  }

  lemma HonestDigestGrows(source: Bytes, digest: Bytes, from: nat, k: nat, l: nat, upTo: nat)
    requires k <= l <= from <= upTo <= |source| && digest == source[..k] + source[l..from]
    ensures digest + source[from..upTo] == source[..k] + source[l..upTo]
  {
    NextBytes(source, from, upTo, l);
    assert digest + source[from..upTo] == source[..k] + (source[l..from] + source[from..upTo]);
  }

  lemma HonestAppend(sha: Hash, source: Bytes, w: World, size: nat, os: Os)
    requires Honest(sha, source, w) && w.streaming && Receiving(w.r) && os.writeOk
    ensures Honest(sha, source, Act(sha, source, w, Send(size, os)))
  {
    var upTo := w.sent + |NextFrame(source, w, size).data|;
    NextBytes(source, w.sent, upTo, w.skipTo);
    HonestDigestGrows(source, w.r.digest, w.sent, w.skipFrom, w.skipTo, upTo);
  }

  lemma HonestSend(sha: Hash, source: Bytes, w: World, size: nat, os: Os)
    requires Honest(sha, source, w)
    ensures Honest(sha, source, Act(sha, source, w, Send(size, os)))
  {
    if w.streaming && Receiving(w.r) {
      if os.writeOk {
        HonestAppend(sha, source, w, size, os);
      } else {
        assert !ReceiveChunk(w.r, w.files, NextFrame(source, w, size), os).verdict.Done?;
      }
    }
  }

  lemma HonestDrop(sha: Hash, source: Bytes, w: World, peerKnown: bool)
    requires Honest(sha, source, w)
    ensures Honest(sha, source, DropSession(w, peerKnown))
  {
  }

  lemma HonestAsk(sha: Hash, source: Bytes, w: World, os: Os, requestSent: bool)
    requires Honest(sha, source, w)
    ensures Honest(sha, source, AskToResume(sha, w, os, requestSent))
  {
    if w.record.Some? && w.r.temp in w.files {
      assert w.files[w.r.temp := Content(w.files, w.r.temp)] == w.files;
    }
  }

  lemma HonestAccept(sha: Hash, source: Bytes, w: World, readable: bool, skipOk: bool)
    requires Honest(sha, source, w) && DistinctPrefixes(sha, source)
    requires w.waiting && w.asked.Some? && OnResumeRequest(sha, source, w.saved, readable, w.asked.value).Accept?
    ensures Honest(sha, source, DecideRequest(sha, source, w, readable, true, skipOk))
  {
    if w.r.temp in w.files {
      AcceptedIffReadableAndFits(sha, source, w.saved, readable, w.files[w.r.temp], w.asked.value.chunkIndex);
    }
  }

  lemma HonestRefuse(sha: Hash, source: Bytes, w: World, readable: bool, acceptSent: bool, skipOk: bool)
    requires Honest(sha, source, w)
    requires !w.waiting || !acceptSent || w.asked.None?
             || OnResumeRequest(sha, source, w.saved, readable, w.asked.value).Reject?
    ensures Honest(sha, source, DecideRequest(sha, source, w, readable, acceptSent, skipOk))
  {
  }

  lemma HonestDecide(sha: Hash, source: Bytes, w: World, readable: bool, acceptSent: bool, skipOk: bool)
    requires Honest(sha, source, w) && DistinctPrefixes(sha, source)
    ensures Honest(sha, source, DecideRequest(sha, source, w, readable, acceptSent, skipOk))
  {
    if w.waiting && acceptSent && w.asked.Some?
       && OnResumeRequest(sha, source, w.saved, readable, w.asked.value).Accept? {
      HonestAccept(sha, source, w, readable, skipOk);
    } else {
      HonestRefuse(sha, source, w, readable, acceptSent, skipOk);
    }
  }

  lemma RereadDigest(source: Bytes, part: Bytes, os: Os)
    requires part <= source
    ensures var k := if os.rereadOk then 0 else Min(os.reread, |part|);
            var l := if os.rereadOk then 0 else |part|;
            (if os.rereadOk then part else part[..Min(os.reread, |part|)]) == source[..k] + source[l..|part|]
  {
    assert part == source[..|part|];
  }

  lemma HonestResumed(sha: Hash, source: Bytes, w: World, os: Os)
    requires Honest(sha, source, w) && w.waiting && w.answer.Some? && w.answer.value.Accept?
    requires w.r.temp in w.files && w.r.state.Interrupted?
    ensures Honest(sha, source, HearAnswer(w, os))
  {
    RereadDigest(source, w.files[w.r.temp], os);
  }

  lemma HonestHear(sha: Hash, source: Bytes, w: World, os: Os)
    requires Honest(sha, source, w)
    ensures Honest(sha, source, HearAnswer(w, os))
  {
    if w.waiting && w.answer.Some? && w.answer.value.Accept? && w.r.temp in w.files && w.r.state.Interrupted? {
      HonestResumed(sha, source, w, os);
    }
  }

  lemma HonestEnds(sha: Hash, source: Bytes, w: World, a: Action)
    requires Honest(sha, source, w) && (a.SendFileEnds? || a.ServingEnds? || a.SenderForgets? || a.ReceiverForgets?)
    ensures Honest(sha, source, Act(sha, source, w, a))
  {
  }

  lemma HonestGivesUp(sha: Hash, source: Bytes, w: World, a: Action)
    requires Honest(sha, source, w) && (a.GivesUp? || a.Discard?)
    ensures Honest(sha, source, Act(sha, source, w, a))
  {
  }

  lemma HonestStep(sha: Hash, source: Bytes, w: World, a: Action)
    requires Honest(sha, source, w) && DistinctPrefixes(sha, source)
    ensures Honest(sha, source, Act(sha, source, w, a))
  {
    match a
    case Start(os) => HonestStart(sha, source, w, os);
    case Send(size, os) => HonestSend(sha, source, w, size, os);
    case Drop(peerKnown) => HonestDrop(sha, source, w, peerKnown);
    case Ask(os, requestSent) => HonestAsk(sha, source, w, os, requestSent);
    case Decide(readable, acceptSent, skipOk) => HonestDecide(sha, source, w, readable, acceptSent, skipOk);
    case Hear(os) => HonestHear(sha, source, w, os);
    case GivesUp => HonestGivesUp(sha, source, w, a);
    case Discard => HonestGivesUp(sha, source, w, a);
    case _ => HonestEnds(sha, source, w, a);
  }

  function RunActions(sha: Hash, source: Bytes, w: World, actions: seq<Action>): (w': World)
    requires Honest(sha, source, w) && DistinctPrefixes(sha, source)
    ensures Honest(sha, source, w')
  {
    if actions == [] then w
    else
      var w1 := RunActions(sha, source, w, actions[..|actions| - 1]);
      HonestStep(sha, source, w1, actions[|actions| - 1]);
      Act(sha, source, w1, actions[|actions| - 1])
  }

  function Initial(meta: Metadata, temp: Path, final: Path, alternative: Path, files: Files): World {
    World(Fresh(meta, temp, final, alternative), files, None, false, None, None, true, false, 0, false, 0, 0, 0, 0)
  }

  /** In every run of sessions that drop, requests, late answers, expired records and short reads: the .part file is
      the first bytes of the source that the receiver has counted; a streaming sender stands at its end with the
      expected number, so no byte is skipped or sent twice; the digest covers exactly the file unless a re-read
      failed; and once everything is in, finalise publishes the source if and only if no re-read skipped bytes. */
  lemma ResumedDelivery(sha: Hash, source: Bytes, meta: Metadata, temp: Path, final: Path, alternative: Path,
                        files: Files, actions: seq<Action>, os: Os)
    requires Describes(sha, meta, source) && DistinctPrefixes(sha, source)
    requires Content(files, temp) == [] && os.renameOk
    ensures Honest(sha, source, Initial(meta, temp, final, alternative, files))
    ensures var w := RunActions(sha, source, Initial(meta, temp, final, alternative, files), actions);
            var f := Finalise(sha, w.r, w.files, os);
            Receiving(w.r) ==>
              && PartIs(w, source, w.r.bytesReceived)
              && (w.streaming ==> w.sent == w.r.bytesReceived && w.seqNo == w.r.nextSeq)
              && (w.skipFrom == w.skipTo ==> w.r.digest == w.files[w.r.temp])
              && (w.r.bytesReceived == |source| && NoCollision(sha, w.r.digest, source) ==>
                    (f.verdict == Returned(true) <==> w.skipFrom == w.skipTo))
              && (w.r.bytesReceived == |source| && w.skipFrom == w.skipTo ==>
                    f.verdict == Returned(true) && f.files[Destination(w.r, w.files)] == source)
  {
    var w := RunActions(sha, source, Initial(meta, temp, final, alternative, files), actions);
    if Receiving(w.r) {
      HonestDigest(sha, source, w);
      if w.r.bytesReceived == |source| {
        HonestFinalise(sha, source, w, os);
      }
    }
  }

  lemma HonestDigest(sha: Hash, source: Bytes, w: World)
    requires Honest(sha, source, w) && Receiving(w.r)
    ensures |w.r.digest| == w.r.bytesReceived - (w.skipTo - w.skipFrom)
    ensures w.skipFrom == w.skipTo ==> w.r.digest == w.files[w.r.temp]
  {
    var n := w.r.bytesReceived;
    if w.skipFrom == w.skipTo {
      assert source[..w.skipFrom] + source[w.skipTo..n] == source[..n];
    }
  }

  lemma HonestFinalise(sha: Hash, source: Bytes, w: World, os: Os)
    requires Honest(sha, source, w) && Receiving(w.r) && w.r.bytesReceived == |source| && os.renameOk
    ensures var f := Finalise(sha, w.r, w.files, os);
            && (NoCollision(sha, w.r.digest, source) ==> (f.verdict == Returned(true) <==> w.skipFrom == w.skipTo))
            && (w.skipFrom == w.skipTo ==>
                  f.verdict == Returned(true) && f.files[Destination(w.r, w.files)] == source)
  {
    HonestDigest(sha, source, w);
    assert source[..|source|] == source;
    if w.skipFrom == w.skipTo {
      WholeFileIsPublished(sha, source, w.r, w.files, os);
    }
  }

  // ----- how many resumes a sender allows -----

  predicate Accepting(sha: Hash, source: Bytes, w: World, a: Action) {
    a.Decide? && a.acceptSent && w.asked.Some?
    && OnResumeRequest(sha, source, w.saved, a.readable, w.asked.value).Accept?
  }

  function Resumes(sha: Hash, source: Bytes, w: World, actions: seq<Action>): nat
    requires Honest(sha, source, w) && DistinctPrefixes(sha, source)
  {
    if actions == [] then 0
    else
      var front, a := actions[..|actions| - 1], actions[|actions| - 1];
      Resumes(sha, source, w, front) + if Accepting(sha, source, RunActions(sha, source, w, front), a) then 1 else 0
  }

  lemma StepWithoutRecord(sha: Hash, source: Bytes, w: World, a: Action)
    requires w.sent <= |source| && !w.sending && !w.saved
    ensures !Accepting(sha, source, w, a)
    ensures !Act(sha, source, w, a).sending && !Act(sha, source, w, a).saved
  {
  }

  lemma {:induction false} NoRecordNoResume(sha: Hash, source: Bytes, w: World, actions: seq<Action>)
    requires Honest(sha, source, w) && DistinctPrefixes(sha, source) && !w.sending && !w.saved
    ensures Resumes(sha, source, w, actions) == 0
    ensures !RunActions(sha, source, w, actions).sending && !RunActions(sha, source, w, actions).saved
  {
    if actions != [] {
      NoRecordNoResume(sha, source, w, actions[..|actions| - 1]);
      StepWithoutRecord(sha, source, RunActions(sha, source, w, actions[..|actions| - 1]), actions[|actions| - 1]);
    }
  }

  /** A saved record serves until the first coroutine it started has ended: afterwards every request is refused. And
      sendFile saves one only if it saw a cancel that neither user made, after some bytes, with the peer known: if
      the socket broke, if it streamed to the end, or if a user cancelled, every request is refused. */
  lemma NoResumeAfterwards(sha: Hash, source: Bytes, w: World, end: SendEnd, after: seq<Action>)
    requires Honest(sha, source, w) && DistinctPrefixes(sha, source)
    ensures w.serving > 0 ==>
              var v := Act(sha, source, w, ServingEnds);
              Honest(sha, source, v) && Resumes(sha, source, v, after) == 0
    ensures w.sending ==>
              var v := Act(sha, source, w, SendFileEnds(end));
              && Honest(sha, source, v)
              && (v.saved <==> end.SawCancel? && !end.cancelled && !end.byPeer && end.bytesSent > 0 && end.peerKnown)
              && (!v.saved ==> Resumes(sha, source, v, after) == 0)
  {
    HonestStep(sha, source, w, ServingEnds);
    HonestStep(sha, source, w, SendFileEnds(end));
    if w.serving > 0 {
      NoRecordNoResume(sha, source, Act(sha, source, w, ServingEnds), after);
    }
    if w.sending && !SavesRecord(end) {
      NoRecordNoResume(sha, source, Act(sha, source, w, SendFileEnds(end)), after);
    }
  }

  /** The coroutine of an accepted request ends before the sender handles another one. */
  ghost predicate Prompt(sha: Hash, source: Bytes, w: World, actions: seq<Action>)
    requires Honest(sha, source, w) && DistinctPrefixes(sha, source)
  {
    forall i :: 0 <= i < |actions| && actions[i].Decide? ==> RunActions(sha, source, w, actions[..i]).serving == 0
  }

  /** Nothing was accepted and nothing is being served; or one was, and it is being served or the record is gone. */
  predicate Served(w: World, resumes: nat) {
    (resumes == 0 && w.serving == 0) || (resumes == 1 && !w.sending && (w.serving > 0 || !w.saved))
  }

  lemma StepServed(sha: Hash, source: Bytes, w: World, a: Action, resumes: nat)
    requires Honest(sha, source, w) && Served(w, resumes) && (a.Decide? ==> w.serving == 0)
    ensures Served(Act(sha, source, w, a), resumes + if Accepting(sha, source, w, a) then 1 else 0)
  {
  }

  /** So a transfer is resumed at most once, unless a request overtakes the end of the coroutine before it. */
  lemma {:induction false} AtMostOneResume(sha: Hash, source: Bytes, w: World, actions: seq<Action>)
    requires Honest(sha, source, w) && DistinctPrefixes(sha, source) && w.serving == 0
    requires Prompt(sha, source, w, actions)
    ensures Resumes(sha, source, w, actions) <= 1
    ensures Served(RunActions(sha, source, w, actions), Resumes(sha, source, w, actions))
  {
    if actions != [] {
      var front, a := actions[..|actions| - 1], actions[|actions| - 1];
      forall i | 0 <= i < |front| && front[i].Decide? ensures RunActions(sha, source, w, front[..i]).serving == 0 {
        assert front[..i] == actions[..i] && front[i] == actions[i];
      }
      AtMostOneResume(sha, source, w, front);
      StepServed(sha, source, RunActions(sha, source, w, front), a, Resumes(sha, source, w, front));
    }
  }

  /** Dropped after some bytes, with a record that the receiver can ask to resume from. */
  ghost predicate Dropped(source: Bytes, w: World, bytes: nat) {
    && w.r.state.Interrupted? && PartIs(w, source, bytes)
    && w.record.Some? && w.record.value.bytesReceived == bytes
    && !w.waiting && w.asked.None? && w.answer.None? && !w.sending
  }

  /** At any such moment, also while the coroutine of an earlier resume still runs: asking is accepted if and only if
      the sender has its record, can read the file, and fewer than 2^31 bytes have arrived. */
  lemma AskingIsAcceptedIffReadableAndFits(sha: Hash, source: Bytes, w: World, bytes: nat, os: Os, readable: bool,
                                           skipOk: bool)
    requires Honest(sha, source, w) && DistinctPrefixes(sha, source) && Dropped(source, w, bytes)
    ensures Accepting(sha, source, AskToResume(sha, w, os, true), Decide(readable, true, skipOk)) <==>
            w.saved && readable && bytes < TWO_TO_THE_32 / 2
  {
    AcceptedIffReadableAndFits(sha, source, w.saved, readable, w.files[w.r.temp], w.record.value.chunkIndex);
  }

  /** And otherwise it costs the transfer: for whatever reason the sender refuses, the receiver deletes the .part file
      and forgets the transfer. */
  lemma RefusalDeletesThePart(sha: Hash, source: Bytes, w: World, bytes: nat, os: Os, readable: bool, acceptSent: bool,
                              skipOk: bool)
    requires Honest(sha, source, w) && DistinctPrefixes(sha, source) && Dropped(source, w, bytes)
    requires !(w.saved && readable && bytes < TWO_TO_THE_32 / 2)
    ensures var w1 := AskToResume(sha, w, os, true);
            var w2 := DecideRequest(sha, source, w1, readable, acceptSent, skipOk);
            var w3 := HearAnswer(w2, os);
            && w2.answer == Some(Reject(if w.saved then PartialCorrupt else TransferNotFound))
            && w3.r.state.Cancelled? && w3.record.None? && w3.r.temp !in w3.files
  {
    AcceptedIffReadableAndFits(sha, source, w.saved, readable, w.files[w.r.temp], w.record.value.chunkIndex);
  }

  /** Two requests can be under way, since nothing keeps the user from asking twice. Then a second ACCEPT arrives for
      the receiver that the first one resumed, and that deletes the .part file too. */
  lemma SecondAcceptDeletesThePart(w: World, index: int, os: Os, again: int, os': Os)
    requires w.r.state.Interrupted? && w.r.temp in w.files
    ensures var w1 := OnAccept(w, index, os);
            var w2 := OnAccept(w1, again, os');
            && w1.r.state.Resuming? && w1.files == w.files
            && w2.r.state.Cancelled? && w2.r.temp !in w2.files
  {
  }

  /** What an accepted request leads to, wherever the transfer was dropped: the receiver resumes behind the whole part
      file, its record is used up, and a sender that could seek stands there too. */
  lemma ResumeContinues(sha: Hash, source: Bytes, w: World, bytes: nat, os: Os, skipOk: bool)
    requires Honest(sha, source, w) && DistinctPrefixes(sha, source) && Dropped(source, w, bytes)
    requires w.saved && bytes < TWO_TO_THE_32 / 2 && os.createOk
    ensures var w1 := AskToResume(sha, w, os, true);
            var w2 := DecideRequest(sha, source, w1, true, true, skipOk);
            var w3 := HearAnswer(w2, os);
            && w2.answer == Some(Accept(w.record.value.chunkIndex)) && w2.serving == w.serving + 1
            && w3.r.state.Resuming? && w3.record.None? && !w3.waiting
            && w3.r.temp in w3.files && |w3.files[w3.r.temp]| == bytes == w3.r.bytesReceived
            && w3.r.nextSeq == w.record.value.chunkIndex && w3.streaming == skipOk
            && (skipOk ==> w3.sent == bytes && w3.seqNo == w3.r.nextSeq)
            && (os.rereadOk ==> w3.skipFrom == w3.skipTo)
  {
    AcceptedIffReadableAndFits(sha, source, true, true, w.files[w.r.temp], w.record.value.chunkIndex);
  }

  /** If the ACCEPT is lost, or the session drops while the receiver waits, or it waits in vain, the part file goes;
      asking again then only forgets the record. */
  lemma WaitingInVain(sha: Hash, source: Bytes, w: World, bytes: nat, os: Os, readable: bool, skipOk: bool,
                      peerKnown: bool)
    requires Honest(sha, source, w) && DistinctPrefixes(sha, source) && Dropped(source, w, bytes)
    requires w.saved && readable && bytes < TWO_TO_THE_32 / 2
    ensures var w1 := AskToResume(sha, w, os, true);
            var w2 := DecideRequest(sha, source, w1, readable, false, skipOk);
            && w2.waiting && w2.answer.None? && w2.serving == w.serving
            && var w3 := Act(sha, source, w2, GivesUp);
            && w3 == DropSession(w2, peerKnown).(streaming := w3.streaming)
            && w3.r.state.Cancelled? && w3.r.temp !in w3.files && w3.record == w.record && !w3.waiting
            && AskToResume(sha, w3, os, true) == w3.(record := None)
    ensures var w1 := AskToResume(sha, w, os, false);
            w1.r.state.Cancelled? && w1.r.temp !in w1.files && !w1.waiting && w1.asked.None?
  {
    AcceptedIffReadableAndFits(sha, source, true, readable, w.files[w.r.temp], w.record.value.chunkIndex);
  }

  lemma WholeChunksIn(n: nat, chunkSize: nat)
    requires chunkSize > 0 && n / chunkSize < TWO_TO_THE_32 / 2
    ensures ToInt(n / chunkSize) * chunkSize <= n < ToInt(n / chunkSize) * chunkSize + chunkSize
  {
    assert n == n / chunkSize * chunkSize + n % chunkSize;
  }

  /** What a dropped session leaves behind: of a known peer the part file, with a record of its length and of the whole
      chunks in it (if their number fits); of an unknown one nothing. */
  lemma DropLeaves(sha: Hash, source: Bytes, w: World, peerKnown: bool)
    requires Honest(sha, source, w) && Receiving(w.r)
    ensures var v := DropSession(w, peerKnown);
            && !v.streaming && w.r.temp in w.files
            && (peerKnown ==>
                  && v.r.state.Interrupted? && v.files == w.files && v.record.Some?
                  && v.record.value.bytesReceived == |w.files[w.r.temp]|)
            && (!peerKnown ==>
                  v.r.state.Cancelled? && v.files == w.files - {w.r.temp} && v.record == w.record)
    ensures var v := DropSession(w, peerKnown);
            var cs := w.r.meta.chunkSize;
            peerKnown && w.r.bytesReceived / cs < TWO_TO_THE_32 / 2 ==>
              v.record.value.chunkIndex * cs <= w.r.bytesReceived < v.record.value.chunkIndex * cs + cs
  {
    if w.r.bytesReceived / w.r.meta.chunkSize < TWO_TO_THE_32 / 2 {
      WholeChunksIn(w.r.bytesReceived, w.r.meta.chunkSize);
    }
  }

  /** A session that drops while nothing is being received changes nothing at the receiver; and what is listed to be
      discarded is never being received, so discarding takes a part file that nobody writes to. */
  lemma BetweenSessions(sha: Hash, source: Bytes, w: World, peerKnown: bool)
    requires Honest(sha, source, w)
    ensures !Receiving(w.r) && !w.waiting ==> DropSession(w, peerKnown) == w.(streaming := false, answer := None)
    ensures w.record.Some? ==>
              !Receiving(w.r) && Act(sha, source, w, Discard) == w.(files := w.files - {w.r.temp}, record := None)
  {
  }

  /** A streaming sender's next chunk is always taken in, unless it cannot be written: then the transfer is over. */
  lemma SendAdvances(sha: Hash, source: Bytes, w: World, size: nat, os: Os)
    requires Honest(sha, source, w) && w.streaming && Receiving(w.r)
    ensures var v := Act(sha, source, w, Send(size, os));
            var n := Min(Min(size, w.r.meta.chunkSize), |source| - w.sent);
            if os.writeOk then
              && v.r.state == w.r.state && v.streaming && v.sent == w.sent + n
              && v.r.bytesReceived == w.r.bytesReceived + n
              && v.seqNo == if w.seqNo == 0x7FFF_FFFF then -0x8000_0000 else w.seqNo + 1
            else v.r.state.Cancelled? && v.files == w.files - {w.r.temp}
  {
  }

  lemma RunSnoc(sha: Hash, source: Bytes, w: World, actions: seq<Action>, a: Action)
    requires Honest(sha, source, w) && DistinctPrefixes(sha, source)
    ensures RunActions(sha, source, w, actions + [a]) == Act(sha, source, RunActions(sha, source, w, actions), a)
    ensures Resumes(sha, source, w, actions + [a]) == Resumes(sha, source, w, actions)
              + if Accepting(sha, source, RunActions(sha, source, w, actions), a) then 1 else 0
  {
    assert (actions + [a])[..|actions|] == actions;
  }

  const FINE := Os(true, true, true, 0, true)

  lemma FirstSession(sha: Hash, source: Bytes, y: World) returns (actions: seq<Action>, w: World)
    requires Honest(sha, source, y) && DistinctPrefixes(sha, source) && |source| >= 2
    requires y == Initial(y.r.meta, y.r.temp, y.r.final, y.r.alternative, map[])
    ensures w == RunActions(sha, source, y, actions) && Resumes(sha, source, y, actions) == 0
    ensures Dropped(source, w, 1) && w.saved && w.serving == 0
  {
    actions, w := [], y;
    actions, w := Extend(sha, source, y, actions, w, Start(FINE));
    actions, w := Extend(sha, source, y, actions, w, Send(1, FINE));
    assert w.r.state.Transferring? && w.r.bytesReceived == 1 && w.sending && w.asked.None?;
    actions, w := Extend(sha, source, y, actions, w, SendFileEnds(SawCancel(false, false, 1, true)));
    actions, w := Extend(sha, source, y, actions, w, Drop(true));
  }

  lemma AskAndDecide(sha: Hash, source: Bytes, w: World)
    requires Honest(sha, source, w) && DistinctPrefixes(sha, source) && |source| >= 2
    requires Dropped(source, w, 1) && w.saved && w.serving == 0
    ensures var w1 := Act(sha, source, w, Ask(FINE, true));
            && w1.sent <= |source| && Accepting(sha, source, w1, Decide(true, true, true))
            && var v := Act(sha, source, w1, Decide(true, true, true));
               && v.answer.Some? && v.answer.value.Accept? && v.streaming && v.serving == 1 && v.asked.None? && v.waiting
               && v.r.state.Interrupted? && v.r.temp in v.files && |v.files[v.r.temp]| == 1 && !v.sending
  {
    AcceptedIffReadableAndFits(sha, source, true, true, w.files[w.r.temp], w.record.value.chunkIndex);
  }

  lemma ResumedSession(sha: Hash, source: Bytes, y: World, actions: seq<Action>, w: World)
    returns (more: seq<Action>, v: World)
    requires Honest(sha, source, y) && DistinctPrefixes(sha, source) && w == RunActions(sha, source, y, actions)
    requires |source| >= 2 && Dropped(source, w, 1) && w.saved && w.serving == 0
    ensures v == RunActions(sha, source, y, more)
    ensures Resumes(sha, source, y, more) == Resumes(sha, source, y, actions) + 1
    ensures v.r.state.Resuming? && v.streaming && v.serving == 1 && v.r.bytesReceived == 1 && v.asked.None? && !v.sending
  {
    AskAndDecide(sha, source, w);
    more, v := Extend(sha, source, y, actions, w, Ask(FINE, true));
    more, v := Extend(sha, source, y, more, v, Decide(true, true, true));
    more, v := Extend(sha, source, y, more, v, Hear(FINE));
  }

  lemma DropAndEnd(sha: Hash, source: Bytes, w: World)
    requires Honest(sha, source, w) && w.r.state.Resuming? && w.serving == 1 && w.asked.None? && !w.sending
    ensures var v := Act(sha, source, Act(sha, source, w, Drop(true)), ServingEnds);
            Dropped(source, v, w.r.bytesReceived) && !v.saved
  {
  }

  lemma SecondDrop(sha: Hash, source: Bytes, y: World, actions: seq<Action>, w: World)
    returns (more: seq<Action>, v: World)
    requires Honest(sha, source, y) && DistinctPrefixes(sha, source) && w == RunActions(sha, source, y, actions)
    requires |source| >= 2 && w.r.state.Resuming? && w.streaming && w.serving == 1 && w.r.bytesReceived == 1
    requires w.asked.None? && !w.sending
    ensures v == RunActions(sha, source, y, more)
    ensures Resumes(sha, source, y, more) == Resumes(sha, source, y, actions)
    ensures Dropped(source, v, 2) && !v.saved
  {
    more, v := Extend(sha, source, y, actions, w, Send(1, FINE));
    assert v.r.state.Resuming? && v.r.bytesReceived == 2 && v.serving == 1 && v.asked.None? && !v.sending;
    DropAndEnd(sha, source, v);
    more, v := Extend(sha, source, y, more, v, Drop(true));
    more, v := Extend(sha, source, y, more, v, ServingEnds);
  }

  /** It comes to that: for every source of two bytes or more there is a run in which a first resume is accepted,
      the link drops again at byte 2, and by then the sender has no record. */
  lemma SecondResumeIsRefused(sha: Hash, source: Bytes, meta: Metadata, temp: Path, final: Path, alternative: Path)
    returns (actions: seq<Action>)
    requires Describes(sha, meta, source) && DistinctPrefixes(sha, source) && |source| >= 2
    ensures Honest(sha, source, Initial(meta, temp, final, alternative, map[]))
    ensures var y := Initial(meta, temp, final, alternative, map[]);
            var w := RunActions(sha, source, y, actions);
            && Resumes(sha, source, y, actions) == 1
            && Dropped(source, w, 2) && !w.saved
            && DecideRequest(sha, source, AskToResume(sha, w, FINE, true), true, true, true).answer
               == Some(Reject(TransferNotFound))
  {
    var y := Initial(meta, temp, final, alternative, map[]);
    var w: World;
    actions, w := FirstSession(sha, source, y);
    actions, w := ResumedSession(sha, source, y, actions, w);
    actions, w := SecondDrop(sha, source, y, actions, w);
    RefusalDeletesThePart(sha, source, w, 2, FINE, true, true, true);
  }

  lemma Extend(sha: Hash, source: Bytes, y: World, actions: seq<Action>, w: World, a: Action)
    returns (more: seq<Action>, v: World)
    requires Honest(sha, source, y) && DistinctPrefixes(sha, source) && w == RunActions(sha, source, y, actions)
    ensures more == actions + [a] && v == RunActions(sha, source, y, more) == Act(sha, source, w, a)
    ensures Resumes(sha, source, y, more) ==
            Resumes(sha, source, y, actions) + if Accepting(sha, source, w, a) then 1 else 0
  {
    RunSnoc(sha, source, y, actions, a);
    more, v := actions + [a], Act(sha, source, w, a);
  }

  // ----- what StreamChunksFromStream sends, received -----

  /** onChunkReceived for each plaintext in turn. A chunk that throws ends the transfer. */
  function Feed(r: Receiver, files: Files, plaintexts: seq<Bytes>, os: Os): (Receiver, Files) {
    if plaintexts == [] then (r, files)
    else
      var (r1, files1) := Feed(r, files, plaintexts[..|plaintexts| - 1], os);
      var d := DecodeAndroid(plaintexts[|plaintexts| - 1]);
      if d.DecodeError? then
        var c := Cancel(r1, files1);
        (c.r, c.files)
      else
        var s := ReceiveChunk(r1, files1, d.chunk, os);
        if s.verdict.Done? then (s.r, s.files) else (Cancel(s.r, s.files).r, Cancel(s.r, s.files).files)
  }

  /** A receiver that has taken in some more bytes, and expects number `next`. */
  function Advanced(r: Receiver, data: Bytes, next: int): Receiver {
    r.(digest := r.digest + data, bytesReceived := r.bytesReceived + |data|, nextSeq := next)
  }

  function Grown(files: Files, path: Path, data: Bytes): Files {
    files[path := Content(files, path) + data]
  }

  lemma FeedSnoc(r: Receiver, files: Files, frames: seq<Bytes>, frame: Bytes, c: ChunkFrame, os: Os)
    requires DecodeAndroid(frame) == Decoded(c)
    ensures var (r1, files1) := Feed(r, files, frames, os);
            var s := ReceiveChunk(r1, files1, c, os);
            s.verdict.Done? ==> Feed(r, files, frames + [frame], os) == (s.r, s.files)
  {
    var more := frames + [frame];
    assert more[..|more| - 1] == frames && more[|more| - 1] == frame;
  }

  lemma ReceiveAdvanced(r: Receiver, files: Files, before: Bytes, next: int, c: ChunkFrame, os: Os)
    requires Receiving(r) && os.writeOk && c.id == r.meta.id && c.seqNo == next && |c.data| <= r.meta.chunkSize
    ensures var s := ReceiveChunk(Advanced(r, before, next), Grown(files, r.temp, before), c, os);
            && s.verdict.Done?
            && s.r == Advanced(r, before + c.data, Increment(next))
            && s.files == Grown(files, r.temp, before + c.data)
  {
    assert r.digest + before + c.data == r.digest + (before + c.data);
    assert Content(files, r.temp) + before + c.data == Content(files, r.temp) + (before + c.data);
  }

  lemma CutsFront(frames: seq<Bytes>, pieces: seq<Bytes>, id: TransferId, start: int, data: Bytes)
    requires CutsInto(frames, pieces, id, start, data) && frames != []
    ensures var last := |frames| - 1;
            && CutsInto(frames[..last], pieces[..last], id, start, Concat(pieces[..last]))
            && data == Concat(pieces[..last]) + pieces[last] && |pieces[last]| <= CHUNK_SIZE
            && DecodeAndroid(frames[last]) == Decoded(ChunkFrame(id, Number(start, last), pieces[last]))
  {
  }

  lemma FeedOneMore(r: Receiver, files: Files, frames: seq<Bytes>, before: Bytes, next: int, frame: Bytes, c: ChunkFrame,
                    os: Os)
    requires Receiving(r) && os.writeOk && c.id == r.meta.id && c.seqNo == next && |c.data| <= r.meta.chunkSize
    requires DecodeAndroid(frame) == Decoded(c)
    requires Feed(r, files, frames, os) == (Advanced(r, before, next), Grown(files, r.temp, before))
    ensures Feed(r, files, frames + [frame], os)
         == (Advanced(r, before + c.data, Increment(next)), Grown(files, r.temp, before + c.data))
  {
    ReceiveAdvanced(r, files, before, next, c, os);
    FeedSnoc(r, files, frames, frame, c, os);
  }

  lemma {:induction false} FeedCuts(r: Receiver, files: Files, frames: seq<Bytes>, pieces: seq<Bytes>, data: Bytes,
                                    os: Os)
    requires Receiving(r) && r.temp in files && r.meta.chunkSize == CHUNK_SIZE && os.writeOk
    requires CutsInto(frames, pieces, r.meta.id, r.nextSeq, data)
    ensures Feed(r, files, frames, os) == (Advanced(r, data, Number(r.nextSeq, |frames|)), Grown(files, r.temp, data))
  {
    if frames == [] {
      assert r.digest + [] == r.digest;
      assert files[r.temp] + [] == files[r.temp];
      assert Grown(files, r.temp, []) == files;
    } else {
      var last := |frames| - 1;
      var before := Concat(pieces[..last]);
      CutsFront(frames, pieces, r.meta.id, r.nextSeq, data);
      FeedCuts(r, files, frames[..last], pieces[..last], before, os);
      var c := ChunkFrame(r.meta.id, Number(r.nextSeq, last), pieces[last]);
      FeedOneMore(r, files, frames[..last], before, c.seqNo, frames[last], c, os);
      assert frames[..last] + [frames[last]] == frames;
    }
  }

  lemma WholeFileIsPublished(sha: Hash, source: Bytes, r: Receiver, files: Files, os: Os)
    requires Receiving(r) && Describes(sha, r.meta, source) && os.renameOk
    requires r.digest == source && r.temp in files && files[r.temp] == source && r.bytesReceived == |source|
    ensures var f := Finalise(sha, r, files, os);
            f.verdict == Returned(true) && f.files[Destination(r, files)] == source
  {
  }

  lemma FeedRest(sha: Hash, source: Bytes, w: World, frames: seq<Bytes>, os: Os)
    requires Honest(sha, source, w) && Receiving(w.r) && w.streaming
    requires w.r.meta.chunkSize == CHUNK_SIZE && os.writeOk
    requires Cuts(frames, w.r.meta.id, w.seqNo, source[w.sent..])
    ensures Feed(w.r, w.files, frames, os) == (Advanced(w.r, source[w.sent..], Number(w.r.nextSeq, |frames|)),
                                               Grown(w.files, w.r.temp, source[w.sent..]))
  {
    var pieces: seq<Bytes> :| CutsInto(frames, pieces, w.r.meta.id, w.seqNo, source[w.sent..]);
    FeedCuts(w.r, w.files, frames, pieces, source[w.sent..], os);
  }

  /** End to end: the frames the sender streams from where it stands complete the file. */
  lemma StreamCompletes(sha: Hash, source: Bytes, w: World, frames: seq<Bytes>, os: Os)
    requires Honest(sha, source, w) && Receiving(w.r) && w.streaming && w.skipFrom == w.skipTo
    requires w.r.meta.chunkSize == CHUNK_SIZE && os.writeOk && os.renameOk
    requires Cuts(frames, w.r.meta.id, w.seqNo, source[w.sent..])
    ensures var (r, files) := Feed(w.r, w.files, frames, os);
            var f := Finalise(sha, r, files, os);
            f.verdict == Returned(true) && f.files[Destination(r, files)] == source
  {
    var rest := source[w.sent..];
    FeedRest(sha, source, w, frames, os);
    assert source[..w.skipFrom] + source[w.skipTo..w.sent] == source[..w.sent];
    assert source[..w.sent] + rest == source;
    WholeFileIsPublished(sha, source, Advanced(w.r, rest, Number(w.r.nextSeq, |frames|)),
                         Grown(w.files, w.r.temp, rest), os);
  }
}

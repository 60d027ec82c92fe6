/** A Linux receiver fed by an honest sender: whole runs with any cut into chunks, failures, one interrupt
    and a resume; and the stream of OutgoingTransfer delivered end to end. */
module LinuxDelivery {
  import opened Bytes
  import opened ChunkCodec
  import opened Transfers
  import opened IncomingTransfer
  import opened OutgoingTransfer

  /** The receiver, the disk, and how far the honest sender is. skipFrom..skipTo is the piece of the file a
      failed re-read left out of the hash. */
  datatype World = World(r: Receiver, files: Files, sent: nat, seqNo: nat, skipFrom: nat, skipTo: nat)

  datatype Action =
    | Start(os: Os)
    | Send(size: nat, os: Os)     // the next bytes of the source, cut anywhere up to chunk_size
    | Drop(os: Os)                // the link is lost: interrupt()
    | Restart(os: Os)             // prepare_resume_request, then resume() and a sender seeking to that index

  predicate Receiving(r: Receiver) {
    r.state.Transferring? || r.state.Resuming?
  }

  function NextFrame(source: Bytes, w: World, size: nat): ChunkFrame
    requires w.sent <= |source|
  {
    var end := Min(w.sent + Min(size, w.r.meta.chunkSize), |source|);
    ChunkFrame(w.r.meta.id, w.seqNo, source[w.sent..end])
  }

  function Act(sha: Hash, source: Bytes, w: World, a: Action): World
    requires w.sent <= |source|
  {
    match a
    case Start(os) =>
      var s := Begin(w.r, w.files, os);
      if s.verdict.Done? then World(s.r, s.files, 0, 0, 0, 0) else w.(r := s.r, files := s.files)
    case Send(size, os) =>
      if !Receiving(w.r) then w
      else
        var c := NextFrame(source, w, size);
        var s := ReceiveChunk(w.r, w.files, c, os);
        w.(r := s.r, files := s.files, sent := w.sent + |c.data|, seqNo := w.seqNo + 1)
    case Drop(os) =>
      var s := Interrupt(w.r, w.files, os);
      w.(r := s.r, files := s.files)
    case Restart(os) =>
      var (r1, p) := PrepareResume(sha, w.r, w.files, None, None);
      if p.Refused? then w.(r := r1)
      else
        var s := Resume(r1, w.files, p.payload.chunkIndex, os);
        var n := |Content(w.files, w.r.temp)|;
        if !s.verdict.Done? || Offset(p.payload.chunkIndex) > |source| then w.(r := s.r, files := s.files)
        else World(s.r, s.files, Offset(p.payload.chunkIndex), p.payload.chunkIndex,
                   if os.rereadOk then 0 else Min(os.reread, n), if os.rereadOk then 0 else n)
  }

  /** The metadata describes the source. */
  ghost predicate Describes(sha: Hash, meta: Metadata, source: Bytes) {
    meta.Valid() && meta.fileSize == |source| && meta.sha256 == sha(source)
  }

  /** The .part file is always a prefix of the source, ending where the sender is; the hash has absorbed it,
      except for the skipped piece; and the next expected number is the sender's. */
  ghost predicate Honest(sha: Hash, source: Bytes, w: World) {
    && Describes(sha, w.r.meta, source)
    && w.sent <= |source|
    && w.skipFrom <= w.skipTo
    && (Receiving(w.r) ==>
          && w.r.isOpen && w.r.tempSet && w.r.finalSet && w.r.temp in w.files
          && w.r.nextSeq == w.seqNo && w.r.bytesReceived == w.sent
          && w.files[w.r.temp] == source[..w.sent]
          && w.skipTo <= w.sent
          && w.r.hasher == source[..w.skipFrom] + source[w.skipTo..w.sent])
    && (w.r.state.Transferring? ==> w.skipFrom == w.skipTo)
    && (w.r.state.Interrupted? ==> w.r.tempSet && w.r.finalSet)
    && (w.r.state.Interrupted? && w.r.temp in w.files ==> w.files[w.r.temp] <= source)
    && (w.r.state.Idle? ==> w.r.hasher == [] && w.r.nextSeq == 0 && w.r.bytesReceived == 0)
    && !w.r.state.Requested? && !w.r.state.ResumeRequested? && !w.r.state.Cancelling?
  }

  lemma HonestStart(sha: Hash, source: Bytes, w: World, os: Os)
    requires Honest(sha, source, w)
    ensures Honest(sha, source, Act(sha, source, w, Start(os)))
  {
    assert source[..0] + source[0..0] == [];
  }

  lemma HonestSend(sha: Hash, source: Bytes, w: World, size: nat, os: Os)
    requires Honest(sha, source, w)
    ensures Honest(sha, source, Act(sha, source, w, Send(size, os)))
  {
    if Receiving(w.r) && os.writeOk {
      var c := NextFrame(source, w, size);
      var w1 := Act(sha, source, w, Send(size, os));
      assert source[..w.sent] + c.data == source[..w1.sent];
      assert source[w.skipTo..w.sent] + c.data == source[w.skipTo..w1.sent];
      assert w1.r.hasher == w.r.hasher + c.data;
    }
  }

  lemma HonestRetain(sha: Hash, source: Bytes, w: World, files: Files, n: nat, os: Os)
    requires Honest(sha, source, w) && (w.r.state.Transferring? || w.r.state.Accepted?)
    requires n > 0 ==> w.r.temp in files && n == |files[w.r.temp]|
    requires w.r.state.Transferring? && w.r.temp in files ==> files[w.r.temp] <= source
    ensures var s := Retain(w.r.(isOpen := false), files, n, os);
            Honest(sha, source, w.(r := s.r, files := s.files))
  {
  }

  lemma HonestInterrupt(sha: Hash, source: Bytes, w: World, os: Os)
    requires Honest(sha, source, w) && (w.r.state.Transferring? || w.r.state.Accepted?)
    ensures var s := Interrupt(w.r, w.files, os);
            Honest(sha, source, w.(r := s.r, files := s.files))
  {
    var files := AfterClose(w.r, w.files, os);
    assert w.r.state.Transferring? && w.r.temp in files ==> files[w.r.temp] <= source;
    HonestRetain(sha, source, w, files, OnDisk(w.r, files, os), os);
  }

  lemma HonestDrop(sha: Hash, source: Bytes, w: World, os: Os)
    requires Honest(sha, source, w)
    ensures Honest(sha, source, Act(sha, source, w, Drop(os)))
  {
    if w.r.state.Transferring? || w.r.state.Accepted? {
      HonestInterrupt(sha, source, w, os);
    }
  }

  lemma HonestRestart(sha: Hash, source: Bytes, w: World, os: Os)
    requires Honest(sha, source, w)
    ensures Honest(sha, source, Act(sha, source, w, Restart(os)))
  {
    var (r1, p) := PrepareResume(sha, w.r, w.files, None, None);
    if p.Payload? {
      var part := w.files[w.r.temp];
      assert part == source[..|part|] && p.payload.offset == |part|;
      assert p.payload.chunkIndex * CHUNK_SIZE == Offset(p.payload.chunkIndex);
      if !os.rereadOk {
        var k := Min(os.reread, |part|);
        assert part[..k] == source[..k] + source[|part|..|part|];
      } else {
        assert part == source[..0] + source[0..|part|];
      }
    }
  }

  function RunActions(sha: Hash, source: Bytes, w: World, actions: seq<Action>): (w': World)
    requires Honest(sha, source, w)
    ensures Honest(sha, source, w')
  {
    if actions == [] then w
    else
      var w1 := RunActions(sha, source, w, actions[..|actions| - 1]);
      HonestStep(sha, source, w1, actions[|actions| - 1]);
      Act(sha, source, w1, actions[|actions| - 1])
  }

  lemma HonestStep(sha: Hash, source: Bytes, w: World, a: Action)
    requires Honest(sha, source, w)
    ensures Honest(sha, source, Act(sha, source, w, a))
  {
    match a
    case Start(os) => HonestStart(sha, source, w, os);
    case Send(size, os) => HonestSend(sha, source, w, size, os);
    case Drop(os) => HonestDrop(sha, source, w, os);
    case Restart(os) => HonestRestart(sha, source, w, os);
  }

  lemma FinaliseComplete(sha: Hash, r: Receiver, files: Files, source: Bytes, os: Os)
    requires Receiving(r) && r.tempSet && r.finalSet && r.temp in files && r.meta.sha256 == sha(source)
    requires files[r.temp] == source == r.hasher
    requires os.flushOk && os.renameOk
    ensures var s := Finalise(sha, r, files, os);
            && s.verdict == Returned(true)
            && s.files[Destination(r, files)] == source
  {
  }

  function Initial(meta: Metadata, temp: Path, final: Path, alternative: Path, files: Files): World {
    World(Fresh(meta, temp, final, alternative), files, 0, 0, 0, 0)
  }

  /** Whole-run delivery. After any run with an honest sender, the .part file is a prefix of the source while
      chunks flow or the transfer is interrupted; and once the last byte is in, finalise succeeds and publishes
      the source if and only if the re-read of the last resume skipped nothing (given that what was hashed
      does not collide with the source). */
  lemma Delivery(sha: Hash, source: Bytes, meta: Metadata, temp: Path, final: Path, alternative: Path,
                 files: Files, actions: seq<Action>, os: Os)
    requires Describes(sha, meta, source)
    requires os.flushOk && os.renameOk
    ensures Honest(sha, source, Initial(meta, temp, final, alternative, files))
    ensures var w := RunActions(sha, source, Initial(meta, temp, final, alternative, files), actions);
            var s := Finalise(sha, w.r, w.files, os);
            && (Receiving(w.r) || w.r.state.Interrupted? ==> Content(w.files, w.r.temp) <= source)
            && (w.r.state.Transferring? ==> w.r.hasher == w.files[w.r.temp])
            && (w.r.state.Resuming? && w.skipFrom == w.skipTo ==> w.r.hasher == w.files[w.r.temp])
            && (Receiving(w.r) && w.sent == |source| && NoCollision(sha, w.r.hasher, source) ==>
                  && (s.verdict == Returned(true) <==> w.skipFrom == w.skipTo)
                  && (s.verdict == Returned(false) <==> w.skipFrom != w.skipTo))
            && (Receiving(w.r) && w.sent == |source| && w.skipFrom == w.skipTo ==>
                  && s.verdict == Returned(true)
                  && s.files[Destination(w.r, w.files)] == source)
  {
    assert Honest(sha, source, Initial(meta, temp, final, alternative, files));
    var w := RunActions(sha, source, Initial(meta, temp, final, alternative, files), actions);
    if Receiving(w.r) {
      HonestHash(sha, source, w);
      if w.sent == |source| {
        HonestFinalise(sha, source, w, os);
      }
    }
  }

  lemma HonestHash(sha: Hash, source: Bytes, w: World)
    requires Honest(sha, source, w) && Receiving(w.r)
    ensures |w.r.hasher| == w.sent - (w.skipTo - w.skipFrom)
    ensures w.skipFrom == w.skipTo ==> w.r.hasher == w.files[w.r.temp]
  {
    if w.skipFrom == w.skipTo {
      assert source[..w.skipFrom] + source[w.skipTo..w.sent] == source[..w.sent];
    }
  }

  lemma HonestFinalise(sha: Hash, source: Bytes, w: World, os: Os)
    requires Honest(sha, source, w) && Receiving(w.r) && w.sent == |source| && os.flushOk && os.renameOk
    ensures var s := Finalise(sha, w.r, w.files, os);
            && (NoCollision(sha, w.r.hasher, source) ==>
                  && (s.verdict == Returned(true) <==> w.skipFrom == w.skipTo)
                  && (s.verdict == Returned(false) <==> w.skipFrom != w.skipTo))
            && (w.skipFrom == w.skipTo ==>
                  && s.verdict == Returned(true)
                  && s.files[Destination(w.r, w.files)] == source)
  {
    HonestHash(sha, source, w);
    assert source[..|source|] == source;
    if w.skipFrom == w.skipTo {
      FinaliseComplete(sha, w.r, w.files, source, os);
    }
  }

  // ----- the sender's real stream, through the codec -----

  /** _on_chunk_received for each plaintext in turn: decode, then receive_chunk. A plaintext that cannot be
      decoded is dropped. */
  function Feed(r: Receiver, files: Files, plaintexts: seq<Bytes>, os: Os): (Receiver, Files)
    decreases |plaintexts|
  {
    if plaintexts == [] then (r, files)
    else
      var d := Decode(plaintexts[0]);
      if d.DecodeError? then Feed(r, files, plaintexts[1..], os)
      else
        var s := ReceiveChunk(r, files, d.chunk, os);
        Feed(s.r, s.files, plaintexts[1..], os)
  }

  function FeedChunks(r: Receiver, files: Files, chunks: seq<ChunkFrame>, os: Os): (Receiver, Files)
    decreases |chunks|
  {
    if chunks == [] then (r, files)
    else
      var s := ReceiveChunk(r, files, chunks[0], os);
      FeedChunks(s.r, s.files, chunks[1..], os)
  }

  lemma {:induction false} FeedDecodes(r: Receiver, files: Files, frames: seq<Bytes>, chunks: seq<ChunkFrame>, os: Os)
    requires |frames| == |chunks|
    requires forall i :: 0 <= i < |frames| ==> Decode(frames[i]) == Decoded(chunks[i])
    ensures Feed(r, files, frames, os) == FeedChunks(r, files, chunks, os)
    decreases |frames|
  {
    if frames != [] {
      var s := ReceiveChunk(r, files, chunks[0], os);
      assert Decode(frames[0]) == Decoded(chunks[0]);
      FeedDecodes(s.r, s.files, frames[1..], chunks[1..], os);
    }
  }

  /** A receiver that has taken in some more bytes and chunks. */
  function Advanced(r: Receiver, data: Bytes, chunks: nat): Receiver {
    r.(hasher := r.hasher + data, bytesReceived := r.bytesReceived + |data|, nextSeq := r.nextSeq + chunks)
  }

  lemma AdvancedTwice(r: Receiver, a: Bytes, b: Bytes, n: nat)
    ensures Advanced(Advanced(r, a, 1), b, n) == Advanced(r, a + b, n + 1)
  {
    assert r.hasher + a + b == r.hasher + (a + b);
  }

  lemma AppendTwice(files: Files, path: Path, a: Bytes, b: Bytes)
    ensures Append(Append(files, path, a), path, b) == Append(files, path, a + b)
  {
    if path in files {
      assert files[path] + a + b == files[path] + (a + b);
    }
  }

  lemma {:induction false} FeedOwed(r: Receiver, files: Files, source: Bytes, index: nat, os: Os)
    requires r.meta.chunkSize == CHUNK_SIZE && os.writeOk
    requires Receiving(r) && r.isOpen && r.nextSeq == index
    ensures var owed := ChunksFrom(r.meta.id, source, index);
            FeedChunks(r, files, owed, os) == (Advanced(r, Payloads(owed), |owed|), Append(files, r.temp, Payloads(owed)))
    decreases |source| - Offset(index)
  {
    var owed := ChunksFrom(r.meta.id, source, index);
    if owed == [] {
      assert r.hasher + [] == r.hasher;
      assert r.temp in files ==> files[r.temp] + [] == files[r.temp];
      assert Append(files, r.temp, []) == files;
    } else {
      var data := owed[0].data;
      var s := ReceiveChunk(r, files, owed[0], os);
      assert s.r == Advanced(r, data, 1) && s.files == Append(files, r.temp, data);
      assert owed[1..] == ChunksFrom(r.meta.id, source, index + 1);
      FeedOwed(s.r, s.files, source, index + 1, os);
      AdvancedTwice(r, data, Payloads(owed[1..]), |owed| - 1);
      AppendTwice(files, r.temp, data, Payloads(owed[1..]));
    }
  }

  lemma FeedStream(r: Receiver, files: Files, frames: seq<Bytes>, source: Bytes, index: nat, os: Os)
    requires r.meta.chunkSize == CHUNK_SIZE && os.writeOk
    requires Receiving(r) && r.isOpen && r.nextSeq == index
    requires Streams(frames, r.meta.id, source, index)
    requires |frames| == |ChunksFrom(r.meta.id, source, index)|
    ensures var rest := Payloads(ChunksFrom(r.meta.id, source, index));
            Feed(r, files, frames, os) == (Advanced(r, rest, |frames|), Append(files, r.temp, rest))
  {
    FeedDecodes(r, files, frames, ChunksFrom(r.meta.id, source, index), os);
    FeedOwed(r, files, source, index, os);
  }

  lemma FeedRest(sha: Hash, source: Bytes, w: World, frames: seq<Bytes>, os: Os)
    requires Honest(sha, source, w) && Receiving(w.r) && w.skipFrom == w.skipTo
    requires w.r.meta.chunkSize == CHUNK_SIZE && w.sent == Offset(w.seqNo)
    requires Streams(frames, w.r.meta.id, source, w.seqNo)
    requires |frames| == |ChunksFrom(w.r.meta.id, source, w.seqNo)|
    requires os.writeOk
    ensures Feed(w.r, w.files, frames, os)
         == (Advanced(w.r, source[w.sent..], |frames|), Append(w.files, w.r.temp, source[w.sent..]))
    ensures |frames| == w.r.meta.chunkCount - w.seqNo
  {
    OffsetBound(w.seqNo, |source|);
    ChunksCoverTheRest(w.r.meta.id, source, w.seqNo);
    FeedStream(w.r, w.files, frames, source, w.seqNo, os);
  }

  /** End to end: wherever an honest run stands at a chunk boundary of 64 KiB (at the beginning, or just
      resumed), feeding it everything StreamChunks sends from that index makes finalise publish the source. */
  lemma StreamDelivers(sha: Hash, source: Bytes, w: World, frames: seq<Bytes>, os: Os)
    requires Honest(sha, source, w) && Receiving(w.r) && w.skipFrom == w.skipTo
    requires w.r.meta.chunkSize == CHUNK_SIZE && w.sent == Offset(w.seqNo)
    requires Streams(frames, w.r.meta.id, source, w.seqNo)
    requires |frames| == |ChunksFrom(w.r.meta.id, source, w.seqNo)|
    requires os.writeOk && os.flushOk && os.renameOk
    ensures |frames| == w.r.meta.chunkCount - w.seqNo
    ensures var (r, files) := Feed(w.r, w.files, frames, os);
            var s := Finalise(sha, r, files, os);
            && s.verdict == Returned(true)
            && s.files[Destination(r, files)] == source
  {
    FeedRest(sha, source, w, frames, os);
    HonestHash(sha, source, w);
    assert source[..w.sent] + source[w.sent..] == source;
    FinaliseComplete(sha, Advanced(w.r, source[w.sent..], |frames|), Append(w.files, w.r.temp, source[w.sent..]),
                     source, os);
  }

  /** And from the very start: begin, then everything the sender streams from chunk 0. */
  lemma StartDelivers(sha: Hash, source: Bytes, meta: Metadata, temp: Path, final: Path, alternative: Path, files: Files,
                      begin: Os, frames: seq<Bytes>, os: Os)
    requires Describes(sha, meta, source) && meta.chunkSize == CHUNK_SIZE
    requires begin.stagingOk && begin.pathSafe && begin.openOk && os.writeOk && os.flushOk && os.renameOk
    requires Streams(frames, meta.id, source, 0) && |frames| == |ChunksFrom(meta.id, source, 0)|
    ensures var w := Act(sha, source, Initial(meta, temp, final, alternative, files), Start(begin));
            var (r, files1) := Feed(w.r, w.files, frames, os);
            var s := Finalise(sha, r, files1, os);
            && s.verdict == Returned(true)
            && s.files[Destination(r, files1)] == source
  {
    var start := Initial(meta, temp, final, alternative, files);
    HonestStart(sha, source, start, begin);
    StreamDelivers(sha, source, Act(sha, source, start, Start(begin)), frames, os);
  }

  lemma OffsetBound(index: nat, size: nat)
    requires Offset(index) <= size
    ensures index <= ChunkCount(size, CHUNK_SIZE)
  {
  }

  // ----- the arithmetic of an interrupt and of a resume -----

  lemma RetainArithmetic(r: Receiver, files: Files, n: nat, os: Os)
    requires r.state.Transferring? && r.tempSet && r.temp in files && n == |files[r.temp]| && r.meta.Valid()
    ensures var s := Retain(r, files, n, os);
            && s.r.state.Interrupted? && r.temp in s.files
            && var part := s.files[r.temp];
               && (os.truncateOk || n % r.meta.chunkSize == 0 ==>
                     && s.r.bytesReceived == |part| == s.r.nextSeq * r.meta.chunkSize
                     && |part| <= n < |part| + r.meta.chunkSize)
               && (!os.truncateOk && n % r.meta.chunkSize != 0 ==> |part| == n)
  {
    var cs := r.meta.chunkSize;
    if n % cs == 0 {
      DivUnique(ChunkFloor(n, cs), cs, n / cs);
    }
  }

  /** An interrupt of a healthy transfer that ends in INTERRUPTED leaves counters, file length and chunk index
      in step, and gives up less than one chunk of what had been received. If the truncate fails the file keeps
      a partial chunk, and then no resume can be prepared. */
  lemma InterruptArithmetic(sha: Hash, source: Bytes, w: World, os: Os)
    requires Honest(sha, source, w) && w.r.state.Transferring? && os.statOk
    ensures var s := Interrupt(w.r, w.files, os);
            var flushed := if os.flushOk then w.sent else Min(os.survives, w.sent);
            var cs := w.r.meta.chunkSize;
            s.r.state.Interrupted? ==>
              && w.r.temp in s.files
              && var part := s.files[w.r.temp];
                 && (os.truncateOk || flushed % cs == 0 ==>
                       && s.r.bytesReceived == |part| == s.r.nextSeq * cs
                       && |part| <= flushed < |part| + cs)
                 && (!os.truncateOk && flushed % cs != 0 ==>
                       PrepareResume(sha, s.r, s.files, None, None).1 == Refused(Misaligned))
  {
    var files := AfterClose(w.r, w.files, os);
    RetainArithmetic(w.r.(isOpen := false), files, OnDisk(w.r, files, os), os);
  }

  /** A nonempty, aligned .part file of an interrupted transfer gives a resume request if and only if the
      chunk size is 65536, because the payload validates itself against that constant. The request then names
      the length of the file, which is where the sender seeks, and the sender still owes the rest of
      the announced chunks. */
  lemma ResumeRequestArithmetic(sha: Hash, source: Bytes, w: World)
    requires Honest(sha, source, w) && w.r.state.Interrupted? && w.r.temp in w.files
    requires var n := |w.files[w.r.temp]|; n > 0 && n % w.r.meta.chunkSize == 0
    requires LowerHex64(sha(w.files[w.r.temp]))
    ensures var part := w.files[w.r.temp];
            var p := PrepareResume(sha, w.r, w.files, None, None).1;
            && (p.Payload? <==> w.r.meta.chunkSize == CHUNK_SIZE)
            && (p.Payload? ==>
                  && p.payload.offset == |part| == Offset(p.payload.chunkIndex)
                  && p.payload.partialSha == sha(source[..p.payload.offset])
                  && |ChunksFrom(w.r.meta.id, source, p.payload.chunkIndex)| == w.r.meta.chunkCount - p.payload.chunkIndex)
  {
    var part := w.files[w.r.temp];
    PrepareDecides(sha, w.r, w.files, None, None);
    assert part == source[..|part|];
    if w.r.meta.chunkSize == CHUNK_SIZE {
      var index := |part| / CHUNK_SIZE;
      assert |part| == index * CHUNK_SIZE;
      OffsetBound(index, |source|);
      ChunksCoverTheRest(w.r.meta.id, source, index);
    }
  }

  /** An honest chunk is always taken in, unless it cannot be written: then the transfer fails. */
  lemma HonestChunkAdvances(sha: Hash, source: Bytes, w: World, size: nat, os: Os)
    requires Honest(sha, source, w) && Receiving(w.r)
    ensures var v := Act(sha, source, w, Send(size, os));
            if os.writeOk then
              && v.r.state == w.r.state && v.seqNo == w.seqNo + 1
              && v.sent == w.sent + Min(Min(size, w.r.meta.chunkSize), |source| - w.sent)
              && v.files[v.r.temp] == source[..v.sent]
            else v.r.state.Failed? && v.files - {w.r.temp} == w.files - {w.r.temp}
  {
    HonestSend(sha, source, w, size, os);
  }

  /** A restart for which a request exists resumes exactly if the part file can be reopened; the sender then stands
      at the end of the part file, and nothing is skipped if it could be re-read. */
  lemma RestartResumes(sha: Hash, source: Bytes, w: World, os: Os)
    requires Honest(sha, source, w) && w.r.state.Interrupted?
    requires PrepareResume(sha, w.r, w.files, None, None).1.Payload?
    ensures var w1 := Act(sha, source, w, Restart(os));
            && w1.files == w.files
            && (w1.r.state.Resuming? <==> os.openOk)
            && (os.openOk ==>
                  && w1.sent == |w.files[w.r.temp]| == Offset(w1.seqNo)
                  && (os.rereadOk ==> w1.skipFrom == w1.skipTo))
  {
    var part := w.files[w.r.temp];
    PrepareDecides(sha, w.r, w.files, None, None);
    assert |part| == |part| / CHUNK_SIZE * CHUNK_SIZE;
    assert part <= source;
  }

  /** An interrupt of a transfer that has one whole chunk, then a restart, nothing failing: the transfer resumes
      behind the whole chunks that had arrived. */
  lemma InterruptedTransferResumes(sha: Hash, source: Bytes, w: World, drop: Os, restart: Os)
    requires Honest(sha, source, w) && w.r.state.Transferring?
    requires w.r.meta.chunkSize == CHUNK_SIZE && w.sent >= CHUNK_SIZE
    requires drop.flushOk && drop.statOk && drop.truncateOk && restart.openOk && restart.rereadOk
    requires LowerHex64(sha(source[..ChunkFloor(w.sent, CHUNK_SIZE)]))
    ensures var w1 := Act(sha, source, w, Drop(drop));
            w1.r.state.Interrupted? && Honest(sha, source, w1)
            && var w2 := Act(sha, source, w1, Restart(restart));
            && Honest(sha, source, w2) && w2.r.state.Resuming? && w2.skipFrom == w2.skipTo
            && w2.sent == Offset(w2.seqNo) == ChunkFloor(w.sent, CHUNK_SIZE)
  {
    var w1 := Act(sha, source, w, Drop(drop));
    HonestDrop(sha, source, w, drop);
    HonestRestart(sha, source, w1, restart);
    InterruptDecides(w.r, w.files, drop);
    InterruptCuts(w.r, w.files, drop);
    var part := w1.files[w.r.temp];
    var floor := ChunkFloor(w.sent, CHUNK_SIZE);
    assert |part| == floor && part == source[..floor];
    PrepareDecides(sha, w1.r, w1.files, None, None);
    RestartResumes(sha, source, w1, restart);
  }

  /** The whole story of one interruption: drop, restart, the rest of the stream, finalise. The source is published. */
  lemma InterruptedTransferDelivers(sha: Hash, source: Bytes, w: World, drop: Os, restart: Os,
                                    frames: seq<Bytes>, os: Os)
    requires Honest(sha, source, w) && w.r.state.Transferring?
    requires w.r.meta.chunkSize == CHUNK_SIZE && w.sent >= CHUNK_SIZE
    requires drop.flushOk && drop.statOk && drop.truncateOk && restart.openOk && restart.rereadOk
    requires os.writeOk && os.flushOk && os.renameOk
    requires LowerHex64(sha(source[..ChunkFloor(w.sent, CHUNK_SIZE)]))
    requires var index := w.sent / CHUNK_SIZE;
             && Streams(frames, w.r.meta.id, source, index)
             && |frames| == |ChunksFrom(w.r.meta.id, source, index)|
    ensures Act(sha, source, w, Drop(drop)).sent <= |source|
    ensures var w2 := Act(sha, source, Act(sha, source, w, Drop(drop)), Restart(restart));
            var (r, files) := Feed(w2.r, w2.files, frames, os);
            var s := Finalise(sha, r, files, os);
            && s.verdict == Returned(true)
            && s.files[Destination(r, files)] == source
  {
    InterruptedTransferResumes(sha, source, w, drop, restart);
    var w2 := Act(sha, source, Act(sha, source, w, Drop(drop)), Restart(restart));
    assert w2.seqNo == w.sent / CHUNK_SIZE;
    StreamDelivers(sha, source, w2, frames, os);
  }
}

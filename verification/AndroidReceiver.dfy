/** The Android receiver, FerryTransferReceiver: steps over its fields and the staging directory. It never
    truncates, may be interrupted and resumed again and again, and does not check its state in finalise. */
module AndroidReceiver {
  import opened Bytes
  import opened ChunkCodec
  import opened Transfers

  /** What the operating system does during one call. */
  datatype Os = Os(createOk: bool, writeOk: bool, rereadOk: bool, reread: nat, renameOk: bool)

  datatype Verdict = Done | Returned(ok: bool) | Offset(bytes: int) | Threw

  datatype Receiver = Receiver(
    meta: Metadata, temp: Path, final: Path, alternative: Path,
    state: TransferState, digest: Bytes, bytesReceived: nat, nextSeq: int)

  datatype Step = Step(r: Receiver, files: Files, verdict: Verdict)

  function Fresh(meta: Metadata, temp: Path, final: Path, alternative: Path): Receiver {
    Receiver(meta, temp, final, alternative, Idle, [], 0, 0)
  }

  /** Narrowing to a 32-bit Int. */
  function ToInt(n: int): (i: int)
    ensures -TWO_TO_THE_32 / 2 <= i < TWO_TO_THE_32 / 2
    ensures -TWO_TO_THE_32 / 2 <= n < TWO_TO_THE_32 / 2 ==> i == n
  {
    Signed32(n % TWO_TO_THE_32)
  }

  /** Incrementing a 32-bit Int. */
  function Increment(n: int): int {
    if n == 0x7FFF_FFFF then -0x8000_0000 else n + 1
  }

  /** createNewFile leaves an existing .part file as it is. */
  function Begin(r: Receiver, files: Files, os: Os): (s: Step) {
    if !r.state.Idle? then Step(r, files, Threw)
    else if !os.createOk then Step(r.(state := Failed), files, Threw)
    else Step(r.(state := Transferring), files[r.temp := Content(files, r.temp)], Done)
  }

  predicate Receiving(r: Receiver) {
    r.state.Transferring? || r.state.Resuming?
  }

  function ReceiveChunk(r: Receiver, files: Files, c: ChunkFrame, os: Os): (s: Step) {
    if !Receiving(r) || c.id != r.meta.id || c.seqNo != r.nextSeq || |c.data| > r.meta.chunkSize then
      Step(r, files, Threw)
    else if !os.writeOk then Step(r.(state := Failed), Unlink(files, r.temp), Threw)
    else
      Step(r.(digest := r.digest + c.data, bytesReceived := r.bytesReceived + |c.data|, nextSeq := Increment(r.nextSeq)),
           files[r.temp := Content(files, r.temp) + c.data], Done)
  }

  function Destination(r: Receiver, files: Files): Path {
    if r.final in files then r.alternative else r.final
  }

  /** Reading a MessageDigest resets it. */
  function Finalise(sha: Hash, r: Receiver, files: Files, os: Os): (s: Step) {
    var r1 := r.(digest := []);
    if sha(r.digest) != r.meta.sha256 || !os.renameOk || r.temp !in files then
      Step(r1.(state := Failed), Unlink(files, r.temp), Returned(false))
    else
      Step(r1.(state := Completed), Rename(files, r.temp, Destination(r, files)), Returned(true))
  }

  function Interrupt(r: Receiver, files: Files): (s: Step) {
    if !Receiving(r) then Step(r, files, Offset(-1))
    else Step(r.(state := Interrupted), files, Offset(r.bytesReceived))
  }

  function Resume(r: Receiver, files: Files, chunkIndex: int, os: Os): (s: Step) {
    if !r.state.Interrupted? && !r.state.ResumeRequested? then Step(r, files, Threw)
    else if r.temp !in files then Step(r.(state := Failed), files, Threw)
    else
      var part := files[r.temp];
      Step(r.(state := Resuming, digest := if os.rereadOk then part else part[..Min(os.reread, |part|)],
              bytesReceived := |part|, nextSeq := chunkIndex), files, Done)
  }

  function Cancel(r: Receiver, files: Files): (s: Step) {
    Step(r.(state := Cancelled), Unlink(files, r.temp), Done)
  }

  // ----- what one call promises -----

  /** The part file is what was left over when the transfer began, followed by the bytes counted; and unless a re-read
      failed, the digest covers exactly those. */
  ghost predicate Tracks(r: Receiver, files: Files, lead: Bytes, intact: bool) {
    && (r.state.Idle? ==> r.digest == [] && r.bytesReceived == 0)
    && (Receiving(r) || r.state.Interrupted? || r.state.ResumeRequested? ==>
          && r.temp in files && lead <= files[r.temp] && |files[r.temp]| == |lead| + r.bytesReceived
          && (intact ==> files[r.temp] == lead + r.digest))
  }

  lemma BeginTracks(r: Receiver, files: Files, os: Os, lead: Bytes, intact: bool)
    requires Tracks(r, files, lead, intact)
    ensures var s := Begin(r, files, os);
            && (s.verdict == Done <==> r.state.Idle? && os.createOk)
            && if s.verdict == Done then Tracks(s.r, s.files, Content(files, r.temp), true)
               else Tracks(s.r, files, lead, intact)
  {
    assert Content(files, r.temp) + [] == Content(files, r.temp);
  }

  lemma ChunkTracks(r: Receiver, files: Files, c: ChunkFrame, os: Os, lead: Bytes, intact: bool)
    requires Tracks(r, files, lead, intact)
    ensures var s := ReceiveChunk(r, files, c, os);
            && Tracks(s.r, s.files, lead, intact) && s.files - {r.temp} == files - {r.temp}
            && (s.verdict == Done ==> r.temp in files && r.temp in s.files && s.files[r.temp] == files[r.temp] + c.data)
            && (s.verdict == Done ==>
                  && s.r.digest == r.digest + c.data
                  && s.r.nextSeq == if r.nextSeq == 0x7FFF_FFFF then -0x8000_0000 else r.nextSeq + 1)
            && (s.verdict != Done ==> s.r == r.(state := s.r.state))
            && (s.verdict != Done && s.r.state == r.state ==> s.files == files)
            && (s.verdict != Done && s.r.state != r.state ==> s.r.state.Failed? && s.files == files - {r.temp})
            && (s.verdict != Done ==>
                  (s.r.state != r.state <==>
                     Receiving(r) && c.id == r.meta.id && c.seqNo == r.nextSeq && |c.data| <= r.meta.chunkSize))
  {
    assert lead + r.digest + c.data == lead + (r.digest + c.data);
  }

  lemma FinalisePromises(sha: Hash, r: Receiver, files: Files, os: Os, lead: Bytes, intact: bool)
    requires Tracks(r, files, lead, intact)
    ensures var s := Finalise(sha, r, files, os);
            && Tracks(s.r, s.files, lead, intact) && Terminal(s.r.state)
            && (s.verdict == Returned(true) ==>
                  var dest := Destination(r, files);
                  && r.temp in files && dest in s.files && s.files[dest] == files[r.temp]
                  && sha(r.digest) == r.meta.sha256
                  && (Receiving(r) && intact ==> s.files[dest] == lead + r.digest)
                  && s.files - {dest} == files - {dest, r.temp})
            && (s.verdict != Returned(true) ==> s.r.state.Failed? && s.files == files - {r.temp})
  {
  }

  /** When finalise returns true, and where the file then is. */
  lemma FinaliseDecides(sha: Hash, r: Receiver, files: Files, os: Os)
    ensures var s := Finalise(sha, r, files, os);
            && (s.verdict == Returned(true) <==>
                  sha(r.digest) == r.meta.sha256 && os.renameOk && r.temp in files)
            && (s.verdict == Returned(true) && r.final !in files ==>
                  s.files == (files - {r.temp})[r.final := files[r.temp]])
            && (s.verdict == Returned(true) && r.final in files ==>
                  s.files == (files - {r.temp})[r.alternative := files[r.temp]])
            && (s.verdict == Returned(true) || s.verdict == Returned(false)) && s.r.digest == []
  {
  }

  lemma ResumeTracks(r: Receiver, files: Files, chunkIndex: int, os: Os, lead: Bytes, intact: bool)
    requires Tracks(r, files, lead, intact)
    ensures var s := Resume(r, files, chunkIndex, os);
            && (s.verdict == Done <==> (r.state.Interrupted? || r.state.ResumeRequested?) && r.temp in files)
            && (s.verdict != Done ==>
                  s.r == r.(state := if r.state.Interrupted? || r.state.ResumeRequested? then Failed else r.state))
            && if s.verdict == Done then Tracks(s.r, files, [], os.rereadOk) else Tracks(s.r, files, lead, intact)
  {
    if r.temp in files {
      assert [] + files[r.temp] == files[r.temp];
    }
  }

  /** The object itself, with its fields updated in place and the part file re-read in blocks. */
  class TransferReceiver {
    const meta: Metadata
    const temp: Path
    const final: Path
    const alternative: Path
    const sha: Hash
    var files: Files
    var state: TransferState
    var digest: Bytes
    var bytesReceived: nat
    var nextSeq: int
    ghost var lead: Bytes     // what the part file held when the transfer began
    ghost var intact: bool    // the last resume re-read the whole part file

    constructor (meta: Metadata, temp: Path, final: Path, alternative: Path, sha: Hash, files: Files)
      ensures Valid() && View() == Fresh(meta, temp, final, alternative) && this.files == files && this.sha == sha
    {
      this.meta, this.temp, this.final, this.alternative := meta, temp, final, alternative;
      this.sha, this.files, lead, intact := sha, files, [], true;
      state, digest, bytesReceived, nextSeq := Idle, [], 0, 0;
    }

    ghost function View(): Receiver
      reads this
    {
      Receiver(meta, temp, final, alternative, state, digest, bytesReceived, nextSeq)
    }

    ghost predicate Valid()
      reads this
    {
      Tracks(View(), files, lead, intact)
    }

    ghost predicate Became(s: Step, v: Verdict)
      reads this
    {
      View() == s.r && files == s.files && v == s.verdict
    }

    /** Keeps a part file that is already there, and counts nothing of it. */
    method DoBegin(os: Os) returns (v: Verdict)
      requires Valid()
      modifies this
      ensures Valid()
      ensures v == Done <==> old(state) == Idle && os.createOk
      ensures v == Done ==> state == Transferring && temp in files && files[temp] == lead == Content(old(files), temp)
                            && bytesReceived == 0 && files - {temp} == old(files) - {temp}
      ensures v != Done ==>
                files == old(files) && lead == old(lead) && state == if old(state) == Idle then Failed else old(state)
      ensures Became(Begin(old(View()), old(files), os), v)
    {
      BeginTracks(View(), files, os, lead, intact);
      if state != Idle {
        return Threw;
      }
      if !os.createOk {
        state := Failed;
        return Threw;
      }
      lead, intact := Content(files, temp), true;
      if temp !in files {
        files := files[temp := []];
      }
      assert files == old(files)[temp := Content(old(files), temp)];
      state := Transferring;
      v := Done;
    }

    method AppendChunk(c: ChunkFrame, os: Os) returns (v: Verdict)
      modifies this`files, this`state, this`digest, this`bytesReceived, this`nextSeq
      ensures Became(ReceiveChunk(old(View()), old(files), c, os), v)
    {
      if state != Transferring && state != Resuming {
        return Threw;
      }
      if c.id != meta.id || c.seqNo != nextSeq || |c.data| > meta.chunkSize {
        return Threw;
      }
      if !os.writeOk {
        files := Unlink(files, temp);
        state := Failed;
        return Threw;
      }
      files := files[temp := Content(files, temp) + c.data];
      digest := digest + c.data;
      bytesReceived := bytesReceived + |c.data|;
      nextSeq := Increment(nextSeq);
      v := Done;
    }

    /** Accepts exactly the next chunk of this transfer; file, digest and counter grow together. */
    method DoReceiveChunk(c: ChunkFrame, os: Os) returns (v: Verdict)
      requires Valid()
      modifies this
      ensures Valid() && lead == old(lead) && intact == old(intact) && files - {temp} == old(files) - {temp}
      ensures v == Done <==>
                old(state) in {Transferring, Resuming} && os.writeOk
                && c.id == meta.id && c.seqNo == old(nextSeq) && |c.data| <= meta.chunkSize
      ensures v == Done ==>
                && old(temp in files) && temp in files && files[temp] == old(files[temp]) + c.data
                && state == old(state)
                && digest == old(digest) + c.data && bytesReceived == old(bytesReceived) + |c.data|
                && nextSeq == if old(nextSeq) == 0x7FFF_FFFF then -0x8000_0000 else old(nextSeq) + 1
      ensures var acceptable := old(state) in {Transferring, Resuming}
                && c.id == meta.id && c.seqNo == old(nextSeq) && |c.data| <= meta.chunkSize;
              v != Done ==>
                && View() == old(View()).(state := if acceptable then Failed else old(state))
                && files == if acceptable then old(files) - {temp} else old(files)
      ensures Became(ReceiveChunk(old(View()), old(files), c, os), v)
    {
      ghost var r, was := View(), files;
      v := AppendChunk(c, os);
      ChunkTracks(r, was, c, os, lead, intact);
    }

    method Publish(os: Os) returns (v: Verdict)
      modifies this`files, this`state, this`digest
      ensures Became(Finalise(sha, old(View()), old(files), os), v)
    {
      var actual := sha(digest);
      digest := [];
      if actual != meta.sha256 {
        files := Unlink(files, temp);
        state := Failed;
        return Returned(false);
      }
      var finalFile := final;
      if finalFile in files {
        finalFile := alternative;
      }
      var renamed := os.renameOk && temp in files;
      if !renamed {
        files := Unlink(files, temp);
        state := Failed;
        return Returned(false);
      }
      files := Rename(files, temp, finalFile);
      state := Completed;
      v := Returned(true);
    }

    /** True means that the digest was the announced one and the part file, the left-over and then the verified bytes,
        is now the destination, or the alternative if the destination was taken; nothing else on disk has changed.
        Otherwise the part file is gone. */
    method DoFinalise(os: Os) returns (v: Verdict)
      requires Valid()
      modifies this
      ensures Valid() && lead == old(lead) && intact == old(intact)
      ensures v == Returned(true) <==> sha(old(digest)) == meta.sha256 && os.renameOk && old(temp in files)
      ensures v == Returned(true) ==>
                && state == Completed
                && (old(final !in files) ==> files == (old(files) - {temp})[final := old(files[temp])])
                && (old(final in files) ==> files == (old(files) - {temp})[alternative := old(files[temp])])
                && (old(state) in {Transferring, Resuming} && intact ==> old(files[temp]) == lead + old(digest))
      ensures v != Returned(true) ==> state == Failed && files == old(files) - {temp}
      ensures Became(Finalise(sha, old(View()), old(files), os), v)
    {
      ghost var r, was := View(), files;
      v := Publish(os);
      FinalisePromises(sha, r, was, os, lead, intact);
      FinaliseDecides(sha, r, was, os);
    }

    /** The offset returned is the length of the part file, less what was left over; -1 if nothing was being
        received. The file stays. */
    method DoInterrupt() returns (v: Verdict)
      requires Valid()
      modifies this`state
      ensures Valid()
      ensures old(state) in {Transferring, Resuming} ==>
                state == Interrupted && temp in files && v == Offset(|files[temp]| - |lead|)
      ensures old(state) !in {Transferring, Resuming} ==> state == old(state) && v == Offset(-1)
      ensures Became(Interrupt(old(View()), old(files)), v)
    {
      if state != Transferring && state != Resuming {
        return Offset(-1);
      }
      state := Interrupted;
      v := Offset(bytesReceived);
    }

    method Reseed(chunkIndex: int, os: Os) returns (v: Verdict)
      modifies this`state, this`digest, this`bytesReceived, this`nextSeq
      ensures Became(Resume(old(View()), old(files), chunkIndex, os), v)
    {
      if state != Interrupted && state != ResumeRequested {
        return Threw;
      }
      if temp !in files {
        state := Failed;
        return Threw;
      }
      var part := files[temp];
      var limit := if os.rereadOk then |part| else Min(os.reread, |part|);
      var newDigest, pos := [], 0;
      while pos < limit
        invariant pos <= limit && newDigest == part[..pos]
      {
        var n := Min(65536, limit - pos);
        newDigest := newDigest + part[pos..pos + n];
        pos := pos + n;
      }
      if state == Interrupted {
        state := ResumeRequested;
      }
      digest, bytesReceived, nextSeq := newDigest, |part|, chunkIndex;
      state := Resuming;
      v := Done;
    }

    /** A resumed transfer counts the whole part file, the left-over included, and covers it with the digest if it
        could be read. */
    method DoResume(chunkIndex: int, os: Os) returns (v: Verdict)
      requires Valid()
      modifies this
      ensures Valid() && files == old(files)
      ensures v == Done ==>
                && state == Resuming && temp in files && bytesReceived == |files[temp]| && nextSeq == chunkIndex
                && lead == [] && (os.rereadOk ==> digest == files[temp])
      ensures v == Done <==> old(state) in {Interrupted, ResumeRequested} && temp in files
      ensures v != Done ==>
                lead == old(lead) && state == if old(state) in {Interrupted, ResumeRequested} then Failed else old(state)
      ensures Became(Resume(old(View()), old(files), chunkIndex, os), v)
    {
      ResumeTracks(View(), files, chunkIndex, os, lead, intact);
      v := Reseed(chunkIndex, os);
      if v == Done {
        lead, intact := [], os.rereadOk;
      }
    }

    /** From every state: the transfer is over and its part file gone, and no other file is touched. */
    method DoCancel()
      requires Valid()
      modifies this
      ensures Valid() && state == Cancelled && temp !in files && files == old(files) - {temp}
      ensures Became(Cancel(old(View()), old(files)), Done)
    {
      files := Unlink(files, temp);
      state := Cancelled;
    }
  }

  /** All chunks of one session, in order, each whatever the peer sent. */
  function ReceiveAll(r: Receiver, files: Files, chunks: seq<ChunkFrame>, os: Os): (Receiver, Files) {
    if chunks == [] then (r, files)
    else
      var (r1, files1) := ReceiveAll(r, files, chunks[..|chunks| - 1], os);
      var s := ReceiveChunk(r1, files1, chunks[|chunks| - 1], os);
      (s.r, s.files)
  }

  lemma {:induction false} ReceiveAllAppends(r: Receiver, files: Files, chunks: seq<ChunkFrame>, os: Os, lead: Bytes)
    requires r.temp in files && files[r.temp] == lead + r.digest
    ensures var (r1, files1) := ReceiveAll(r, files, chunks, os);
            && r1 == r.(state := r1.state, digest := r1.digest, bytesReceived := r1.bytesReceived, nextSeq := r1.nextSeq)
            && (r1.state == r.state || r1.state.Failed?)
            && (Receiving(r1) ==> r.temp in files1 && files1[r.temp] == lead + r1.digest)
            && (r.temp in files1 ==> files1[r.temp] == lead + r1.digest)
  {
    if chunks != [] {
      ReceiveAllAppends(r, files, chunks[..|chunks| - 1], os, lead);
      var (r1, files1) := ReceiveAll(r, files, chunks[..|chunks| - 1], os);
      var c := chunks[|chunks| - 1];
      assert lead + r1.digest + c.data == lead + (r1.digest + c.data);
    }
  }

  /** A transfer that begins over a left-over .part file keeps it in front of the received bytes and leaves
      it out of the hash. So when finalise returns true, the published file is the left-over followed by the
      verified bytes: it is the verified file if and only if the .part file was missing or empty at the start. */
  lemma PublishesLeftoverPart(sha: Hash, meta: Metadata, temp: Path, final: Path, alternative: Path, files: Files,
                              chunks: seq<ChunkFrame>, os: Os)
    requires os.createOk
    ensures var b := Begin(Fresh(meta, temp, final, alternative), files, os);
            var (r, files1) := ReceiveAll(b.r, b.files, chunks, os);
            var f := Finalise(sha, r, files1, os);
            f.verdict == Returned(true) ==>
              var published := f.files[Destination(r, files1)];
              && sha(r.digest) == meta.sha256
              && published == Content(files, temp) + r.digest
              && (published == r.digest <==> Content(files, temp) == [])
  {
    var b := Begin(Fresh(meta, temp, final, alternative), files, os);
    assert Content(files, temp) + [] == Content(files, temp);
    ReceiveAllAppends(b.r, b.files, chunks, os, Content(files, temp));
    var (r, _) := ReceiveAll(b.r, b.files, chunks, os);
    if Content(files, temp) == [] {
      assert [] + r.digest == r.digest;
    } else {
      assert |Content(files, temp) + r.digest| > |r.digest|;
    }
  }

  /** Two bytes are left over, one arrives and is verified: three are published. */
  lemma LeftoverPartIsPublished(sha: Hash, id: TransferId)
    ensures var ok := Os(true, true, true, 0, true);
            var b := Begin(Fresh(Metadata(id, 1, 65536, 1, sha([9])), "t", "f", "a"), map["t" := [1, 2]], ok);
            var s := ReceiveChunk(b.r, b.files, ChunkFrame(id, 0, [9]), ok);
            var f := Finalise(sha, s.r, s.files, ok);
            f.verdict == Returned(true) && "f" in f.files && f.files["f"] == [1, 2, 9]
  {
    var ok := Os(true, true, true, 0, true);
    var b := Begin(Fresh(Metadata(id, 1, 65536, 1, sha([9])), "t", "f", "a"), map["t" := [1, 2]], ok);
    var s := ReceiveChunk(b.r, b.files, ChunkFrame(id, 0, [9]), ok);
    assert s.r.digest == [9] && s.files["t"] == [1, 2, 9];
  }
}

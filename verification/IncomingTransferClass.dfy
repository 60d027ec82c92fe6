/** IncomingTransfer as the object the source has: fields updated in place, hashing in blocks. Each method keeps the
    relation of hash and disk, says what it promises its caller, and computes the step of module IncomingTransfer. */
module IncomingTransferClass {
  import opened Bytes
  import opened ChunkCodec
  import opened Transfers
  import Spec = IncomingTransfer

  class Disk {
    var files: Files

    constructor (files: Files)
      ensures this.files == files
    {
      this.files := files;
    }
  }

  class Incoming {
    const meta: Metadata
    const temp: Path
    const final: Path
    const alternative: Path
    const disk: Disk
    const sha: Hash
    var state: TransferState
    var tempSet: bool
    var finalSet: bool
    var isOpen: bool
    var hasher: Bytes
    var bytesReceived: nat
    var nextSeq: nat
    ghost var rereadsOk: bool   // no resume so far failed to re-read the part file

    constructor (meta: Metadata, temp: Path, final: Path, alternative: Path, disk: Disk, sha: Hash)
      ensures Valid() && View() == Spec.Fresh(meta, temp, final, alternative)
      ensures this.disk == disk && this.sha == sha && rereadsOk
    {
      this.meta, this.temp, this.final, this.alternative := meta, temp, final, alternative;
      this.disk, this.sha, rereadsOk := disk, sha, true;
      state, tempSet, finalSet, isOpen, hasher, bytesReceived, nextSeq := Idle, false, false, false, [], 0, 0;
    }

    ghost function View(): Spec.Receiver
      reads this
    {
      Spec.Receiver(meta, temp, final, alternative, state, tempSet, finalSet, isOpen, hasher, bytesReceived, nextSeq)
    }

    /** While chunks flow the hash has absorbed exactly the part file (after a resume: unless a re-read failed), and
        an interrupted part file is the beginning of what was hashed. */
    ghost predicate Valid()
      reads this, disk
    {
      Spec.Related(View(), disk.files, rereadsOk)
    }

    /** Everything on disk but the part file. */
    ghost function Others(): Files
      reads this, disk
    {
      disk.files - {temp}
    }

    ghost predicate Became(s: Spec.Step)
      reads this, disk
    {
      View() == s.r && disk.files == s.files
    }

    method DoBegin(os: Spec.Os) returns (v: Spec.Verdict)
      modifies this`state, this`tempSet, this`finalSet, this`isOpen, disk
      ensures var s := Spec.Begin(old(View()), old(disk.files), os); Became(s) && v == s.verdict
    {
      if !InTable(state, Accepted) {
        return Spec.Raised(Spec.BadState);
      }
      state := Accepted;
      if !os.stagingOk {
        state := Failed;
        return Spec.Raised(Spec.Io);
      }
      tempSet := true;
      if !os.pathSafe {
        return Spec.Raised(Spec.Unsafe);
      }
      finalSet := true;
      if !os.openOk {
        state := Failed;
        return Spec.Raised(Spec.Io);
      }
      disk.files := disk.files[temp := []];
      isOpen := true;
      state := Transferring;
      v := Spec.Done;
    }

    /** A transfer that begins starts from an empty part file, whatever was left there; one that does not leaves the
        disk alone. */
    method Begin(os: Spec.Os) returns (v: Spec.Verdict)
      requires Valid()
      modifies this, disk
      ensures Valid() && rereadsOk == old(rereadsOk) && Others() == old(Others())
      ensures v == Spec.Done <==> old(state) in {Idle, Requested} && os.stagingOk && os.pathSafe && os.openOk
      ensures v == Spec.Done ==> state == Transferring && disk.files == old(disk.files)[temp := []] && hasher == []
      ensures var entered := old(state) in {Idle, Requested} && os.stagingOk;
              && tempSet == (old(tempSet) || entered) && finalSet == (old(finalSet) || (entered && os.pathSafe))
      ensures v != Spec.Done ==>
                && disk.files == old(disk.files)
                && state == if old(state) !in {Idle, Requested} then old(state)
                            else if os.stagingOk && !os.pathSafe then Accepted else Failed
      ensures var s := Spec.Begin(old(View()), old(disk.files), os); Became(s) && v == s.verdict
    {
      ghost var r, files := View(), disk.files;
      v := DoBegin(os);
      Spec.BeginDecides(r, files, os);
      Spec.RelatedOthers(sha, r, files, Spec.Call(Spec.OpBegin, os), rereadsOk);
    }

    method CleanupTemp(os: Spec.Os)
      modifies disk
      ensures disk.files == Spec.Cleanup(View(), old(disk.files), os)
    {
      if tempSet && temp in disk.files && os.unlinkOk {
        disk.files := Unlink(disk.files, temp);
      }
    }

    method DoReceiveChunk(c: ChunkFrame, os: Spec.Os) returns (v: Spec.Verdict)
      modifies this`state, this`isOpen, this`hasher, this`bytesReceived, this`nextSeq, disk
      ensures var s := Spec.ReceiveChunk(old(View()), old(disk.files), c, os); Became(s) && v == s.verdict
    {
      if state != Transferring && state != Resuming {
        return Spec.Raised(Spec.BadState);
      }
      if c.id != meta.id {
        return Spec.Raised(Spec.WrongTransfer);
      }
      if c.seqNo != nextSeq {
        return Spec.Raised(Spec.OutOfOrder);
      }
      if |c.data| > meta.chunkSize {
        return Spec.Raised(Spec.TooBig);
      }
      if !isOpen {
        return Spec.Raised(Spec.NoHandle);
      }
      if !os.writeOk {
        isOpen := false;
        CleanupTemp(os);
        state := Failed;
        return Spec.Raised(Spec.Io);
      }
      disk.files := Append(disk.files, temp, c.data);
      hasher := hasher + c.data;
      bytesReceived := bytesReceived + |c.data|;
      nextSeq := nextSeq + 1;
      v := Spec.Done;
    }

    /** Accepts exactly the next chunk of this transfer, and appends its data to the part file and to the hash. */
    method ReceiveChunk(c: ChunkFrame, os: Spec.Os) returns (v: Spec.Verdict)
      requires Valid()
      modifies this, disk
      ensures Valid() && rereadsOk == old(rereadsOk) && Others() == old(Others())
      ensures v == Spec.Done <==>
                && old(state) in {Transferring, Resuming} && old(isOpen) && os.writeOk
                && c.id == meta.id && c.seqNo == old(nextSeq) && |c.data| <= meta.chunkSize
      ensures v == Spec.Done ==>
                && state == old(state) && hasher == old(hasher) + c.data
                && bytesReceived == old(bytesReceived) + |c.data| && nextSeq == old(nextSeq) + 1
                && (old(temp in disk.files) ==>
                      temp in disk.files && disk.files[temp] == old(disk.files[temp]) + c.data)
      ensures v == Spec.Raised(Spec.Io) <==>
                && old(state) in {Transferring, Resuming} && old(isOpen) && !os.writeOk
                && c.id == meta.id && c.seqNo == old(nextSeq) && |c.data| <= meta.chunkSize
      ensures v == Spec.Raised(Spec.Io) ==>
                && state == Failed && !isOpen
                && disk.files == if tempSet && os.unlinkOk then old(disk.files) - {temp} else old(disk.files)
      ensures v != Spec.Done && v != Spec.Raised(Spec.Io) ==> View() == old(View()) && disk.files == old(disk.files)
    {
      ghost var r, files := View(), disk.files;
      v := DoReceiveChunk(c, os);
      Spec.ChunkPromises(r, files, c, os, rereadsOk);
      Spec.RefusedChunkPromises(r, files, c, os);
    }

    method DoFinalise(os: Spec.Os) returns (v: Spec.Verdict)
      modifies this`state, this`isOpen, this`hasher, this`bytesReceived, this`nextSeq, disk
      ensures var s := Spec.Finalise(sha, old(View()), old(disk.files), os); Became(s) && v == s.verdict
    {
      if isOpen {
        if !os.flushOk {
          return Spec.Raised(Spec.Io);
        }
        isOpen := false;
      }
      var actual := sha(hasher);
      if actual != meta.sha256 {
        CleanupTemp(os);
        if !InTable(state, Failed) {
          return Spec.Raised(Spec.BadState);
        }
        state := Failed;
        return Spec.Returned(false);
      }
      if !tempSet || !finalSet {
        return Spec.Raised(Spec.Unset);
      }
      var dest := final;
      if dest in disk.files {
        dest := alternative;
      }
      if !os.renameOk || temp !in disk.files {
        return Spec.Raised(Spec.Io);
      }
      disk.files := Rename(disk.files, temp, dest);
      if !InTable(state, Completed) {
        return Spec.Raised(Spec.BadState);
      }
      state := Completed;
      v := Spec.Returned(true);
    }

    /** True means that the announced hash was met: the part file is now the destination, or the alternative if the
        destination was taken, and nothing else on disk has changed. False means that the hash was wrong, and the part
        file is gone if it can be unlinked. */
    method Finalise(os: Spec.Os) returns (v: Spec.Verdict)
      requires Valid()
      modifies this, disk
      ensures Valid() && rereadsOk == old(rereadsOk)
      ensures v == Spec.Returned(true) <==>
                && old(state) in {Transferring, Resuming} && (old(isOpen) ==> os.flushOk)
                && sha(old(hasher)) == meta.sha256 && os.renameOk && old(temp in disk.files)
      ensures v == Spec.Returned(true) ==>
                && state == Completed
                && (old(final !in disk.files) ==>
                      disk.files == (old(disk.files) - {temp})[final := old(disk.files[temp])])
                && (old(final in disk.files) ==>
                      disk.files == (old(disk.files) - {temp})[alternative := old(disk.files[temp])])
                && (rereadsOk ==> sha(old(disk.files[temp])) == meta.sha256)
      ensures v == Spec.Returned(false) <==>
                !Terminal(old(state)) && (old(isOpen) ==> os.flushOk) && sha(old(hasher)) != meta.sha256
      ensures v == Spec.Returned(false) ==>
                && state == Failed
                && disk.files == if tempSet && os.unlinkOk then old(disk.files) - {temp} else old(disk.files)
      ensures v.Raised? ==> state == old(state)
      ensures v.Raised? && old(state) in {Transferring, Resuming} ==> disk.files == old(disk.files)
    {
      ghost var r, files := View(), disk.files;
      v := DoFinalise(os);
      Spec.FinalisePromises(sha, r, files, os, rereadsOk);
      Spec.FinaliseDecides(sha, r, files, os);
    }

    /** Flush and close; when that fails, only a first part of the file has reached the disk. */
    method CloseHandle(os: Spec.Os)
      modifies this`isOpen, disk
      ensures !isOpen && disk.files == Spec.AfterClose(old(View()), old(disk.files), os)
    {
      if isOpen {
        if !os.flushOk && temp in disk.files {
          disk.files := disk.files[temp := disk.files[temp][..Min(os.survives, |disk.files[temp]|)]];
        }
        isOpen := false;
      }
    }

    method RetainPart(onDisk: nat, os: Spec.Os) returns (v: Spec.Verdict)
      requires onDisk > 0 ==> temp in disk.files && onDisk == |disk.files[temp]|
      modifies this`state, this`bytesReceived, this`nextSeq, disk
      ensures var s := Spec.Retain(old(View()), old(disk.files), onDisk, os); Became(s) && v == s.verdict
    {
      bytesReceived := onDisk;
      var aligned := 0;
      if meta.chunkSize > 0 {
        nextSeq := onDisk / meta.chunkSize;
        aligned := ChunkFloor(onDisk, meta.chunkSize);
      }
      if aligned < onDisk && os.truncateOk {
        disk.files := disk.files[temp := disk.files[temp][..aligned]];
        bytesReceived := aligned;
      }
      if !InTable(state, Interrupted) {
        return Spec.Raised(Spec.BadState);
      }
      state := Interrupted;
      v := Spec.Done;
    }

    method DoInterrupt(os: Spec.Os) returns (v: Spec.Verdict)
      modifies this`state, this`isOpen, this`hasher, this`bytesReceived, this`nextSeq, disk
      ensures var s := Spec.Interrupt(old(View()), old(disk.files), os); Became(s) && v == s.verdict
    {
      if state in {Interrupted, Completed, Failed, Cancelled} {
        return Spec.Done;
      }
      if state != Transferring && state != Accepted {
        state := Failed;
        return Spec.Done;
      }
      if meta.fileSize == 0 {
        state := Failed;
        return Spec.Done;
      }
      CloseHandle(os);
      var onDisk := 0;
      if tempSet && temp in disk.files && os.statOk {
        onDisk := |disk.files[temp]|;
      }
      if onDisk == 0 && bytesReceived == 0 {
        state := Failed;
        return Spec.Done;
      }
      v := RetainPart(onDisk, os);
    }

    /** An interrupted transfer keeps a first part of what it had received, in whole chunks if the truncate worked; a
        resumed one, and one of which nothing arrived, fails; one that is over or interrupted stays as it is. */
    method Interrupt(os: Spec.Os) returns (v: Spec.Verdict)
      requires Valid()
      modifies this, disk
      ensures Valid() && rereadsOk == old(rereadsOk) && Others() == old(Others()) && hasher == old(hasher)
      ensures old(state) == Interrupted || Terminal(old(state)) ==>
                View() == old(View()) && disk.files == old(disk.files)
      ensures var onDisk := if os.statOk then Spec.Flushed(old(View()), old(disk.files), os) else 0;
              old(state) == Transferring ==>
                state == if meta.fileSize > 0 && (onDisk > 0 || old(bytesReceived) > 0) then Interrupted else Failed
      ensures old(state) == Transferring && state == Interrupted && old(temp in disk.files) && meta.chunkSize > 0 ==>
                && v == Spec.Done && !isOpen && temp in disk.files && disk.files[temp] <= old(disk.files[temp])
                && bytesReceived == (if os.statOk then |disk.files[temp]| else 0)
                && var flushed := Spec.Flushed(old(View()), old(disk.files), os);
                   var part := disk.files[temp];
                && (os.statOk && os.truncateOk ==>
                      && |part| % meta.chunkSize == 0 && |part| <= flushed < |part| + meta.chunkSize
                      && nextSeq == |part| / meta.chunkSize)
                && (!os.statOk || !os.truncateOk ==> |part| == flushed)
      ensures var onDisk := if tempSet && os.statOk then Spec.Flushed(old(View()), old(disk.files), os) else 0;
              old(state) == Accepted ==>
                if meta.fileSize > 0 && (onDisk > 0 || old(bytesReceived) > 0)
                then state == Accepted && v == Spec.Raised(Spec.BadState) else state == Failed
      ensures old(state) == Resuming || old(state) == Idle ==> state == Failed && disk.files == old(disk.files)
    {
      ghost var r, files := View(), disk.files;
      v := DoInterrupt(os);
      Spec.InterruptPromises(r, files, os, rereadsOk);
      Spec.InterruptDecides(r, files, os);
      if r.state == Transferring && state == Interrupted && temp in files && meta.chunkSize > 0 {
        Spec.InterruptCuts(r, files, os);
      }
    }

    /** Hashing a file in blocks of 64 KiB absorbs exactly its bytes. */
    method HashFile(limit: nat) returns (absorbed: Bytes)
      requires temp in disk.files && limit <= |disk.files[temp]|
      ensures absorbed == disk.files[temp][..limit]
    {
      var file := disk.files[temp];
      var pos := 0;
      absorbed := [];
      while pos < limit
        invariant pos <= limit && absorbed == file[..pos]
      {
        var block := file[pos..Min(pos + 65536, limit)];
        absorbed := absorbed + block;
        pos := pos + |block|;
      }
    }

    method DoPrepare(expectedBytes: Option<nat>, expectedIndex: Option<nat>) returns (p: Spec.Prepared)
      modifies this`bytesReceived, this`nextSeq
      ensures (View(), p) == Spec.PrepareResume(sha, old(View()), disk.files, expectedBytes, expectedIndex)
    {
      if state != Interrupted {
        return Spec.Refused(Spec.BadState);
      }
      if !tempSet || temp !in disk.files {
        return Spec.Refused(Spec.NotFound);
      }
      var diskSize := |disk.files[temp]|;
      if diskSize == 0 {
        return Spec.Refused(Spec.EmptyPart);
      }
      if meta.fileSize <= 0 || diskSize > meta.fileSize || meta.chunkSize <= 0 {
        return Spec.Refused(Spec.BadSize);
      }
      if diskSize % meta.chunkSize != 0 {
        return Spec.Refused(Spec.Misaligned);
      }
      var index := diskSize / meta.chunkSize;
      if expectedBytes.Some? && expectedBytes.value != diskSize {
        return Spec.Refused(Spec.Inconsistent);
      }
      if expectedIndex.Some? && expectedIndex.value != index {
        return Spec.Refused(Spec.Inconsistent);
      }
      var absorbed := HashFile(diskSize);
      assert absorbed == disk.files[temp];
      bytesReceived, nextSeq := diskSize, index;
      var payload := Spec.ResumePayload(meta.id, diskSize, index, sha(absorbed));
      if !Spec.PayloadValid(payload, CHUNK_SIZE) {
        return Spec.Refused(Spec.InvalidPayload);
      }
      p := Spec.Payload(payload);
    }

    /** A request is made for exactly the nonempty part files of an interrupted transfer that are whole chunks of 65536
        bytes and agree with what the caller expects. It names the length and the hash of the part file. */
    method PrepareResumeRequest(expectedBytes: Option<nat>, expectedIndex: Option<nat>) returns (p: Spec.Prepared)
      requires Valid()
      modifies this
      ensures Valid() && rereadsOk == old(rereadsOk) && state == old(state)
      ensures var n := |Content(disk.files, temp)|;
              && (p.Payload? <==>
                    && state == Interrupted && tempSet && 0 < n <= meta.fileSize && n <= MAX_FILE_SIZE
                    && meta.chunkSize == CHUNK_SIZE && n % CHUNK_SIZE == 0
                    && Spec.LowerHex64(sha(disk.files[temp]))
                    && expectedBytes in {None, Some(n)} && expectedIndex in {None, Some(n / CHUNK_SIZE)})
              && (p.Payload? ==>
                    && p.payload == Spec.ResumePayload(meta.id, n, n / CHUNK_SIZE, sha(disk.files[temp]))
                    && bytesReceived == n && nextSeq == n / CHUNK_SIZE)
      ensures (View(), p) == Spec.PrepareResume(sha, old(View()), disk.files, expectedBytes, expectedIndex)
    {
      ghost var r := View();
      p := DoPrepare(expectedBytes, expectedIndex);
      Spec.PrepareDecides(sha, r, disk.files, expectedBytes, expectedIndex);
    }

    method DoResume(chunkIndex: nat, os: Spec.Os) returns (v: Spec.Verdict)
      modifies this`state, this`isOpen, this`hasher, this`bytesReceived, this`nextSeq
      ensures var s := Spec.Resume(old(View()), disk.files, chunkIndex, os); View() == s.r && v == s.verdict
    {
      if state != Interrupted && state != ResumeRequested {
        return Spec.Raised(Spec.BadState);
      }
      if state == Interrupted {
        state := ResumeRequested;
      }
      if !tempSet || temp !in disk.files {
        state := Failed;
        return Spec.Raised(Spec.NotFound);
      }
      if !os.openOk {
        state := Failed;
        return Spec.Raised(Spec.Io);
      }
      isOpen := true;
      var size := |disk.files[temp]|;
      hasher := HashFile(if os.rereadOk then size else Min(os.reread, size));
      bytesReceived := size;
      nextSeq := chunkIndex;
      state := Resuming;
      v := Spec.Done;
    }

    /** A resumed transfer continues behind the part file, with a hash of exactly that file if it could be read. */
    method Resume(chunkIndex: nat, os: Spec.Os) returns (v: Spec.Verdict)
      requires Valid()
      modifies this`state, this`isOpen, this`hasher, this`bytesReceived, this`nextSeq, this`rereadsOk
      ensures Valid() && rereadsOk == (old(rereadsOk) && (v != Spec.Done || os.rereadOk))
      ensures v == Spec.Done ==>
                && state == Resuming && temp in disk.files && bytesReceived == |disk.files[temp]|
                && nextSeq == chunkIndex && (os.rereadOk ==> hasher == disk.files[temp])
      ensures v == Spec.Done <==>
                old(state) in {Interrupted, ResumeRequested} && tempSet && temp in disk.files && os.openOk
      ensures v != Spec.Done ==>
                state == if old(state) in {Interrupted, ResumeRequested} then Failed else old(state)
    {
      ghost var r, files, complete := View(), disk.files, rereadsOk;
      v := DoResume(chunkIndex, os);
      rereadsOk := complete && (v != Spec.Done || os.rereadOk);
      assert View() == Spec.Resume(r, files, chunkIndex, os).r;
      Spec.ResumePromises(sha, r, files, chunkIndex, os, complete);
    }

    /** From every state: the transfer is over and its part file gone, unless it cannot be unlinked. */
    method Cancel(os: Spec.Os)
      requires Valid()
      modifies this, disk
      ensures Valid() && rereadsOk == old(rereadsOk) && Others() == old(Others())
      ensures state == Cancelled && !isOpen && (tempSet && os.unlinkOk ==> temp !in disk.files)
      ensures Became(Spec.Cancel(old(View()), old(disk.files), os))
    {
      isOpen := false;
      CleanupTemp(os);
      state := Cancelled;
    }
  }
}

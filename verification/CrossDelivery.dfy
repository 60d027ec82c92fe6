/** Files between the two platforms: what one side's sender puts on the wire, received by the other side. */
module CrossDelivery {
  import opened Bytes
  import opened ChunkCodec
  import opened Transfers
  import opened OutgoingTransfer
  import opened AndroidSender
  import Linux = LinuxDelivery
  import LinuxReceiver = IncomingTransfer
  import Android = AndroidResume
  import AndroidReceiver

  // ----- Linux to Android -----

  /** The data of the chunks, as pieces. */
  function Pieces(chunks: seq<ChunkFrame>): (pieces: seq<Bytes>)
    ensures |pieces| == |chunks| && forall i :: 0 <= i < |chunks| ==> pieces[i] == chunks[i].data
  {
    seq(|chunks|, i requires 0 <= i < |chunks| => chunks[i].data)
  }

  lemma {:induction false} PayloadsAreConcat(chunks: seq<ChunkFrame>)
    ensures Payloads(chunks) == Concat(Pieces(chunks))
  {
    if chunks == [] {
      assert Pieces(chunks) == [];
    } else {
      var n := |chunks| - 1;
      PayloadsAreConcat(chunks[..n]);
      PayloadsSnoc(chunks, n);
      assert chunks[..n + 1] == chunks;
      assert Pieces(chunks)[..n] == Pieces(chunks[..n]);
    }
  }

  /** Below 2^31 an Int counts like a number. */
  lemma {:induction false} NumberCounts(start: nat, n: nat)
    requires start + n < TWO_TO_THE_32 / 2
    ensures Number(start, n) == start + n
  {
    if n > 0 {
      NumberCounts(start, n - 1);
    }
  }

  /** The frames a Linux sender streams are, to the Android decoder, a cut of the rest of the file. */
  lemma LinuxStreamIsACut(frames: seq<Bytes>, id: TransferId, source: Bytes, index: nat)
    requires Streams(frames, id, source, index) && |frames| == |ChunksFrom(id, source, index)|
    requires index <= ChunkCount(|source|, CHUNK_SIZE) && |source| <= MAX_FILE_SIZE
    ensures CutsInto(frames, Pieces(ChunksFrom(id, source, index)), id, index,
                     if Offset(index) <= |source| then source[Offset(index)..] else [])
  {
    var owed := ChunksFrom(id, source, index);
    ChunksCoverTheRest(id, source, index);
    PayloadsAreConcat(owed);
    assert ChunkCount(|source|, CHUNK_SIZE) <= 163840;
    forall i | 0 <= i < |frames| ensures DecodeAndroid(frames[i]) == Decoded(ChunkFrame(id, Number(index, i), owed[i].data)) {
      NumberCounts(index, i);
      DecodersAgree(frames[i]);
      assert Decode(frames[i]) == Decoded(owed[i]);
    }
  }

  /** From wherever an Android receiver stands at a boundary of 64 KiB: receiving everything that a Linux sender
      streams from that index makes finalise publish the source. */
  lemma LinuxToAndroidDelivers(sha: Hash, source: Bytes, w: Android.World, frames: seq<Bytes>, os: AndroidReceiver.Os)
    requires Android.Honest(sha, source, w) && AndroidReceiver.Receiving(w.r) && w.skipFrom == w.skipTo
    requires w.r.meta.chunkSize == CHUNK_SIZE && os.writeOk && os.renameOk
    requires 0 <= w.r.nextSeq && w.r.bytesReceived == Offset(w.r.nextSeq)
    requires Streams(frames, w.r.meta.id, source, w.r.nextSeq)
    requires |frames| == |ChunksFrom(w.r.meta.id, source, w.r.nextSeq)|
    ensures var (r, files) := Android.Feed(w.r, w.files, frames, os);
            var f := AndroidReceiver.Finalise(sha, r, files, os);
            f.verdict == AndroidReceiver.Returned(true) && f.files[AndroidReceiver.Destination(r, files)] == source
  {
    var n := w.r.bytesReceived;
    var rest := source[n..];
    Linux.OffsetBound(w.r.nextSeq, |source|);
    LinuxStreamIsACut(frames, w.r.meta.id, source, w.r.nextSeq);
    Android.FeedCuts(w.r, w.files, frames, Pieces(ChunksFrom(w.r.meta.id, source, w.r.nextSeq)), rest, os);
    Android.HonestDigest(sha, source, w);
    assert source[..n] + rest == source;
    Android.WholeFileIsPublished(sha, source, Android.Advanced(w.r, rest, Number(w.r.nextSeq, |frames|)),
                                 Android.Grown(w.files, w.r.temp, rest), os);
  }

  // ----- Android to Linux -----

  /** Up to 2^32 the wrapping Int, read as an unsigned word, counts on. */
  lemma {:induction false} WordCounts(start: nat, n: nat)
    requires start < TWO_TO_THE_32 / 2 && start + n < TWO_TO_THE_32
    ensures -TWO_TO_THE_32 / 2 <= Number(start, n) < TWO_TO_THE_32 / 2 && Word32(Number(start, n)) == start + n
  {
    if n > 0 {
      WordCounts(start, n - 1);
    }
  }

  /** The number after that is 0 again, and a Linux receiver refuses it. */
  lemma NumbersRunOut(r: LinuxReceiver.Receiver, files: Files, c: ChunkFrame, os: LinuxReceiver.Os, start: nat, n: nat)
    requires start < TWO_TO_THE_32 / 2 && start + n == TWO_TO_THE_32
    requires Linux.Receiving(r) && r.nextSeq == TWO_TO_THE_32 && c.id == r.meta.id && c.seqNo == Number(start, n)
    ensures c.seqNo == 0
    ensures LinuxReceiver.ReceiveChunk(r, files, c, os).verdict == LinuxReceiver.Raised(LinuxReceiver.OutOfOrder)
  {
    WordCounts(start, n - 1);
  }

  /** The chunks of a cut as the Linux decoder numbers them. */
  function Numbered(id: TransferId, start: nat, pieces: seq<Bytes>): (chunks: seq<ChunkFrame>)
    ensures |chunks| == |pieces|
    ensures forall i :: 0 <= i < |pieces| ==> chunks[i] == ChunkFrame(id, start + i, pieces[i])
  {
    seq(|pieces|, i requires 0 <= i < |pieces| => ChunkFrame(id, start + i, pieces[i]))
  }

  lemma UnsignedReading(frame: Bytes, c: ChunkFrame)
    requires DecodeAndroid(frame) == Decoded(c)
    ensures -TWO_TO_THE_32 / 2 <= c.seqNo < TWO_TO_THE_32 / 2
    ensures Decode(frame) == Decoded(ChunkFrame(c.id, Word32(c.seqNo), c.data))
  {
    DecodersAgree(frame);
    Word32Bound(frame[20..24]);
  }

  lemma LinuxReadsACut(frames: seq<Bytes>, pieces: seq<Bytes>, id: TransferId, start: nat, data: Bytes)
    requires CutsInto(frames, pieces, id, start, data)
    requires start < TWO_TO_THE_32 / 2 && start + |frames| <= TWO_TO_THE_32
    ensures forall i :: 0 <= i < |frames| ==> Decode(frames[i]) == Decoded(Numbered(id, start, pieces)[i])
  {
    forall i | 0 <= i < |frames| ensures Decode(frames[i]) == Decoded(Numbered(id, start, pieces)[i]) {
      WordCounts(start, i);
      UnsignedReading(frames[i], ChunkFrame(id, Number(start, i), pieces[i]));
    }
  }

  lemma FeedSnoc(r: LinuxReceiver.Receiver, files: Files, chunks: seq<ChunkFrame>, c: ChunkFrame, os: LinuxReceiver.Os)
    ensures var (r1, files1) := Linux.FeedChunks(r, files, chunks, os);
            var s := LinuxReceiver.ReceiveChunk(r1, files1, c, os);
            Linux.FeedChunks(r, files, chunks + [c], os) == (s.r, s.files)
    decreases |chunks|
  {
    if chunks == [] {
      assert ([c])[1..] == [];
      assert [] + [c] == [c];
    } else {
      var s := LinuxReceiver.ReceiveChunk(r, files, chunks[0], os);
      FeedSnoc(s.r, s.files, chunks[1..], c, os);
      assert (chunks + [c])[1..] == chunks[1..] + [c];
    }
  }

  lemma {:induction false} FeedPieces(r: LinuxReceiver.Receiver, files: Files, pieces: seq<Bytes>, os: LinuxReceiver.Os)
    requires Linux.Receiving(r) && r.isOpen && r.temp in files && os.writeOk
    requires forall i :: 0 <= i < |pieces| ==> |pieces[i]| <= r.meta.chunkSize
    ensures Linux.FeedChunks(r, files, Numbered(r.meta.id, r.nextSeq, pieces), os)
         == (Linux.Advanced(r, Concat(pieces), |pieces|), Append(files, r.temp, Concat(pieces)))
  {
    var chunks := Numbered(r.meta.id, r.nextSeq, pieces);
    if pieces == [] {
      assert r.hasher + [] == r.hasher && files[r.temp] + [] == files[r.temp];
      assert Append(files, r.temp, []) == files && chunks == [];
    } else {
      var n := |pieces| - 1;
      var before, last := Concat(pieces[..n]), pieces[n];
      FeedPieces(r, files, pieces[..n], os);
      assert chunks == Numbered(r.meta.id, r.nextSeq, pieces[..n]) + [chunks[n]];
      FeedSnoc(r, files, Numbered(r.meta.id, r.nextSeq, pieces[..n]), chunks[n], os);
      OneMore(r, files, before, n, chunks[n], os);
    }
  }

  lemma OneMore(r: LinuxReceiver.Receiver, files: Files, before: Bytes, n: nat, c: ChunkFrame, os: LinuxReceiver.Os)
    requires Linux.Receiving(r) && r.isOpen && r.temp in files && os.writeOk
    requires c.id == r.meta.id && c.seqNo == r.nextSeq + n && |c.data| <= r.meta.chunkSize
    ensures var s := LinuxReceiver.ReceiveChunk(Linux.Advanced(r, before, n), Append(files, r.temp, before), c, os);
            && s.r == Linux.Advanced(r, before + c.data, n + 1) && s.files == Append(files, r.temp, before + c.data)
  {
    assert r.hasher + before + c.data == r.hasher + (before + c.data);
    Linux.AppendTwice(files, r.temp, before, c.data);
  }

  lemma FeedCut(r: LinuxReceiver.Receiver, files: Files, frames: seq<Bytes>, data: Bytes, os: LinuxReceiver.Os)
    requires Linux.Receiving(r) && r.isOpen && r.temp in files && os.writeOk && r.meta.chunkSize == CHUNK_SIZE
    requires Cuts(frames, r.meta.id, r.nextSeq, data)
    requires r.nextSeq < TWO_TO_THE_32 / 2 && r.nextSeq + |frames| <= TWO_TO_THE_32
    ensures Linux.Feed(r, files, frames, os) == (Linux.Advanced(r, data, |frames|), Append(files, r.temp, data))
  {
    var pieces: seq<Bytes> :| CutsInto(frames, pieces, r.meta.id, r.nextSeq, data);
    LinuxReadsACut(frames, pieces, r.meta.id, r.nextSeq, data);
    Linux.FeedDecodes(r, files, frames, Numbered(r.meta.id, r.nextSeq, pieces), os);
    FeedPieces(r, files, pieces, os);
  }

  /** From wherever an honest run of a Linux receiver stands, on any boundary: receiving everything that an Android
      sender streams from there, in any pattern of short reads that needs no more than 2^32 numbers, makes finalise
      publish the source. */
  lemma AndroidToLinuxDelivers(sha: Hash, source: Bytes, w: Linux.World, frames: seq<Bytes>, os: LinuxReceiver.Os)
    requires Linux.Honest(sha, source, w) && Linux.Receiving(w.r) && w.skipFrom == w.skipTo
    requires w.r.meta.chunkSize == CHUNK_SIZE && os.writeOk && os.flushOk && os.renameOk
    requires Cuts(frames, w.r.meta.id, w.seqNo, source[w.sent..])
    requires w.seqNo < TWO_TO_THE_32 / 2 && w.seqNo + |frames| <= TWO_TO_THE_32
    ensures var (r, files) := Linux.Feed(w.r, w.files, frames, os);
            var s := LinuxReceiver.Finalise(sha, r, files, os);
            && s.verdict == LinuxReceiver.Returned(true)
            && s.files[LinuxReceiver.Destination(r, files)] == source
  {
    var rest := source[w.sent..];
    FeedCut(w.r, w.files, frames, rest, os);
    Linux.HonestHash(sha, source, w);
    assert source[..w.sent] + rest == source;
    Linux.FinaliseComplete(sha, Linux.Advanced(w.r, rest, |frames|), Append(w.files, w.r.temp, rest), source, os);
  }
}

/** The Linux sender: reading a file chunk by chunk into encoded frames, from the start or from a resume point. */
module OutgoingTransfer {
  import opened Bytes
  import opened ChunkCodec
  import opened Transfers

  /** Where the sender seeks for a chunk index: index * CHUNK_SIZE. */
  function Offset(index: nat): nat {
    index * 65536
  }

  /** What fh.read(CHUNK_SIZE) returns at an offset. Seeking past the end is allowed and reads nothing. */
  function ReadAt(source: Bytes, offset: nat): (data: Bytes)
    ensures |data| <= CHUNK_SIZE
  {
    if offset >= |source| then [] else source[offset..Min(offset + CHUNK_SIZE, |source|)]
  }

  /** The chunks the sender owes from a chunk index on. */
  function ChunksFrom(id: TransferId, source: Bytes, index: nat): seq<ChunkFrame>
    decreases |source| - Offset(index)
  {
    if Offset(index) >= |source| then []
    else [ChunkFrame(id, index, ReadAt(source, Offset(index)))] + ChunksFrom(id, source, index + 1)
  }

  function Payloads(chunks: seq<ChunkFrame>): Bytes {
    if chunks == [] then [] else chunks[0].data + Payloads(chunks[1..])
  }

  lemma {:induction false} CountTheRest(id: TransferId, source: Bytes, index: nat)
    requires index <= ChunkCount(|source|, CHUNK_SIZE)
    ensures |ChunksFrom(id, source, index)| == ChunkCount(|source|, CHUNK_SIZE) - index
    decreases |source| - Offset(index)
  {
    if Offset(index) < |source| {
      CountTheRest(id, source, index + 1);
    }
  }

  lemma NextOffset(source: Bytes, index: nat)
    requires Offset(index) < |source|
    ensures var data, rest := ReadAt(source, Offset(index)), source[Offset(index)..];
            data + (if Offset(index + 1) <= |source| then source[Offset(index + 1)..] else []) == rest
  {
  }

  lemma PayloadsCons(c: ChunkFrame, rest: seq<ChunkFrame>)
    ensures Payloads([c] + rest) == c.data + Payloads(rest)
  {
    assert ([c] + rest)[1..] == rest;
  }

  lemma {:induction false} PayloadsAreTheRest(id: TransferId, source: Bytes, index: nat)
    ensures Payloads(ChunksFrom(id, source, index)) == if Offset(index) <= |source| then source[Offset(index)..] else []
    decreases |source| - Offset(index)
  {
    if Offset(index) < |source| {
      PayloadsAreTheRest(id, source, index + 1);
      PayloadsCons(ChunkFrame(id, index, ReadAt(source, Offset(index))), ChunksFrom(id, source, index + 1));
      NextOffset(source, index);
    }
  }

  /** The chunks carry exactly the rest of the file, are numbered consecutively from the index, and are as many
      as the announced chunk_count leaves after the index. */
  lemma ChunksCoverTheRest(id: TransferId, source: Bytes, index: nat)
    requires index <= ChunkCount(|source|, CHUNK_SIZE)
    ensures var cs := ChunksFrom(id, source, index);
            && |cs| == ChunkCount(|source|, CHUNK_SIZE) - index
            && Payloads(cs) == (if Offset(index) <= |source| then source[Offset(index)..] else [])
            && (forall i :: 0 <= i < |cs| ==> cs[i].id == id && cs[i].seqNo == index + i && 0 < |cs[i].data| <= CHUNK_SIZE)
  {
    CountTheRest(id, source, index);
    PayloadsAreTheRest(id, source, index);
    var cs := ChunksFrom(id, source, index);
    forall i | 0 <= i < |cs| ensures cs[i].id == id && cs[i].seqNo == index + i && 0 < |cs[i].data| <= CHUNK_SIZE {
      OwedAt(id, source, index, i);
    }
  }

  datatype StreamEnd = AllSent | StoppedByCancel | ReadFailed | OpenFailed | NumberOverflow | WrongState

  /** The frames decode to the first chunks owed from the index. */
  ghost predicate Streams(frames: seq<Bytes>, id: TransferId, source: Bytes, index: nat) {
    var owed := ChunksFrom(id, source, index);
    && |frames| <= |owed|
    && forall i :: 0 <= i < |frames| ==> IsChunkFrame(frames[i]) && Decode(frames[i]) == Decoded(owed[i])
  }

  lemma {:induction false} OwedAt(id: TransferId, source: Bytes, index: nat, n: nat)
    requires n <= |ChunksFrom(id, source, index)|
    ensures var owed := ChunksFrom(id, source, index);
            && (n < |owed| <==> Offset(index + n) < |source|)
            && (n < |owed| ==> owed[n] == ChunkFrame(id, index + n, ReadAt(source, Offset(index + n))))
    decreases n
  {
    if n > 0 {
      var owed, rest := ChunksFrom(id, source, index), ChunksFrom(id, source, index + 1);
      assert owed[1..] == rest && |owed| == |rest| + 1;
      OwedAt(id, source, index + 1, n - 1);
      assert index + 1 + (n - 1) == index + n;
      assert n < |owed| ==> owed[n] == rest[n - 1];
    }
  }

  /** Sending one more frame: the next owed chunk, and its bytes. */
  lemma StreamsSnoc(frames: seq<Bytes>, id: TransferId, source: Bytes, index: nat, frame: Bytes)
    requires Streams(frames, id, source, index) && |frames| < |ChunksFrom(id, source, index)|
    requires IsChunkFrame(frame) && Decode(frame) == Decoded(ChunksFrom(id, source, index)[|frames|])
    ensures var owed := ChunksFrom(id, source, index);
            && Streams(frames + [frame], id, source, index)
            && Payloads(owed[..|frames| + 1]) == Payloads(owed[..|frames|]) + owed[|frames|].data
  {
    PayloadsSnoc(ChunksFrom(id, source, index), |frames|);
  }

  lemma EncodedStreams(frames: seq<Bytes>, id: TransferId, source: Bytes, index: nat, c: ChunkFrame)
    requires Streams(frames, id, source, index) && |frames| < |ChunksFrom(id, source, index)|
    requires c == ChunksFrom(id, source, index)[|frames|]
    requires 0 <= c.seqNo < TWO_TO_THE_32 && |c.data| <= MAX_CHUNK_PAYLOAD
    ensures Encode(c.id, c.seqNo, c.data).Encoded?
    ensures var owed := ChunksFrom(id, source, index);
            && Streams(frames + [Encode(c.id, c.seqNo, c.data).frame], id, source, index)
            && Payloads(owed[..|frames| + 1]) == Payloads(owed[..|frames|]) + c.data
  {
    DecodeEncodeExact(c);
    StreamsSnoc(frames, id, source, index, Encode(c.id, c.seqNo, c.data).frame);
  }

  lemma Overflows(id: TransferId, seqNo: nat, data: Bytes)
    requires |data| <= MAX_CHUNK_PAYLOAD
    ensures Encode(id, seqNo, data).EncodeError? <==> seqNo >= TWO_TO_THE_32
  {
  }

  /** One more turn of the loop: the read is empty exactly at the end; otherwise its encoding is the next frame,
      unless the number runs over, which takes more than 2^32 chunks. */
  lemma NextFrame(frames: seq<Bytes>, id: TransferId, source: Bytes, index: nat, seqNo: nat, offset: nat, data: Bytes,
                  e: Encoded)
    requires Streams(frames, id, source, index) && seqNo == index + |frames| && offset == Offset(seqNo)
    requires data == ReadAt(source, offset) && e == Encode(id, seqNo, data)
    ensures data == [] <==> |frames| == |ChunksFrom(id, source, index)|
    ensures data != [] && e.EncodeError? ==> seqNo >= TWO_TO_THE_32 && |source| > Offset(TWO_TO_THE_32)
    ensures data != [] && e.Encoded? ==>
              var owed := ChunksFrom(id, source, index);
              && Streams(frames + [e.frame], id, source, index)
              && Payloads(owed[..|frames| + 1]) == Payloads(owed[..|frames|]) + data
  {
    OwedAt(id, source, index, |frames|);
    Overflows(id, seqNo, data);
    if data != [] && e.Encoded? {
      var c := ChunksFrom(id, source, index)[|frames|];
      assert c == ChunkFrame(id, seqNo, data);
      EncodedStreams(frames, id, source, index, c);
    }
  }

  class Outgoing {
    const id: TransferId
    var state: TransferState
    var bytesSent: nat
    var cancelled: bool

    constructor (id: TransferId)
      ensures this.id == id && state == Idle && bytesSent == 0 && !cancelled
    {
      this.id := id;
      state, bytesSent, cancelled := Idle, 0, false;
    }

    method Cancel()
      modifies this
      ensures cancelled && state == old(state) && bytesSent == old(bytesSent)
    {
      cancelled := true;
    }

    /** _stream_chunks_internal over a file that does not change meanwhile: opens says whether the file can be opened and
        sought in, cancels whether another task cancels before the n-th read, fails whether that read fails. All owed
        chunks are sent unless one of these, or a number beyond 32 bits, stops the stream. */
    method StreamChunks(source: Bytes, index: nat, opens: bool, cancels: nat -> bool, fails: nat -> bool)
      returns (frames: seq<Bytes>, end: StreamEnd)
      modifies this
      ensures Streams(frames, id, source, index)
      ensures bytesSent == old(bytesSent) + |Payloads(ChunksFrom(id, source, index)[..|frames|])|
      ensures Quiet(cancels, fails, |frames|)
      ensures end == (if !InTable(old(state), Transferring) then WrongState
                      else if !opens then OpenFailed
                      else if old(cancelled) || cancels(|frames|) then StoppedByCancel
                      else if fails(|frames|) then ReadFailed
                      else if |frames| == |ChunksFrom(id, source, index)| then AllSent
                      else NumberOverflow)
      ensures old(cancelled) || end in {WrongState, OpenFailed} ==> frames == []
      ensures end == NumberOverflow ==> index + |frames| >= TWO_TO_THE_32 && |source| > Offset(TWO_TO_THE_32)
      ensures state == (match end
                        case AllSent => Completed
                        case StoppedByCancel => Cancelling
                        case ReadFailed => Failed
                        case OpenFailed => Failed
                        case NumberOverflow => Transferring
                        case WrongState => old(state))
      ensures cancelled == (old(cancelled) || (end == StoppedByCancel && cancels(|frames|)))
    {
      frames := [];
      if !InTable(state, Transferring) {
        return frames, WrongState;
      }
      state := Transferring;
      if !opens {
        state := Failed;
        return frames, OpenFailed;
      }
      frames, end := SendFrom(source, index, cancels, fails);
    }

    /** The loop behind the open and the seek. */
    method SendFrom(source: Bytes, index: nat, cancels: nat -> bool, fails: nat -> bool)
      returns (frames: seq<Bytes>, end: StreamEnd)
      requires state == Transferring
      modifies this
      ensures Streams(frames, id, source, index)
      ensures bytesSent == old(bytesSent) + |Payloads(ChunksFrom(id, source, index)[..|frames|])|
      ensures Quiet(cancels, fails, |frames|)
      ensures end == (if old(cancelled) || cancels(|frames|) then StoppedByCancel
                      else if fails(|frames|) then ReadFailed
                      else if |frames| == |ChunksFrom(id, source, index)| then AllSent
                      else NumberOverflow)
      ensures old(cancelled) ==> frames == []
      ensures end == NumberOverflow ==> index + |frames| >= TWO_TO_THE_32 && |source| > Offset(TWO_TO_THE_32)
      ensures state == (match end
                        case AllSent => Completed
                        case StoppedByCancel => Cancelling
                        case ReadFailed => Failed
                        case _ => Transferring)
      ensures cancelled == (old(cancelled) || (end == StoppedByCancel && cancels(|frames|)))
    {
      frames := [];
      var seqNo, offset := index, Offset(index);
      while true
        invariant state == Transferring && cancelled == old(cancelled) && (cancelled ==> frames == [])
        invariant Quiet(cancels, fails, |frames|)
        invariant seqNo == index + |frames| && offset == Offset(seqNo)
        invariant Streams(frames, id, source, index)
        invariant bytesSent == old(bytesSent) + |Payloads(ChunksFrom(id, source, index)[..|frames|])|
        decreases |ChunksFrom(id, source, index)| - |frames|
      {
        if cancels(|frames|) {
          cancelled := true;
        }
        if cancelled {
          state := Cancelling;
          return frames, StoppedByCancel;
        }
        if fails(|frames|) {
          state := Failed;
          return frames, ReadFailed;
        }
        var chunk := ReadAt(source, offset);
        NextFrame(frames, id, source, index, seqNo, offset, chunk, Encode(id, seqNo, chunk));
        if chunk == [] {
          break;
        }
        var e := Encode(id, seqNo, chunk);
        if e.EncodeError? {
          return frames, NumberOverflow;
        }
        frames := frames + [e.frame];
        bytesSent := bytesSent + |chunk|;
        seqNo, offset := seqNo + 1, offset + CHUNK_SIZE;
      }
      if !cancelled {
        state := Completed;
      }
      end := AllSent;
    }
  }

  lemma {:induction false} PayloadsSnoc(chunks: seq<ChunkFrame>, n: nat)
    requires n < |chunks|
    ensures Payloads(chunks[..n + 1]) == Payloads(chunks[..n]) + chunks[n].data
  {
    if n == 0 {
      assert chunks[..1][1..] == [];
    } else {
      PayloadsSnoc(chunks[1..], n - 1);
      assert chunks[..n + 1][1..] == chunks[1..][..n];
      assert chunks[..n][1..] == chunks[1..][..n - 1];
    }
  }
}

/** The Android sender: streaming an InputStream whose reads may be short, through one reused buffer. */
module AndroidSender {
  import opened Bytes
  import opened ChunkCodec
  import opened AndroidReceiver
  import opened Transfers

  /** A java.io.InputStream: read blocks for at least one byte, may return fewer than asked, and -1 at the end. */
  class InputStream {
    const content: Bytes
    var pos: nat

    constructor (content: Bytes, pos: nat)
      requires pos <= |content|
      ensures this.content == content && this.pos == pos && Valid()
    {
      this.content, this.pos := content, pos;
    }

    ghost predicate Valid()
      reads this
    {
      pos <= |content|
    }

    method Read(buffer: array<Byte>, len: nat) returns (n: int)
      requires Valid() && 0 < len <= buffer.Length
      modifies this`pos, buffer
      ensures Valid()
      ensures old(pos) == |content| ==> n == -1 && pos == old(pos) && buffer[..] == old(buffer[..])
      ensures old(pos) < |content| ==> 1 <= n <= len && pos == old(pos) + n
      ensures n > 0 ==> buffer[..n] == content[old(pos)..pos] && buffer[n..] == old(buffer[n..])
    {
      if pos == |content| {
        return -1;
      }
      n :| 1 <= n <= len && n <= |content| - pos;
      for i := 0 to n
        invariant pos == old(pos)
        invariant forall k :: 0 <= k < i ==> buffer[k] == content[pos + k]
        invariant forall k :: i <= k < buffer.Length ==> buffer[k] == old(buffer[k])
      {
        buffer[i] := content[pos + i];
      }
      pos := pos + n;
    }
  }

  /** The n-th sequence number of a stream: an Int that wraps around. */
  function Number(start: int, n: nat): int {
    if n == 0 then start else Increment(Number(start, n - 1))
  }

  /** The frames cut the data into nonempty pieces of at most 64 KiB, in order, numbered from start. */
  ghost predicate Cuts(frames: seq<Bytes>, id: TransferId, start: int, data: Bytes) {
    exists pieces: seq<Bytes> :: CutsInto(frames, pieces, id, start, data)
  }

  ghost predicate CutsInto(frames: seq<Bytes>, pieces: seq<Bytes>, id: TransferId, start: int, data: Bytes) {
    && |pieces| == |frames|
    && Concat(pieces) == data
    && forall i :: 0 <= i < |frames| ==>
         && 0 < |pieces[i]| <= CHUNK_SIZE
         && DecodeAndroid(frames[i]) == Decoded(ChunkFrame(id, Number(start, i), pieces[i]))
  }

  lemma CutsSnoc(frames: seq<Bytes>, id: TransferId, start: int, data: Bytes, frame: Bytes, piece: Bytes)
    requires Cuts(frames, id, start, data) && 0 < |piece| <= CHUNK_SIZE
    requires DecodeAndroid(frame) == Decoded(ChunkFrame(id, Number(start, |frames|), piece))
    ensures Cuts(frames + [frame], id, start, data + piece)
  {
    var pieces: seq<Bytes> :| CutsInto(frames, pieces, id, start, data);
    var more := pieces + [piece];
    assert more[..|more| - 1] == pieces;
    assert CutsInto(frames + [frame], more, id, start, data + piece);
  }

  method EncodeChunk(id: TransferId, seqNo: int, data: Bytes) returns (frame: Bytes)
    requires -TWO_TO_THE_32 / 2 <= seqNo < TWO_TO_THE_32 / 2 && |data| <= CHUNK_SIZE
    ensures DecodeAndroid(frame) == Decoded(ChunkFrame(id, seqNo, data))
    ensures seqNo >= 0 ==> Decode(frame) == Decoded(ChunkFrame(id, seqNo, data))
  {
    frame := CHUNK_MAGIC + id + BigEndian(Word32(seqNo), 4) + BigEndian(|data|, 4) + data;
    assert frame == EncodeAndroid(id, seqNo, data).frame;
    AndroidToLinux(id, seqNo, data);
  }

  /** The frames so far cut the content between two places, and the next number is the one to come. */
  ghost predicate Progress(frames: seq<Bytes>, id: TransferId, start: int, content: Bytes, from: nat, to: nat,
                           seqNo: int) {
    && -TWO_TO_THE_32 / 2 <= seqNo < TWO_TO_THE_32 / 2
    && from <= to <= |content| && seqNo == Number(start, |frames|) && Cuts(frames, id, start, content[from..to])
  }

  lemma Starts(id: TransferId, start: int, content: Bytes, from: nat)
    requires from <= |content| && -TWO_TO_THE_32 / 2 <= start < TWO_TO_THE_32 / 2
    ensures Progress([], id, start, content, from, from, start)
  {
    assert CutsInto([], [], id, start, content[from..from]);
  }

  lemma Advances(frames: seq<Bytes>, id: TransferId, start: int, content: Bytes, from: nat, mid: nat, to: nat,
                 seqNo: int, frame: Bytes)
    requires Progress(frames, id, start, content, from, mid, seqNo) && mid < to <= |content| && to - mid <= CHUNK_SIZE
    requires DecodeAndroid(frame) == Decoded(ChunkFrame(id, seqNo, content[mid..to]))
    ensures Progress(frames + [frame], id, start, content, from, to, Increment(seqNo))
    ensures content[from..mid] + content[mid..to] == content[from..to]
  {
    assert content[from..mid] + content[mid..to] == content[from..to];
    CutsSnoc(frames, id, start, content[from..mid], frame, content[mid..to]);
  }

  datatype StreamResult = Streamed(sha: string) | CancelledMidway | WriteFailed

  /** One read into the buffer, and the frame of the bytes of it that were read. */
  method NextFrame(stream: InputStream, buffer: array<Byte>, id: TransferId, seqNo: int,
                   ghost frames: seq<Bytes>, ghost start: int, ghost from: nat)
    returns (bytesRead: int, chunk: Bytes, frame: Bytes)
    requires stream.Valid() && buffer.Length == CHUNK_SIZE
    requires Progress(frames, id, start, stream.content, from, stream.pos, seqNo)
    modifies stream`pos, buffer
    ensures stream.Valid()
    ensures if bytesRead == -1 then old(stream.pos) == stream.pos == |stream.content|
            else 0 < bytesRead <= CHUNK_SIZE && stream.pos == old(stream.pos) + bytesRead
    ensures bytesRead != -1 ==>
              && stream.content[from..old(stream.pos)] + chunk == stream.content[from..stream.pos]
              && Progress(frames + [frame], id, start, stream.content, from, stream.pos, Increment(seqNo))
  {
    bytesRead := stream.Read(buffer, CHUNK_SIZE);
    if bytesRead == -1 {
      return -1, [], [];
    }
    chunk := buffer[..bytesRead];
    frame := EncodeChunk(id, seqNo, chunk);
    Advances(frames, id, start, stream.content, from, old(stream.pos), stream.pos, seqNo, frame);
  }

  /** streamChunksFromStream: every pattern of short reads. cancels says whether the transfer is cancelled before the
      n-th read, fails whether the n-th write fails; nothing else keeps the stream from ending with its last byte. */
  method StreamChunksFromStream(id: TransferId, stream: InputStream, startSeq: int, sha: Hash,
                                cancels: nat -> bool, fails: nat -> bool)
    returns (frames: seq<Bytes>, result: StreamResult, ghost taken: nat)
    requires stream.Valid() && -TWO_TO_THE_32 / 2 <= startSeq < TWO_TO_THE_32 / 2
    modifies stream
    ensures stream.Valid() && old(stream.pos) <= taken <= stream.pos
    ensures Cuts(frames, id, startSeq, stream.content[old(stream.pos)..taken])
    ensures if result.WriteFailed? then 0 < stream.pos - taken <= CHUNK_SIZE else taken == stream.pos
    ensures Quiet(cancels, fails, |frames|)
    ensures result.CancelledMidway? <==> cancels(|frames|)
    ensures result.WriteFailed? ==> fails(|frames|)
    ensures result.Streamed? ==> taken == |stream.content| && result.sha == sha(stream.content[old(stream.pos)..])
  {
    frames, taken := [], stream.pos;
    var buffer := new Byte[CHUNK_SIZE];
    var digest: Bytes := [];
    var seqNo := startSeq;
    Starts(id, startSeq, stream.content, stream.pos);
    while true
      invariant fresh(buffer) && buffer.Length == CHUNK_SIZE
      invariant stream.Valid() && old(stream.pos) <= taken == stream.pos
      invariant digest == stream.content[old(stream.pos)..taken]
      invariant Progress(frames, id, startSeq, stream.content, old(stream.pos), taken, seqNo)
      invariant Quiet(cancels, fails, |frames|)
      decreases |stream.content| - stream.pos
    {
      if cancels(|frames|) {
        return frames, CancelledMidway, taken;
      }
      var bytesRead, chunk, frame := NextFrame(stream, buffer, id, seqNo, frames, startSeq, old(stream.pos));
      if bytesRead == -1 {
        break;
      }
      digest := digest + chunk;
      if fails(|frames|) {
        return frames, WriteFailed, taken;
      }
      frames, taken := frames + [frame], stream.pos;
      seqNo := Increment(seqNo);
    }
    assert digest == stream.content[old(stream.pos)..];
    result := Streamed(sha(digest));
  }
}

/** The binary TRANSFER_CHUNK ("FYCH") frame, as the Linux and the Android sides encode and decode it. */
module ChunkCodec {
  import opened Bytes

  const CHUNK_MAGIC: Bytes := [0x46, 0x59, 0x43, 0x48]
  const CHUNK_HEADER_SIZE := 28
  const CHUNK_SIZE := 65536
  const MAX_CHUNK_PAYLOAD := CHUNK_SIZE
  const TWO_TO_THE_32 := 0x1_0000_0000

  /** The 16 raw bytes of a UUID. */
  type TransferId = id: Bytes | |id| == 16 witness seq(16, _ => 0 as Byte)

  datatype ChunkFrame = ChunkFrame(id: TransferId, seqNo: int, data: Bytes)

  /** Why a codec raised. */
  datatype CodecError = TooShort | BadMagic | OversizedPayload | Truncated | BadRange | SeqOutOfRange

  datatype Encoded = Encoded(frame: Bytes) | EncodeError(error: CodecError)
  datatype Decoded = Decoded(chunk: ChunkFrame) | DecodeError(error: CodecError)

  function Header(id: TransferId, word: nat, size: nat): (h: Bytes)
    ensures |h| == CHUNK_HEADER_SIZE
  {
    CHUNK_MAGIC + id + BigEndian(word, 4) + BigEndian(size, 4)
  }

  /** Linux encode_chunk_frame: struct.pack refuses a sequence number outside 32 unsigned bits. */
  function Encode(id: TransferId, seqNo: nat, data: Bytes): Encoded {
    if |data| > MAX_CHUNK_PAYLOAD then EncodeError(OversizedPayload)
    else if seqNo >= TWO_TO_THE_32 then EncodeError(SeqOutOfRange)
    else Encoded(Header(id, seqNo, |data|) + data)
  }

  predicate IsChunkFrame(plaintext: Bytes) {
    |plaintext| >= 4 && plaintext[..4] == CHUNK_MAGIC
  }

  /** Linux decode_chunk_frame. */
  function Decode(plaintext: Bytes): Decoded {
    if |plaintext| < CHUNK_HEADER_SIZE then DecodeError(TooShort)
    else if plaintext[..4] != CHUNK_MAGIC then DecodeError(BadMagic)
    else
      var size := FromBigEndian(plaintext[24..28]);
      if size > MAX_CHUNK_PAYLOAD then DecodeError(OversizedPayload)
      else if |plaintext| < CHUNK_HEADER_SIZE + size then DecodeError(Truncated)
      else Decoded(ChunkFrame(plaintext[4..20], FromBigEndian(plaintext[20..24]), plaintext[28..28 + size]))
  }

  /** Reading a 32-bit word as a signed Kotlin Int. */
  function Signed32(n: nat): int
    requires n < TWO_TO_THE_32
  {
    if n < TWO_TO_THE_32 / 2 then n else n - TWO_TO_THE_32
  }

  /** Writing a Kotlin Int as four bytes. */
  function Word32(n: int): nat
    requires -TWO_TO_THE_32 / 2 <= n < TWO_TO_THE_32 / 2
  {
    if n >= 0 then n else n + TWO_TO_THE_32
  }

  /** Android encodeChunkFrame: the sequence number is a signed Int. */
  function EncodeAndroid(id: TransferId, seqNo: int, data: Bytes): Encoded
    requires -TWO_TO_THE_32 / 2 <= seqNo < TWO_TO_THE_32 / 2
  {
    if |data| > CHUNK_SIZE then EncodeError(OversizedPayload)
    else Encoded(Header(id, Word32(seqNo), |data|) + data)
  }

  /** Android decodeChunkFrame: both words are signed, so a huge length passes the size tests
      as a negative number and is stopped only by the range test of copyOfRange. */
  function DecodeAndroid(plaintext: Bytes): Decoded {
    if |plaintext| < CHUNK_HEADER_SIZE then DecodeError(TooShort)
    else if plaintext[..4] != CHUNK_MAGIC then DecodeError(BadMagic)
    else
      Word32Bound(plaintext[20..24]);
      Word32Bound(plaintext[24..28]);
      var seqNo := Signed32(FromBigEndian(plaintext[20..24]));
      var size := Signed32(FromBigEndian(plaintext[24..28]));
      if size > CHUNK_SIZE then DecodeError(OversizedPayload)
      else if |plaintext| < CHUNK_HEADER_SIZE + size then DecodeError(Truncated)
      else if size < 0 then DecodeError(BadRange)
      else Decoded(ChunkFrame(plaintext[4..20], seqNo, plaintext[28..28 + size]))
  }

  lemma Word32Bound(word: Bytes)
    requires |word| == 4
    ensures FromBigEndian(word) < TWO_TO_THE_32
  {
    FromBigEndianRoundTrip(word);
    Pow256Values();
  }

  lemma HeaderParts(id: TransferId, word: nat, size: nat, data: Bytes)
    requires word < TWO_TO_THE_32 && size < TWO_TO_THE_32
    ensures var p := Header(id, word, size) + data;
            && p[..4] == CHUNK_MAGIC && p[4..20] == id && p[28..] == data
            && FromBigEndian(p[20..24]) == word && FromBigEndian(p[24..28]) == size
  {
    var p := Header(id, word, size) + data;
    assert p[..4] == CHUNK_MAGIC && p[4..20] == id && p[28..] == data;
    assert p[20..24] == BigEndian(word, 4) && p[24..28] == BigEndian(size, 4);
    Pow256Values();
    BigEndianRoundTrip(word, 4);
    BigEndianRoundTrip(size, 4);
  }

  /** Chunks of at most 64 KiB with a number of 32 bits can be encoded, and no others; decoding such a chunk gives back
      the id, the number and the data; trailing bytes are ignored. */
  lemma DecodeEncode(id: TransferId, seqNo: nat, data: Bytes, trailing: Bytes)
    ensures Encode(id, seqNo, data).Encoded? <==> seqNo < TWO_TO_THE_32 && |data| <= 65536
    ensures seqNo < TWO_TO_THE_32 && |data| <= 65536 ==>
              && Decode(Encode(id, seqNo, data).frame + trailing) == Decoded(ChunkFrame(id, seqNo, data))
              && IsChunkFrame(Encode(id, seqNo, data).frame)
  {
    if seqNo < TWO_TO_THE_32 && |data| <= MAX_CHUNK_PAYLOAD {
      DecodeFits(id, seqNo, data, trailing);
    }
  }

  lemma DecodeParts(p: Bytes, id: TransferId, word: nat, data: Bytes)
    requires |p| >= 28 + |data| && |data| <= MAX_CHUNK_PAYLOAD && p[..4] == CHUNK_MAGIC && p[4..20] == id
    requires FromBigEndian(p[20..24]) == word && FromBigEndian(p[24..28]) == |data| && p[28..28 + |data|] == data
    ensures Decode(p) == Decoded(ChunkFrame(id, word, data))
  {
  }

  lemma DecodeFits(id: TransferId, seqNo: nat, data: Bytes, trailing: Bytes)
    requires seqNo < TWO_TO_THE_32 && |data| <= MAX_CHUNK_PAYLOAD
    ensures Decode(Encode(id, seqNo, data).frame + trailing) == Decoded(ChunkFrame(id, seqNo, data))
    ensures IsChunkFrame(Encode(id, seqNo, data).frame)
  {
    HeaderParts(id, seqNo, |data|, data + trailing);
    HeaderParts(id, seqNo, |data|, data);
    var p := Header(id, seqNo, |data|) + (data + trailing);
    assert p[28..28 + |data|] == p[28..][..|data|] == data;
    DecodeParts(p, id, seqNo, data);
    assert Encode(id, seqNo, data).frame + trailing == p;
  }

  lemma DecodeEncodeExact(c: ChunkFrame)
    requires 0 <= c.seqNo < TWO_TO_THE_32 && |c.data| <= MAX_CHUNK_PAYLOAD
    ensures var e := Encode(c.id, c.seqNo, c.data);
            e.Encoded? && IsChunkFrame(e.frame) && Decode(e.frame) == Decoded(c)
  {
    DecodeEncode(c.id, c.seqNo, c.data, []);
    var e := Encode(c.id, c.seqNo, c.data);
    assert e.frame + [] == e.frame;
  }

  /** Re-encoding whatever the decoder accepted gives its first 28 + length bytes. */
  lemma EncodeDecode(plaintext: Bytes)
    requires Decode(plaintext).Decoded?
    ensures var c := Decode(plaintext).chunk;
            && 0 <= c.seqNo && 28 + |c.data| <= |plaintext|
            && Encode(c.id, c.seqNo, c.data) == Encoded(plaintext[..28 + |c.data|])
  {
    var c := Decode(plaintext).chunk;
    Word32Bound(plaintext[20..24]);
    FromBigEndianRoundTrip(plaintext[20..24]);
    FromBigEndianRoundTrip(plaintext[24..28]);
    Joined(plaintext, 28, 28 + |c.data|);
    Joined(plaintext, 24, 28);
    Joined(plaintext, 20, 24);
    Joined(plaintext, 4, 20);
  }

  lemma Joined(p: Bytes, a: nat, b: nat)
    requires a <= b <= |p|
    ensures p[..b] == p[..a] + p[a..b]
  {
  }

  /** A JSON control envelope starts with '{' and is never taken for a chunk, nor accepted by either decoder. */
  lemma JsonIsNotAChunk(plaintext: Bytes)
    requires plaintext != [] && plaintext[0] == 0x7B
    ensures !IsChunkFrame(plaintext)
    ensures Decode(plaintext).DecodeError? && DecodeAndroid(plaintext).DecodeError?
  {
    if |plaintext| >= 4 {
      assert plaintext[..4][0] == 0x7B;
    }
  }

  /** Four bytes decide that a plaintext is a chunk, however short it is; and nothing else is ever decoded as one. */
  lemma MagicDecides(plaintext: Bytes)
    ensures IsChunkFrame(plaintext) <==>
              |plaintext| >= 4 && plaintext[0] == 0x46 && plaintext[1] == 0x59 && plaintext[2] == 0x43
              && plaintext[3] == 0x48
    ensures Decode(plaintext).Decoded? || DecodeAndroid(plaintext).Decoded? ==> IsChunkFrame(plaintext)
  {
    if |plaintext| >= 4 {
      assert plaintext[..4] == [plaintext[0], plaintext[1], plaintext[2], plaintext[3]];
    }
  }

  /** Both decoders accept exactly the same plaintexts and read the same id and data from them.
      They read the same number if and only if its top bit is clear; otherwise Android sees it 2^32 lower. */
  lemma DecodersAgree(plaintext: Bytes)
    ensures Decode(plaintext).Decoded? <==> DecodeAndroid(plaintext).Decoded?
    ensures Decode(plaintext).Decoded? ==>
              var l, a := Decode(plaintext).chunk, DecodeAndroid(plaintext).chunk;
              && l.id == a.id && l.data == a.data
              && (l.seqNo == a.seqNo <==> l.seqNo < TWO_TO_THE_32 / 2)
              && (l.seqNo != a.seqNo ==> a.seqNo == l.seqNo - TWO_TO_THE_32)
  {
    if |plaintext| >= CHUNK_HEADER_SIZE {
      Word32Bound(plaintext[20..24]);
      Word32Bound(plaintext[24..28]);
    }
  }

  /** What Android sends, Linux decodes: the same number for every chunk below 2^31, and never another chunk. */
  lemma AndroidToLinux(id: TransferId, seqNo: int, data: Bytes)
    requires -TWO_TO_THE_32 / 2 <= seqNo < TWO_TO_THE_32 / 2
    ensures EncodeAndroid(id, seqNo, data) == Encode(id, Word32(seqNo), data)
    ensures EncodeAndroid(id, seqNo, data).Encoded? <==> |data| <= CHUNK_SIZE
    ensures |data| <= CHUNK_SIZE ==>
              && DecodeAndroid(EncodeAndroid(id, seqNo, data).frame) == Decoded(ChunkFrame(id, seqNo, data))
              && (seqNo >= 0 ==> Decode(EncodeAndroid(id, seqNo, data).frame) == Decoded(ChunkFrame(id, seqNo, data)))
  {
    if |data| <= CHUNK_SIZE {
      AndroidFits(id, seqNo, data);
    }
  }

  lemma AndroidFits(id: TransferId, seqNo: int, data: Bytes)
    requires -TWO_TO_THE_32 / 2 <= seqNo < TWO_TO_THE_32 / 2 && |data| <= CHUNK_SIZE
    ensures DecodeAndroid(EncodeAndroid(id, seqNo, data).frame) == Decoded(ChunkFrame(id, seqNo, data))
    ensures seqNo >= 0 ==> Decode(EncodeAndroid(id, seqNo, data).frame) == Decoded(ChunkFrame(id, seqNo, data))
  {
    DecodeEncode(id, Word32(seqNo), data, []);
    var p := EncodeAndroid(id, seqNo, data).frame;
    assert p + [] == p;
    HeaderParts(id, Word32(seqNo), |data|, data);
    assert p[28..28 + |data|] == p[28..];
  }
}

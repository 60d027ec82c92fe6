/** Control frames, [ "FY" ][ uint32 length ][ JSON ], and taking them off a byte stream. The JSON codec of envelopes
    is a parameter. */
module ControlFrames {
  import opened Bytes

  const MAGIC: Bytes := [0x46, 0x59]
  const MAX_CONTROL_FRAME_SIZE := 1048576

  datatype Codec<!E(!new)> = Codec(toJson: E -> Bytes, fromJson: Bytes -> Option<E>)

  /** Parsing what was printed gives the envelope back. */
  ghost predicate RoundTrips<E(!new)>(c: Codec<E>) {
    forall e :: c.fromJson(c.toJson(e)) == Some(e)
  }

  /** encode_frame; None stands for its ValueError. */
  function EncodeFrame<E(!new)>(c: Codec<E>, e: E): Option<Bytes> {
    var payload := c.toJson(e);
    if |payload| > MAX_CONTROL_FRAME_SIZE then None
    else Some(MAGIC + BigEndian(|payload|, 4) + payload)
  }

  datatype Decoded<+E> = Incomplete | Frame(envelope: E, consumed: nat) | Raises

  /** decode_frame. */
  function DecodeFrame<E(!new)>(c: Codec<E>, buffer: Bytes): (d: Decoded<E>)
    ensures d.Frame? ==> 6 <= d.consumed <= |buffer|
  {
    if |buffer| < 6 then Incomplete
    else if buffer[..2] != MAGIC then Raises
    else
      var length := FromBigEndian(buffer[2..6]);
      if length > MAX_CONTROL_FRAME_SIZE then Raises
      else if |buffer| < 6 + length then Incomplete
      else
        var e := c.fromJson(buffer[6..6 + length]);
        if e.None? then Raises else Frame(e.value, 6 + length)
  }

  function Framed(payload: Bytes): Bytes {
    MAGIC + BigEndian(|payload|, 4) + payload
  }

  /** decode_frame decides as soon as the six bytes of a header are there: a wrong magic or an announced length above
      1 MiB raises at once, a smaller length waits for its payload, and a whole payload is an envelope exactly if it
      parses. encode_frame refuses exactly the payloads decode_frame would. */
  lemma HeaderDecides<E(!new)>(c: Codec<E>, buffer: Bytes, payload: Bytes, more: Bytes, e: E)
    ensures |buffer| < 6 ==> DecodeFrame(c, buffer).Incomplete?
    ensures |buffer| >= 6 && buffer[..2] != MAGIC ==> DecodeFrame(c, buffer).Raises?
    ensures |buffer| >= 6 && buffer[..2] == MAGIC && FromBigEndian(buffer[2..6]) > 1048576 ==>
              DecodeFrame(c, buffer).Raises?
    ensures |payload| <= 1048576 ==>
              && (forall n :: 0 <= n < |Framed(payload)| ==> DecodeFrame(c, Framed(payload)[..n]).Incomplete?)
              && DecodeFrame(c, Framed(payload) + more) ==
                 (if c.fromJson(payload).Some? then Frame(c.fromJson(payload).value, 6 + |payload|) else Raises)
    ensures EncodeFrame(c, e) == if |c.toJson(e)| <= 1048576 then Some(Framed(c.toJson(e))) else None
  {
    if |payload| <= MAX_CONTROL_FRAME_SIZE {
      WholeFrameDecides(c, payload, more);
      forall n | 0 <= n < |Framed(payload)| ensures DecodeFrame(c, Framed(payload)[..n]).Incomplete? {
        CutPayloadWaits(c, payload, n);
      }
    }
  }

  lemma WholeFrameDecides<E(!new)>(c: Codec<E>, payload: Bytes, more: Bytes)
    requires |payload| <= MAX_CONTROL_FRAME_SIZE
    ensures DecodeFrame(c, Framed(payload) + more) ==
            if c.fromJson(payload).Some? then Frame(c.fromJson(payload).value, 6 + |payload|) else Raises
  {
    var b := Framed(payload) + more;
    assert b[..2] == MAGIC && b[2..6] == BigEndian(|payload|, 4) && b[6..6 + |payload|] == payload;
    Pow256Values();
    BigEndianRoundTrip(|payload|, 4);
  }

  lemma CutPayloadWaits<E(!new)>(c: Codec<E>, payload: Bytes, n: nat)
    requires |payload| <= MAX_CONTROL_FRAME_SIZE && n < |Framed(payload)|
    ensures DecodeFrame(c, Framed(payload)[..n]).Incomplete?
  {
    var f := Framed(payload);
    if n >= 6 {
      assert f[..n][..2] == MAGIC && f[..n][2..6] == BigEndian(|payload|, 4);
      Pow256Values();
      BigEndianRoundTrip(|payload|, 4);
    }
  }

  /** What has been read off a stream, what is left of it, and whether decoding raised. */
  datatype Stream<E> = Stream(out: seq<E>, rest: Bytes, raised: bool)

  /** decode_frame again and again until it has no complete frame or raises. */
  function Drain<E(!new)>(c: Codec<E>, buffer: Bytes): Stream<E>
    decreases |buffer|
  {
    match DecodeFrame(c, buffer)
    case Incomplete => Stream([], buffer, false)
    case Raises => Stream([], buffer, true)
    case Frame(e, n) =>
      var s := Drain(c, buffer[n..]);
      Stream([e] + s.out, s.rest, s.raised)
  }

  /** One more piece arrives at a reader that keeps what it could not decode yet. */
  function Receive<E(!new)>(c: Codec<E>, s: Stream<E>, piece: Bytes): Stream<E> {
    if s.raised then s.(rest := s.rest + piece)
    else
      var t := Drain(c, s.rest + piece);
      Stream(s.out + t.out, t.rest, t.raised)
  }

  function ReceiveAll<E(!new)>(c: Codec<E>, pieces: seq<Bytes>): Stream<E> {
    if pieces == [] then Stream([], [], false)
    else Receive(c, ReceiveAll(c, pieces[..|pieces| - 1]), pieces[|pieces| - 1])
  }

  /** Bytes that come later do not change a frame that was complete, nor an error. */
  lemma DecodeIsStable<E(!new)>(c: Codec<E>, a: Bytes, b: Bytes)
    ensures !DecodeFrame(c, a).Incomplete? ==> DecodeFrame(c, a + b) == DecodeFrame(c, a)
  {
    if |a| >= 6 {
      assert (a + b)[..2] == a[..2] && (a + b)[2..6] == a[2..6];
      var length := FromBigEndian(a[2..6]);
      if |a| >= 6 + length {
        assert (a + b)[6..6 + length] == a[6..6 + length];
      }
    }
  }

  function Cons<E>(e: E, s: Stream<E>): Stream<E> {
    Stream([e] + s.out, s.rest, s.raised)
  }

  lemma DrainFrame<E(!new)>(c: Codec<E>, head: Bytes, tail: Bytes, e: E)
    requires DecodeFrame(c, head + tail) == Frame(e, |head|)
    ensures Drain(c, head + tail) == Cons(e, Drain(c, tail))
  {
    assert (head + tail)[|head|..] == tail;
  }

  lemma ReceiveCons<E(!new)>(c: Codec<E>, e: E, s: Stream<E>, piece: Bytes)
    ensures Receive(c, Cons(e, s), piece) == Cons(e, Receive(c, s, piece))
  {
    if !s.raised {
      var t := Drain(c, s.rest + piece);
      assert [e] + s.out + t.out == [e] + (s.out + t.out);
    }
  }

  lemma ReceiveFirst<E(!new)>(c: Codec<E>, a: Bytes, b: Bytes)
    ensures Receive(c, Stream([], a, false), b) == Drain(c, a + b)
  {
    var t := Drain(c, a + b);
    assert [] + t.out == t.out;
  }

  lemma {:induction false} DrainIsIncremental<E(!new)>(c: Codec<E>, a: Bytes, b: Bytes)
    ensures Drain(c, a + b) == Receive(c, Drain(c, a), b)
    decreases |a|
  {
    var d := DecodeFrame(c, a);
    DecodeIsStable(c, a, b);
    if d.Incomplete? {
      ReceiveFirst(c, a, b);
    } else if d.Frame? {
      var head, tail := a[..d.consumed], a[d.consumed..];
      assert a == head + tail && a + b == head + (tail + b);
      DrainFrame(c, head, tail, d.envelope);
      DrainFrame(c, head, tail + b, d.envelope);
      DrainIsIncremental(c, tail, b);
      ReceiveCons(c, d.envelope, Drain(c, tail), b);
    }
  }

  /** However the bytes are cut into pieces, the reader ends with the same envelopes, the same remainder and the
      same error as if it had seen all of them at once. This holds for every byte stream, also a malformed one. */
  lemma {:induction false} FragmentationDoesNotMatter<E(!new)>(c: Codec<E>, pieces: seq<Bytes>)
    ensures ReceiveAll(c, pieces) == Drain(c, Concat(pieces))
  {
    if pieces != [] {
      FragmentationDoesNotMatter(c, pieces[..|pieces| - 1]);
      DrainIsIncremental(c, Concat(pieces[..|pieces| - 1]), pieces[|pieces| - 1]);
    }
  }

  // ----- streams of encoded frames -----

  ghost predicate Encodable<E(!new)>(c: Codec<E>, es: seq<E>) {
    RoundTrips(c) && forall i :: 0 <= i < |es| ==> |c.toJson(es[i])| <= MAX_CONTROL_FRAME_SIZE
  }

  /** The bytes of a frame that can be encoded. */
  function FrameOf<E(!new)>(c: Codec<E>, e: E): Bytes {
    var f := EncodeFrame(c, e);
    if f.Some? then f.value else []
  }

  function EncodeAll<E(!new)>(c: Codec<E>, es: seq<E>): Bytes {
    if es == [] then [] else FrameOf(c, es[0]) + EncodeAll(c, es[1..])
  }

  lemma DecodeEncoded<E(!new)>(c: Codec<E>, e: E, more: Bytes)
    requires RoundTrips(c) && |c.toJson(e)| <= MAX_CONTROL_FRAME_SIZE
    ensures var f := EncodeFrame(c, e); f.Some? && DecodeFrame(c, f.value + more) == Frame(e, |f.value|)
  {
    WholeFrameDecides(c, c.toJson(e), more);
  }

  /** How many frames of the stream are whole within its first n bytes. */
  function WholeFrames<E(!new)>(c: Codec<E>, es: seq<E>, n: nat): (k: nat)
    ensures k <= |es|
  {
    if es == [] || n < |FrameOf(c, es[0])| then 0 else 1 + WholeFrames(c, es[1..], n - |FrameOf(c, es[0])|)
  }

  lemma {:induction false} WholeFramesFit<E(!new)>(c: Codec<E>, es: seq<E>, n: nat)
    ensures var k := WholeFrames(c, es, n);
            |EncodeAll(c, es[..k])| <= n && (k < |es| ==> n < |EncodeAll(c, es[..k + 1])|)
  {
    if es != [] && n >= |FrameOf(c, es[0])| {
      var k := WholeFrames(c, es[1..], n - |FrameOf(c, es[0])|);
      WholeFramesFit(c, es[1..], n - |FrameOf(c, es[0])|);
      assert es[..k + 1][1..] == es[1..][..k];
      assert k + 1 < |es| ==> es[..k + 2][1..] == es[1..][..k + 1];
    } else if es != [] {
      assert es[..1][1..] == [];
    }
  }

  /** Any prefix of a stream of encoded frames decodes without an error to the envelopes whose frames are whole within
      it, and leaves exactly the bytes behind them. */
  lemma {:induction false} PrefixDecodes<E(!new)>(c: Codec<E>, es: seq<E>, n: nat)
    requires Encodable(c, es) && n <= |EncodeAll(c, es)|
    ensures var s := Drain(c, EncodeAll(c, es)[..n]);
            var k := WholeFrames(c, es, n);
            && !s.raised && s.out == es[..k]
            && EncodeAll(c, es[..k]) + s.rest == EncodeAll(c, es)[..n]
    decreases |es|
  {
    if es != [] {
      var f, tail := FrameOf(c, es[0]), EncodeAll(c, es[1..]);
      if n < |f| {
        assert EncodeAll(c, es)[..n] == f[..n];
        CutPayloadWaits(c, c.toJson(es[0]), n);
        assert es[..0] == [];
      } else {
        PrefixHead(c, es, n);
        PrefixDecodes(c, es[1..], n - |f|);
        FrameMore(c, es, WholeFrames(c, es[1..], n - |f|), Drain(c, tail[..n - |f|]).rest);
      }
    }
  }

  lemma PrefixHead<E(!new)>(c: Codec<E>, es: seq<E>, n: nat)
    requires Encodable(c, es) && es != [] && |FrameOf(c, es[0])| <= n <= |EncodeAll(c, es)|
    ensures var f, more := FrameOf(c, es[0]), EncodeAll(c, es[1..])[..n - |FrameOf(c, es[0])|];
            && EncodeAll(c, es)[..n] == f + more
            && Drain(c, EncodeAll(c, es)[..n]) == Cons(es[0], Drain(c, more))
  {
    var f, more := FrameOf(c, es[0]), EncodeAll(c, es[1..])[..n - |FrameOf(c, es[0])|];
    assert EncodeAll(c, es)[..n] == f + more;
    DecodeEncoded(c, es[0], more);
    DrainFrame(c, f, more, es[0]);
  }

  lemma FrameMore<E(!new)>(c: Codec<E>, es: seq<E>, k: nat, rest: Bytes)
    requires es != [] && k < |es|
    ensures [es[0]] + es[1..][..k] == es[..k + 1]
    ensures EncodeAll(c, es[..k + 1]) + rest == FrameOf(c, es[0]) + (EncodeAll(c, es[1..][..k]) + rest)
  {
    assert es[..k + 1][1..] == es[1..][..k];
  }

  /** The whole stream decodes to all envelopes, with every byte consumed. */
  lemma {:induction false} WholeStreamDecodes<E(!new)>(c: Codec<E>, es: seq<E>)
    requires Encodable(c, es)
    ensures Drain(c, EncodeAll(c, es)) == Stream(es, [], false)
  {
    if es != [] {
      var f, tail := FrameOf(c, es[0]), EncodeAll(c, es[1..]);
      DecodeEncoded(c, es[0], tail);
      DrainFrame(c, f, tail, es[0]);
      WholeStreamDecodes(c, es[1..]);
      assert [es[0]] + es[1..] == es;
    }
  }

  /** Deframing under fragmentation: any cut of the encoded envelopes into pieces gives the envelopes back. */
  lemma DeframingRoundTrip<E(!new)>(c: Codec<E>, es: seq<E>, pieces: seq<Bytes>)
    requires Encodable(c, es) && Concat(pieces) == EncodeAll(c, es)
    ensures ReceiveAll(c, pieces) == Stream(es, [], false)
  {
    FragmentationDoesNotMatter(c, pieces);
    WholeStreamDecodes(c, es);
  }
}

/** The encrypted session: key derivation by role, AEAD frames with counter nonces, and the loop that reads frames
    from a byte stream an adversary controls. The cipher is ideal. */
module SecureChannel {
  import opened Bytes

  const AEAD_NONCE_SIZE := 12
  const AEAD_TAG_SIZE := 16
  const MAX_AEAD_PLAINTEXT := 1048576
  const TWO_TO_THE_64 := 0x1_0000_0000_0000_0000

  // ----- keys -----

  datatype Handshake = Handshake(staticPub: Bytes, ephemeralPub: Bytes, nonce: Bytes) {
    /** What a side generates for itself. */
    predicate Valid() {
      KeysSized() && |nonce| == 16
    }

    /** What the curves ask of the keys a side receives. Nothing asks for the length of a received nonce. */
    predicate KeysSized() {
      |staticPub| == 32 && |ephemeralPub| == 32
    }
  }

  datatype Label = InitiatorKey | ResponderKey | Sas

  /** Symbolic HKDF: a key is what it was derived from. */
  datatype Key = Hkdf(secret: Bytes, salt: Bytes, info: Label)

  datatype DerivedKeys = DerivedKeys(sendKey: Key, recvKey: Key, sas: Key)

  function TranscriptSalt(initiator: Handshake, responder: Handshake): Bytes {
    initiator.staticPub + responder.staticPub + initiator.ephemeralPub + responder.ephemeralPub
    + initiator.nonce + responder.nonce
  }

  /** The bytes of "ferry-auth-v1|". */
  const AUTH_PREFIX: Bytes := [102, 101, 114, 114, 121, 45, 97, 117, 116, 104, 45, 118, 49, 124]

  function AuthTranscript(isInitiator: bool, local: Handshake, remote: Handshake): Bytes {
    var i, r := if isInitiator then local else remote, if isInitiator then remote else local;
    AUTH_PREFIX + i.staticPub + i.ephemeralPub + i.nonce + r.staticPub + r.ephemeralPub + r.nonce
  }

  /** The salt of a side that plays the given role. */
  function Salt(isInitiator: bool, local: Handshake, remote: Handshake): Bytes {
    if isInitiator then TranscriptSalt(local, remote) else TranscriptSalt(remote, local)
  }

  function DeriveKeys(isInitiator: bool, local: Handshake, remote: Handshake, secret: Bytes): DerivedKeys {
    var salt := Salt(isInitiator, local, remote);
    var initKey, respKey := Hkdf(secret, salt, InitiatorKey), Hkdf(secret, salt, ResponderKey);
    if isInitiator then DerivedKeys(initKey, respKey, Hkdf(secret, salt, Sas))
    else DerivedKeys(respKey, initKey, Hkdf(secret, salt, Sas))
  }

  /** Two ends can talk, in both directions and with the same code on both screens, if and only if they have the
      same secret, play different roles, and salt alike. A session never accepts its own frames: its two keys
      always differ. */
  lemma KeysCross(a: Handshake, a': Handshake, b: Handshake, b': Handshake, roleA: bool, roleB: bool,
                  secretA: Bytes, secretB: Bytes)
    ensures var ka := DeriveKeys(roleA, a, b', secretA);
            var kb := DeriveKeys(roleB, b, a', secretB);
            && ka.sendKey != ka.recvKey
            && ka.sendKey == Hkdf(secretA, Salt(roleA, a, b'), if roleA then InitiatorKey else ResponderKey)
            && ka.sas == Hkdf(secretA, Salt(roleA, a, b'), Sas)
            && (ka.sendKey == kb.recvKey <==>
                  secretA == secretB && roleA != roleB && Salt(roleA, a, b') == Salt(roleB, b, a'))
            && (ka.sendKey == kb.recvKey <==> ka.recvKey == kb.sendKey)
            && (ka.sendKey == kb.recvKey ==> ka.sas == kb.sas)
  {
  }

  lemma SaltParts(i: Handshake, r: Handshake)
    requires i.KeysSized() && r.KeysSized()
    ensures var s := TranscriptSalt(i, r);
            && |s| == 128 + |i.nonce| + |r.nonce| && s[..32] == i.staticPub && s[32..64] == r.staticPub
            && s[64..96] == i.ephemeralPub && s[96..128] == r.ephemeralPub
            && s[128..128 + |i.nonce|] == i.nonce && s[128 + |i.nonce|..] == r.nonce
  {
  }

  lemma SaltInjective(i1: Handshake, r1: Handshake, i2: Handshake, r2: Handshake)
    requires i1.KeysSized() && r1.KeysSized() && i2.KeysSized() && r2.KeysSized()
    requires TranscriptSalt(i1, r1) == TranscriptSalt(i2, r2) && |i1.nonce| == |i2.nonce|
    ensures i1 == i2 && r1 == r2
  {
    SaltParts(i1, r1);
    SaltParts(i2, r2);
  }

  /** Salting alike means having seen each other's handshakes if and only if the received nonces have the length a
      side generates; it is enough that one side checks the one it received. Then both also sign the same
      transcript. */
  lemma CrossedKeysMeanSameHandshakes(a: Handshake, a': Handshake, b: Handshake, b': Handshake, roleA: bool)
    requires a.Valid() && b.Valid() && a'.KeysSized() && b'.KeysSized()
    requires Salt(roleA, a, b') == Salt(!roleA, b, a')
    ensures a == a' && b == b' <==> |b'.nonce| == 16
    ensures |a'.nonce| == 16 <==> |b'.nonce| == 16
    ensures |b'.nonce| == 16 ==> AuthTranscript(roleA, a, b') == AuthTranscript(!roleA, b, a')
  {
    if roleA {
      SaltParts(a, b');
      SaltParts(a', b);
      if |b'.nonce| == 16 {
        SaltInjective(a, b', a', b);
      }
    } else {
      SaltParts(b', a);
      SaltParts(b, a');
      if |b'.nonce| == 16 {
        SaltInjective(b', a, b, a');
      }
    }
  }

  /** With a received nonce of 16 bytes, then, the keys cross exactly if both saw what the other sent. */
  lemma KeysCrossIffSeen(a: Handshake, a': Handshake, b: Handshake, b': Handshake, roleA: bool, roleB: bool,
                         secretA: Bytes, secretB: Bytes)
    requires a.Valid() && b.Valid() && a'.KeysSized() && b'.KeysSized()
    requires |a'.nonce| == 16 || |b'.nonce| == 16
    ensures DeriveKeys(roleA, a, b', secretA).sendKey == DeriveKeys(roleB, b, a', secretB).recvKey <==>
            secretA == secretB && roleA != roleB && a == a' && b == b'
  {
    KeysCross(a, a', b, b', roleA, roleB, secretA, secretB);
    if roleA != roleB && Salt(roleA, a, b') == Salt(roleB, b, a') {
      CrossedKeysMeanSameHandshakes(a, a', b, b', roleA);
    }
  }

  lemma TranscriptParts(i: Handshake, r: Handshake)
    requires i.KeysSized() && r.KeysSized()
    ensures var s := AuthTranscript(true, i, r);
            && s == AuthTranscript(false, r, i) && |s| == 142 + |i.nonce| + |r.nonce| && s[..14] == AUTH_PREFIX
            && s[14..46] == i.staticPub && s[46..78] == i.ephemeralPub && s[78..78 + |i.nonce|] == i.nonce
            && s[78 + |i.nonce|..110 + |i.nonce|] == r.staticPub
            && s[110 + |i.nonce|..142 + |i.nonce|] == r.ephemeralPub && s[142 + |i.nonce|..] == r.nonce
  {
  }

  /** With a received nonce of 16 bytes, both ends sign the same transcript exactly if both saw what the other sent. */
  lemma TranscriptsAgreeIffSeen(a: Handshake, a': Handshake, b: Handshake, b': Handshake, roleA: bool)
    requires a.Valid() && b.Valid() && a'.KeysSized() && b'.KeysSized()
    requires |a'.nonce| == 16 || |b'.nonce| == 16
    ensures AuthTranscript(roleA, a, b') == AuthTranscript(!roleA, b, a') <==> a == a' && b == b'
  {
    if roleA {
      TranscriptParts(a, b');
      TranscriptParts(a', b);
    } else {
      TranscriptParts(b', a);
      TranscriptParts(b, a');
    }
  }

  /** Longer nonces do get through: each side receives the other's nonce with the responder's keys attached, at the
      end or at the front. Neither saw what the other sent, yet the keys cross, the codes agree, and both sign
      the same transcript. */
  lemma LongNonceIsNotNoticed(a: Handshake, b: Handshake, secret: Bytes)
    requires a.Valid() && b.Valid()
    ensures var x := b.staticPub + b.ephemeralPub;
            var a', b' := a.(nonce := a.nonce + x), b.(nonce := x + b.nonce);
            var ka, kb := DeriveKeys(true, a, b', secret), DeriveKeys(false, b, a', secret);
            && a'.KeysSized() && b'.KeysSized() && a' != a && b' != b
            && ka.sendKey == kb.recvKey && ka.recvKey == kb.sendKey && ka.sas == kb.sas
            && AuthTranscript(true, a, b') == AuthTranscript(false, b, a')
  {
    var x := b.staticPub + b.ephemeralPub;
    var a', b' := a.(nonce := a.nonce + x), b.(nonce := x + b.nonce);
    assert |a'.nonce| == 80 && |b'.nonce| == 80;
    assert a.nonce + b'.nonce == a'.nonce + b.nonce;
    var keys := a.staticPub + b.staticPub + a.ephemeralPub + b.ephemeralPub;
    assert TranscriptSalt(a, b') == keys + (a.nonce + b'.nonce);
    assert TranscriptSalt(a', b) == keys + (a'.nonce + b.nonce);
    var front := AUTH_PREFIX + a.staticPub + a.ephemeralPub + a.nonce;
    assert AuthTranscript(true, a, b') == front + x + x + b.nonce == AuthTranscript(false, b, a');
  }

  // ----- frames -----

  /** An AEAD cipher with 16-byte tags. */
  datatype Aead = Aead(seal: (Key, Bytes, Bytes) -> Bytes, open: (Key, Bytes, Bytes) -> Option<Bytes>)

  /** For the keys in play: sealing adds a tag, and a sealed text opens under exactly the key and the nonce it
      was sealed with. */
  ghost predicate Ideal(c: Aead, keys: set<Key>) {
    && (forall k: Key, n: Bytes, p: Bytes {:trigger c.seal(k, n, p)} ::
          k in keys && |n| == AEAD_NONCE_SIZE ==> |c.seal(k, n, p)| == |p| + AEAD_TAG_SIZE)
    && (forall k: Key, n: Bytes, k': Key, n': Bytes, p: Bytes {:trigger c.open(k, n, c.seal(k', n', p))} ::
          k in keys && k' in keys && |n| == AEAD_NONCE_SIZE && |n'| == AEAD_NONCE_SIZE ==>
            c.open(k, n, c.seal(k', n', p)) == if k == k' && n == n' then Some(p) else None)
  }

  function MakeNonce(counter: nat): (n: Bytes)
    ensures |n| == AEAD_NONCE_SIZE
  {
    [0, 0, 0, 0] + BigEndian(counter, 8)
  }

  /** A nonce is four zero bytes and the number in big-endian order, which can be read back from it. */
  lemma NonceLayout(counter: nat)
    requires counter < TWO_TO_THE_64
    ensures var n := MakeNonce(counter); n[..4] == [0, 0, 0, 0] && FromBigEndian(n[4..]) == counter
  {
    assert MakeNonce(counter)[4..] == BigEndian(counter, 8);
    Pow256Values();
    BigEndianRoundTrip(counter, 8);
  }

  lemma NoncesDiffer(i: nat, j: nat)
    requires i < TWO_TO_THE_64 && j < TWO_TO_THE_64
    ensures MakeNonce(i) == MakeNonce(j) <==> i == j
  {
    NonceLayout(i);
    NonceLayout(j);
  }

  function FrameBytes(nonce: Bytes, ciphertext: Bytes): Bytes {
    BigEndian(|ciphertext|, 4) + nonce + ciphertext
  }

  /** The frame a session writes for its counter-th plaintext. */
  function SealedFrame(c: Aead, key: Key, counter: nat, plaintext: Bytes): Bytes {
    FrameBytes(MakeNonce(counter), c.seal(key, MakeNonce(counter), plaintext))
  }

  datatype Raised =
    | PlaintextTooLong | CounterExhausted | FrameTooShort | FrameTruncated | NonceMismatch | NotAuthentic

  datatype Outcome = Ok(bytes: Bytes) | Error(error: Raised)

  /** FerrySession after derive_keys, as far as framing is concerned. sent is what was encrypted, in order. */
  class FerrySession {
    const cipher: Aead
    const keys: DerivedKeys
    var sendCounter: nat
    var recvCounter: nat
    ghost var sent: seq<Bytes>

    constructor (cipher: Aead, isInitiator: bool, local: Handshake, remote: Handshake, secret: Bytes)
      ensures this.cipher == cipher && keys == DeriveKeys(isInitiator, local, remote, secret)
      ensures Valid() && sendCounter == 0 && recvCounter == 0 && sent == []
    {
      this.cipher, keys := cipher, DeriveKeys(isInitiator, local, remote, secret);
      sendCounter, recvCounter, sent := 0, 0, [];
    }

    ghost predicate Valid()
      reads this
    {
      sendCounter == |sent|
    }

    /** The counter only moves when a frame is produced. */
    method EncryptFrame(plaintext: Bytes) returns (o: Outcome)
      requires Valid()
      modifies this
      ensures Valid() && recvCounter == old(recvCounter)
      ensures |plaintext| > MAX_AEAD_PLAINTEXT || old(sendCounter) >= TWO_TO_THE_64 <==> o.Error?
      ensures o.Error? ==> sent == old(sent)
      ensures o.Ok? ==> sent == old(sent) + [plaintext]
                        && o.bytes == SealedFrame(cipher, keys.sendKey, old(sendCounter), plaintext)
    {
      if |plaintext| > MAX_AEAD_PLAINTEXT {
        return Error(PlaintextTooLong);
      }
      if sendCounter >= TWO_TO_THE_64 {
        return Error(CounterExhausted);
      }
      var nonce := MakeNonce(sendCounter);
      sendCounter := sendCounter + 1;
      sent := sent + [plaintext];
      var ciphertext := cipher.seal(keys.sendKey, nonce, plaintext);
      o := Ok(BigEndian(|ciphertext|, 4) + nonce + ciphertext);
    }

    /** The counter moves before authentication: a forged frame with the right nonce uses it up. */
    method DecryptFrame(frame: Bytes) returns (o: Outcome)
      requires Valid()
      modifies this`recvCounter
      ensures (o, recvCounter) == Decrypt(cipher, keys.recvKey, old(recvCounter), frame)
    {
      if |frame| < 4 + AEAD_NONCE_SIZE {
        return Error(FrameTooShort);
      }
      var ctLen := FromBigEndian(frame[..4]);
      if |frame| < 16 + ctLen {
        return Error(FrameTruncated);
      }
      if recvCounter >= TWO_TO_THE_64 {
        return Error(CounterExhausted);
      }
      var nonce, ciphertext := frame[4..16], frame[16..16 + ctLen];
      if nonce != MakeNonce(recvCounter) {
        return Error(NonceMismatch);
      }
      recvCounter := recvCounter + 1;
      var plaintext := cipher.open(keys.recvKey, nonce, ciphertext);
      o := if plaintext.None? then Error(NotAuthentic) else Ok(plaintext.value);
    }
  }

  /** decrypt_frame: its outcome and the receive counter afterwards. */
  function Decrypt(c: Aead, key: Key, counter: nat, frame: Bytes): (Outcome, nat) {
    if |frame| < 16 then (Error(FrameTooShort), counter)
    else
      var ctLen := FromBigEndian(frame[..4]);
      if |frame| < 16 + ctLen then (Error(FrameTruncated), counter)
      else if counter >= TWO_TO_THE_64 then (Error(CounterExhausted), counter)
      else if frame[4..16] != MakeNonce(counter) then (Error(NonceMismatch), counter)
      else
        var plaintext := c.open(key, frame[4..16], frame[16..16 + ctLen]);
        (if plaintext.None? then Error(NotAuthentic) else Ok(plaintext.value), counter + 1)
  }

  // ----- the session loop over an arbitrary byte stream -----

  /** The first frame of a stream, if it is all there: readexactly(4), then readexactly(12 + length). */
  function FirstFrame(stream: Bytes): Option<Bytes> {
    if |stream| < 4 then None
    else
      var total := 16 + FromBigEndian(stream[..4]);
      if |stream| < total then None else Some(stream[..total])
  }

  lemma FirstFrameLength(stream: Bytes)
    ensures FirstFrame(stream).Some? ==>
              16 <= |FirstFrame(stream).value| <= |stream| && FirstFrame(stream).value <= stream
  {
  }

  /** The plaintexts _run_session_loop hands on from a byte stream: it stops at the first frame that is
      incomplete or fails to decrypt, and after a plaintext that ends the session. */
  function SessionLoop(c: Aead, key: Key, counter: nat, stream: Bytes, ends: Bytes -> bool): seq<Bytes>
    decreases |stream|
  {
    var f := FirstFrame(stream);
    if f.None? then []
    else
      FirstFrameLength(stream);
      var o := Decrypt(c, key, counter, f.value);
      if o.0.Error? then []
      else [o.0.bytes] + if ends(o.0.bytes) then [] else SessionLoop(c, key, o.1, stream[|f.value|..], ends)
  }

  lemma LoopHead(c: Aead, key: Key, counter: nat, frame: Bytes, rest: Bytes, ends: Bytes -> bool)
    requires FirstFrame(frame + rest) == Some(frame) && (frame + rest)[|frame|..] == rest
    ensures var o := Decrypt(c, key, counter, frame);
            SessionLoop(c, key, counter, frame + rest, ends) ==
            if o.0.Error? then []
            else [o.0.bytes] + if ends(o.0.bytes) then [] else SessionLoop(c, key, o.1, rest, ends)
  {
  }

  /** No plaintext but the last ends the session. */
  predicate EndsOnlyLast(delivered: seq<Bytes>, ends: Bytes -> bool) {
    forall i :: 0 <= i < |delivered| - 1 ==> !ends(delivered[i])
  }

  lemma OneMoreInFront(first: Bytes, rest: seq<Bytes>, ends: Bytes -> bool)
    requires EndsOnlyLast(rest, ends) && !ends(first)
    ensures EndsOnlyLast([first] + rest, ends)
  {
    var all := [first] + rest;
    forall i | 0 <= i < |all| - 1 ensures !ends(all[i]) {
      if i > 0 {
        assert all[i] == rest[i - 1];
      }
    }
  }

  /** Nothing is handed on behind a plaintext that ends the session. */
  lemma {:induction false} LoopStopsAtTheEnd(c: Aead, key: Key, counter: nat, stream: Bytes, ends: Bytes -> bool)
    ensures EndsOnlyLast(SessionLoop(c, key, counter, stream, ends), ends)
    decreases |stream|
  {
    if FirstFrame(stream).Some? {
      var frame := FirstFrame(stream).value;
      FirstFrameLength(stream);
      var o := Decrypt(c, key, counter, frame);
      if o.0.Ok? && !ends(o.0.bytes) {
        LoopStopsAtTheEnd(c, key, o.1, stream[|frame|..], ends);
        OneMoreInFront(o.0.bytes, SessionLoop(c, key, o.1, stream[|frame|..], ends), ends);
      }
    }
  }

  /** Every frame the lengths cut out of the stream. */
  function FramesOf(stream: Bytes): seq<Bytes>
    decreases |stream|
  {
    var f := FirstFrame(stream);
    if f.None? then []
    else
      FirstFrameLength(stream);
      [f.value] + FramesOf(stream[|f.value|..])
  }

  /** The ciphertext is one the owner of the key produced. */
  ghost predicate Genuine(c: Aead, key: Key, sent: seq<Bytes>, ciphertext: Bytes) {
    exists i :: 0 <= i < |sent| && ciphertext == c.seal(key, MakeNonce(i), sent[i])
  }

  /** The network may drop, replay, reorder, reflect, cut and invent bytes, but it cannot make a ciphertext that
      opens and that neither end sealed. */
  ghost predicate NoForgery(c: Aead, recvKey: Key, stream: Bytes, keyA: Key, sentA: seq<Bytes>, keyB: Key,
                            sentB: seq<Bytes>) {
    forall f :: f in FramesOf(stream) && |f| >= 16 && c.open(recvKey, f[4..16], f[16..]).Some? ==>
      Genuine(c, keyA, sentA, f[16..]) || Genuine(c, keyB, sentB, f[16..])
  }

  /** A genuine ciphertext of one key opens under another one only if they are the same, and then it has the
      number the nonce says. */
  lemma OpensGenuine(c: Aead, keys: set<Key>, recvKey: Key, key: Key, sent: seq<Bytes>, counter: nat, ciphertext: Bytes)
    requires recvKey in keys && key in keys && Ideal(c, keys)
    requires |sent| <= TWO_TO_THE_64 && counter < TWO_TO_THE_64
    requires Genuine(c, key, sent, ciphertext)
    ensures var p := c.open(recvKey, MakeNonce(counter), ciphertext);
            p.Some? ==> key == recvKey && counter < |sent| && p == Some(sent[counter])
  {
    var i :| 0 <= i < |sent| && ciphertext == c.seal(key, MakeNonce(i), sent[i]);
    NoncesDiffer(i, counter);
  }

  /** An accepted frame is the peer's frame with the number the receiver is waiting for. */
  lemma AcceptedIsNext(c: Aead, counter: nat, frame: Bytes, keys: set<Key>, recvKey: Key,
                       keyA: Key, sentA: seq<Bytes>, keyB: Key, sentB: seq<Bytes>)
    requires {recvKey, keyA, keyB} <= keys && Ideal(c, keys) && keyB != recvKey
    requires |sentA| <= TWO_TO_THE_64 && |sentB| <= TWO_TO_THE_64
    requires |frame| >= 16 && |frame| == 16 + FromBigEndian(frame[..4])
    requires c.open(recvKey, frame[4..16], frame[16..]).Some? ==>
               Genuine(c, keyA, sentA, frame[16..]) || Genuine(c, keyB, sentB, frame[16..])
    ensures var o := Decrypt(c, recvKey, counter, frame);
            o.0.Ok? ==> keyA == recvKey && counter < |sentA| && o == (Ok(sentA[counter]), counter + 1)
  {
    var ciphertext := frame[16..];
    assert frame[16..16 + FromBigEndian(frame[..4])] == ciphertext;
    if counter < TWO_TO_THE_64 && frame[4..16] == MakeNonce(counter) {
      if Genuine(c, keyA, sentA, ciphertext) {
        OpensGenuine(c, keys, recvKey, keyA, sentA, counter, ciphertext);
      } else if Genuine(c, keyB, sentB, ciphertext) {
        OpensGenuine(c, keys, recvKey, keyB, sentB, counter, ciphertext);
      }
    }
  }

  lemma NoForgerySplit(c: Aead, recvKey: Key, stream: Bytes, keyA: Key, sentA: seq<Bytes>, keyB: Key, sentB: seq<Bytes>)
    requires NoForgery(c, recvKey, stream, keyA, sentA, keyB, sentB) && FirstFrame(stream).Some?
    ensures var f := FirstFrame(stream).value;
            && 16 <= |f| <= |stream| && |f| == 16 + FromBigEndian(f[..4])
            && NoForgery(c, recvKey, stream[|f|..], keyA, sentA, keyB, sentB)
            && (c.open(recvKey, f[4..16], f[16..]).Some? ==>
                  Genuine(c, keyA, sentA, f[16..]) || Genuine(c, keyB, sentB, f[16..]))
  {
    var f := FirstFrame(stream).value;
    assert f[..4] == stream[..4];
    assert FramesOf(stream) == [f] + FramesOf(stream[|f|..]);
    assert f in FramesOf(stream) && forall g :: g in FramesOf(stream[|f|..]) ==> g in FramesOf(stream);
  }

  lemma {:induction false} LoopIsPrefix(c: Aead, counter: nat, stream: Bytes, ends: Bytes -> bool, keys: set<Key>,
                                        recvKey: Key,
                                        keyA: Key, sentA: seq<Bytes>, keyB: Key, sentB: seq<Bytes>)
    requires {recvKey, keyA, keyB} <= keys && Ideal(c, keys) && keyB != recvKey
    requires |sentA| <= TWO_TO_THE_64 && |sentB| <= TWO_TO_THE_64 && counter <= |sentA|
    requires NoForgery(c, recvKey, stream, keyA, sentA, keyB, sentB)
    ensures SessionLoop(c, recvKey, counter, stream, ends) <= sentA[counter..]
    ensures keyA != recvKey ==> SessionLoop(c, recvKey, counter, stream, ends) == []
    decreases |stream|
  {
    if FirstFrame(stream).Some? {
      var frame := FirstFrame(stream).value;
      NoForgerySplit(c, recvKey, stream, keyA, sentA, keyB, sentB);
      AcceptedIsNext(c, counter, frame, keys, recvKey, keyA, sentA, keyB, sentB);
      var o := Decrypt(c, recvKey, counter, frame);
      if o.0.Ok? {
        if ends(o.0.bytes) {
          PrefixCons([], sentA, counter);
        } else {
          LoopIsPrefix(c, counter + 1, stream[|frame|..], ends, keys, recvKey, keyA, sentA, keyB, sentB);
          PrefixCons(SessionLoop(c, recvKey, counter + 1, stream[|frame|..], ends), sentA, counter);
        }
      }
    }
  }

  /** Secure-channel prefix property. A and B derived their keys by role, from whatever handshakes each of them
      saw. Whatever bytes reach B, the plaintexts its session loop hands on are a prefix of the plaintexts A
      encrypted; and there are none at all unless the keys cross. */
  lemma DeliveredIsPrefix(c: Aead, stream: Bytes, ends: Bytes -> bool, ka: DerivedKeys, kb: DerivedKeys,
                          roleA: bool, roleB: bool, a: Handshake, a': Handshake, b: Handshake, b': Handshake,
                          secretA: Bytes, secretB: Bytes, sentA: seq<Bytes>, sentB: seq<Bytes>)
    requires ka == DeriveKeys(roleA, a, b', secretA) && kb == DeriveKeys(roleB, b, a', secretB)
    requires Ideal(c, {ka.sendKey, kb.sendKey, kb.recvKey})
    requires |sentA| <= TWO_TO_THE_64 && |sentB| <= TWO_TO_THE_64
    requires NoForgery(c, kb.recvKey, stream, ka.sendKey, sentA, kb.sendKey, sentB)
    ensures var delivered := SessionLoop(c, kb.recvKey, 0, stream, ends);
            && delivered <= sentA
            && (!(secretA == secretB && roleA != roleB && Salt(roleA, a, b') == Salt(roleB, b, a')) ==>
                  delivered == [])
  {
    KeysCross(a, a', b, b', roleA, roleB, secretA, secretB);
    KeysCross(b, b', a, a', roleB, roleA, secretB, secretA);
    LoopIsPrefix(c, 0, stream, ends, {ka.sendKey, kb.sendKey, kb.recvKey}, kb.recvKey, ka.sendKey, sentA,
                 kb.sendKey, sentB);
    assert sentA[0..] == sentA;
  }

  /** A frame with the expected nonce that is not authentic uses up its number, so the genuine frame with that
      number is refused afterwards. Only because the loop stops at the first error does nothing go missing. */
  lemma ForgedFrameUsesUpItsNumber(c: Aead, key: Key, counter: nat, forged: Bytes, plaintext: Bytes)
    requires Ideal(c, {key}) && counter < TWO_TO_THE_64 && |plaintext| <= MAX_AEAD_PLAINTEXT
    requires FirstFrame(forged) == Some(forged) && forged[4..16] == MakeNonce(counter)
    requires c.open(key, MakeNonce(counter), forged[16..]).None?
    ensures Decrypt(c, key, counter, forged) == (Error(NotAuthentic), counter + 1)
    ensures Decrypt(c, key, counter + 1, SealedFrame(c, key, counter, plaintext)).0.Error?
  {
    assert forged[16..16 + FromBigEndian(forged[..4])] == forged[16..];
    if counter + 1 < TWO_TO_THE_64 {
      NoncesDiffer(counter, counter + 1);
      var ciphertext := c.seal(key, MakeNonce(counter), plaintext);
      assert SealedFrame(c, key, counter, plaintext)[4..16] == MakeNonce(counter);
    }
  }
}

/** The hand-written HKDF-SHA256 of the Android client against sections 2.2 and 2.3 of RFC 5869. */
module Hkdf {
  import opened Bytes

  const HASH_LEN := 32

  /** HMAC-SHA256 of a key and a message. */
  type Hmac = (Bytes, Bytes) -> Bytes

  ghost predicate Sized(hmac: Hmac) {
    forall key: Bytes, message: Bytes :: |hmac(key, message)| == HASH_LEN
  }

  // ----- RFC 5869 -----

  /** PRK = HMAC-Hash(salt, IKM). */
  function Extract(hmac: Hmac, salt: Bytes, ikm: Bytes): Bytes {
    hmac(salt, ikm)
  }

  /** T(0) is empty and T(i) = HMAC-Hash(PRK, T(i-1) | info | i), with i as one octet. The RFC stops at 255; behind
      that the octet wraps around. */
  function T(hmac: Hmac, prk: Bytes, info: Bytes, i: nat): Bytes {
    if i == 0 then [] else hmac(prk, T(hmac, prk, info, i - 1) + info + [(i % 256) as Byte])
  }

  /** T(1) | T(2) | ... | T(n). */
  function TUpTo(hmac: Hmac, prk: Bytes, info: Bytes, n: nat): Bytes {
    if n == 0 then [] else TUpTo(hmac, prk, info, n - 1) + T(hmac, prk, info, n)
  }

  lemma {:induction false} TUpToLength(hmac: Hmac, prk: Bytes, info: Bytes, n: nat)
    requires Sized(hmac)
    ensures |TUpTo(hmac, prk, info, n)| == HASH_LEN * n
  {
    if n > 0 {
      TUpToLength(hmac, prk, info, n - 1);
    }
  }

  function CeilDiv(length: nat): (n: nat)
    ensures HASH_LEN * n - HASH_LEN < length <= HASH_LEN * n
  {
    (length + HASH_LEN - 1) / HASH_LEN
  }

  /** OKM: the first L octets of T(1) | ... | T(N), where N = ceil(L / HashLen); the RFC allows L <= 255 * HashLen. */
  ghost function Expand(hmac: Hmac, prk: Bytes, info: Bytes, length: nat): (okm: Bytes)
    requires Sized(hmac)
    ensures |okm| == length
  {
    TUpToLength(hmac, prk, info, CeilDiv(length));
    TUpTo(hmac, prk, info, CeilDiv(length))[..length]
  }

  // ----- the loop -----

  /** t.copyInto(result, offset, 0, toCopy) */
  method CopyInto(t: Bytes, result: array<Byte>, offset: nat, toCopy: nat)
    requires toCopy <= |t| && offset + toCopy <= result.Length
    modifies result
    ensures result[..] == old(result[..offset]) + t[..toCopy] + old(result[offset + toCopy..])
  {
    forall k | 0 <= k < toCopy {
      result[offset + k] := t[k];
    }
  }

  /** What the loop has done when `blocks` HMACs are computed: `t` is the last one and `front` the bytes written. */
  ghost predicate Progress(hmac: Hmac, prk: Bytes, info: Bytes, length: nat, blocks: nat, t: Bytes, front: Bytes) {
    && HASH_LEN * blocks < length + HASH_LEN
    && |front| == Min(HASH_LEN * blocks, length)
    && t == T(hmac, prk, info, blocks)
    && |TUpTo(hmac, prk, info, blocks)| == HASH_LEN * blocks
    && front <= TUpTo(hmac, prk, info, blocks)
  }

  lemma OneBlock(hmac: Hmac, prk: Bytes, info: Bytes, length: nat, blocks: nat, t: Bytes, front: Bytes)
    requires Sized(hmac) && |front| < length && Progress(hmac, prk, info, length, blocks, t, front)
    ensures var t' := hmac(prk, t + info + [((blocks + 1) % 256) as Byte]);
            Progress(hmac, prk, info, length, blocks + 1, t', front + t'[..Min(HASH_LEN, length - |front|)])
  {
    assert front == TUpTo(hmac, prk, info, blocks);
  }

  lemma Finished(hmac: Hmac, prk: Bytes, info: Bytes, length: nat, blocks: nat, t: Bytes, front: Bytes)
    requires Sized(hmac) && |front| == length && Progress(hmac, prk, info, length, blocks, t, front)
    ensures front == Expand(hmac, prk, info, length)
  {
    assert blocks == CeilDiv(length);
  }

  /** hkdfSha256: None where SecretKeySpec refuses an empty key. The counter byte is truncated. */
  method HkdfSha256(hmac: Hmac, inputKeyMaterial: Bytes, salt: Bytes, info: Bytes, length: nat)
    returns (okm: Option<Bytes>)
    requires Sized(hmac)
    ensures okm.None? <==> salt == []
    ensures okm.Some? ==>
              okm.value == Expand(hmac, Extract(hmac, salt, inputKeyMaterial), info, length)
  {
    if salt == [] {
      return None;
    }
    var prk := hmac(salt, inputKeyMaterial);
    var result := new Byte[length](_ => 0);
    var t: Bytes := [];
    var offset, counter := 0, 1;
    while offset < length
      invariant 0 <= offset <= length && counter >= 1
      invariant Progress(hmac, prk, info, length, counter - 1, t, result[..offset])
    {
      OneBlock(hmac, prk, info, length, counter - 1, t, result[..offset]);
      t := hmac(prk, t + info + [(counter % 256) as Byte]);
      var toCopy := Min(HASH_LEN, length - offset);
      ghost var before := result[..offset];
      CopyInto(t, result, offset, toCopy);
      assert result[..offset + toCopy] == before + t[..toCopy];
      offset := offset + toCopy;
      counter := counter + 1;
    }
    assert result[..] == result[..offset];
    Finished(hmac, prk, info, length, counter - 1, t, result[..]);
    okm := Some(result[..]);
  }

  // ----- lengths -----

  lemma {:induction false} TUpToPrefix(hmac: Hmac, prk: Bytes, info: Bytes, m: nat, n: nat)
    requires m <= n
    ensures TUpTo(hmac, prk, info, m) <= TUpTo(hmac, prk, info, n)
  {
    if m < n {
      TUpToPrefix(hmac, prk, info, m, n - 1);
    }
  }

  /** A shorter output is a prefix of a longer one. */
  lemma ShorterIsPrefix(hmac: Hmac, prk: Bytes, info: Bytes, shorter: nat, longer: nat)
    requires Sized(hmac) && shorter <= longer
    ensures Expand(hmac, prk, info, shorter) <= Expand(hmac, prk, info, longer)
  {
    var m, n := CeilDiv(shorter), CeilDiv(longer);
    TUpToLength(hmac, prk, info, m);
    TUpToLength(hmac, prk, info, n);
    TUpToPrefix(hmac, prk, info, m, n);
  }
}

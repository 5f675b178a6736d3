/** Signatures and freshness: `cpp/src/tier1.cpp`, and the key loop of `src/tier1_hmac.rs`. */
module Tier1 {
  import opened Wrappers
  import opened Machine
  import opened Hex
  import opened Seams
  import opened Timestamps

  /** Lowercase hex of the HMAC of the canonical string. */
  function Sign(crypto: Crypto, key: Bytes, canonical: string): string {
    Encode(crypto.hmac(key, canonical))
  }

  function Verify(crypto: Crypto, key: Bytes, canonical: string, providedHex: string): bool {
    var provided := Decode(providedHex);
    provided.Some? && |provided.value| == 32 && crypto.hmac(key, canonical) == provided.value
  }

  /** A signature is good when it is hex, in either case, of the MAC under some listed key. */
  ghost predicate SignedByAny(crypto: Crypto, keys: seq<Bytes>, canonical: string, providedHex: string) {
    exists i :: 0 <= i < |keys| && Decode(providedHex) == Some(crypto.hmac(keys[i], canonical))
  }

  /** A signature is 64 lowercase hex digits that decode to the MAC under its key. */
  lemma SignIsMac(crypto: Crypto, key: Bytes, canonical: string)
    ensures Decode(Sign(crypto, key, canonical)) == Some(crypto.hmac(key, canonical))
    ensures |Sign(crypto, key, canonical)| == 64
    ensures forall i :: 0 <= i < 64 ==> IsLowerHexDigit(Sign(crypto, key, canonical)[i])
  {
    var mac := crypto.hmac(key, canonical);
    DecodeEncode(mac);
    EncodeIsLowercaseHex(mac);
  }

  lemma VerifyIsSignature(crypto: Crypto, key: Bytes, canonical: string, providedHex: string)
    ensures Verify(crypto, key, canonical, providedHex) <==> Decode(providedHex) == Some(crypto.hmac(key, canonical))
    ensures Verify(crypto, key, canonical, providedHex) <==> Lower(providedHex) == Encode(crypto.hmac(key, canonical))
  {
    DecodesTo(providedHex, crypto.hmac(key, canonical));
  }

  /** A signature verifies under a key exactly when signing under it gives the same MAC. */
  lemma SignedVerifiesIffSameMac(crypto: Crypto, key: Bytes, signer: Bytes, canonical: string, signed: string)
    ensures Verify(crypto, key, canonical, Sign(crypto, signer, signed))
            <==> crypto.hmac(key, canonical) == crypto.hmac(signer, signed)
  {
    VerifyIsSignature(crypto, key, canonical, Sign(crypto, signer, signed));
    SignIsMac(crypto, signer, signed);
  }

  /** The C++ loop, which decodes the signature again for each key and does not stop early. */
  method VerifyAny(crypto: Crypto, keys: seq<Bytes>, canonical: string, providedHex: string) returns (ok: bool)
    ensures ok <==> exists i :: 0 <= i < |keys| && Decode(providedHex) == Some(crypto.hmac(keys[i], canonical))
  {
    ok := false;
    for n := 0 to |keys|
      invariant ok <==> exists i :: 0 <= i < n && Decode(providedHex) == Some(crypto.hmac(keys[i], canonical))
    {
      VerifyIsSignature(crypto, keys[n], canonical, providedHex);
      if Verify(crypto, keys[n], canonical, providedHex) {
        ok := true;
      }
    }
  }

  /** The Rust loop, which decodes once and refuses at once what is not hex. */
  method VerifyAnyDecodeOnce(crypto: Crypto, keys: seq<Bytes>, canonical: string, providedHex: string) returns (ok: bool)
    ensures ok <==> exists i :: 0 <= i < |keys| && Decode(providedHex) == Some(crypto.hmac(keys[i], canonical))
  {
    var decoded := HexDecode(providedHex);
    if decoded.None? {
      return false;
    }
    var provided := decoded.value;
    ok := false;
    for n := 0 to |keys|
      invariant ok <==> exists i :: 0 <= i < n && Decode(providedHex) == Some(crypto.hmac(keys[i], canonical))
    {
      if crypto.hmac(keys[n], canonical) == provided {
        ok := true;
      }
    }
  }

  /** Within the window on either side of the clock. */
  predicate IsFreshTime(iso: string, now: int, window: int) {
    WireTime(iso).Some? && -window <= now - WireTime(iso).value <= window
  }

  method CheckFreshness(iso: string, now: int64, window: int64) returns (ok: bool)
    ensures ok <==> IsFreshTime(iso, now, window)
    ensures ok <==> WireTime(iso).Some? && WireTime(iso).value - window <= now <= WireTime(iso).value + window
  {
    var ts, parsed := ParseRfc3339Utc(iso);
    if !parsed {
      return false;
    }
    var delta: int := now - ts;
    if delta < 0 {
      delta := -delta;
    }
    ok := delta <= window;
  }
}

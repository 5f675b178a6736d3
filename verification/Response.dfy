/** `sign_response` of `cpp/src/protocol.cpp` and `src/lib.rs`, proved against what the receiver
    of the response can check. The two random values are inputs, None when the generator fails. */
module Response {
  import opened Wrappers
  import opened Machine
  import opened Hex
  import opened Seams
  import opened Timestamps
  import opened Tier1
  import opened Canonical
  import opened Protocol

  const VERSION: string := "X-SESAME-Version"
  const KEY_ID: string := "X-SESAME-KeyId"
  const TIMESTAMP: string := "X-SESAME-Timestamp"
  const NONCE: string := "X-SESAME-Nonce"
  const SIGNATURE: string := "X-SESAME-Signature"
  const SCOPE: string := "X-SESAME-Scope"
  const ENCRYPTED: string := "X-SESAME-Encrypted"
  const ENC_KEY_ID: string := "X-SESAME-EncKeyId"
  const IV: string := "X-SESAME-IV"

  type HeaderList = seq<(string, string)>

  datatype SignedResponse = SignedResponse(headers: HeaderList, body: Bytes, contentType: string)

  datatype ResponseParams = ResponseParams(
    signingKeyId: string, correlation: string, scope: Option<string>, tier: Tier, encKeyId: Option<string>)

  /** The names' lengths, and the letter at which names of one length part. */
  lemma NamesPart()
    ensures |VERSION| == 16 && |ENC_KEY_ID| == 17 && |IV| == 11
    ensures |KEY_ID| == |NONCE| == |SCOPE| == 14
    ensures Lower(KEY_ID)[9] == 'k' && Lower(NONCE)[9] == 'n' && Lower(SCOPE)[9] == 's'
    ensures |TIMESTAMP| == |SIGNATURE| == |ENCRYPTED| == 18
    ensures Lower(TIMESTAMP)[9] == 't' && Lower(SIGNATURE)[9] == 's' && Lower(ENCRYPTED)[9] == 'e'
  {
  }

  /** No two header names are equal, in whatever case they are written. */
  lemma NamesDiffer()
    ensures Lower(VERSION) !in {Lower(KEY_ID), Lower(TIMESTAMP), Lower(NONCE), Lower(SIGNATURE), Lower(SCOPE),
                                Lower(ENCRYPTED), Lower(ENC_KEY_ID), Lower(IV)}
    ensures Lower(KEY_ID) !in {Lower(TIMESTAMP), Lower(NONCE), Lower(SIGNATURE), Lower(SCOPE),
                               Lower(ENCRYPTED), Lower(ENC_KEY_ID), Lower(IV)}
    ensures Lower(TIMESTAMP) !in {Lower(NONCE), Lower(SIGNATURE), Lower(SCOPE), Lower(ENCRYPTED), Lower(ENC_KEY_ID), Lower(IV)}
    ensures Lower(NONCE) !in {Lower(SIGNATURE), Lower(SCOPE), Lower(ENCRYPTED), Lower(ENC_KEY_ID), Lower(IV)}
    ensures Lower(SIGNATURE) !in {Lower(SCOPE), Lower(ENCRYPTED), Lower(ENC_KEY_ID), Lower(IV)}
    ensures Lower(SCOPE) !in {Lower(ENCRYPTED), Lower(ENC_KEY_ID), Lower(IV)}
    ensures Lower(ENCRYPTED) !in {Lower(ENC_KEY_ID), Lower(IV)}
    ensures Lower(ENC_KEY_ID) != Lower(IV)
  {
    NamesPart();
  }

  /** Header names are compared without regard to case. */
  predicate NamesAreDistinct(headers: HeaderList) {
    forall i, j :: 0 <= i < j < |headers| ==> Lower(headers[i].0) != Lower(headers[j].0)
  }

  /** The value the receiver finds under a name: the first, if there is one. */
  function Lookup(headers: HeaderList, name: string): Option<string> {
    if headers == [] then None
    else if Lower(headers[0].0) == Lower(name) then Some(headers[0].1)
    else Lookup(headers[1..], name)
  }

  /** The receiver's view of a header list, as `SesameHeaders::from_lookup` builds it. */
  function View(headers: HeaderList): SesameHeaders {
    var encrypted := Lookup(headers, ENCRYPTED);
    SesameHeaders(Lookup(headers, VERSION), Lookup(headers, KEY_ID), Lookup(headers, TIMESTAMP),
                  Lookup(headers, NONCE), Lookup(headers, SIGNATURE), Lookup(headers, SCOPE),
                  encrypted.Some? && Lower(encrypted.value) == "true",
                  Lookup(headers, ENC_KEY_ID), Lookup(headers, IV))
  }

  lemma {:induction false} LookupAppend(headers: HeaderList, name: string, value: string, other: string)
    requires Lookup(headers, name).None?
    ensures Lookup(headers + [(name, value)], other) == if Lower(other) == Lower(name) then Some(value) else Lookup(headers, other)
  {
    if headers == [] {
    } else {
      LookupAppend(headers[1..], name, value, other);
      assert (headers + [(name, value)])[1..] == headers[1..] + [(name, value)];
    }
  }

  lemma {:induction false} LookupNone(headers: HeaderList, name: string)
    ensures Lookup(headers, name).None? <==> forall i :: 0 <= i < |headers| ==> Lower(headers[i].0) != Lower(name)
  {
    if headers == [] {
    } else {
      LookupNone(headers[1..], name);
      assert forall i :: 1 <= i < |headers| ==> headers[i] == headers[1..][i - 1];
    }
  }

  /** Adding a header under a new name keeps the names distinct and the other values. */
  lemma Append(headers: HeaderList, name: string, value: string)
    requires NamesAreDistinct(headers) && Lookup(headers, name).None?
    ensures NamesAreDistinct(headers + [(name, value)])
    ensures forall other :: Lookup(headers + [(name, value)], other)
                            == if Lower(other) == Lower(name) then Some(value) else Lookup(headers, other)
  {
    LookupNone(headers, name);
    forall other {
      LookupAppend(headers, name, value, other);
    }
  }

  /** The headers before encryption and signature. */
  function ClearHeaders(params: ResponseParams, timestamp: string, nonce: string): HeaderList {
    [(VERSION, PROTOCOL_VERSION), (KEY_ID, params.signingKeyId)] + [(TIMESTAMP, timestamp), (NONCE, nonce)]
    + if params.scope.Some? then [(SCOPE, params.scope.value)] else []
  }

  /** The headers that say how the body was encrypted. */
  function SealHeaders(encKeyId: string, iv: string): HeaderList {
    [(ENCRYPTED, "true"), (ENC_KEY_ID, encKeyId), (IV, iv)]
  }

  function ClearView(params: ResponseParams, timestamp: string, nonce: string): SesameHeaders {
    SesameHeaders(Some(PROTOCOL_VERSION), Some(params.signingKeyId), Some(timestamp), Some(nonce), None,
                  params.scope, false, None, None)
  }

  lemma ViewOfClear(params: ResponseParams, timestamp: string, nonce: string)
    ensures var hs := ClearHeaders(params, timestamp, nonce);
            NamesAreDistinct(hs) && View(hs) == ClearView(params, timestamp, nonce) && Lookup(hs, ENCRYPTED).None?
  {
    NamesDiffer();
    var a := [(VERSION, PROTOCOL_VERSION)];
    var b := a + [(KEY_ID, params.signingKeyId)];
    var c := b + [(TIMESTAMP, timestamp)];
    var d := c + [(NONCE, nonce)];
    Append([], VERSION, PROTOCOL_VERSION);
    assert [] + [(VERSION, PROTOCOL_VERSION)] == a;
    Append(a, KEY_ID, params.signingKeyId);
    Append(b, TIMESTAMP, timestamp);
    Append(c, NONCE, nonce);
    if params.scope.Some? {
      Append(d, SCOPE, params.scope.value);
      assert ClearHeaders(params, timestamp, nonce) == d + [(SCOPE, params.scope.value)];
    } else {
      assert ClearHeaders(params, timestamp, nonce) == d;
    }
  }

  lemma ViewOfSealed(hs: HeaderList, encKeyId: string, iv: string)
    requires NamesAreDistinct(hs) && Lookup(hs, ENCRYPTED).None?
    requires View(hs).encKeyId.None? && View(hs).iv.None?
    ensures var sealed := hs + SealHeaders(encKeyId, iv);
            NamesAreDistinct(sealed)
            && View(sealed) == View(hs).(encrypted := true, encKeyId := Some(encKeyId), iv := Some(iv))
  {
    NamesDiffer();
    var a := hs + [(ENCRYPTED, "true")];
    var b := a + [(ENC_KEY_ID, encKeyId)];
    Append(hs, ENCRYPTED, "true");
    Append(a, ENC_KEY_ID, encKeyId);
    Append(b, IV, iv);
    assert hs + SealHeaders(encKeyId, iv) == b + [(IV, iv)];
    assert Lower("true") == "true";
  }

  lemma ViewOfSigned(hs: HeaderList, signature: string)
    requires NamesAreDistinct(hs) && View(hs).signature.None?
    ensures NamesAreDistinct(hs + [(SIGNATURE, signature)])
    ensures View(hs + [(SIGNATURE, signature)]) == View(hs).(signature := Some(signature))
  {
    NamesDiffer();
    Append(hs, SIGNATURE, signature);
  }

  /** The signature found in the headers verifies, under the keys of the key-id found there,
      over the response string rebuilt from the headers and the body. */
  ghost predicate SignatureVerifies(crypto: Crypto, provider: KeyProvider, correlation: string, h: SesameHeaders, body: Bytes)
    requires h.HasTier1()
  {
    SignedByAny(crypto, provider.signingKeys(h.keyId.value),
                ResponseForm(correlation, h.timestamp.value, h.nonce.value, BodyHash(crypto, body), h.scope).Text(),
                h.signature.value)
  }

  /** The body opens to the plaintext under the key and IV named in the headers and the
      associated data rebuilt from them. */
  ghost predicate BodyOpensTo(crypto: Crypto, provider: KeyProvider, h: SesameHeaders, body: Bytes, xml: Bytes)
    requires h.HasTier1()
  {
    && h.encKeyId.Some? && h.iv.Some?
    && provider.aeadKey(h.encKeyId.value).Some?
    && exists iv: Iv :: Decode(h.iv.value) == Some(iv)
                        && crypto.open(provider.aeadKey(h.encKeyId.value).value, iv, Aad(h), body) == Some(xml)
  }

  /** What signing needs beyond a signing key and a nonce: at Tier Three, a key and an IV to
      encrypt with. */
  predicate CanSeal(provider: KeyProvider, params: ResponseParams, iv: Option<Iv>) {
    params.encKeyId.Some? && provider.aeadKey(params.encKeyId.value).Some? && iv.Some?
  }

  /** The header list on the wire, name by name, in the order in which it is sent. */
  function Emitted(params: ResponseParams, timestamp: string, nonce: string, iv: string, signature: string): HeaderList
    requires params.tier == Three ==> params.encKeyId.Some?
  {
    [("X-SESAME-Version", "1.0"), ("X-SESAME-KeyId", params.signingKeyId),
     ("X-SESAME-Timestamp", timestamp), ("X-SESAME-Nonce", nonce)]
    + (if params.scope.Some? then [("X-SESAME-Scope", params.scope.value)] else [])
    + (if params.tier == Three
       then [("X-SESAME-Encrypted", "true"), ("X-SESAME-EncKeyId", params.encKeyId.value), ("X-SESAME-IV", iv)] else [])
    + [("X-SESAME-Signature", signature)]
  }

  lemma EmittedIsAppended(params: ResponseParams, timestamp: string, nonce: string, iv: string, signature: string)
    requires params.tier == Three ==> params.encKeyId.Some?
    ensures Emitted(params, timestamp, nonce, iv, signature)
            == ClearHeaders(params, timestamp, nonce)
               + (if params.tier == Three then SealHeaders(params.encKeyId.value, iv) else []) + [(SIGNATURE, signature)]
  {
  }

  /** The signature sent: the MAC, under the primary key, of the response's parts. */
  function ResponseMac(crypto: Crypto, provider: KeyProvider, params: ResponseParams, timestamp: string, nonce: string,
                       body: Bytes): Digest
    requires provider.signingKeys(params.signingKeyId) != []
  {
    crypto.hmac(provider.signingKeys(params.signingKeyId)[0],
                ResponseForm(params.correlation, timestamp, nonce, Encode(crypto.sha256(body)), params.scope).Text())
  }

  /** The clear part of the headers. */
  predicate NamesTheResponse(h: SesameHeaders, params: ResponseParams, nonce: RandomNonce, timestamp: string) {
    && h.version == Some(PROTOCOL_VERSION) && h.keyId == Some(params.signingKeyId)
    && h.timestamp == Some(timestamp) && h.nonce == Some(Encode(nonce))
    && h.scope == params.scope
  }

  /** What the receiver of a response can check, with nothing but its headers and body. */
  ghost predicate IsGoodResponse(crypto: Crypto, provider: KeyProvider, params: ResponseParams, xml: Bytes,
                                 timestamp: string, nonce: RandomNonce, iv: Option<Iv>, r: SignedResponse)
  {
    var h := View(r.headers);
    && NamesAreDistinct(r.headers)
    && NamesTheResponse(h, params, nonce, timestamp)
    && h.signature.Some?
    && SignatureVerifies(crypto, provider, params.correlation, h, r.body)
    && if params.tier == Three then
         && h.encrypted && h.encKeyId == params.encKeyId && iv.Some? && h.iv == Some(Encode(iv.value))
         && BodyOpensTo(crypto, provider, h, r.body, xml)
         && r.contentType == "application/octet-stream"
       else
         && !h.encrypted && h.encKeyId == None && h.iv == None
         && r.body == xml && r.contentType == "application/xml"
  }

  /** The headers sent are those, and no others, in that order, and end with that signature. */
  predicate IsEmitted(crypto: Crypto, provider: KeyProvider, params: ResponseParams, timestamp: string,
                      nonce: RandomNonce, iv: Option<Iv>, r: SignedResponse)
    requires provider.signingKeys(params.signingKeyId) != []
  {
    && (params.tier == Three ==> params.encKeyId.Some? && iv.Some?)
    && r.headers == Emitted(params, timestamp, Encode(nonce), if iv.Some? then Encode(iv.value) else "",
                            Encode(ResponseMac(crypto, provider, params, timestamp, Encode(nonce), r.body)))
  }

  /** Signing the string of the headers and body, under the primary key, gives headers from
      which the signature verifies. */
  lemma SignedVerifies(crypto: Crypto, provider: KeyProvider, correlation: string, hs: HeaderList, body: Bytes, canonical: string)
    requires var h := View(hs);
             && NamesAreDistinct(hs) && h.version.Some? && h.keyId.Some? && h.timestamp.Some? && h.nonce.Some?
             && h.signature.None? && provider.signingKeys(h.keyId.value) != []
             && canonical == ResponseForm(correlation, h.timestamp.value, h.nonce.value, BodyHash(crypto, body), h.scope).Text()
    ensures var signature := Sign(crypto, provider.signingKeys(View(hs).keyId.value)[0], canonical);
            var signed := hs + [(SIGNATURE, signature)];
            && NamesAreDistinct(signed) && View(signed) == View(hs).(signature := Some(signature))
            && SignatureVerifies(crypto, provider, correlation, View(signed), body)
  {
    var key := provider.signingKeys(View(hs).keyId.value)[0];
    ViewOfSigned(hs, Sign(crypto, key, canonical));
    SignIsMac(crypto, key, canonical);
  }

  /** The Tier-3 block of `sign_response`: the headers with the encryption headers added, and
      the sealed body, or nothing if a key or the randomness is missing. */
  method SealBody(crypto: Crypto, provider: KeyProvider, params: ResponseParams, plaintextXml: Bytes,
                  timestamp: string, nonce: string, clear: HeaderList, randomIv: Option<Iv>)
    returns (headers: HeaderList, body: Option<Bytes>)
    requires NamesAreDistinct(clear) && View(clear) == ClearView(params, timestamp, nonce) && Lookup(clear, ENCRYPTED).None?
    ensures body.None? <==> params.encKeyId.None? || provider.aeadKey(params.encKeyId.value).None? || randomIv.None?
    ensures body.Some? ==>
              && headers == clear + SealHeaders(params.encKeyId.value, Encode(randomIv.value))
              && NamesAreDistinct(headers)
              && View(headers) == View(clear).(encrypted := true, encKeyId := params.encKeyId, iv := Some(Encode(randomIv.value)))
              && crypto.open(provider.aeadKey(params.encKeyId.value).value, randomIv.value,
                             AadForm(PROTOCOL_VERSION, params.signingKeyId, timestamp, nonce, params.scope).Text(),
                             body.value) == Some(plaintextXml)
  {
    headers := clear;
    if params.encKeyId.None? {
      return headers, None;
    }
    var aead := provider.aeadKey(params.encKeyId.value);
    if aead.None? || randomIv.None? {
      return headers, None;
    }
    var iv := HexEncode(randomIv.value);
    var aad := AadForHeaders(PROTOCOL_VERSION, params.signingKeyId, timestamp, nonce, params.scope);
    body := Some(crypto.seal(aead.value, randomIv.value, aad, plaintextXml));
    ViewOfSealed(headers, params.encKeyId.value, iv);
    headers := headers + [(ENCRYPTED, "true")];
    headers := headers + [(ENC_KEY_ID, params.encKeyId.value)];
    headers := headers + [(IV, iv)];
    assert headers == clear + SealHeaders(params.encKeyId.value, iv);
  }

  /** The signature header, added last. */
  method SignHeaders(crypto: Crypto, provider: KeyProvider, params: ResponseParams, timestamp: string, nonce: string,
                     headers: HeaderList, body: Bytes) returns (signed: HeaderList)
    requires provider.signingKeys(params.signingKeyId) != [] && NamesAreDistinct(headers)
    requires var h := View(headers);
             && h.version.Some? && h.keyId == Some(params.signingKeyId) && h.timestamp == Some(timestamp)
             && h.nonce == Some(nonce) && h.scope == params.scope && h.signature.None?
    ensures signed == headers + [(SIGNATURE, Encode(ResponseMac(crypto, provider, params, timestamp, nonce, body)))]
    ensures NamesAreDistinct(signed) && View(signed).HasTier1()
    ensures View(signed) == View(headers).(signature := View(signed).signature)
    ensures SignatureVerifies(crypto, provider, params.correlation, View(signed), body)
  {
    var bodyHash := BodyHashHex(crypto, body);
    var canon := ResponseCanonical(params.correlation, timestamp, nonce, bodyHash, params.scope);
    SignedVerifies(crypto, provider, params.correlation, headers, body, canon);
    signed := headers + [(SIGNATURE, Sign(crypto, provider.PrimarySigningKey(params.signingKeyId).value, canon))];
  }

  /** `sign_response` from the point where the timestamp and the nonce are known. */
  method SignStamped(crypto: Crypto, provider: KeyProvider, params: ResponseParams, plaintextXml: Bytes,
                     timestamp: string, randomNonce: RandomNonce, randomIv: Option<Iv>)
    returns (result: Result<SignedResponse, SesameError>)
    requires provider.signingKeys(params.signingKeyId) != []
    ensures result.Success? <==> (params.tier == Three ==> CanSeal(provider, params, randomIv))
    ensures result.Failure? ==> result == Failure(DecryptFailed)
    ensures result.Success? ==>
              && IsGoodResponse(crypto, provider, params, plaintextXml, timestamp, randomNonce, randomIv, result.value)
              && IsEmitted(crypto, provider, params, timestamp, randomNonce, randomIv, result.value)
  {
    var nonce := HexEncode(randomNonce);

    var headers: HeaderList := [];
    headers := headers + [(VERSION, PROTOCOL_VERSION)];
    headers := headers + [(KEY_ID, params.signingKeyId)];
    headers := headers + [(TIMESTAMP, timestamp)];
    headers := headers + [(NONCE, nonce)];
    if params.scope.Some? {
      headers := headers + [(SCOPE, params.scope.value)];
    }
    assert headers == ClearHeaders(params, timestamp, nonce);
    ViewOfClear(params, timestamp, nonce);

    var body: Bytes;
    var contentType: string;
    if params.tier.Level() >= Three.Level() {
      var sealedBody: Option<Bytes>;
      headers, sealedBody := SealBody(crypto, provider, params, plaintextXml, timestamp, nonce, headers, randomIv);
      if sealedBody.None? {
        return Failure(DecryptFailed);
      }
      body := sealedBody.value;
      contentType := "application/octet-stream";
      DecodeEncode(randomIv.value);
    } else {
      body := plaintextXml;
      contentType := "application/xml";
    }

    var signed := SignHeaders(crypto, provider, params, timestamp, nonce, headers, body);
    EmittedIsAppended(params, timestamp, nonce, if randomIv.Some? then Encode(randomIv.value) else "",
                      Encode(ResponseMac(crypto, provider, params, timestamp, nonce, body)));
    result := Success(SignedResponse(signed, body, contentType));
  }

  /** Signing fails only for want of a key or of randomness; otherwise the response is good. */
  method SignResponse(crypto: Crypto, provider: KeyProvider, params: ResponseParams, plaintextXml: Bytes,
                      now: int64, randomNonce: Option<RandomNonce>, randomIv: Option<Iv>)
    returns (result: Result<SignedResponse, SesameError>)
    ensures result == Failure(UnknownKey) <==> provider.signingKeys(params.signingKeyId) == []
    ensures result == Failure(SignatureMismatch) <==> provider.signingKeys(params.signingKeyId) != [] && randomNonce.None?
    ensures result == Failure(DecryptFailed) <==>
              && provider.signingKeys(params.signingKeyId) != [] && randomNonce.Some? && params.tier == Three
              && (params.encKeyId.None? || provider.aeadKey(params.encKeyId.value).None? || randomIv.None?)
    ensures result.Success? <==>
              && provider.signingKeys(params.signingKeyId) != [] && randomNonce.Some?
              && (params.tier == Three ==>
                    params.encKeyId.Some? && provider.aeadKey(params.encKeyId.value).Some? && randomIv.Some?)
    ensures result.Success? ==>
              && IsGoodResponse(crypto, provider, params, plaintextXml, FormatText(now), randomNonce.value, randomIv, result.value)
              && IsEmitted(crypto, provider, params, FormatText(now), randomNonce.value, randomIv, result.value)
  {
    var signingKey := provider.PrimarySigningKey(params.signingKeyId);
    if signingKey.None? {
      return Failure(UnknownKey);
    }
    var timestamp := FormatRfc3339Utc(now as i64);
    if randomNonce.None? {
      return Failure(SignatureMismatch);
    }
    result := SignStamped(crypto, provider, params, plaintextXml, timestamp, randomNonce.value, randomIv);
  }
}

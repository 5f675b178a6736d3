/** A conformant sender, as in `cpp/examples/sign_request.cpp`, and its round trip through
    `verify_request`. */
module Sender {
  import opened Wrappers
  import opened Machine
  import opened Hex
  import opened Seams
  import opened Timestamps
  import opened TimestampLaws
  import opened Tier1
  import opened Scope
  import opened Canonical
  import opened ReplayCache
  import opened Protocol
  import opened VerifyLaws

  /** What the sender chooses: where the request goes, its own copies of the keys, and its random
      values. A request is encrypted when an encryption key-id is given. */
  datatype Draft = Draft(
    keyId: string, signingKey: Bytes, httpMethod: string, path: string, scope: Option<string>,
    encKeyId: Option<string>, aeadKey: AeadKey, nonce: RandomNonce, iv: Iv, xml: Bytes)

  /** The server still lists the sender's keys: the signing key as any of those of its key-id,
      which during a rotation need not be the primary one. */
  predicate SharesKeys(provider: KeyProvider, d: Draft) {
    && d.signingKey in provider.signingKeys(d.keyId)
    && (d.encKeyId.Some? ==> provider.aeadKey(d.encKeyId.value) == Some(d.aeadKey))
  }

  /** The headers without the signature. */
  function Unsigned(d: Draft, sentAt: int): SesameHeaders {
    SesameHeaders(Some(PROTOCOL_VERSION), Some(d.keyId), Some(FormatText(sentAt)), Some(Encode(d.nonce)),
                  Some(""), d.scope, d.encKeyId.Some?, d.encKeyId,
                  if d.encKeyId.Some? then Some(Encode(d.iv)) else None)
  }

  /** Encrypt first, so that the signature covers the ciphertext. */
  function Body(crypto: Crypto, d: Draft, sentAt: int): Bytes {
    if d.encKeyId.None? then d.xml
    else crypto.seal(d.aeadKey, d.iv, Aad(Unsigned(d, sentAt)), d.xml)
  }

  function Signature(crypto: Crypto, d: Draft, sentAt: int): string {
    Sign(crypto, d.signingKey,
         RequestForm(d.httpMethod, d.path, FormatText(sentAt), Encode(d.nonce),
                     BodyHash(crypto, Body(crypto, d, sentAt)), d.scope).Text())
  }

  /** The request as it arrives, unchanged, at a server whose clock and policy are given. */
  function Received(crypto: Crypto, d: Draft, sentAt: int, target: Option<string>, now: int64, minTier: Tier): Request {
    Request(RequestContext(d.httpMethod, d.path, target),
            Unsigned(d, sentAt).(signature := Some(Signature(crypto, d, sentAt))),
            Body(crypto, d, sentAt), now, minTier)
  }

  /** The channel the server will act on, if the draft is scoped. */
  function Channel(d: Draft): Option<string> {
    if d.scope.None? then None else DeclaredChannel(d.scope.value)
  }

  /** The draft is scoped to a channel that the key may act on, which is the target; or not at all. */
  predicate MayActOn(provider: KeyProvider, d: Draft, target: Option<string>) {
    d.scope.Some? ==>
      && Channel(d).Some? && provider.isAuthorized(d.keyId, Channel(d).value)
      && (target == None || target == Channel(d))
  }

  lemma LowerOfEncode(data: Bytes)
    ensures Lower(Encode(data)) == Encode(data)
  {
    DecodeEncode(data);
    DecodesTo(Encode(data), data);
  }

  /** A request signed under a listed key is authentic exactly when the key-id is not revoked
      and the timestamp is fresh. */
  lemma SignedUnderListedKey(s: Server, r: Request, key: Bytes)
    requires r.headers.HasTier1() && r.headers.version == Some("1.0")
    requires key in s.provider.signingKeys(r.headers.keyId.value)
    requires r.headers.signature.value == Sign(s.crypto, key, SignedText(s.crypto, r))
    ensures IsAuthentic(s, r)
            <==> !s.provider.isRevoked(r.headers.keyId.value) && IsFreshTime(r.headers.timestamp.value, r.now, s.window)
  {
    SignIsMac(s.crypto, key, SignedText(s.crypto, r));
    if IsFreshTime(r.headers.timestamp.value, r.now, s.window) {
      assert WireTime(r.headers.timestamp.value) == Some(WireTime(r.headers.timestamp.value).value);
    }
  }

  /** The sender's clock prints as a timestamp that is fresh at the server's. */
  predicate IsTimely(sentAt: int, now: int, window: int) {
    0 <= FieldsAt(sentAt).year <= 9999 && sentAt - window <= now <= sentAt + window
  }

  /** The sender's request is authentic exactly when its key-id is not revoked and the clocks
      differ by no more than the window. */
  lemma SignatureIsAuthentic(s: Server, d: Draft, sentAt: int, target: Option<string>, now: int64, minTier: Tier)
    requires SharesKeys(s.provider, d)
    ensures IsAuthentic(s, Received(s.crypto, d, sentAt, target, now, minTier))
            <==> !s.provider.isRevoked(d.keyId) && IsTimely(sentAt, now, s.window)
  {
    PrintThenParse(sentAt);
    SignedUnderListedKey(s, Received(s.crypto, d, sentAt, target, now, minTier), d.signingKey);
  }

  /** The server gets back what was encrypted. */
  lemma BodyIsDelivered(s: Server, d: Draft, sentAt: int, target: Option<string>, now: int64, minTier: Tier)
    requires SharesKeys(s.provider, d)
    ensures Delivers(s, Received(s.crypto, d, sentAt, target, now, minTier), d.xml)
  {
    var r := Received(s.crypto, d, sentAt, target, now, minTier);
    if d.encKeyId.Some? {
      LowerOfEncode(d.iv);
      assert Aad(r.headers) == Aad(Unsigned(d, sentAt));
      assert s.crypto.open(d.aeadKey, d.iv, Aad(r.headers), r.rawBody) == Some(d.xml);
    }
  }

  /** The channel granted is the draft's, exactly when it may act on it. */
  lemma ChannelIsGranted(s: Server, d: Draft, sentAt: int, target: Option<string>, now: int64, minTier: Tier,
                         channel: Option<string>)
    ensures GrantsChannel(s, Received(s.crypto, d, sentAt, target, now, minTier), channel)
            <==> MayActOn(s.provider, d, target) && channel == Channel(d)
  {
  }

  /** The sender's request passes every check that does not depend on the required tier. */
  predicate IsServed(s: Server, c: Cache, d: Draft, sentAt: int, target: Option<string>, now: int64) {
    && !s.provider.isRevoked(d.keyId) && IsTimely(sentAt, now, s.window)
    && IsFresh(c, Call(Pair(d.keyId, Encode(d.nonce)), now))
    && MayActOn(s.provider, d, target)
  }

  /** The tier that the draft's own headers amount to. */
  function TierOf(d: Draft): Tier {
    if d.encKeyId.Some? then Three else if d.scope.Some? then Two else One
  }

  /** A conformant request under any key that the server still lists is accepted exactly when
      its key-id is not revoked, the clocks differ by no more than the window, its nonce is
      unseen, it may act on its channel and it meets the required tier; and then the server
      has the original plaintext. */
  lemma ConformantRequestIsAccepted(s: Server, c: Cache, d: Draft, sentAt: int,
                                    target: Option<string>, now: int64, minTier: Tier)
    requires SharesKeys(s.provider, d)
    ensures var r := Received(s.crypto, d, sentAt, target, now, minTier);
            var accepted := VerifiedRequest(d.xml, d.keyId, Channel(d), TierOf(d));
            && (Verdict(s, c, r).Success? <==> IsServed(s, c, d, sentAt, target, now) && MeetsTier(r.headers, minTier))
            && (Verdict(s, c, r).Success? ==> Verdict(s, c, r) == Success(accepted))
  {
    var r := Received(s.crypto, d, sentAt, target, now, minTier);
    var accepted := VerifiedRequest(d.xml, d.keyId, Channel(d), TierOf(d));
    SignatureIsAuthentic(s, d, sentAt, target, now, minTier);
    BodyIsDelivered(s, d, sentAt, target, now, minTier);
    ChannelIsGranted(s, d, sentAt, target, now, minTier, Channel(d));
    AcceptanceIsExact(s, c, r, accepted);
    if Verdict(s, c, r).Success? {
      var v := Verdict(s, c, r).value;
      AcceptanceIsExact(s, c, r, v);
      ChannelIsGranted(s, d, sentAt, target, now, minTier, v.scopeChannel);
    }
  }

  /** The draft that the example makes for a tier: scoped from Tier Two, encrypted at Tier Three. */
  predicate IsForTier(d: Draft, tier: Tier) {
    match tier
    case Zero => false
    case One => d.scope.None? && d.encKeyId.None?
    case Two => d.scope.Some? && d.encKeyId.None?
    case Three => d.scope.Some? && d.encKeyId.Some?
  }

  /** A request made for a tier is accepted, under any policy up to that tier, exactly when it
      is served, and achieves exactly the sender's tier. */
  lemma RequestForTierIsAccepted(s: Server, c: Cache, d: Draft, sentAt: int, tier: Tier,
                                 target: Option<string>, now: int64, minTier: Tier)
    requires IsForTier(d, tier) && minTier.Level() <= tier.Level() && SharesKeys(s.provider, d)
    ensures var r := Received(s.crypto, d, sentAt, target, now, minTier);
            && (Verdict(s, c, r).Success? <==> IsServed(s, c, d, sentAt, target, now))
            && (Verdict(s, c, r).Success? ==>
                  Verdict(s, c, r) == Success(VerifiedRequest(d.xml, d.keyId, Channel(d), tier)))
  {
    ConformantRequestIsAccepted(s, c, d, sentAt, target, now, minTier);
  }

  /** Tier Three need not include Tier Two: a request encrypted but not scoped is accepted as
      Tier Three without any channel authorisation, on every server that has its keys. */
  lemma TierThreeWithoutAuthorisation(s: Server, d: Draft, sentAt: int, target: Option<string>, now: int64)
    requires d.scope.None? && d.encKeyId.Some? && SharesKeys(s.provider, d)
    requires !s.provider.isRevoked(d.keyId) && IsTimely(sentAt, now, s.window)
    ensures var r := Received(s.crypto, d, sentAt, target, now, One);
            Verdict(s, EMPTY, r) == Success(VerifiedRequest(d.xml, d.keyId, None, Three))
  {
    ConformantRequestIsAccepted(s, EMPTY, d, sentAt, target, now, One);
  }

  /** A draft scoped to a channel, without blanks at its ends, is granted exactly that channel,
      if the key may act on it and it is the target when one is given. */
  lemma ScopedChannelIsGranted(s: Server, c: Cache, d: Draft, id: string, sentAt: int,
                               target: Option<string>, now: int64, minTier: Tier)
    requires d.scope == Some("channel=" + id) && (id == "" || (!IsBlank(id[0]) && !IsBlank(id[|id| - 1])))
    requires SharesKeys(s.provider, d)
    ensures Channel(d) == Some(id)
    ensures var verdict := Verdict(s, c, Received(s.crypto, d, sentAt, target, now, minTier));
            && (verdict.Success? <==>
                  && !s.provider.isRevoked(d.keyId) && IsTimely(sentAt, now, s.window)
                  && IsFresh(c, Call(Pair(d.keyId, Encode(d.nonce)), now))
                  && s.provider.isAuthorized(d.keyId, id) && (target == None || target == Some(id))
                  && (minTier == Three ==> d.encKeyId.Some?))
            && (verdict.Success? ==> verdict.value.scopeChannel == Some(id))
  {
    assert "channel=" + "" + id + "" == "channel=" + id && AllBlank("");
    DeclaredChannelIsExact("channel=" + id, id);
    ConformantRequestIsAccepted(s, c, d, sentAt, target, now, minTier);
  }

  /** The lengths on the wire: 32 hex digits of nonce, 64 of signature and 24 of IV. */
  lemma WireLengths(crypto: Crypto, d: Draft, sentAt: int)
    ensures |Unsigned(d, sentAt).nonce.value| == 32 && |Signature(crypto, d, sentAt)| == 64
    ensures d.encKeyId.Some? ==> |Unsigned(d, sentAt).iv.value| == 24
  {
    DecodeEncode(d.nonce);
    DecodeEncode(d.iv);
    SignIsMac(crypto, d.signingKey,
              RequestForm(d.httpMethod, d.path, FormatText(sentAt), Encode(d.nonce),
                          BodyHash(crypto, Body(crypto, d, sentAt)), d.scope).Text());
  }
}

/** `verify_request` of `cpp/src/protocol.cpp` and `src/lib.rs`: the pipeline as a function of
    the request and the replay cache, and the method that runs it on the cache object. */
module Protocol {
  import opened Wrappers
  import opened Machine
  import opened Hex
  import opened Seams
  import opened Tier1
  import opened Scope
  import opened Canonical
  import opened ReplayCache

  datatype Tier = Zero | One | Two | Three
  {
    function Level(): nat {
      match this case Zero => 0 case One => 1 case Two => 2 case Three => 3
    }
  }

  datatype SesameError = MissingHeaders | InvalidVersion | UnknownKey | ExpiredTimestamp
    | ReplayDetected | SignatureMismatch | ScopeDenied | DecryptFailed | KeyRevoked

  const PROTOCOL_VERSION: string := "1.0"

  datatype SesameHeaders = SesameHeaders(
    version: Option<string>, keyId: Option<string>, timestamp: Option<string>,
    nonce: Option<string>, signature: Option<string>, scope: Option<string>,
    encrypted: bool, encKeyId: Option<string>, iv: Option<string>)
  {
    predicate IsAbsent() {
      version.None? && keyId.None? && timestamp.None? && nonce.None? && signature.None?
    }

    predicate HasTier1() {
      version.Some? && keyId.Some? && timestamp.Some? && nonce.Some? && signature.Some?
    }
  }

  datatype RequestContext = RequestContext(httpMethod: string, path: string, targetChannel: Option<string>)

  datatype VerifiedRequest = VerifiedRequest(
    plaintext: Bytes, keyId: string, scopeChannel: Option<string>, achievedTier: Tier)

  type VerifyResult = Result<VerifiedRequest, SesameError>

  /** What stays the same over a run: the backend, the key directory and the two windows. */
  datatype Server = Server(crypto: Crypto, provider: KeyProvider, window: int64, cacheWindow: int64)

  /** What varies from request to request: the request, the clock and the policy. */
  datatype Request = Request(
    ctx: RequestContext, headers: SesameHeaders, rawBody: Bytes, now: int64, minTier: Tier)
  {
    /** What the replay cache remembers of a request. */
    function CacheKey(): Pair
      requires headers.HasTier1()
    {
      Pair(headers.keyId.value, headers.nonce.value)
    }
  }

  function BodyHash(crypto: Crypto, body: Bytes): string { Encode(crypto.sha256(body)) }

  /** The parts of a request that its signature covers, and their text. */
  function SignedForm(crypto: Crypto, r: Request): RequestForm
    requires r.headers.HasTier1()
  {
    RequestForm(r.ctx.httpMethod, r.ctx.path, r.headers.timestamp.value, r.headers.nonce.value,
                BodyHash(crypto, r.rawBody), r.headers.scope)
  }

  function SignedText(crypto: Crypto, r: Request): string
    requires r.headers.HasTier1()
  {
    SignedForm(crypto, r).Text()
  }

  /** The error of a request that has some header but fails before the replay cache is asked;
      None if the cache is asked. */
  ghost function EarlyError(s: Server, r: Request): Option<SesameError> {
    var h := r.headers;
    if !h.HasTier1() then Some(MissingHeaders)
    else if h.version.value != PROTOCOL_VERSION then Some(InvalidVersion)
    else if !IsFreshTime(h.timestamp.value, r.now, s.window) then Some(ExpiredTimestamp)
    else if s.provider.isRevoked(h.keyId.value) then Some(KeyRevoked)
    else if s.provider.signingKeys(h.keyId.value) == [] then Some(UnknownKey)
    else if !SignedByAny(s.crypto, s.provider.signingKeys(h.keyId.value), SignedText(s.crypto, r), h.signature.value)
    then Some(SignatureMismatch)
    else None
  }

  /** Does the request get as far as the replay cache? It depends on the request alone. */
  ghost predicate ReachesCache(s: Server, r: Request) {
    !r.headers.IsAbsent() && EarlyError(s, r).None?
  }

  /** The scope names a channel, it is the target if there is one, and the key may act on it. */
  predicate Authorized(provider: KeyProvider, keyId: string, scope: string, targetChannel: Option<string>) {
    var declared := DeclaredChannel(scope);
    && declared.Some?
    && (targetChannel.None? || targetChannel == declared)
    && provider.isAuthorized(keyId, declared.value)
  }

  /** Tier 2: the authorised channel, if one is declared or required. */
  function ScopeStage(s: Server, r: Request): Result<Option<string>, SesameError>
    requires r.headers.HasTier1()
  {
    if r.headers.scope.None? then
      if r.minTier.Level() >= 2 then Failure(ScopeDenied) else Success(None)
    else if Authorized(s.provider, r.headers.keyId.value, r.headers.scope.value, r.ctx.targetChannel)
    then Success(DeclaredChannel(r.headers.scope.value)) else Failure(ScopeDenied)
  }

  function Aad(h: SesameHeaders): string
    requires h.HasTier1()
  {
    AadForm(h.version.value, h.keyId.value, h.timestamp.value, h.nonce.value, h.scope).Text()
  }

  /** The decrypted body, if every part needed for it is present and right. */
  function Decrypted(crypto: Crypto, provider: KeyProvider, h: SesameHeaders, rawBody: Bytes): Option<Bytes>
    requires h.HasTier1()
  {
    if h.encKeyId.None? || h.iv.None? then None
    else
      var iv, key := Decode(h.iv.value), provider.aeadKey(h.encKeyId.value);
      if iv.None? || |iv.value| != 12 || key.None? then None
      else crypto.open(key.value, iv.value, Aad(h), rawBody)
  }

  /** Tier 3: the plaintext, decrypted if the request is marked encrypted. */
  function BodyStage(s: Server, r: Request): Result<Bytes, SesameError>
    requires r.headers.HasTier1()
  {
    if r.headers.encrypted then
      match Decrypted(s.crypto, s.provider, r.headers, r.rawBody)
      case None => Failure(DecryptFailed)
      case Some(plaintext) => Success(plaintext)
    else if r.minTier.Level() >= 3 then Failure(DecryptFailed)
    else Success(r.rawBody)
  }

  function Achieved(h: SesameHeaders): Tier {
    if h.encrypted then Three else if h.scope.Some? then Two else One
  }

  /** The stages after the replay cache. */
  function LateResult(s: Server, r: Request): VerifyResult
    requires r.headers.HasTier1()
  {
    match ScopeStage(s, r)
    case Failure(e) => Failure(e)
    case Success(channel) =>
      match BodyStage(s, r)
      case Failure(e) => Failure(e)
      case Success(plaintext) =>
        if Achieved(r.headers).Level() < r.minTier.Level() then Failure(MissingHeaders)
        else Success(VerifiedRequest(plaintext, r.headers.keyId.value, channel, Achieved(r.headers)))
  }

  /** The verdict on a request, given the cache. */
  ghost function Verdict(s: Server, c: Cache, r: Request): VerifyResult {
    if r.headers.IsAbsent() then
      if r.minTier == Zero then Success(VerifiedRequest(r.rawBody, "", None, Zero)) else Failure(MissingHeaders)
    else
      match EarlyError(s, r)
      case Some(e) => Failure(e)
      case None => if IsFresh(c, Call(r.CacheKey(), r.now)) then LateResult(s, r) else Failure(ReplayDetected)
  }

  /** The cache after a request. */
  ghost function NextCache(s: Server, c: Cache, r: Request): Cache {
    if ReachesCache(s, r) then Step(s.cacheWindow, c, Call(r.CacheKey(), r.now)) else c
  }

  method BodyHashHex(crypto: Crypto, body: Bytes) returns (hash: string)
    ensures hash == BodyHash(crypto, body)
    ensures |hash| == 64 && forall i :: 0 <= i < |hash| ==> IsLowerHexDigit(hash[i])
    ensures Decode(hash) == Some(crypto.sha256(body))
  {
    hash := HexEncode(crypto.sha256(body));
    DecodeEncode(crypto.sha256(body));
    EncodeIsLowercaseHex(crypto.sha256(body));
  }

  /** The Tier-2 block of `verify_request`: the declared channel, or nothing if it is denied. */
  method Authorize(provider: KeyProvider, keyId: string, scope: string, targetChannel: Option<string>)
    returns (channel: Option<string>)
    ensures channel == if Authorized(provider, keyId, scope, targetChannel) then DeclaredChannel(scope) else None
  {
    var declared := ParseScopeChannel(scope);
    if declared.None? {
      return None;
    }
    if targetChannel.Some? && targetChannel.value != declared.value {
      return None;
    }
    if !provider.isAuthorized(keyId, declared.value) {
      return None;
    }
    channel := declared;
  }

  /** The Tier-3 block of `verify_request`. */
  method Decrypt(crypto: Crypto, provider: KeyProvider, headers: SesameHeaders, rawBody: Bytes)
    returns (plaintext: Option<Bytes>)
    requires headers.HasTier1()
    ensures plaintext == Decrypted(crypto, provider, headers, rawBody)
  {
    if headers.encKeyId.None? || headers.iv.None? {
      return None;
    }
    var ivBytes := HexDecode(headers.iv.value);
    if ivBytes.None? || |ivBytes.value| != 12 {
      return None;
    }
    var aead := provider.aeadKey(headers.encKeyId.value);
    if aead.None? {
      return None;
    }
    var aad := AadForHeaders(headers.version.value, headers.keyId.value, headers.timestamp.value,
                             headers.nonce.value, headers.scope);
    plaintext := crypto.open(aead.value, ivBytes.value, aad, rawBody);
  }

  /** `verify_request` up to the replay cache: the error of a request that has some header, if
      it is not authentic. */
  method Authenticate(s: Server, r: Request) returns (error: Option<SesameError>)
    ensures error == EarlyError(s, r)
  {
    var h := r.headers;
    if h.version.None? || h.keyId.None? || h.timestamp.None? || h.nonce.None? || h.signature.None? {
      return Some(MissingHeaders);
    }
    var keyId, timestamp := h.keyId.value, h.timestamp.value;
    if h.version.value != PROTOCOL_VERSION {
      return Some(InvalidVersion);
    }
    var timely := CheckFreshness(timestamp, r.now, s.window);
    if !timely {
      return Some(ExpiredTimestamp);
    }
    if s.provider.isRevoked(keyId) {
      return Some(KeyRevoked);
    }
    var signingKeys := s.provider.signingKeys(keyId);
    if signingKeys == [] {
      return Some(UnknownKey);
    }
    var bodyHash := BodyHashHex(s.crypto, r.rawBody);
    var canon := RequestCanonical(r.ctx.httpMethod, r.ctx.path, timestamp, h.nonce.value, bodyHash, h.scope);
    assert canon == SignedText(s.crypto, r);
    var authentic := VerifyAny(s.crypto, signingKeys, canon, h.signature.value);
    error := if authentic then None else Some(SignatureMismatch);
  }

  /** `verify_request` from the replay cache on: authorisation, decryption and the last guard. */
  method VerifyLate(s: Server, r: Request) returns (result: VerifyResult)
    requires r.headers.HasTier1()
    ensures result == LateResult(s, r)
  {
    var h := r.headers;
    var achieved := One;
    var scopeChannel: Option<string> := None;
    if h.scope.Some? {
      scopeChannel := Authorize(s.provider, h.keyId.value, h.scope.value, r.ctx.targetChannel);
      if scopeChannel.None? {
        return Failure(ScopeDenied);
      }
      achieved := Two;
    } else if r.minTier.Level() >= Two.Level() {
      return Failure(ScopeDenied);
    }
    assert ScopeStage(s, r) == Success(scopeChannel);

    var plaintext: Bytes;
    if h.encrypted {
      var unsealed := Decrypt(s.crypto, s.provider, h, r.rawBody);
      if unsealed.None? {
        return Failure(DecryptFailed);
      }
      plaintext := unsealed.value;
      achieved := Three;
    } else if r.minTier.Level() >= Three.Level() {
      return Failure(DecryptFailed);
    } else {
      plaintext := r.rawBody;
    }
    assert BodyStage(s, r) == Success(plaintext) && achieved == Achieved(h);

    if achieved.Level() < r.minTier.Level() {
      return Failure(MissingHeaders);
    }
    result := Success(VerifiedRequest(plaintext, h.keyId.value, scopeChannel, achieved));
  }

  method VerifyRequest(crypto: Crypto, window: int64, provider: KeyProvider, replay: InMemoryReplayCache,
                       ctx: RequestContext, headers: SesameHeaders, rawBody: Bytes, now: int64, minTier: Tier)
    returns (result: VerifyResult)
    modifies replay
    ensures var s := Server(crypto, provider, window, replay.windowSecs);
            var r := Request(ctx, headers, rawBody, now, minTier);
            && result == Verdict(s, old(replay.State()), r)
            && replay.State() == NextCache(s, old(replay.State()), r)
  {
    if headers.IsAbsent() {
      if minTier == Zero {
        return Success(VerifiedRequest(rawBody, "", None, Zero));
      }
      return Failure(MissingHeaders);
    }
    var s := Server(crypto, provider, window, replay.windowSecs);
    var r := Request(ctx, headers, rawBody, now, minTier);
    var error := Authenticate(s, r);
    if error.Some? {
      return Failure(error.value);
    }
    var unseen, _ := replay.CheckAndRemember(headers.keyId.value, headers.nonce.value, now);
    if !unseen {
      return Failure(ReplayDetected);
    }
    result := VerifyLate(s, r);
  }
}

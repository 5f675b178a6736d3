/** What one verdict of `verify_request` means: exactly when a request is accepted and with
    what, how the verdict depends on the required tier and on the clock, and which requests
    can touch the replay cache. */
module VerifyLaws {
  import opened Wrappers
  import opened Machine
  import opened Hex
  import opened Seams
  import opened Timestamps
  import opened Tier1
  import opened Scope
  import opened Canonical
  import opened ReplayCache
  import opened Protocol

  // ---- Acceptance, independently of the order of the checks -----------------------------------

  /** The signature is hex of the MAC, under a current key of the key-id, of the method, target,
      timestamp, nonce, body digest and scope. */
  ghost predicate CarriesMac(s: Server, r: Request)
    requires r.headers.keyId.Some? && r.headers.timestamp.Some? && r.headers.nonce.Some? && r.headers.signature.Some?
  {
    var h := r.headers;
    exists key :: key in s.provider.signingKeys(h.keyId.value) && Decode(h.signature.value) ==
      Some(s.crypto.hmac(key, RequestForm(r.ctx.httpMethod, r.ctx.path, h.timestamp.value, h.nonce.value,
                                          Encode(s.crypto.sha256(r.rawBody)), h.scope).Text()))
  }

  /** The request carries a fresh timestamp and a signature by a current key of an unrevoked
      key-id over its method, target, timestamp, nonce, body and scope. */
  ghost predicate IsAuthentic(s: Server, r: Request) {
    var h := r.headers;
    && h.version == Some("1.0") && h.keyId.Some? && h.timestamp.Some? && h.nonce.Some? && h.signature.Some?
    && (exists t :: WireTime(h.timestamp.value) == Some(t) && t - s.window <= r.now <= t + s.window)
    && !s.provider.isRevoked(h.keyId.value)
    && CarriesMac(s, r)
  }

  /** The channel granted: the one declared, if the key may act on it and it is the target. */
  ghost predicate GrantsChannel(s: Server, r: Request, channel: Option<string>)
    requires r.headers.HasTier1()
  {
    match r.headers.scope
    case None => channel == None
    case Some(scope) =>
      && channel.Some? && DeclaredChannel(scope) == channel
      && s.provider.isAuthorized(r.headers.keyId.value, channel.value)
      && (r.ctx.targetChannel == None || r.ctx.targetChannel == channel)
  }

  /** The plaintext delivered: the body itself, or what it opens to under the headers. */
  ghost predicate Delivers(s: Server, r: Request, plaintext: Bytes)
    requires r.headers.HasTier1()
  {
    if !r.headers.encrypted then plaintext == r.rawBody
    else
      && r.headers.encKeyId.Some? && r.headers.iv.Some?
      && exists key: AeadKey, iv: Iv ::
           && s.provider.aeadKey(r.headers.encKeyId.value) == Some(key)
           && Lower(r.headers.iv.value) == Encode(iv)
           && s.crypto.open(key, iv, AadForm(r.headers.version.value, r.headers.keyId.value, r.headers.timestamp.value,
                                             r.headers.nonce.value, r.headers.scope).Text(), r.rawBody) == Some(plaintext)
  }

  /** Tiers Two and Three each add a requirement of their own. */
  predicate MeetsTier(h: SesameHeaders, minTier: Tier) {
    match minTier
    case Zero => true
    case One => true
    case Two => h.scope.Some?
    case Three => h.scope.Some? && h.encrypted
  }

  lemma SignedByAnyIsMac(s: Server, r: Request)
    requires r.headers.HasTier1()
    ensures SignedByAny(s.crypto, s.provider.signingKeys(r.headers.keyId.value), SignedText(s.crypto, r), r.headers.signature.value)
            <==> CarriesMac(s, r)
    ensures CarriesMac(s, r) ==> s.provider.signingKeys(r.headers.keyId.value) != []
  {
    var keys, text, mac := s.provider.signingKeys(r.headers.keyId.value), SignedText(s.crypto, r), Decode(r.headers.signature.value);
    if SignedByAny(s.crypto, keys, text, r.headers.signature.value) {
      var i :| 0 <= i < |keys| && mac == Some(s.crypto.hmac(keys[i], text));
      assert keys[i] in keys;
    }
    if CarriesMac(s, r) {
      var key :| key in keys && mac == Some(s.crypto.hmac(key, text));
      var i :| 0 <= i < |keys| && keys[i] == key;
    }
  }

  lemma EarlyErrorIsExact(s: Server, r: Request)
    ensures ReachesCache(s, r) <==> IsAuthentic(s, r)
  {
    if r.headers.HasTier1() {
      SignedByAnyIsMac(s, r);
    }
  }

  lemma ScopeStageIsExact(s: Server, r: Request, channel: Option<string>)
    requires r.headers.HasTier1()
    ensures ScopeStage(s, r) == Success(channel)
            <==> GrantsChannel(s, r, channel) && (r.minTier == Two || r.minTier == Three ==> r.headers.scope.Some?)
  {
  }

  lemma BodyStageIsExact(s: Server, r: Request, plaintext: Bytes)
    requires r.headers.HasTier1()
    ensures BodyStage(s, r) == Success(plaintext)
            <==> Delivers(s, r, plaintext) && (r.minTier == Three ==> r.headers.encrypted)
  {
    var h := r.headers;
    if h.encrypted && h.encKeyId.Some? && h.iv.Some? {
      if Decrypted(s.crypto, s.provider, h, r.rawBody) == Some(plaintext) {
        var iv: Iv := Decode(h.iv.value).value;
        DecodesTo(h.iv.value, iv);
        assert Lower(h.iv.value) == Encode(iv);
      }
      forall key: AeadKey, iv: Iv | s.provider.aeadKey(h.encKeyId.value) == Some(key)
          && Lower(h.iv.value) == Encode(iv) && s.crypto.open(key, iv, Aad(h), r.rawBody) == Some(plaintext)
        ensures Decrypted(s.crypto, s.provider, h, r.rawBody) == Some(plaintext)
      {
        DecodesTo(h.iv.value, iv);
      }
    }
  }

  /** The last guard of the pipeline never fires: a request that passes both stages has
      achieved the required tier. */
  lemma LastGuardIsUnreachable(s: Server, r: Request)
    requires r.headers.HasTier1() && ScopeStage(s, r).Success? && BodyStage(s, r).Success?
    ensures Achieved(r.headers).Level() >= r.minTier.Level()
    ensures LateResult(s, r) != Failure(MissingHeaders)
  {
  }

  /** The stages after the replay cache succeed, and with which result, exactly under these
      conditions. */
  lemma LateResultIsExact(s: Server, r: Request, v: VerifiedRequest)
    requires r.headers.HasTier1()
    ensures LateResult(s, r) == Success(v) <==>
            && MeetsTier(r.headers, r.minTier)
            && GrantsChannel(s, r, v.scopeChannel)
            && Delivers(s, r, v.plaintext)
            && v.keyId == r.headers.keyId.value
            && v.achievedTier == (if r.headers.encrypted then Three else if r.headers.scope.Some? then Two else One)
  {
    ScopeStageIsExact(s, r, v.scopeChannel);
    BodyStageIsExact(s, r, v.plaintext);
  }

  lemma PassthroughIsExact(s: Server, c: Cache, r: Request, v: VerifiedRequest)
    requires var h := r.headers;
             h.version.None? && h.keyId.None? && h.timestamp.None? && h.nonce.None? && h.signature.None?
    ensures Verdict(s, c, r) == Success(v) <==>
            && r.minTier == Zero
            && v.plaintext == r.rawBody && v.keyId == "" && v.scopeChannel == None && v.achievedTier == Zero
    ensures NextCache(s, c, r) == c
  {
  }

  /** A request is accepted, and with which result, exactly under these conditions: it has none
      of the five headers and the policy lets it through, or it is authentic, unseen and
      granted what it asks for. */
  lemma AcceptanceIsExact(s: Server, c: Cache, r: Request, v: VerifiedRequest)
    ensures var h := r.headers;
            Verdict(s, c, r) == Success(v) <==>
            if h.version.None? && h.keyId.None? && h.timestamp.None? && h.nonce.None? && h.signature.None? then
              && r.minTier == Zero
              && v.plaintext == r.rawBody && v.keyId == "" && v.scopeChannel == None && v.achievedTier == Zero
            else
              && IsAuthentic(s, r)
              && IsFresh(c, Call(Pair(h.keyId.value, h.nonce.value), r.now))
              && MeetsTier(h, r.minTier)
              && GrantsChannel(s, r, v.scopeChannel)
              && Delivers(s, r, v.plaintext)
              && v.keyId == h.keyId.value
              && v.achievedTier == (if h.encrypted then Three else if h.scope.Some? then Two else One)
  {
    if r.headers.IsAbsent() {
      PassthroughIsExact(s, c, r, v);
    } else {
      EarlyErrorIsExact(s, r);
      if IsAuthentic(s, r) {
        LateResultIsExact(s, r, v);
      }
    }
  }

  /** Whatever is accepted above Tier Zero is authentic, and what is accepted at Tier Zero has
      none of the five headers. */
  lemma AuthenticAboveTierZero(s: Server, c: Cache, r: Request)
    requires Verdict(s, c, r).Success?
    ensures var h := r.headers;
            if Verdict(s, c, r).value.achievedTier == Zero
            then h.version.None? && h.keyId.None? && h.timestamp.None? && h.nonce.None? && h.signature.None?
            else IsAuthentic(s, r)
  {
    AcceptanceIsExact(s, c, r, Verdict(s, c, r).value);
  }

  // ---- The order of refusals ----------------------------------------------------------------------

  /** The checks of the protocol in the order it documents, each with the error it reports:
      headers, version, freshness, key, signature, replay, authorisation, decryption. */
  ghost function Checks(s: Server, c: Cache, r: Request): seq<(bool, SesameError)> {
    var h := r.headers;
    if h.version.None? && h.keyId.None? && h.timestamp.None? && h.nonce.None? && h.signature.None? && r.minTier == Zero then []
    else if h.version.None? || h.keyId.None? || h.timestamp.None? || h.nonce.None? || h.signature.None? then
      [(false, MissingHeaders)]
    else
      [ (h.version == Some("1.0"), InvalidVersion),
        (exists t :: WireTime(h.timestamp.value) == Some(t) && t - s.window <= r.now <= t + s.window, ExpiredTimestamp),
        (!s.provider.isRevoked(h.keyId.value), KeyRevoked),
        (|s.provider.signingKeys(h.keyId.value)| > 0, UnknownKey),
        (CarriesMac(s, r), SignatureMismatch),
        (IsFresh(c, Call(Pair(h.keyId.value, h.nonce.value), r.now)), ReplayDetected),
        ((r.minTier == Two || r.minTier == Three ==> h.scope.Some?) && exists channel :: GrantsChannel(s, r, channel), ScopeDenied),
        ((r.minTier == Three ==> h.encrypted) && exists plaintext :: Delivers(s, r, plaintext), DecryptFailed) ]
  }

  /** The error of the first check that fails. */
  function FirstFailure(checks: seq<(bool, SesameError)>): Option<SesameError> {
    if checks == [] then None
    else if !checks[0].0 then Some(checks[0].1)
    else FirstFailure(checks[1..])
  }

  /** The first failing check, found without walking the list. */
  lemma {:induction false} FirstFailureIs(checks: seq<(bool, SesameError)>, i: nat)
    requires i <= |checks| && (forall j :: 0 <= j < i ==> checks[j].0) && (i < |checks| ==> !checks[i].0)
    ensures FirstFailure(checks) == if i < |checks| then Some(checks[i].1) else None
  {
    if i == 0 {
    } else {
      FirstFailureIs(checks[1..], i - 1);
    }
  }

  lemma LateStagesAreExact(s: Server, r: Request)
    requires r.headers.HasTier1()
    ensures ScopeStage(s, r).Success?
            <==> (r.minTier == Two || r.minTier == Three ==> r.headers.scope.Some?) && exists channel :: GrantsChannel(s, r, channel)
    ensures BodyStage(s, r).Success?
            <==> (r.minTier == Three ==> r.headers.encrypted) && exists plaintext :: Delivers(s, r, plaintext)
  {
    forall channel {
      ScopeStageIsExact(s, r, channel);
    }
    forall plaintext {
      BodyStageIsExact(s, r, plaintext);
    }
    if ScopeStage(s, r).Success? {
      assert GrantsChannel(s, r, ScopeStage(s, r).value);
    }
    if BodyStage(s, r).Success? {
      assert Delivers(s, r, BodyStage(s, r).value);
    }
  }

  lemma EarlyChecksAreExact(s: Server, c: Cache, r: Request, i: nat)
    requires r.headers.HasTier1() && i <= 5
    requires forall j :: 0 <= j < i ==> Checks(s, c, r)[j].0
    requires i < 5 ==> !Checks(s, c, r)[i].0
    ensures EarlyError(s, r) == if i < 5 then Some(Checks(s, c, r)[i].1) else None
  {
    var checks := Checks(s, c, r);
    var timestamp := r.headers.timestamp.value;
    SignedByAnyIsMac(s, r);
    assert checks[1].0 <==> IsFreshTime(timestamp, r.now, s.window) by {
      if IsFreshTime(timestamp, r.now, s.window) {
        assert WireTime(timestamp) == Some(WireTime(timestamp).value);
      }
    }
    if i == 0 {
    } else if i == 1 {
      assert checks[0].0;
    } else if i == 2 {
      assert checks[0].0 && checks[1].0;
    } else if i == 3 {
      assert checks[0].0 && checks[1].0 && checks[2].0;
    } else if i == 4 {
      assert checks[0].0 && checks[1].0 && checks[2].0 && checks[3].0;
    } else {
      assert checks[0].0 && checks[1].0 && checks[2].0 && checks[3].0 && checks[4].0;
    }
  }

  lemma LateChecksAreExact(s: Server, c: Cache, r: Request)
    requires r.headers.HasTier1() && EarlyError(s, r).None?
    ensures var checks := Checks(s, c, r);
            Verdict(s, c, r) == (if !checks[5].0 then Failure(ReplayDetected)
                                 else if !checks[6].0 then Failure(ScopeDenied)
                                 else if !checks[7].0 then Failure(DecryptFailed)
                                 else LateResult(s, r))
    ensures Checks(s, c, r)[6].0 && Checks(s, c, r)[7].0 ==> LateResult(s, r).Success?
  {
    LateStagesAreExact(s, r);
  }

  /** A request is refused with the error of the first check that fails, in the documented
      order, and accepted if none does. */
  lemma RefusalIsFirstFailure(s: Server, c: Cache, r: Request)
    ensures match FirstFailure(Checks(s, c, r))
            case Some(e) => Verdict(s, c, r) == Failure(e)
            case None => Verdict(s, c, r).Success?
  {
    var checks := Checks(s, c, r);
    var i := 0;
    while i < |checks| && checks[i].0
      invariant 0 <= i <= |checks| && forall j :: 0 <= j < i ==> checks[j].0
    {
      i := i + 1;
    }
    FirstFailureIs(checks, i);
    if r.headers.HasTier1() {
      if i < 5 {
        EarlyChecksAreExact(s, c, r, i);
      } else {
        EarlyChecksAreExact(s, c, r, 5);
        LateChecksAreExact(s, c, r);
      }
    }
  }

  // ---- Tiers ------------------------------------------------------------------------------------

  /** The signature covers neither the clock nor the policy. */
  lemma SignedTextIgnoresPolicy(s: Server, r: Request, now: int64, m: Tier)
    requires r.headers.HasTier1()
    ensures SignedText(s.crypto, r.(now := now, minTier := m)) == SignedText(s.crypto, r)
  {
  }

  lemma EarlyErrorIgnoresPolicy(s: Server, r: Request, m: Tier)
    ensures EarlyError(s, r.(minTier := m)) == EarlyError(s, r)
  {
    if r.headers.HasTier1() {
      SignedTextIgnoresPolicy(s, r, r.now, m);
    }
  }

  lemma LateResultByTier(s: Server, r: Request, m: Tier)
    requires r.headers.HasTier1()
    ensures var atOne, atM := LateResult(s, r.(minTier := One)), LateResult(s, r.(minTier := m));
            && (atM.Success? <==> atOne.Success? && MeetsTier(r.headers, m))
            && (atM.Success? ==> atM == atOne)
  {
  }

  /** The verdict as a function of the required tier: what is accepted at a tier is what is
      accepted at Tier One and meets the tier's own requirements, with the same result, and
      the cache changes in the same way at every tier. */
  lemma TierTable(s: Server, c: Cache, r: Request, m: Tier)
    requires !r.headers.IsAbsent()
    ensures var atOne, atM := Verdict(s, c, r.(minTier := One)), Verdict(s, c, r.(minTier := m));
            && (atM.Success? <==> atOne.Success? && MeetsTier(r.headers, m))
            && (atM.Success? ==> atM == atOne)
    ensures NextCache(s, c, r.(minTier := m)) == NextCache(s, c, r)
  {
    EarlyErrorIgnoresPolicy(s, r, m);
    EarlyErrorIgnoresPolicy(s, r, One);
    if EarlyError(s, r).None? {
      LateResultByTier(s, r, m);
    }
  }

  /** Acceptance at one tier is acceptance, with the same result and the same next cache, at
      every lower one. */
  lemma TierMonotone(s: Server, c: Cache, r: Request, lower: Tier)
    requires lower.Level() <= r.minTier.Level() && Verdict(s, c, r).Success?
    ensures Verdict(s, c, r.(minTier := lower)) == Verdict(s, c, r)
    ensures NextCache(s, c, r.(minTier := lower)) == NextCache(s, c, r)
  {
    if !r.headers.IsAbsent() {
      assert r.(minTier := r.minTier) == r;
      TierTable(s, c, r, r.minTier);
      TierTable(s, c, r, lower);
    }
  }

  /** An accepted request achieves at least the required tier. */
  lemma AchievesMinimum(s: Server, c: Cache, r: Request)
    requires Verdict(s, c, r).Success?
    ensures Verdict(s, c, r).value.achievedTier.Level() >= r.minTier.Level()
  {
  }

  /** Tiers are documented as additive, Tier Three including Tier Two. The code grants Tier
      Three to an encrypted request whether or not it was authorised for a channel: the tier
      includes channel authorisation exactly when the request has a scope header. */
  lemma TierThreeIncludesTwoIffScoped(s: Server, c: Cache, r: Request)
    requires Verdict(s, c, r).Success? && Verdict(s, c, r).value.achievedTier == Three
    ensures Verdict(s, c, r).value.scopeChannel.Some? <==> r.headers.scope.Some?
    ensures r.headers.scope.None? ==> Verdict(s, c, r.(minTier := Two)) == Failure(ScopeDenied)
  {
    EarlyErrorIgnoresPolicy(s, r, Two);
  }

  // ---- What a signature covers ------------------------------------------------------------------

  lemma WireTimeIsLfFree(iso: string)
    requires WireTime(iso).Some?
    ensures LfFree(iso)
  {
  }

  lemma BodyHashIsLfFree(crypto: Crypto, body: Bytes)
    ensures LfFree(BodyHash(crypto, body))
  {
    EncodeIsLowercaseHex(crypto.sha256(body));
  }

  /** One signed text cannot stand for two different timely requests: it fixes the method, the
      target, the timestamp, the nonce, the scope and the digest of the body. Only the method,
      the target and the nonce have to be free of LF; the timestamp and the digest always are. */
  lemma SignedTextBindsRequest(s: Server, a: Request, b: Request)
    requires a.headers.HasTier1() && IsFreshTime(a.headers.timestamp.value, a.now, s.window)
    requires b.headers.HasTier1() && IsFreshTime(b.headers.timestamp.value, b.now, s.window)
    requires LfFree(a.ctx.httpMethod) && LfFree(a.ctx.path) && LfFree(a.headers.nonce.value)
    requires LfFree(b.ctx.httpMethod) && LfFree(b.ctx.path) && LfFree(b.headers.nonce.value)
    ensures SignedText(s.crypto, a) == SignedText(s.crypto, b) <==>
            && a.ctx.httpMethod == b.ctx.httpMethod && a.ctx.path == b.ctx.path
            && a.headers.timestamp == b.headers.timestamp && a.headers.nonce == b.headers.nonce
            && a.headers.scope == b.headers.scope
            && s.crypto.sha256(a.rawBody) == s.crypto.sha256(b.rawBody)
  {
    WireTimeIsLfFree(a.headers.timestamp.value);
    WireTimeIsLfFree(b.headers.timestamp.value);
    BodyHashIsLfFree(s.crypto, a.rawBody);
    BodyHashIsLfFree(s.crypto, b.rawBody);
    RequestTextIsInjective(SignedForm(s.crypto, a), SignedForm(s.crypto, b));
    DecodeEncode(s.crypto.sha256(a.rawBody));
    DecodeEncode(s.crypto.sha256(b.rawBody));
  }

  /** Whatever else a request holds, its signed text fixes its method and target exactly when
      these are free of LF. */
  lemma SignedTextFixesTargetIffLfFree(s: Server, r: Request)
    requires r.headers.HasTier1()
    ensures LfFree(r.ctx.httpMethod) && LfFree(r.ctx.path)
            <==> forall m, p :: SignedText(s.crypto, r.(ctx := r.ctx.(httpMethod := m, path := p))) == SignedText(s.crypto, r)
                                ==> m == r.ctx.httpMethod && p == r.ctx.path
  {
    var form := SignedForm(s.crypto, r);
    forall m, p
      ensures SignedForm(s.crypto, r.(ctx := r.ctx.(httpMethod := m, path := p))) == form.(httpMethod := m, target := p)
    {
    }
    TextFixesTargetIffLfFree(form);
  }

  // ---- What a signature leaves open ---------------------------------------------------------------

  /** The request with other encryption headers. */
  function WithEncryption(r: Request, encrypted: bool, encKeyId: Option<string>, iv: Option<string>): Request {
    r.(headers := r.headers.(encrypted := encrypted, encKeyId := encKeyId, iv := iv))
  }

  /** The three encryption headers are not signed: no choice of them changes whether a request
      is authentic, or what the cache remembers of it. */
  lemma EncryptionHeadersAreUnsigned(s: Server, c: Cache, r: Request, encrypted: bool, encKeyId: Option<string>, iv: Option<string>)
    ensures IsAuthentic(s, WithEncryption(r, encrypted, encKeyId, iv)) <==> IsAuthentic(s, r)
    ensures NextCache(s, c, WithEncryption(r, encrypted, encKeyId, iv)) == NextCache(s, c, r)
  {
    var other := WithEncryption(r, encrypted, encKeyId, iv);
    if r.headers.HasTier1() {
      assert SignedForm(s.crypto, other) == SignedForm(s.crypto, r);
    }
    EarlyErrorIsExact(s, r);
    EarlyErrorIsExact(s, other);
  }

  lemma UnmarkedIsAuthentic(s: Server, r: Request, m: Tier)
    requires IsAuthentic(s, r)
    ensures IsAuthentic(s, r.(headers := r.headers.(encrypted := false), minTier := m))
  {
    var unmarked := WithEncryption(r, false, r.headers.encKeyId, r.headers.iv);
    EncryptionHeadersAreUnsigned(s, EMPTY, r, false, r.headers.encKeyId, r.headers.iv);
    EarlyErrorIsExact(s, unmarked);
    EarlyErrorIgnoresPolicy(s, unmarked, m);
    EarlyErrorIsExact(s, unmarked.(minTier := m));
  }

  /** An accepted request is also accepted without its encryption mark exactly when the policy
      is below Tier Three, and Tier Two only with a scope; its body is then delivered as it
      stands, at Tier Two or One. */
  lemma UnmarkedIsAcceptedBelowThree(s: Server, c: Cache, r: Request, m: Tier)
    requires !r.headers.IsAbsent() && Verdict(s, c, r).Success?
    ensures var unmarked := r.(headers := r.headers.(encrypted := false), minTier := m);
            && (Verdict(s, c, unmarked).Success? <==> m != Three && (m == Two ==> r.headers.scope.Some?))
            && (Verdict(s, c, unmarked).Success? ==> Verdict(s, c, unmarked) == Success(
                  VerifiedRequest(r.rawBody, r.headers.keyId.value, Verdict(s, c, r).value.scopeChannel,
                                  if r.headers.scope.Some? then Two else One)))
  {
    var unmarked := r.(headers := r.headers.(encrypted := false), minTier := m);
    var v := Verdict(s, c, r).value;
    AcceptanceIsExact(s, c, r, v);
    UnmarkedIsAuthentic(s, r, m);
    AcceptanceIsExact(s, c, unmarked, VerifiedRequest(r.rawBody, v.keyId, v.scopeChannel, Achieved(unmarked.headers)));
    if Verdict(s, c, unmarked).Success? {
      AcceptanceIsExact(s, c, unmarked, Verdict(s, c, unmarked).value);
    }
  }

  // ---- The cache --------------------------------------------------------------------------------

  /** MissingHeaders is reported exactly when one of the five headers is missing, even at policy
      Zero if another is there, and leaves the cache as it was. */
  lemma MissingHeadersIsExact(s: Server, c: Cache, r: Request)
    ensures var h := r.headers;
            Verdict(s, c, r) == Failure(MissingHeaders) <==>
            && (h.version.None? || h.keyId.None? || h.timestamp.None? || h.nonce.None? || h.signature.None?)
            && (r.minTier == Zero ==>
                  h.version.Some? || h.keyId.Some? || h.timestamp.Some? || h.nonce.Some? || h.signature.Some?)
    ensures Verdict(s, c, r) == Failure(MissingHeaders) ==> NextCache(s, c, r) == c
  {
  }

  /** Exactly the authentic requests call the cache, with their key-id, nonce and clock,
      whatever becomes of them later; so unauthenticated traffic cannot fill it. */
  lemma CacheChangesExactly(s: Server, c: Cache, r: Request)
    ensures NextCache(s, c, r) ==
            if IsAuthentic(s, r)
            then Step(s.cacheWindow, c, Call(Pair(r.headers.keyId.value, r.headers.nonce.value), r.now)) else c
    ensures NextCache(s, c, r) != c ==> IsAuthentic(s, r)
  {
    EarlyErrorIsExact(s, r);
  }

  /** An authentic request stays authentic at any clock within the window of its timestamp. */
  lemma ClockOnlyDecidesFreshness(s: Server, r: Request, now: int64)
    requires ReachesCache(s, r)
    ensures ReachesCache(s, r.(now := now)) <==> IsFreshTime(r.headers.timestamp.value, now, s.window)
    ensures LateResult(s, r.(now := now)) == LateResult(s, r)
  {
    SignedTextIgnoresPolicy(s, r, now, r.minTier);
  }
}

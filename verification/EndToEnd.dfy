/** The replay bounds, for requests that a conformant sender really makes. */
module EndToEnd {
  import opened Wrappers
  import opened Machine
  import opened Timestamps
  import opened TimestampLaws
  import opened ReplayCache
  import opened Protocol
  import opened VerifyLaws
  import opened RunLaws
  import opened Sender

  /** The server shares the sender's keys, permits its channel and its tier, and has windows
      that the clock can represent. */
  predicate Serves(s: Server, d: Draft, sentAt: int, target: Option<string>, minTier: Tier) {
    && SharesKeys(s.provider, d) && !s.provider.isRevoked(d.keyId) && MayActOn(s.provider, d, target)
    && MeetsTier(Unsigned(d, sentAt), minTier)
    && 0 <= FieldsAt(sentAt).year <= 9999
    && 0 <= s.window && INT64_MIN <= sentAt - s.window && sentAt + s.window <= INT64_MAX
  }

  lemma AcceptedMeansPasses(s: Server, c: Cache, r: Request)
    requires !r.headers.IsAbsent() && Verdict(s, c, r).Success?
    ensures PassesAllButReplay(s, r)
  {
  }

  lemma SentAtIsReadBack(s: Server, d: Draft, sentAt: int, target: Option<string>, now: int64, minTier: Tier)
    requires 0 <= FieldsAt(sentAt).year <= 9999
    ensures SentAt(Received(s.crypto, d, sentAt, target, now, minTier)) == sentAt
  {
    PrintThenParse(sentAt);
  }

  lemma ConformantRequestIsAcceptable(s: Server, d: Draft, sentAt: int, target: Option<string>, now: int64, minTier: Tier)
    requires Serves(s, d, sentAt, target, minTier) && sentAt - s.window <= now <= sentAt + s.window
    ensures IsAcceptable(s, Received(s.crypto, d, sentAt, target, now, minTier))
  {
    ConformantRequestIsAccepted(s, EMPTY, d, sentAt, target, now, minTier);
    AcceptedMeansPasses(s, EMPTY, Received(s.crypto, d, sentAt, target, now, minTier));
    SentAtIsReadBack(s, d, sentAt, target, now, minTier);
  }

  /** A conformant request can be accepted again, in some run whose clock does not go back,
      unless the cache window is more than twice the freshness window. */
  lemma ConformantRequestIsAcceptedAtMostOnceIff(s: Server, d: Draft, sentAt: int64, target: Option<string>, minTier: Tier)
    requires Serves(s, d, sentAt, target, minTier)
    ensures var r := Received(s.crypto, d, sentAt, target, sentAt, minTier);
            Gap(s.cacheWindow) > 2 * s.window
            <==> forall run :: ClocksForward(run) ==> TimesVerified(s, run, r.CacheKey(), r.headers.timestamp.value) <= 1
  {
    ConformantRequestIsAcceptable(s, d, sentAt, target, sentAt, minTier);
    AtMostOnceIffCacheOutlivesFreshness(s, Received(s.crypto, d, sentAt, target, sentAt, minTier));
  }

  /** With the default windows every conformant request can be accepted three times. */
  lemma ConformantRequestIsAcceptedThreeTimes(s: Server, d: Draft, sentAt: int64, target: Option<string>, minTier: Tier)
    returns (run: seq<Request>)
    requires Serves(s, d, sentAt, target, minTier) && s.window == 300 && s.cacheWindow == 300
    ensures var r := Received(s.crypto, d, sentAt, target, sentAt, minTier);
            ClocksForward(run) && TimesVerified(s, run, r.CacheKey(), r.headers.timestamp.value) == 3
  {
    ConformantRequestIsAcceptable(s, d, sentAt, target, sentAt, minTier);
    run := DefaultWindowsAcceptThreeTimes(s, Received(s.crypto, d, sentAt, target, sentAt, minTier));
  }
}

/** What `verify_request` guarantees over whole runs of requests against one replay cache:
    which requests can be erased without a trace, and how often one request can be accepted. */
module RunLaws {
  import opened Wrappers
  import opened Machine
  import opened Timestamps
  import opened Tier1
  import opened ReplayCache
  import opened Protocol
  import opened VerifyLaws
  import opened Runs
  import CacheEvents

  /** `verify_request` as a state machine on the replay cache. */
  ghost function Next(s: Server): (Cache, Request) -> Cache {
    (c, r) => NextCache(s, c, r)
  }

  ghost function Answer(s: Server): (Cache, Request) -> VerifyResult {
    (c, r) => Verdict(s, c, r)
  }

  /** The cache after a run that starts with an empty cache. */
  ghost function CacheAfter(s: Server, run: seq<Request>): Cache { StateAfter(Next(s), EMPTY, run) }

  /** The verdicts of the run, in order. */
  ghost function Verdicts(s: Server, run: seq<Request>): seq<VerifyResult> {
    Outputs(Next(s), Answer(s), EMPTY, run)
  }

  ghost predicate ClocksForward(run: seq<Request>) {
    forall i, j :: 0 <= i < j < |run| ==> run[i].now <= run[j].now
  }

  // ---- Erasure ------------------------------------------------------------------------------------

  /** Deleting any Tier-0 requests and any requests that fail at or before the signature check
      leaves every other verdict, and the final cache, as they were. */
  lemma ErasureLeavesNoTrace(s: Server, run: seq<Request>, keep: seq<bool>)
    requires |keep| == |run|
    requires forall i :: 0 <= i < |run| && !keep[i] ==> run[i].headers.IsAbsent() || !IsAuthentic(s, run[i])
    ensures CacheAfter(s, Kept(run, keep)) == CacheAfter(s, run)
    ensures Verdicts(s, Kept(run, keep)) == Kept(Verdicts(s, run), keep)
  {
    forall i, c | 0 <= i < |run| && !keep[i]
      ensures Next(s)(c, run[i]) == c
    {
      EarlyErrorIsExact(s, run[i]);
    }
    DeletingIdleInputs(Next(s), Answer(s), EMPTY, run, keep);
  }

  // ---- The calls a run makes ------------------------------------------------------------------------

  ghost function EventOf(s: Server, r: Request): CacheEvents.Event {
    if ReachesCache(s, r) then Some(Call(r.CacheKey(), r.now)) else None
  }

  ghost function EventsOf(s: Server, run: seq<Request>): (events: seq<CacheEvents.Event>)
    ensures |events| == |run|
    ensures forall i :: 0 <= i < |run| ==> events[i] == EventOf(s, run[i])
  {
    seq(|run|, i requires 0 <= i < |run| => EventOf(s, run[i]))
  }

  lemma {:induction false} CacheAfterIsAfterEvents(s: Server, run: seq<Request>)
    ensures CacheAfter(s, run) == CacheEvents.AfterEvents(s.cacheWindow, EventsOf(s, run))
  {
    if run == [] {
    } else {
      var n := |run| - 1;
      CacheAfterIsAfterEvents(s, run[..n]);
      assert EventsOf(s, run)[..n] == EventsOf(s, run[..n]);
      assert Next(s)(CacheAfter(s, run[..n]), run[n])
          == CacheEvents.EventStep(s.cacheWindow, CacheAfter(s, run[..n]), EventOf(s, run[n]));
    }
  }

  /** Did the replay cache admit request `i` of the run? */
  ghost predicate Admitted(s: Server, run: seq<Request>, i: nat)
    requires i < |run|
  {
    ReachesCache(s, run[i]) && IsFresh(CacheAfter(s, run[..i]), Call(run[i].CacheKey(), run[i].now))
  }

  lemma AdmittedIsAdmission(s: Server, run: seq<Request>, i: nat)
    requires i < |run|
    ensures Admitted(s, run, i) <==> CacheEvents.IsAdmission(s.cacheWindow, EventsOf(s, run), i)
  {
    CacheAfterIsAfterEvents(s, run[..i]);
    assert EventsOf(s, run)[..i] == EventsOf(s, run[..i]);
    assert EventsOf(s, run)[i] == EventOf(s, run[i]);
  }

  // ---- Independence of pairs ------------------------------------------------------------------------

  lemma {:induction false} EventsOfKept(s: Server, run: seq<Request>, keep: seq<bool>)
    requires |keep| == |run|
    ensures EventsOf(s, Kept(run, keep)) == Kept(EventsOf(s, run), keep)
  {
    if run == [] {
    } else {
      var n := |run| - 1;
      EventsOfKept(s, run[..n], keep[..n]);
      assert EventsOf(s, run)[..n] == EventsOf(s, run[..n]);
      if keep[n] {
        assert EventsOf(s, Kept(run[..n], keep[..n]) + [run[n]]) == EventsOf(s, Kept(run[..n], keep[..n])) + [EventOf(s, run[n])];
      } else {
        assert Kept(run, keep) == Kept(run[..n], keep[..n]);
        assert Kept(EventsOf(s, run), keep) == Kept(EventsOf(s, run[..n]), keep[..n]);
      }
    }
  }

  /** For clocks that do not go back, the verdict on a request does not depend on requests that
      carry another key-id or nonce: deleting any of them leaves it unchanged. */
  lemma OtherPairsDoNotInterfere(s: Server, run: seq<Request>, keep: seq<bool>, r: Request)
    requires ClocksForward(run + [r]) && |keep| == |run|
    requires r.headers.HasTier1()
    requires forall i :: 0 <= i < |run| && !keep[i] && run[i].headers.HasTier1() ==> run[i].CacheKey() != r.CacheKey()
    ensures Verdict(s, CacheAfter(s, run), r) == Verdict(s, CacheAfter(s, Kept(run, keep)), r)
  {
    var events, call := EventsOf(s, run), Call(r.CacheKey(), r.now);
    assert forall i :: 0 <= i < |run| ==> (run + [r])[i] == run[i];
    assert (run + [r])[|run|] == r;
    CacheEvents.PairsAgreeAfterDeletion(s.cacheWindow, events, keep, call.pair, r.now);
    CacheAfterIsAfterEvents(s, run);
    CacheAfterIsAfterEvents(s, Kept(run, keep));
    EventsOfKept(s, run, keep);
    CacheEvents.FreshAtIsFresh(CacheAfter(s, run), call);
    CacheEvents.FreshAtIsFresh(CacheAfter(s, Kept(run, keep)), call);
  }

  // ---- Spacing --------------------------------------------------------------------------------------

  /** Between two admissions of one pair some request, up to and including the second, reached
      the cache with a clock at least the gap past the first: for any clocks at all. */
  lemma AdmissionsAreSpaced(s: Server, run: seq<Request>, i: nat, j: nat)
    requires i < j < |run| && Admitted(s, run, i) && Admitted(s, run, j)
    requires run[i].CacheKey() == run[j].CacheKey()
    ensures exists k :: i < k <= j && ReachesCache(s, run[k]) && run[k].now >= run[i].now + Gap(s.cacheWindow)
  {
    AdmittedIsAdmission(s, run, i);
    AdmittedIsAdmission(s, run, j);
    CacheEvents.AdmissionsAreSpaced(s.cacheWindow, EventsOf(s, run), i, j);
    var k :| i < k <= j && EventsOf(s, run)[k].Some?
             && EventsOf(s, run)[k].value.now >= EventsOf(s, run)[i].value.now + Gap(s.cacheWindow);
    assert ReachesCache(s, run[k]) && run[k].now >= run[i].now + Gap(s.cacheWindow);
  }

  lemma AdmissionsAreApart(s: Server, run: seq<Request>, i: nat, j: nat)
    requires ClocksForward(run) && i < j < |run| && Admitted(s, run, i) && Admitted(s, run, j)
    requires run[i].CacheKey() == run[j].CacheKey()
    ensures run[j].now >= run[i].now + Gap(s.cacheWindow)
  {
    AdmittedIsAdmission(s, run, i);
    AdmittedIsAdmission(s, run, j);
    CacheEvents.AdmissionsAreApart(s.cacheWindow, EventsOf(s, run), i, j);
  }

  // ---- How often one request can be accepted ----------------------------------------------------------

  /** Was request `i` of the run accepted on the strength of its signature? */
  ghost predicate Verified(s: Server, run: seq<Request>, i: nat)
    requires i < |run|
  {
    !run[i].headers.IsAbsent() && Verdicts(s, run)[i].Success?
  }

  lemma VerifiedMeansVerdict(s: Server, run: seq<Request>, i: nat)
    requires i < |run|
    ensures Verdicts(s, run)[i] == Verdict(s, CacheAfter(s, run[..i]), run[i])
  {
    OutputAt(Next(s), Answer(s), EMPTY, run, i);
  }

  lemma VerifiedIsAdmitted(s: Server, run: seq<Request>, i: nat)
    requires i < |run| && Verified(s, run, i)
    ensures Admitted(s, run, i) && IsFreshTime(run[i].headers.timestamp.value, run[i].now, s.window)
    ensures LateResult(s, run[i]).Success?
  {
    VerifiedMeansVerdict(s, run, i);
  }

  /** Does the request carry this key-id, nonce and timestamp? */
  predicate Carries(r: Request, pair: Pair, timestamp: string) {
    r.headers.HasTier1() && r.CacheKey() == pair && r.headers.timestamp == Some(timestamp)
  }

  /** Where in the run this key-id, nonce and timestamp was accepted. */
  ghost function Acceptances(s: Server, run: seq<Request>, pair: Pair, timestamp: string): (marks: seq<bool>)
    ensures |marks| == |run|
    ensures forall i :: 0 <= i < |run| ==> marks[i] == (Verified(s, run, i) && Carries(run[i], pair, timestamp))
  {
    seq(|run|, i requires 0 <= i < |run| => Verified(s, run, i) && Carries(run[i], pair, timestamp))
  }

  ghost function TimesVerified(s: Server, run: seq<Request>, pair: Pair, timestamp: string): nat {
    CountTrue(Acceptances(s, run, pair, timestamp))
  }

  /** Every acceptance is inside the freshness window of the timestamp. */
  lemma AcceptanceIsTimely(s: Server, run: seq<Request>, pair: Pair, timestamp: string, i: nat)
    requires i < |run| && Acceptances(s, run, pair, timestamp)[i]
    ensures WireTime(timestamp).Some?
    ensures WireTime(timestamp).value - s.window <= run[i].now <= WireTime(timestamp).value + s.window
  {
    VerifiedIsAdmitted(s, run, i);
  }

  /** For clocks that do not go back, what is accepted again with the same key-id, nonce and
      timestamp, whatever else differs, comes a gap later and inside the freshness window. */
  lemma LaterAcceptance(s: Server, run: seq<Request>, pair: Pair, timestamp: string, i: nat, j: nat)
    requires ClocksForward(run) && i < j < |run|
    requires Acceptances(s, run, pair, timestamp)[i] && Acceptances(s, run, pair, timestamp)[j]
    ensures WireTime(timestamp).Some?
    ensures run[i].now + Gap(s.cacheWindow) <= run[j].now <= WireTime(timestamp).value + s.window
  {
    AcceptanceIsTimely(s, run, pair, timestamp, j);
    VerifiedIsAdmitted(s, run, i);
    VerifiedIsAdmitted(s, run, j);
    AdmissionsAreApart(s, run, i, j);
  }

  /** The most often that one key-id, nonce and timestamp can be accepted: floor(2W / C) + 1
      times, with W the freshness window and C the cache window, or 1 if that is less than 1. */
  function MaxAcceptances(window: int, cacheWindow: int): int {
    if window < 0 then 0 else 2 * window / Gap(cacheWindow) + 1
  }

  lemma NeverNegative(window: int, cacheWindow: int)
    ensures MaxAcceptances(window, cacheWindow) >= 0
  {
    if window >= 0 {
      QuotientBound(Gap(cacheWindow), 0, 2 * window);
    }
  }

  lemma AcceptancesAreBounded(s: Server, run: seq<Request>, pair: Pair, timestamp: string)
    requires ClocksForward(run)
    ensures TimesVerified(s, run, pair, timestamp) <= MaxAcceptances(s.window, s.cacheWindow)
  {
    var marks := Acceptances(s, run, pair, timestamp);
    var times := seq(|run|, i requires 0 <= i < |run| => run[i].now as int);
    if CountTrue(marks) >= 1 {
      var i := SomeTrue(marks);
      AcceptanceIsTimely(s, run, pair, timestamp, i);
      var sent := WireTime(timestamp).value;
      forall i | 0 <= i < |run| && marks[i]
        ensures sent - s.window <= times[i] <= sent + s.window
      {
        AcceptanceIsTimely(s, run, pair, timestamp, i);
      }
      forall i, j | 0 <= i < j < |run| && marks[i] && marks[j]
        ensures times[j] >= times[i] + Gap(s.cacheWindow)
      {
        LaterAcceptance(s, run, pair, timestamp, i, j);
      }
      SpacedEventsAreFew(times, marks, Gap(s.cacheWindow), sent - s.window, sent + s.window);
    } else {
      NeverNegative(s.window, s.cacheWindow);
    }
  }

  // ---- Machines that accept what the cache has not seen ---------------------------------------------------

  /** A request that passes every check but replay. */
  ghost predicate PassesAllButReplay(s: Server, r: Request) {
    ReachesCache(s, r) && LateResult(s, r).Success?
  }

  function SentAt(r: Request): int {
    if r.headers.timestamp.Some? && WireTime(r.headers.timestamp.value).Some?
    then WireTime(r.headers.timestamp.value).value else 0
  }

  /** A verdict at a clock inside the freshness window is acceptance, unless the cache refuses. */
  lemma AcceptedWhenFresh(s: Server, c: Cache, r: Request, now: int64)
    requires PassesAllButReplay(s, r) && SentAt(r) - s.window <= now <= SentAt(r) + s.window
    requires IsFresh(c, Call(r.CacheKey(), now))
    ensures Verdict(s, c, r.(now := now)).Success?
    ensures NextCache(s, c, r.(now := now)) == Step(s.cacheWindow, c, Call(r.CacheKey(), now))
  {
    ClockOnlyDecidesFreshness(s, r, now);
  }

  /** A machine that accepts the request at any clock from `start` to `finish` at which the
      cache has not seen its pair, and then remembers it. */
  ghost predicate AcceptsWhenUnseen(next: (Cache, Request) -> Cache, answer: (Cache, Request) -> VerifyResult,
                                    r: Request, pair: Pair, window: int64, start: int, finish: int)
  {
    forall c: Cache, now: int64 :: start <= now <= finish && IsFresh(c, Call(pair, now)) ==>
      answer(c, r.(now := now)).Success? && next(c, r.(now := now)) == Step(window, c, Call(pair, now))
  }

  lemma AcceptedWhenUnseen(s: Server, r: Request)
    requires PassesAllButReplay(s, r)
    ensures AcceptsWhenUnseen(Next(s), Answer(s), r, r.CacheKey(), s.cacheWindow,
                              SentAt(r) - s.window, SentAt(r) + s.window)
  {
    forall c: Cache, now: int64 | SentAt(r) - s.window <= now <= SentAt(r) + s.window && IsFresh(c, Call(r.CacheKey(), now))
      ensures Answer(s)(c, r.(now := now)).Success?
      ensures Next(s)(c, r.(now := now)) == Step(s.cacheWindow, c, Call(r.CacheKey(), now))
    {
      AcceptedWhenFresh(s, c, r, now);
    }
  }

  // ---- The bound is reached -----------------------------------------------------------------------------

  /** A request that passes every check but freshness and replay, on a server whose freshness
      window around its timestamp lies within the clock's range. */
  ghost predicate IsAcceptable(s: Server, r: Request) {
    && PassesAllButReplay(s, r)
    && 0 <= s.window && INT64_MIN <= SentAt(r) - s.window && SentAt(r) + s.window <= INT64_MAX
  }

  /** Moments `gap` apart, from `start` on. */
  predicate AreMoments(run: seq<Request>, r: Request, start: int, gap: int) {
    forall k :: 0 <= k < |run| ==> run[k] == r.(now := run[k].now) && run[k].now == start + gap * k
  }

  /** The cache that holds one entry, made at clock `now`. */
  function OneEntry(window: int64, pair: Pair, now: int64): Cache { Cache(map[pair := now + window], now) }

  lemma FirstEntry(window: int64, pair: Pair, now: int64)
    ensures IsFresh(EMPTY, Call(pair, now))
    ensures Step(window, EMPTY, Call(pair, now)) == OneEntry(window, pair, now)
  {
  }

  lemma EntryReplaced(window: int64, pair: Pair, now: int64, later: int64, latest: Pair)
    requires now + Gap(window) <= later
    ensures IsFresh(OneEntry(window, pair, now), Call(latest, later))
    ensures Step(window, OneEntry(window, pair, now), Call(latest, later)) == OneEntry(window, latest, later)
  {
  }

  lemma MomentsExtend(front: seq<Request>, r: Request, start: int, gap: int, now: int64)
    requires AreMoments(front, r, start, gap) && now == start + gap * |front|
    ensures AreMoments(front + [r.(now := now)], r, start, gap)
  {
  }

  /** One more sending, when the cache does not hold the pair or holds it alone and due. */
  lemma SendingIsAccepted(next: (Cache, Request) -> Cache, answer: (Cache, Request) -> VerifyResult, r: Request,
                          pair: Pair, window: int64, start: int, finish: int, front: seq<Request>, now: int64)
    requires AcceptsWhenUnseen(next, answer, r, pair, window, start, finish) && start <= now <= finish
    requires IsFresh(StateAfter(next, EMPTY, front), Call(pair, now))
    requires Step(window, StateAfter(next, EMPTY, front), Call(pair, now)) == OneEntry(window, pair, now)
    requires forall i :: 0 <= i < |front| ==> Outputs(next, answer, EMPTY, front)[i].Success?
    ensures var run := front + [r.(now := now)];
            && StateAfter(next, EMPTY, run) == OneEntry(window, pair, now)
            && forall i :: 0 <= i < |run| ==> Outputs(next, answer, EMPTY, run)[i].Success?
  {
    StateAfterAppend(next, EMPTY, front, r.(now := now));
    OutputsAppend(next, answer, EMPTY, front, r.(now := now));
  }

  /** Sending the request to such a machine every gap, as long as it accepts, is accepted
      every time. */
  lemma {:induction false} ResendingIsAccepted(next: (Cache, Request) -> Cache, answer: (Cache, Request) -> VerifyResult,
                                               r: Request, pair: Pair, window: int64, start: int64, finish: int64, n: nat)
    returns (run: seq<Request>)
    requires AcceptsWhenUnseen(next, answer, r, pair, window, start, finish)
    requires start + Gap(window) * (n - 1) <= finish
    ensures |run| == n && AreMoments(run, r, start, Gap(window))
    ensures forall i :: 0 <= i < n ==> Outputs(next, answer, EMPTY, run)[i].Success?
    ensures n >= 1 ==> StateAfter(next, EMPTY, run) == OneEntry(window, pair, run[n - 1].now)
  {
    if n == 0 {
      run := [];
    } else {
      var gap := Gap(window);
      OneMore(gap, n - 1);
      MulGrows(gap, 0, n - 1);
      var front := ResendingIsAccepted(next, answer, r, pair, window, start, finish, n - 1);
      var now: int64 := start + gap * (n - 1);
      if n == 1 {
        FirstEntry(window, pair, now);
      } else {
        assert front[n - 2].now == start + gap * (n - 2);
        EntryReplaced(window, pair, front[n - 2].now, now, pair);
      }
      SendingIsAccepted(next, answer, r, pair, window, start, finish, front, now);
      MomentsExtend(front, r, start, gap, now);
      run := front + [r.(now := now)];
    }
  }

  lemma MomentsGoForward(run: seq<Request>, r: Request, start: int, gap: int)
    requires AreMoments(run, r, start, gap) && gap >= 1
    ensures ClocksForward(run)
  {
  }

  lemma AllVerifiedCount(s: Server, run: seq<Request>, pair: Pair, timestamp: string)
    requires forall i :: 0 <= i < |run| ==> Verdicts(s, run)[i].Success? && Carries(run[i], pair, timestamp)
    ensures TimesVerified(s, run, pair, timestamp) == |run|
  {
    AllTrueCount(Acceptances(s, run, pair, timestamp));
  }

  /** Sending it from the start of a freshness window to its end. */
  lemma ResendingAcrossWindow(next: (Cache, Request) -> Cache, answer: (Cache, Request) -> VerifyResult, r: Request,
                              pair: Pair, cacheWindow: int64, window: int64, sentAt: int)
    returns (run: seq<Request>)
    requires AcceptsWhenUnseen(next, answer, r, pair, cacheWindow, sentAt - window, sentAt + window)
    requires 0 <= window && INT64_MIN <= sentAt - window && sentAt + window <= INT64_MAX
    ensures |run| == MaxAcceptances(window, cacheWindow) && ClocksForward(run)
    ensures forall i :: 0 <= i < |run| ==> run[i] == r.(now := run[i].now) && Outputs(next, answer, EMPTY, run)[i].Success?
  {
    var gap := Gap(cacheWindow);
    var n := 2 * window / gap;
    QuotientBound(gap, 0, 2 * window);
    QuotientTimesDivisor(2 * window, gap);
    run := ResendingIsAccepted(next, answer, r, pair, cacheWindow, sentAt - window, sentAt + window, n + 1);
    MomentsGoForward(run, r, sentAt - window, gap);
  }

  /** The bound is exact: every acceptable request has a run, with a clock that does not go
      back, in which it is accepted that many times. */
  lemma BoundIsReached(s: Server, r: Request) returns (run: seq<Request>)
    requires IsAcceptable(s, r)
    ensures ClocksForward(run)
    ensures TimesVerified(s, run, r.CacheKey(), r.headers.timestamp.value) == MaxAcceptances(s.window, s.cacheWindow)
  {
    AcceptedWhenUnseen(s, r);
    run := ResendingAcrossWindow(Next(s), Answer(s), r, r.CacheKey(), s.cacheWindow, s.window, SentAt(r));
    AllVerifiedCount(s, run, r.CacheKey(), r.headers.timestamp.value);
  }

  /** The protocol's documentation says that freshness and replay checks together leave no gap.
      The code meets this, accepting a request at most once in any run whose clock does not go
      back, exactly when the cache window is more than twice the freshness window. */
  lemma AtMostOnceIffCacheOutlivesFreshness(s: Server, r: Request)
    requires IsAcceptable(s, r)
    ensures Gap(s.cacheWindow) > 2 * s.window
            <==> forall run :: ClocksForward(run) ==> TimesVerified(s, run, r.CacheKey(), r.headers.timestamp.value) <= 1
  {
    var pair, timestamp := r.CacheKey(), r.headers.timestamp.value;
    if Gap(s.cacheWindow) > 2 * s.window {
      forall run | ClocksForward(run)
        ensures TimesVerified(s, run, pair, timestamp) <= 1
      {
        AcceptancesAreBounded(s, run, pair, timestamp);
        SmallQuotient(2 * s.window, Gap(s.cacheWindow));
      }
    } else {
      var run := BoundIsReached(s, r);
      QuotientBound(Gap(s.cacheWindow), 1, 2 * s.window);
      assert TimesVerified(s, run, pair, timestamp) > 1;
    }
  }

  /** With the default windows, both 300 seconds, one request can be accepted three times. */
  lemma DefaultWindowsAcceptThreeTimes(s: Server, r: Request) returns (run: seq<Request>)
    requires IsAcceptable(s, r) && s.window == 300 && s.cacheWindow == 300
    ensures ClocksForward(run)
    ensures TimesVerified(s, run, r.CacheKey(), r.headers.timestamp.value) == 3
  {
    run := BoundIsReached(s, r);
  }

  // ---- When an accepted request can be accepted again -----------------------------------------------------

  lemma EventKeepsClock(s: Server, r: Request)
    ensures EventOf(s, r).Some? ==> EventOf(s, r).value.now == r.now
  {
  }

  lemma ClocksBound(s: Server, run: seq<Request>)
    requires ClocksForward(run) && run != []
    ensures forall i :: 0 <= i < |run| && EventsOf(s, run)[i].Some? ==> EventsOf(s, run)[i].value.now <= run[|run| - 1].now
  {
    var events := EventsOf(s, run);
    forall i | 0 <= i < |run| && events[i].Some?
      ensures events[i].value.now <= run[|run| - 1].now
    {
      EventKeepsClock(s, run[i]);
      assert events[i] == EventOf(s, run[i]);
      assert i == |run| - 1 || run[i].now <= run[|run| - 1].now;
    }
  }

  lemma AllDue(window: int64, c: Cache, latest: int, now: int64)
    requires c.lastPrune <= latest && (forall p :: p in c.seen ==> c.seen[p] <= latest + window)
    requires latest + Gap(window) <= now
    ensures Pruned(c, now).seen == map[]
  {
  }

  /** A gap after the last request of a run, every entry is due. */
  lemma EverythingDueBy(s: Server, run: seq<Request>, now: int64)
    requires ClocksForward(run) && run != [] && run[|run| - 1].now + Gap(s.cacheWindow) <= now
    ensures Pruned(CacheAfter(s, run), now).seen == map[]
  {
    CacheAfterIsAfterEvents(s, run);
    ClocksBound(s, run);
    CacheEvents.EntriesExpire(s.cacheWindow, EventsOf(s, run), run[|run| - 1].now);
    AllDue(s.cacheWindow, CacheAfter(s, run), run[|run| - 1].now, now);
  }

  lemma AcceptsThis(next: (Cache, Request) -> Cache, answer: (Cache, Request) -> VerifyResult,
                    r: Request, pair: Pair, window: int64, start: int, finish: int, c: Cache, now: int64)
    requires AcceptsWhenUnseen(next, answer, r, pair, window, start, finish)
    requires start <= now <= finish && Pruned(c, now).seen == map[]
    ensures answer(c, r.(now := now)).Success?
  {
  }

  lemma LastIsAccepted(s: Server, run: seq<Request>, r: Request, pair: Pair, timestamp: string)
    requires Carries(r, pair, timestamp) && Answer(s)(CacheAfter(s, run), r).Success?
    ensures Acceptances(s, run + [r], pair, timestamp)[|run|]
  {
    OutputsAppend(Next(s), Answer(s), EMPTY, run, r);
    assert Verified(s, run + [r], |run|);
  }

  lemma ForwardAppend(run: seq<Request>, r: Request)
    requires ClocksForward(run) && run != [] && run[|run| - 1].now <= r.now
    ensures ClocksForward(run + [r])
  {
  }

  /** Does this key-id, nonce and timestamp occur among the acceptances of `later`, when that
      follows the run and no clock goes back? */
  ghost predicate AcceptedIn(s: Server, run: seq<Request>, later: seq<Request>, pair: Pair, timestamp: string) {
    && ClocksForward(run + later)
    && exists j :: |run| <= j < |run + later| && Acceptances(s, run + later, pair, timestamp)[j]
  }

  lemma AcceptedAfterGap(s: Server, run: seq<Request>, r: Request, start: int, finish: int, again: int64)
    requires r.headers.HasTier1()
    requires AcceptsWhenUnseen(Next(s), Answer(s), r, r.CacheKey(), s.cacheWindow, start, finish)
    requires ClocksForward(run) && run != [] && run[|run| - 1] == r
    requires again == r.now + Gap(s.cacheWindow) && start <= again <= finish
    ensures AcceptedIn(s, run, [r.(now := again)], r.CacheKey(), r.headers.timestamp.value)
  {
    var resent := r.(now := again);
    EverythingDueBy(s, run, again);
    AcceptsThis(Next(s), Answer(s), r, r.CacheKey(), s.cacheWindow, start, finish, CacheAfter(s, run), again);
    LastIsAccepted(s, run, resent, r.CacheKey(), r.headers.timestamp.value);
    ForwardAppend(run, resent);
  }

  /** Requests that follow do not change what was accepted. */
  lemma PrefixKeepsAcceptance(s: Server, run: seq<Request>, later: seq<Request>, pair: Pair, timestamp: string, i: nat)
    requires i < |run| && Acceptances(s, run, pair, timestamp)[i]
    ensures Acceptances(s, run + later, pair, timestamp)[i]
  {
    assert (run + later)[..i] == run[..i];
    VerifiedMeansVerdict(s, run, i);
    VerifiedMeansVerdict(s, run + later, i);
  }

  lemma AcceptedInIsLate(s: Server, run: seq<Request>, later: seq<Request>, pair: Pair, timestamp: string)
    requires run != [] && Acceptances(s, run, pair, timestamp)[|run| - 1]
    requires AcceptedIn(s, run, later, pair, timestamp)
    ensures WireTime(timestamp).Some?
    ensures var due := run[|run| - 1].now + Gap(s.cacheWindow);
            due <= WireTime(timestamp).value + s.window && due <= INT64_MAX
  {
    var i := |run| - 1;
    var whole := run + later;
    var j :| |run| <= j < |whole| && Acceptances(s, whole, pair, timestamp)[j];
    PrefixKeepsAcceptance(s, run, later, pair, timestamp, i);
    LaterAcceptance(s, whole, pair, timestamp, i, j);
  }

  /** A key-id, nonce and timestamp accepted last in a run can be accepted again, from any
      request that carries them and in some continuation whose clock does not go back, exactly
      when the freshness window is still open, and the clock still in range, a gap later. */
  lemma ReplayableIffWindowStillOpen(s: Server, run: seq<Request>, pair: Pair, timestamp: string)
    requires ClocksForward(run) && run != [] && Acceptances(s, run, pair, timestamp)[|run| - 1]
    ensures WireTime(timestamp).Some?
    ensures var due := run[|run| - 1].now + Gap(s.cacheWindow);
            due <= WireTime(timestamp).value + s.window && due <= INT64_MAX
            <==> exists later :: AcceptedIn(s, run, later, pair, timestamp)
  {
    var i := |run| - 1;
    var r := run[i];
    var due := r.now + Gap(s.cacheWindow);
    AcceptanceIsTimely(s, run, pair, timestamp, i);
    VerifiedIsAdmitted(s, run, i);
    if due <= WireTime(timestamp).value + s.window && due <= INT64_MAX {
      AcceptedWhenUnseen(s, r);
      AcceptedAfterGap(s, run, r, SentAt(r) - s.window, SentAt(r) + s.window, due);
    }
    forall later | AcceptedIn(s, run, later, pair, timestamp)
      ensures due <= WireTime(timestamp).value + s.window && due <= INT64_MAX
    {
      AcceptedInIsLate(s, run, later, pair, timestamp);
    }
  }

  // ---- Clocks that go back --------------------------------------------------------------------------------

  lemma NarrowerIsAccepted(next: (Cache, Request) -> Cache, answer: (Cache, Request) -> VerifyResult,
                           r: Request, pair: Pair, window: int64, start: int, finish: int, start': int, finish': int)
    requires AcceptsWhenUnseen(next, answer, r, pair, window, start, finish) && start <= start' && finish' <= finish
    ensures AcceptsWhenUnseen(next, answer, r, pair, window, start', finish')
  {
  }

  /** One request at two moments, with another pair between them that sweeps its entry away. */
  lemma AcceptedAroundSweep(next: (Cache, Request) -> Cache, answer: (Cache, Request) -> VerifyResult,
                            r: Request, pair: Pair, q: Request, other: Pair, window: int64)
    requires AcceptsWhenUnseen(next, answer, r, pair, window, r.now, r.now)
    requires forall c :: next(c, q) == Step(window, c, Call(other, q.now))
    requires other != pair && q.now >= r.now + Gap(window)
    ensures var verdicts := Outputs(next, answer, EMPTY, [r, q, r]);
            verdicts[0].Success? && verdicts[2].Success?
  {
    FirstEntry(window, pair, r.now);
    EntryReplaced(window, pair, r.now, q.now, other);
    assert r.(now := r.now) == r;
    assert [r, q] == [r] + [q] && [r] == [] + [r];
    StateAfterAppend(next, EMPTY, [], r);
    StateAfterAppend(next, EMPTY, [r], q);
    assert IsFresh(StateAfter(next, EMPTY, [r, q]), Call(pair, r.now));
    OutputAt(next, answer, EMPTY, [r, q, r], 0);
    OutputAt(next, answer, EMPTY, [r, q, r], 2);
    assert [r, q, r][..0] == [] && [r, q, r][..2] == [r, q];
  }

  lemma TwoOfThree(marks: seq<bool>)
    requires marks == [true, false, true]
    ensures CountTrue(marks) == 2
  {
    assert marks[..2] == [true, false] && [true, false][..1] == [true] && [true][..0] == [];
    assert CountTrue([true]) == 1 && CountTrue([true, false]) == 1;
  }

  lemma AcceptedTwice(s: Server, r: Request, q: Request)
    requires r.headers.HasTier1() && q.headers.HasTier1() && q.CacheKey() != r.CacheKey()
    requires Verdicts(s, [r, q, r])[0].Success? && Verdicts(s, [r, q, r])[2].Success?
    ensures TimesVerified(s, [r, q, r], r.CacheKey(), r.headers.timestamp.value) == 2
  {
    var run := [r, q, r];
    assert run[0] == r && run[1] == q && run[2] == r;
    var marks := Acceptances(s, run, r.CacheKey(), r.headers.timestamp.value);
    assert marks[0] && !marks[1] && marks[2];
    TwoOfThree(marks);
  }

  /** A clock that is stepped back opens a replay under any cache window, however large: one
      authentic request with another pair and a clock a gap ahead is enough. */
  lemma SteppedBackClockReopens(s: Server, r: Request, q: Request)
    requires PassesAllButReplay(s, r) && ReachesCache(s, q)
    requires q.CacheKey() != r.CacheKey() && q.now >= r.now + Gap(s.cacheWindow)
    ensures TimesVerified(s, [r, q, r], r.CacheKey(), r.headers.timestamp.value) == 2
  {
    AcceptedWhenUnseen(s, r);
    AcceptedAroundSweep(Next(s), Answer(s), r, r.CacheKey(), q, q.CacheKey(), s.cacheWindow) by {
      NarrowerIsAccepted(Next(s), Answer(s), r, r.CacheKey(), s.cacheWindow,
                         SentAt(r) - s.window, SentAt(r) + s.window, r.now, r.now);
    }
    AcceptedTwice(s, r, q);
  }
}

/** What the replay cache guarantees over whole runs: agreement with an unbounded history and
    with a cache that sweeps on every call, and the amortised cost of sweeping. Every run is a
    sequence of calls in the order in which the mutex admits them. */
module ReplayLaws {
  import opened Machine
  import opened ReplayCache

  /** The cache after a run that starts empty. */
  function After(window: int64, calls: seq<Call>): Cache {
    if calls == [] then EMPTY
    else Step(window, After(window, calls[..|calls| - 1]), calls[|calls| - 1])
  }

  /** Was call `i` of the run accepted? */
  predicate Accepted(window: int64, calls: seq<Call>, i: nat)
    requires i < |calls|
  {
    IsFresh(After(window, calls[..i]), calls[i])
  }

  predicate Nondecreasing(calls: seq<Call>) {
    forall i, j :: 0 <= i < j < |calls| ==> calls[i].now <= calls[j].now
  }

  // ---- Any clocks --------------------------------------------------------------------------

  function MaxClock(calls: seq<Call>): int {
    if calls == [] then INT64_MIN
    else
      var before := MaxClock(calls[..|calls| - 1]);
      var now := calls[|calls| - 1].now;
      if now > before then now else before
  }

  /** The running maximum really is an upper bound, and is one of the clocks. */
  lemma {:induction false} MaxClockIsMaximum(calls: seq<Call>)
    ensures forall i :: 0 <= i < |calls| ==> calls[i].now <= MaxClock(calls)
    ensures calls != [] ==> exists i :: 0 <= i < |calls| && calls[i].now == MaxClock(calls)
  {
    if calls == [] {
    } else {
      var front, last := calls[..|calls| - 1], calls[|calls| - 1];
      MaxClockIsMaximum(front);
      assert forall i :: 0 <= i < |front| ==> front[i] == calls[i];
    }
  }

  /** The sweep clock is the running maximum of all clocks, however they jump. */
  lemma {:induction false} LastPruneIsMaxClock(window: int64, calls: seq<Call>)
    ensures After(window, calls).lastPrune == MaxClock(calls)
    ensures forall i :: 0 <= i < |calls| ==> calls[i].now <= After(window, calls).lastPrune
    ensures calls != [] ==> exists i :: 0 <= i < |calls| && calls[i].now == After(window, calls).lastPrune
  {
    MaxClockIsMaximum(calls);
    if calls == [] {
    } else {
      LastPruneIsMaxClock(window, calls[..|calls| - 1]);
    }
  }

  // ---- The amortised cost of sweeping --------------------------------------------------------

  function Weight(expiry: int, lastPrune: int): nat {
    if expiry - lastPrune > 1 then expiry - lastPrune else 1
  }

  /** The sweeps that the entries of a cache can still be charged for. */
  ghost function Potential(seen: map<Pair, int>, lastPrune: int): nat
    decreases |seen|
  {
    if seen == map[] then 0
    else
      var p :| p in seen;
      Weight(seen[p], lastPrune) + Potential(seen - {p}, lastPrune)
  }

  ghost function Charge(c: Cache): nat { Potential(c.seen, c.lastPrune) }

  lemma {:induction false} PotentialOfOne(seen: map<Pair, int>, lastPrune: int, q: Pair)
    requires q in seen
    ensures Potential(seen, lastPrune) == Weight(seen[q], lastPrune) + Potential(seen - {q}, lastPrune)
    decreases |seen|
  {
    var p :| p in seen && Potential(seen, lastPrune) == Weight(seen[p], lastPrune) + Potential(seen - {p}, lastPrune);
    if p == q {
    } else {
      PotentialOfOne(seen - {p}, lastPrune, q);
      PotentialOfOne(seen - {q}, lastPrune, p);
      assert seen - {p} - {q} == seen - {q} - {p};
    }
  }

  lemma PotentialOfInsert(seen: map<Pair, int>, lastPrune: int, q: Pair, expiry: int)
    requires q !in seen
    ensures Potential(seen[q := expiry], lastPrune) == Weight(expiry, lastPrune) + Potential(seen, lastPrune)
  {
    PotentialOfOne(seen[q := expiry], lastPrune, q);
    assert seen[q := expiry] - {q} == seen;
  }

  /** A sweep lowers the weight of every entry it examines by at least one. */
  lemma {:induction false} SweepPays(seen: map<Pair, int>, lastPrune: int, now: int)
    requires now > lastPrune
    ensures |seen| + Potential(Swept(seen, now), now) <= Potential(seen, lastPrune)
    decreases |seen|
  {
    if seen == map[] {
      assert Swept(seen, now) == map[];
    } else {
      var p :| p in seen;
      var rest := seen - {p};
      assert |seen| == |rest| + 1 by {
        assert seen.Keys == rest.Keys + {p};
      }
      SweepPays(rest, lastPrune, now);
      PotentialOfOne(seen, lastPrune, p);
      if now < seen[p] {
        assert Swept(seen, now) == Swept(rest, now)[p := seen[p]];
        PotentialOfInsert(Swept(rest, now), now, p, seen[p]);
      } else {
        assert Swept(seen, now) == Swept(rest, now);
      }
    }
  }

  function TotalExamined(window: int64, calls: seq<Call>): nat {
    if calls == [] then 0
    else
      var front := calls[..|calls| - 1];
      TotalExamined(window, front) + Examined(After(window, front), calls[|calls| - 1].now)
  }

  function TotalAccepted(window: int64, calls: seq<Call>): nat {
    if calls == [] then 0
    else
      var front := calls[..|calls| - 1];
      TotalAccepted(window, front) + if IsFresh(After(window, front), calls[|calls| - 1]) then 1 else 0
  }

  /** One call, with its change of potential, costs at most the gap if it accepts. */
  lemma StepCost(window: int64, c: Cache, call: Call)
    ensures Examined(c, call.now) + Charge(Step(window, c, call)) <= Charge(c) + if IsFresh(c, call) then Gap(window) else 0
  {
    if call.now > c.lastPrune {
      SweepPays(c.seen, c.lastPrune, call.now);
    }
    var p := Pruned(c, call.now);
    if call.pair !in p.seen {
      PotentialOfInsert(p.seen, p.lastPrune, call.pair, call.now + window);
    }
  }

  lemma Accumulates(gap: int, n: int, more: bool)
    ensures gap * (n + if more then 1 else 0) == gap * n + if more then gap else 0
  {
  }

  lemma {:induction false} CostWithPotential(window: int64, calls: seq<Call>)
    ensures TotalExamined(window, calls) + Charge(After(window, calls)) <= Gap(window) * TotalAccepted(window, calls)
  {
    if calls == [] {
    } else {
      var front, call := calls[..|calls| - 1], calls[|calls| - 1];
      var c := After(window, front);
      CostWithPotential(window, front);
      Accumulates(Gap(window), TotalAccepted(window, front), IsFresh(c, call));
      assert After(window, calls) == Step(window, c, call);
      StepCost(window, c, call);
    }
  }

  /** Over any run, for any clocks, sweeping examines at most `Gap(window)` entries per acceptance. */
  lemma SweepingIsAmortised(window: int64, calls: seq<Call>)
    ensures TotalExamined(window, calls) <= Gap(window) * TotalAccepted(window, calls)
  {
    CostWithPotential(window, calls);
  }

  // ---- The unbounded history -----------------------------------------------------------------

  /** The history of accepted calls: a pair is refused while an acceptance of it is recent. */
  ghost predicate RecentlyAccepted(log: seq<Call>, pair: Pair, now: int, window: int) {
    exists i :: 0 <= i < |log| && log[i].pair == pair && log[i].now > now - window
  }

  ghost function Log(window: int64, calls: seq<Call>): seq<Call> {
    if calls == [] then []
    else
      var before, call := Log(window, calls[..|calls| - 1]), calls[|calls| - 1];
      if RecentlyAccepted(before, call.pair, call.now, window) then before else before + [call]
  }

  /** The entries are exactly the acceptances more recent than the window, each with its expiry. */
  ghost predicate HoldsRecent(seen: map<Pair, int>, log: seq<Call>, now: int, window: int) {
    && (forall i :: 0 <= i < |log| && log[i].now > now - window ==>
          log[i].pair in seen && seen[log[i].pair] == log[i].now + window)
    && (forall p :: p in seen ==>
          exists i :: 0 <= i < |log| && log[i].pair == p && log[i].now > now - window)
  }

  lemma SweepHoldsRecent(seen: map<Pair, int>, log: seq<Call>, last: int, now: int, window: int)
    requires HoldsRecent(seen, log, last, window) && last <= now
    ensures HoldsRecent(Swept(seen, now), log, now, window)
  {
  }

  lemma FreshIsNotRecent(window: int64, c: Cache, log: seq<Call>, call: Call)
    requires c.lastPrune <= call.now && HoldsRecent(c.seen, log, c.lastPrune, window)
    ensures IsFresh(c, call) <==> !RecentlyAccepted(log, call.pair, call.now, window)
  {
  }

  lemma InsertHoldsRecent(seen: map<Pair, int>, log: seq<Call>, call: Call, window: int)
    requires window >= 1 && call.pair !in seen && HoldsRecent(seen, log, call.now, window)
    ensures HoldsRecent(seen[call.pair := call.now + window], log + [call], call.now, window)
  {
    var log', seen' := log + [call], seen[call.pair := call.now + window];
    assert log'[|log|] == call;
    forall q | q in seen'
      ensures exists i :: 0 <= i < |log'| && log'[i].pair == q && log'[i].now > call.now - window
    {
      if q != call.pair {
        var i :| 0 <= i < |log| && log[i].pair == q && log[i].now > call.now - window;
        assert log'[i] == log[i];
      }
    }
  }

  lemma StepHoldsRecent(window: int64, c: Cache, log: seq<Call>, call: Call)
    requires window >= 1 && c.lastPrune <= call.now && HoldsRecent(c.seen, log, c.lastPrune, window)
    ensures HoldsRecent(Step(window, c, call).seen, if IsFresh(c, call) then log + [call] else log, call.now, window)
  {
    var seen := Pruned(c, call.now).seen;
    assert HoldsRecent(seen, log, call.now, window) by {
      SweepHoldsRecent(c.seen, log, c.lastPrune, call.now, window);
    }
    if call.pair !in seen {
      assert IsFresh(c, call) && Step(window, c, call).seen == seen[call.pair := call.now + window];
      InsertHoldsRecent(seen, log, call, window);
    } else {
      assert !IsFresh(c, call) && Step(window, c, call).seen == seen;
    }
  }

  /** The two histories, the window of it that the cache holds, and the clock, in step. */
  ghost predicate InStep(window: int64, calls: seq<Call>) {
    var c, log := After(window, calls), Log(window, calls);
    && HoldsRecent(c.seen, log, c.lastPrune, window)
    && (forall i :: 0 <= i < |log| ==> log[i].now <= c.lastPrune)
    && (calls != [] ==> c.lastPrune == calls[|calls| - 1].now)
  }

  lemma PrefixIsNondecreasing(calls: seq<Call>, n: nat)
    requires Nondecreasing(calls) && n <= |calls|
    ensures Nondecreasing(calls[..n])
  {
  }

  lemma InStepAdvances(window: int64, calls: seq<Call>)
    requires window >= 1 && calls != [] && Nondecreasing(calls) && InStep(window, calls[..|calls| - 1])
    ensures InStep(window, calls)
  {
    var front, call := calls[..|calls| - 1], calls[|calls| - 1];
    var c, log := After(window, front), Log(window, front);
    assert c.lastPrune <= call.now by {
      assert front != [] ==> front[|front| - 1] == calls[|front| - 1];
    }
    FreshIsNotRecent(window, c, log, call);
    StepHoldsRecent(window, c, log, call);
    assert After(window, calls) == Step(window, c, call);
    assert Step(window, c, call).lastPrune == call.now;
    assert Log(window, calls) == (if IsFresh(c, call) then log + [call] else log);
  }

  lemma {:induction false} RunsStayInStep(window: int64, calls: seq<Call>)
    requires window >= 1 && Nondecreasing(calls)
    ensures InStep(window, calls)
  {
    if calls == [] {
    } else {
      var n := |calls| - 1;
      PrefixIsNondecreasing(calls, n);
      RunsStayInStep(window, calls[..n]);
      InStepAdvances(window, calls);
    }
  }

  // ---- The size of the cache -----------------------------------------------------------------

  /** The recent acceptances. */
  ghost function Recent(log: seq<Call>, now: int, window: int): set<Call> {
    set e | e in log && e.now > now - window
  }

  /** A pair has at most one recent acceptance. */
  ghost predicate RecentPairsDiffer(log: seq<Call>, now: int, window: int) {
    forall i, j :: 0 <= i < j < |log| && log[i].now > now - window && log[j].now > now - window
                   ==> log[i].pair != log[j].pair
  }

  lemma {:induction false} RecentPairsStayDifferent(window: int64, calls: seq<Call>)
    requires window >= 1 && Nondecreasing(calls)
    ensures RecentPairsDiffer(Log(window, calls), After(window, calls).lastPrune, window)
  {
    if calls == [] {
    } else {
      var front := calls[..|calls| - 1];
      PrefixIsNondecreasing(calls, |front|);
      RecentPairsStayDifferent(window, front);
      RunsStayInStep(window, front);
      RunsStayInStep(window, calls);
      assert front != [] ==> front[|front| - 1] == calls[|front| - 1];
    }
  }

  lemma {:induction false} ImageHasSameSize(calls: set<Call>, pairs: set<Pair>)
    requires forall a, b :: a in calls && b in calls && a != b ==> a.pair != b.pair
    requires pairs == set a | a in calls :: a.pair
    ensures |pairs| == |calls|
    decreases |calls|
  {
    if calls == {} {
    } else {
      var a :| a in calls;
      ImageHasSameSize(calls - {a}, pairs - {a.pair});
    }
  }

  lemma SizeIsRecentCount(seen: map<Pair, int>, log: seq<Call>, now: int, window: int)
    requires HoldsRecent(seen, log, now, window) && RecentPairsDiffer(log, now, window)
    ensures |seen| == |Recent(log, now, window)|
  {
    ImageHasSameSize(Recent(log, now, window), seen.Keys);
    assert |seen| == |seen.Keys|;
  }

  lemma AnswersAsHistory(window: int64, calls: seq<Call>, i: nat)
    requires window >= 1 && Nondecreasing(calls) && i < |calls|
    ensures Accepted(window, calls, i) <==> !RecentlyAccepted(Log(window, calls[..i]), calls[i].pair, calls[i].now, window)
  {
    PrefixIsNondecreasing(calls, i);
    RunsStayInStep(window, calls[..i]);
    assert i > 0 ==> calls[..i][i - 1] == calls[i - 1];
    FreshIsNotRecent(window, After(window, calls[..i]), Log(window, calls[..i]), calls[i]);
  }

  /** For clocks that do not go back, the cache is the window of the unbounded history: it
      holds exactly the acceptances of the last `window` seconds, each under its expiry; there
      are as many entries as acceptances; and it answers every call as the history does. */
  lemma CacheRefinesHistory(window: int64, calls: seq<Call>)
    requires window >= 1 && Nondecreasing(calls)
    ensures var now := MaxClock(calls);
            && HoldsRecent(After(window, calls).seen, Log(window, calls), now, window)
            && |After(window, calls).seen| == |Recent(Log(window, calls), now, window)|
    ensures forall i :: 0 <= i < |calls| ==>
        (Accepted(window, calls, i) <==> !RecentlyAccepted(Log(window, calls[..i]), calls[i].pair, calls[i].now, window))
  {
    LastPruneIsMaxClock(window, calls);
    RunsStayInStep(window, calls);
    RecentPairsStayDifferent(window, calls);
    SizeIsRecentCount(After(window, calls).seen, Log(window, calls), MaxClock(calls), window);
    forall i | 0 <= i < |calls|
      ensures Accepted(window, calls, i) <==> !RecentlyAccepted(Log(window, calls[..i]), calls[i].pair, calls[i].now, window)
    {
      AnswersAsHistory(window, calls, i);
    }
  }

  /** With a window that is not positive the history never refuses, and the cache still refuses
      a pair twice within one second: it answers as the history exactly for positive windows. */
  lemma AnswersAsHistoryIffPositiveWindow(window: int64)
    ensures window >= 1 <==> forall calls: seq<Call>, i: nat :: Nondecreasing(calls) && i < |calls| ==>
        (Accepted(window, calls, i) <==> !RecentlyAccepted(Log(window, calls[..i]), calls[i].pair, calls[i].now, window))
  {
    if window >= 1 {
      forall calls: seq<Call>, i: nat | Nondecreasing(calls) && i < |calls|
        ensures Accepted(window, calls, i) <==> !RecentlyAccepted(Log(window, calls[..i]), calls[i].pair, calls[i].now, window)
      {
        AnswersAsHistory(window, calls, i);
      }
    } else {
      var call := Call(Pair("", ""), 0);
      var calls := [call, call];
      assert calls[..1] == [call] && [call][..0] == [];
      assert After(window, calls[..1]) == Step(window, EMPTY, call);
      assert !Accepted(window, calls, 1);
      assert Log(window, calls[..1]) == [call];
      assert !RecentlyAccepted(Log(window, calls[..1]), calls[1].pair, calls[1].now, window);
    }
  }

  // ---- Windows below one -----------------------------------------------------------------------

  /** Same pairs, same sweep clock, and in both caches every entry goes at the next sweep. */
  ghost predicate Alike(c: Cache, d: Cache) {
    && c.lastPrune == d.lastPrune && c.seen.Keys == d.seen.Keys
    && forall p :: p in c.seen ==> c.seen[p] <= c.lastPrune + 1 && d.seen[p] <= c.lastPrune + 1
  }

  lemma StepKeepsAlike(window: int64, c: Cache, d: Cache, call: Call)
    requires window <= 1 && Alike(c, d)
    ensures IsFresh(c, call) <==> IsFresh(d, call)
    ensures Alike(Step(window, c, call), Step(1, d, call))
  {
    if call.now > c.lastPrune {
      assert Pruned(c, call.now).seen == map[] && Pruned(d, call.now).seen == map[];
    }
  }

  lemma {:induction false} RunsStayAlike(window: int64, calls: seq<Call>)
    requires window <= 1
    ensures Alike(After(window, calls), After(1, calls))
  {
    if calls == [] {
    } else {
      RunsStayAlike(window, calls[..|calls| - 1]);
      StepKeepsAlike(window, After(window, calls[..|calls| - 1]), After(1, calls[..|calls| - 1]), calls[|calls| - 1]);
    }
  }

  /** A cache window below 1, which the constructor takes, acts as 1: for any clocks. */
  lemma AnswersAsGap(window: int64, calls: seq<Call>, i: nat)
    requires i < |calls|
    ensures Accepted(window, calls, i) <==> Accepted(Gap(window), calls, i)
  {
    if window < 1 {
      RunsStayAlike(window, calls[..i]);
      StepKeepsAlike(window, After(window, calls[..i]), After(1, calls[..i]), calls[i]);
    }
  }

  // ---- Sweeping on every call ------------------------------------------------------------------

  /** The cache as it was before: every call sweeps. */
  function EagerPruned(c: Cache, now: int64): Cache { Cache(Swept(c.seen, now), now) }

  function EagerStep(window: int64, c: Cache, call: Call): Cache {
    var p := EagerPruned(c, call.now);
    if call.pair in p.seen then p else Cache(p.seen[call.pair := call.now + window], p.lastPrune)
  }

  function EagerAfter(window: int64, calls: seq<Call>): Cache {
    if calls == [] then EMPTY
    else EagerStep(window, EagerAfter(window, calls[..|calls| - 1]), calls[|calls| - 1])
  }

  predicate EagerAccepted(window: int64, calls: seq<Call>, i: nat)
    requires i < |calls|
  {
    calls[i].pair !in EagerPruned(EagerAfter(window, calls[..i]), calls[i].now).seen
  }

  /** No entry is due at the clock of the last sweep, which never goes back. */
  predicate NothingDue(c: Cache) { forall p :: p in c.seen ==> c.lastPrune < c.seen[p] }

  lemma LazyStepIsEager(window: int64, c: Cache, call: Call)
    requires window >= 1 && NothingDue(c) && c.lastPrune <= call.now
    ensures Pruned(c, call.now) == EagerPruned(c, call.now)
    ensures NothingDue(Step(window, c, call)) && Step(window, c, call).lastPrune == call.now
  {
  }

  lemma {:induction false} LazyRunIsEager(window: int64, calls: seq<Call>)
    requires window >= 1 && Nondecreasing(calls)
    ensures After(window, calls) == EagerAfter(window, calls)
    ensures NothingDue(After(window, calls))
    ensures After(window, calls).lastPrune == if calls == [] then INT64_MIN else calls[|calls| - 1].now
  {
    if calls == [] {
    } else {
      var front := calls[..|calls| - 1];
      PrefixIsNondecreasing(calls, |front|);
      LazyRunIsEager(window, front);
      assert front != [] ==> front[|front| - 1] == calls[|front| - 1];
      LazyStepIsEager(window, After(window, front), calls[|calls| - 1]);
    }
  }

  /** Same answer at every call, same cache at the end. */
  ghost predicate LazyAgreesWithEager(window: int64, calls: seq<Call>) {
    && After(window, calls) == EagerAfter(window, calls)
    && forall i :: 0 <= i < |calls| ==> (Accepted(window, calls, i) <==> EagerAccepted(window, calls, i))
  }

  lemma LazyIsEager(window: int64, calls: seq<Call>)
    requires window >= 1 && Nondecreasing(calls)
    ensures LazyAgreesWithEager(window, calls)
  {
    LazyRunIsEager(window, calls);
    forall i | 0 <= i < |calls|
      ensures Accepted(window, calls, i) <==> EagerAccepted(window, calls, i)
    {
      PrefixIsNondecreasing(calls, i);
      LazyRunIsEager(window, calls[..i]);
      assert calls[..i] != [] ==> calls[..i][i - 1] == calls[i - 1];
      LazyStepIsEager(window, After(window, calls[..i]), calls[i]);
    }
  }

  /** With a window that is not positive the two differ: at one clock the lazy cache refuses
      the second of two calls that the eager one accepts. */
  lemma LazyDiffersForNoWindow(window: int64, pair: Pair, now: int64)
    requires window <= 0
    ensures var calls := [Call(pair, now), Call(pair, now)];
            Nondecreasing(calls) && !LazyAgreesWithEager(window, calls)
  {
    var calls := [Call(pair, now), Call(pair, now)];
    assert calls[..1] == [calls[0]] && [calls[0]][..0] == [];
    assert After(window, calls[..1]).seen == map[pair := now + window];
    assert EagerAfter(window, calls[..1]).seen == map[pair := now + window];
    assert !Accepted(window, calls, 1) && EagerAccepted(window, calls, 1);
  }

  /** Sweeping once per second is sweeping on every call, on every run whose clock does not go
      back, exactly when the window is positive. */
  lemma LazyIsEagerIffPositiveWindow(window: int64)
    ensures window >= 1 <==> forall calls :: Nondecreasing(calls) ==> LazyAgreesWithEager(window, calls)
  {
    if window >= 1 {
      forall calls | Nondecreasing(calls)
        ensures LazyAgreesWithEager(window, calls)
      {
        LazyIsEager(window, calls);
      }
    } else {
      LazyDiffersForNoWindow(window, Pair("", ""), 0);
    }
  }
}

/** The replay cache under a sequence of requests of which only some call it. An event is the
    call that a request makes, or nothing. */
module CacheEvents {
  import opened Wrappers
  import opened Machine
  import opened ReplayCache
  import opened Runs

  type Event = Option<Call>

  function EventStep(window: int64, c: Cache, e: Event): Cache {
    match e case None => c case Some(call) => Step(window, c, call)
  }

  function AfterEvents(window: int64, events: seq<Event>): Cache {
    if events == [] then EMPTY
    else EventStep(window, AfterEvents(window, events[..|events| - 1]), events[|events| - 1])
  }

  /** Does event `i` call the cache and find its pair fresh? */
  predicate IsAdmission(window: int64, events: seq<Event>, i: nat)
    requires i < |events|
  {
    events[i].Some? && IsFresh(AfterEvents(window, events[..i]), events[i].value)
  }

  predicate EventsForward(events: seq<Event>) {
    forall i, j :: 0 <= i < j < |events| && events[i].Some? && events[j].Some?
                   ==> events[i].value.now <= events[j].value.now
  }

  // ---- When a pair is admitted again --------------------------------------------------------------

  /** Does event `k` make a sweep that removes an entry with this expiry? */
  predicate Evicts(window: int64, events: seq<Event>, k: nat, expiry: int)
    requires k < |events|
  {
    && events[k].Some?
    && events[k].value.now > AfterEvents(window, events[..k]).lastPrune
    && events[k].value.now >= expiry
  }

  /** No event strictly between `i` and `j` admits the pair of event `i`. */
  ghost predicate NoneBetween(window: int64, events: seq<Event>, i: nat, j: nat)
    requires i < j <= |events| && events[i].Some?
  {
    forall k :: i < k < j && events[k].Some? && events[k].value.pair == events[i].value.pair
                ==> !IsAdmission(window, events, k)
  }

  function ExpiryOf(window: int64, events: seq<Event>, i: nat): int
    requires i < |events| && events[i].Some?
  {
    events[i].value.now + window
  }

  lemma EntryStays(window: int64, c: Cache, call: Call, pair: Pair)
    requires pair in c.seen && !(call.now > c.lastPrune && call.now >= c.seen[pair])
    ensures pair in Step(window, c, call).seen && Step(window, c, call).seen[pair] == c.seen[pair]
  {
  }

  lemma EntryGoes(window: int64, c: Cache, call: Call, pair: Pair)
    requires pair in c.seen && call.now > c.lastPrune && call.now >= c.seen[pair]
    requires call.pair == pair ==> !IsFresh(c, call)
    ensures pair !in Step(window, c, call).seen
  {
  }

  lemma AbsenceStays(window: int64, c: Cache, call: Call, pair: Pair)
    requires pair !in c.seen && (call.pair == pair ==> !IsFresh(c, call))
    ensures pair !in Step(window, c, call).seen
  {
  }

  /** Has some event strictly between `i` and `j` removed the entry that event `i` made? */
  ghost predicate EvictedBetween(window: int64, events: seq<Event>, i: nat, j: nat)
    requires i < j <= |events| && events[i].Some?
  {
    exists k :: i < k < j && Evicts(window, events, k, ExpiryOf(window, events, i))
  }

  /** An entry stays, unchanged, until an event evicts it; after that the pair is absent. */
  lemma {:induction false} EntryUntilEvicted(window: int64, events: seq<Event>, i: nat, j: nat)
    requires i < j <= |events| && IsAdmission(window, events, i) && NoneBetween(window, events, i, j)
    ensures var pair, seen := events[i].value.pair, AfterEvents(window, events[..j]).seen;
            if EvictedBetween(window, events, i, j) then pair !in seen
            else pair in seen && seen[pair] == ExpiryOf(window, events, i)
    decreases j
  {
    var pair, expiry := events[i].value.pair, ExpiryOf(window, events, i);
    assert events[..j][..j - 1] == events[..j - 1];
    if i + 1 == j {
      assert !EvictedBetween(window, events, i, j);
    } else {
      EntryUntilEvicted(window, events, i, j - 1);
      var c, e := AfterEvents(window, events[..j - 1]), events[j - 1];
      assert EvictedBetween(window, events, i, j)
        <==> EvictedBetween(window, events, i, j - 1) || Evicts(window, events, j - 1, expiry);
      if e.Some? {
        assert e.value.pair == pair ==> !IsAdmission(window, events, j - 1);
        if pair !in c.seen {
          AbsenceStays(window, c, e.value, pair);
        } else if Evicts(window, events, j - 1, expiry) {
          EntryGoes(window, c, e.value, pair);
        } else {
          EntryStays(window, c, e.value, pair);
        }
      }
    }
  }

  /** For any clocks: a pair is admitted again exactly when, since its last admission and up to
      this call, some call swept at its expiry or later. */
  lemma AdmittedAgainIffEvicted(window: int64, events: seq<Event>, i: nat, j: nat)
    requires i < j < |events| && IsAdmission(window, events, i) && NoneBetween(window, events, i, j)
    requires events[j].Some? && events[j].value.pair == events[i].value.pair
    ensures IsAdmission(window, events, j)
            <==> exists k :: i < k <= j && Evicts(window, events, k, ExpiryOf(window, events, i))
  {
    EntryUntilEvicted(window, events, i, j);
    if EvictedBetween(window, events, i, j) {
      assert IsAdmission(window, events, j);
    } else {
      assert IsAdmission(window, events, j) <==> Evicts(window, events, j, ExpiryOf(window, events, i));
    }
  }

  // ---- Spacing ------------------------------------------------------------------------------------

  /** The sweep clock is never behind a call already made. */
  lemma {:induction false} SweepClockCovers(window: int64, events: seq<Event>, i: nat, k: nat)
    requires i < k <= |events| && events[i].Some?
    ensures events[i].value.now <= AfterEvents(window, events[..k]).lastPrune
    decreases k
  {
    assert events[..k][..k - 1] == events[..k - 1];
    if i + 1 == k {
    } else {
      SweepClockCovers(window, events, i, k - 1);
    }
  }

  /** The first event after `i`, up to `j`, that admits the pair again. */
  lemma NextAdmission(window: int64, events: seq<Event>, i: nat, j: nat) returns (m: nat)
    requires i < j < |events| && IsAdmission(window, events, i) && IsAdmission(window, events, j)
    requires events[i].value.pair == events[j].value.pair
    ensures i < m <= j && IsAdmission(window, events, m) && NoneBetween(window, events, i, m)
    ensures events[m].value.pair == events[i].value.pair
  {
    m := i + 1;
    while !(events[m].Some? && events[m].value.pair == events[i].value.pair && IsAdmission(window, events, m))
      invariant i < m <= j && NoneBetween(window, events, i, m)
      decreases j - m
    {
      m := m + 1;
    }
  }

  /** Between two admissions of one pair, up to and including the second, some call carried a
      clock of at least the first admission plus the gap: for any clocks at all. */
  lemma AdmissionsAreSpaced(window: int64, events: seq<Event>, i: nat, j: nat)
    requires i < j < |events| && IsAdmission(window, events, i) && IsAdmission(window, events, j)
    requires events[i].value.pair == events[j].value.pair
    ensures exists k :: i < k <= j && events[k].Some? && events[k].value.now >= events[i].value.now + Gap(window)
  {
    var m := NextAdmission(window, events, i, j);
    AdmittedAgainIffEvicted(window, events, i, m);
    var k :| i < k <= m && Evicts(window, events, k, ExpiryOf(window, events, i));
    SweepClockCovers(window, events, i, k);
    assert events[k].value.now >= events[i].value.now + Gap(window);
  }

  /** For clocks that do not go back, the second comes a gap after the first. */
  lemma AdmissionsAreApart(window: int64, events: seq<Event>, i: nat, j: nat)
    requires EventsForward(events)
    requires i < j < |events| && IsAdmission(window, events, i) && IsAdmission(window, events, j)
    requires events[i].value.pair == events[j].value.pair
    ensures events[j].value.now >= events[i].value.now + Gap(window)
  {
    AdmissionsAreSpaced(window, events, i, j);
  }

  // ---- Independence of pairs --------------------------------------------------------------------

  /** Would the cache find the pair fresh at clock `now`? */
  predicate FreshAt(c: Cache, pair: Pair, now: int) {
    pair !in c.seen || (now > c.lastPrune && c.seen[pair] <= now)
  }

  /** Two caches answer alike for a pair at every clock from `now` on. */
  ghost predicate AgreeOn(c: Cache, d: Cache, pair: Pair, now: int) {
    forall t :: now <= t ==> (FreshAt(c, pair, t) <==> FreshAt(d, pair, t))
  }

  lemma FreshAtIsFresh(c: Cache, call: Call)
    ensures FreshAt(c, call.pair, call.now) <==> IsFresh(c, call)
  {
  }

  /** A call for another pair, or one that is refused, does not change later answers. */
  lemma AnswersOutlastCall(window: int64, c: Cache, call: Call, pair: Pair, t: int)
    requires c.lastPrune <= call.now <= t && (call.pair != pair || !IsFresh(c, call))
    ensures FreshAt(Step(window, c, call), pair, t) <==> FreshAt(c, pair, t)
  {
  }

  /** After an admission the answer depends on the admission alone. */
  lemma AnswersAfterAdmission(window: int64, c: Cache, call: Call, t: int)
    requires c.lastPrune <= call.now <= t && IsFresh(c, call)
    ensures FreshAt(Step(window, c, call), call.pair, t) <==> t > call.now && call.now + window <= t
  {
  }

  lemma SameCallKeepsAgreement(window: int64, c: Cache, d: Cache, call: Call, pair: Pair)
    requires c.lastPrune <= call.now && d.lastPrune <= call.now && AgreeOn(c, d, pair, call.now)
    ensures AgreeOn(Step(window, c, call), Step(window, d, call), pair, call.now)
  {
    FreshAtIsFresh(c, call);
    FreshAtIsFresh(d, call);
    forall t | call.now <= t
      ensures FreshAt(Step(window, c, call), pair, t) <==> FreshAt(Step(window, d, call), pair, t)
    {
      if call.pair == pair && IsFresh(c, call) {
        AnswersAfterAdmission(window, c, call, t);
        AnswersAfterAdmission(window, d, call, t);
      } else {
        AnswersOutlastCall(window, c, call, pair, t);
        AnswersOutlastCall(window, d, call, pair, t);
      }
    }
  }

  lemma OtherPairKeepsAgreement(window: int64, c: Cache, d: Cache, call: Call, pair: Pair)
    requires c.lastPrune <= call.now && AgreeOn(c, d, pair, call.now) && call.pair != pair
    ensures AgreeOn(Step(window, c, call), d, pair, call.now)
  {
    forall t | call.now <= t
      ensures FreshAt(Step(window, c, call), pair, t) <==> FreshAt(d, pair, t)
    {
      AnswersOutlastCall(window, c, call, pair, t);
    }
  }

  /** One event, kept or deleted, keeps the agreement. */
  lemma EventKeepsAgreement(window: int64, c: Cache, d: Cache, e: Event, kept: bool, pair: Pair, earlier: int, now: int)
    requires AgreeOn(c, d, pair, earlier) && c.lastPrune <= earlier <= now && d.lastPrune <= earlier
    requires e.Some? ==> e.value.now == earlier && (kept || e.value.pair != pair)
    ensures var c', d' := EventStep(window, c, e), if kept then EventStep(window, d, e) else d;
            AgreeOn(c', d', pair, now) && c'.lastPrune <= now && d'.lastPrune <= now
  {
    if e.Some? {
      if kept {
        SameCallKeepsAgreement(window, c, d, e.value, pair);
      } else {
        OtherPairKeepsAgreement(window, c, d, e.value, pair);
      }
    }
  }

  lemma LastOfKept(window: int64, events: seq<Event>, keep: seq<bool>)
    requires |keep| == |events| > 0
    ensures var n := |events| - 1;
            var d := AfterEvents(window, Kept(events[..n], keep[..n]));
            AfterEvents(window, Kept(events, keep)) == if keep[n] then EventStep(window, d, events[n]) else d
  {
    var n := |events| - 1;
    var kept := Kept(events[..n], keep[..n]);
    assert (kept + [events[n]])[..|kept|] == kept;
    assert kept + [] == kept;
  }

  /** For clocks that do not go back, deleting calls for other pairs leaves every later answer
      for this pair as it was. */
  lemma {:induction false} PairsAgreeAfterDeletion(window: int64, events: seq<Event>, keep: seq<bool>, pair: Pair, now: int)
    requires EventsForward(events) && |keep| == |events| && INT64_MIN <= now
    requires forall i :: 0 <= i < |events| && !keep[i] && events[i].Some? ==> events[i].value.pair != pair
    requires forall i :: 0 <= i < |events| && events[i].Some? ==> events[i].value.now <= now
    ensures var c, d := AfterEvents(window, events), AfterEvents(window, Kept(events, keep));
            AgreeOn(c, d, pair, now) && c.lastPrune <= now && d.lastPrune <= now
  {
    if events == [] {
    } else {
      var n := |events| - 1;
      var earlier := if events[n].Some? then events[n].value.now else now;
      PairsAgreeAfterDeletion(window, events[..n], keep[..n], pair, earlier);
      LastOfKept(window, events, keep);
      EventKeepsAgreement(window, AfterEvents(window, events[..n]), AfterEvents(window, Kept(events[..n], keep[..n])),
                          events[n], keep[n], pair, earlier, now);
    }
  }

  // ---- Expiry -------------------------------------------------------------------------------------

  /** No entry outlives the latest call by more than the window. */
  lemma {:induction false} EntriesExpire(window: int64, events: seq<Event>, latest: int)
    requires INT64_MIN <= latest
    requires forall i :: 0 <= i < |events| && events[i].Some? ==> events[i].value.now <= latest
    ensures var c := AfterEvents(window, events);
            c.lastPrune <= latest && forall p :: p in c.seen ==> c.seen[p] <= latest + window
  {
    if events == [] {
    } else {
      EntriesExpire(window, events[..|events| - 1], latest);
    }
  }
}

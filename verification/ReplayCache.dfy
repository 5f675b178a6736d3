/** The in-memory replay cache of `cpp/include/sesame/replay.hpp` and `src/replay.rs`: its
    state, one call on that state, and the class whose method is proved against it. */
module ReplayCache {
  import opened Machine

  datatype Pair = Pair(keyId: string, nonce: string)

  /** One call to `check_and_remember`. */
  datatype Call = Call(pair: Pair, now: int64)

  /** Expiry times by pair, and the clock of the last sweep. */
  datatype Cache = Cache(seen: map<Pair, int>, lastPrune: int)

  const EMPTY: Cache := Cache(map[], INT64_MIN)

  function Swept(seen: map<Pair, int>, now: int): map<Pair, int> {
    map p | p in seen && now < seen[p] :: seen[p]
  }

  /** Sweep only when the clock has moved past the last sweep. */
  function Pruned(c: Cache, now: int64): Cache {
    if now > c.lastPrune then Cache(Swept(c.seen, now), now) else c
  }

  /** The entries a call's sweep examines. */
  function Examined(c: Cache, now: int64): nat {
    if now > c.lastPrune then |c.seen| else 0
  }

  predicate IsFresh(c: Cache, call: Call) { call.pair !in Pruned(c, call.now).seen }

  function Step(window: int64, c: Cache, call: Call): Cache {
    var p := Pruned(c, call.now);
    if call.pair in p.seen then p else Cache(p.seen[call.pair := call.now + window], p.lastPrune)
  }

  /** The cache window in effect: a pair stays refused for that long, and at least until the
      clock has moved on by a second. */
  function Gap(window: int): int { if window >= 1 then window else 1 }

  class InMemoryReplayCache {
    const windowSecs: int64
    var seen: map<Pair, int>
    var lastPruneUnix: int

    ghost function State(): Cache
      reads this
    {
      Cache(seen, lastPruneUnix)
    }

    constructor (window: int64)
      ensures windowSecs == window && State() == EMPTY
    {
      windowSecs := window;
      seen := map[];
      lastPruneUnix := INT64_MIN;
    }

    method CheckAndRemember(keyId: string, nonce: string, now: int64)
      returns (accepted: bool, ghost examined: nat)
      modifies this
      ensures accepted == IsFresh(old(State()), Call(Pair(keyId, nonce), now))
      ensures State() == Step(windowSecs, old(State()), Call(Pair(keyId, nonce), now))
      ensures examined == Examined(old(State()), now)
    {
      examined := 0;
      if now > lastPruneUnix {
        var toVisit := seen.Keys;
        while toVisit != {}
          invariant toVisit <= seen.Keys <= old(seen).Keys
          invariant forall p :: p in old(seen) ==>
              (p in seen <==> p in toVisit || now < old(seen)[p]) && (p in seen ==> seen[p] == old(seen)[p])
          invariant examined + |toVisit| == |old(seen)|
          decreases |toVisit|
        {
          var p :| p in toVisit;
          if seen[p] <= now {
            seen := seen - {p};
          }
          toVisit := toVisit - {p};
          examined := examined + 1;
        }
        assert seen == Swept(old(seen), now);
        lastPruneUnix := now;
      }
      var key := Pair(keyId, nonce);
      if key in seen {
        return false, examined;
      }
      seen := seen[key := now + windowSecs];
      accepted := true;
    }

    method Size() returns (n: nat)
      ensures n == |State().seen|
    {
      n := |seen|;
    }
  }
}

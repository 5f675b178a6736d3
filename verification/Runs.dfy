/** Runs of any state machine that takes inputs one at a time, deletion of inputs by a mask,
    and how many events that are spaced apart fit into an interval. */
module Runs {
  function StateAfter<S, R>(next: (S, R) -> S, init: S, run: seq<R>): S {
    if run == [] then init
    else next(StateAfter(next, init, run[..|run| - 1]), run[|run| - 1])
  }

  function Outputs<S, R, V>(next: (S, R) -> S, out: (S, R) -> V, init: S, run: seq<R>): (vs: seq<V>)
    ensures |vs| == |run|
  {
    if run == [] then []
    else
      var front := run[..|run| - 1];
      Outputs(next, out, init, front) + [out(StateAfter(next, init, front), run[|run| - 1])]
  }

  lemma StateAfterAppend<S, R>(next: (S, R) -> S, init: S, run: seq<R>, r: R)
    ensures StateAfter(next, init, run + [r]) == next(StateAfter(next, init, run), r)
  {
    assert (run + [r])[..|run|] == run;
  }

  lemma OutputsAppend<S, R, V>(next: (S, R) -> S, out: (S, R) -> V, init: S, run: seq<R>, r: R)
    ensures Outputs(next, out, init, run + [r]) == Outputs(next, out, init, run) + [out(StateAfter(next, init, run), r)]
  {
    assert (run + [r])[..|run|] == run;
  }

  /** Output `i` is what the machine says of input `i` in the state that the inputs before it leave. */
  lemma {:induction false} OutputAt<S, R, V>(next: (S, R) -> S, out: (S, R) -> V, init: S, run: seq<R>, i: nat)
    requires i < |run|
    ensures Outputs(next, out, init, run)[i] == out(StateAfter(next, init, run[..i]), run[i])
    decreases |run|
  {
    if i == |run| - 1 {
    } else {
      OutputAt(next, out, init, run[..|run| - 1], i);
      assert run[..|run| - 1][..i] == run[..i];
    }
  }

  /** The elements of a sequence that a mask keeps. */
  function Kept<T>(xs: seq<T>, keep: seq<bool>): seq<T>
    requires |keep| == |xs|
  {
    if xs == [] then []
    else
      var n := |xs| - 1;
      Kept(xs[..n], keep[..n]) + if keep[n] then [xs[n]] else []
  }

  lemma KeptLast<T>(xs: seq<T>, x: T, keep: seq<bool>)
    requires |keep| == |xs| + 1
    ensures Kept(xs + [x], keep) == Kept(xs, keep[..|xs|]) + if keep[|xs|] then [x] else []
  {
    assert (xs + [x])[..|xs|] == xs;
  }

  /** Deleting inputs that no state notices leaves the final state and all other outputs alone. */
  lemma {:induction false} DeletingIdleInputs<S(!new), R, V>(next: (S, R) -> S, out: (S, R) -> V, init: S,
                                                            run: seq<R>, keep: seq<bool>)
    requires |keep| == |run|
    requires forall i, c :: 0 <= i < |run| && !keep[i] ==> next(c, run[i]) == c
    ensures StateAfter(next, init, Kept(run, keep)) == StateAfter(next, init, run)
    ensures Outputs(next, out, init, Kept(run, keep)) == Kept(Outputs(next, out, init, run), keep)
  {
    if run == [] {
    } else {
      var n := |run| - 1;
      var front, r := run[..n], run[n];
      DeletingIdleInputs(next, out, init, front, keep[..n]);
      assert run == front + [r];
      KeptLast(front, r, keep);
      OutputsAppend(next, out, init, front, r);
      KeptLast(Outputs(next, out, init, front), out(StateAfter(next, init, front), r), keep);
      if keep[n] {
        StateAfterAppend(next, init, Kept(front, keep[..n]), r);
        OutputsAppend(next, out, init, Kept(front, keep[..n]), r);
      } else {
        assert Kept(run, keep) == Kept(front, keep[..n]);
        assert Kept(Outputs(next, out, init, run), keep) == Kept(Outputs(next, out, init, front), keep[..n]);
      }
    }
  }

  // ---- Counting spaced events -------------------------------------------------------------------

  function CountTrue(marks: seq<bool>): nat {
    if marks == [] then 0
    else CountTrue(marks[..|marks| - 1]) + if marks[|marks| - 1] then 1 else 0
  }

  lemma {:induction false} AllTrueCount(marks: seq<bool>)
    requires forall i :: 0 <= i < |marks| ==> marks[i]
    ensures CountTrue(marks) == |marks|
  {
    if marks == [] {
    } else {
      AllTrueCount(marks[..|marks| - 1]);
    }
  }

  lemma {:induction false} SomeTrue(marks: seq<bool>) returns (i: nat)
    requires CountTrue(marks) >= 1
    ensures i < |marks| && marks[i]
  {
    var n := |marks| - 1;
    if marks[n] {
      i := n;
    } else {
      i := SomeTrue(marks[..n]);
    }
  }

  ghost predicate Spaced(times: seq<int>, marks: seq<bool>, gap: int)
    requires |times| == |marks|
  {
    forall i, j :: 0 <= i < j < |times| && marks[i] && marks[j] ==> times[j] >= times[i] + gap
  }

  lemma OneMore(gap: int, n: int)
    ensures gap * n == gap * (n - 1) + gap
  {
  }

  /** The last of `n` spaced events is at least n - 1 gaps after the first moment allowed. */
  lemma {:induction false} LastSpacedEvent(times: seq<int>, marks: seq<bool>, gap: int, start: int) returns (i: nat)
    requires |times| == |marks| && Spaced(times, marks, gap) && CountTrue(marks) >= 1
    requires forall k :: 0 <= k < |times| && marks[k] ==> start <= times[k]
    ensures i < |times| && marks[i] && times[i] >= start + gap * (CountTrue(marks) - 1)
  {
    var n := |times| - 1;
    if marks[n] && CountTrue(marks[..n]) == 0 {
      i := n;
    } else {
      i := LastSpacedEvent(times[..n], marks[..n], gap, start);
      if marks[n] {
        OneMore(gap, CountTrue(marks[..n]));
        i := n;
      }
    }
  }

  lemma MulGrows(c: int, a: int, b: int)
    requires c >= 0
    ensures a <= b ==> c * a <= c * b
  {
  }

  lemma QuotientBound(c: int, n: nat, total: int)
    requires c >= 1 && c * n <= total
    ensures total >= 0 && n <= total / c
  {
    var q := total / c;
    assert total == c * q + total % c;
    assert c * (q + 1) == c * q + c;
    MulGrows(c, 0, n);
    MulGrows(c, q + 1, n);
  }

  /** Events at least `gap` apart fit at most (finish - start) / gap + 1 times between two moments. */
  lemma SpacedEventsAreFew(times: seq<int>, marks: seq<bool>, gap: int, start: int, finish: int)
    requires |times| == |marks| && Spaced(times, marks, gap) && gap >= 1 && CountTrue(marks) >= 1
    requires forall k :: 0 <= k < |times| && marks[k] ==> start <= times[k] <= finish
    ensures finish >= start && CountTrue(marks) <= (finish - start) / gap + 1
  {
    var i := LastSpacedEvent(times, marks, gap, start);
    QuotientBound(gap, CountTrue(marks) - 1, finish - start);
  }

  lemma QuotientTimesDivisor(x: int, c: int)
    requires c >= 1
    ensures c * (x / c) <= x
  {
  }

  lemma SmallQuotient(x: nat, c: int)
    requires x < c
    ensures x / c == 0
  {
  }
}

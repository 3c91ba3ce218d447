/** The passes of the selection loop (src/tune.cpp:117-180), told without its loop: which candidates go on from one
    problem size to the next, and which of the last ones is chosen. */
module TuneRounds {
  import opened Buffers
  import opened Tune
  import opened TuneProperties

  /** x is measured successfully, and its A is at least `ratio` times that of every candidate that is. */
  ghost predicate KeepsUp<P>(measure: Callback<P>, pass: nat, size: nat, candidates: seq<P>, ratio: real, x: P) {
    && measure(pass, size, x).Rates?
    && forall i | 0 <= i < |candidates| && measure(pass, size, candidates[i]).Rates? ::
         measure(pass, size, x).a >= ratio * measure(pass, size, candidates[i]).a
  }

  /** `after` is what keeps up of `before`, in its order. */
  ghost predicate GoOn<P>(measure: Callback<P>, pass: nat, size: nat, before: seq<P>, ratio: real, after: seq<P>) {
    exists index: seq<nat> :: SubsequenceBy(after, before, index) && KeepUpAt(measure, pass, size, before, ratio, index)
  }

  /** These positions are exactly those of the candidates that keep up. */
  ghost predicate KeepUpAt<P>(measure: Callback<P>, pass: nat, size: nat, before: seq<P>, ratio: real, index: seq<nat>) {
    forall i: nat :: i in index <==> i < |before| && KeepsUp(measure, pass, size, before, ratio, before[i])
  }

  ghost predicate SomeMeasured<P>(measure: Callback<P>, pass: nat, size: nat, candidates: seq<P>) {
    exists i :: 0 <= i < |candidates| && measure(pass, size, candidates[i]).Rates?
  }

  /** Candidate k is measured successfully, with a B that reaches the A of every candidate that is. */
  ghost predicate Wins<P>(measure: Callback<P>, pass: nat, size: nat, candidates: seq<P>, k: nat)
    requires k < |candidates|
  {
    && measure(pass, size, candidates[k]).Rates?
    && forall i | 0 <= i < |candidates| && measure(pass, size, candidates[i]).Rates? ::
         measure(pass, size, candidates[i]).a <= measure(pass, size, candidates[k]).b
  }

  ghost predicate WinsFirst<P>(measure: Callback<P>, pass: nat, size: nat, candidates: seq<P>, k: nat)
    requires k < |candidates|
  {
    && Wins(measure, pass, size, candidates, k)
    && forall j | 0 <= j < k :: !Wins(measure, pass, size, candidates, j)
  }

  /** The last pass chooses the first that wins, if any. */
  ghost predicate Decides<P>(measure: Callback<P>, pass: nat, size: nat, candidates: seq<P>, outcome: Outcome<P>) {
    match outcome
    case Chosen(p) => exists k: nat | k < |candidates| :: WinsFirst(measure, pass, size, candidates, k) && p == candidates[k]
    case Aborted => forall k: nat | k < |candidates| :: !Wins(measure, pass, size, candidates, k)
    case _ => false
  }

  /** rounds[k] enters pass `pass` + k. Tuning fails in the first pass in which nothing is measured successfully. */
  ghost predicate IsTuning<P>(measure: Callback<P>, candidates: seq<P>, sizes: seq<nat>, ratio: real, pass: nat,
                              rounds: seq<seq<P>>, outcome: Outcome<P>)
  {
    && 0 < |rounds| <= |sizes| - pass && rounds[0] == candidates
    && (forall k | 0 <= k < |rounds| - 1 :: NextRound(measure, sizes, ratio, pass + k, rounds[k], rounds[k + 1]))
    && var last := |rounds| - 1;
       if !SomeMeasured(measure, pass + last, sizes[pass + last], rounds[last]) then outcome == TuneError
       else pass + last == |sizes| - 1 && Decides(measure, pass + last, sizes[pass + last], rounds[last], outcome)
  }

  ghost predicate NextRound<P>(measure: Callback<P>, sizes: seq<nat>, ratio: real, pass: nat, before: seq<P>, after: seq<P>)
    requires pass < |sizes|
  {
    && SomeMeasured(measure, pass, sizes[pass], before)
    && GoOn(measure, pass, sizes[pass], before, ratio, after)
  }

  // ---- one pass

  predicate Reaches<P>(f: P -> Measurement, x: P, bound: real) {
    f(x).Rates? && f(x).a >= bound
  }

  ghost predicate ReachAt<P>(f: P -> Measurement, candidates: seq<P>, bound: real, index: seq<nat>) {
    forall i: nat :: i in index <==> i < |candidates| && Reaches(f, candidates[i], bound)
  }

  lemma {:induction false} KeptExactly<P>(f: P -> Measurement, candidates: seq<P>, bound: real) returns (index: seq<nat>)
    ensures SubsequenceBy(AtLeast(f, candidates, bound), candidates, index) && ReachAt(f, candidates, bound, index)
  {
    hide AtLeast, SubsequenceBy, ReachAt, Survivors, MaxRate, Measure;
    if candidates == [] {
      NothingYet(f, bound);
      index := [];
      NothingKept(f, candidates, bound);
    } else {
      var n := |candidates| - 1;
      index := KeptExactly(f, candidates[..n], bound);
      assert candidates == candidates[..n] + [candidates[n]];
      Snoc(f, candidates[..n], candidates[n], bound);
      index := OneMoreKept(f, candidates[..n], candidates[n], bound, AtLeast(f, candidates[..n], bound), index);
    }
  }

  lemma NothingKept<P>(f: P -> Measurement, candidates: seq<P>, bound: real)
    requires candidates == []
    ensures SubsequenceBy([], candidates, []) && ReachAt(f, candidates, bound, [])
  {
  }

  lemma OneMoreKept<P>(f: P -> Measurement, s: seq<P>, x: P, bound: real, kept: seq<P>, index: seq<nat>)
      returns (index': seq<nat>)
    requires SubsequenceBy(kept, s, index) && ReachAt(f, s, bound, index)
    ensures SubsequenceBy(if Reaches(f, x, bound) then kept + [x] else kept, s + [x], index')
    ensures ReachAt(f, s + [x], bound, index')
  {
    index' := if Reaches(f, x, bound) then index + [|s|] else index;
    forall i: nat ensures i in index' <==> i < |s + [x]| && Reaches(f, (s + [x])[i], bound) {
      if i < |s| {
        assert (s + [x])[i] == s[i];
      }
    }
  }

  lemma RatioMono(ratio: real, x: real, y: real)
    requires ratio >= 0.0 && x <= y
    ensures ratio * x <= ratio * y
  {
  }

  /** Reaching the threshold is keeping up with everybody. */
  lemma ThresholdKeepsUp<P>(measure: Callback<P>, pass: nat, size: nat, candidates: seq<P>, ratio: real, x: P)
    requires ratio >= 0.0
    ensures var f := AtPass(measure, pass, size);
            var best := MaxRate(Measure(f, candidates));
            best.Some? ==>
              (f(x).Rates? && f(x).a >= Threshold(ratio, best.value) <==> KeepsUp(measure, pass, size, candidates, ratio, x))
  {
    var f := AtPass(measure, pass, size);
    MaxRateMeaning(f, candidates);
    var best := MaxRate(Measure(f, candidates));
    hide MaxRate, Measure;
    if best.Some? {
      forall i | 0 <= i < |candidates| && measure(pass, size, candidates[i]).Rates?
        ensures ratio * measure(pass, size, candidates[i]).a <= ratio * best.value
      {
        assert f(candidates[i]).a <= best.value;
        RatioMono(ratio, f(candidates[i]).a, best.value);
      }
      var i :| 0 <= i < |candidates| && f(candidates[i]).Rates? && f(candidates[i]).a == best.value;
      assert measure(pass, size, candidates[i]).Rates?;
    }
  }

  lemma MeasuredExactly<P>(measure: Callback<P>, pass: nat, size: nat, candidates: seq<P>)
    ensures var f := AtPass(measure, pass, size);
            && (SomeMeasured(measure, pass, size, candidates) <==> Survivors(f, candidates) != [])
            && (SomeMeasured(measure, pass, size, candidates) <==> MaxRate(Measure(f, candidates)).Some?)
  {
    var f := AtPass(measure, pass, size);
    hide MaxRate, Measure, Survivors;
    MaxRateMeaning(f, candidates);
    OnlySurvivorsMatter(f, candidates, 0.0);
    if i :| 0 <= i < |candidates| && f(candidates[i]).Rates? {
      assert measure(pass, size, candidates[i]).Rates?;
    }
    if i :| 0 <= i < |candidates| && measure(pass, size, candidates[i]).Rates? {
      assert f(candidates[i]).Rates?;
    }
  }

  lemma PruneGoesOn<P>(measure: Callback<P>, pass: nat, size: nat, candidates: seq<P>, ratio: real)
    requires ratio >= 0.0 && SomeMeasured(measure, pass, size, candidates)
    ensures GoOn(measure, pass, size, candidates, ratio, Prune(AtPass(measure, pass, size), candidates, ratio))
  {
    var f := AtPass(measure, pass, size);
    MeasuredExactly(measure, pass, size, candidates);
    var best := MaxRate(Measure(f, candidates));
    hide MaxRate, Measure, Threshold, AtLeast, KeepsUp;
    var index := KeptExactly(f, candidates, Threshold(ratio, best.value));
    forall i: nat ensures i in index <==> i < |candidates| && KeepsUp(measure, pass, size, candidates, ratio, candidates[i]) {
      if i < |candidates| {
        ThresholdKeepsUp(measure, pass, size, candidates, ratio, candidates[i]);
      }
    }
    assert KeepUpAt(measure, pass, size, candidates, ratio, index);
  }

  /** A candidate wins exactly if its B reaches the largest A. */
  lemma WinsExactly<P>(measure: Callback<P>, pass: nat, size: nat, candidates: seq<P>, k: nat)
    requires k < |candidates|
    ensures var f := AtPass(measure, pass, size);
            var best := MaxRate(Measure(f, candidates));
            best.Some? ==> (Wins(measure, pass, size, candidates, k) <==> f(candidates[k]).Rates? && f(candidates[k]).b >= best.value)
  {
    var f := AtPass(measure, pass, size);
    MaxRateMeaning(f, candidates);
    var best := MaxRate(Measure(f, candidates));
    hide MaxRate, Measure;
    if best.Some? {
      forall i | 0 <= i < |candidates| && measure(pass, size, candidates[i]).Rates?
        ensures measure(pass, size, candidates[i]).a <= best.value
      {
        assert f(candidates[i]).a <= best.value;
      }
      var i :| 0 <= i < |candidates| && f(candidates[i]).Rates? && f(candidates[i]).a == best.value;
      assert measure(pass, size, candidates[i]).Rates?;
    }
  }

  lemma {:induction false} NoneWithB<P>(f: P -> Measurement, candidates: seq<P>, goal: real)
    requires forall i | 0 <= i < |candidates| && f(candidates[i]).Rates? :: f(candidates[i]).b < goal
    ensures FirstWithB(f, candidates, goal) == None
  {
    if candidates != [] {
      NoneWithB(f, candidates[1..], goal);
    }
  }

  lemma SelectDecides<P>(measure: Callback<P>, pass: nat, size: nat, candidates: seq<P>)
    requires SomeMeasured(measure, pass, size, candidates)
    ensures Decides(measure, pass, size, candidates, Select(AtPass(measure, pass, size), candidates))
  {
    var f := AtPass(measure, pass, size);
    MeasuredExactly(measure, pass, size, candidates);
    var best := MaxRate(Measure(f, candidates)).value;
    SurvivorsKeepFirst(f, candidates, best);
    hide MaxRate, Measure, Survivors, FirstWithB, Wins;
    forall k: nat | k < |candidates|
      ensures Wins(measure, pass, size, candidates, k) <==> f(candidates[k]).Rates? && f(candidates[k]).b >= best
    {
      WinsExactly(measure, pass, size, candidates, k);
    }
    if exists i :: 0 <= i < |candidates| && f(candidates[i]).Rates? && f(candidates[i]).b >= best {
      var k := FirstIndex(f, candidates, best);
      assert WinsFirst(measure, pass, size, candidates, k);
    } else {
      NoneWithB(f, candidates, best);
    }
  }

  // ---- all passes

  /** What the tuner returns is what the rounds say. */
  lemma {:induction false} RoundsOf<P(!new)>(measure: Callback<P>, candidates: seq<P>, sizes: seq<nat>, ratio: real, pass: nat)
      returns (rounds: seq<seq<P>>)
    requires ratio >= 0.0 && pass < |sizes|
    ensures IsTuning(measure, candidates, sizes, ratio, pass, rounds, TuneFrom(measure, candidates, sizes, ratio, pass))
    decreases |sizes| - pass
  {
    hide Survivors, Prune, Select, Decides, GoOn, SomeMeasured, AtPass;
    MeasuredExactly(measure, pass, sizes[pass], candidates);
    if !SomeMeasured(measure, pass, sizes[pass], candidates) {
      rounds := [candidates];
    } else if pass == |sizes| - 1 {
      SelectDecides(measure, pass, sizes[pass], candidates);
      rounds := [candidates];
    } else {
      PruneGoesOn(measure, pass, sizes[pass], candidates, ratio);
      var next := Prune(AtPass(measure, pass, sizes[pass]), candidates, ratio);
      var rest := RoundsOf(measure, next, sizes, ratio, pass + 1);
      OneMoreRound(measure, candidates, sizes, ratio, pass, rest, TuneFrom(measure, next, sizes, ratio, pass + 1));
      rounds := [candidates] + rest;
    }
  }

  lemma OneMoreRound<P>(measure: Callback<P>, candidates: seq<P>, sizes: seq<nat>, ratio: real, pass: nat,
                        rest: seq<seq<P>>, outcome: Outcome<P>)
    requires pass + 1 < |sizes| && rest != [] && NextRound(measure, sizes, ratio, pass, candidates, rest[0])
    requires IsTuning(measure, rest[0], sizes, ratio, pass + 1, rest, outcome)
    ensures IsTuning(measure, candidates, sizes, ratio, pass, [candidates] + rest, outcome)
  {
    hide NextRound, SomeMeasured, Decides;
    var rounds := [candidates] + rest;
    forall k | 0 <= k < |rounds| - 1 ensures NextRound(measure, sizes, ratio, pass + k, rounds[k], rounds[k + 1]) {
      if k > 0 {
        assert NextRound(measure, sizes, ratio, pass + 1 + (k - 1), rest[k - 1], rest[k]);
      }
    }
    assert rounds[|rounds| - 1] == rest[|rest| - 1];
  }

  /** Who goes on has kept up, and who keeps up goes on. */
  lemma GoesOnExactly<P>(measure: Callback<P>, pass: nat, size: nat, before: seq<P>, ratio: real, after: seq<P>, x: P)
    requires GoOn(measure, pass, size, before, ratio, after)
    ensures x in after <==> x in before && KeepsUp(measure, pass, size, before, ratio, x)
  {
    hide KeepsUp;
    var index :| SubsequenceBy(after, before, index) && KeepUpAt(measure, pass, size, before, ratio, index);
    if x in after {
      var j :| 0 <= j < |after| && after[j] == x;
      assert index[j] in index;
    }
    if x in before && KeepsUp(measure, pass, size, before, ratio, x) {
      var i: nat :| i < |before| && before[i] == x;
      assert i in index;
      var j :| 0 <= j < |index| && index[j] == i;
      assert after[j] == x;
    }
  }

  /** Candidate x keeps up in all rounds before round k. */
  ghost predicate KeptUpTo<P>(measure: Callback<P>, sizes: seq<nat>, ratio: real, rounds: seq<seq<P>>, k: nat, x: P)
    requires k <= |rounds| <= |sizes|
  {
    forall j | 0 <= j < k :: KeepsUp(measure, j, sizes[j], rounds[j], ratio, x)
  }

  /** A candidate is in a round if and only if it has kept up in all earlier ones. */
  lemma {:induction false} InRoundExactly<P>(measure: Callback<P>, candidates: seq<P>, sizes: seq<nat>, ratio: real,
                                             rounds: seq<seq<P>>, outcome: Outcome<P>, k: nat, x: P)
    requires IsTuning(measure, candidates, sizes, ratio, 0, rounds, outcome) && k < |rounds|
    ensures x in rounds[k] <==> x in candidates && KeptUpTo(measure, sizes, ratio, rounds, k, x)
  {
    hide KeepsUp, GoOn, Decides, SomeMeasured;
    if k > 0 {
      InRoundExactly(measure, candidates, sizes, ratio, rounds, outcome, k - 1, x);
      assert NextRound(measure, sizes, ratio, 0 + (k - 1), rounds[k - 1], rounds[k]);
      GoesOnExactly(measure, k - 1, sizes[k - 1], rounds[k - 1], ratio, rounds[k], x);
    }
  }

  /** A chosen candidate kept up in every earlier pass and is the first that wins the last one; every candidate
      that kept up in all of them was still in. */
  lemma ChosenKeptUp<P(!new)>(measure: Callback<P>, candidates: seq<P>, sizes: seq<nat>, ratio: real)
      returns (rounds: seq<seq<P>>)
    requires ratio >= 0.0 && sizes != [] && TuneFrom(measure, candidates, sizes, ratio, 0).Chosen?
    ensures var p, last := TuneFrom(measure, candidates, sizes, ratio, 0).params, |sizes| - 1;
            && |rounds| == |sizes| && rounds[0] == candidates
            && KeptUpTo(measure, sizes, ratio, rounds, last, p)
            && (forall x :: x in rounds[last] <==> x in candidates && KeptUpTo(measure, sizes, ratio, rounds, last, x))
            && exists k: nat | k < |rounds[last]| ::
                 WinsFirst(measure, last, sizes[last], rounds[last], k) && p == rounds[last][k]
  {
    hide KeepsUp, GoOn, SomeMeasured, WinsFirst, TuneFrom, KeptUpTo, NextRound;
    rounds := RoundsOf(measure, candidates, sizes, ratio, 0);
    var outcome := TuneFrom(measure, candidates, sizes, ratio, 0);
    var last := |sizes| - 1;
    forall x ensures x in rounds[last] <==> x in candidates && KeptUpTo(measure, sizes, ratio, rounds, last, x) {
      InRoundExactly(measure, candidates, sizes, ratio, rounds, outcome, last, x);
    }
  }

  function SlowStart(): Callback<nat> {
    (pass: nat, size: nat, p: nat) =>
      if p == 0 then Rates(1.0, 1.0) else if pass == 0 then Rates(0.3, 0.3) else Rates(2.0, 2.0)
  }

  lemma SlowStartKeepsUp()
    ensures KeepsUp(SlowStart(), 0, 1, [0, 1], 0.5, 0) && !KeepsUp(SlowStart(), 0, 1, [0, 1], 0.5, 1)
    ensures SomeMeasured(SlowStart(), 0, 1, [0, 1])
  {
    var m, c: seq<nat> := SlowStart(), [0, 1];
    assert m(0, 1, c[0]).Rates? && m(0, 1, c[0]).a == 1.0;
  }

  lemma OnlyZero(c: seq<nat>, outcome: Outcome<nat>)
    requires 0 in c && forall i | 0 <= i < |c| :: c[i] == 0
    ensures SomeMeasured(SlowStart(), 1, 2, c)
    ensures Decides(SlowStart(), 1, 2, c, outcome) ==> outcome == Chosen(0)
  {
    var m := SlowStart();
    assert m(1, 2, c[0]).Rates?;
    assert Wins(m, 1, 2, c, 0);
  }

  /** Of two candidates, one that is not half as fast as the other in the first pass is not chosen, however fast it
      is later. */
  lemma SlowStartLoses()
    ensures TuneFrom(SlowStart(), [0, 1], [1, 2], 0.5, 0) == Chosen(0)
  {
    hide *;
    var m, c: seq<nat>, sizes: seq<nat> := SlowStart(), [0, 1], [1, 2];
    var rounds := RoundsOf(m, c, sizes, 0.5, 0);
    var outcome := TuneFrom(m, c, sizes, 0.5, 0);
    SlowStartKeepsUp();
    SecondRound(m, c, sizes, rounds, outcome);
    OnlyZero(rounds[1], outcome);
    LastRound(m, c, sizes, rounds, outcome);
  }

  lemma SecondRound(m: Callback<nat>, c: seq<nat>, sizes: seq<nat>, rounds: seq<seq<nat>>, outcome: Outcome<nat>)
    requires c == [0, 1] && sizes == [1, 2] && IsTuning(m, c, sizes, 0.5, 0, rounds, outcome)
    requires KeepsUp(m, 0, 1, c, 0.5, 0) && !KeepsUp(m, 0, 1, c, 0.5, 1) && SomeMeasured(m, 0, 1, c)
    ensures |rounds| == 2 && 0 in rounds[1] && forall i | 0 <= i < |rounds[1]| :: rounds[1][i] == 0
  {
    hide KeepsUp, SomeMeasured, GoOn, Decides;
    assert NextRound(m, sizes, 0.5, 0 + 0, rounds[0], rounds[1]);
    assert c[0] == 0;
    GoesOnExactly(m, 0, 1, c, 0.5, rounds[1], 0);
    forall i | 0 <= i < |rounds[1]| ensures rounds[1][i] == 0 {
      GoesOnExactly(m, 0, 1, c, 0.5, rounds[1], rounds[1][i]);
      assert rounds[1][i] in c;
    }
  }

  lemma LastRound(m: Callback<nat>, c: seq<nat>, sizes: seq<nat>, rounds: seq<seq<nat>>, outcome: Outcome<nat>)
    requires sizes == [1, 2] && |rounds| == 2 && IsTuning(m, c, sizes, 0.5, 0, rounds, outcome)
    requires SomeMeasured(m, 1, 2, rounds[1])
    ensures Decides(m, 1, 2, rounds[1], outcome)
  {
    hide Decides, SomeMeasured;
  }
}

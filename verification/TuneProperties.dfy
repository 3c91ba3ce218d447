/** What the tuner promises (src/tune.h:120-146), proved about the functions that the selection loop is
    shown to compute. */
module TuneProperties {
  import opened Buffers
  import opened Tune

  // ---- the maximum, the pruning and the choice

  /** MaxRate is the largest A: every candidate is at most that fast, and one is exactly that fast. */
  lemma {:induction false} MaxRateMeaning<P>(f: P -> Measurement, candidates: seq<P>)
    ensures var best := MaxRate(Measure(f, candidates));
            match best
            case None => forall i :: 0 <= i < |candidates| ==> f(candidates[i]).Failed?
            case Some(v) =>
              && (forall i :: 0 <= i < |candidates| && f(candidates[i]).Rates? ==> f(candidates[i]).a <= v)
              && exists i :: 0 <= i < |candidates| && f(candidates[i]).Rates? && f(candidates[i]).a == v
  {
    if candidates != [] {
      var n := |candidates| - 1;
      var s, x := candidates[..n], candidates[n];
      MaxRateMeaning(f, s);
      Snoc(f, s, x, 0.0);
      assert candidates == s + [x];
      var before := MaxRate(Measure(f, s));
      if before.Some? {
        var i :| 0 <= i < |s| && f(s[i]).Rates? && f(s[i]).a == before.value;
        assert candidates[i] == s[i];
      }
      forall i | 0 <= i < |candidates| && f(candidates[i]).Rates?
        ensures MaxRate(Measure(f, candidates)).Some? && f(candidates[i]).a <= MaxRate(Measure(f, candidates)).value
      {
        if i < n {
          assert candidates[i] == s[i];
        }
      }
    }
  }

  /** Pruning keeps the maximum as long as the threshold does not exceed it, and keeps nothing otherwise. */
  lemma {:induction false} PruneKeepsMax<P>(f: P -> Measurement, candidates: seq<P>, bound: real)
    ensures var best := MaxRate(Measure(f, candidates));
            if best == None || best.value < bound then AtLeast(f, candidates, bound) == []
            else MaxRate(Measure(f, AtLeast(f, candidates, bound))) == best
  {
    if candidates == [] {
      NothingYet(f, bound);
    } else {
      var n := |candidates| - 1;
      PruneKeepsMax(f, candidates[..n], bound);
      assert candidates == candidates[..n] + [candidates[n]];
      PruneMaxStep(f, candidates[..n], candidates[n], bound);
    }
  }

  lemma PruneMaxStep<P>(f: P -> Measurement, s: seq<P>, x: P, bound: real)
    requires var best := MaxRate(Measure(f, s));
             if best == None || best.value < bound then AtLeast(f, s, bound) == []
             else MaxRate(Measure(f, AtLeast(f, s, bound))) == best
    ensures var best := MaxRate(Measure(f, s + [x]));
            if best == None || best.value < bound then AtLeast(f, s + [x], bound) == []
            else MaxRate(Measure(f, AtLeast(f, s + [x], bound))) == best
  {
    hide AtLeast, MaxRate, Measure, Survivors;
    Snoc(f, s, x, bound);
    Snoc(f, AtLeast(f, s, bound), x, bound);
    NothingYet(f, bound);
  }

  /** The pruning step leaves nothing exactly when the threshold exceeds the best rate. With rates of at
      least zero and a ratio between zero and one that cannot happen; with negative rates it does. */
  lemma PruneEmptyExactly<P>(f: P -> Measurement, candidates: seq<P>, ratio: real)
    requires Survivors(f, candidates) != []
    ensures var best := MaxRate(Measure(f, candidates));
            best.Some? && (Prune(f, candidates, ratio) == [] <==> best.value < Threshold(ratio, best.value))
  {
    OnlySurvivorsMatter(f, candidates, 0.0);
    var best := MaxRate(Measure(f, candidates));
    PruneKeepsMax(f, candidates, Threshold(ratio, best.value));
    NothingYet(f, 0.0);
  }

  lemma PruneKeepsSomething<P>(f: P -> Measurement, candidates: seq<P>, ratio: real)
    requires Survivors(f, candidates) != [] && 0.0 <= ratio <= 1.0
    requires forall p :: p in candidates && f(p).Rates? ==> f(p).a >= 0.0
    ensures Prune(f, candidates, ratio) != []
  {
    PruneEmptyExactly(f, candidates, ratio);
    MaxRateMeaning(f, candidates);
    var v := MaxRate(Measure(f, candidates)).value;
    var i :| 0 <= i < |candidates| && f(candidates[i]).Rates? && f(candidates[i]).a == v;
    assert candidates[i] in candidates;
    ThresholdBelow(ratio, v);
  }

  lemma ThresholdBelow(ratio: real, v: real)
    requires 0.0 <= ratio <= 1.0 && v >= 0.0
    ensures Threshold(ratio, v) <= v
  {
    MulMono(ratio, 1.0, v);
  }

  lemma MulMono(x: real, y: real, z: real)
    requires x <= y && z >= 0.0
    ensures x * z <= y * z
  {
  }

  /** The precondition on the rates matters: a single candidate that is measured successfully twice, but with
      negative rates, is pruned away and reported as an error. */
  lemma NegativeRatesAreLost()
    ensures TuneFrom((_: nat, _: nat, _: nat) => Rates(-1.0, -1.0), [7], [1, 2], 0.5, 0) == TuneError
  {
    var measure: Callback<nat> := (_: nat, _: nat, _: nat) => Rates(-1.0, -1.0);
    var f := AtPass(measure, 0, 1);
    var g := AtPass(measure, 1, 2);
    var c: seq<nat> := [7];
    assert c == [] + [7];
    Snoc(f, [], 7, 0.0);
    NothingYet(f, 0.0);
    NothingYet(g, 0.0);
    assert Survivors(f, c) == [7];
    assert MaxRate(Measure(f, c)) == Some(-1.0);
    PruneEmptyExactly(f, c, 0.5);
    assert Prune(f, c, 0.5) == [];
  }

  /** The parallel sequences stay what the loop needs: what is kept is a subsequence of the candidates, in
      their order. */
  ghost predicate SubsequenceBy<P>(s: seq<P>, t: seq<P>, index: seq<nat>) {
    && |index| == |s|
    && (forall i :: 0 <= i < |s| ==> index[i] < |t| && s[i] == t[index[i]])
    && (forall i, j :: 0 <= i < j < |index| ==> index[i] < index[j])
  }

  lemma {:induction false} KeptInOrder<P>(f: P -> Measurement, candidates: seq<P>, bound: real) returns (index: seq<nat>)
    ensures SubsequenceBy(AtLeast(f, candidates, bound), candidates, index)
  {
    if candidates == [] {
      index := [];
    } else {
      var n := |candidates| - 1;
      index := KeptInOrder(f, candidates[..n], bound);
      if f(candidates[n]).Rates? && f(candidates[n]).a >= bound {
        index := index + [n];
      }
    }
  }

  // ---- the chosen candidate

  lemma {:induction false} FirstSnoc<P>(f: P -> Measurement, s: seq<P>, x: P, bound: real)
    ensures FirstWithB(f, s + [x], bound) ==
            if FirstWithB(f, s, bound).Some? then FirstWithB(f, s, bound)
            else if f(x).Rates? && f(x).b >= bound then Some(x) else None
  {
    if s == [] {
      assert s + [x] == [x];
      FirstNone(f, [x][1..], bound);
    } else {
      assert (s + [x])[1..] == s[1..] + [x];
      FirstSnoc(f, s[1..], x, bound);
    }
  }

  /** Dropping candidates that cannot win does not change the winner. */
  lemma {:induction false} PruneKeepsFirst<P>(f: P -> Measurement, candidates: seq<P>, bound: real, goal: real)
    requires forall p :: p in candidates && f(p).Rates? && f(p).b >= goal ==> f(p).a >= bound
    ensures FirstWithB(f, AtLeast(f, candidates, bound), goal) == FirstWithB(f, candidates, goal)
  {
    hide FirstWithB, AtLeast;
    if candidates == [] {
      NothingYet(f, bound);
    } else {
      var n := |candidates| - 1;
      var s, x := candidates[..n], candidates[n];
      PruneKeepsFirst(f, s, bound, goal);
      assert candidates == s + [x];
      FirstSnoc(f, s, x, goal);
      Snoc(f, s, x, bound);
      FirstSnoc(f, AtLeast(f, s, bound), x, goal);
      assert x in candidates;
    }
  }

  lemma {:induction false} SurvivorsKeepFirst<P>(f: P -> Measurement, candidates: seq<P>, goal: real)
    ensures FirstWithB(f, Survivors(f, candidates), goal) == FirstWithB(f, candidates, goal)
  {
    hide FirstWithB, Survivors;
    if candidates == [] {
      NothingYet(f, 0.0);
    } else {
      var n := |candidates| - 1;
      var s, x := candidates[..n], candidates[n];
      SurvivorsKeepFirst(f, s, goal);
      assert candidates == s + [x];
      FirstSnoc(f, s, x, goal);
      Snoc(f, s, x, 0.0);
      FirstSnoc(f, Survivors(f, s), x, goal);
    }
  }

  /** Candidate k is the choice: its B reaches the best A, and no earlier candidate's does. */
  ghost predicate IsChoice<P>(f: P -> Measurement, candidates: seq<P>, k: nat) {
    && k < |candidates| && f(candidates[k]).Rates?
    && (forall i :: 0 <= i < |candidates| && f(candidates[i]).Rates? ==> f(candidates[i]).a <= f(candidates[k]).b)
    && forall j :: 0 <= j < k && f(candidates[j]).Rates? ==>
         exists i :: 0 <= i < |candidates| && f(candidates[i]).Rates? && f(candidates[j]).b < f(candidates[i]).a
  }

  lemma {:induction false} FirstIndex<P>(f: P -> Measurement, candidates: seq<P>, goal: real) returns (k: nat)
    requires exists i :: 0 <= i < |candidates| && f(candidates[i]).Rates? && f(candidates[i]).b >= goal
    ensures k < |candidates| && f(candidates[k]).Rates? && f(candidates[k]).b >= goal
    ensures FirstWithB(f, candidates, goal) == Some(candidates[k])
    ensures forall j :: 0 <= j < k && f(candidates[j]).Rates? ==> f(candidates[j]).b < goal
  {
    if f(candidates[0]).Rates? && f(candidates[0]).b >= goal {
      k := 0;
    } else {
      var i :| 0 <= i < |candidates| && f(candidates[i]).Rates? && f(candidates[i]).b >= goal;
      assert candidates[1..][i - 1] == candidates[i];
      var k' := FirstIndex(f, candidates[1..], goal);
      k := k' + 1;
      forall j | 0 <= j < k && f(candidates[j]).Rates?
        ensures f(candidates[j]).b < goal
      {
        if j > 0 {
          assert candidates[j] == candidates[1..][j - 1];
        }
      }
    }
  }

  /** With A <= B the last pass always finds a winner, and it is the documented one. */
  lemma SelectMeaning<P>(f: P -> Measurement, candidates: seq<P>) returns (k: nat)
    requires Survivors(f, candidates) != []
    requires forall p :: p in candidates && f(p).Rates? ==> f(p).a <= f(p).b
    ensures IsChoice(f, candidates, k) && Select(f, candidates) == Chosen(candidates[k])
  {
    OnlySurvivorsMatter(f, candidates, 0.0);
    MaxRateMeaning(f, candidates);
    var best := MaxRate(Measure(f, candidates)).value;
    var i :| 0 <= i < |candidates| && f(candidates[i]).Rates? && f(candidates[i]).a == best;
    assert candidates[i] in candidates;
    k := FirstIndex(f, candidates, best);
    SurvivorsKeepFirst(f, candidates, best);
    forall j | 0 <= j < k && f(candidates[j]).Rates?
      ensures exists i :: 0 <= i < |candidates| && f(candidates[i]).Rates? && f(candidates[j]).b < f(candidates[i]).a
    {
      assert f(candidates[j]).b < f(candidates[i]).a;
    }
  }

  // ---- the whole run

  /** abort() is reached exactly when there is no problem size at all. */
  lemma {:induction false} AbortsExactly<P(!new)>(measure: Callback<P>, candidates: seq<P>, sizes: seq<nat>, ratio: real, pass: nat)
    requires RatesOrdered(measure) && pass <= |sizes|
    ensures TuneFrom(measure, candidates, sizes, ratio, pass) == Aborted <==> pass == |sizes|
    decreases |sizes| - pass
  {
    if pass < |sizes| {
      var f := AtPass(measure, pass, sizes[pass]);
      if Survivors(f, candidates) != [] {
        if pass == |sizes| - 1 {
          var k := SelectMeaning(f, candidates);
        } else {
          AbortsExactly(measure, Prune(f, candidates, ratio), sizes, ratio, pass + 1);
        }
      }
    }
  }

  /** The result is one of the candidates, and it was measured successfully in every pass. */
  lemma {:induction false} ChosenSucceeded<P(!new)>(measure: Callback<P>, candidates: seq<P>, sizes: seq<nat>, ratio: real,
                                                   pass: nat, later: nat)
    requires pass <= later < |sizes|
    requires TuneFrom(measure, candidates, sizes, ratio, pass).Chosen?
    ensures var p := TuneFrom(measure, candidates, sizes, ratio, pass).params;
            p in candidates && measure(later, sizes[later], p).Rates?
    decreases |sizes| - pass
  {
    var f := AtPass(measure, pass, sizes[pass]);
    if pass < |sizes| - 1 {
      ChosenSucceeded(measure, Prune(f, candidates, ratio), sizes, ratio, pass + 1, if pass < later then later else pass + 1);
    }
  }

  /** Rates that do not depend on when and on what size they are measured, and whose B is not too far
      above A for the ratio. */
  ghost predicate Steady<P(!new)>(measure: Callback<P>, f: P -> Measurement, ratio: real) {
    && (forall pass, size, p :: measure(pass, size, p) == f(p))
    && (forall p :: f(p).Rates? ==> f(p).a <= f(p).b && Threshold(ratio, f(p).b) <= f(p).a)
  }

  /** Pruning is sound: for such rates any number of passes chooses what a single unpruned pass would. */
  lemma {:induction false} PruningSound<P(!new)>(measure: Callback<P>, f: P -> Measurement, candidates: seq<P>, sizes: seq<nat>,
                                                ratio: real, pass: nat)
    requires Steady(measure, f, ratio) && ratio >= 0.0 && pass < |sizes|
    ensures TuneFrom(measure, candidates, sizes, ratio, pass) == Select(f, candidates)
    decreases |sizes| - pass
  {
    var g := AtPass(measure, pass, sizes[pass]);
    SteadyPass(measure, f, ratio, pass, sizes[pass]);
    SameMeasurements(g, f, candidates);
    SameOutcome(g, f, candidates, ratio);
    hide Survivors, AtLeast, MaxRate, Measure, FirstWithB, Threshold, Prune, Select, Steady, AtPass;
    if Survivors(f, candidates) == [] {
      NobodySurvives(f, candidates);
    } else if pass < |sizes| - 1 {
      SteadyPrunes(measure, f, candidates, ratio);
      PruningSound(measure, f, Prune(f, candidates, ratio), sizes, ratio, pass + 1);
    }
  }

  /** A candidate that is the only one to succeed, always at the same rate, is chosen. */
  lemma OnlyOneChosen<P(!new)>(measure: Callback<P>, candidates: seq<P>, sizes: seq<nat>, p: P)
    requires p in candidates && sizes != []
    requires forall pass, size, q :: measure(pass, size, q) == if q == p then Rates(1.0, 1.0) else Failed
    ensures TuneFrom(measure, candidates, sizes, 0.5, 0) == Chosen(p)
  {
    hide Survivors, AtLeast, MaxRate, Measure, FirstWithB, Threshold, Prune, Select, Steady, AtPass, TuneFrom;
    var f := (q: P) => if q == p then Rates(1.0, 1.0) else Failed;
    OneIsSteady(measure, f, p);
    PruningSound(measure, f, candidates, sizes, 0.5, 0);
    OnlySurvivorsMatter(f, candidates, 0.0);
    MaxRateMeaning(f, candidates);
    var i :| 0 <= i < |candidates| && candidates[i] == p;
    var k := SelectMeaning(f, candidates);
  }

  lemma OneIsSteady<P(!new)>(measure: Callback<P>, f: P -> Measurement, p: P)
    requires forall q :: f(q) == if q == p then Rates(1.0, 1.0) else Failed
    requires forall pass, size, q :: measure(pass, size, q) == f(q)
    ensures Steady(measure, f, 0.5)
  {
  }

  lemma SteadyPass<P(!new)>(measure: Callback<P>, f: P -> Measurement, ratio: real, pass: nat, size: nat)
    requires Steady(measure, f, ratio)
    ensures forall p :: AtPass(measure, pass, size)(p) == f(p)
  {
  }

  lemma SteadyPrunes<P(!new)>(measure: Callback<P>, f: P -> Measurement, candidates: seq<P>, ratio: real)
    requires Steady(measure, f, ratio) && ratio >= 0.0 && Survivors(f, candidates) != []
    ensures Select(f, Prune(f, candidates, ratio)) == Select(f, candidates)
  {
    hide Survivors, AtLeast, MaxRate, Measure, FirstWithB, Threshold, Prune, Select;
    SelectPruned(f, candidates, ratio);
  }

  lemma NobodySurvives<P>(f: P -> Measurement, candidates: seq<P>)
    requires Survivors(f, candidates) == []
    ensures Select(f, candidates) == TuneError
  {
    hide Survivors, MaxRate, Measure, FirstWithB;
    OnlySurvivorsMatter(f, candidates, 0.0);
  }

  lemma SameOutcome<P>(g: P -> Measurement, f: P -> Measurement, candidates: seq<P>, ratio: real)
    requires forall p :: p in candidates ==> g(p) == f(p)
    ensures Prune(g, candidates, ratio) == Prune(f, candidates, ratio)
    ensures Select(g, candidates) == Select(f, candidates)
  {
    hide Survivors, AtLeast, MaxRate, Measure, FirstWithB, Threshold;
    SameMeasurements(g, f, candidates);
    var best := MaxRate(Measure(f, candidates));
    if best.Some? {
      SameAtLeast(g, f, candidates, Threshold(ratio, best.value));
      SameFirst(g, f, Survivors(f, candidates), best.value);
    }
  }

  lemma {:induction false} SameMeasurements<P>(g: P -> Measurement, f: P -> Measurement, candidates: seq<P>)
    requires forall p :: p in candidates ==> g(p) == f(p)
    ensures Survivors(g, candidates) == Survivors(f, candidates)
    ensures Measure(g, candidates) == Measure(f, candidates)
  {
    if candidates != [] {
      SameMeasurements(g, f, candidates[..|candidates| - 1]);
    }
  }

  lemma {:induction false} SameAtLeast<P>(g: P -> Measurement, f: P -> Measurement, candidates: seq<P>, bound: real)
    requires forall p :: p in candidates ==> g(p) == f(p)
    ensures AtLeast(g, candidates, bound) == AtLeast(f, candidates, bound)
  {
    if candidates != [] {
      SameAtLeast(g, f, candidates[..|candidates| - 1], bound);
    }
  }

  lemma {:induction false} SameFirst<P>(g: P -> Measurement, f: P -> Measurement, candidates: seq<P>, goal: real)
    requires forall p :: p in candidates ==> g(p) == f(p)
    ensures FirstWithB(g, candidates, goal) == FirstWithB(f, candidates, goal)
  {
    if candidates != [] {
      SameFirst(g, f, candidates[1..], goal);
    }
  }

  /** One pruning step leaves the choice alone. */
  lemma SelectPruned<P(!new)>(f: P -> Measurement, candidates: seq<P>, ratio: real)
    requires Survivors(f, candidates) != [] && ratio >= 0.0
    requires forall p :: f(p).Rates? ==> f(p).a <= f(p).b && Threshold(ratio, f(p).b) <= f(p).a
    ensures Select(f, Prune(f, candidates, ratio)) == Select(f, candidates)
  {
    hide FirstWithB, AtLeast, MaxRate, Measure, Survivors, Threshold;
    OnlySurvivorsMatter(f, candidates, 0.0);
    MaxRateMeaning(f, candidates);
    var best := MaxRate(Measure(f, candidates)).value;
    var bound := Threshold(ratio, best);
    var i :| 0 <= i < |candidates| && f(candidates[i]).Rates? && f(candidates[i]).a == best;
    ThresholdMono(ratio, best, f(candidates[i]).b);
    PruneKeepsMax(f, candidates, bound);
    forall p | p in candidates && f(p).Rates? && f(p).b >= best
      ensures f(p).a >= bound
    {
      ThresholdMono(ratio, best, f(p).b);
    }
    PruneKeepsFirst(f, candidates, bound, best);
    SurvivorsKeepFirst(f, candidates, best);
    SurvivorsKeepFirst(f, Prune(f, candidates, ratio), best);
  }

  lemma ThresholdMono(ratio: real, x: real, y: real)
    requires ratio >= 0.0 && x <= y
    ensures Threshold(ratio, x) <= Threshold(ratio, y)
  {
    MulMono(x, y, ratio);
  }

  /** All callers return B = A or B = 1.05 A with the default ratio of one half
      (src/radixsort.cpp:599, src/scan.cpp:241, src/reduce.cpp:145), which is close enough if A is not negative. */
  lemma CallersAreClose(a: real, b: real)
    requires a >= 0.0 && (b == a || b == a * 1.05)
    ensures a <= b && Threshold(0.5, b) <= a
  {
  }
}

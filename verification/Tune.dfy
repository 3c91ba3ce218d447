/** The autotuner's selection loop (src/tune.cpp:105-182). Candidates are timed on growing problem sizes;
    slow ones are pruned after each size but the last, where the first candidate that is good enough wins. */
module Tune {
  import opened Buffers

  /** What one run of the callback yields: a pair of rates with A <= B, or a failure. An exception and a
      NaN rate both count as failure. */
  datatype Measurement = Failed | Rates(a: real, b: real)

  /** measure(pass, size, candidate): the timings may be different in every pass. */
  type Callback<!P> = (nat, nat, P) -> Measurement

  /** assert(r.first <= r.second) in the loop. */
  ghost predicate RatesOrdered<P(!new)>(measure: Callback<P>) {
    forall pass, size, p :: measure(pass, size, p).Rates? ==> measure(pass, size, p).a <= measure(pass, size, p).b
  }

  datatype Outcome<P> = Chosen(params: P) | TuneError | Disabled | Aborted

  // ---- one pass as functions on the list of candidates

  /** The candidates that did not fail. */
  function Survivors<P>(f: P -> Measurement, candidates: seq<P>): (r: seq<P>)
    ensures |r| <= |candidates|
    ensures forall i :: 0 <= i < |r| ==> r[i] in candidates && f(r[i]).Rates?
  {
    if candidates == [] then []
    else
      var n := |candidates| - 1;
      Survivors(f, candidates[..n]) + if f(candidates[n]).Rates? then [candidates[n]] else []
  }

  function Measure<P>(f: P -> Measurement, candidates: seq<P>): (r: seq<Measurement>)
    ensures |r| == |candidates|
    ensures forall i :: 0 <= i < |r| ==> r[i] == f(candidates[i])
  {
    seq(|candidates|, i requires 0 <= i < |candidates| => f(candidates[i]))
  }

  /** The largest A; None stands for minus infinity. */
  function MaxRate(results: seq<Measurement>): Option<real>
  {
    if results == [] then None
    else
      var n := |results| - 1;
      var best := MaxRate(results[..n]);
      match results[n]
      case Failed => best
      case Rates(a, _) => if best == None || a > best.value then Some(a) else best
  }

  function AtLeast<P>(f: P -> Measurement, candidates: seq<P>, bound: real): (r: seq<P>)
    ensures |r| <= |candidates|
    ensures forall i :: 0 <= i < |r| ==> r[i] in candidates && f(r[i]).Rates? && f(r[i]).a >= bound
  {
    if candidates == [] then []
    else
      var n := |candidates| - 1;
      AtLeast(f, candidates[..n], bound) +
      if f(candidates[n]).Rates? && f(candidates[n]).a >= bound then [candidates[n]] else []
  }

  /** The first candidate whose B reaches the bound. */
  function FirstWithB<P>(f: P -> Measurement, candidates: seq<P>, bound: real): (r: Option<P>)
    ensures r.Some? ==> r.value in candidates && f(r.value).Rates? && f(r.value).b >= bound
  {
    if candidates == [] then None
    else if f(candidates[0]).Rates? && f(candidates[0]).b >= bound then Some(candidates[0])
    else FirstWithB(f, candidates[1..], bound)
  }

  function Threshold(ratio: real, best: real): real {
    ratio * best
  }

  /** The pruned list of one pass. */
  function Prune<P>(f: P -> Measurement, candidates: seq<P>, ratio: real): (r: seq<P>)
    ensures forall i :: 0 <= i < |r| ==> r[i] in candidates
  {
    var best := MaxRate(Measure(f, candidates));
    if best == None then [] else AtLeast(f, candidates, Threshold(ratio, best.value))
  }

  /** The choice of the last pass. */
  function Select<P>(f: P -> Measurement, candidates: seq<P>): Outcome<P> {
    var best := MaxRate(Measure(f, candidates));
    if best == None then TuneError
    else
      var first := FirstWithB(f, Survivors(f, candidates), best.value);
      if first == None then Aborted else Chosen(first.value)
  }

  function AtPass<P>(measure: Callback<P>, pass: nat, size: nat): P -> Measurement {
    p => measure(pass, size, p)
  }

  /** What the tuner computes from pass `pass` on. */
  function TuneFrom<P>(measure: Callback<P>, candidates: seq<P>, sizes: seq<nat>, ratio: real, pass: nat): Outcome<P>
    requires pass <= |sizes|
    decreases |sizes| - pass
  {
    if pass == |sizes| then Aborted
    else
      var f := AtPass(measure, pass, sizes[pass]);
      if Survivors(f, candidates) == [] then TuneError
      else if pass == |sizes| - 1 then Select(f, candidates)
      else TuneFrom(measure, Prune(f, candidates, ratio), sizes, ratio, pass + 1)
  }

  // ---- one more candidate

  lemma Snoc<P>(f: P -> Measurement, s: seq<P>, x: P, bound: real)
    ensures f(x).Rates? ==> Survivors(f, s + [x]) == Survivors(f, s) + [x]
    ensures f(x).Failed? ==> Survivors(f, s + [x]) == Survivors(f, s)
    ensures f(x).Rates? && f(x).a >= bound ==> AtLeast(f, s + [x], bound) == AtLeast(f, s, bound) + [x]
    ensures !(f(x).Rates? && f(x).a >= bound) ==> AtLeast(f, s + [x], bound) == AtLeast(f, s, bound)
    ensures MaxRate(Measure(f, s + [x])) == Better(MaxRate(Measure(f, s)), f(x))
  {
    var t := s + [x];
    assert t[..|t| - 1] == s;
    assert Measure(f, t)[..|t| - 1] == Measure(f, s);
  }

  function Better(best: Option<real>, m: Measurement): Option<real> {
    match m
    case Failed => best
    case Rates(a, _) => if best == None || a > best.value then Some(a) else best
  }

  /** Failures change neither the maximum nor what is kept. */
  lemma {:induction false} OnlySurvivorsMatter<P>(f: P -> Measurement, candidates: seq<P>, bound: real)
    ensures AtLeast(f, Survivors(f, candidates), bound) == AtLeast(f, candidates, bound)
    ensures MaxRate(Measure(f, Survivors(f, candidates))) == MaxRate(Measure(f, candidates))
    ensures Survivors(f, candidates) == [] <==> MaxRate(Measure(f, candidates)) == None
    ensures Survivors(f, Survivors(f, candidates)) == Survivors(f, candidates)
  {
    hide Survivors, AtLeast, MaxRate, Measure;
    if candidates == [] {
      NothingYet(f, bound);
    } else {
      var n := |candidates| - 1;
      OnlySurvivorsMatter(f, candidates[..n], bound);
      assert candidates == candidates[..n] + [candidates[n]];
      OneMore(f, candidates[..n], candidates[n], bound);
    }
  }

  lemma OneMore<P>(f: P -> Measurement, s: seq<P>, x: P, bound: real)
    requires AtLeast(f, Survivors(f, s), bound) == AtLeast(f, s, bound)
    requires MaxRate(Measure(f, Survivors(f, s))) == MaxRate(Measure(f, s))
    requires Survivors(f, s) == [] <==> MaxRate(Measure(f, s)) == None
    requires Survivors(f, Survivors(f, s)) == Survivors(f, s)
    ensures var c := s + [x];
            && AtLeast(f, Survivors(f, c), bound) == AtLeast(f, c, bound)
            && MaxRate(Measure(f, Survivors(f, c))) == MaxRate(Measure(f, c))
            && (Survivors(f, c) == [] <==> MaxRate(Measure(f, c)) == None)
            && Survivors(f, Survivors(f, c)) == Survivors(f, c)
  {
    hide Survivors, AtLeast, MaxRate, Measure;
    Snoc(f, s, x, bound);
    Snoc(f, Survivors(f, s), x, bound);
  }

  // ---- the loop

  /** Times all retained candidates; those that fail are dropped. */
  method MeasureAll<P>(measure: Callback<P>, pass: nat, size: nat, retained: seq<P>)
    returns (retained2: seq<P>, results: seq<Measurement>, maxA: Option<real>)
    ensures var f := AtPass(measure, pass, size);
            && retained2 == Survivors(f, retained) && results == Measure(f, retained2)
            && maxA == MaxRate(Measure(f, retained))
  {
    hide Survivors, AtLeast, MaxRate, Measure;
    ghost var f := AtPass(measure, pass, size);
    results, retained2, maxA := [], [], None;
    NothingYet(f, 0.0);
    for i := 0 to |retained|
      invariant retained2 == Survivors(f, retained[..i]) && results == Measure(f, retained2)
      invariant maxA == MaxRate(Measure(f, retained[..i]))
    {
      Snoc(f, retained[..i], retained[i], 0.0);
      assert retained[..i] + [retained[i]] == retained[..i + 1];
      var r := measure(pass, size, retained[i]);
      if r.Rates? {
        MeasureSnoc(f, retained2, retained[i]);
        retained2 := retained2 + [retained[i]];
        results := results + [r];
        if maxA == None || r.a > maxA.value {
          maxA := Some(r.a);
        }
      }
    }
    assert retained[..|retained|] == retained;
  }

  /** Keeps the candidates whose rate reaches the bound; the two sequences run in parallel. */
  method KeepFast<P>(retained: seq<P>, results: seq<Measurement>, bound: real, ghost f: P -> Measurement)
    returns (retained2: seq<P>)
    requires results == Measure(f, retained)
    requires forall i :: 0 <= i < |results| ==> results[i].Rates?
    ensures retained2 == AtLeast(f, retained, bound)
  {
    hide Survivors, AtLeast, MaxRate, Measure;
    retained2 := [];
    NothingYet(f, bound);
    for i := 0 to |results|
      invariant retained2 == AtLeast(f, retained[..i], bound)
    {
      Snoc(f, retained[..i], retained[i], bound);
      assert retained[..i] + [retained[i]] == retained[..i + 1];
      if results[i].a >= bound {
        retained2 := retained2 + [retained[i]];
      }
    }
    assert retained[..|retained|] == retained;
  }

  /** The first candidate whose B reaches the best A. */
  method PickFirst<P>(retained: seq<P>, results: seq<Measurement>, maxA: real, ghost f: P -> Measurement)
    returns (first: Option<P>)
    requires results == Measure(f, retained)
    requires forall i :: 0 <= i < |results| ==> results[i].Rates?
    ensures first == FirstWithB(f, retained, maxA)
  {
    hide FirstWithB, Measure;
    assert retained[0..] == retained;
    for i := 0 to |results|
      invariant FirstWithB(f, retained, maxA) == FirstWithB(f, retained[i..], maxA)
    {
      FirstStep(f, retained[i..], maxA);
      assert retained[i..][1..] == retained[i + 1..];
      if results[i].b >= maxA {
        return Some(retained[i]);
      }
    }
    FirstNone(f, retained[|retained|..], maxA);
    first := None;
  }

  method TuneOne<P>(enabled: bool, parameterSets: seq<P>, problemSizes: seq<nat>, measure: Callback<P>, ratio: real)
    returns (outcome: Outcome<P>)
    ensures outcome == if !enabled then Disabled else TuneFrom(measure, parameterSets, problemSizes, ratio, 0)
  {
    if !enabled {
      return Disabled;
    }
    hide Survivors, AtLeast, MaxRate, Measure, FirstWithB, Threshold, AtPass;
    var retained := parameterSets;
    for pass := 0 to |problemSizes|
      invariant TuneFrom(measure, parameterSets, problemSizes, ratio, 0) ==
                TuneFrom(measure, retained, problemSizes, ratio, pass)
    {
      ghost var f := AtPass(measure, pass, problemSizes[pass]);
      ghost var candidates := retained;
      var results, maxA;
      retained, results, maxA := MeasureAll(measure, pass, problemSizes[pass], retained);
      if retained == [] {
        return TuneError;
      }
      OnlySurvivorsMatter(f, candidates, 0.0);
      if pass < |problemSizes| - 1 {
        var bound := Threshold(ratio, maxA.value);
        OnlySurvivorsMatter(f, candidates, bound);
        retained := KeepFast(retained, results, bound, f);
      } else {
        var first := PickFirst(retained, results, maxA.value, f);
        if first.Some? {
          return Chosen(first.value);
        }
      }
    }
    outcome := Aborted;
  }

  lemma NothingYet<P>(f: P -> Measurement, bound: real)
    ensures Survivors(f, []) == [] && Measure(f, []) == [] && AtLeast(f, [], bound) == [] && MaxRate([]) == None
  {
  }

  lemma MeasureSnoc<P>(f: P -> Measurement, s: seq<P>, x: P)
    ensures Measure(f, s + [x]) == Measure(f, s) + [f(x)]
  {
  }

  lemma FirstStep<P>(f: P -> Measurement, s: seq<P>, bound: real)
    requires s != []
    ensures FirstWithB(f, s, bound) ==
            if f(s[0]).Rates? && f(s[0]).b >= bound then Some(s[0]) else FirstWithB(f, s[1..], bound)
  {
  }

  lemma FirstNone<P>(f: P -> Measurement, s: seq<P>, bound: real)
    requires s == []
    ensures FirstWithB(f, s, bound) == None
  {
  }
}

/** The generator of the sweep programs (src/radixsort.cpp:320-383): a small compiler from the radix and the slice
    size to the statement lists of UPSWEEP() and DOWNSWEEP(). */
module SweepGenerator {
  import opened Blocks
  import opened Sweep
  import opened SweepLevels

  lemma QuarterLevel(to: nat, k: nat)
    requires k >= 2
    ensures to * Pow2(k) == 4 * (to * Pow2(k - 2))
    ensures to * Pow2(k) / 4 == to * Pow2(k - 2)
  {
    assert Pow2(k) == 2 * Pow2(k - 1) == 4 * Pow2(k - 2);
    MulAssoc(to, 4, Pow2(k - 2));
    MulAssoc(4, to, Pow2(k - 2));
  }

  /** How many halvings separate two levels. */
  lemma Halvings(from: nat, to: nat, k: nat)
    requires to > 0 && from == to * Pow2(k)
    ensures k == 0 <==> from == to
    ensures k == 1 <==> from == to * 2
    ensures k >= 2 <==> from >= to * 4
  {
    if k == 0 {
      assert Pow2(0) == 1;
    } else if k == 1 {
      assert Pow2(1) == 2;
    } else {
      Pow2Mono(2, k);
      assert Pow2(2) == 4;
      MultiplesApart(4, Pow2(k), to);
    }
  }

  /** The levels are `left` halvings apart. */
  ghost predicate Apart(from: nat, to: nat, left: nat) {
    to > 0 && from == to * Pow2(left)
  }

  /** There is a quartering left to do, and it is a step of the cascade. */
  lemma QuarterNext(from: nat, to: nat, left: nat)
    requires Apart(from, to, left) && from >= to * 4
    ensures left >= 2 && Apart(from / 4, to, left - 2) && Reduces(Four(from / 4, from == 4), from)
  {
    Halvings(from, to, left);
    QuarterLevel(to, left);
    hide Pow2;
    ProductPositive(to, Pow2(left - 2));
  }

  /** Otherwise there is one halving left, or none. */
  lemma HalfNext(from: nat, to: nat, left: nat)
    requires Apart(from, to, left) && from < to * 4
    ensures if from == to * 2 then left == 1 && from / 2 == to && Reduces(Two(from / 2, from == 2), from)
            else left == 0 && from == to
  {
    Halvings(from, to, left);
  }

  /** The statement lists hold one upsweep and one downsweep statement for each step taken. */
  ghost predicate Emitted(up: seq<Statement>, down: seq<Statement>, steps: seq<Step>) {
    && |up| == |down| == |steps|
    && forall i :: 0 <= i < |steps| ==> up[i] == Up(steps[i]) && down[i] == Down(steps[i])
  }

  lemma EmitOne(up: seq<Statement>, down: seq<Statement>, steps: seq<Step>, step: Step)
    requires Emitted(up, down, steps)
    ensures Emitted(up + [Up(step)], down + [Down(step)], steps + [step])
  {
  }

  /** How many steps it takes to halve k times: quartering as often as possible, then halving at most once. */
  function StageLength(k: nat): nat {
    k / 2 + k % 2
  }

  /** From step `at` on the list quarters as often as k halvings allow and then halves if one is left. */
  ghost predicate StageKinds(steps: seq<Step>, at: nat, k: nat) {
    && at + StageLength(k) <= |steps|
    && (forall j | at <= j < at + k / 2 :: steps[j].Four?)
    && (k % 2 == 1 ==> steps[at + k / 2].Two?)
  }

  lemma KindsStay(steps: seq<Step>, more: seq<Step>, at: nat, k: nat)
    requires StageKinds(steps, at, k) && steps <= more
    ensures StageKinds(more, at, k)
  {
    assert forall j | 0 <= j < |steps| :: more[j] == steps[j];
  }

  /** Extends the lists by the statements that lead from the level of `start` sums to the level of `to`
      sums: division by four while that is possible, then by two if one factor of two is left. It
      lands exactly on `to`. */
  method GenerateStage(upsweep: seq<Statement>, downsweep: seq<Statement>, start: nat, to: nat, slice: nat,
                       ghost steps: seq<Step>, ghost k: nat)
    returns (up: seq<Statement>, down: seq<Statement>, ghost more: seq<Step>)
    requires to > 0 && k > 0 && start == to * Pow2(k)
    requires Emitted(upsweep, downsweep, steps) && steps != [] && Cascade(steps[1..], slice, start)
    ensures Emitted(up, down, more) && steps < more && Cascade(more[1..], slice, to)
    ensures |more| == |steps| + StageLength(k) && StageKinds(more, |steps|, k)
  {
    hide Emitted, Cascade, Pow2, Quartered, StageLength, StageKinds, Apart, Reduces;
    FarApart(start, to, k);
    up, down, more := upsweep, downsweep, steps;
    var from: nat := start;
    ghost var left: nat := k;
    NotYetQuartered(steps, k);
    while from >= to * 4
      invariant Apart(from, to, left)
      invariant Emitted(up, down, more) && steps <= more && Cascade(more[1..], slice, from)
      invariant left == k || steps < more
      invariant Quartered(steps, more, k, left)
      decreases left
    {
      QuarterNext(from, to, left);
      var quarter := from / 4;
      var forceZero := from == 4;
      EmitOne(up, down, more, Four(quarter, forceZero));
      up := up + [Upsweep4(quarter, quarter, quarter)];
      down := down + [Downsweep4(quarter, quarter, quarter, forceZero)];
      QuarteredOnce(steps, more, k, left, Four(quarter, forceZero));
      more := TakeStep(more, slice, from, Four(quarter, forceZero));
      from := quarter;
      left := left - 2;
    }
    HalfNext(from, to, left);
    ghost var fours := more;
    if from == to * 2 {
      var half := from / 2;
      var forceZero := from == 2;
      EmitOne(up, down, more, Two(half, forceZero));
      up := up + [Upsweep2(half, half, half)];
      down := down + [Downsweep2(half, half, half, forceZero)];
      more := TakeStep(more, slice, from, Two(half, forceZero));
      HalvedOnce(steps, fours, k, left, Two(half, forceZero));
    } else {
      NotHalved(steps, fours, k, left);
    }
  }

  lemma FarApart(from: nat, to: nat, k: nat)
    requires to > 0 && from == to * Pow2(k)
    ensures Apart(from, to, k)
  {
  }

  /** All but `left` of the halvings have been done, by quartering. */
  ghost predicate Quartered(steps: seq<Step>, more: seq<Step>, k: nat, left: nat) {
    && left % 2 == k % 2 && left <= k && |more| == |steps| + (k - left) / 2
    && forall j | |steps| <= j < |more| :: more[j].Four?
  }

  lemma NotYetQuartered(steps: seq<Step>, k: nat)
    ensures Quartered(steps, steps, k, k)
  {
  }

  lemma QuarteredOnce(steps: seq<Step>, more: seq<Step>, k: nat, left: nat, step: Step)
    requires Quartered(steps, more, k, left) && left >= 2 && step.Four?
    ensures Quartered(steps, more + [step], k, left - 2)
  {
  }

  lemma HalvedOnce(steps: seq<Step>, fours: seq<Step>, k: nat, left: nat, step: Step)
    requires Quartered(steps, fours, k, left) && left == 1 && step.Two?
    ensures |fours + [step]| == |steps| + StageLength(k) && StageKinds(fours + [step], |steps|, k)
  {
  }

  lemma NotHalved(steps: seq<Step>, fours: seq<Step>, k: nat, left: nat)
    requires Quartered(steps, fours, k, left) && left == 0
    ensures |fours| == |steps| + StageLength(k) && StageKinds(fours, |steps|, k)
  {
  }

  lemma TakeStep(steps: seq<Step>, slice: nat, from: nat, step: Step) returns (more: seq<Step>)
    requires steps != [] && Cascade(steps[1..], slice, from) && Reduces(step, from)
    ensures more == steps + [step] && Cascade(more[1..], slice, step.to)
  {
    more := steps + [step];
    CascadeSnoc(steps[1..], slice, from, step);
    assert more[1..] == steps[1..] + [step];
  }

  /** The levels at which the cascade has to stop, smallest first. */
  method SweepStops(radixBits: nat, warpSizeSchedule: nat) returns (stops: seq<nat>, ghost halvings: seq<nat>)
    requires radixBits >= 1 && IsPow2(warpSizeSchedule)
    ensures var radix, slice := Pow2(radixBits), Max(warpSizeSchedule, Pow2(radixBits));
            && slice > 1
            && stops == (if slice > radix then [1, radix, slice, slice * radix] else [1, radix, slice * radix])
            && |halvings| == |stops| - 2 && halvings[0] == radixBits
            && forall i :: 0 <= i < |halvings| ==>
                 halvings[i] > 0 && stops[i] < slice && stops[i + 1] == stops[i] * Pow2(halvings[i])
  {
    var radix := Pow2(radixBits);
    var scatterSlice := Max(warpSizeSchedule, radix);
    stops := [1, radix];
    halvings := [radixBits];
    if scatterSlice > radix {
      ghost var w := WiderWarp(radixBits, warpSizeSchedule);
      stops := stops + [scatterSlice];
      halvings := halvings + [w];
    }
    stops := stops + [scatterSlice * radix];
  }

  lemma WiderWarp(radixBits: nat, warp: nat) returns (halvings: nat)
    requires IsPow2(warp) && warp > Pow2(radixBits)
    ensures halvings > 0 && warp == Pow2(radixBits) * Pow2(halvings)
  {
    var w: nat :| w < warp && Pow2(w) == warp;
    Pow2Reflects(radixBits, w);
    halvings := w - radixBits;
    Pow2Add(radixBits, halvings);
  }

  /** Emits the statement lists, the downsweep in the order in which it is emitted (last first). For every
      radix and every power-of-two warp size, the program computes the exclusive prefix sums; it stops at
      the radix, where the counts of the digits and of the smaller digits appear. */
  method GenerateSweep(radixBits: nat, warpSizeSchedule: nat)
    returns (upsweep: seq<Statement>, downsweep: seq<Statement>, ghost steps: seq<Step>)
    requires radixBits >= 1 && IsPow2(warpSizeSchedule)
    ensures var radix, slice := Pow2(radixBits), Max(warpSizeSchedule, Pow2(radixBits));
            && SweepSteps(steps, radix, slice)
            && upsweep == Ups(steps) && downsweep == Downs(steps) && StopsAt(steps, slice, radix)
            && ComputesScan(upsweep + downsweep, radix, slice)
            && ComputesCounts(upsweep, downsweep, radix, slice)
    ensures exists k: nat :: Max(warpSizeSchedule, Pow2(radixBits)) == Pow2(radixBits) * Pow2(k)
                             && Stages(steps, k, radixBits)
  {
    hide StageKinds, StageLength, ComputesScan, ComputesCounts, StopsAt, Emitted, Cascade, Pow2, IsPow2, Ups, Downs;
    var radix := Pow2(radixBits);
    var scatterSlice := Max(warpSizeSchedule, radix);
    var stops;
    ghost var halvings;
    stops, halvings := SweepStops(radixBits, warpSizeSchedule);
    var downStmts: seq<Statement> := [];
    upsweep, steps := [], [];
    NothingEmitted();
    ghost var wider := if |stops| == 4 then halvings[1] else 0;
    if |stops| == 4 {
      assert stops[1 + 1] == stops[1] * Pow2(halvings[1]);
    }
    WiderBy(radix, scatterSlice, wider, stops);
    var i := |stops| - 2;
    while i >= 0
      invariant -1 <= i <= |stops| - 2
      invariant Emitted(upsweep, downStmts, steps)
      invariant i == |stops| - 2 ==> steps == []
      invariant i < |stops| - 2 ==>
                  steps != [] && steps[0] == Multi(scatterSlice * radix, scatterSlice) &&
                  Cascade(steps[1..], scatterSlice, stops[i + 1])
      invariant i < |stops| - 3 ==> |steps| >= 2
      invariant i < 1 ==> StopsAt(steps, scatterSlice, radix)
      invariant i == |stops| - 3 ==> |steps| == 1
      invariant i == 0 ==> |steps| == 1 + StageLength(wider) && StageKinds(steps, 1, wider)
      invariant i < 0 ==> Stages(steps, wider, radixBits)
    {
      ghost var before := steps;
      var from, to := stops[i + 1], stops[i];
      if to >= scatterSlice {
        EmitOne(upsweep, downStmts, steps, Multi(from, to));
        upsweep := upsweep + [UpsweepMulti(to, from, to)];
        downStmts := downStmts + [DownsweepMulti(to, from, to)];
        steps := steps + [Multi(from, to)];
        EmptyCascade(scatterSlice);
        assert steps[1..] == [];
      } else {
        upsweep, downStmts, steps := GenerateStage(upsweep, downStmts, from, to, scatterSlice, steps, halvings[i]);
      }
      if i == 1 {
        StopsHere(steps, scatterSlice, radix);
        NoStage(steps, 1);
      } else if i == 0 {
        StillStops(before, steps, scatterSlice, radix);
        KindsStay(before, steps, 1, wider);
      }
      i := i - 1;
    }
    downsweep := [];
    i := |downStmts| - 1;
    while i >= 0
      invariant -1 <= i <= |downStmts| - 1
      invariant |downsweep| == |downStmts| - 1 - i
      invariant forall j :: 0 <= j < |downsweep| ==> downsweep[j] == downStmts[|downStmts| - 1 - j]
    {
      downsweep := downsweep + [downStmts[i]];
      i := i - 1;
    }
    EmittedIs(upsweep, downStmts, downsweep, steps);
    StepsComputeScan(steps, radix, scatterSlice);
    StepsComputeCounts(steps, radix, scatterSlice);
  }

  /** The steps are one to a sum for each work item, those of the k halvings to the radix, and those of the radix. */
  ghost predicate Stages(steps: seq<Step>, k: nat, radixBits: nat) {
    && |steps| == 1 + StageLength(k) + StageLength(radixBits) && steps[0].Multi?
    && StageKinds(steps, 1, k) && StageKinds(steps, 1 + StageLength(k), radixBits)
  }

  lemma WiderBy(radix: nat, slice: nat, wider: nat, stops: seq<nat>)
    requires if |stops| == 4 then slice == radix * Pow2(wider) else wider == 0 && slice == radix
    ensures slice == radix * Pow2(wider)
  {
  }

  lemma NoStage(steps: seq<Step>, at: nat)
    requires at <= |steps|
    ensures StageLength(0) == 0 && StageKinds(steps, at, 0)
  {
  }

  lemma StopsHere(steps: seq<Step>, slice: nat, radix: nat)
    requires steps != [] && Cascade(steps[1..], slice, radix)
    ensures StopsAt(steps, slice, radix)
  {
    assert LevelAt(steps[1..], slice, |steps| - 1) == radix;
  }

  lemma StillStops(before: seq<Step>, steps: seq<Step>, slice: nat, radix: nat)
    requires StopsAt(before, slice, radix) && before <= steps
    ensures StopsAt(steps, slice, radix)
  {
    var i: nat :| i < |before| && LevelAt(before[1..], slice, i) == radix;
    assert LevelAt(steps[1..], slice, i) == radix;
  }

  lemma NothingEmitted()
    ensures Emitted([], [], [])
  {
  }

  lemma EmptyCascade(n: nat)
    ensures Cascade([], n, n)
  {
  }

  lemma EmittedIs(up: seq<Statement>, down: seq<Statement>, reversed: seq<Statement>, steps: seq<Step>)
    requires Emitted(up, down, steps) && |reversed| == |down|
    requires forall j :: 0 <= j < |reversed| ==> reversed[j] == down[|down| - 1 - j]
    ensures up == Ups(steps) && reversed == Downs(steps)
  {
  }
}

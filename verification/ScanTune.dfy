/** Candidate generation and the three tuning steps of the scan (src/scan.cpp:244-364). All candidates
    come from doubling loops, so every tuned size is a power of two: that is what makes the block size
    a multiple of the tiles of both kernels. */
module ScanTune {
  import opened Blocks
  import opened Scan
  import Tune
  import TuneProperties

  /** Local memory is counted in elements. */
  datatype Device = Device(maxWorkGroupSize: nat, localMemElements: nat, warpSizeMem: nat, warpSizeSchedule: nat)

  function Even(x: nat): (r: nat)
    ensures r % 2 == 0 && r <= x < r + 2
  {
    x - x % 2
  }

  predicate PowersOfTwo(p: Parameters) {
    IsPow2(p.reduceWorkGroupSize) && IsPow2(p.scanWorkGroupSize) && IsPow2(p.scanWorkScale)
  }

  // ---- step 1: reduction work-group size

  function ForReduce(cand: Parameters, sizes: seq<nat>): (sets: seq<Parameters>)
    ensures |sets| == |sizes|
  {
    seq(|sizes|, i requires 0 <= i < |sizes| => cand.(reduceWorkGroupSize := sizes[i]))
  }

  method ReduceCandidates(cand: Parameters, maxWorkGroupSize: nat) returns (sets: seq<Parameters>)
    ensures sets == ForReduce(cand, Doubling(1, maxWorkGroupSize))
  {
    sets := [];
    var size := 1;
    ghost var done: seq<nat> := [];
    while size <= maxWorkGroupSize
      invariant size > 0 && done + Doubling(size, maxWorkGroupSize) == Doubling(1, maxWorkGroupSize)
      invariant sets == ForReduce(cand, done)
      decreases maxWorkGroupSize + 1 - size
    {
      assert done + Doubling(size, maxWorkGroupSize) == (done + [size]) + Doubling(size * 2, maxWorkGroupSize);
      sets := sets + [cand.(reduceWorkGroupSize := size)];
      done := done + [size];
      size := size * 2;
    }
    assert done + [] == done;
  }

  // ---- step 2: scan work-group size and scale

  function ForScales(cand: Parameters, size: nat, scales: seq<nat>): (sets: seq<Parameters>)
    ensures |sets| == |scales|
  {
    seq(|scales|, i requires 0 <= i < |scales| => cand.(scanWorkGroupSize := size, scanWorkScale := scales[i]))
  }

  /** The largest scale for a work-group size. */
  function MaxScale(device: Device, size: nat): nat
    requires size > 0
  {
    Min(Quot(device.localMemElements, size), 16)
  }

  /** The candidates of the doublings of `size`. */
  function ForScan(cand: Parameters, device: Device, size: nat): seq<Parameters>
    requires size > 0
    decreases if size <= device.maxWorkGroupSize then device.maxWorkGroupSize - size + 1 else 0
  {
    if size > device.maxWorkGroupSize then []
    else ForScales(cand, size, Doubling(1, MaxScale(device, size))) + ForScan(cand, device, size * 2)
  }

  method ScaleCandidates(cand: Parameters, size: nat, maxScale: nat) returns (sets: seq<Parameters>)
    ensures sets == ForScales(cand, size, Doubling(1, maxScale))
  {
    sets := [];
    var scale := 1;
    ghost var done: seq<nat> := [];
    while scale <= maxScale
      invariant scale > 0 && done + Doubling(scale, maxScale) == Doubling(1, maxScale)
      invariant sets == ForScales(cand, size, done)
      decreases if scale <= maxScale then maxScale - scale + 1 else 0
    {
      assert done + Doubling(scale, maxScale) == (done + [scale]) + Doubling(scale * 2, maxScale);
      sets := sets + [cand.(scanWorkGroupSize := size, scanWorkScale := scale)];
      done := done + [scale];
      scale := scale * 2;
    }
    assert done + [] == done;
  }

  lemma ForScanStep(cand: Parameters, device: Device, size: nat)
    requires size > 0
    ensures ForScan(cand, device, size) ==
            if size > device.maxWorkGroupSize then []
            else ForScales(cand, size, Doubling(1, MaxScale(device, size))) + ForScan(cand, device, size * 2)
  {
  }

  method ScanCandidates(cand: Parameters, device: Device) returns (sets: seq<Parameters>)
    ensures sets == ForScan(cand, device, 1)
  {
    hide ForScan, ForScales, Doubling;
    sets := [];
    var size := 1;
    while size <= device.maxWorkGroupSize
      invariant size > 0
      invariant sets + ForScan(cand, device, size) == ForScan(cand, device, 1)
      decreases device.maxWorkGroupSize + 1 - size
    {
      var maxScale := Min(device.localMemElements / size, 16);
      var more := ScaleCandidates(cand, size, maxScale);
      ForScanStep(cand, device, size);
      assert sets + (more + ForScan(cand, device, size * 2)) == (sets + more) + ForScan(cand, device, size * 2);
      sets := sets + more;
      size := size * 2;
    }
    ForScanStep(cand, device, size);
  }

  ghost predicate IsScanCandidate(p: Parameters, cand: Parameters) {
    && p == cand.(scanWorkGroupSize := p.scanWorkGroupSize, scanWorkScale := p.scanWorkScale)
    && IsPow2(p.scanWorkGroupSize) && IsPow2(p.scanWorkScale)
  }

  lemma {:induction false} ScanShaped(cand: Parameters, device: Device, size: nat)
    requires size > 0 && IsPow2(size)
    ensures forall p | p in ForScan(cand, device, size) :: IsScanCandidate(p, cand)
    decreases if size <= device.maxWorkGroupSize then device.maxWorkGroupSize - size + 1 else 0
  {
    hide IsPow2, Doubling;
    if size <= device.maxWorkGroupSize {
      OneIsPow2();
      DoublingPow2(1, MaxScale(device, size));
      Pow2Double(size);
      ScanShaped(cand, device, size * 2);
    }
  }

  // ---- step 3: number of blocks

  function ForBlocks(cand: Parameters, counts: seq<nat>): (sets: seq<Parameters>)
    ensures |sets| == |counts|
  {
    seq(|counts|, i requires 0 <= i < |counts| => cand.(scanBlocks := counts[i]))
  }

  method BlockCandidates(cand: Parameters, maxBlocks: nat) returns (sets: seq<Parameters>)
    ensures sets == ForBlocks(cand, Doubling(2, maxBlocks))
  {
    sets := [];
    var blocks := 2;
    ghost var done: seq<nat> := [];
    while blocks <= maxBlocks
      invariant blocks > 0 && done + Doubling(blocks, maxBlocks) == Doubling(2, maxBlocks)
      invariant sets == ForBlocks(cand, done)
      decreases if blocks <= maxBlocks then maxBlocks - blocks + 1 else 0
    {
      assert done + Doubling(blocks, maxBlocks) == (done + [blocks]) + Doubling(blocks * 2, maxBlocks);
      sets := sets + [cand.(scanBlocks := blocks)];
      done := done + [blocks];
      blocks := blocks * 2;
    }
    assert done + [] == done;
  }

  // ---- all three steps

  function MaxBlocks(device: Device): (blocks: nat)
    ensures blocks % 2 == 0 && blocks <= 2 * device.maxWorkGroupSize && blocks <= device.localMemElements
    ensures blocks + 2 > 2 * device.maxWorkGroupSize || blocks + 2 > device.localMemElements
  {
    Even(Min(2 * device.maxWorkGroupSize, device.localMemElements))
  }

  /** The parameters before any of them is tuned. */
  function StartParameters(device: Device): (p: Parameters)
    ensures p.scanBlocks % 2 == 0 && p.scanBlocks >= 2
    ensures MaxBlocks(device) >= 4 ==> 2 * p.scanBlocks <= MaxBlocks(device) < 2 * p.scanBlocks + 4
    ensures MaxBlocks(device) < 4 ==> p.scanBlocks == 2
  {
    Parameters(device.warpSizeMem, device.warpSizeSchedule, 0, 1, 1, Even(Max(2, MaxBlocks(device) / 2)))
  }

  type Timing = Tune.Callback<Parameters>

  /** The candidates of the first step. */
  function FirstSets(device: Device): seq<Parameters> {
    ForReduce(StartParameters(device), Doubling(1, device.maxWorkGroupSize))
  }

  /** The candidates of the third step. */
  function ThirdSets(device: Device, second: Parameters): seq<Parameters> {
    ForBlocks(second, Doubling(2, MaxBlocks(device)))
  }

  /** The outcome of the three selections, each starting from what the one before has chosen. */
  ghost predicate Selected(device: Device, sizes: seq<nat>, reduce: Timing, scan: Timing, blocks: Timing,
                           outcome: Tune.Outcome<Parameters>)
  {
    var first := Tune.TuneFrom(reduce, FirstSets(device), sizes, 0.5, 0);
    if !first.Chosen? then outcome == first
    else
      var second := Tune.TuneFrom(scan, ForScan(first.params, device, 1), sizes, 0.5, 0);
      if !second.Chosen? then outcome == second
      else outcome == Tune.TuneFrom(blocks, ThirdSets(device, second.params), sizes, 0.5, 0)
  }

  lemma ReduceShaped(cand: Parameters, sizes: seq<nat>, p: Parameters)
    requires p in ForReduce(cand, sizes) && forall i | 0 <= i < |sizes| :: IsPow2(sizes[i])
    ensures p == cand.(reduceWorkGroupSize := p.reduceWorkGroupSize) && IsPow2(p.reduceWorkGroupSize)
  {
  }

  lemma BlocksShaped(cand: Parameters, maxBlocks: nat, p: Parameters)
    requires p in ForBlocks(cand, Doubling(2, maxBlocks))
    ensures p == cand.(scanBlocks := p.scanBlocks) && IsPow2(p.scanBlocks)
    ensures p.scanBlocks > 0 && p.scanBlocks % 2 == 0 && p.scanBlocks <= maxBlocks
  {
    hide IsPow2, Doubling, Pow2;
    OneIsPow2();
    Pow2Double(1);
    DoublingPow2(2, maxBlocks);
    DoublingMultiples(2, maxBlocks, 2);
    DoublingMeaning(2, maxBlocks);
    var i :| 0 <= i < |Doubling(2, maxBlocks)| && p == cand.(scanBlocks := Doubling(2, maxBlocks)[i]);
  }

  /** Whatever the timings: chosen parameters are admissible, their sizes are powers of two, and the block sums
      fit into local memory and a work-group's doubled size. */
  lemma TunedIsAdmissible(device: Device, sizes: seq<nat>, reduce: Timing, scan: Timing, blocks: Timing,
                          outcome: Tune.Outcome<Parameters>)
    requires sizes != [] && Selected(device, sizes, reduce, scan, blocks, outcome) && outcome.Chosen?
    ensures var p := outcome.params;
            && Admissible(p) && PowersOfTwo(p) && IsPow2(p.scanBlocks)
            && p.scanBlocks <= 2 * device.maxWorkGroupSize && p.scanBlocks <= device.localMemElements
  {
    hide IsPow2, Doubling, ForReduce, ForScan, ForBlocks;
    var sets1 := ForReduce(StartParameters(device), Doubling(1, device.maxWorkGroupSize));
    var first := Tune.TuneFrom(reduce, sets1, sizes, 0.5, 0).params;
    TuneProperties.ChosenSucceeded(reduce, sets1, sizes, 0.5, 0, 0);
    OneIsPow2();
    DoublingPow2(1, device.maxWorkGroupSize);
    ReduceShaped(StartParameters(device), Doubling(1, device.maxWorkGroupSize), first);
    var sets2 := ForScan(first, device, 1);
    var second := Tune.TuneFrom(scan, sets2, sizes, 0.5, 0).params;
    TuneProperties.ChosenSucceeded(scan, sets2, sizes, 0.5, 0, 0);
    ScanShaped(first, device, 1);
    assert IsScanCandidate(second, first);
    var sets3 := ForBlocks(second, Doubling(2, MaxBlocks(device)));
    TuneProperties.ChosenSucceeded(blocks, sets3, sizes, 0.5, 0, 0);
    BlocksShaped(second, MaxBlocks(device), outcome.params);
    Pow2Positive(first.reduceWorkGroupSize);
    Pow2Positive(second.scanWorkGroupSize);
    Pow2Positive(second.scanWorkScale);
  }

  // ---- exactly which parameters can come out

  /** The first step tries exactly the powers of two up to the largest work-group, smallest first. */
  lemma FirstExactly(device: Device, p: Parameters)
    ensures p in FirstSets(device) <==>
            && p == Parameters(device.warpSizeMem, device.warpSizeSchedule, p.reduceWorkGroupSize, 1, 1,
                               StartParameters(device).scanBlocks)
            && p.reduceWorkGroupSize <= device.maxWorkGroupSize && IsDoubled(1, p.reduceWorkGroupSize)
  {
    var start := StartParameters(device);
    assert start == Parameters(device.warpSizeMem, device.warpSizeSchedule, 0, 1, 1, start.scanBlocks);
    hide Doubling, StartParameters, IsDoubled;
    var sizes := Doubling(1, device.maxWorkGroupSize);
    DoublingExactly(1, device.maxWorkGroupSize, p.reduceWorkGroupSize);
    if p == start.(reduceWorkGroupSize := p.reduceWorkGroupSize) && p.reduceWorkGroupSize in sizes {
      var i: nat :| i < |sizes| && sizes[i] == p.reduceWorkGroupSize;
      assert FirstSets(device)[i] == p;
    }
  }

  lemma FirstAscends(device: Device, i: nat, j: nat)
    requires i < j < |FirstSets(device)|
    ensures FirstSets(device)[i].reduceWorkGroupSize < FirstSets(device)[j].reduceWorkGroupSize
  {
    hide Doubling, StartParameters;
    DoublingAscends(1, device.maxWorkGroupSize, i, j);
  }

  lemma ScalesExactly(cand: Parameters, size: nat, scales: seq<nat>, p: Parameters)
    ensures p in ForScales(cand, size, scales) <==>
            p.scanWorkScale in scales && p == cand.(scanWorkGroupSize := size, scanWorkScale := p.scanWorkScale)
  {
    if p.scanWorkScale in scales && p == cand.(scanWorkGroupSize := size, scanWorkScale := p.scanWorkScale) {
      var i: nat :| i < |scales| && scales[i] == p.scanWorkScale;
      assert ForScales(cand, size, scales)[i] == p;
    }
  }

  lemma {:induction false} ScanIn(cand: Parameters, device: Device, size: nat, p: Parameters)
    requires size > 0
    ensures p in ForScan(cand, device, size) <==>
            && p == cand.(scanWorkGroupSize := p.scanWorkGroupSize, scanWorkScale := p.scanWorkScale)
            && p.scanWorkGroupSize > 0 && p.scanWorkGroupSize in Doubling(size, device.maxWorkGroupSize)
            && p.scanWorkScale in Doubling(1, MaxScale(device, p.scanWorkGroupSize))
    decreases if size <= device.maxWorkGroupSize then device.maxWorkGroupSize - size + 1 else 0
  {
    hide ForScales, MaxScale;
    if size <= device.maxWorkGroupSize {
      ScanIn(cand, device, size * 2, p);
      ScalesExactly(cand, size, Doubling(1, MaxScale(device, size)), p);
    }
  }

  /** A scale is small enough exactly if it is at most 16 and its tile fits into local memory. */
  lemma MaxScaleExactly(device: Device, size: nat, scale: nat)
    requires size > 0
    ensures scale <= MaxScale(device, size) <==> scale <= 16 && scale * size <= device.localMemElements
  {
    MultiplesApart(scale, Quot(device.localMemElements, size), size);
    MultiplesApart(Quot(device.localMemElements, size) + 1, scale, size);
  }

  /** The second step tries exactly the powers of two as sizes and scales, scales up to 16 and as large as local
      memory allows. */
  lemma SecondExactly(device: Device, first: Parameters, p: Parameters)
    ensures p in ForScan(first, device, 1) <==>
            && p == first.(scanWorkGroupSize := p.scanWorkGroupSize, scanWorkScale := p.scanWorkScale)
            && p.scanWorkGroupSize <= device.maxWorkGroupSize && IsDoubled(1, p.scanWorkGroupSize)
            && p.scanWorkScale <= 16 && p.scanWorkScale * p.scanWorkGroupSize <= device.localMemElements
            && IsDoubled(1, p.scanWorkScale)
  {
    hide ForScan, MaxScale, Doubling, IsDoubled;
    ScanIn(first, device, 1, p);
    DoublingExactly(1, device.maxWorkGroupSize, p.scanWorkGroupSize);
    if IsDoubled(1, p.scanWorkGroupSize) {
      DoubledPositive(1, p.scanWorkGroupSize);
      DoublingExactly(1, MaxScale(device, p.scanWorkGroupSize), p.scanWorkScale);
      MaxScaleExactly(device, p.scanWorkGroupSize, p.scanWorkScale);
    }
  }

  lemma DoubledPositive(start: nat, x: nat)
    requires start > 0 && IsDoubled(start, x)
    ensures x > 0
  {
    var k: nat :| x == start * Pow2(k);
    ProductPositive(start, Pow2(k));
  }

  /** It tries smaller work-groups first, and of one size the smaller scales. */
  lemma {:induction false} ScanAscends(cand: Parameters, device: Device, size: nat, i: nat, j: nat)
    requires size > 0 && i < j < |ForScan(cand, device, size)|
    ensures var p, q := ForScan(cand, device, size)[i], ForScan(cand, device, size)[j];
            p.scanWorkGroupSize < q.scanWorkGroupSize
            || (p.scanWorkGroupSize == q.scanWorkGroupSize && p.scanWorkScale < q.scanWorkScale)
    decreases if size <= device.maxWorkGroupSize then device.maxWorkGroupSize - size + 1 else 0
  {
    hide MaxScale, Doubling;
    var here := ForScales(cand, size, Doubling(1, MaxScale(device, size)));
    var rest := ForScan(cand, device, size * 2);
    assert ForScan(cand, device, size) == here + rest;
    if i >= |here| {
      ScanAscends(cand, device, size * 2, i - |here|, j - |here|);
    } else if j >= |here| {
      var q := rest[j - |here|];
      assert q in rest;
      ScanIn(cand, device, size * 2, q);
      DoublingAtLeast(size * 2, device.maxWorkGroupSize, q.scanWorkGroupSize);
    } else {
      DoublingAscends(1, MaxScale(device, size), i, j);
    }
  }

  /** The third step tries exactly the powers of two from two on that do not exceed twice the largest work-group and
      for which local memory has room, smallest first. */
  lemma ThirdExactly(device: Device, second: Parameters, p: Parameters)
    ensures p in ThirdSets(device, second) <==>
            && p == second.(scanBlocks := p.scanBlocks) && IsDoubled(2, p.scanBlocks)
            && p.scanBlocks <= 2 * device.maxWorkGroupSize && p.scanBlocks <= device.localMemElements
  {
    hide Doubling, MaxBlocks, IsDoubled;
    var counts := Doubling(2, MaxBlocks(device));
    DoublingExactly(2, MaxBlocks(device), p.scanBlocks);
    if IsDoubled(2, p.scanBlocks) {
      DoubledEven(p.scanBlocks);
      EvenFits(device, p.scanBlocks);
    }
    if p == second.(scanBlocks := p.scanBlocks) && p.scanBlocks in counts {
      var i: nat :| i < |counts| && counts[i] == p.scanBlocks;
      assert ThirdSets(device, second)[i] == p;
    }
  }

  lemma EvenFits(device: Device, x: nat)
    requires x % 2 == 0
    ensures x <= MaxBlocks(device) <==> x <= 2 * device.maxWorkGroupSize && x <= device.localMemElements
  {
    hide MaxBlocks;
  }

  lemma DoubledEven(x: nat)
    requires IsDoubled(2, x)
    ensures x % 2 == 0
  {
  }

  lemma ThirdAscends(device: Device, second: Parameters, i: nat, j: nat)
    requires i < j < |ThirdSets(device, second)|
    ensures ThirdSets(device, second)[i].scanBlocks < ThirdSets(device, second)[j].scanBlocks
  {
    hide Doubling, MaxBlocks;
    DoublingAscends(2, MaxBlocks(device), i, j);
  }

  /** Everything tuning can return, whatever is measured. */
  ghost predicate Tunable(device: Device, p: Parameters) {
    && p.warpSizeMem == device.warpSizeMem && p.warpSizeSchedule == device.warpSizeSchedule
    && p.reduceWorkGroupSize <= device.maxWorkGroupSize && IsDoubled(1, p.reduceWorkGroupSize)
    && p.scanWorkGroupSize <= device.maxWorkGroupSize && IsDoubled(1, p.scanWorkGroupSize)
    && p.scanWorkScale <= 16 && p.scanWorkScale * p.scanWorkGroupSize <= device.localMemElements
    && IsDoubled(1, p.scanWorkScale)
    && p.scanBlocks <= 2 * device.maxWorkGroupSize && p.scanBlocks <= device.localMemElements
    && IsDoubled(2, p.scanBlocks)
  }

  /** What tuning can return: for which parameters there are measurements that end in them. */
  ghost predicate CanBeTuned(device: Device, sizes: seq<nat>, p: Parameters) {
    exists reduce: Timing, scan: Timing, blocks: Timing ::
      Selected(device, sizes, reduce, scan, blocks, Tune.Chosen(p))
  }

  /** Timings in which only one candidate succeeds. */
  function Favour(p: Parameters): Timing {
    (pass: nat, size: nat, q: Parameters) => if q == p then Tune.Rates(1.0, 1.0) else Tune.Failed
  }

  /** Exactly which parameters tuning can return. */
  lemma TunedExactly(device: Device, sizes: seq<nat>, p: Parameters)
    requires sizes != []
    ensures CanBeTuned(device, sizes, p) <==> Tunable(device, p)
  {
    hide CanBeTuned, Tunable;
    if CanBeTuned(device, sizes, p) {
      TunedIsTunable(device, sizes, p);
    }
    if Tunable(device, p) {
      TunableIsTuned(device, sizes, p);
    }
  }

  lemma TunedIsTunable(device: Device, sizes: seq<nat>, p: Parameters)
    requires sizes != [] && CanBeTuned(device, sizes, p)
    ensures Tunable(device, p)
  {
    hide FirstSets, ForScan, ThirdSets, IsDoubled, Tune.TuneFrom;
    var reduce: Timing, scan: Timing, blocks: Timing :| Selected(device, sizes, reduce, scan, blocks, Tune.Chosen(p));
    TuneProperties.ChosenSucceeded(reduce, FirstSets(device), sizes, 0.5, 0, 0);
    var first := Tune.TuneFrom(reduce, FirstSets(device), sizes, 0.5, 0).params;
    TuneProperties.ChosenSucceeded(scan, ForScan(first, device, 1), sizes, 0.5, 0, 0);
    var second := Tune.TuneFrom(scan, ForScan(first, device, 1), sizes, 0.5, 0).params;
    TuneProperties.ChosenSucceeded(blocks, ThirdSets(device, second), sizes, 0.5, 0, 0);
    FirstExactly(device, first);
    SecondExactly(device, first, second);
    ThirdExactly(device, second, p);
  }

  lemma TunableIsTuned(device: Device, sizes: seq<nat>, p: Parameters)
    requires sizes != [] && Tunable(device, p)
    ensures CanBeTuned(device, sizes, p)
  {
    hide FirstSets, ForScan, ThirdSets, IsDoubled, Tune.TuneFrom;
    var first := Parameters(device.warpSizeMem, device.warpSizeSchedule, p.reduceWorkGroupSize, 1, 1,
                            StartParameters(device).scanBlocks);
    var second := first.(scanWorkGroupSize := p.scanWorkGroupSize, scanWorkScale := p.scanWorkScale);
    FirstExactly(device, first);
    SecondExactly(device, first, second);
    ThirdExactly(device, second, p);
    TuneProperties.OnlyOneChosen(Favour(first), FirstSets(device), sizes, first);
    TuneProperties.OnlyOneChosen(Favour(second), ForScan(first, device, 1), sizes, second);
    TuneProperties.OnlyOneChosen(Favour(p), ThirdSets(device, second), sizes, p);
    assert Selected(device, sizes, Favour(first), Favour(second), Favour(p), Tune.Chosen(p));
  }

  lemma Pow2Positive(x: nat)
    requires IsPow2(x)
    ensures x > 0
  {
  }

  method TuneScan(device: Device, enabled: bool, problemSizes: seq<nat>,
                  measureReduce: Timing, measureScan: Timing, measureBlocks: Timing)
    returns (outcome: Tune.Outcome<Parameters>)
    requires problemSizes != []
    ensures !enabled ==> outcome == Tune.Disabled
    ensures enabled ==> Selected(device, problemSizes, measureReduce, measureScan, measureBlocks, outcome)
    ensures enabled && outcome.Chosen? ==> Tunable(device, outcome.params)
  {
    hide Tunable, CanBeTuned, Doubling, ForReduce, ForScan, ForBlocks;
    if !enabled {
      return Tune.Disabled;
    }
    var maxBlocks := Even(Min(2 * device.maxWorkGroupSize, device.localMemElements));
    var startBlocks := Even(Max(2, maxBlocks / 2));
    var cand := Parameters(device.warpSizeMem, device.warpSizeSchedule, 0, 1, 1, startBlocks);
    var sets := ReduceCandidates(cand, device.maxWorkGroupSize);
    outcome := Tune.TuneOne(enabled, sets, problemSizes, measureReduce, 0.5);
    if outcome.Chosen? {
      cand := outcome.params;
      sets := ScanCandidates(cand, device);
      outcome := Tune.TuneOne(enabled, sets, problemSizes, measureScan, 0.5);
      if outcome.Chosen? {
        cand := outcome.params;
        sets := BlockCandidates(cand, maxBlocks);
        outcome := Tune.TuneOne(enabled, sets, problemSizes, measureBlocks, 0.5);
      }
    }
    if outcome.Chosen? {
      WasTuned(device, problemSizes, measureReduce, measureScan, measureBlocks, outcome.params);
      TunedIsTunable(device, problemSizes, outcome.params);
    }
  }

  lemma WasTuned(device: Device, sizes: seq<nat>, reduce: Timing, scan: Timing, blocks: Timing, p: Parameters)
    requires Selected(device, sizes, reduce, scan, blocks, Tune.Chosen(p))
    ensures CanBeTuned(device, sizes, p)
  {
    hide Selected;
  }
}

/** Why bytes are enough: tuning bounds scatterWorkScale by 255 / scatterSlice
    (src/radixsort.cpp:680), so the counters of a tile never add up to more than 255 and the wrapping
    byte program goes through exactly the states of the unbounded one. */
module SweepBytes {
  import opened Blocks
  import opened Sums
  import opened Sweep
  import opened SweepLevels

  /** Both arithmetics go through the same memory states. */
  predicate SameRun(program: seq<Statement>, m: Memory) {
    program == [] ||
    (Exec(Byte, program[0], m) == Exec(Unbounded, program[0], m) && SameRun(program[1..], Exec(Unbounded, program[0], m)))
  }

  lemma {:induction false} SameRunAppend(a: seq<Statement>, b: seq<Statement>, m: Memory)
    requires SameRun(a, m) && SameRun(b, Run(Unbounded, a, m))
    ensures SameRun(a + b, m)
  {
    if a == [] {
      assert a + b == b;
    } else {
      assert (a + b)[1..] == a[1..] + b;
      SameRunAppend(a[1..], b, Exec(Unbounded, a[0], m));
    }
  }

  /** In particular after any number of statements. */
  lemma {:induction false} SameStates(program: seq<Statement>, m: Memory, j: nat)
    requires SameRun(program, m) && j <= |program|
    ensures Run(Byte, program[..j], m) == Run(Unbounded, program[..j], m)
  {
    if j > 0 {
      assert program[..j][1..] == program[1..][..j - 1];
      SameStates(program[1..], Exec(Unbounded, program[0], m), j - 1);
    }
  }

  /** With a small total, being the byte scan and being the unbounded scan is the same. */
  lemma ScansAgree(data: seq<nat>, r: seq<nat>)
    requires Sum(data) <= 255
    ensures IsScan(Byte, data, r) <==> IsScan(Unbounded, data, r)
  {
    forall i | 0 <= i < |data|
      ensures PrefixSum(Byte, data, i) == PrefixSum(Unbounded, data, i)
    {
      SumPrefixBound(data, i);
    }
  }

  lemma UpDataAgrees(data: seq<nat>, factor: nat, to: nat)
    requires to * factor == |data| && Sum(data) <= 255
    ensures UpData(Byte, data, factor, to) == UpData(Unbounded, data, factor, to)
    ensures Sum(UpData(Unbounded, data, factor, to)) == Sum(data)
  {
    hide Accumulate, Group, Sum;
    forall k | 0 <= k < to
      ensures Accumulate(Byte, 0, Group(data, factor, k)) == Accumulate(Unbounded, 0, Group(data, factor, k))
    {
      MultiplesApart(k + 1, to, factor);
      GroupAgrees(data, factor, k);
    }
    UpDataTotal(data, factor, to);
  }

  lemma GroupAgrees(data: seq<nat>, factor: nat, k: nat)
    requires (k + 1) * factor <= |data| && Sum(data) <= 255
    ensures Accumulate(Byte, 0, Group(data, factor, k)) == Accumulate(Unbounded, 0, Group(data, factor, k))
  {
    hide Accumulate, Group, Sum;
    GroupSum(Byte, data, factor, k);
    GroupSum(Unbounded, data, factor, k);
    SumPrefixBound(data, (k + 1) * factor);
  }

  lemma UpDataTotal(data: seq<nat>, factor: nat, to: nat)
    requires to * factor == |data|
    ensures Sum(UpData(Unbounded, data, factor, to)) == Sum(data)
  {
    hide Accumulate, Group, Sum;
    var sums := UpData(Unbounded, data, factor, to);
    GroupPrefix(Unbounded, data, factor, sums, to);
    SumWhole(sums);
    SumWhole(data);
  }

  lemma DownDataAgrees(data: seq<nat>, factor: nat, to: nat, scanned: seq<nat>, forceZero: bool)
    requires factor > 0 && to * factor == |data| && |scanned| == to && Sum(data) <= 255
    requires if forceZero then to == 1 else IsScan(Unbounded, UpData(Unbounded, data, factor, to), scanned)
    ensures DownData(Byte, data, scanned, factor, forceZero) == DownData(Unbounded, data, scanned, factor, forceZero)
  {
    UpDataAgrees(data, factor, to);
    ScansAgree(UpData(Unbounded, data, factor, to), scanned);
    LevelScan(Byte, data, factor, to, scanned, forceZero);
    LevelScan(Unbounded, data, factor, to, scanned, forceZero);
    ScansAgree(data, DownData(Byte, data, scanned, factor, forceZero));
  }

  /** The program of a list of steps as its first upsweep, the rest, and its first downsweep. */
  lemma SameRunUnfold(steps: seq<Step>, m: Memory)
    requires steps != []
    requires var m1 := Exec(Unbounded, Up(steps[0]), m);
             var inner := Ups(steps[1..]) + Downs(steps[1..]);
             var m2 := Run(Unbounded, inner, m1);
             && Exec(Byte, Up(steps[0]), m) == m1 && SameRun(inner, m1)
             && Exec(Byte, Down(steps[0]), m2) == Exec(Unbounded, Down(steps[0]), m2)
    ensures SameRun(Ups(steps) + Downs(steps), m)
  {
    var m1 := Exec(Unbounded, Up(steps[0]), m);
    var inner := Ups(steps[1..]) + Downs(steps[1..]);
    var down := [Down(steps[0])];
    assert Ups(steps) + Downs(steps) == [Up(steps[0])] + (inner + down);
    SameRunOne(Down(steps[0]), Run(Unbounded, inner, m1));
    SameRunAppend(inner, down, m1);
    SameRunOne(Up(steps[0]), m);
    RunOne(Unbounded, Up(steps[0]), m);
    SameRunAppend([Up(steps[0])], inner + down, m);
  }

  lemma SameRunOne(st: Statement, m: Memory)
    requires Exec(Byte, st, m) == Exec(Unbounded, st, m)
    ensures SameRun([st], m)
  {
  }

  lemma {:induction false} CascadeSame(steps: seq<Step>, from: nat, m: Memory)
    requires Cascade(steps, from, 1) && steps != [] && 2 * from <= |m.level2|
    requires Sum(Level(m, from)) <= 255
    ensures SameRun(Ups(steps) + Downs(steps), m)
    decreases |steps|
  {
    hide Run, Exec, UpData, DownData, IsScan, Cascade, Ups, Downs, SameRun, Sum;
    var step, rest := steps[0], steps[1..];
    var data := Level(m, from);
    CascadeTail(steps, from, 1);
    var m1 := Exec(Unbounded, Up(step), m);
    var m2 := Run(Unbounded, Ups(rest) + Downs(rest), m1);
    StepSame(step, from, m);
    UpEffect(Unbounded, step, from, m);
    UpDataAgrees(data, Factor(step), step.to);
    InnerScan(Unbounded, rest, step.to, m1);
    if rest != [] {
      CascadeSame(rest, step.to, m1);
      CascadeScans(Unbounded, rest, step.to, m1);
    } else {
      NothingToRun(rest, m1);
    }
    SameLevel(m, m2, 2 * step.to, from);
    DownDataAgrees(data, Factor(step), step.to, Level(m2, step.to), step.forceZero);
    StepSameDown(step, from, m2);
    SameRunUnfold(steps, m);
  }

  lemma NothingToRun(steps: seq<Step>, m: Memory)
    requires steps == []
    ensures SameRun(Ups(steps) + Downs(steps), m)
  {
  }

  lemma StepSame(step: Step, from: nat, m: Memory)
    requires Reduces(step, from) && 2 * from <= |m.level2| && Sum(Level(m, from)) <= 255
    ensures Exec(Byte, Up(step), m) == Exec(Unbounded, Up(step), m)
  {
    hide Exec, UpData, Sum, Factor, Reduces, Overwrite, Up;
    FactorTimes(step, from);
    UpDataAgrees(Level(m, from), Factor(step), step.to);
    assert m.level2[from..from + from] == Level(m, from);
    StepExec(Byte, step, from, m);
    StepExec(Unbounded, step, from, m);
  }

  lemma StepSameDown(step: Step, from: nat, m: Memory)
    requires Reduces(step, from) && 2 * from <= |m.level2|
    requires DownData(Byte, Level(m, from), Level(m, step.to), Factor(step), step.forceZero) ==
             DownData(Unbounded, Level(m, from), Level(m, step.to), Factor(step), step.forceZero)
    ensures Exec(Byte, Down(step), m) == Exec(Unbounded, Down(step), m)
  {
    StepExec(Byte, step, from, m);
    StepExec(Unbounded, step, from, m);
    hide Exec, DownData, Factor, Reduces;
    assert m.level2[from..from + from] == Level(m, from);
    assert m.level2[step.to..step.to + step.to] == Level(m, step.to);
  }

  /** If the counters add up to at most 255, no intermediate state of the whole program differs between
      bytes and unbounded integers. */
  lemma SweepSame(steps: seq<Step>, radix: nat, slice: nat, m: Memory)
    requires SweepSteps(steps, radix, slice) && SliceMemory(m, radix, slice)
    requires Sum(m.level1) <= 255
    ensures SameRun(Ups(steps) + Downs(steps), m)
  {
    hide Run, Exec, UpData, DownData, IsScan, Cascade, Ups, Downs, SameRun, Sum;
    var rest := steps[1..];
    var data := m.level1;
    var m1 := Exec(Unbounded, Up(steps[0]), m);
    var m2 := Run(Unbounded, Ups(rest) + Downs(rest), m1);
    UpDataAgrees(data, radix, slice);
    MultiExec(Byte, radix, slice, m);
    MultiExec(Unbounded, radix, slice, m);
    assert Level(m1, slice) == UpData(Unbounded, data, radix, slice);
    CascadeSame(rest, slice, m1);
    CascadeScans(Unbounded, rest, slice, m1);
    DownDataAgrees(data, radix, slice, Level(m2, slice), false);
    MultiExec(Byte, radix, slice, m2);
    MultiExec(Unbounded, radix, slice, m2);
    SameRunUnfold(steps, m);
  }

  /** A tile holds scatterWorkScale keys for each of the scatterSlice work items, and each key is counted
      once; the tuner's bound on the scale keeps the total within a byte. */
  lemma TileFitsByte(scatterSlice: nat, scatterWorkScale: nat)
    requires scatterSlice > 0 && scatterWorkScale <= 255 / scatterSlice
    ensures scatterSlice * scatterWorkScale <= 255
  {
    MultiplesApart(scatterWorkScale, 255 / scatterSlice, scatterSlice);
    Commute(scatterSlice, scatterWorkScale);
    DivTimes(255, scatterSlice);
  }

  /** Hence on every tile, after every statement, the bytes hold the unbounded values. */
  lemma TileSweepExact(steps: seq<Step>, radix: nat, slice: nat, m: Memory, scatterWorkScale: nat, j: nat)
    requires SweepSteps(steps, radix, slice) && SliceMemory(m, radix, slice)
    requires scatterWorkScale <= 255 / slice && Sum(m.level1) <= slice * scatterWorkScale
    requires j <= |Ups(steps) + Downs(steps)|
    ensures var program := Ups(steps) + Downs(steps);
            Run(Byte, program[..j], m) == Run(Unbounded, program[..j], m)
  {
    TileFitsByte(slice, scatterWorkScale);
    SweepSame(steps, radix, slice, m);
    SameStates(Ups(steps) + Downs(steps), m, j);
  }

  /** In particular, the counts the kernel reads at the radix stop are the true ones. */
  lemma TileCountsExact(steps: seq<Step>, radix: nat, slice: nat, m: Memory, scatterWorkScale: nat)
    requires SweepSteps(steps, radix, slice) && SliceMemory(m, radix, slice)
    requires StopsAt(steps, slice, radix) && radix > 1
    requires scatterWorkScale <= 255 / slice && Sum(m.level1) <= slice * scatterWorkScale
    ensures CountsDigits(Unbounded, m, Run(Byte, Ups(steps), m), radix, slice)
    ensures CountsSmaller(Unbounded, m, Run(Byte, Ups(steps) + Downs(steps), m), radix, slice)
  {
    hide SweepSteps, SliceMemory, StopsAt, CountsDigits, CountsSmaller, Run, Sum;
    var up, program := Ups(steps), Ups(steps) + Downs(steps);
    TileSweepExact(steps, radix, slice, m, scatterWorkScale, |up|);
    TileSweepExact(steps, radix, slice, m, scatterWorkScale, |program|);
    assert program[..|up|] == up && program[..|program|] == program;
    RadixLevel(Unbounded, steps, radix, slice, m);
  }

  lemma SliceNonEmpty(m: Memory, radix: nat, slice: nat)
    requires SliceMemory(m, radix, slice) && radix > 0 && slice > 0
    ensures |m.level1| > 0
  {
    ProductPositive(slice, radix);
  }

  /** Exactly when the byte program returns the true prefix sums: all counters but the last add up to
      at most 255. */
  lemma ByteSweepExactly(steps: seq<Step>, radix: nat, slice: nat, m: Memory)
    requires SweepSteps(steps, radix, slice) && SliceMemory(m, radix, slice)
    ensures |m.level1| > 0
    ensures var r := Run(Byte, Ups(steps) + Downs(steps), m).level1;
            IsScan(Unbounded, m.level1, r) <==> Sum(m.level1[..|m.level1| - 1]) <= 255
  {
    hide Run, Ups, Downs;
    SliceNonEmpty(m, radix, slice);
    var r := Run(Byte, Ups(steps) + Downs(steps), m).level1;
    var last := |m.level1| - 1;
    SweepScans(Byte, steps, radix, slice, m);
    if Sum(m.level1[..last]) <= 255 {
      forall i | 0 <= i < |m.level1|
        ensures PrefixSum(Byte, m.level1, i) == PrefixSum(Unbounded, m.level1, i)
      {
        assert m.level1[..last][..i] == m.level1[..i];
        SumPrefixBound(m.level1[..last], i);
      }
    } else {
      assert r[last] == PrefixSum(Byte, m.level1, last) < 256;
    }
  }
}

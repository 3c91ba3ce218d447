/** What the levels of partial sums hold on the way. The cascade stops at the radix because the kernel reads the
    counts of the digits there between the two sweeps, and the counts of the smaller digits afterwards
    (kernels/radixsort.cl:811-827). */
module SweepLevels {
  import opened Blocks
  import opened Sums
  import opened Sweep

  /** The sums of the first n groups of the counters. */
  function GroupSums(ar: Arithmetic, data: seq<nat>, factor: nat, n: nat): (sums: seq<nat>)
    ensures |sums| == n
    ensures forall k :: 0 <= k < n ==> sums[k] == Fit(ar, Sum(Group(data, factor, k)))
  {
    seq(n, k requires 0 <= k < n => Fit(ar, Sum(Group(data, factor, k))))
  }

  lemma UpDataIs(ar: Arithmetic, data: seq<nat>, factor: nat, n: nat)
    ensures UpData(ar, data, factor, n) == GroupSums(ar, data, factor, n)
  {
    hide Accumulate, Group, Sum;
    forall k | 0 <= k < n ensures Accumulate(ar, 0, Group(data, factor, k)) == Fit(ar, Sum(Group(data, factor, k))) {
      AccumulateIs(ar, 0, Group(data, factor, k));
    }
  }

  /** Where group k starts. */
  function GroupBegin(factor: nat, k: nat): nat {
    k * factor
  }

  lemma StartsAscend(factor: nat, j: nat, k: nat)
    requires j <= k
    ensures GroupBegin(factor, j) <= GroupBegin(factor, k)
  {
    MultiplesApart(j, k, factor);
  }

  lemma GroupIs(data: seq<nat>, factor: nat, k: nat)
    requires GroupBegin(factor, k + 1) <= |data|
    ensures GroupBegin(factor, k) <= GroupBegin(factor, k + 1)
    ensures Group(data, factor, k) == data[GroupBegin(factor, k)..GroupBegin(factor, k + 1)]
  {
    MultiplesApart(k, k + 1, factor);
  }

  /** Adding up group sums is adding up the groups. */
  lemma {:induction false} SumOfGroups(ar: Arithmetic, data: seq<nat>, factor: nat, n: nat, a: nat, b: nat)
    requires a <= b <= n && GroupBegin(factor, n) == |data|
    ensures GroupBegin(factor, a) <= GroupBegin(factor, b) <= |data|
    ensures Fit(ar, Sum(GroupSums(ar, data, factor, n)[a..b])) ==
            Fit(ar, Sum(data[GroupBegin(factor, a)..GroupBegin(factor, b)]))
    decreases b
  {
    hide Sum, Fit, Group, GroupBegin;
    StartsAscend(factor, a, b);
    StartsAscend(factor, b, n);
    if a == b {
      assert GroupSums(ar, data, factor, n)[a..b] == [] == data[GroupBegin(factor, a)..GroupBegin(factor, b)];
    } else {
      SumOfGroups(ar, data, factor, n, a, b - 1);
      GroupIs(data, factor, b - 1);
      OneMoreGroup(ar, GroupSums(ar, data, factor, n), data, a, b - 1,
                   GroupBegin(factor, a), GroupBegin(factor, b - 1), GroupBegin(factor, b));
    }
  }

  lemma OneMoreGroup(ar: Arithmetic, sums: seq<nat>, data: seq<nat>, a: nat, b: nat, lo: nat, mid: nat, hi: nat)
    requires a <= b < |sums| && lo <= mid <= hi <= |data|
    requires Fit(ar, Sum(sums[a..b])) == Fit(ar, Sum(data[lo..mid])) && sums[b] == Fit(ar, Sum(data[mid..hi]))
    ensures Fit(ar, Sum(sums[a..b + 1])) == Fit(ar, Sum(data[lo..hi]))
  {
    hide Sum, Fit;
    assert sums[a..b + 1] == sums[a..b] + [sums[b]];
    SumAppendOne(sums[a..b], sums[b]);
    assert data[lo..hi] == data[lo..mid] + data[mid..hi];
    SumAppend(data[lo..mid], data[mid..hi]);
    FitBoth(ar, Sum(sums[a..b]), Sum(data[lo..mid]), Sum(data[mid..hi]));
  }

  lemma SumAppendOne(s: seq<nat>, x: nat)
    ensures Sum(s + [x]) == Sum(s) + x
  {
    assert (s + [x])[..|s|] == s;
  }

  lemma StartOfStart(f: nat, g: nat, k: nat)
    ensures GroupBegin(f, GroupBegin(g, k)) == GroupBegin(g * f, k)
  {
    MulAssoc(k, g, f);
  }

  lemma GroupOfGroups(ar: Arithmetic, data: seq<nat>, f: nat, n: nat, g: nat, k: nat, j: nat)
    requires GroupBegin(f, n) == |data| && GroupBegin(g, k) == n && j < k
    ensures Fit(ar, Sum(Group(GroupSums(ar, data, f, n), g, j))) == Fit(ar, Sum(Group(data, g * f, j)))
  {
    hide Sum, Fit, Group, GroupSums, GroupBegin;
    StartsAscend(g, j, j + 1);
    StartsAscend(g, j + 1, k);
    SumOfGroups(ar, data, f, n, GroupBegin(g, j), GroupBegin(g, j + 1));
    StartOfStart(f, g, j);
    StartOfStart(f, g, j + 1);
    GroupIs(GroupSums(ar, data, f, n), g, j);
    GroupIs(data, g * f, j);
  }

  /** Groups of group sums are sums of larger groups. */
  lemma GroupsOfGroups(ar: Arithmetic, data: seq<nat>, f: nat, n: nat, g: nat, k: nat)
    requires n * f == |data| && k * g == n
    ensures GroupSums(ar, GroupSums(ar, data, f, n), g, k) == GroupSums(ar, data, g * f, k)
  {
    hide Sum, Fit, Group;
    forall j | 0 <= j < k
      ensures Fit(ar, Sum(Group(GroupSums(ar, data, f, n), g, j))) == Fit(ar, Sum(Group(data, g * f, j)))
    {
      GroupOfGroups(ar, data, f, n, g, k, j);
    }
  }

  /** The level of n partial sums holds the sums of n equal groups of the counters. */
  ghost predicate HoldsSums(ar: Arithmetic, data: seq<nat>, m: Memory, n: nat, factor: nat) {
    n > 0 && n * factor == |data| && 2 * n <= |m.level2| && Level(m, n) == GroupSums(ar, data, factor, n)
  }

  /** It holds what comes before each of these groups. */
  ghost predicate HoldsOffsets(ar: Arithmetic, data: seq<nat>, m: Memory, n: nat, factor: nat) {
    && n > 0 && n * factor == |data| && 2 * n <= |m.level2|
    && forall k :: 0 <= k < n ==> Level(m, n)[k] == Before(ar, data, factor, k)
  }

  /** The sum of everything before group k. */
  function Before(ar: Arithmetic, data: seq<nat>, factor: nat, k: nat): nat {
    if k * factor <= |data| then PrefixSum(ar, data, k * factor) else 0
  }

  /** One upsweep step passes the group sums on to the next level. */
  lemma SumsPassedOn(ar: Arithmetic, step: Step, from: nat, data: seq<nat>, factor: nat, m: Memory)
    requires Reduces(step, from) && HoldsSums(ar, data, m, from, factor)
    ensures HoldsSums(ar, data, Exec(ar, Up(step), m), step.to, Factor(step) * factor)
  {
    hide Exec, UpData, GroupSums;
    UpEffect(ar, step, from, m);
    FactorTimes(step, from);
    UpDataIs(ar, Level(m, from), Factor(step), step.to);
    GroupsOfGroups(ar, data, factor, from, Factor(step), step.to);
    MulAssoc(step.to, Factor(step), factor);
  }

  /** The number of counters in each group of the level that step i reads. */
  function GroupSize(steps: seq<Step>, factor: nat, i: nat): nat
    requires i <= |steps|
  {
    if i == 0 then factor else GroupSize(steps[1..], Factor(steps[0]) * factor, i - 1)
  }

  lemma LevelNext(steps: seq<Step>, from: nat, i: nat)
    requires 0 < i <= |steps|
    ensures LevelAt(steps, from, i) == LevelAt(steps[1..], steps[0].to, i - 1)
  {
  }

  /** After the upsweep every level holds its group sums. */
  lemma {:induction false} UpsweepLevels(ar: Arithmetic, steps: seq<Step>, from: nat, data: seq<nat>, factor: nat,
                                         m: Memory, i: nat)
    requires Cascade(steps, from, 1) && i <= |steps| && HoldsSums(ar, data, m, from, factor)
    ensures var r := Run(ar, Ups(steps), m);
            && SameFrom(m, r, from)
            && HoldsSums(ar, data, r, LevelAt(steps, from, i), GroupSize(steps, factor, i))
    decreases |steps|
  {
    hide Exec, Cascade, HoldsSums, Reduces;
    if steps == [] {
    } else {
      var step, rest := steps[0], steps[1..];
      CascadeTail(steps, from, 1);
      assert Ups(steps)[0] == Up(step) && Ups(steps)[1..] == Ups(rest);
      HoldsLength(ar, data, m, from, factor);
      UpEffect(ar, step, from, m);
      SumsPassedOn(ar, step, from, data, factor, m);
      if i == 0 {
        UpsweepLevels(ar, rest, step.to, data, Factor(step) * factor, Exec(ar, Up(step), m), 0);
        SumsStay(ar, data, m, Run(ar, Ups(steps), m), from, factor);
      } else {
        UpsweepLevels(ar, rest, step.to, data, Factor(step) * factor, Exec(ar, Up(step), m), i - 1);
        LevelNext(steps, from, i);
      }
    }
  }

  lemma HoldsLength(ar: Arithmetic, data: seq<nat>, m: Memory, n: nat, factor: nat)
    requires HoldsSums(ar, data, m, n, factor)
    ensures 2 * n <= |m.level2|
  {
  }

  lemma SumsStay(ar: Arithmetic, data: seq<nat>, m: Memory, r: Memory, n: nat, factor: nat)
    requires HoldsSums(ar, data, m, n, factor) && SameFrom(m, r, n)
    ensures HoldsSums(ar, data, r, n, factor)
  {
    SameLevel(m, r, n, n);
  }

  /** After the whole program every level but the last holds what comes before its groups. */
  lemma {:induction false} ProgramLevels(ar: Arithmetic, steps: seq<Step>, from: nat, data: seq<nat>, factor: nat,
                                         m: Memory, i: nat)
    requires Cascade(steps, from, 1) && i < |steps| && HoldsSums(ar, data, m, from, factor)
    ensures var r := Run(ar, Ups(steps) + Downs(steps), m);
            HoldsOffsets(ar, data, r, LevelAt(steps, from, i), GroupSize(steps, factor, i))
    decreases |steps|
  {
    hide Exec, Run, Cascade, HoldsSums, HoldsOffsets, Reduces, Ups, Downs;
    HoldsLength(ar, data, m, from, factor);
    if i == 0 {
      CascadeScans(ar, steps, from, m);
      OffsetsOfSums(ar, data, m, Run(ar, Ups(steps) + Downs(steps), m), from, factor);
    } else {
      var step, rest := steps[0], steps[1..];
      CascadeTail(steps, from, 1);
      ProgramUnfold(ar, steps, m);
      UpEffect(ar, step, from, m);
      SumsPassedOn(ar, step, from, data, factor, m);
      var m1 := Exec(ar, Up(step), m);
      ProgramLevels(ar, rest, step.to, data, Factor(step) * factor, m1, i - 1);
      LevelNext(steps, from, i);
      var n := LevelAt(rest, step.to, i - 1);
      LevelsDescend(rest, step.to, i - 1);
      DownKeepsLower(ar, step, from, Run(ar, Ups(rest) + Downs(rest), m1), n);
      OffsetsStay(ar, data, Run(ar, Ups(rest) + Downs(rest), m1), Run(ar, Ups(steps) + Downs(steps), m), n,
                  GroupSize(rest, Factor(step) * factor, i - 1));
    }
  }

  lemma LevelsDescend(steps: seq<Step>, from: nat, i: nat)
    requires Cascade(steps, from, 1) && i <= |steps|
    ensures LevelAt(steps, from, i) <= from
  {
    if i > 0 {
      LevelsDisjoint(steps, from, 1, 0, i);
    }
  }

  /** The scan of group sums gives the sums before the groups. */
  lemma OffsetsOfSums(ar: Arithmetic, data: seq<nat>, m: Memory, r: Memory, n: nat, factor: nat)
    requires HoldsSums(ar, data, m, n, factor) && |r.level2| == |m.level2|
    requires IsScan(ar, Level(m, n), Level(r, n))
    ensures HoldsOffsets(ar, data, r, n, factor)
  {
    hide Sum, Group, Accumulate, Fit;
    UpDataIs(ar, data, factor, n);
    forall k | 0 <= k < n ensures Level(r, n)[k] == Before(ar, data, factor, k) {
      MultiplesApart(k, n, factor);
      GroupPrefix(ar, data, factor, Level(m, n), k);
    }
  }

  /** A downsweep step writes the level it fills and nothing below. */
  lemma DownKeepsLower(ar: Arithmetic, step: Step, from: nat, m: Memory, n: nat)
    requires Reduces(step, from) && 2 * from <= |m.level2| && n <= step.to
    ensures 2 * n <= |m.level2| && Level(Exec(ar, Down(step), m), n) == Level(m, n)
  {
    StepExec(ar, step, from, m);
    FactorTimes(step, from);
    hide Exec, DownData, Factor, Reduces;
  }

  lemma OffsetsStay(ar: Arithmetic, data: seq<nat>, m: Memory, r: Memory, n: nat, factor: nat)
    requires HoldsOffsets(ar, data, m, n, factor) && |r.level2| == |m.level2|
    requires Level(r, n) == Level(m, n)
    ensures HoldsOffsets(ar, data, r, n, factor)
  {
  }

  /** The cascade stops at the level of `radix` sums. */
  ghost predicate StopsAt(steps: seq<Step>, slice: nat, radix: nat) {
    steps != [] && exists i | 0 <= i < |steps| :: LevelAt(steps[1..], slice, i) == radix
  }

  /** The counters of digit d: one for each work item (kernels/radixsort.cl:805). */
  function Counters(level1: seq<nat>, slice: nat, d: nat): seq<nat> {
    Group(level1, slice, d)
  }

  /** After the upsweep, byte radix + d of level 2 is the count of digit d. */
  ghost predicate CountsDigits(ar: Arithmetic, m: Memory, up: Memory, radix: nat, slice: nat) {
    && 2 * radix <= |up.level2|
    && forall d :: 0 <= d < radix ==> up.level2[radix + d] == Fit(ar, Sum(Counters(m.level1, slice, d)))
  }

  /** After the whole program, it is the count of all smaller digits. */
  ghost predicate CountsSmaller(ar: Arithmetic, m: Memory, r: Memory, radix: nat, slice: nat) {
    && 2 * radix <= |r.level2|
    && forall d :: 0 <= d < radix ==> r.level2[radix + d] == Before(ar, m.level1, slice, d)
  }

  lemma SliceSums(ar: Arithmetic, radix: nat, slice: nat, m: Memory)
    requires radix > 0 && slice > 0 && SliceMemory(m, radix, slice)
    ensures HoldsSums(ar, m.level1, Exec(ar, Up(Multi(slice * radix, slice)), m), slice, radix)
  {
    MultiExec(ar, radix, slice, m);
    hide Exec, UpData, GroupSums;
    UpDataIs(ar, m.level1, radix, slice);
    var m1 := Exec(ar, Up(Multi(slice * radix, slice)), m);
    assert Level(m1, slice) == UpData(ar, m.level1, radix, slice);
  }

  /** The factor of a level is determined by its size. */
  lemma RadixGroups(radix: nat, slice: nat, factor: nat)
    requires radix > 0 && radix * factor == slice * radix
    ensures factor == slice
  {
    Commute(radix, factor);
    MultiplesApart(factor, slice, radix);
    MultiplesApart(slice, factor, radix);
  }

  /** The stop at the radix makes the counts of the digits, and later of the smaller digits, appear in level 2. */
  lemma RadixLevel(ar: Arithmetic, steps: seq<Step>, radix: nat, slice: nat, m: Memory)
    requires SweepSteps(steps, radix, slice) && SliceMemory(m, radix, slice)
    requires StopsAt(steps, slice, radix) && radix > 1
    ensures CountsDigits(ar, m, Run(ar, Ups(steps), m), radix, slice)
    ensures CountsSmaller(ar, m, Run(ar, Ups(steps) + Downs(steps), m), radix, slice)
  {
    hide Exec, Run, HoldsSums, HoldsOffsets, Cascade;
    var rest := steps[1..];
    var i: nat :| i < |steps| && LevelAt(rest, slice, i) == radix;
    var m1 := Exec(ar, Up(steps[0]), m);
    SliceSums(ar, radix, slice, m);
    UpsweepLevels(ar, rest, slice, m.level1, radix, m1, i);
    FirstStep(ar, steps, m);
    DigitCounts(ar, m, Run(ar, Ups(steps), m), radix, slice, GroupSize(rest, radix, i));
    NotTheLast(rest, slice, i);
    ProgramLevels(ar, rest, slice, m.level1, radix, m1, i);
    ProgramUnfold(ar, steps, m);
    var m2 := Run(ar, Ups(rest) + Downs(rest), m1);
    SliceKept(ar, radix, slice, m2);
    SmallerCounts(ar, m, m2, Run(ar, Ups(steps) + Downs(steps), m), radix, slice, GroupSize(rest, radix, i));
  }

  lemma NotTheLast(steps: seq<Step>, from: nat, i: nat)
    requires Cascade(steps, from, 1) && i <= |steps| && LevelAt(steps, from, i) > 1
    ensures i < |steps|
  {
  }

  lemma FirstStep(ar: Arithmetic, steps: seq<Step>, m: Memory)
    requires steps != []
    ensures Run(ar, Ups(steps), m) == Run(ar, Ups(steps[1..]), Exec(ar, Up(steps[0]), m))
  {
    assert Ups(steps)[0] == Up(steps[0]) && Ups(steps)[1..] == Ups(steps[1..]);
  }

  /** The last downsweep writes level 1 only. */
  lemma SliceKept(ar: Arithmetic, radix: nat, slice: nat, m: Memory)
    requires radix > 0 && slice > 0 && SliceMemory(m, radix, slice)
    ensures Exec(ar, Down(Multi(slice * radix, slice)), m).level2 == m.level2
  {
    MultiExec(ar, radix, slice, m);
  }

  lemma DigitCounts(ar: Arithmetic, m: Memory, up: Memory, radix: nat, slice: nat, factor: nat)
    requires radix > 0 && |m.level1| == slice * radix && HoldsSums(ar, m.level1, up, radix, factor)
    ensures CountsDigits(ar, m, up, radix, slice)
  {
    RadixGroups(radix, slice, factor);
    hide Sum, Fit, Group;
    forall d | 0 <= d < radix ensures up.level2[radix + d] == Fit(ar, Sum(Counters(m.level1, slice, d))) {
      assert up.level2[radix + d] == Level(up, radix)[d];
    }
  }

  lemma SmallerCounts(ar: Arithmetic, m: Memory, m2: Memory, r: Memory, radix: nat, slice: nat, factor: nat)
    requires radix > 0 && |m.level1| == slice * radix && HoldsOffsets(ar, m.level1, m2, radix, factor)
    requires r.level2 == m2.level2
    ensures CountsSmaller(ar, m, r, radix, slice)
  {
    RadixGroups(radix, slice, factor);
    hide Before;
    forall d | 0 <= d < radix ensures r.level2[radix + d] == Before(ar, m.level1, slice, d) {
      assert r.level2[radix + d] == Level(m2, radix)[d];
    }
  }

  /** The counts of the digits and of the smaller digits, for every memory the program starts from. */
  ghost predicate ComputesCounts(upsweep: seq<Statement>, downsweep: seq<Statement>, radix: nat, slice: nat) {
    forall m, ar :: SliceMemory(m, radix, slice) ==>
      && CountsDigits(ar, m, Run(ar, upsweep, m), radix, slice)
      && CountsSmaller(ar, m, Run(ar, upsweep + downsweep, m), radix, slice)
  }

  lemma StepsComputeCounts(steps: seq<Step>, radix: nat, slice: nat)
    requires SweepSteps(steps, radix, slice) && StopsAt(steps, slice, radix) && radix > 1
    ensures ComputesCounts(Ups(steps), Downs(steps), radix, slice)
  {
    hide SweepSteps, StopsAt, CountsDigits, CountsSmaller, Run, Ups, Downs;
    forall m, ar | SliceMemory(m, radix, slice)
      ensures CountsDigits(ar, m, Run(ar, Ups(steps), m), radix, slice)
      ensures CountsSmaller(ar, m, Run(ar, Ups(steps) + Downs(steps), m), radix, slice)
    {
      RadixLevel(ar, steps, radix, slice, m);
    }
  }
}

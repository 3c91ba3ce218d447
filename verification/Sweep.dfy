/** The sweep programs (src/radixsort.cpp:320-383): the statements of UPSWEEP() and DOWNSWEEP(), which
    together turn the counters of a work-group slice into their exclusive prefix sums.

    The counters form level 1. Level 2 is one byte array in which the level of n partial sums lives at
    bytes [n, 2n). The statements mean what the unit tests expect of them
    (test/test_radixsort.cpp:286-298 and 317-337). */
module Sweep {
  import opened Blocks
  import opened Sums

  /** The device computes on bytes; Unbounded is what the bytes stand for. */
  datatype Arithmetic = Byte | Unbounded

  function Fit(ar: Arithmetic, x: nat): nat {
    match ar
    case Byte => x % 256
    case Unbounded => x
  }

  datatype Memory = Memory(level1: seq<nat>, level2: seq<nat>)

  /** `words` counts in units of the data pointer's type: 4 bytes for level2.i, 2 for level2.s. */
  datatype Statement =
    | UpsweepMulti(sums: nat, from: nat, to: nat)
    | DownsweepMulti(sums: nat, from: nat, to: nat)
    | Upsweep4(words: nat, sums: nat, to: nat)
    | Downsweep4(words: nat, sums: nat, to: nat, forceZero: bool)
    | Upsweep2(words: nat, sums: nat, to: nat)
    | Downsweep2(words: nat, sums: nat, to: nat, forceZero: bool)

  // ---- meaning of one statement

  /** start, plus all of s, one addition after the other. */
  function Accumulate(ar: Arithmetic, start: nat, s: seq<nat>): nat {
    if s == [] then start else Fit(ar, Accumulate(ar, start, s[..|s| - 1]) + s[|s| - 1])
  }

  /** Group k of the data, in groups of `factor`. */
  function Group(data: seq<nat>, factor: nat, k: nat): seq<nat> {
    MultiplesApart(k, k + 1, factor);
    if (k + 1) * factor <= |data| then data[k * factor..(k + 1) * factor] else []
  }

  /** What the upsweep stores: the sum of each group. */
  function UpData(ar: Arithmetic, data: seq<nat>, factor: nat, to: nat): (sums: seq<nat>)
    ensures |sums| == to
    ensures forall k :: 0 <= k < to ==> sums[k] == Accumulate(ar, 0, Group(data, factor, k))
  {
    seq(to, k requires 0 <= k < to => Accumulate(ar, 0, Group(data, factor, k)))
  }

  /** What the downsweep stores at position i: the sum of its group, up to and excluding i. */
  function DownValue(ar: Arithmetic, data: seq<nat>, sums: seq<nat>, factor: nat, forceZero: bool, i: nat): nat
    requires i < |data|
  {
    if factor > 0 && i / factor < |sums| then
      DivTimes(i, factor);
      Accumulate(ar, if forceZero then 0 else sums[i / factor], data[i / factor * factor..i])
    else 0
  }

  function DownData(ar: Arithmetic, data: seq<nat>, sums: seq<nat>, factor: nat, forceZero: bool): (r: seq<nat>)
    ensures |r| == |data|
    ensures forall i :: 0 <= i < |data| ==> r[i] == DownValue(ar, data, sums, factor, forceZero, i)
  {
    seq(|data|, i requires 0 <= i < |data| => DownValue(ar, data, sums, factor, forceZero, i))
  }

  lemma DivTimes(i: nat, factor: nat)
    requires factor > 0
    ensures i / factor * factor <= i < i / factor * factor + factor
  {
  }

  lemma GroupIndex(i: nat, factor: nat, to: nat)
    requires factor > 0 && i < to * factor
    ensures i / factor < to
  {
    DivTimes(i, factor);
    MultiplesApart(to, i / factor, factor);
  }

  function Overwrite(s: seq<nat>, at: nat, data: seq<nat>): (r: seq<nat>)
    requires at + |data| <= |s|
    ensures |r| == |s|
    ensures forall i :: 0 <= i < |s| ==> r[i] == if at <= i < at + |data| then data[i - at] else s[i]
  {
    s[..at] + data + s[at + |data|..]
  }

  /** Whether the statement stays inside the memory. */
  predicate InBounds(st: Statement, m: Memory) {
    match st
    case UpsweepMulti(sums, from, to) => Splits(m.level1, from, to) && sums + to <= |m.level2|
    case DownsweepMulti(sums, from, to) => Splits(m.level1, from, to) && sums + to <= |m.level2|
    case Upsweep4(words, sums, to) => to > 0 && 4 * words + 4 * to <= |m.level2| && sums + to <= |m.level2|
    case Downsweep4(words, sums, to, _) => to > 0 && 4 * words + 4 * to <= |m.level2| && sums + to <= |m.level2|
    case Upsweep2(words, sums, to) => to > 0 && 2 * words + 2 * to <= |m.level2| && sums + to <= |m.level2|
    case Downsweep2(words, sums, to, _) => to > 0 && 2 * words + 2 * to <= |m.level2| && sums + to <= |m.level2|
  }

  /** from counters in `to` groups of equal, positive size. */
  predicate Splits(level1: seq<nat>, from: nat, to: nat) {
    to > 0 && from / to > 0 && to * (from / to) == from == |level1|
  }

  /** The data are `size` bytes from `at` on, the sums `to` bytes from `sums` on. */
  function UpWithin(ar: Arithmetic, m: Memory, at: nat, size: nat, factor: nat, sums: nat, to: nat): (r: Memory)
    requires at + size <= |m.level2| && sums + to <= |m.level2|
    ensures r.level1 == m.level1 && |r.level2| == |m.level2|
  {
    m.(level2 := Overwrite(m.level2, sums, UpData(ar, m.level2[at..at + size], factor, to)))
  }

  function DownWithin(ar: Arithmetic, m: Memory, at: nat, size: nat, factor: nat, sums: nat, to: nat, forceZero: bool):
    (r: Memory)
    requires at + size <= |m.level2| && sums + to <= |m.level2|
    ensures r.level1 == m.level1 && |r.level2| == |m.level2|
  {
    m.(level2 := Overwrite(m.level2, at,
                           DownData(ar, m.level2[at..at + size], m.level2[sums..sums + to], factor, forceZero)))
  }

  function Exec(ar: Arithmetic, st: Statement, m: Memory): (r: Memory)
    ensures |r.level1| == |m.level1| && |r.level2| == |m.level2|
  {
    if !InBounds(st, m) then m else
    match st
    case UpsweepMulti(sums, from, to) =>
      m.(level2 := Overwrite(m.level2, sums, UpData(ar, m.level1, from / to, to)))
    case DownsweepMulti(sums, from, to) =>
      m.(level1 := DownData(ar, m.level1, m.level2[sums..sums + to], from / to, false))
    case Upsweep4(words, sums, to) => UpWithin(ar, m, 4 * words, 4 * to, 4, sums, to)
    case Downsweep4(words, sums, to, forceZero) => DownWithin(ar, m, 4 * words, 4 * to, 4, sums, to, forceZero)
    case Upsweep2(words, sums, to) => UpWithin(ar, m, 2 * words, 2 * to, 2, sums, to)
    case Downsweep2(words, sums, to, forceZero) => DownWithin(ar, m, 2 * words, 2 * to, 2, sums, to, forceZero)
  }

  function Run(ar: Arithmetic, program: seq<Statement>, m: Memory): (r: Memory)
    ensures |r.level1| == |m.level1| && |r.level2| == |m.level2|
  {
    if program == [] then m else Run(ar, program[1..], Exec(ar, program[0], m))
  }

  lemma {:induction false} RunAppend(ar: Arithmetic, a: seq<Statement>, b: seq<Statement>, m: Memory)
    ensures Run(ar, a + b, m) == Run(ar, b, Run(ar, a, m))
  {
    if a == [] {
      assert a + b == b;
    } else {
      assert (a + b)[1..] == a[1..] + b;
      RunAppend(ar, a[1..], b, Exec(ar, a[0], m));
    }
  }

  // ---- one level: group sums, scanned, give the scan of the data

  /** The exclusive prefix sum at position i. */
  function PrefixSum(ar: Arithmetic, data: seq<nat>, i: nat): nat
    requires i <= |data|
  {
    Fit(ar, Sum(data[..i]))
  }

  ghost predicate IsScan(ar: Arithmetic, data: seq<nat>, r: seq<nat>) {
    |r| == |data| && forall i :: 0 <= i < |data| ==> r[i] == PrefixSum(ar, data, i)
  }

  lemma FitAdd(ar: Arithmetic, x: nat, y: nat)
    ensures Fit(ar, Fit(ar, x) + y) == Fit(ar, x + y)
  {
  }

  lemma {:induction false} AccumulateIs(ar: Arithmetic, x: nat, s: seq<nat>)
    ensures Accumulate(ar, Fit(ar, x), s) == Fit(ar, x + Sum(s))
  {
    if s != [] {
      AccumulateIs(ar, x, s[..|s| - 1]);
      FitAdd(ar, x + Sum(s[..|s| - 1]), s[|s| - 1]);
    }
  }

  /** The sums of the first k groups add up to the sum of their data. */
  lemma {:induction false} GroupPrefix(ar: Arithmetic, data: seq<nat>, factor: nat, sums: seq<nat>, k: nat)
    requires k <= |sums| && k * factor <= |data|
    requires forall j :: 0 <= j < |sums| ==> sums[j] == Accumulate(ar, 0, Group(data, factor, j))
    ensures PrefixSum(ar, sums, k) == PrefixSum(ar, data, k * factor)
  {
    hide Accumulate, Group;
    if k == 0 {
      NothingBefore(ar, sums, 0);
      NothingBefore(ar, data, k * factor);
    } else {
      MultiplesApart(k - 1, k, factor);
      GroupPrefix(ar, data, factor, sums, k - 1);
      GroupNext(ar, data, factor, sums, k - 1);
    }
  }

  lemma GroupNext(ar: Arithmetic, data: seq<nat>, factor: nat, sums: seq<nat>, j: nat)
    requires j < |sums| && sums[j] == Accumulate(ar, 0, Group(data, factor, j))
    requires j * factor <= (j + 1) * factor <= |data|
    requires PrefixSum(ar, sums, j) == PrefixSum(ar, data, j * factor)
    ensures PrefixSum(ar, sums, j + 1) == PrefixSum(ar, data, (j + 1) * factor)
  {
    SumStep(sums, j);
    GroupSum(ar, data, factor, j);
    FitBoth(ar, Sum(sums[..j]), Sum(data[..j * factor]), Sum(Group(data, factor, j)));
  }

  lemma GroupSum(ar: Arithmetic, data: seq<nat>, factor: nat, k: nat)
    requires (k + 1) * factor <= |data|
    ensures k * factor <= |data|
    ensures Accumulate(ar, 0, Group(data, factor, k)) == Fit(ar, Sum(Group(data, factor, k)))
    ensures Sum(data[..(k + 1) * factor]) == Sum(data[..k * factor]) + Sum(Group(data, factor, k))
  {
    MultiplesApart(k, k + 1, factor);
    AccumulateIs(ar, 0, Group(data, factor, k));
    SumSplit(data, k * factor, (k + 1) * factor);
  }

  lemma FitBoth(ar: Arithmetic, x: nat, x': nat, y: nat)
    requires Fit(ar, x) == Fit(ar, x')
    ensures Fit(ar, x + Fit(ar, y)) == Fit(ar, x' + y)
  {
    FitAdd(ar, x, Fit(ar, y));
    FitAdd(ar, x', Fit(ar, y));
    FitAdd(ar, y, x');
  }

  lemma NothingBefore(ar: Arithmetic, data: seq<nat>, i: nat)
    requires i == 0
    ensures Sum(data[..i]) == 0 && Fit(ar, 0) == 0
  {
  }

  lemma PositionScan(ar: Arithmetic, data: seq<nat>, start: nat, base: nat, i: nat)
    requires base <= i <= |data| && start == PrefixSum(ar, data, base)
    ensures Accumulate(ar, start, data[base..i]) == PrefixSum(ar, data, i)
  {
    AccumulateIs(ar, Sum(data[..base]), data[base..i]);
    SumSplit(data, base, i);
  }

  /** Scanning the group sums and sweeping down is scanning the data. With a single group the
      downsweep is told to start from zero and need not look at the sum at all. */
  lemma LevelScan(ar: Arithmetic, data: seq<nat>, factor: nat, to: nat, scanned: seq<nat>, forceZero: bool)
    requires factor > 0 && to * factor == |data| && |scanned| == to
    requires if forceZero then to == 1 else IsScan(ar, UpData(ar, data, factor, to), scanned)
    ensures IsScan(ar, data, DownData(ar, data, scanned, factor, forceZero))
  {
    hide DownValue, PrefixSum, UpData;
    forall i | 0 <= i < |data|
      ensures DownValue(ar, data, scanned, factor, forceZero, i) == PrefixSum(ar, data, i)
    {
      LevelScanAt(ar, data, factor, to, scanned, forceZero, i);
    }
  }

  lemma LevelScanAt(ar: Arithmetic, data: seq<nat>, factor: nat, to: nat, scanned: seq<nat>, forceZero: bool, i: nat)
    requires factor > 0 && to * factor == |data| && |scanned| == to && i < |data|
    requires if forceZero then to == 1 else IsScan(ar, UpData(ar, data, factor, to), scanned)
    ensures DownValue(ar, data, scanned, factor, forceZero, i) == PrefixSum(ar, data, i)
  {
    hide PrefixSum, UpData, IsScan, Accumulate;
    GroupIndex(i, factor, to);
    GroupStart(ar, data, factor, to, scanned, forceZero, i / factor);
    DivTimes(i, factor);
    PositionScan(ar, data, if forceZero then 0 else scanned[i / factor], i / factor * factor, i);
  }

  /** The downsweep starts each group with the sum of everything before it. */
  lemma GroupStart(ar: Arithmetic, data: seq<nat>, factor: nat, to: nat, scanned: seq<nat>, forceZero: bool, k: nat)
    requires to * factor == |data| && |scanned| == to && k < to
    requires if forceZero then to == 1 else IsScan(ar, UpData(ar, data, factor, to), scanned)
    ensures k * factor <= |data|
    ensures (if forceZero then 0 else scanned[k]) == PrefixSum(ar, data, k * factor)
  {
    MultiplesApart(k, to, factor);
    if forceZero {
      NothingBefore(ar, data, k * factor);
    } else {
      GroupPrefix(ar, data, factor, UpData(ar, data, factor, to), k);
    }
  }

  // ---- the emitted program

  /** One round of the generator: it emits one upsweep and one downsweep statement. */
  datatype Step = Multi(from: nat, to: nat) | Four(to: nat, forceZero: bool) | Two(to: nat, forceZero: bool)

  function Up(step: Step): Statement {
    match step
    case Multi(from, to) => UpsweepMulti(to, from, to)
    case Four(to, _) => Upsweep4(to, to, to)
    case Two(to, _) => Upsweep2(to, to, to)
  }

  function Down(step: Step): Statement {
    match step
    case Multi(from, to) => DownsweepMulti(to, from, to)
    case Four(to, forceZero) => Downsweep4(to, to, to, forceZero)
    case Two(to, forceZero) => Downsweep2(to, to, to, forceZero)
  }

  function Ups(steps: seq<Step>): seq<Statement> {
    seq(|steps|, i requires 0 <= i < |steps| => Up(steps[i]))
  }

  /** The downsweep statements, last step first. */
  function Downs(steps: seq<Step>): seq<Statement> {
    seq(|steps|, i requires 0 <= i < |steps| => Down(steps[|steps| - 1 - i]))
  }

  /** The step reduces a level of `from` partial sums to one of step.to, and its downsweep starts from
      zero exactly when there is one sum left. */
  predicate Reduces(step: Step, from: nat) {
    match step
    case Multi(_, _) => false
    case Four(to, forceZero) => to > 0 && 4 * to == from && forceZero == (to == 1)
    case Two(to, forceZero) => to > 0 && 2 * to == from && forceZero == (to == 1)
  }

  /** The size of the level that step i reads; for i == |steps|, of the last level. */
  function LevelAt(steps: seq<Step>, from: nat, i: nat): nat
    requires i <= |steps|
  {
    if i == 0 then from else steps[i - 1].to
  }

  /** The steps lead from a level-2 level of `from` partial sums down to one of `last`. */
  predicate Cascade(steps: seq<Step>, from: nat, last: nat) {
    && (forall i :: 0 <= i < |steps| ==> Reduces(steps[i], LevelAt(steps, from, i)))
    && LevelAt(steps, from, |steps|) == last
  }

  lemma CascadeTail(steps: seq<Step>, from: nat, last: nat)
    requires Cascade(steps, from, last) && steps != []
    ensures Cascade(steps[1..], steps[0].to, last)
    ensures Reduces(steps[0], from)
  {
    var rest := steps[1..];
    forall i | 0 <= i < |rest|
      ensures Reduces(rest[i], LevelAt(rest, steps[0].to, i))
    {
      assert Reduces(steps[i + 1], LevelAt(steps, from, i + 1));
    }
    assert Reduces(steps[0], LevelAt(steps, from, 0));
  }

  lemma CascadeSnoc(steps: seq<Step>, from: nat, last: nat, step: Step)
    requires Cascade(steps, from, last) && Reduces(step, last)
    ensures Cascade(steps + [step], from, step.to)
  {
    var more := steps + [step];
    forall i | 0 <= i < |more|
      ensures Reduces(more[i], LevelAt(more, from, i))
    {
      if i < |steps| {
        assert Reduces(steps[i], LevelAt(steps, from, i));
      }
    }
  }

  /** The levels are disjoint: each step writes bytes [to, 2 to), entirely below the level it reads
      and all earlier ones. */
  lemma {:induction false} LevelsDisjoint(steps: seq<Step>, from: nat, last: nat, i: nat, j: nat)
    requires Cascade(steps, from, last) && i < j <= |steps|
    ensures 2 * LevelAt(steps, from, j) <= LevelAt(steps, from, i)
    decreases j
  {
    hide Cascade, LevelAt;
    LevelHalves(steps, from, last, j - 1);
    if i < j - 1 {
      LevelsDisjoint(steps, from, last, i, j - 1);
    }
  }

  lemma LevelHalves(steps: seq<Step>, from: nat, last: nat, i: nat)
    requires Cascade(steps, from, last) && i < |steps|
    ensures 2 * LevelAt(steps, from, i + 1) <= LevelAt(steps, from, i)
  {
    hide LevelAt;
    assert Reduces(steps[i], LevelAt(steps, from, i));
    LevelAfter(steps, from, i);
  }

  lemma LevelAfter(steps: seq<Step>, from: nat, i: nat)
    requires i < |steps|
    ensures LevelAt(steps, from, i + 1) == steps[i].to
  {
  }

  // ---- the program computes the exclusive prefix sums

  lemma {:induction false} RunOne(ar: Arithmetic, st: Statement, m: Memory)
    ensures Run(ar, [st], m) == Exec(ar, st, m)
  {
    assert Run(ar, [st][1..], Exec(ar, st, m)) == Exec(ar, st, m);
  }

  /** The program of a list of steps is the first upsweep, the program of the rest, the first step's
      downsweep. */
  lemma ProgramUnfold(ar: Arithmetic, steps: seq<Step>, m: Memory)
    requires steps != []
    ensures Run(ar, Ups(steps) + Downs(steps), m) ==
            Exec(ar, Down(steps[0]),
                 Run(ar, Ups(steps[1..]) + Downs(steps[1..]), Exec(ar, Up(steps[0]), m)))
  {
    var rest := steps[1..];
    var inner := Ups(rest) + Downs(rest);
    assert Ups(steps) + Downs(steps) == [Up(steps[0])] + (inner + [Down(steps[0])]);
    RunAppend(ar, [Up(steps[0])], inner + [Down(steps[0])], m);
    RunOne(ar, Up(steps[0]), m);
    var m1 := Exec(ar, Up(steps[0]), m);
    RunAppend(ar, inner, [Down(steps[0])], m1);
    RunOne(ar, Down(steps[0]), Run(ar, inner, m1));
  }

  function Factor(step: Step): nat {
    match step
    case Multi(_, _) => 0
    case Four(_, _) => 4
    case Two(_, _) => 2
  }

  /** What the statements of a level-2 step do to the levels. */
  lemma StepExec(ar: Arithmetic, step: Step, from: nat, m: Memory)
    requires Reduces(step, from) && 2 * from <= |m.level2|
    ensures Exec(ar, Up(step), m) == UpWithin(ar, m, from, from, Factor(step), step.to, step.to)
    ensures Exec(ar, Down(step), m) == DownWithin(ar, m, from, from, Factor(step), step.to, step.to, step.forceZero)
  {
    hide UpWithin, DownWithin;
  }

  ghost predicate SameFrom(m: Memory, r: Memory, at: nat) {
    && r.level1 == m.level1 && |r.level2| == |m.level2|
    && forall i :: at <= i < |m.level2| ==> r.level2[i] == m.level2[i]
  }

  function Level(m: Memory, n: nat): seq<nat>
    requires 2 * n <= |m.level2|
  {
    m.level2[n..2 * n]
  }

  lemma FactorTimes(step: Step, from: nat)
    requires Reduces(step, from)
    ensures step.to * Factor(step) == from && 2 * step.to <= from && Factor(step) > 0
  {
  }

  lemma UpEffect(ar: Arithmetic, step: Step, from: nat, m: Memory)
    requires Reduces(step, from) && 2 * from <= |m.level2|
    ensures var m1 := Exec(ar, Up(step), m);
            && step.to * Factor(step) == from && 2 * step.to <= from
            && SameFrom(m, m1, 2 * step.to)
            && Level(m1, step.to) == UpData(ar, Level(m, from), Factor(step), step.to)
  {
    StepExec(ar, step, from, m);
    FactorTimes(step, from);
    hide Exec, UpData, Factor, Reduces;
    assert m.level2[from..from + from] == Level(m, from);
  }

  lemma DownEffect(ar: Arithmetic, step: Step, from: nat, m: Memory)
    requires Reduces(step, from) && 2 * from <= |m.level2|
    ensures var r := Exec(ar, Down(step), m);
            && step.to * Factor(step) == from && 2 * step.to <= from && Factor(step) > 0
            && SameFrom(m, r, 2 * from)
            && Level(r, from) == DownData(ar, Level(m, from), Level(m, step.to), Factor(step), step.forceZero)
  {
    StepExec(ar, step, from, m);
    FactorTimes(step, from);
    hide Exec, DownData, Factor, Reduces;
    assert m.level2[from..from + from] == Level(m, from);
    assert m.level2[step.to..step.to + step.to] == Level(m, step.to);
  }

  lemma SameLevel(m: Memory, r: Memory, at: nat, n: nat)
    requires SameFrom(m, r, at) && at <= n && 2 * n <= |m.level2|
    ensures Level(r, n) == Level(m, n)
  {
  }

  /** For any cascade and any memory: the program turns the level it starts from into its exclusive
      prefix sums, and touches nothing above that level. */
  lemma {:induction false} CascadeScans(ar: Arithmetic, steps: seq<Step>, from: nat, m: Memory)
    requires Cascade(steps, from, 1) && steps != [] && 2 * from <= |m.level2|
    ensures var r := Run(ar, Ups(steps) + Downs(steps), m);
            SameFrom(m, r, 2 * from) && IsScan(ar, Level(m, from), Level(r, from))
    decreases |steps|
  {
    hide Run, Exec, UpData, DownData, IsScan, Cascade, Ups, Downs;
    var step, rest := steps[0], steps[1..];
    CascadeTail(steps, from, 1);
    ProgramUnfold(ar, steps, m);
    var m1 := Exec(ar, Up(step), m);
    var m2 := Run(ar, Ups(rest) + Downs(rest), m1);
    UpEffect(ar, step, from, m);
    InnerScan(ar, rest, step.to, m1);
    if rest != [] {
      CascadeScans(ar, rest, step.to, m1);
    }
    DownEffect(ar, step, from, m2);
    SameLevel(m, m2, 2 * step.to, from);
    LevelScan(ar, Level(m, from), Factor(step), step.to, Level(m2, step.to), step.forceZero);
  }

  /** Either nothing is left to do and there is one sum, or there are more steps and more sums. */
  lemma InnerScan(ar: Arithmetic, steps: seq<Step>, from: nat, m: Memory)
    requires Cascade(steps, from, 1)
    ensures steps == [] <==> from == 1
    ensures steps == [] ==> Run(ar, Ups(steps) + Downs(steps), m) == m
  {
    if steps == [] {
      assert Ups(steps) + Downs(steps) == [];
    } else {
      LevelsDisjoint(steps, from, 1, 0, |steps|);
    }
  }

  /** The memory of a slice: one counter for each work item and digit, and all level-2 levels. */
  ghost predicate SliceMemory(m: Memory, radix: nat, slice: nat) {
    |m.level1| == slice * radix && 2 * slice <= |m.level2|
  }

  /** The steps the generator takes: first from level 1 to the level of one sum per work item, then down
      to a single sum. */
  ghost predicate SweepSteps(steps: seq<Step>, radix: nat, slice: nat) {
    && |steps| >= 2 && slice > 0 && radix > 0
    && steps[0] == Multi(slice * radix, slice)
    && Cascade(steps[1..], slice, 1)
  }

  lemma MultiExec(ar: Arithmetic, radix: nat, slice: nat, m: Memory)
    requires radix > 0 && slice > 0 && SliceMemory(m, radix, slice)
    ensures Exec(ar, Up(Multi(slice * radix, slice)), m) ==
            m.(level2 := Overwrite(m.level2, slice, UpData(ar, m.level1, radix, slice)))
    ensures Exec(ar, Down(Multi(slice * radix, slice)), m) ==
            m.(level1 := DownData(ar, m.level1, Level(m, slice), radix, false))
  {
    ProductPositive(slice, radix);
    DivModUnique(slice * radix, slice, radix, 0);
  }

  /** For every memory and both arithmetics: upsweep then downsweep turns the counters into their
      exclusive prefix sums. */
  lemma SweepScans(ar: Arithmetic, steps: seq<Step>, radix: nat, slice: nat, m: Memory)
    requires SweepSteps(steps, radix, slice) && SliceMemory(m, radix, slice)
    ensures IsScan(ar, m.level1, Run(ar, Ups(steps) + Downs(steps), m).level1)
  {
    var rest := steps[1..];
    ProgramUnfold(ar, steps, m);
    var m1 := Exec(ar, Up(steps[0]), m);
    var m2 := Run(ar, Ups(rest) + Downs(rest), m1);
    MultiExec(ar, radix, slice, m);
    assert Level(m1, slice) == UpData(ar, m.level1, radix, slice);
    CascadeScans(ar, rest, slice, m1);
    MultiExec(ar, radix, slice, m2);
    LevelScan(ar, m.level1, radix, slice, Level(m2, slice), false);
  }

  /** No statement reaches outside the memory. */
  ghost predicate StaysInBounds(program: seq<Statement>, m: Memory) {
    forall i :: 0 <= i < |program| ==> InBounds(program[i], m)
  }

  lemma StepInBounds(steps: seq<Step>, radix: nat, slice: nat, m: Memory, i: nat)
    requires SweepSteps(steps, radix, slice) && SliceMemory(m, radix, slice) && i < |steps|
    ensures InBounds(Up(steps[i]), m) && InBounds(Down(steps[i]), m)
  {
    hide InBounds, Up, Down, Reduces;
    if i == 0 {
      FirstInBounds(radix, slice, m);
    } else {
      var rest := steps[1..];
      assert Reduces(rest[i - 1], LevelAt(rest, slice, i - 1));
      if i > 1 {
        LevelsDisjoint(rest, slice, 1, 0, i - 1);
      }
      LevelInBounds(rest[i - 1], LevelAt(rest, slice, i - 1), m);
    }
  }

  lemma FirstInBounds(radix: nat, slice: nat, m: Memory)
    requires radix > 0 && slice > 0 && SliceMemory(m, radix, slice)
    ensures InBounds(Up(Multi(slice * radix, slice)), m) && InBounds(Down(Multi(slice * radix, slice)), m)
  {
    ProductPositive(slice, radix);
    DivModUnique(slice * radix, slice, radix, 0);
  }

  lemma LevelInBounds(step: Step, from: nat, m: Memory)
    requires Reduces(step, from) && 2 * from <= |m.level2|
    ensures InBounds(Up(step), m) && InBounds(Down(step), m)
  {
  }

  lemma ProgramInBounds(steps: seq<Step>, radix: nat, slice: nat, m: Memory)
    requires SweepSteps(steps, radix, slice) && SliceMemory(m, radix, slice)
    ensures StaysInBounds(Ups(steps) + Downs(steps), m)
  {
    hide InBounds, Up, Down, SweepSteps, SliceMemory;
    var program := Ups(steps) + Downs(steps);
    forall i | 0 <= i < |program|
      ensures InBounds(program[i], m)
    {
      StepInBounds(steps, radix, slice, m, if i < |steps| then i else 2 * |steps| - 1 - i);
    }
  }

  /** The program stays in bounds and computes the exclusive prefix sums of the slice's counters,
      whatever the memory holds. */
  ghost predicate ComputesScan(program: seq<Statement>, radix: nat, slice: nat) {
    forall m :: SliceMemory(m, radix, slice) ==>
      && StaysInBounds(program, m)
      && forall ar :: IsScan(ar, m.level1, Run(ar, program, m).level1)
  }

  lemma StepsComputeScan(steps: seq<Step>, radix: nat, slice: nat)
    requires SweepSteps(steps, radix, slice)
    ensures ComputesScan(Ups(steps) + Downs(steps), radix, slice)
  {
    var program := Ups(steps) + Downs(steps);
    forall m | SliceMemory(m, radix, slice)
      ensures StaysInBounds(program, m)
      ensures forall ar :: IsScan(ar, m.level1, Run(ar, program, m).level1)
    {
      ProgramInBounds(steps, radix, slice, m);
      forall ar
        ensures IsScan(ar, m.level1, Run(ar, program, m).level1)
      {
        SweepScans(ar, steps, radix, slice, m);
      }
    }
  }
}

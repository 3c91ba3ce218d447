/** The scan on an out-of-order queue. `Scan.Scan.EnqueueInternal` applies each command where it is enqueued;
    here its commands take effect whenever the device finishes them, each in any way its kernel's contract
    allows, and the result is the same. Buffers are named by numbers, so that input, output and the buffer
    of the offset may be one buffer. */
module ScanSchedule {
  import opened Blocks
  import opened Sums
  import opened Partition
  import opened CommandQueue
  import opened Scan

  type Memory = map<nat, seq<nat>>

  datatype OffsetSource = Value(value: nat) | InBuffer(buffer: nat, index: nat)

  /** One accepted call: buffers, sizes, and the width of the elements. */
  datatype Call = Call(input: nat, output: nat, sums: nat, offset: OffsetSource,
                       elements: nat, len: nat, blocks: nat, modulus: nat)

  /** The buffers are there, large enough, and the sums are not among the user's. */
  ghost predicate Ready(c: Call, m: Memory) {
    && c.input in m && c.output in m && c.sums in m && c.sums != c.input && c.sums != c.output
    && c.elements <= |m[c.input]| && c.elements <= |m[c.output]| && c.blocks <= |m[c.sums]|
    && c.modulus > 0 && c.blocks > 0 && (c.blocks - 1) * c.len <= c.elements <= c.blocks * c.len
    && (c.offset.InBuffer? ==>
          c.offset.buffer in m && c.offset.buffer != c.sums && c.offset.index < |m[c.offset.buffer]|)
  }

  function Window(c: Call, m: Memory): seq<nat>
    requires c.input in m && c.elements <= |m[c.input]|
  {
    m[c.input][..c.elements]
  }

  ghost function OffsetIn(c: Call, m: Memory): (offset: nat)
    requires Ready(c, m)
    ensures c.offset.Value? ==> offset == c.offset.value
    ensures c.offset.InBuffer? ==> offset == m[c.offset.buffer][c.offset.index]
  {
    match c.offset
    case Value(v) => v
    case InBuffer(buffer, index) => m[buffer][index]
  }

  /** Only this buffer differs, and it is as long as before. */
  ghost predicate Writes(buffer: nat, m: Memory, m': Memory) {
    && buffer in m && buffer in m' && |m'[buffer]| == |m[buffer]|
    && m' == m[buffer := m'[buffer]]
  }

  // ---- the contracts of the three kernels (`Scan.ReduceKernel`, `ScanSmallKernel` and `ScanKernel`)

  ghost predicate Reduced(c: Call, m: Memory, m': Memory) {
    Ready(c, m) ==>
      Writes(c.sums, m, m') && SumsOf(m'[c.sums], Window(c, m), c.len, c.modulus, c.blocks - 1)
  }

  ghost predicate SumsScanned(c: Call, m: Memory, m': Memory) {
    Ready(c, m) ==>
      && Writes(c.sums, m, m')
      && forall k | 0 <= k < |m[c.sums]| :: m'[c.sums][k] == Scanned(m[c.sums], OffsetIn(c, m), c.modulus, k)
  }

  ghost predicate BlocksScanned(c: Call, m: Memory, m': Memory) {
    Ready(c, m) ==>
      && Writes(c.output, m, m')
      && m'[c.output][c.elements..] == m[c.output][c.elements..]
      && forall offset: nat | BlocksReady(m[c.sums], Window(c, m), offset, c.len, c.modulus, c.blocks) ::
           IsScan(m'[c.output][..c.elements], Window(c, m), offset, c.modulus)
  }

  ghost function EffectOf(c: Call, kernel: string): Effect<Memory> {
    if kernel == "reduce" then (m: Memory, m': Memory) => Reduced(c, m, m')
    else if kernel == "scanExclusive" then (m: Memory, m': Memory) => BlocksScanned(c, m, m')
    else (m: Memory, m': Memory) => SumsScanned(c, m, m')
  }

  ghost function Effects(c: Call, names: seq<string>): (effects: seq<Effect<Memory>>)
    ensures |effects| == |names|
  {
    seq(|names|, i requires 0 <= i < |names| => EffectOf(c, names[i]))
  }

  /** The result promised by enqueueInternal: the scan of the original window with the original offset, the
      rest of the output and all other buffers but the sums as they were. */
  ghost predicate Result(c: Call, m: Memory, m': Memory)
    requires Ready(c, m)
  {
    && c.output in m' && |m'[c.output]| == |m[c.output]|
    && IsScan(m'[c.output][..c.elements], Window(c, m), OffsetIn(c, m), c.modulus)
    && m'[c.output][c.elements..] == m[c.output][c.elements..]
    && forall b | b in m && b != c.output && b != c.sums :: b in m' && m'[b] == m[b]
  }

  // ---- one command after the other

  lemma SumsDiffer(c: Call, m: Memory, m': Memory)
    requires Ready(c, m) && Writes(c.sums, m, m')
    ensures Ready(c, m') && Window(c, m') == Window(c, m) && OffsetIn(c, m') == OffsetIn(c, m)
  {
  }

  /** The first two phases, or the second alone, leave every block's starting value in the sums. */
  lemma SumsPrepared(c: Call, m: Memory, m1: Memory, m2: Memory)
    requires Ready(c, m) && SumsScanned(c, m1, m2)
    requires if c.blocks > 1 then Reduced(c, m, m1) else m1 == m
    ensures Ready(c, m2) && Window(c, m2) == Window(c, m)
    ensures BlocksReady(m2[c.sums], Window(c, m), OffsetIn(c, m), c.len, c.modulus, c.blocks)
    ensures forall b | b in m && b != c.sums :: b in m2 && m2[b] == m[b]
  {
    hide BlocksReady, SumsOf, Scanned;
    if c.blocks > 1 {
      SumsDiffer(c, m, m1);
    } else {
      NoSums(m1[c.sums], Window(c, m), c.len, c.modulus);
    }
    SumsDiffer(c, m1, m2);
    SumsReady(m1[c.sums], m2[c.sums], Window(c, m), OffsetIn(c, m), c.len, c.modulus, c.blocks);
  }

  lemma SequenceResult(c: Call, names: seq<string>, states: seq<Memory>)
    requires names == KernelNames(c.blocks, c.offset.InBuffer?)
    requires InSequence(Effects(c, names), states) && Ready(c, states[0])
    ensures Result(c, states[0], states[|names|])
  {
    hide Ready, Window, BlocksReady, IsScan, Reduced, SumsScanned, BlocksScanned;
    var n := |names|;
    assert StepEffect(Effects(c, names), states, n - 1);
    assert StepEffect(Effects(c, names), states, n - 2);
    if c.blocks > 1 {
      assert StepEffect(Effects(c, names), states, 0);
    }
    LastPhase(c, states[0], states[n - 2], states[n - 1], states[n]);
  }

  lemma LastPhase(c: Call, m: Memory, m1: Memory, m2: Memory, m3: Memory)
    requires Ready(c, m) && SumsScanned(c, m1, m2) && BlocksScanned(c, m2, m3)
    requires if c.blocks > 1 then Reduced(c, m, m1) else m1 == m
    ensures Result(c, m, m3)
  {
    hide BlocksReady, IsScan, Reduced, SumsScanned;
    SumsPrepared(c, m, m1, m2);
  }

  // ---- any schedule

  /** Every schedule the wait lists allow, with every behaviour the kernels' contracts allow: once the returned
      event is complete, memory holds the result of the call. */
  lemma AnyScheduleScans(c: Call, log: seq<Command>, base: nat, events: set<Event>, run: seq<Action>, mems: seq<Memory>)
    requires Named(log, base, KernelNames(c.blocks, c.offset.InBuffer?))
    requires IsChain(log, base, |log|, events) && Legal(log, run)
    requires Executes(run, base, Effects(c, KernelNames(c.blocks, c.offset.InBuffer?)), mems)
    requires |log| - 1 in State(run).finished
    requires Ready(c, mems[0])
    ensures Result(c, mems[0], mems[|run|])
  {
    hide Ready, IsChain, Executes, InSequence, EffectOf, Result;
    var names := KernelNames(c.blocks, c.offset.InBuffer?);
    var states := AnyScheduleInSequence(log, base, |log|, events, run, Effects(c, names), mems);
    SequenceResult(c, names, states);
  }

  /** The sizes and buffers of an accepted call. */
  ghost predicate HostCall(scan: Scan, c: Call, m: Memory) {
    && scan.Geometry() && c.elements > 0
    && c.len == scan.BlockSize(c.elements) && c.blocks == scan.AllBlocks(c.elements) && c.modulus == scan.modulus
    && c.input in m && c.output in m && c.sums in m && c.sums != c.input && c.sums != c.output
    && c.elements <= |m[c.input]| && c.elements <= |m[c.output]| && |m[c.sums]| == scan.maxBlocks
  }

  /** Where the caller's offset is. */
  ghost predicate SameOffset(c: Call, m: Memory, offset: Offset)
    reads if offset.DeviceOffset? then {offset.buffer.data} else {}
  {
    match offset
    case NoOffset => c.offset == Value(0)
    case HostOffset(v) => c.offset == Value(v)
    case DeviceOffset(buffer, index) =>
      && c.offset.InBuffer? && c.offset.index == index < buffer.data.Length
      && c.offset.buffer != c.sums && c.offset.buffer in m && m[c.offset.buffer] == buffer.data[..]
  }

  /** They satisfy what the kernels rely on. */
  lemma HostSizesReady(scan: Scan, c: Call, m: Memory, offset: Offset)
    requires HostCall(scan, c, m) && SameOffset(c, m, offset)
    ensures Ready(c, m)
  {
    scan.BlocksFit(c.elements);
  }

  /** Whatever the device does with the commands that `Scan.EnqueueInternal` promises to have enqueued: once the event
      it returns is complete, the output holds the scan from zero, from the value the caller passed, or from the
      element the caller named as it was before the call. */
  lemma HostCallScans(scan: Scan, c: Call, offset: Offset, log: seq<Command>, base: nat, events: set<Event>,
                      run: seq<Action>, mems: seq<Memory>)
    requires Named(log, base, KernelNames(c.blocks, offset.DeviceOffset?))
    requires IsChain(log, base, |log|, events) && Legal(log, run)
    requires Executes(run, base, Effects(c, KernelNames(c.blocks, offset.DeviceOffset?)), mems)
    requires |log| - 1 in State(run).finished
    requires HostCall(scan, c, mems[0]) && SameOffset(c, mems[0], offset)
    ensures var m, m' := mems[0], mems[|run|];
            && c.output in m' && |m'[c.output]| == |m[c.output]|
            && m'[c.output][c.elements..] == m[c.output][c.elements..]
            && var input, output := m[c.input][..c.elements], m'[c.output][..c.elements];
               match offset
               case NoOffset => Accumulates(output, input, 0, scan.modulus)
               case HostOffset(v) => Accumulates(output, input, v, scan.modulus)
               case DeviceOffset(buffer, index) => Accumulates(output, input, buffer.data[index], scan.modulus)
    ensures forall b | b in mems[0] && b != c.output && b != c.sums :: b in mems[|run|] && mems[|run|][b] == mems[0][b]
  {
    hide IsChain, Executes, Accumulates, IsScan, KernelNames, Legal, EffectOf;
    ExecutesLength(run, base, Effects(c, KernelNames(c.blocks, offset.DeviceOffset?)), mems);
    HostSizesReady(scan, c, mems[0], offset);
    AnyScheduleScans(c, log, base, events, run, mems);
    ScanAccumulates(mems[|run|][c.output][..c.elements], mems[0][c.input][..c.elements], OffsetIn(c, mems[0]), c.modulus);
  }
}

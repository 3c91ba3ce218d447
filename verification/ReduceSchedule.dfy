/** The reduction into host memory on an out-of-order queue. `Reduce.Reduce.EnqueueToHost` applies its two commands
    where they are enqueued; here they take effect whenever the device finishes them, each in any way its
    contract allows, and the result on the host is the same. */
module ReduceSchedule {
  import opened Blocks
  import opened Sums
  import opened CommandQueue
  import opened Reduce

  /** The caller's input, the partial sums with their spare slot, and the caller's result. */
  datatype Memory = Memory(input: seq<nat>, sums: seq<nat>, out: nat)

  /** One accepted call. */
  datatype Call = Call(first: nat, elements: nat, blocks: nat, len: nat, modulus: nat)

  /** The window lies in the input, there is a spare slot, and the blocks cover the window in 32 bits. */
  ghost predicate Ready(c: Call, m: Memory) {
    && c.modulus > 0 && c.first + c.elements <= |m.input| && c.blocks < |m.sums|
    && c.elements <= c.blocks * c.len < UINT_RANGE
  }

  ghost function Total(c: Call, m: Memory): nat
    requires Ready(c, m)
  {
    Sum(m.input[c.first..c.first + c.elements]) % c.modulus
  }

  // ---- the contracts of the kernel (`Reduce.Reduce.ReduceKernel`) and of the read

  /** The total goes to the spare slot; the partial sums may be anything. */
  ghost predicate Reduced(c: Call, m: Memory, m': Memory) {
    Ready(c, m) ==>
      && m' == m.(sums := m'.sums) && |m'.sums| == |m.sums|
      && m'.sums[c.blocks] == Total(c, m)
  }

  ghost predicate ReadBack(c: Call, m: Memory, m': Memory) {
    Ready(c, m) ==> m' == m.(out := m.sums[c.blocks])
  }

  ghost function EffectOf(c: Call, kernel: string): Effect<Memory> {
    if kernel == "reduce" then (m: Memory, m': Memory) => Reduced(c, m, m')
    else (m: Memory, m': Memory) => ReadBack(c, m, m')
  }

  ghost function Effects(c: Call, names: seq<string>): (effects: seq<Effect<Memory>>)
    ensures |effects| == |names|
  {
    seq(|names|, i requires 0 <= i < |names| => EffectOf(c, names[i]))
  }

  lemma HostSteps(c: Call, states: seq<Memory>)
    requires InSequence(Effects(c, HOST_KERNELS), states)
    ensures |states| == 3 && Reduced(c, states[0], states[1]) && ReadBack(c, states[1], states[2])
  {
    hide Reduced, ReadBack;
    var effects := Effects(c, HOST_KERNELS);
    assert StepEffect(effects, states, 0) && StepEffect(effects, states, 1);
  }

  /** Every schedule the wait lists allow, with every behaviour the contracts allow: once the returned event is
      complete, the host has the sum of the window as it was, and the input has not changed. */
  lemma AnyScheduleReduces(c: Call, log: seq<Command>, base: nat, events: set<Event>, run: seq<Action>, mems: seq<Memory>)
    requires Named(log, base, HOST_KERNELS)
    requires IsChain(log, base, |log|, events) && Legal(log, run)
    requires Executes(run, base, Effects(c, HOST_KERNELS), mems)
    requires |log| - 1 in State(run).finished
    requires Ready(c, mems[0])
    ensures mems[|run|].out == Sum(mems[0].input[c.first..c.first + c.elements]) % c.modulus
    ensures mems[|run|].input == mems[0].input
  {
    hide IsChain, Executes, InSequence, EffectOf, Effects, Ready, Total, Reduced, ReadBack;
    var states := AnyScheduleInSequence(log, base, |log|, events, run, Effects(c, HOST_KERNELS), mems);
    HostSteps(c, states);
    HostResult(c, states[0], states[1], states[2]);
  }

  lemma HostResult(c: Call, m: Memory, m1: Memory, m2: Memory)
    requires Ready(c, m) && Reduced(c, m, m1) && ReadBack(c, m1, m2)
    ensures c.first + c.elements <= |m.input| && c.modulus > 0
    ensures m2.out == Sum(m.input[c.first..c.first + c.elements]) % c.modulus && m2.input == m.input
  {
    hide Sum;
  }

  /** An accepted call of the host: its sizes, and buffers that are large enough. */
  ghost predicate HostCall(reduce: Reduce, c: Call, m: Memory) {
    && reduce.Geometry() && reduce.KernelFits(c.elements)
    && c.blocks == reduce.reduceBlocks && c.len == reduce.BlockSize(c.elements) && c.modulus == reduce.modulus
    && c.first + c.elements <= |m.input| && |m.sums| == reduce.sums.Length
  }

  /** It satisfies what the kernel relies on. */
  lemma HostSizesReady(reduce: Reduce, c: Call, m: Memory)
    requires HostCall(reduce, c, m)
    ensures Ready(c, m)
  {
  }
}

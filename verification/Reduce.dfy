/** The reduction (src/reduce.cpp). One kernel does everything: each work-group stores the sum of its block
    and then decrements a shared counter that starts at the number of groups; the group that brings it
    to zero adds up all the partial sums, stores the result and resets the counter for the next call.
    The protocol is the one the host code sets up (src/reduce.cpp:98-107) and the kernel follows
    (kernels/reduce.cl:128-153), run here under every possible interleaving of the groups. */
module Reduce {
  import opened Blocks
  import opened Buffers
  import opened Partition
  import opened Sums
  import opened CommandQueue

  datatype Parameters = Parameters(reduceWorkGroupSize: nat, reduceBlocks: nat)

  predicate Admissible(params: Parameters) {
    params.reduceWorkGroupSize > 0 && params.reduceBlocks > 0
  }

  datatype Error = InputRange | OutputRange | InputAccess | OutputAccess | NoElements | NullOutput

  datatype Outcome = Enqueued(event: Event) | Rejected(error: Error)

  // ---- the work-groups

  /** Where a work-group has got to. */
  datatype Phase = Summing | Counting | Last | Done

  predicate Waits(phase: Phase) {
    phase == Summing || phase == Counting
  }

  /** How many groups have yet to decrement the counter. */
  function Waiting(pc: seq<Phase>): nat {
    if pc == [] then 0
    else Waiting(pc[..|pc| - 1]) + if Waits(pc[|pc| - 1]) then 1 else 0
  }

  /** How many steps are left. */
  function StepsLeft(pc: seq<Phase>): nat {
    if pc == [] then 0
    else StepsLeft(pc[..|pc| - 1]) +
         match pc[|pc| - 1] case Summing => 3 case Counting => 2 case Last => 1 case Done => 0
  }

  lemma {:induction false} UpdatePhase(pc: seq<Phase>, g: nat, phase: Phase)
    requires g < |pc|
    ensures Waiting(pc[g := phase]) + Waiting([pc[g]]) == Waiting(pc) + Waiting([phase])
    ensures StepsLeft(pc[g := phase]) + StepsLeft([pc[g]]) == StepsLeft(pc) + StepsLeft([phase])
  {
    var n := |pc| - 1;
    OnePhase(phase);
    OnePhase(pc[g]);
    if g == n {
      assert pc[g := phase][..n] == pc[..n];
    } else {
      assert pc[g := phase][..n] == pc[..n][g := phase];
      UpdatePhase(pc[..n], g, phase);
    }
  }

  lemma OnePhase(phase: Phase)
    ensures Waiting([phase]) == if Waits(phase) then 1 else 0
    ensures StepsLeft([phase]) == match phase case Summing => 3 case Counting => 2 case Last => 1 case Done => 0
  {
    assert [phase][..0] == [];
  }

  lemma {:induction false} NobodyWaiting(pc: seq<Phase>)
    ensures Waiting(pc) == 0 <==> forall g :: 0 <= g < |pc| ==> !Waits(pc[g])
  {
    if pc != [] {
      var n := |pc| - 1;
      NobodyWaiting(pc[..n]);
      if Waiting(pc) == 0 {
        forall g | 0 <= g < |pc|
          ensures !Waits(pc[g])
        {
          assert g < n ==> !Waits(pc[..n][g]);
        }
      }
    }
  }

  lemma {:induction false} EverybodyWaiting(pc: seq<Phase>)
    requires forall g :: 0 <= g < |pc| ==> pc[g] == Summing
    ensures Waiting(pc) == |pc|
  {
    if pc != [] {
      EverybodyWaiting(pc[..|pc| - 1]);
    }
  }

  /** The state of the groups and their shared memory, as long as the result has not been stored. */
  ghost predicate Running(pc: seq<Phase>, wgc: nat, sums: seq<nat>, window: seq<nat>, len: nat, modulus: nat)
    requires modulus > 0
  {
    && |pc| <= |sums|
    && wgc == Waiting(pc)
    && (forall g :: 0 <= g < |pc| && pc[g] != Summing ==> sums[g] == BlockSum(window, len, modulus, g))
    && (forall g :: 0 <= g < |pc| && pc[g] == Last ==> wgc == 0)
    && (forall g, h :: 0 <= g < |pc| && 0 <= h < |pc| && pc[g] == Last && pc[h] == Last ==> g == h)
    && (wgc == 0 ==> exists g :: 0 <= g < |pc| && pc[g] == Last)
  }

  lemma StartRunning(pc: seq<Phase>, wgc: nat, sums: seq<nat>, window: seq<nat>, len: nat, modulus: nat)
    requires modulus > 0 && 0 < |pc| == wgc <= |sums|
    requires forall g :: 0 <= g < |pc| ==> pc[g] == Summing
    ensures Running(pc, wgc, sums, window, len, modulus)
  {
    EverybodyWaiting(pc);
  }

  lemma AfterSum(pc: seq<Phase>, wgc: nat, sums: seq<nat>, window: seq<nat>, len: nat, modulus: nat, g: nat)
    requires modulus > 0 && Running(pc, wgc, sums, window, len, modulus)
    requires g < |pc| && pc[g] == Summing
    ensures Running(pc[g := Counting], wgc, sums[g := BlockSum(window, len, modulus, g)], window, len, modulus)
    ensures StepsLeft(pc[g := Counting]) < StepsLeft(pc)
  {
    UpdatePhase(pc, g, Counting);
    OnePhase(Summing);
    OnePhase(Counting);
    NobodyWaiting(pc);
  }

  /** Exactly one group sees the counter reach zero. */
  lemma AfterCount(pc: seq<Phase>, wgc: nat, sums: seq<nat>, window: seq<nat>, len: nat, modulus: nat, g: nat)
    requires modulus > 0 && Running(pc, wgc, sums, window, len, modulus)
    requires g < |pc| && pc[g] == Counting
    ensures wgc > 0
    ensures var next := if wgc - 1 == 0 then Last else Done;
            Running(pc[g := next], wgc - 1, sums, window, len, modulus) && StepsLeft(pc[g := next]) < StepsLeft(pc)
  {
    NobodyWaiting(pc);
    var next := if wgc - 1 == 0 then Last else Done;
    UpdatePhase(pc, g, next);
    OnePhase(Counting);
    OnePhase(next);
    assert pc[g := next][g] == next;
  }

  /** When a group is last, every other group is done and all partial sums are there. */
  lemma LastIsAlone(pc: seq<Phase>, wgc: nat, sums: seq<nat>, window: seq<nat>, len: nat, modulus: nat, g: nat)
    requires modulus > 0 && Running(pc, wgc, sums, window, len, modulus)
    requires g < |pc| && pc[g] == Last
    ensures forall h :: 0 <= h < |pc| && h != g ==> pc[h] == Done
    ensures forall h :: 0 <= h < |pc| ==> sums[h] == BlockSum(window, len, modulus, h)
    ensures StepsLeft(pc[g := Done]) < StepsLeft(pc)
  {
    NobodyWaiting(pc);
    UpdatePhase(pc, g, Done);
    OnePhase(Last);
    OnePhase(Done);
  }

  /** The groups cannot all be done before the result is stored. */
  lemma NotAllDone(pc: seq<Phase>, wgc: nat, sums: seq<nat>, window: seq<nat>, len: nat, modulus: nat)
    requires modulus > 0 && Running(pc, wgc, sums, window, len, modulus)
    ensures exists g :: 0 <= g < |pc| && pc[g] != Done
  {
    NobodyWaiting(pc);
  }

  // ---- host side

  /** What the overload with a result in host memory enqueues. */
  const HOST_KERNELS: seq<string> := ["reduce", "readBuffer"]

  class Reduce {
    const reduceWorkGroupSize: nat
    const reduceBlocks: nat
    const modulus: nat
    /** One partial sum for each group, and one more slot for the result of the host overload. */
    const sums: array<nat>
    /** The number of groups that have yet to finish the current call. */
    var wgc: nat
    /** Events passed to the event callback so far. */
    var notified: seq<Event>

    predicate Geometry() {
      reduceWorkGroupSize > 0 && reduceBlocks > 0 && modulus > 0 && sums.Length == reduceBlocks + 1
    }

    /** Between calls the counter is back at the number of groups. */
    ghost predicate Valid()
      reads this
    {
      Geometry() && wgc == reduceBlocks
    }

    constructor (params: Parameters, elementBits: nat)
      requires Admissible(params)
      ensures Valid() && fresh(sums) && notified == []
      ensures reduceWorkGroupSize == params.reduceWorkGroupSize && reduceBlocks == params.reduceBlocks
      ensures modulus == Pow2(elementBits)
    {
      reduceWorkGroupSize := params.reduceWorkGroupSize;
      reduceBlocks := params.reduceBlocks;
      modulus := Pow2(elementBits);
      sums := new nat[params.reduceBlocks + 1];
      wgc := params.reduceBlocks;
      notified := [];
    }

    /** blockSize of enqueue (src/reduce.cpp:293): with it the groups' blocks cover the elements. */
    function BlockSize(elements: nat): (len: nat)
      requires Geometry()
      ensures len % reduceWorkGroupSize == 0
      ensures elements <= reduceBlocks * len < elements + reduceWorkGroupSize * reduceBlocks
    {
      Commute(GridBlock(elements, reduceWorkGroupSize, reduceBlocks), reduceBlocks);
      GridBlock(elements, reduceWorkGroupSize, reduceBlocks)
    }

    /** The 32-bit arithmetic of the kernel is exact: no block ends past 2^32. */
    predicate KernelFits(elements: nat)
      requires Geometry()
    {
      reduceBlocks * BlockSize(elements) < UINT_RANGE
    }

    lemma ArgumentsFit(elements: nat)
      requires Geometry() && KernelFits(elements)
      ensures elements < UINT_RANGE && BlockSize(elements) < UINT_RANGE
    {
      MulMono(1, reduceBlocks, BlockSize(elements));
    }

    /** It is for every number of elements that leaves room for a work-group in each block. */
    lemma ShortWindowsFit(elements: nat)
      requires Geometry() && elements + reduceWorkGroupSize * reduceBlocks <= UINT_RANGE
      ensures KernelFits(elements)
    {
      Commute(BlockSize(elements), reduceBlocks);
    }

    /** An accepted call for which it is not: of 2^32 - 1 elements the last of 64 groups would add up the last
        2^26 - 1, but its block ends at 2^32, which wraps to zero. */
    lemma LastGroupLost()
      requires Geometry() && reduceWorkGroupSize == 256 && reduceBlocks == 64
      ensures var elements := UINT_RANGE - 1; var len := BlockSize(elements);
              && len == 0x400_0000 && reduceBlocks * len == UINT_RANGE && !KernelFits(elements)
              && BlockEnd(elements, len, 63) - BlockStart(elements, len, 63) == 0x3ff_ffff
              && KernelStart(elements, len, 63) == 0xfc00_0000 && KernelEnd(elements, len, 63) == 0
    {
    }

    /** Group g adds up its block of the window [first, first + elements). */
    method SumBlock(input: array<nat>, first: nat, elements: nat, len: nat, g: nat)
      requires Geometry() && g < reduceBlocks && sums != input && first + elements <= input.Length
      requires reduceBlocks * len < UINT_RANGE
      modifies sums
      ensures sums[..] == old(sums[..])[g := BlockSum(input[first..first + elements], len, modulus, g)]
    {
      KernelBounds(elements, len, reduceBlocks, g);
      var lo, hi := first + KernelStart(elements, len, g), first + KernelEnd(elements, len, g);
      SliceOfSlice(input[..], first, first + elements, BlockStart(elements, len, g), BlockEnd(elements, len, g));
      var sum := RangeSum(input, lo, hi, modulus);
      sums[g] := sum;
    }

    /** The last group adds up the partial sums, which are all there, and stores the result. */
    method StoreTotal(output: array<nat>, outPosition: nat, ghost window: seq<nat>, ghost len: nat)
      requires Geometry() && outPosition < output.Length
      requires output == sums ==> outPosition == reduceBlocks
      requires |window| <= reduceBlocks * len
      requires forall g :: 0 <= g < reduceBlocks ==> sums[g] == BlockSum(window, len, modulus, g)
      modifies output
      ensures output[..] == old(output[..])[outPosition := Sum(window) % modulus]
    {
      var total := RangeSum(sums, 0, reduceBlocks, modulus);
      PartialsTotal(sums[..], window, len, modulus, reduceBlocks);
      assert sums[..][..reduceBlocks] == sums[0..reduceBlocks];
      SumWhole(window);
      output[outPosition] := total;
    }

    /** All groups, under any schedule: each iteration lets an arbitrary unfinished group take its next step.
        Whatever the order, the result is the sum of the window, exactly one group stores it, and the
        counter is ready for the next call. */
    method ReduceKernel(output: array<nat>, outPosition: nat, input: array<nat>, first: nat, elements: nat, len: nat)
      requires Valid() && sums != input && first + elements <= input.Length && outPosition < output.Length
      requires output == sums ==> outPosition == reduceBlocks
      requires elements <= reduceBlocks * len < UINT_RANGE
      modifies output, sums, this`wgc
      ensures Valid()
      ensures output[outPosition] == Sum(old(input[first..first + elements])) % modulus
      ensures output != sums ==> output[..] == old(output[..])[outPosition := output[outPosition]]
    {
      hide Running, BlockSum, Sum, Waiting, StepsLeft;
      ghost var window := input[first..first + elements];
      var pc: seq<Phase> := seq(reduceBlocks, _ => Summing);
      var stored := false;
      StartRunning(pc, wgc, sums[..], window, len, modulus);
      while exists g :: 0 <= g < reduceBlocks && pc[g] != Done
        invariant |pc| == reduceBlocks
        invariant !stored ==> Running(pc, wgc, sums[..], window, len, modulus)
        invariant !stored ==> input[first..first + elements] == window
        invariant !stored && output != sums ==> output[..] == old(output[..])
        invariant stored ==> wgc == reduceBlocks && forall g :: 0 <= g < reduceBlocks ==> pc[g] == Done
        invariant stored ==> output[outPosition] == Sum(window) % modulus
        invariant stored && output != sums ==> output[..] == old(output[..])[outPosition := output[outPosition]]
        decreases StepsLeft(pc)
      {
        var g :| 0 <= g < reduceBlocks && pc[g] != Done;
        match pc[g] {
          case Summing =>
            AfterSum(pc, wgc, sums[..], window, len, modulus, g);
            SumBlock(input, first, elements, len, g);
            pc := pc[g := Counting];
          case Counting =>
            AfterCount(pc, wgc, sums[..], window, len, modulus, g);
            wgc := wgc - 1;
            pc := pc[g := if wgc == 0 then Last else Done];
          case Last =>
            LastIsAlone(pc, wgc, sums[..], window, len, modulus, g);
            StoreTotal(output, outPosition, window, len);
            wgc := reduceBlocks;
            pc := pc[g := Done];
            stored := true;
          case Done =>
        }
      }
      if !stored {
        NotAllDone(pc, wgc, sums[..], window, len, modulus);
      }
    }

    /** The first of the checks that fails, in the order they are made; the sum of the two arguments is a
        size_t and may wrap. */
    static function FirstError(inBuffer: Buffer<nat>, outBuffer: Buffer<nat>, first: nat, elements: nat, outPosition: nat):
      Option<Error>
    {
      var end := (first + elements) % SIZE_RANGE;
      if end < first || inBuffer.data.Length < end then Some(InputRange)
      else if outBuffer.data.Length <= outPosition then Some(OutputRange)
      else if inBuffer.access == WriteOnly then Some(InputAccess)
      else if outBuffer.access == ReadOnly then Some(OutputAccess)
      else if elements == 0 then Some(NoElements)
      else None
    }

    /** Despite the wrap-around, the input check rejects exactly the ranges that do not fit the buffer. */
    static lemma InputCheckExactly(inBuffer: Buffer<nat>, outBuffer: Buffer<nat>, first: nat, elements: nat, outPosition: nat)
      requires first < SIZE_RANGE && elements < SIZE_RANGE && inBuffer.data.Length < SIZE_RANGE
      ensures FirstError(inBuffer, outBuffer, first, elements, outPosition) == Some(InputRange) <==>
              first + elements > inBuffer.data.Length
    {
      if first + elements >= SIZE_RANGE {
        DivModUnique(first + elements, SIZE_RANGE, 1, first + elements - SIZE_RANGE);
      }
    }

    /** Which error a call is rejected with: that of the first check that fails. */
    static lemma ErrorsExactly(inBuffer: Buffer<nat>, outBuffer: Buffer<nat>, first: nat, elements: nat, outPosition: nat)
      requires first < SIZE_RANGE && elements < SIZE_RANGE && inBuffer.data.Length < SIZE_RANGE
      ensures var error := FirstError(inBuffer, outBuffer, first, elements, outPosition);
              var fits := first + elements <= inBuffer.data.Length;
              var placed := fits && outPosition < outBuffer.data.Length;
              var usable := placed && inBuffer.access != WriteOnly && outBuffer.access != ReadOnly;
              && (error == Some(InputRange) <==> !fits)
              && (error == Some(OutputRange) <==> fits && !placed)
              && (error == Some(InputAccess) <==> placed && inBuffer.access == WriteOnly)
              && (error == Some(OutputAccess) <==> placed && inBuffer.access != WriteOnly && outBuffer.access == ReadOnly)
              && (error == Some(NoElements) <==> usable && elements == 0)
              && error != Some(NullOutput)
    {
      InputCheckExactly(inBuffer, outBuffer, first, elements, outPosition);
    }

    /** What a call has to satisfy to be accepted. */
    static predicate Accepts(inBuffer: Buffer<nat>, outBuffer: Buffer<nat>, first: nat, elements: nat, outPosition: nat) {
      && elements > 0 && first + elements <= inBuffer.data.Length && outPosition < outBuffer.data.Length
      && inBuffer.access != WriteOnly && outBuffer.access != ReadOnly
    }

    static lemma AcceptedExactly(inBuffer: Buffer<nat>, outBuffer: Buffer<nat>, first: nat, elements: nat, outPosition: nat)
      requires first < SIZE_RANGE && elements < SIZE_RANGE && inBuffer.data.Length < SIZE_RANGE
      ensures FirstError(inBuffer, outBuffer, first, elements, outPosition) == None <==>
              Accepts(inBuffer, outBuffer, first, elements, outPosition)
    {
      InputCheckExactly(inBuffer, outBuffer, first, elements, outPosition);
    }

    /** Reduces the window into one element of a device buffer, or rejects the call and changes nothing. */
    method Enqueue(queue: Queue, inBuffer: Buffer<nat>, outBuffer: Buffer<nat>, first: nat, elements: nat, outPosition: nat,
                   events: set<Event>)
      returns (outcome: Outcome)
      requires Valid() && inBuffer.data != sums
      requires outBuffer.data == sums ==> outPosition == reduceBlocks
      requires first < SIZE_RANGE && elements < SIZE_RANGE && inBuffer.data.Length < SIZE_RANGE
      requires Accepts(inBuffer, outBuffer, first, elements, outPosition) ==>
                 first < UINT_RANGE && outPosition < UINT_RANGE && KernelFits(elements)
      modifies outBuffer.data, sums, this`wgc, queue, this`notified
      ensures Valid()
      ensures match FirstError(inBuffer, outBuffer, first, elements, outPosition)
              case Some(e) =>
                && outcome == Rejected(e) && queue.log == old(queue.log) && notified == old(notified)
                && outBuffer.data[..] == old(outBuffer.data[..]) && sums[..] == old(sums[..])
              case None =>
                && first + elements <= inBuffer.data.Length
                && outPosition < outBuffer.data.Length
                && outBuffer.data[outPosition] == Sum(old(inBuffer.data[first..first + elements])) % modulus
                && (outBuffer.data != sums ==>
                      outBuffer.data[..] == old(outBuffer.data[..])[outPosition := outBuffer.data[outPosition]])
                && queue.log == old(queue.log) + [Command("reduce", events)]
                && outcome == Enqueued(|old(queue.log)|)
                && notified == old(notified) + [|old(queue.log)|]
    {
      hide Sum, BlockSize, FirstError, CastUint;
      AcceptedExactly(inBuffer, outBuffer, first, elements, outPosition);
      var error := FirstError(inBuffer, outBuffer, first, elements, outPosition);
      if error.Some? {
        return Rejected(error.value);
      }
      ArgumentsFit(elements);
      var blockSize := BlockSize(elements);
      var event;
      event, notified := Launch(queue, "reduce", events, notified);
      ReduceKernel(outBuffer.data, CastUint(outPosition), inBuffer.data, CastUint(first), CastUint(elements),
                   CastUint(blockSize));
      outcome := Enqueued(event);
    }

    /** Reduces into the spare slot of `sums` and reads that slot back to the host. The slot never holds a
        partial sum, so no group can overwrite or misread it. */
    method EnqueueToHost(queue: Queue, inBuffer: Buffer<nat>, outIsNull: bool, first: nat, elements: nat, events: set<Event>)
      returns (outcome: Outcome, out: nat)
      requires Valid() && inBuffer.data != sums
      requires first < SIZE_RANGE && elements < SIZE_RANGE && inBuffer.data.Length < SIZE_RANGE
      requires reduceBlocks < UINT_RANGE
      requires Accepts(inBuffer, Buffer(sums, ReadWrite), first, elements, reduceBlocks) ==>
                 first < UINT_RANGE && KernelFits(elements)
      modifies sums, this`wgc, queue, this`notified
      ensures Valid()
      ensures if outIsNull then outcome == Rejected(NullOutput) && queue.log == old(queue.log)
              else match FirstError(inBuffer, Buffer(sums, ReadWrite), first, elements, reduceBlocks)
              case Some(e) => outcome == Rejected(e) && queue.log == old(queue.log) && notified == old(notified)
              case None =>
                && first + elements <= inBuffer.data.Length
                && out == Sum(old(inBuffer.data[first..first + elements])) % modulus
                && old(queue.log) <= queue.log && Named(queue.log, |old(queue.log)|, HOST_KERNELS)
                && IsChain(queue.log, |old(queue.log)|, |queue.log|, events)
                && outcome.Enqueued? && outcome.event + 1 == |queue.log|
                && notified == old(notified) + EventRange(|old(queue.log)|, |queue.log|)
    {
      out := 0;
      AcceptedExactly(inBuffer, Buffer(sums, ReadWrite), first, elements, reduceBlocks);
      if outIsNull {
        return Rejected(NullOutput), out;
      }
      outcome := Enqueue(queue, inBuffer, Buffer(sums, ReadWrite), first, elements, reduceBlocks, events);
      if outcome.Rejected? {
        return outcome, out;
      }
      out := sums[reduceBlocks];
      var readEvent;
      readEvent, notified := Launch(queue, "readBuffer", {outcome.event}, notified);
      outcome := Enqueued(readEvent);
    }
  }
}

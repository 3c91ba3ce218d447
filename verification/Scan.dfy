/** The exclusive scan (src/scan.cpp): reduce all blocks but the last, scan the block sums with the
    offset, scan each block starting from its sum. The kernels are not part of this model; they are
    taken to do, on integers modulo 2^bits, what the host loop of the tests does
    (test/test_scan.cpp:166-172), each on its own block. */
module Scan {
  import opened Blocks
  import opened Buffers
  import opened Partition
  import opened Sums
  import opened CommandQueue

  /** Tuned parameters (src/cache_types.h:86-94). */
  datatype Parameters = Parameters(
    warpSizeMem: nat, warpSizeSchedule: nat, reduceWorkGroupSize: nat, scanWorkGroupSize: nat,
    scanWorkScale: nat, scanBlocks: nat)

  predicate Admissible(params: Parameters) {
    && params.reduceWorkGroupSize > 0 && params.scanWorkGroupSize > 0 && params.scanWorkScale > 0
    && params.scanBlocks > 0 && params.scanBlocks % 2 == 0
  }

  datatype Offset = NoOffset | HostOffset(value: nat) | DeviceOffset(buffer: Buffer<nat>, index: nat)

  datatype Error = Range | InputAccess | OutputAccess | OffsetRange | OffsetAccess | NoElements

  datatype Outcome = Enqueued(event: Event) | Rejected(error: Error)

  /** Element i of the exclusive scan. */
  function Scanned(input: seq<nat>, offset: nat, modulus: nat, i: nat): nat
    requires modulus > 0 && i <= |input|
  {
    (offset + Sum(input[..i])) % modulus
  }

  lemma ScannedStep(input: seq<nat>, offset: nat, modulus: nat, i: nat)
    requires modulus > 0 && i < |input|
    ensures Scanned(input, offset, modulus, i + 1) == (Scanned(input, offset, modulus, i) + input[i]) % modulus
  {
    hide Sum;
    SumStep(input, i);
    ModAdd(offset + Sum(input[..i]), input[i], modulus);
  }

  /** The exclusive scan as the reference loop computes it (test/test_scan.cpp:166-172): the first element is the
      offset, and each following one adds the input before it. */
  ghost predicate Accumulates(output: seq<nat>, input: seq<nat>, offset: nat, modulus: nat)
    requires modulus > 0
  {
    && |output| == |input|
    && (output != [] ==> output[0] == offset % modulus)
    && forall i | 0 <= i < |output| - 1 :: output[i + 1] == (output[i] + input[i]) % modulus
  }

  lemma ScanAccumulates(output: seq<nat>, input: seq<nat>, offset: nat, modulus: nat)
    requires modulus > 0
    ensures IsScan(output, input, offset, modulus) <==> Accumulates(output, input, offset, modulus)
  {
    if IsScan(output, input, offset, modulus) {
      ScanStarts(input, offset, modulus);
      hide Scanned;
      forall i | 0 <= i < |output| - 1 ensures output[i + 1] == (output[i] + input[i]) % modulus {
        ScannedStep(input, offset, modulus, i);
      }
    }
    if Accumulates(output, input, offset, modulus) {
      ScanStarts(input, offset, modulus);
      forall i | 0 <= i < |output| ensures output[i] == Scanned(input, offset, modulus, i) {
        AccumulatedAt(output, input, offset, modulus, i);
      }
    }
  }

  lemma ScanStarts(input: seq<nat>, offset: nat, modulus: nat)
    requires modulus > 0
    ensures Scanned(input, offset, modulus, 0) == offset % modulus
  {
  }

  lemma {:induction false} AccumulatedAt(output: seq<nat>, input: seq<nat>, offset: nat, modulus: nat, i: nat)
    requires modulus > 0 && Accumulates(output, input, offset, modulus) && i < |output|
    ensures output[i] == Scanned(input, offset, modulus, i)
  {
    if i == 0 {
      ScanStarts(input, offset, modulus);
    } else {
      AccumulatedAt(output, input, offset, modulus, i - 1);
      ScannedStep(input, offset, modulus, i - 1);
      assert output[(i - 1) + 1] == (output[i - 1] + input[i - 1]) % modulus;
    }
  }

  // ---- phase 1: sums of the blocks

  /** The first `groups` sums are those of the first blocks; nothing is known about the others. */
  ghost predicate SumsOf(sums: seq<nat>, input: seq<nat>, len: nat, modulus: nat, groups: nat)
    requires modulus > 0
  {
    groups <= |sums| && forall g :: 0 <= g < groups ==> sums[g] == BlockSum(input, len, modulus, g)
  }

  /** Launched for the first `groups` blocks, all of which are full. */
  method ReduceKernel(sums: array<nat>, input: array<nat>, len: nat, groups: nat, modulus: nat, ghost elements: nat)
    requires sums != input && groups <= sums.Length && modulus > 0
    requires groups * len <= elements <= input.Length
    modifies sums
    ensures SumsOf(sums[..], input[..elements], len, modulus, groups)
  {
    hide BlockSum, Sum;
    for g := 0 to groups
      invariant SumsOf(sums[..], input[..elements], len, modulus, g)
    {
      FullBlock(input[..], elements, len, groups, modulus, g);
      sums[g] := RangeSum(input, g * len, (g + 1) * len, modulus);
    }
  }

  /** A block of the window is a range of the buffer. */
  lemma FullBlock(input: seq<nat>, elements: nat, len: nat, groups: nat, modulus: nat, g: nat)
    requires groups * len <= elements <= |input| && g < groups && modulus > 0
    ensures g * len <= (g + 1) * len <= elements
    ensures BlockSum(input[..elements], len, modulus, g) == Sum(input[g * len..(g + 1) * len]) % modulus
  {
    NextMultiple(g, g + 1, len);
    MultiplesApart(g + 1, groups, len);
    assert input[..elements][g * len..(g + 1) * len] == input[g * len..(g + 1) * len];
  }

  // ---- phase 2: scan of the block sums

  /** Every sum has been replaced by the offset plus all sums before it. */
  ghost predicate SmallScanned(was: seq<nat>, now: seq<nat>, offset: nat, modulus: nat)
    requires modulus > 0
  {
    |now| == |was| && forall k :: 0 <= k < |now| ==> now[k] == Scanned(was, offset, modulus, k)
  }

  /** One work-group scans all the sums there is room for, whether or not they have been written. */
  method ScanSmallKernel(sums: array<nat>, offset: nat, modulus: nat)
    requires modulus > 0
    modifies sums
    ensures SmallScanned(old(sums[..]), sums[..], offset, modulus)
  {
    ghost var was := sums[..];
    var running := offset % modulus;
    for k := 0 to sums.Length
      invariant running == Scanned(was, offset, modulus, k)
      invariant forall j :: 0 <= j < k ==> sums[j] == Scanned(was, offset, modulus, j)
      invariant forall j :: k <= j < sums.Length ==> sums[j] == was[j]
    {
      ScannedStep(was, offset, modulus, k);
      var next := (running + sums[k]) % modulus;
      sums[k] := running;
      running := next;
    }
  }

  /** Whatever the sums that were not written hold, the scan gives each of the first blocks, and the one
      after them, the offset plus everything before the block. */
  lemma {:induction false} BlockOffsets(sums: seq<nat>, input: seq<nat>, offset: nat, len: nat, modulus: nat, groups: nat, b: nat)
    requires modulus > 0 && SumsOf(sums, input, len, modulus, groups) && b <= groups && b * len <= |input|
    ensures Scanned(sums, offset, modulus, b) == Scanned(input, offset, modulus, b * len)
  {
    hide Sum;
    if b == 0 {
      assert sums[..0] == input[..0 * len];
    } else {
      MultiplesApart(b - 1, b, len);
      BlockOffsets(sums, input, offset, len, modulus, groups, b - 1);
      ScannedStep(sums, offset, modulus, b - 1);
      SumSplit(input, (b - 1) * len, b * len);
      ModAdd(Sum(input[(b - 1) * len..b * len]), Scanned(input, offset, modulus, (b - 1) * len), modulus);
      ModAdd(offset + Sum(input[..(b - 1) * len]), Sum(input[(b - 1) * len..b * len]), modulus);
    }
  }

  // ---- phase 3: scan of each block

  /** running[b] is the value for the next element of block b. */
  ghost predicate RunningSums(running: seq<nat>, input: seq<nat>, offset: nat, modulus: nat, cursor: seq<nat>)
    requires modulus > 0
  {
    && |running| == |cursor|
    && forall b :: 0 <= b < |cursor| ==>
         cursor[b] <= |input| && running[b] == Scanned(input, offset, modulus, cursor[b])
  }

  /** Every element before its block's cursor has its final value. */
  ghost predicate Finished(output: seq<nat>, input: seq<nat>, offset: nat, modulus: nat, len: nat, cursor: seq<nat>)
    requires modulus > 0
  {
    && |output| == |input|
    && forall b, i :: 0 <= b < |cursor| && BlockStart(|input|, len, b) <= i < cursor[b] && i < |input| ==>
         output[i] == Scanned(input, offset, modulus, i)
  }

  /** The elements from the cursors on can still be read, even if input and output are the same. */
  ghost predicate Unread(now: seq<nat>, input: seq<nat>, len: nat, cursor: seq<nat>) {
    && |now| == |input|
    && forall b, i :: 0 <= b < |cursor| && cursor[b] <= i < BlockEnd(|input|, len, b) && i < |input| ==>
         now[i] == input[i]
  }

  // One step of block b, which is at element i. Each of the four facts is kept for its own reason.

  lemma StepCursor(elements: nat, len: nat, cursor: seq<nat>, b: nat)
    requires CursorsValid(elements, len, cursor) && b < |cursor| && cursor[b] < BlockEnd(elements, len, b)
    ensures cursor[b] < elements && CursorsValid(elements, len, cursor[b := cursor[b] + 1])
  {
    hide BlockStart, BlockEnd;
  }

  lemma StepRunning(running: seq<nat>, input: seq<nat>, offset: nat, modulus: nat, cursor: seq<nat>, b: nat)
    requires modulus > 0 && RunningSums(running, input, offset, modulus, cursor)
    requires b < |cursor| && cursor[b] < |input|
    ensures RunningSums(running[b := (running[b] + input[cursor[b]]) % modulus], input, offset, modulus,
                        cursor[b := cursor[b] + 1])
  {
    ScannedStep(input, offset, modulus, cursor[b]);
    hide Scanned;
  }

  lemma StepFinished(running: seq<nat>, output: seq<nat>, input: seq<nat>, offset: nat, modulus: nat, len: nat,
                     cursor: seq<nat>, b: nat)
    requires modulus > 0 && RunningSums(running, input, offset, modulus, cursor)
    requires Finished(output, input, offset, modulus, len, cursor)
    requires b < |cursor| && cursor[b] < |input|
    ensures Finished(output[cursor[b] := running[b]], input, offset, modulus, len, cursor[b := cursor[b] + 1])
  {
    hide Scanned, BlockStart;
    var i := cursor[b];
    var output', cursor' := output[i := running[b]], cursor[b := i + 1];
    forall c, j | 0 <= c < |cursor'| && BlockStart(|input|, len, c) <= j < cursor'[c] && j < |input|
      ensures output'[j] == Scanned(input, offset, modulus, j)
    {
      assert j != i ==> j < cursor[c];
    }
  }

  /** Reading on, nothing before the other cursors is disturbed. */
  lemma StepUnread(now: seq<nat>, input: seq<nat>, len: nat, cursor: seq<nat>, b: nat)
    requires Unread(now, input, len, cursor)
    requires b < |cursor| && cursor[b] < BlockEnd(|input|, len, b) && cursor[b] < |input|
    ensures now[cursor[b]] == input[cursor[b]] && Unread(now, input, len, cursor[b := cursor[b] + 1])
  {
    hide BlockEnd;
    var i := cursor[b];
    var cursor' := cursor[b := i + 1];
    forall c, j | 0 <= c < |cursor'| && cursor'[c] <= j < BlockEnd(|input|, len, c) && j < |input|
      ensures now[j] == input[j]
    {
      assert cursor[c] <= j;
    }
  }

  /** Writing in place disturbs only the element that has just been read. */
  lemma StepInPlace(now: seq<nat>, input: seq<nat>, len: nat, cursor: seq<nat>, b: nat, v: nat)
    requires Unread(now, input, len, cursor) && CursorsValid(|input|, len, cursor)
    requires b < |cursor| && cursor[b] < BlockEnd(|input|, len, b) && cursor[b] < |input|
    ensures Unread(now[cursor[b] := v], input, len, cursor[b := cursor[b] + 1])
  {
    hide BlockStart, BlockEnd;
    var i := cursor[b];
    var cursor' := cursor[b := i + 1];
    forall c, j | 0 <= c < |cursor'| && cursor'[c] <= j < BlockEnd(|input|, len, c) && j < |input|
      ensures now[i := v][j] == input[j]
    {
      assert cursor[c] <= j;
      if j == i {
        assert BlockStart(|input|, len, c) <= cursor[c];
        BlockUnique(|input|, len, b, c, i);
      }
    }
  }

  lemma ScanOne(running: seq<nat>, output: seq<nat>, now: seq<nat>, input: seq<nat>, offset: nat, modulus: nat,
                len: nat, cursor: seq<nat>, b: nat)
    requires modulus > 0 && CursorsValid(|input|, len, cursor)
    requires RunningSums(running, input, offset, modulus, cursor)
    requires Finished(output, input, offset, modulus, len, cursor) && Unread(now, input, len, cursor)
    requires b < |cursor| && cursor[b] < BlockEnd(|input|, len, b)
    ensures var i := cursor[b];
            && i < |input| && now[i] == input[i]
            && CursorsValid(|input|, len, cursor[b := i + 1])
            && RunningSums(running[b := (running[b] + input[i]) % modulus], input, offset, modulus, cursor[b := i + 1])
            && Finished(output[i := running[b]], input, offset, modulus, len, cursor[b := i + 1])
            && Unread(now[i := running[b]], input, len, cursor[b := i + 1])
            && Unread(now, input, len, cursor[b := i + 1])
  {
    StepCursor(|input|, len, cursor, b);
    StepRunning(running, input, offset, modulus, cursor, b);
    StepFinished(running, output, input, offset, modulus, len, cursor, b);
    StepUnread(now, input, len, cursor, b);
    StepInPlace(now, input, len, cursor, b, running[b]);
    hide CursorsValid, BlockStart, BlockEnd, Scanned;
  }

  lemma AllFinished(output: seq<nat>, input: seq<nat>, offset: nat, modulus: nat, len: nat, cursor: seq<nat>)
    requires modulus > 0 && Finished(output, input, offset, modulus, len, cursor)
    requires |input| <= |cursor| * len
    requires forall b :: 0 <= b < |cursor| ==> cursor[b] >= BlockEnd(|input|, len, b)
    ensures IsScan(output, input, offset, modulus)
  {
    forall i | 0 <= i < |input|
      ensures output[i] == Scanned(input, offset, modulus, i)
    {
      var b := BlockOf(|input|, len, |cursor|, i);
    }
  }

  /** The exclusive scan, modulo the element width. */
  ghost predicate IsScan(output: seq<nat>, input: seq<nat>, offset: nat, modulus: nat)
    requires modulus > 0
  {
    |output| == |input| && forall i :: 0 <= i < |input| ==> output[i] == Scanned(input, offset, modulus, i)
  }

  /** The blocks are scanned by work-groups that run in no particular order: each step picks any block that
      has elements left, reads its next element and replaces it by the block's running sum. */
  method ScanKernel(input: array<nat>, output: array<nat>, sums: array<nat>, len: nat, elements: nat, blocks: nat,
                    modulus: nat, ghost offset: nat)
    requires sums != input && sums != output && modulus > 0
    requires elements <= input.Length && elements <= output.Length && elements <= blocks * len
    requires blocks <= sums.Length
    requires BlocksReady(sums[..], input[..elements], offset, len, modulus, blocks)
    modifies output
    ensures IsScan(output[..elements], old(input[..elements]), offset, modulus)
    ensures output[elements..] == old(output[elements..])
  {
    hide Scanned, RunningSums, Finished, Unread, CursorsValid, IsScan, BlockStart, BlockEnd, Sum;
    ghost var input0 := input[..elements];
    var running: seq<nat> := sums[..blocks];
    var cursor: seq<nat> := seq(blocks, b requires 0 <= b < blocks => BlockStart(elements, len, b));
    ghost var left: seq<nat> := seq(blocks, b requires 0 <= b < blocks =>
      BlockEnd(elements, len, b) - BlockStart(elements, len, b));
    StartScan(running, output[..elements], input0, offset, modulus, len, cursor);
    while exists b :: 0 <= b < blocks && cursor[b] < BlockEnd(elements, len, b)
      invariant |running| == |cursor| == |left| == blocks
      invariant CursorsValid(elements, len, cursor)
      invariant forall b :: 0 <= b < blocks ==> left[b] == BlockEnd(elements, len, b) - cursor[b]
      invariant RunningSums(running, input0, offset, modulus, cursor)
      invariant Finished(output[..elements], input0, offset, modulus, len, cursor)
      invariant Unread(input[..elements], input0, len, cursor)
      invariant output[elements..] == old(output[elements..])
      decreases Sum(left)
    {
      var b :| 0 <= b < blocks && cursor[b] < BlockEnd(elements, len, b);
      var i := cursor[b];
      ScanOne(running, output[..elements], input[..elements], input0, offset, modulus, len, cursor, b);
      var next: nat := (running[b] + input[i]) % modulus;
      ghost var out1, in1 := output[..elements], input[..elements];
      output[i] := running[b];
      assert output[..elements] == out1[i := running[b]];
      assert input[..elements] == if input == output then in1[i := running[b]] else in1;
      running := running[b := next];
      cursor := cursor[b := i + 1];
      SumUpdate(left, b, left[b] - 1);
      left := left[b := left[b] - 1];
    }
    AllFinished(output[..elements], input0, offset, modulus, len, cursor);
  }

  lemma StartScan(running: seq<nat>, output: seq<nat>, input: seq<nat>, offset: nat, modulus: nat, len: nat, cursor: seq<nat>)
    requires modulus > 0 && |output| == |input| && |running| == |cursor|
    requires forall b :: 0 <= b < |cursor| ==>
               cursor[b] == BlockStart(|input|, len, b) && running[b] == Scanned(input, offset, modulus, cursor[b])
    ensures CursorsValid(|input|, len, cursor) && RunningSums(running, input, offset, modulus, cursor)
    ensures Finished(output, input, offset, modulus, len, cursor) && Unread(input, input, len, cursor)
  {
  }

  // ---- host side

  /** The kernels a scan launches, in order. */
  function KernelNames(blocks: nat, deviceOffset: bool): seq<string> {
    (if blocks > 1 then ["reduce"] else [])
    + [if deviceOffset then "scanExclusiveSmallOffset" else "scanExclusiveSmall", "scanExclusive"]
  }

  class Scan {
    const reduceWorkGroupSize: nat
    const scanWorkGroupSize: nat
    const scanWorkScale: nat
    const maxBlocks: nat
    /** The size of the element type in bytes, and 2 to the number of its bits. */
    const elementSize: nat
    const modulus: nat
    const sums: array<nat>
    /** Events passed to the event callback so far. */
    var notified: seq<Event>

    predicate Geometry() {
      && reduceWorkGroupSize > 0 && scanWorkGroupSize > 0 && scanWorkScale > 0
      && maxBlocks > 0 && maxBlocks % 2 == 0 && modulus > 0 && sums.Length == maxBlocks
      && 0 < elementSize <= MAX_ELEMENT_SIZE
    }

    constructor (params: Parameters, elementSize: nat)
      requires Admissible(params) && 0 < elementSize <= MAX_ELEMENT_SIZE
      ensures Geometry() && fresh(sums) && notified == []
      ensures this.elementSize == elementSize && modulus == Pow2(8 * elementSize) && maxBlocks == params.scanBlocks
      ensures reduceWorkGroupSize == params.reduceWorkGroupSize && scanWorkGroupSize == params.scanWorkGroupSize
      ensures scanWorkScale == params.scanWorkScale
    {
      reduceWorkGroupSize := params.reduceWorkGroupSize;
      scanWorkGroupSize := params.scanWorkGroupSize;
      scanWorkScale := params.scanWorkScale;
      maxBlocks := params.scanBlocks;
      this.elementSize := elementSize;
      modulus := Pow2(8 * elementSize);
      sums := new nat[params.scanBlocks];
      notified := [];
    }

    function TileSize(): (t: nat)
      requires Geometry()
      ensures t > 0 && t >= reduceWorkGroupSize && t >= scanWorkScale * scanWorkGroupSize
      ensures t == reduceWorkGroupSize || t == scanWorkScale * scanWorkGroupSize
    {
      ProductPositive(scanWorkScale, scanWorkGroupSize);
      Max(reduceWorkGroupSize, scanWorkScale * scanWorkGroupSize)
    }

    function BlockSize(elements: nat): (len: nat)
      requires Geometry()
      ensures len % TileSize() == 0
      ensures elements <= len * maxBlocks < elements + TileSize() * maxBlocks
    {
      GridBlock(elements, TileSize(), maxBlocks)
    }

    function AllBlocks(elements: nat): nat
      requires Geometry() && elements > 0
    {
      CeilDiv(elements, BlockSize(elements))
    }

    /** The three asserts of enqueueInternal (src/scan.cpp:470-472), for every number of elements. Since the
        last block is the only one that may be cut off, the reduction needs no bounds check. */
    lemma BlocksFit(elements: nat)
      requires Geometry() && elements > 0
      ensures 0 < AllBlocks(elements) <= maxBlocks
      ensures (AllBlocks(elements) - 1) * BlockSize(elements) < elements <= AllBlocks(elements) * BlockSize(elements)
    {
      var len, blocks := BlockSize(elements), AllBlocks(elements);
      CeilDivLeast(elements, len, maxBlocks) by {
        Commute(len, maxBlocks);
      }
      MultiplesApart(0, blocks, len);
      assert blocks == (blocks - 1) + 1;
      NextMultiple(blocks - 1, blocks, len);
    }

    /** If the tuned sizes are powers of two, the block size is a multiple of both work-group tiles. */
    lemma BlockSizeAligned(elements: nat)
      requires Geometry()
      requires IsPow2(reduceWorkGroupSize) && IsPow2(scanWorkGroupSize) && IsPow2(scanWorkScale)
      ensures BlockSize(elements) % reduceWorkGroupSize == 0
      ensures ProductIsPositive(scanWorkScale, scanWorkGroupSize) &&
              BlockSize(elements) % (scanWorkScale * scanWorkGroupSize) == 0
    {
      var tile := scanWorkScale * scanWorkGroupSize;
      ProductPositive(scanWorkScale, scanWorkGroupSize);
      Pow2Product(scanWorkScale, scanWorkGroupSize);
      if reduceWorkGroupSize <= tile {
        Pow2Divides(reduceWorkGroupSize, tile);
        MultipleTrans(BlockSize(elements), tile, reduceWorkGroupSize);
      } else {
        Pow2Divides(tile, reduceWorkGroupSize);
        MultipleTrans(BlockSize(elements), reduceWorkGroupSize, tile);
      }
    }

    static predicate ProductIsPositive(x: nat, y: nat) {
      x * y > 0
    }

    /** The first of the checks that fails, in the order they are made. The index of the offset is a
        cl_uint, and so is the index plus one. */
    function FirstError(inBuffer: Buffer<nat>, outBuffer: Buffer<nat>, elements: nat, offset: Offset): Option<Error> {
      if !LargeEnough(inBuffer.data.Length, elements, elementSize) then Some(Range)
      else if !LargeEnough(outBuffer.data.Length, elements, elementSize) then Some(Range)
      else if inBuffer.access == WriteOnly then Some(InputAccess)
      else if outBuffer.access == ReadOnly then Some(OutputAccess)
      else if offset.DeviceOffset? && offset.buffer.data.Length < CastUint(offset.index + 1) then Some(OffsetRange)
      else if offset.DeviceOffset? && offset.buffer.access == WriteOnly then Some(OffsetAccess)
      else if elements == 0 then Some(NoElements)
      else None
    }

    /** The range check rejects exactly the ranges that do not fit one of the buffers, except those whose size in
        bytes wraps to one that fits both. */
    lemma RangeCheckExactly(inBuffer: Buffer<nat>, outBuffer: Buffer<nat>, elements: nat, offset: Offset)
      requires Geometry()
      requires inBuffer.data.Length * elementSize < SIZE_RANGE && outBuffer.data.Length * elementSize < SIZE_RANGE
      ensures var shorter := Min(inBuffer.data.Length, outBuffer.data.Length);
              FirstError(inBuffer, outBuffer, elements, offset) == Some(Range) <==>
              elements > shorter &&
              (elements * elementSize < SIZE_RANGE || elements * elementSize % SIZE_RANGE > shorter * elementSize)
    {
      MultiplesApart(inBuffer.data.Length, outBuffer.data.Length, elementSize);
      MultiplesApart(outBuffer.data.Length, inBuffer.data.Length, elementSize);
      LargeEnoughExactly(Min(inBuffer.data.Length, outBuffer.data.Length), elements, elementSize);
    }

    /** Which error a call is rejected with: that of the first check that fails. */
    lemma ErrorsExactly(inBuffer: Buffer<nat>, outBuffer: Buffer<nat>, elements: nat, offset: Offset)
      requires Geometry()
      ensures var error := FirstError(inBuffer, outBuffer, elements, offset);
              var fit := LargeEnough(inBuffer.data.Length, elements, elementSize)
                         && LargeEnough(outBuffer.data.Length, elements, elementSize);
              var usable := fit && inBuffer.access != WriteOnly && outBuffer.access != ReadOnly;
              var offsetFits := offset.DeviceOffset? ==> (offset.index + 1) % UINT_RANGE <= offset.buffer.data.Length;
              var readable := offset.DeviceOffset? ==> offset.buffer.access != WriteOnly;
              && (error == Some(Range) <==> !fit)
              && (error == Some(InputAccess) <==> fit && inBuffer.access == WriteOnly)
              && (error == Some(OutputAccess) <==> fit && inBuffer.access != WriteOnly && outBuffer.access == ReadOnly)
              && (error == Some(OffsetRange) <==> usable && !offsetFits)
              && (error == Some(OffsetAccess) <==> usable && offsetFits && !readable)
              && (error == Some(NoElements) <==> usable && offsetFits && readable && elements == 0)
    {
    }

    /** A call whose offset index is not the largest cl_uint is accepted exactly if the buffers are large enough and
        have the right access, and there is something to scan. */
    lemma AcceptedExactly(inBuffer: Buffer<nat>, outBuffer: Buffer<nat>, elements: nat, offset: Offset)
      requires Geometry() && elements < UINT_RANGE
      requires offset.DeviceOffset? ==> offset.index < UINT_RANGE - 1
      ensures FirstError(inBuffer, outBuffer, elements, offset) == None <==>
              && 0 < elements <= inBuffer.data.Length && elements <= outBuffer.data.Length
              && inBuffer.access != WriteOnly && outBuffer.access != ReadOnly
              && (offset.DeviceOffset? ==>
                    offset.index < offset.buffer.data.Length && offset.buffer.access != WriteOnly)
    {
      LargeEnoughShort(inBuffer.data.Length, elements, elementSize);
      LargeEnoughShort(outBuffer.data.Length, elements, elementSize);
    }

    /** The documentation promises an error exactly when offsetIndex overruns offsetBuffer
        (include/clogs/scan.h:323). The code keeps that promise for every index but the largest
        cl_uint: that one plus one wraps to zero and passes the check. */
    lemma OffsetCheckExactly(inBuffer: Buffer<nat>, outBuffer: Buffer<nat>, elements: nat, buffer: Buffer<nat>, index: nat)
      requires index < UINT_RANGE
      requires FirstError(inBuffer, outBuffer, elements, NoOffset) == None
      ensures FirstError(inBuffer, outBuffer, elements, DeviceOffset(buffer, index)) == Some(OffsetRange) <==>
              buffer.data.Length <= index && index != UINT_RANGE - 1
    {
    }

    /** The value added to all elements, as it was when the scan was enqueued. */
    static function OffsetValue(offset: Offset): nat
      requires offset.DeviceOffset? ==> offset.index < offset.buffer.data.Length
      reads if offset.DeviceOffset? then {offset.buffer.data} else {}
    {
      match offset
      case NoOffset => 0
      case HostOffset(v) => v
      case DeviceOffset(buffer, index) => buffer.data[index]
    }

    /** Scans the first `elements` elements, or rejects the call and changes nothing. Input and output, or
        the buffer that holds the offset, may be the same; the result is that of the original contents.
        It does not depend on what earlier calls left in `sums`. */
    method EnqueueInternal(queue: Queue, inBuffer: Buffer<nat>, outBuffer: Buffer<nat>, elements: nat, offset: Offset,
                           events: set<Event>)
      returns (outcome: Outcome)
      requires Geometry()
      requires sums != inBuffer.data && sums != outBuffer.data
      requires offset.DeviceOffset? ==> offset.buffer.data != sums && offset.index < UINT_RANGE
      requires FirstError(inBuffer, outBuffer, elements, offset) == None ==>
                 && elements < UINT_RANGE && BlockSize(elements) < UINT_RANGE
                 && (offset.DeviceOffset? && offset.index == UINT_RANGE - 1 ==> offset.index < offset.buffer.data.Length)
      modifies outBuffer.data, sums, queue, this`notified
      ensures match FirstError(inBuffer, outBuffer, elements, offset)
              case Some(e) =>
                && outcome == Rejected(e) && outBuffer.data[..] == old(outBuffer.data[..])
                && queue.log == old(queue.log) && notified == old(notified) && sums[..] == old(sums[..])
              case None =>
                && elements <= inBuffer.data.Length && elements <= outBuffer.data.Length
                && (offset.NoOffset? ==>
                      Accumulates(outBuffer.data[..elements], old(inBuffer.data[..elements]), 0, modulus))
                && (offset.HostOffset? ==>
                      Accumulates(outBuffer.data[..elements], old(inBuffer.data[..elements]), offset.value, modulus))
                && (offset.DeviceOffset? ==>
                      offset.index < offset.buffer.data.Length
                      && Accumulates(outBuffer.data[..elements], old(inBuffer.data[..elements]),
                                     old(offset.buffer.data[offset.index]), modulus))
                && outBuffer.data[elements..] == old(outBuffer.data[elements..])
                && old(queue.log) <= queue.log
                && IsChain(queue.log, |old(queue.log)|, |queue.log|, events)
                && Named(queue.log, |old(queue.log)|, KernelNames(AllBlocks(elements), offset.DeviceOffset?))
                && outcome.Enqueued? && outcome.event + 1 == |queue.log|
                && notified == old(notified) + EventRange(|old(queue.log)|, |queue.log|)
    {
      var error := FirstError(inBuffer, outBuffer, elements, offset);
      if error.Some? {
        return Rejected(error.value);
      }
      LargeEnoughShort(inBuffer.data.Length, elements, elementSize);
      LargeEnoughShort(outBuffer.data.Length, elements, elementSize);
      ghost var value := OffsetValue(offset);
      ghost var input := inBuffer.data[..elements];
      assert match offset
             case NoOffset => value == 0
             case HostOffset(v) => value == v
             case DeviceOffset(buffer, index) => value == buffer.data[index];
      hide IsScan, Accumulates, IsChain, EventRange, BlockSize, AllBlocks, OffsetValue;
      var event := ScanChecked(queue, inBuffer.data, outBuffer.data, elements, offset, value, events);
      ScanAccumulates(outBuffer.data[..elements], input, value, modulus);
      outcome := Enqueued(event);
    }

    /** The body of enqueueInternal after its checks (src/scan.cpp:464-526). The offset is read when the small
        scan runs; `value` is what it was before the call. */
    method ScanChecked(queue: Queue, input: array<nat>, output: array<nat>, elements: nat, offset: Offset,
                       ghost value: nat, events: set<Event>)
      returns (scanEvent: Event)
      requires Geometry() && sums != input && sums != output
      requires 0 < elements < UINT_RANGE && BlockSize(elements) < UINT_RANGE
      requires elements <= input.Length && elements <= output.Length
      requires offset.DeviceOffset? ==> offset.buffer.data != sums && offset.index < offset.buffer.data.Length
      requires value == OffsetValue(offset)
      modifies output, sums, queue, this`notified
      ensures IsScan(output[..elements], old(input[..elements]), value, modulus)
      ensures output[elements..] == old(output[elements..])
      ensures old(queue.log) <= queue.log && IsChain(queue.log, |old(queue.log)|, |queue.log|, events)
      ensures Named(queue.log, |old(queue.log)|, KernelNames(AllBlocks(elements), offset.DeviceOffset?))
      ensures scanEvent + 1 == |queue.log|
      ensures notified == old(notified) + EventRange(|old(queue.log)|, |queue.log|)
    {
      hide IsScan, BlocksReady, ChainSoFar, IsChain, EventRange, BlockSize, AllBlocks, OffsetValue;
      var blockSize, allBlocks := BlockSize(elements), AllBlocks(elements);
      BlocksFit(elements);
      ghost var input0, log0 := input[..elements], queue.log;
      ghost var added: seq<Command>;
      var smallEvent;
      smallEvent, added := SumBlocks(queue, input, elements, blockSize, allBlocks, offset, value, events);
      scanEvent, notified := Launch(queue, "scanExclusive", {smallEvent}, notified);
      ScanKernel(input, output, sums, CastUint(blockSize), CastUint(elements), allBlocks, modulus, value);
      ChainOne(|log0|, added, queue.log[scanEvent], events);
      added := added + [queue.log[scanEvent]];
      assert queue.log == log0 + added;
      ChainComplete(log0, added, events, {scanEvent});
    }

    /** The first phase: sums of all blocks but the last. With a single block there is nothing to reduce. */
    method ReduceBlocks(queue: Queue, input: array<nat>, elements: nat, blockSize: nat, allBlocks: nat, events: set<Event>)
      returns (waitFor: set<Event>, ghost added: seq<Command>)
      requires Geometry() && sums != input && elements <= input.Length
      requires 0 < allBlocks <= maxBlocks && (allBlocks - 1) * blockSize <= elements && blockSize < UINT_RANGE
      modifies sums, queue, this`notified
      ensures SumsOf(sums[..], input[..elements], blockSize, modulus, allBlocks - 1)
      ensures queue.log == old(queue.log) + added && ChainSoFar(|old(queue.log)|, added, events, waitFor)
      ensures if allBlocks > 1 then |added| == 1 && added[0].kernel == "reduce" else added == []
      ensures notified == old(notified) + EventRange(|old(queue.log)|, |queue.log|)
    {
      hide SumsOf, ChainSoFar, EventRange;
      ghost var base := |queue.log|;
      added := [];
      ChainStart(base, events);
      waitFor := events;
      if allBlocks > 1 {
        var reduceEvent;
        reduceEvent, notified := Launch(queue, "reduce", waitFor, notified);
        ReduceKernel(sums, input, CastUint(blockSize), allBlocks - 1, modulus, elements);
        ChainOne(base, added, queue.log[reduceEvent], events);
        added, waitFor := added + [queue.log[reduceEvent]], {reduceEvent};
      } else {
        NoSums(sums[..], input[..elements], blockSize, modulus);
      }
    }

    /** The first two phases: afterwards `sums` holds, for each block, the offset plus everything before it. */
    method SumBlocks(queue: Queue, input: array<nat>, elements: nat, blockSize: nat, allBlocks: nat, offset: Offset,
                     ghost value: nat, events: set<Event>)
      returns (smallEvent: Event, ghost added: seq<Command>)
      requires Geometry() && sums != input && elements <= input.Length
      requires 0 < allBlocks <= maxBlocks && (allBlocks - 1) * blockSize <= elements && blockSize < UINT_RANGE
      requires offset.DeviceOffset? ==> offset.buffer.data != sums && offset.index < offset.buffer.data.Length
      requires value == OffsetValue(offset)
      modifies sums, queue, this`notified
      ensures BlocksReady(sums[..], input[..elements], value, blockSize, modulus, allBlocks)
      ensures queue.log == old(queue.log) + added
      ensures Named(added + [Command("scanExclusive", {smallEvent})], 0, KernelNames(allBlocks, offset.DeviceOffset?))
      ensures smallEvent + 1 == |queue.log| && ChainSoFar(|old(queue.log)|, added, events, {smallEvent})
      ensures notified == old(notified) + EventRange(|old(queue.log)|, |queue.log|)
    {
      hide Scanned, SmallScanned, SumsOf, ChainSoFar, EventRange, OffsetValue, BlocksReady, Named, KernelNames;
      ghost var base := |queue.log|;
      var waitFor;
      waitFor, added := ReduceBlocks(queue, input, elements, blockSize, allBlocks, events);
      ghost var partial := sums[..];
      var small := if offset.DeviceOffset? then "scanExclusiveSmallOffset" else "scanExclusiveSmall";
      smallEvent, notified := Launch(queue, small, waitFor, notified);
      ScanSmallKernel(sums, OffsetValue(offset), modulus);
      ChainOne(base, added, queue.log[smallEvent], events);
      NamedScan(added, queue.log[smallEvent], smallEvent, allBlocks, offset.DeviceOffset?);
      added := added + [queue.log[smallEvent]];
      SumsReady(partial, sums[..], input[..elements], value, blockSize, modulus, allBlocks);
    }
  }

  /** Each block's sum is the scanned value of its first element. */
  ghost predicate BlocksReady(sums: seq<nat>, input: seq<nat>, offset: nat, len: nat, modulus: nat, blocks: nat)
    requires modulus > 0
  {
    blocks <= |sums| &&
    forall b :: 0 <= b < blocks ==> sums[b] == Scanned(input, offset, modulus, BlockStart(|input|, len, b))
  }

  lemma NamedScan(added: seq<Command>, small: Command, smallEvent: Event, blocks: nat, deviceOffset: bool)
    requires if blocks > 1 then |added| == 1 && added[0].kernel == "reduce" else added == []
    requires small.kernel == if deviceOffset then "scanExclusiveSmallOffset" else "scanExclusiveSmall"
    ensures Named(added + [small] + [Command("scanExclusive", {smallEvent})], 0, KernelNames(blocks, deviceOffset))
  {
  }

  lemma NoSums(sums: seq<nat>, input: seq<nat>, len: nat, modulus: nat)
    requires modulus > 0
    ensures SumsOf(sums, input, len, modulus, 0)
  {
  }

  lemma SumsReady(partial: seq<nat>, sums: seq<nat>, input: seq<nat>, offset: nat, len: nat, modulus: nat, blocks: nat)
    requires modulus > 0 && blocks > 0 && (blocks - 1) * len <= |input| && blocks <= |partial| == |sums|
    requires SumsOf(partial, input, len, modulus, blocks - 1) && SmallScanned(partial, sums, offset, modulus)
    ensures BlocksReady(sums, input, offset, len, modulus, blocks)
  {
    forall b | 0 <= b < blocks
      ensures sums[b] == Scanned(input, offset, modulus, BlockStart(|input|, len, b))
    {
      MultiplesApart(b, blocks - 1, len);
      BlockOffsets(partial, input, offset, len, modulus, blocks - 1, b);
    }
  }
}

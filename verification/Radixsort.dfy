/** Host side of the radix sort (src/radixsort.cpp): the block decomposition, the three launches
    of each pass, the ping-pong between the user's and the temporary buffers, the copy back after
    an odd number of passes, and the chain of events. */
module Radixsort {
  import opened Blocks
  import opened Buffers
  import opened Partition
  import opened StableSort
  import opened RadixKernels
  import opened RadixOrder
  import opened CommandQueue

  /** Tuned parameters (src/cache_types.h:133-143). */
  datatype Parameters = Parameters(
    warpSizeMem: nat, warpSizeSchedule: nat, reduceWorkGroupSize: nat, scanWorkGroupSize: nat,
    scatterWorkGroupSize: nat, scatterWorkScale: nat, scanBlocks: nat, radixBits: nat)

  /** Number of work items that cooperate on a slice. */
  function ScatterSlice(params: Parameters): (s: nat)
    ensures s >= 1 && s >= params.warpSizeSchedule && s >= Pow2(params.radixBits)
    ensures s == params.warpSizeSchedule || s == Pow2(params.radixBits)
  {
    Max(params.warpSizeSchedule, Pow2(params.radixBits))
  }

  /** What the asserts and divisions of the block computations demand of the parameters. */
  predicate Admissible(params: Parameters) {
    && params.radixBits >= 1
    && params.reduceWorkGroupSize > 0 && params.scatterWorkScale > 0
    && params.scatterWorkGroupSize / ScatterSlice(params) > 0
    && params.scanBlocks > 0
    && params.scanBlocks % (params.scatterWorkGroupSize / ScatterSlice(params)) == 0
  }

  datatype Error = KeyRange | ValueRange | KeysAccess | ValuesAccess | NoElements | TooManyBits

  datatype Outcome = Enqueued(event: Event) | Rejected(error: Error)

  // ---- the kernels of a sort, in the order in which they are launched

  const PASS_KERNELS: seq<string> := ["radixsortReduce", "radixsortScan", "radixsortScatter"]

  function PassesNames(passes: nat): (names: seq<string>)
    ensures |names| == 3 * passes
  {
    seq(3 * passes, i requires 0 <= i < 3 * passes => PASS_KERNELS[i % 3])
  }

  function CopyNames(hasValues: bool): seq<string> {
    if hasValues then ["copyBuffer", "copyBuffer"] else ["copyBuffer"]
  }

  /** Copies follow only after an odd number of passes. */
  function SortNames(passes: nat, hasValues: bool): seq<string> {
    PassesNames(passes) + if passes % 2 == 0 then [] else CopyNames(hasValues)
  }

  lemma PassesNamesNext(passes: nat)
    ensures PassesNames(passes + 1) == PassesNames(passes) + PASS_KERNELS
  {
  }

  lemma NamedSort(log: seq<Command>, added: seq<Command>, passes: nat, more: seq<Command>, hasValues: bool)
    requires Named(added, 0, PassesNames(passes))
    requires if passes % 2 == 0 then more == [] else Named(more, 0, CopyNames(hasValues))
    ensures Named(log + (added + more), |log|, SortNames(passes, hasValues))
  {
    hide PassesNames, CopyNames;
    NamedAppend(added, PassesNames(passes), more, if passes % 2 == 0 then [] else CopyNames(hasValues));
    NamedAfter(log, added + more, SortNames(passes, hasValues));
  }

  class Radixsort<V(0,!new)> {
    const reduceWorkGroupSize: nat
    const scanWorkGroupSize: nat
    const scatterWorkGroupSize: nat
    const scatterWorkScale: nat
    const scatterSlice: nat
    const scanBlocks: nat
    const keySize: nat
    const valueSize: nat
    const radix: nat
    const radixBits: nat
    const histogram: array<nat>
    var tmpKeys: array?<nat>
    var tmpValues: array?<V>
    /** Events passed to the event callback so far. */
    var notified: seq<Event>

    /** The part of the invariant that is about the fixed parameters. */
    predicate Geometry() {
      && radixBits >= 1 && radix == Pow2(radixBits)
      && reduceWorkGroupSize > 0 && scatterWorkScale > 0 && scatterSlice > 0
      && scatterWorkGroupSize / scatterSlice > 0
      && scanBlocks > 0 && scanBlocks % (scatterWorkGroupSize / scatterSlice) == 0
      && 0 < keySize <= MAX_ELEMENT_SIZE && valueSize <= MAX_ELEMENT_SIZE
    }

    ghost predicate Valid()
      reads this
    {
      && Geometry()
      && histogram.Length == scanBlocks * radix
      && tmpKeys != histogram
      && (tmpKeys != null && tmpValues != null ==> tmpKeys as object != tmpValues as object)
      && tmpValues as object? != histogram as object?
    }

    constructor (params: Parameters, keySize: nat, valueSize: nat)
      requires Admissible(params) && 0 < keySize <= MAX_ELEMENT_SIZE && valueSize <= MAX_ELEMENT_SIZE
      ensures Valid() && fresh(histogram) && tmpKeys == null && tmpValues == null && notified == []
      ensures radixBits == params.radixBits && scanBlocks == params.scanBlocks
      ensures this.keySize == keySize && this.valueSize == valueSize
      ensures scatterSlice == ScatterSlice(params)
      ensures scatterWorkScale == params.scatterWorkScale && scatterWorkGroupSize == params.scatterWorkGroupSize
      ensures reduceWorkGroupSize == params.reduceWorkGroupSize && scanWorkGroupSize == params.scanWorkGroupSize
      ensures radix == Pow2(params.radixBits)
    {
      reduceWorkGroupSize := params.reduceWorkGroupSize;
      scanWorkGroupSize := params.scanWorkGroupSize;
      scatterWorkGroupSize := params.scatterWorkGroupSize;
      scatterWorkScale := params.scatterWorkScale;
      scanBlocks := params.scanBlocks;
      this.keySize := keySize;
      this.valueSize := valueSize;
      radixBits := params.radixBits;
      radix := Pow2(params.radixBits);
      scatterSlice := ScatterSlice(params);
      histogram := new nat[params.scanBlocks * Pow2(params.radixBits)];
      tmpKeys, tmpValues := null, null;
      notified := [];
    }

    method SetTemporaryBuffers(keys: array?<nat>, values: array?<V>)
      requires Valid()
      requires keys != histogram && values as object? != histogram as object?
      requires keys != null && values != null ==> keys as object != values as object
      modifies this`tmpKeys, this`tmpValues
      ensures Valid() && tmpKeys == keys && tmpValues == values
    {
      tmpKeys := keys;
      tmpValues := values;
    }

    // ---- block decomposition

    function GetTileSize(): (t: nat)
      requires Geometry()
      ensures t > 0 && t >= reduceWorkGroupSize && t >= scatterWorkScale * scatterWorkGroupSize
      ensures t == reduceWorkGroupSize || t == scatterWorkScale * scatterWorkGroupSize
    {
      ProductPositive(scatterWorkScale, scatterWorkGroupSize);
      Max(reduceWorkGroupSize, scatterWorkScale * scatterWorkGroupSize)
    }

    /** The least multiple of the tile size for which scanBlocks blocks are enough. */
    function GetBlockSize(elements: nat): (len: nat)
      requires Geometry()
      ensures len % GetTileSize() == 0
      ensures elements <= len * scanBlocks < elements + GetTileSize() * scanBlocks
      ensures elements > 0 ==> len > 0
    {
      var tileSize := GetTileSize();
      ProductPositive(tileSize, scanBlocks);
      var k := CeilDiv(elements, tileSize * scanBlocks);
      MulAssoc(k, tileSize, scanBlocks);
      MultipleMod(k, tileSize);
      (elements + tileSize * scanBlocks - 1) / (tileSize * scanBlocks) * tileSize
    }

    /** The number of blocks of length len that cover the elements, in whole work-groups. */
    function GetBlocks(elements: nat, len: nat): (blocks: nat)
      requires Geometry() && len > 0
      ensures elements <= blocks * len
      ensures blocks % (scatterWorkGroupSize / scatterSlice) == 0
    {
      var pieces := CeilDiv(elements, len);
      var blocks := RoundUp(pieces, scatterWorkGroupSize / scatterSlice);
      MultiplesApart(pieces, blocks, len);
      blocks
    }

    /** The assert of getBlocks (src/radixsort.cpp:94) holds for every number of elements. */
    lemma BlocksFit(elements: nat)
      requires Geometry() && elements > 0
      ensures 0 < GetBlocks(elements, GetBlockSize(elements)) <= scanBlocks
    {
      var len := GetBlockSize(elements);
      var slices := scatterWorkGroupSize / scatterSlice;
      CeilDivLeast(elements, len, scanBlocks) by {
        assert len * scanBlocks == scanBlocks * len;
      }
      RoundUpLeast(CeilDiv(elements, len), slices, scanBlocks);
    }

    /** No smaller number of whole work-groups covers the elements. */
    lemma BlocksLeast(elements: nat, len: nat, blocks: nat)
      requires Geometry() && len > 0
      requires elements <= blocks * len && blocks % (scatterWorkGroupSize / scatterSlice) == 0
      ensures GetBlocks(elements, len) <= blocks
    {
      CeilDivLeast(elements, len, blocks);
      RoundUpLeast(CeilDiv(elements, len), scatterWorkGroupSize / scatterSlice, blocks);
    }

    /** The 32-bit arithmetic of the kernels is exact for blocks of this length. */
    predicate KernelsFit(elements: nat, len: nat)
      requires Geometry() && len > 0
    {
      Fits32(elements, len, GetBlocks(elements, len), GetTileSize())
    }

    /** It is for every number of elements that leaves room for a tile in each block, and one more, below 2^31. */
    lemma ShortSortsFit(elements: nat)
      requires Geometry() && 0 < elements && elements + GetTileSize() * scanBlocks + GetTileSize() <= INT_RANGE
      ensures KernelsFit(elements, GetBlockSize(elements))
    {
      BlocksFit(elements);
      var len := GetBlockSize(elements);
      var blocks := GetBlocks(elements, len);
      hide GetBlocks, GetBlockSize, GetTileSize;
      MulMono(blocks, scanBlocks, len);
      MulMono(1, blocks, len);
      MulMono(1, len, blocks);
    }

    /** An accepted call for which it is not: with 2^32 - 1 elements the last of 504 blocks would end at
        4295015424, which wraps, so the kernels take it to be empty. */
    lemma LastBlockLost()
      requires Geometry() && reduceWorkGroupSize == 256 && scatterWorkGroupSize == 64
      requires scatterWorkScale == 7 && scatterSlice == 16 && scanBlocks == 504
      ensures var elements := UINT_RANGE - 1; var len := GetBlockSize(elements);
              && len == 8521856 && GetBlocks(elements, len) == 504 && !KernelsFit(elements, len)
              && KernelStart(elements, len, 503) == 4286493568 && KernelEnd(elements, len, 503) == 48128
              && BlockEnd(elements, len, 503) - BlockStart(elements, len, 503) == 8473727
    {
      assert GetTileSize() == 448;
      assert GetBlockSize(UINT_RANGE - 1) == (UINT_RANGE - 1 + 225791) / 225792 * 448 == 8521856;
      FiveHundredBlocks();
    }

    lemma FiveHundredBlocks()
      requires Geometry() && scatterWorkGroupSize == 64 && scatterSlice == 16
      ensures GetBlocks(UINT_RANGE - 1, 8521856) == 504
    {
      assert CeilDiv(UINT_RANGE - 1, 8521856) == 504;
      assert RoundUp(504, 4) == 504;
    }

    /** Another: with a single block, 2^31 elements are too far from its end for a signed distance, and the
        scatter phase writes none of the first tile. */
    lemma SingleBlockLost()
      requires Geometry() && reduceWorkGroupSize == 256 && scatterWorkGroupSize == 16
      requires scatterWorkScale == 1 && scatterSlice == 16 && scanBlocks == 1
      ensures var elements := 0x8000_0000; var len := GetBlockSize(elements);
              && len == elements && GetBlocks(elements, len) == 1 && !KernelsFit(elements, len)
              && TileCount(0, KernelEnd(elements, len, 0), 16) == 0 && TilePairs(0, BlockEnd(elements, len, 0), 16) == 16
    {
    }

    // ---- the three launches of a pass

    /** One histogram per block of len elements. */
    method EnqueueReduce(queue: Queue, keys: array<nat>, len: nat, elements: nat, firstBit: nat, waits: set<Event>)
      returns (event: Event)
      requires Valid() && keys != histogram
      requires len > 0 && KernelsFit(elements, len) && elements <= keys.Length
      requires GetBlocks(elements, len) <= scanBlocks
      modifies histogram, queue, this`notified
      ensures Valid()
      ensures IsHistogram(histogram[..], Digits(keys[..elements], firstBit, radix), radix, len, GetBlocks(elements, len))
      ensures queue.log == old(queue.log) + [Command("radixsortReduce", waits)]
      ensures event == |old(queue.log)| && notified == old(notified) + [event]
    {
      hide IsHistogram, Digits, GetBlocks;
      var blocks := GetBlocks(elements, len);
      event, notified := Launch(queue, "radixsortReduce", waits, notified);
      MultiplesApart(blocks, scanBlocks, radix);
      ReduceKernel(histogram, keys, CastUint(len), CastUint(elements), firstBit, radix, CastUint(blocks));
    }

    method EnqueueScan(queue: Queue, blocks: nat, waits: set<Event>) returns (event: Event)
      requires Valid() && blocks <= scanBlocks && blocks < UINT_RANGE
      modifies histogram, queue, this`notified
      ensures Valid()
      ensures ScannedTo(old(histogram[..]), histogram[..], radix, blocks, 0, radix)
      ensures queue.log == old(queue.log) + [Command("radixsortScan", waits)]
      ensures event == |old(queue.log)| && notified == old(notified) + [event]
    {
      event, notified := Launch(queue, "radixsortScan", waits, notified);
      MultiplesApart(blocks, scanBlocks, radix);
      ScanKernel(histogram, radix, CastUint(blocks));
    }

    /** Moves every pair to its place in the stable order of the current digit. */
    method EnqueueScatter(queue: Queue, outKeys: array<nat>, outValues: array<V>, inKeys: array<nat>, inValues: array<V>,
                          len: nat, elements: nat, firstBit: nat, waits: set<Event>)
      returns (event: Event)
      requires Valid()
      requires len > 0 && KernelsFit(elements, len)
      requires GetBlocks(elements, len) <= scanBlocks
      requires elements <= inKeys.Length && elements <= outKeys.Length
      requires valueSize != 0 ==> elements <= inValues.Length && elements <= outValues.Length
      requires outKeys != inKeys && outKeys != histogram && outValues != inValues
      requires {outKeys as object, inKeys as object, histogram as object} !! {outValues as object, inValues as object}
      requires IsOffsets(histogram[..], Digits(inKeys[..elements], firstBit, radix), radix, len, GetBlocks(elements, len))
      modifies outKeys, if valueSize != 0 then {outValues} else {}, queue, this`notified
      ensures Valid()
      ensures var p := Order(Digits(inKeys[..elements], firstBit, radix));
              && Moved(inKeys[..elements], outKeys[..elements], p)
              && (valueSize != 0 ==> Moved(inValues[..elements], outValues[..elements], p))
      ensures outKeys[elements..] == old(outKeys[elements..])
      ensures valueSize != 0 ==> outValues[elements..] == old(outValues[elements..])
      ensures queue.log == old(queue.log) + [Command("radixsortScatter", waits)]
      ensures event == |old(queue.log)| && notified == old(notified) + [event]
    {
      hide IsOffsets, Digits, Order, Moved, GetBlocks;
      var blocks := GetBlocks(elements, len);
      assert blocks % (scatterWorkGroupSize / scatterSlice) == 0;
      event, notified := Launch(queue, "radixsortScatter", waits, notified);
      MultiplesApart(blocks, scanBlocks, radix);
      ScatterKernel(outKeys, outValues, inKeys, inValues, histogram, CastUint(len), CastUint(elements),
                    firstBit, radix, blocks, valueSize != 0);
    }

    /** One pass: stable counting sort of the pairs by one digit, whatever the block length. */
    method EnqueuePass(queue: Queue, outKeys: array<nat>, outValues: array<V>, inKeys: array<nat>, inValues: array<V>,
                       len: nat, elements: nat, firstBit: nat, waits: set<Event>)
      returns (event: Event)
      requires Valid()
      requires len > 0 && KernelsFit(elements, len)
      requires GetBlocks(elements, len) <= scanBlocks
      requires elements <= inKeys.Length && elements <= outKeys.Length
      requires valueSize != 0 ==> elements <= inValues.Length && elements <= outValues.Length
      requires outKeys != inKeys && outKeys != histogram && inKeys != histogram && outValues != inValues
      requires {outKeys as object, inKeys as object, histogram as object} !! {outValues as object, inValues as object}
      modifies outKeys, if valueSize != 0 then {outValues} else {}, histogram, queue, this`notified
      ensures Valid()
      ensures var p := Order(Digits(inKeys[..elements], firstBit, radix));
              && Moved(inKeys[..elements], outKeys[..elements], p)
              && (valueSize != 0 ==> Moved(inValues[..elements], outValues[..elements], p))
      ensures outKeys[elements..] == old(outKeys[elements..])
      ensures valueSize != 0 ==> outValues[elements..] == old(outValues[elements..])
      ensures var base := |old(queue.log)|;
              && queue.log == old(queue.log) + [Command("radixsortReduce", waits), Command("radixsortScan", {base}),
                                                Command("radixsortScatter", {base + 1})]
              && event == base + 2
              && notified == old(notified) + [base, base + 1, base + 2]
    {
      hide IsHistogram, IsOffsets, ScannedTo, Order, Moved, Digits, GetBlocks;
      var blocks := GetBlocks(elements, len);
      ghost var ds := Digits(inKeys[..elements], firstBit, radix);
      event := EnqueueReduce(queue, inKeys, len, elements, firstBit, waits);
      ghost var counts := histogram[..];
      event := EnqueueScan(queue, blocks, {event});
      ScannedHistogram(counts, histogram[..], ds, radix, len, blocks);
      event := EnqueueScatter(queue, outKeys, outValues, inKeys, inValues, len, elements, firstBit, {event});
    }

    // ---- the whole sort

    method CopyBuffer<T>(queue: Queue, source: array<T>, target: array<T>, elements: nat, waits: set<Event>)
      returns (event: Event)
      requires source != target && elements <= source.Length && elements <= target.Length
      modifies target, queue, this`notified
      ensures target[..elements] == source[..elements]
      ensures target[elements..] == old(target[elements..])
      ensures queue.log == old(queue.log) + [Command("copyBuffer", waits)]
      ensures event == |old(queue.log)| && notified == old(notified) + [event]
    {
      event, notified := Launch(queue, "copyBuffer", waits, notified);
      for k := 0 to elements
        invariant forall j :: 0 <= j < k ==> target[j] == source[j]
        invariant target[elements..] == old(target[elements..])
        modifies target
      {
        target[k] := source[k];
      }
    }

    /** The first of the checks of enqueue that fails, in the order they are made. */
    function FirstError(keys: Buffer<nat>, values: Buffer<V>, elements: nat, maxBits: nat): Option<Error> {
      if !LargeEnough(keys.data.Length, elements, keySize) then Some(KeyRange)
      else if valueSize != 0 && !LargeEnough(values.data.Length, elements, valueSize) then Some(ValueRange)
      else if keys.access != ReadWrite then Some(KeysAccess)
      else if valueSize != 0 && values.access != ReadWrite then Some(ValuesAccess)
      else if elements == 0 then Some(NoElements)
      else if maxBits > 8 * keySize then Some(TooManyBits)
      else None
    }

    /** The range checks reject exactly the ranges that do not fit their buffers, except those whose size in
        bytes wraps to one that does. */
    lemma RangeChecksExactly(keys: Buffer<nat>, values: Buffer<V>, elements: nat, maxBits: nat)
      requires Geometry()
      requires keys.data.Length * keySize < SIZE_RANGE && values.data.Length * valueSize < SIZE_RANGE
      ensures FirstError(keys, values, elements, maxBits) == Some(KeyRange) <==>
              elements > keys.data.Length &&
              (elements * keySize < SIZE_RANGE || elements * keySize % SIZE_RANGE > keys.data.Length * keySize)
      ensures FirstError(keys, values, elements, maxBits) == Some(ValueRange) <==>
              LargeEnough(keys.data.Length, elements, keySize) && valueSize != 0 && elements > values.data.Length &&
              (elements * valueSize < SIZE_RANGE || elements * valueSize % SIZE_RANGE > values.data.Length * valueSize)
    {
      LargeEnoughExactly(keys.data.Length, elements, keySize);
      if valueSize != 0 {
        LargeEnoughExactly(values.data.Length, elements, valueSize);
      }
    }

    /** Which error a call is rejected with: that of the first check that fails. */
    lemma ErrorsExactly(keys: Buffer<nat>, values: Buffer<V>, elements: nat, maxBits: nat)
      requires Geometry()
      ensures var error := FirstError(keys, values, elements, maxBits);
              var keysFit := LargeEnough(keys.data.Length, elements, keySize);
              var fit := keysFit && (valueSize == 0 || LargeEnough(values.data.Length, elements, valueSize));
              var writable := keys.access == ReadWrite && (valueSize == 0 || values.access == ReadWrite);
              && (error == Some(KeyRange) <==> !keysFit)
              && (error == Some(ValueRange) <==> keysFit && !fit)
              && (error == Some(KeysAccess) <==> fit && keys.access != ReadWrite)
              && (error == Some(ValuesAccess) <==> fit && keys.access == ReadWrite && !writable)
              && (error == Some(NoElements) <==> fit && writable && elements == 0)
              && (error == Some(TooManyBits) <==> fit && writable && elements > 0 && maxBits > 8 * keySize)
    {
    }

    /** A call is accepted exactly if the buffers are large enough for its elements and may be read and written, and
        it asks for elements and no more bits than a key has. */
    lemma AcceptedExactly(keys: Buffer<nat>, values: Buffer<V>, elements: nat, maxBits: nat)
      requires Geometry() && elements < UINT_RANGE
      ensures FirstError(keys, values, elements, maxBits) == None <==>
              && 0 < elements <= keys.data.Length && keys.access == ReadWrite
              && (valueSize != 0 ==> elements <= values.data.Length && values.access == ReadWrite)
              && maxBits <= 8 * keySize
    {
      LargeEnoughShort(keys.data.Length, elements, keySize);
      if valueSize != 0 {
        LargeEnoughShort(values.data.Length, elements, valueSize);
      }
    }

    /** Zero bits are no error, although the documentation says so: they stand for all bits of the key. A call
        that passes the other checks is rejected exactly if it asks for more bits than a key has. */
    lemma BitsCheckExactly(keys: Buffer<nat>, values: Buffer<V>, elements: nat, maxBits: nat)
      requires Geometry() && FirstError(keys, values, elements, 1) == None
      ensures FirstError(keys, values, elements, maxBits) ==
              if maxBits > 8 * keySize then Some(TooManyBits) else None
      ensures SortedBits(0) == SortedBits(8 * keySize)
    {
    }

    /** The bits a sort looks at: whole digits, enough to cover maxBits. */
    function SortedBits(maxBits: nat): (bits: nat)
      requires Geometry()
      ensures maxBits > 0 ==> maxBits <= bits < maxBits + radixBits
      ensures maxBits == 0 ==> 8 * keySize <= bits < 8 * keySize + radixBits
      ensures bits % radixBits == 0
    {
      RoundUp(if maxBits == 0 then 8 * keySize else maxBits, radixBits)
    }

    /** How many passes a sort takes. */
    function Passes(sortedBits: nat): (passes: nat)
      requires Geometry()
      ensures passes * radixBits <= sortedBits < passes * radixBits + radixBits
    {
      Quot(sortedBits, radixBits)
    }

    lemma PassesAre(bits: nat, passes: nat, even: bool)
      requires Geometry() && PassesDone(passes, even, radixBits, RoundUp(bits, radixBits))
      ensures passes == Passes(RoundUp(bits, radixBits)) && even == (passes % 2 == 0)
    {
      hide RoundUp;
      DivModUnique(RoundUp(bits, radixBits), radixBits, passes, 0);
    }

    /** The user's buffers overlap neither each other nor the buffers owned by the sort. */
    predicate Separate(keys: Buffer<nat>, values: Buffer<V>)
      reads this
    {
      && keys.data != histogram && keys.data != tmpKeys && values.data != tmpValues
      && {values.data as object?} !! {keys.data as object?, histogram as object?, tmpKeys as object?}
      && {tmpValues as object?} !! {keys.data as object?}
    }

    /** Sorts the first `elements` pairs in the user's own buffers, or rejects the call and changes
        nothing. Everything enqueued forms one chain behind the caller's events, and the returned
        event is the last of the chain. */
    method Enqueue(queue: Queue, keys: Buffer<nat>, values: Buffer<V>, elements: nat, maxBits: nat, events: set<Event>)
      returns (outcome: Outcome)
      requires Valid() && Separate(keys, values)
      requires FirstError(keys, values, elements, maxBits) == None ==> KernelsFit(elements, GetBlockSize(elements))
      modifies keys.data, if valueSize != 0 then {values.data} else {}
      modifies tmpKeys, tmpValues, histogram, queue, this`notified
      ensures Valid()
      ensures match FirstError(keys, values, elements, maxBits)
              case Some(e) =>
                && outcome == Rejected(e)
                && keys.data[..] == old(keys.data[..]) && values.data[..] == old(values.data[..])
                && queue.log == old(queue.log) && notified == old(notified) && histogram[..] == old(histogram[..])
              case None =>
                && elements <= keys.data.Length && (valueSize != 0 ==> elements <= values.data.Length)
                && SortedTo(old(keys.data[..elements]), Prefix(old(values.data[..]), elements),
                            keys.data[..elements], Prefix(values.data[..], elements), SortedBits(maxBits), valueSize != 0)
                && SortedBy(old(keys.data[..elements]), Prefix(old(values.data[..]), elements),
                            keys.data[..elements], Prefix(values.data[..], elements),
                            if maxBits == 0 then 8 * keySize else maxBits, radixBits, valueSize != 0)
                && keys.data[elements..] == old(keys.data[elements..])
                && (valueSize != 0 ==> values.data[elements..] == old(values.data[elements..]))
                && old(queue.log) <= queue.log
                && Named(queue.log, |old(queue.log)|, SortNames(Passes(SortedBits(maxBits)), valueSize != 0))
                && IsChain(queue.log, |old(queue.log)|, |queue.log|, events)
                && outcome.Enqueued? && outcome.event + 1 == |queue.log|
                && notified == old(notified) + EventRange(|old(queue.log)|, |queue.log|)
    {
      var error := FirstError(keys, values, elements, maxBits);
      if error.Some? {
        return Rejected(error.value);
      }
      LargeEnoughShort(keys.data.Length, elements, keySize);
      if valueSize != 0 {
        LargeEnoughShort(values.data.Length, elements, valueSize);
      }
      hide SortedTo, SortedBy, IsChain, EventRange;
      ghost var keys0, values0 := keys.data[..elements], Prefix(values.data[..], elements);
      var event := SortChecked(queue, keys.data, values.data, elements,
                               if maxBits == 0 then 8 * keySize else maxBits, events);
      SortedByBits(keys0, values0, keys.data[..elements], Prefix(values.data[..], elements), SortedBits(maxBits),
                   if maxBits == 0 then 8 * keySize else maxBits, radixBits, valueSize != 0);
      outcome := Enqueued(event);
    }

    /** The body of enqueue after its checks (src/radixsort.cpp:201-258). */
    method SortChecked(queue: Queue, keys: array<nat>, values: array<V>, elements: nat, bits: nat, events: set<Event>)
      returns (next: Event)
      requires Valid() && Separate(Buffer(keys, ReadWrite), Buffer(values, ReadWrite))
      requires elements > 0 && KernelsFit(elements, GetBlockSize(elements)) && bits > 0
      requires elements <= keys.Length && (valueSize != 0 ==> elements <= values.Length)
      modifies keys, if valueSize != 0 then {values} else {}
      modifies tmpKeys, tmpValues, histogram, queue, this`notified
      ensures Valid()
      ensures SortedTo(old(keys[..elements]), Prefix(old(values[..]), elements),
                       keys[..elements], Prefix(values[..], elements), RoundUp(bits, radixBits), valueSize != 0)
      ensures keys[elements..] == old(keys[elements..])
      ensures valueSize != 0 ==> values[elements..] == old(values[elements..])
      ensures old(queue.log) <= queue.log
      ensures Named(queue.log, |old(queue.log)|, SortNames(Passes(RoundUp(bits, radixBits)), valueSize != 0))
      ensures IsChain(queue.log, |old(queue.log)|, |queue.log|, events) && next + 1 == |queue.log|
      ensures notified == old(notified) + EventRange(|old(queue.log)|, |queue.log|)
    {
      hide SortedTo, EventRange, IsChain, GetBlocks, GetBlockSize, GetTileSize, RoundUp, Prefix, Named, SortNames, Passes;
      var tmpKeys := ChooseBuffer(this.tmpKeys, elements);
      var tmpValues := ChooseBuffer(this.tmpValues, if valueSize != 0 then elements else 0);
      var blockSize := GetBlockSize(elements);
      BlocksFit(elements);
      next := SortWith(queue, keys, values, tmpKeys, tmpValues, blockSize, elements, bits, events);
    }

    /** The passes, and the copy back after an odd number of them. */
    method SortWith(queue: Queue, keys: array<nat>, values: array<V>, tmpKeys: array<nat>, tmpValues: array<V>,
                    blockSize: nat, elements: nat, bits: nat, events: set<Event>)
      returns (next: Event)
      requires Valid() && bits > 0
      requires blockSize > 0 && KernelsFit(elements, blockSize) && GetBlocks(elements, blockSize) <= scanBlocks
      requires elements <= keys.Length && elements <= tmpKeys.Length
      requires valueSize != 0 ==> elements <= values.Length && elements <= tmpValues.Length
      requires keys != tmpKeys && keys != histogram && tmpKeys != histogram && values != tmpValues
      requires {keys as object, tmpKeys as object, histogram as object} !! {values as object, tmpValues as object}
      modifies keys, tmpKeys, if valueSize != 0 then {values, tmpValues} else {}, histogram, queue, this`notified
      ensures Valid()
      ensures SortedTo(old(keys[..elements]), Prefix(old(values[..]), elements),
                       keys[..elements], Prefix(values[..], elements), RoundUp(bits, radixBits), valueSize != 0)
      ensures keys[elements..] == old(keys[elements..])
      ensures valueSize != 0 ==> values[elements..] == old(values[elements..])
      ensures old(queue.log) <= queue.log
      ensures Named(queue.log, |old(queue.log)|, SortNames(Passes(RoundUp(bits, radixBits)), valueSize != 0))
      ensures IsChain(queue.log, |old(queue.log)|, |queue.log|, events) && next + 1 == |queue.log|
      ensures notified == old(notified) + EventRange(|old(queue.log)|, |queue.log|)
    {
      hide SortedTo, ChainSoFar, EventRange, IsChain, GetBlocks, GetBlockSize, GetTileSize, RoundUp, Prefix;
      hide Named, PassesNames, CopyNames, SortNames, Passes, PassesDone;
      ghost var keys0, values0, log0 := keys[..elements], Prefix(values[..], elements), queue.log;
      if valueSize != 0 {
        PrefixIs(values, elements);
      }
      StartSort(keys0, values0, valueSize != 0);
      var curKeys, curValues;
      ghost var added, passes, even;
      curKeys, curValues, next, added, passes, even := SortPasses(queue, keys, values, tmpKeys, tmpValues, blockSize,
                                                                  elements, bits, keys0, values0, events);
      PassesAre(bits, passes, even);
      ghost var more: seq<Command> := [];
      if curKeys != keys {
        // an odd number of passes left the result in the temporary buffers
        next, more := CopyBack(queue, curKeys, curValues, keys, values, elements, {next},
                               |log0|, added, old(notified), events);
        if valueSize != 0 {
          PrefixIs(values, elements);
          PrefixIs(curValues, elements);
        } else {
          WithoutValues(keys0, values0, keys[..elements], Prefix(curValues[..], elements), Prefix(values[..], elements),
                        RoundUp(bits, radixBits));
        }
      }
      assert added + [] == added;
      assert queue.log == log0 + (added + more);
      NamedSort(log0, added, passes, more, valueSize != 0);
      ChainComplete(log0, added + more, events, {next});
    }

    /** The ping-pong: one pass for each digit, from one pair of buffers to the other. */
    method SortPasses(queue: Queue, keys: array<nat>, values: array<V>, tmpKeys: array<nat>, tmpValues: array<V>,
                      blockSize: nat, elements: nat, bits: nat,
                      ghost keys0: seq<nat>, ghost values0: seq<V>, events: set<Event>)
      returns (curKeys: array<nat>, curValues: array<V>, next: Event, ghost added: seq<Command>,
               ghost passes: nat, ghost even: bool)
      requires Valid() && bits > 0
      requires blockSize > 0 && KernelsFit(elements, blockSize) && GetBlocks(elements, blockSize) <= scanBlocks
      requires elements <= keys.Length && elements <= tmpKeys.Length
      requires valueSize != 0 ==> elements <= values.Length && elements <= tmpValues.Length
      requires keys != tmpKeys && keys != histogram && tmpKeys != histogram && values != tmpValues
      requires {keys as object, tmpKeys as object, histogram as object} !! {values as object, tmpValues as object}
      requires SortedTo(keys0, values0, keys[..elements], Prefix(values[..], elements), 0, valueSize != 0)
      modifies keys, tmpKeys, if valueSize != 0 then {values, tmpValues} else {}, histogram, queue, this`notified
      ensures Valid()
      ensures PassesDone(passes, even, radixBits, RoundUp(bits, radixBits)) && Named(added, 0, PassesNames(passes))
      ensures if even then curKeys == keys && curValues == values
              else curKeys == tmpKeys && curValues == tmpValues
      ensures SortedTo(keys0, values0, curKeys[..elements], Prefix(curValues[..], elements), RoundUp(bits, radixBits),
                       valueSize != 0)
      ensures keys[elements..] == old(keys[elements..])
      ensures valueSize != 0 ==> values[elements..] == old(values[elements..])
      ensures queue.log == old(queue.log) + added && added != [] && next + 1 == |queue.log|
      ensures ChainSoFar(|old(queue.log)|, added, events, {next})
      ensures notified == old(notified) + EventRange(|old(queue.log)|, |queue.log|)
    {
      hide SortedTo, ChainSoFar, EventRange, GetBlocks, RoundUp, Prefix, PassesDone, Named, PassesNames;
      ghost var log0 := queue.log;
      PassesNone(radixBits);
      NoneNamed();
      ChainStart(|log0|, events);
      curKeys, curValues := keys, values;
      var nextKeys, nextValues := tmpKeys, tmpValues;
      var waitFor := events;
      var firstBit := 0;
      next, added, passes, even := 0, [], 0, true;
      while firstBit < bits
        invariant Valid() && firstBit < bits + radixBits
        invariant PassesDone(passes, even, radixBits, firstBit) && Named(added, 0, PassesNames(passes))
        invariant if even
                  then curKeys == keys && curValues == values && nextKeys == tmpKeys && nextValues == tmpValues
                  else curKeys == tmpKeys && curValues == tmpValues && nextKeys == keys && nextValues == values
        invariant SortedTo(keys0, values0, curKeys[..elements], Prefix(curValues[..], elements), firstBit, valueSize != 0)
        invariant keys[elements..] == old(keys[elements..])
        invariant valueSize != 0 ==> values[elements..] == old(values[elements..])
        invariant queue.log == log0 + added && ChainSoFar(|log0|, added, events, waitFor)
        invariant firstBit > 0 ==> added != [] && next + 1 == |queue.log| && waitFor == {next}
        invariant notified == old(notified) + EventRange(|log0|, |queue.log|)
        decreases bits - firstBit
      {
        ghost var more;
        next, more := SortPass(queue, nextKeys, nextValues, curKeys, curValues, blockSize, elements, firstBit, waitFor,
                               keys0, values0, |log0|, added, old(notified), events);
        NamedAppend(added, PassesNames(passes), more, PASS_KERNELS);
        PassesNamesNext(passes);
        added, waitFor := added + more, {next};
        curKeys, nextKeys := nextKeys, curKeys;
        curValues, nextValues := nextValues, curValues;
        PassesNext(passes, even, radixBits, firstBit);
        passes, even := passes + 1, !even;
        firstBit := firstBit + radixBits;
      }
      LastBit(bits, radixBits, firstBit, passes, even);
    }

    /** One pass as a step of the whole sort: it sorts by one more digit and continues the chain. */
    method SortPass(queue: Queue, outKeys: array<nat>, outValues: array<V>, inKeys: array<nat>, inValues: array<V>,
                    len: nat, elements: nat, firstBit: nat, waitFor: set<Event>,
                    ghost keys0: seq<nat>, ghost values0: seq<V>,
                    ghost base: nat, ghost added: seq<Command>, ghost notified0: seq<Event>, ghost events: set<Event>)
      returns (next: Event, ghost more: seq<Command>)
      requires Valid()
      requires len > 0 && KernelsFit(elements, len)
      requires GetBlocks(elements, len) <= scanBlocks
      requires elements <= inKeys.Length && elements <= outKeys.Length
      requires valueSize != 0 ==> elements <= inValues.Length && elements <= outValues.Length
      requires outKeys != inKeys && outKeys != histogram && inKeys != histogram && outValues != inValues
      requires {outKeys as object, inKeys as object, histogram as object} !! {outValues as object, inValues as object}
      requires SortedTo(keys0, values0, inKeys[..elements], Prefix(inValues[..], elements), firstBit, valueSize != 0)
      requires ChainSoFar(base, added, events, waitFor) && |queue.log| == base + |added|
      requires notified == notified0 + EventRange(base, |queue.log|)
      modifies outKeys, if valueSize != 0 then {outValues} else {}, histogram, queue, this`notified
      ensures Valid()
      ensures SortedTo(keys0, values0, outKeys[..elements], Prefix(outValues[..], elements), firstBit + radixBits,
                       valueSize != 0)
      ensures outKeys[elements..] == old(outKeys[elements..])
      ensures valueSize != 0 ==> outValues[elements..] == old(outValues[elements..])
      ensures queue.log == old(queue.log) + more && Named(more, 0, PASS_KERNELS) && next + 1 == |queue.log|
      ensures ChainSoFar(base, added + more, events, {next})
      ensures notified == notified0 + EventRange(base, |queue.log|)
    {
      hide SortedTo, PairsMoved, ChainSoFar, Order, Low, Moved, Digits, EventRange, GetBlocks, Prefix;
      if valueSize != 0 {
        PrefixIs(inValues, elements);
      }
      ghost var k1, v1 := inKeys[..elements], Prefix(inValues[..], elements);
      next := EnqueuePass(queue, outKeys, outValues, inKeys, inValues, len, elements, firstBit, waitFor);
      if valueSize != 0 {
        PrefixIs(outValues, elements);
      }
      PassDone(keys0, values0, k1, v1, outKeys[..elements], Prefix(outValues[..], elements),
               firstBit, radixBits, valueSize != 0);
      ghost var n := base + |added|;
      more := [queue.log[n], queue.log[n + 1], queue.log[n + 2]];
      ChainPass(base, added, more[0], more[1], more[2], events);
    }

    /** Copies the sorted pairs to the other buffers, keys first; the copies continue the chain. */
    method CopyBack(queue: Queue, fromKeys: array<nat>, fromValues: array<V>, keys: array<nat>, values: array<V>,
                    elements: nat, waitFor: set<Event>,
                    ghost base: nat, ghost added: seq<Command>, ghost notified0: seq<Event>, ghost events: set<Event>)
      returns (next: Event, ghost more: seq<Command>)
      requires fromKeys != keys && fromValues != values
      requires {fromKeys as object, keys as object} !! {fromValues as object, values as object}
      requires elements <= keys.Length && elements <= fromKeys.Length
      requires valueSize != 0 ==> elements <= values.Length && elements <= fromValues.Length
      requires ChainSoFar(base, added, events, waitFor) && |queue.log| == base + |added|
      requires notified == notified0 + EventRange(base, |queue.log|)
      modifies keys, if valueSize != 0 then {values} else {}, queue, this`notified
      ensures keys[..elements] == fromKeys[..elements] && keys[elements..] == old(keys[elements..])
      ensures valueSize != 0 ==>
                values[..elements] == fromValues[..elements] && values[elements..] == old(values[elements..])
      ensures queue.log == old(queue.log) + more && Named(more, 0, CopyNames(valueSize != 0)) && next + 1 == |queue.log|
      ensures ChainSoFar(base, added + more, events, {next})
      ensures notified == notified0 + EventRange(base, |queue.log|)
    {
      hide ChainSoFar, EventRange;
      next := CopyBuffer(queue, fromKeys, keys, elements, waitFor);
      ChainOne(base, added, queue.log[next], events);
      more := [queue.log[next]];
      if valueSize != 0 {
        next := CopyBuffer(queue, fromValues, values, elements, {next});
        ChainOne(base, added + more, queue.log[next], events);
        assert added + more + [queue.log[next]] == added + (more + [queue.log[next]]);
        more := more + [queue.log[next]];
      }
    }

    /** The user's temporary buffer if it is large enough, otherwise a new one. */
    method ChooseBuffer<T(0)>(given: array?<T>, elements: nat) returns (buffer: array<T>)
      ensures if given != null && given.Length >= elements then buffer == given
              else fresh(buffer) && buffer.Length == elements
    {
      if given != null && given.Length >= elements {
        buffer := given;
      } else {
        buffer := new T[elements];
      }
    }
  }

  function Prefix<T>(s: seq<T>, n: nat): seq<T> {
    if n <= |s| then s[..n] else s
  }

  lemma PrefixIs<T>(a: array<T>, n: nat)
    requires n <= a.Length
    ensures Prefix(a[..], n) == a[..n]
  {
  }

  ghost predicate PairsMoved<V>(keys: seq<nat>, values: seq<V>, outKeys: seq<nat>, outValues: seq<V>, p: seq<nat>,
                                hasValues: bool) {
    Moved(keys, outKeys, p) && (hasValues ==> Moved(values, outValues, p))
  }

  /** The pairs are sorted stably by the bits below firstBit. */
  ghost predicate SortedTo<V>(keys0: seq<nat>, values0: seq<V>, keys: seq<nat>, values: seq<V>, firstBit: nat,
                              hasValues: bool) {
    PairsMoved(keys0, values0, keys, values, Order(Low(keys0, firstBit)), hasValues)
  }

  /** What a call that asks for so many bits promises: the pairs are sorted stably by the least number of whole
      digits that has those bits; and if no key has more bits, the keys are sorted outright. */
  ghost predicate SortedBy<V(!new)>(keys0: seq<nat>, values0: seq<V>, keys: seq<nat>, values: seq<V>, bits: nat,
                                    radixBits: nat, hasValues: bool)
    requires radixBits > 0
  {
    && (exists whole: nat | bits <= whole < bits + radixBits && whole % radixBits == 0 ::
          StablySorted(keys0, values0, keys, values, whole, hasValues))
    && ((forall i | 0 <= i < |keys0| :: keys0[i] < Pow2(bits)) ==> Sorted(keys0, values0, keys, values, hasValues))
  }

  lemma SortedByBits<V(!new)>(keys0: seq<nat>, values0: seq<V>, keys: seq<nat>, values: seq<V>, whole: nat, bits: nat,
                              radixBits: nat, hasValues: bool)
    requires radixBits > 0 && bits <= whole < bits + radixBits && whole % radixBits == 0
    requires SortedTo(keys0, values0, keys, values, whole, hasValues)
    ensures SortedBy(keys0, values0, keys, values, bits, radixBits, hasValues)
  {
    hide Pow2, Order, Low, Moved, Sorted, StablySorted;
    OrderSortsStably(keys0, values0, keys, values, whole, hasValues);
    if forall i | 0 <= i < |keys0| :: keys0[i] < Pow2(bits) {
      Pow2Mono(bits, whole);
      SortedOutright(keys0, values0, keys, values, whole, hasValues);
    }
  }

  lemma StartSort<V>(keys: seq<nat>, values: seq<V>, hasValues: bool)
    requires hasValues ==> |keys| == |values|
    ensures SortedTo(keys, values, keys, values, 0, hasValues)
  {
    NoBitsSorted(keys);
    StableOrderUnique(Low(keys, 0), Identity(|keys|));
  }

  lemma WithoutValues<V>(keys0: seq<nat>, values0: seq<V>, keys: seq<nat>, values: seq<V>, others: seq<V>, bits: nat)
    requires SortedTo(keys0, values0, keys, values, bits, false)
    ensures SortedTo(keys0, values0, keys, others, bits, false)
  {
  }

  lemma PassDone<V>(keys0: seq<nat>, values0: seq<V>, k1: seq<nat>, v1: seq<V>, k2: seq<nat>, v2: seq<V>,
                    firstBit: nat, radixBits: nat, hasValues: bool)
    requires SortedTo(keys0, values0, k1, v1, firstBit, hasValues)
    requires Moved(k1, k2, Order(Digits(k1, firstBit, Pow2(radixBits))))
    requires hasValues ==> Moved(v1, v2, Order(Digits(k1, firstBit, Pow2(radixBits))))
    ensures SortedTo(keys0, values0, k2, v2, firstBit + radixBits, hasValues)
  {
    var p := Order(Low(keys0, firstBit));
    var q := Order(Digits(k1, firstBit, Pow2(radixBits)));
    OrderIsStable(Low(keys0, firstBit));
    PassExtends(keys0, k1, p, firstBit, radixBits);
    StableOrderUnique(Low(keys0, firstBit + radixBits), Then(p, q));
    MovedTwice(keys0, k1, k2, p, q);
    if hasValues {
      MovedTwice(values0, v1, v2, p, q);
    }
  }

  /** The loop has gone through so many passes. */
  ghost predicate PassesDone(passes: nat, even: bool, radixBits: nat, firstBit: nat) {
    firstBit == passes * radixBits && even == (passes % 2 == 0)
  }

  lemma NoneNamed()
    ensures Named([], 0, PassesNames(0))
  {
  }

  lemma PassesNone(radixBits: nat)
    ensures PassesDone(0, true, radixBits, 0)
  {
  }

  lemma PassesNext(passes: nat, even: bool, radixBits: nat, firstBit: nat)
    requires PassesDone(passes, even, radixBits, firstBit)
    ensures PassesDone(passes + 1, !even, radixBits, firstBit + radixBits)
  {
    assert (passes + 1) * radixBits == passes * radixBits + radixBits;
  }

  /** The bits covered when the loop ends. */
  lemma LastBit(bits: nat, radixBits: nat, firstBit: nat, passes: nat, even: bool)
    requires radixBits > 0
    requires bits <= firstBit < bits + radixBits && PassesDone(passes, even, radixBits, firstBit)
    ensures firstBit == RoundUp(bits, radixBits)
  {
    var r := RoundUp(bits, radixBits);
    MultipleMod(passes, radixBits);
    RoundUpLeast(bits, radixBits, firstBit);
    Quotient(r, radixBits);
    MultiplesApart(r / radixBits, passes, radixBits);
  }

  /** What the user is promised (include/clogs/radixsort.h:224-227): if maxBits really bounds the keys,
      the keys end up in ascending order, pairs with equal keys keep their order, and no pair is lost,
      duplicated or torn apart. */
  lemma SortedByWholeKey<V(!new)>(keys0: seq<nat>, values0: seq<V>, keys: seq<nat>, values: seq<V>,
                                  maxBits: nat, sortedBits: nat)
    requires |keys0| == |values0| && maxBits <= sortedBits
    requires SortedTo(keys0, values0, keys, values, sortedBits, true)
    requires forall i :: 0 <= i < |keys0| ==> keys0[i] < Pow2(maxBits)
    ensures forall x, y :: 0 <= x < y < |keys| ==> keys[x] <= keys[y]
    ensures |keys| == |values| == |keys0| && multiset(Pairs(keys, values)) == multiset(Pairs(keys0, values0))
    ensures var p := Order(keys0);
            && Moved(keys0, keys, p) && Moved(values0, values, p)
            && forall i, j :: 0 <= i < j < |keys0| && keys0[i] == keys0[j] ==> p[i] < p[j]
  {
    Pow2Mono(maxBits, sortedBits);
    LowIsWhole(keys0, sortedBits);
    SortedMeaning(keys0, values0, keys, values, sortedBits);
    OutputSorted(keys0, keys);
    OrderIsStable(keys0);
    forall i, j | 0 <= i < j < |keys0| && keys0[i] == keys0[j]
      ensures Order(keys0)[i] < Order(keys0)[j]
    {
      assert Precedes(keys0, i, j);
    }
  }
}

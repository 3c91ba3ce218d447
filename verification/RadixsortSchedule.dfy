/** The radix sort on an out-of-order queue. `Radixsort.Radixsort.Enqueue` applies each command where it is
    enqueued; here its commands take effect whenever the device finishes them, each in any way its kernel's
    contract allows, and the sorted result is the same. */
module RadixsortSchedule {
  import opened Blocks
  import opened CommandQueue
  import opened StableSort
  import opened RadixKernels
  import opened RadixOrder
  import opened Radixsort

  /** The user's buffers, the temporary ones and the histogram. */
  datatype Memory<V> = Memory(keys: seq<nat>, values: seq<V>, tmpKeys: seq<nat>, tmpValues: seq<V>, histogram: seq<nat>)

  /** One accepted call. */
  datatype Call = Call(elements: nat, len: nat, blocks: nat, tile: nat, radixBits: nat, passes: nat, hasValues: bool)

  /** The buffers are large enough, and the 32-bit arithmetic of the kernels is exact. */
  ghost predicate Ready<V>(c: Call, m: Memory<V>) {
    && Fits32(c.elements, c.len, c.blocks, c.tile)
    && c.elements <= |m.keys| && c.elements <= |m.tmpKeys|
    && (c.hasValues ==> c.elements <= |m.values| && c.elements <= |m.tmpValues|)
    && c.blocks * Pow2(c.radixBits) <= |m.histogram| && c.elements <= c.blocks * c.len
  }

  /** The pairs in the temporary buffers, or in the user's. */
  function Keys<V>(c: Call, m: Memory<V>, tmp: bool): seq<nat> {
    Prefix(if tmp then m.tmpKeys else m.keys, c.elements)
  }

  function Values<V>(c: Call, m: Memory<V>, tmp: bool): seq<V> {
    Prefix(if tmp then m.tmpValues else m.values, c.elements)
  }

  /** The buffers have kept their lengths, and what lies past the elements its contents. */
  ghost predicate SameTails<V>(c: Call, m: Memory<V>, m': Memory<V>)
    requires Ready(c, m)
  {
    && |m'.keys| == |m.keys| && |m'.tmpKeys| == |m.tmpKeys|
    && |m'.values| == |m.values| && |m'.tmpValues| == |m.tmpValues| && |m'.histogram| == |m.histogram|
    && m'.keys[c.elements..] == m.keys[c.elements..]
    && (c.hasValues ==> m'.values[c.elements..] == m.values[c.elements..])
    && (!c.hasValues ==> m'.values == m.values)
  }

  function DigitsOf<V>(c: Call, m: Memory<V>, tmp: bool, firstBit: nat): seq<nat> {
    Digits(Keys(c, m, tmp), firstBit, Pow2(c.radixBits))
  }

  // ---- the contracts of the commands of one pass, and of the copies

  ghost predicate Counted<V>(c: Call, tmp: bool, firstBit: nat, m: Memory<V>, m': Memory<V>) {
    Ready(c, m) ==>
      && m' == m.(histogram := m'.histogram) && |m'.histogram| == |m.histogram|
      && IsHistogram(m'.histogram, DigitsOf(c, m, tmp, firstBit), Pow2(c.radixBits), c.len, c.blocks)
  }

  ghost predicate CountsScanned<V>(c: Call, m: Memory<V>, m': Memory<V>) {
    Ready(c, m) ==>
      && m' == m.(histogram := m'.histogram) && |m'.histogram| == |m.histogram|
      && ScannedTo(m.histogram, m'.histogram, Pow2(c.radixBits), c.blocks, 0, Pow2(c.radixBits))
  }

  /** From the side `tmp` to the other. */
  ghost predicate Scattered<V>(c: Call, tmp: bool, firstBit: nat, m: Memory<V>, m': Memory<V>) {
    Ready(c, m) && IsOffsets(m.histogram, DigitsOf(c, m, tmp, firstBit), Pow2(c.radixBits), c.len, c.blocks) ==>
      && SameTails(c, m, m')
      && PairsMoved(Keys(c, m, tmp), Values(c, m, tmp), Keys(c, m', !tmp), Values(c, m', !tmp),
                    Order(DigitsOf(c, m, tmp, firstBit)), c.hasValues)
  }

  ghost predicate KeysCopied<V>(c: Call, m: Memory<V>, m': Memory<V>) {
    Ready(c, m) ==>
      && m' == m.(keys := m'.keys) && SameTails(c, m, m')
      && Keys(c, m', false) == Keys(c, m, true)
  }

  ghost predicate ValuesCopied<V>(c: Call, m: Memory<V>, m': Memory<V>) {
    Ready(c, m) ==>
      && m' == m.(values := m'.values) && SameTails(c, m, m')
      && Values(c, m', false) == Values(c, m, true)
  }

  /** The first bit of pass i, and the number of bits sorted before it. */
  function Bits(c: Call, i: nat): nat {
    i * c.radixBits
  }

  predicate Odd(i: nat) {
    i % 2 == 1
  }

  /** What the k-th command of a call does, by its kernel. A pass has three commands; of the copies after the
      passes the first is that of the keys. */
  ghost function EffectOf<V(!new)>(c: Call, kernel: string, k: nat): Effect<Memory<V>> {
    var i := k / 3;
    if kernel == "radixsortReduce" then (m: Memory<V>, m': Memory<V>) => Counted(c, Odd(i), Bits(c, i), m, m')
    else if kernel == "radixsortScan" then (m: Memory<V>, m': Memory<V>) => CountsScanned(c, m, m')
    else if kernel == "radixsortScatter" then (m: Memory<V>, m': Memory<V>) => Scattered(c, Odd(i), Bits(c, i), m, m')
    else if k % 3 == 0 then (m: Memory<V>, m': Memory<V>) => KeysCopied(c, m, m')
    else (m: Memory<V>, m': Memory<V>) => ValuesCopied(c, m, m')
  }

  ghost function Effects<V(!new)>(c: Call, names: seq<string>): (effects: seq<Effect<Memory<V>>>)
    ensures |effects| == |names|
  {
    seq(|names|, k requires 0 <= k < |names| => EffectOf(c, names[k], k))
  }

  /** The kernels of a call. */
  function Names(c: Call): seq<string> {
    SortNames(c.passes, c.hasValues)
  }

  // ---- one command after the other

  /** After i passes, with the sorted pairs on the side `tmp`. */
  ghost predicate SortedAfter<V>(c: Call, m0: Memory<V>, m: Memory<V>, i: nat, tmp: bool) {
    && Ready(c, m0) && Ready(c, m) && SameTails(c, m0, m)
    && SortedTo(Keys(c, m0, false), Values(c, m0, false), Keys(c, m, tmp), Values(c, m, tmp), Bits(c, i), c.hasValues)
  }

  lemma SameTailsTrans<V>(c: Call, m0: Memory<V>, m: Memory<V>, m': Memory<V>)
    requires Ready(c, m0) && Ready(c, m) && SameTails(c, m0, m) && SameTails(c, m, m')
    ensures Ready(c, m') && SameTails(c, m0, m')
  {
  }

  lemma BitsNext(c: Call, i: nat)
    ensures Bits(c, i + 1) == Bits(c, i) + c.radixBits
  {
  }

  lemma KeysLength<V>(c: Call, m: Memory<V>, tmp: bool)
    requires Ready(c, m)
    ensures |Keys(c, m, tmp)| == c.elements
  {
  }

  /** Only the histogram differs. */
  lemma HistogramDiffers<V>(c: Call, m: Memory<V>, m': Memory<V>)
    requires Ready(c, m) && m' == m.(histogram := m'.histogram) && |m'.histogram| == |m.histogram|
    ensures Ready(c, m') && SameTails(c, m, m')
    ensures forall tmp :: Keys(c, m', tmp) == Keys(c, m, tmp) && Values(c, m', tmp) == Values(c, m, tmp)
  {
  }

  lemma OffsetsReady<V>(c: Call, tmp: bool, firstBit: nat, m: Memory<V>, m1: Memory<V>, m2: Memory<V>)
    requires Ready(c, m) && Counted(c, tmp, firstBit, m, m1) && CountsScanned(c, m1, m2)
    ensures Ready(c, m2) && SameTails(c, m, m2)
    ensures Keys(c, m2, tmp) == Keys(c, m, tmp) && Values(c, m2, tmp) == Values(c, m, tmp)
    ensures IsOffsets(m2.histogram, DigitsOf(c, m2, tmp, firstBit), Pow2(c.radixBits), c.len, c.blocks)
  {
    hide IsHistogram, ScannedTo, IsOffsets, Pow2, Keys, Values, Digits;
    HistogramDiffers(c, m, m1);
    HistogramDiffers(c, m1, m2);
    KeysLength(c, m, tmp);
    ScannedHistogram(m1.histogram, m2.histogram, DigitsOf(c, m, tmp, firstBit), Pow2(c.radixBits), c.len, c.blocks);
  }

  lemma PassSorts<V>(c: Call, m0: Memory<V>, i: nat, tmp: bool, m: Memory<V>, m1: Memory<V>, m2: Memory<V>, m3: Memory<V>)
    requires SortedAfter(c, m0, m, i, tmp)
    requires Counted(c, tmp, Bits(c, i), m, m1) && CountsScanned(c, m1, m2) && Scattered(c, tmp, Bits(c, i), m2, m3)
    ensures SortedAfter(c, m0, m3, i + 1, !tmp)
  {
    hide Ready, Counted, CountsScanned, IsOffsets, SameTails, SortedTo, Keys, Values, Digits, Order, Bits, Moved;
    OffsetsReady(c, tmp, Bits(c, i), m, m1, m2);
    SameTailsTrans(c, m0, m, m2);
    SameTailsTrans(c, m0, m2, m3);
    PassDone(Keys(c, m0, false), Values(c, m0, false), Keys(c, m, tmp), Values(c, m, tmp),
             Keys(c, m3, !tmp), Values(c, m3, !tmp), Bits(c, i), c.radixBits, c.hasValues);
    BitsNext(c, i);
  }

  /** The commands of pass i have done what their kernels' contracts say. */
  lemma PassSteps<V(!new)>(c: Call, states: seq<Memory<V>>, i: nat)
    requires InSequence(Effects(c, Names(c)), states) && i < c.passes
    ensures |states| > 3 * i + 3
    ensures var k := 3 * i;
            && Counted(c, Odd(i), Bits(c, i), states[k], states[k + 1]) && CountsScanned(c, states[k + 1], states[k + 2])
            && Scattered(c, Odd(i), Bits(c, i), states[k + 2], states[k + 3])
  {
    hide Counted, CountsScanned, Scattered, Bits, Odd;
    var effects, k := Effects<V>(c, Names(c)), 3 * i;
    assert Names(c)[k] == "radixsortReduce" && Names(c)[k + 1] == "radixsortScan" && Names(c)[k + 2] == "radixsortScatter";
    assert StepEffect(effects, states, k) && StepEffect(effects, states, k + 1) && StepEffect(effects, states, k + 2);
  }

  lemma {:induction false} PassesSort<V(!new)>(c: Call, states: seq<Memory<V>>, i: nat)
    requires InSequence(Effects(c, Names(c)), states) && i <= c.passes
    requires Ready(c, states[0])
    ensures |states| > 3 * i && SortedAfter(c, states[0], states[3 * i], i, Odd(i))
  {
    hide Ready, SortedAfter, InSequence, Counted, CountsScanned, Scattered, Names;
    SequenceLength(Effects(c, Names(c)), states);
    if i == 0 {
      NothingSorted(c, states[0]);
    } else {
      PassesSort(c, states, i - 1);
      PassSteps(c, states, i - 1);
      PassSorts(c, states[0], i - 1, Odd(i - 1), states[3 * i - 3], states[3 * i - 2], states[3 * i - 1], states[3 * i]);
      assert Odd(i) == !Odd(i - 1);
    }
  }

  lemma NothingSorted<V>(c: Call, m: Memory<V>)
    requires Ready(c, m)
    ensures SortedAfter(c, m, m, 0, false)
  {
    StartSort(Keys(c, m, false), Values(c, m, false), c.hasValues);
  }

  /** The copies have done what they should. */
  lemma CopySteps<V(!new)>(c: Call, states: seq<Memory<V>>)
    requires InSequence(Effects(c, Names(c)), states)
    ensures var k := 3 * c.passes;
            if !Odd(c.passes) then |states| == k + 1
            else |states| == k + (if c.hasValues then 3 else 2) && KeysCopied(c, states[k], states[k + 1])
                 && (c.hasValues ==> ValuesCopied(c, states[k + 1], states[k + 2]))
  {
    hide KeysCopied, ValuesCopied, Bits;
    var effects, k := Effects<V>(c, Names(c)), 3 * c.passes;
    if Odd(c.passes) {
      assert Names(c)[k] == "copyBuffer";
      assert StepEffect(effects, states, k);
      if c.hasValues {
        assert Names(c)[k + 1] == "copyBuffer";
        assert StepEffect(effects, states, k + 1);
      }
    }
  }

  /** The copies bring the pairs back from the temporary buffers. */
  lemma CopiesReturn<V(!new)>(c: Call, states: seq<Memory<V>>)
    requires InSequence(Effects(c, Names(c)), states)
    requires |states| > 3 * c.passes && SortedAfter(c, states[0], states[3 * c.passes], c.passes, Odd(c.passes))
    ensures SortedAfter(c, states[0], states[|Names(c)|], c.passes, false)
  {
    hide Ready, SameTails, SortedTo, Keys, Values, Bits, KeysCopied, ValuesCopied, Names, InSequence;
    SequenceLength(Effects(c, Names(c)), states);
    CopySteps(c, states);
    var k := 3 * c.passes;
    if Odd(c.passes) {
      Copied(c, states[0], states[k], states[k + 1], states[|Names(c)|]);
    }
  }

  lemma Copied<V>(c: Call, m0: Memory<V>, m: Memory<V>, m1: Memory<V>, m2: Memory<V>)
    requires SortedAfter(c, m0, m, c.passes, true) && KeysCopied(c, m, m1)
    requires if c.hasValues then ValuesCopied(c, m1, m2) else m2 == m1
    ensures SortedAfter(c, m0, m2, c.passes, false)
  {
    hide Ready, SameTails, SortedTo, Keys, Values, Bits;
    SameTailsTrans(c, m0, m, m1);
    if c.hasValues {
      SameTailsTrans(c, m0, m1, m2);
      CopiedPairs(c, m, m1, m2);
    } else {
      WithoutValues(Keys(c, m0, false), Values(c, m0, false), Keys(c, m1, false),
                    Values(c, m, true), Values(c, m1, false), Bits(c, c.passes));
    }
  }

  lemma CopiedPairs<V>(c: Call, m: Memory<V>, m1: Memory<V>, m2: Memory<V>)
    requires Ready(c, m) && Ready(c, m1) && KeysCopied(c, m, m1) && ValuesCopied(c, m1, m2)
    ensures Keys(c, m2, false) == Keys(c, m, true) && Values(c, m2, false) == Values(c, m, true)
  {
  }

  // ---- any schedule

  /** Every schedule the wait lists allow, with every behaviour the kernels' contracts allow: once the returned
      event is complete, the user's buffers hold the stable order of the pairs by the bits of all passes, and
      what lies past the elements is as it was. */
  lemma AnyScheduleSorts<V(!new)>(c: Call, log: seq<Command>, base: nat, events: set<Event>, run: seq<Action>,
                                  mems: seq<Memory<V>>)
    requires Named(log, base, SortNames(c.passes, c.hasValues))
    requires IsChain(log, base, |log|, events) && Legal(log, run)
    requires Executes(run, base, Effects(c, SortNames(c.passes, c.hasValues)), mems)
    requires |log| - 1 in State(run).finished
    requires Ready(c, mems[0])
    ensures SortedAfter(c, mems[0], mems[|run|], c.passes, false)
  {
    hide Ready, IsChain, Executes, InSequence, SortedAfter, EffectOf, SortNames;
    var states := AnyScheduleInSequence(log, base, |log|, events, run, Effects(c, Names(c)), mems);
    PassesSort(c, states, c.passes);
    CopiesReturn(c, states);
  }

  /** The sizes of an accepted call as the host chooses them. */
  ghost predicate HostCall<V(0,!new)>(sort: Radixsort<V>, c: Call, maxBits: nat) {
    && sort.Geometry() && c.elements > 0
    && c.len == sort.GetBlockSize(c.elements) && c.blocks == sort.GetBlocks(c.elements, c.len)
    && c.tile == sort.GetTileSize() && sort.KernelsFit(c.elements, c.len)
    && c.radixBits == sort.radixBits && c.hasValues == (sort.valueSize != 0)
    && c.passes == sort.Passes(sort.SortedBits(maxBits))
  }

  /** The buffers of the call and the sort's histogram. */
  ghost predicate HostBuffers<V(0,!new)>(sort: Radixsort<V>, c: Call, m: Memory<V>) {
    && c.elements <= |m.keys| && c.elements <= |m.tmpKeys|
    && (c.hasValues ==> c.elements <= |m.values| && c.elements <= |m.tmpValues|)
    && |m.histogram| == sort.scanBlocks * sort.radix
  }

  /** Such a call satisfies what the kernels rely on. */
  lemma HostCallReady<V(0,!new)>(sort: Radixsort<V>, c: Call, m: Memory<V>, maxBits: nat)
    requires HostCall(sort, c, maxBits) && HostBuffers(sort, c, m)
    ensures Ready(c, m) && Bits(c, c.passes) == sort.SortedBits(maxBits)
  {
    sort.BlocksFit(c.elements);
    MultiplesApart(c.blocks, sort.scanBlocks, sort.radix);
    Quotient(sort.SortedBits(maxBits), sort.radixBits);
  }

  /** Whatever the device does with the commands that `Radixsort.Enqueue` promises to have enqueued: once the
      event it returns is complete, the result it promises is in the user's buffers. */
  lemma HostCallSorts<V(0,!new)>(sort: Radixsort<V>, c: Call, maxBits: nat, log: seq<Command>, base: nat,
                                 events: set<Event>, run: seq<Action>, mems: seq<Memory<V>>)
    requires HostCall(sort, c, maxBits)
    requires Named(log, base, SortNames(sort.Passes(sort.SortedBits(maxBits)), sort.valueSize != 0))
    requires IsChain(log, base, |log|, events) && Legal(log, run)
    requires Executes(run, base, Effects(c, Names(c)), mems) && HostBuffers(sort, c, mems[0])
    requires |log| - 1 in State(run).finished
    ensures var m, m' := mems[0], mems[|run|];
            && Ready(c, m) && SameTails(c, m, m')
            && SortedTo(Keys(c, m, false), Values(c, m, false), Keys(c, m', false), Values(c, m', false),
                        sort.SortedBits(maxBits), c.hasValues)
            && SortedBy(Keys(c, m, false), Values(c, m, false), Keys(c, m', false), Values(c, m', false),
                        if maxBits == 0 then 8 * sort.keySize else maxBits, sort.radixBits, sort.valueSize != 0)
  {
    hide SortedBy, IsChain, Executes, HostCall, HostBuffers, SortedTo, SameTails, Ready, Keys, Values, EffectOf;
    HostNames(sort, c, maxBits);
    ExecutesLength(run, base, Effects(c, Names(c)), mems);
    HostCallReady(sort, c, mems[0], maxBits);
    AnyScheduleSorts(c, log, base, events, run, mems);
    var m, m' := mems[0], mems[|run|];
    HostGeometry(sort, c, maxBits);
    SortedByBits(Keys(c, m, false), Values(c, m, false), Keys(c, m', false), Values(c, m', false),
                 sort.SortedBits(maxBits), if maxBits == 0 then 8 * sort.keySize else maxBits, sort.radixBits, c.hasValues);
  }

  lemma HostGeometry<V(0,!new)>(sort: Radixsort<V>, c: Call, maxBits: nat)
    requires HostCall(sort, c, maxBits)
    ensures sort.Geometry() && c.hasValues == (sort.valueSize != 0)
  {
  }

  lemma HostNames<V(0,!new)>(sort: Radixsort<V>, c: Call, maxBits: nat)
    requires HostCall(sort, c, maxBits)
    ensures Names(c) == SortNames(sort.Passes(sort.SortedBits(maxBits)), sort.valueSize != 0)
  {
  }
}

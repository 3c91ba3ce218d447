/** Candidate generation and the three tuning steps of the radix sort (src/radixsort.cpp:602-744). What the
    timing callbacks measure is arbitrary; what is proved is that whatever they return, the parameters that
    come out meet the asserts of the sort and the byte bound of its sweep program. */
module RadixsortTune {
  import opened Blocks
  import opened Buffers
  import opened Radixsort
  import Sums
  import Sweep
  import SweepBytes
  import SweepLevels
  import Tune
  import TuneProperties

  /** What the tuner asks the device for. Local memory is counted in words of cl_uint. */
  datatype Device = Device(
    maxWorkGroupSize: nat, localMemWords: nat, computeUnits: nat, warpSizeMem: nat, warpSizeSchedule: nat)

  /** The most blocks for which the middle phase fits into local memory (src/radixsort.cpp:637-638). The
      subtraction is one of size_t and wraps if local memory is too small for even the work-group. */
  function MaxBlocks(device: Device, radix: nat): (blocks: nat)
    requires radix > 0
    ensures 8 * radix <= device.localMemWords < SIZE_RANGE ==>
              blocks * radix + 8 * radix <= device.localMemWords < blocks * radix + 9 * radix
  {
    RoomForBlocks(device.localMemWords as int - 2 * (4 * radix), radix);
    (device.localMemWords as int - 2 * (4 * radix)) % SIZE_RANGE / radix
  }

  lemma RoomForBlocks(room: int, radix: nat)
    requires radix > 0
    ensures 0 <= room < SIZE_RANGE ==> room % SIZE_RANGE / radix * radix <= room < room % SIZE_RANGE / radix * radix + radix
  {
  }

  function SlicesPerWorkGroup(params: Parameters): nat {
    Quot(params.scatterWorkGroupSize, ScatterSlice(params))
  }

  /** A work-group size that is a power-of-two multiple of the slice. */
  predicate WholeSlices(params: Parameters) {
    && IsPow2(SlicesPerWorkGroup(params))
    && params.scatterWorkGroupSize == SlicesPerWorkGroup(params) * ScatterSlice(params)
  }

  /** Everything about tuned parameters but the number of blocks. */
  predicate Shaped(params: Parameters, device: Device, radixBits: nat) {
    && params.radixBits == radixBits && params.warpSizeSchedule == device.warpSizeSchedule
    && Pow2(radixBits) <= params.reduceWorkGroupSize <= device.maxWorkGroupSize
    && params.scanWorkGroupSize == 4 * Pow2(radixBits)
    && WholeSlices(params)
    && params.scatterWorkGroupSize in Doubling(ScatterSlice(params), device.maxWorkGroupSize)
    && params.scatterWorkGroupSize <= device.maxWorkGroupSize
    && 1 <= params.scatterWorkScale <= 255 / ScatterSlice(params)
  }

  /** The block count fits the scatter work-groups. */
  predicate Aligned(params: Parameters) {
    SlicesPerWorkGroup(params) > 0 && params.scanBlocks % SlicesPerWorkGroup(params) == 0
  }

  lemma ShapedIsAdmissible(params: Parameters, device: Device, radixBits: nat)
    requires Shaped(params, device, radixBits) && Aligned(params) && radixBits >= 1 && params.scanBlocks > 0
    ensures Admissible(params)
  {
  }

  // ---- step 1: reduction work-group size

  function ForReduce(cand: Parameters, sizes: seq<nat>): (sets: seq<Parameters>)
    ensures |sets| == |sizes|
  {
    seq(|sizes|, i requires 0 <= i < |sizes| => cand.(reduceWorkGroupSize := sizes[i]))
  }

  /** One candidate for each doubling of the radix that is not too large for the device. */
  method ReduceCandidates(cand: Parameters, radix: nat, maxWorkGroupSize: nat) returns (sets: seq<Parameters>)
    requires radix > 0
    ensures sets == ForReduce(cand, Doubling(radix, maxWorkGroupSize))
  {
    sets := [];
    var size := radix;
    ghost var done: seq<nat> := [];
    while size <= maxWorkGroupSize
      invariant size > 0 && done + Doubling(size, maxWorkGroupSize) == Doubling(radix, maxWorkGroupSize)
      invariant sets == ForReduce(cand, done)
      decreases maxWorkGroupSize + 1 - size
    {
      assert done + Doubling(size, maxWorkGroupSize) == (done + [size]) + Doubling(size * 2, maxWorkGroupSize);
      sets := sets + [cand.(reduceWorkGroupSize := size)];
      done := done + [size];
      size := size * 2;
    }
    assert done + [] == done;
  }

  // ---- step 2: scatter work-group size and scale

  lemma SliceMultiple(slice: nat, k: nat)
    requires slice > 0
    ensures slice * Pow2(k) / slice == Pow2(k)
    ensures slice * Pow2(k + 1) == slice * Pow2(k) * 2
    ensures slice * Pow2(k) == Pow2(k) * slice
  {
    DivModUnique(Pow2(k) * slice, slice, Pow2(k), 0);
    MulAssoc(slice, Pow2(k), 2);
  }

  ghost predicate IsScatterCandidate(p: Parameters, cand: Parameters, startBlocks: nat, sizes: seq<nat>) {
    && p == cand.(scanBlocks := p.scanBlocks, scatterWorkGroupSize := p.scatterWorkGroupSize,
                  scatterWorkScale := p.scatterWorkScale)
    && WholeSlices(p) && Aligned(p)
    && 1 <= p.scatterWorkScale <= 255 / ScatterSlice(p)
    && p.scanBlocks == RoundDown(startBlocks, SlicesPerWorkGroup(p))
    && p.scatterWorkGroupSize in sizes
  }

  /** The largest scale for which a tile's counters fit into bytes. */
  function MaxScale(cand: Parameters): nat {
    Quot(255, ScatterSlice(cand))
  }

  /** One candidate of the second step. */
  function ForScale(cand: Parameters, startBlocks: nat, size: nat, scale: nat): Parameters
    requires Quot(size, ScatterSlice(cand)) > 0
  {
    cand.(scanBlocks := RoundDown(startBlocks, Quot(size, ScatterSlice(cand))),
          scatterWorkGroupSize := size, scatterWorkScale := scale)
  }

  /** The candidates of one work-group size: all scales from one to `scales`. */
  function ForScales(cand: Parameters, startBlocks: nat, size: nat, scales: nat): (sets: seq<Parameters>)
    requires Quot(size, ScatterSlice(cand)) > 0
    ensures |sets| == scales
  {
    seq(scales, i requires 0 <= i < scales => ForScale(cand, startBlocks, size, i + 1))
  }

  /** The candidates of the doublings of `size`: the whole second list when it starts at the slice. */
  function ForScatter(cand: Parameters, startBlocks: nat, size: nat, maxWorkGroupSize: nat): seq<Parameters>
    requires size >= ScatterSlice(cand)
    decreases if size <= maxWorkGroupSize then maxWorkGroupSize - size + 1 else 0
  {
    if size > maxWorkGroupSize then []
    else
      AtLeastOneSlice(size, ScatterSlice(cand));
      ForScales(cand, startBlocks, size, MaxScale(cand)) + ForScatter(cand, startBlocks, size * 2, maxWorkGroupSize)
  }

  lemma AtLeastOneSlice(size: nat, slice: nat)
    requires size >= slice > 0
    ensures Quot(size, slice) > 0
  {
    MultiplesApart(1, Quot(size, slice), slice);
  }

  /** Every scatter candidate has one of the doubled sizes, is aligned and keeps the sweep within bytes. */
  lemma {:induction false} ScatterShaped(cand: Parameters, startBlocks: nat, size: nat, k: nat, maxWorkGroupSize: nat)
    requires size == ScatterSlice(cand) * Pow2(k) >= ScatterSlice(cand)
    ensures forall p | p in ForScatter(cand, startBlocks, size, maxWorkGroupSize) ::
              IsScatterCandidate(p, cand, startBlocks, Doubling(size, maxWorkGroupSize))
    decreases if size <= maxWorkGroupSize then maxWorkGroupSize - size + 1 else 0
  {
    hide ForScales, ScatterSlice, IsPow2, Pow2, WholeSlices, Aligned, RoundDown;
    if size <= maxWorkGroupSize {
      SliceMultiple(ScatterSlice(cand), k);
      ScatterShaped(cand, startBlocks, size * 2, k + 1, maxWorkGroupSize);
      AtLeastOneSlice(size, ScatterSlice(cand));
      ScalesShaped(cand, startBlocks, size, k);
    }
  }

  lemma ScalesShaped(cand: Parameters, startBlocks: nat, size: nat, k: nat)
    requires size == ScatterSlice(cand) * Pow2(k) && Quot(size, ScatterSlice(cand)) > 0
    ensures forall p | p in ForScales(cand, startBlocks, size, MaxScale(cand)) ::
              IsScatterCandidate(p, cand, startBlocks, [size])
  {
    var scales := MaxScale(cand);
    forall i | 0 <= i < scales
      ensures IsScatterCandidate(ForScales(cand, startBlocks, size, scales)[i], cand, startBlocks, [size])
    {
      ScaleShaped(cand, startBlocks, size, k, i + 1, ForScales(cand, startBlocks, size, scales)[i]);
    }
  }

  lemma ScaleShaped(cand: Parameters, startBlocks: nat, size: nat, k: nat, scale: nat, p: Parameters)
    requires size == ScatterSlice(cand) * Pow2(k) && Quot(size, ScatterSlice(cand)) > 0
    requires 1 <= scale <= MaxScale(cand)
    requires p == ForScale(cand, startBlocks, size, scale)
    ensures IsScatterCandidate(p, cand, startBlocks, [size])
  {
    assert ScatterSlice(p) == ScatterSlice(cand);
    hide ScatterSlice, Pow2, IsPow2;
    SliceMultiple(ScatterSlice(cand), k);
    Pow2IsPow2(k);
    assert SlicesPerWorkGroup(p) == Pow2(k);
  }

  /** Every doubled size is tried, with scale one among others. */
  lemma {:induction false} ScatterTries(cand: Parameters, startBlocks: nat, size: nat, maxWorkGroupSize: nat, x: nat)
      returns (p: Parameters)
    requires size >= ScatterSlice(cand) && MaxScale(cand) > 0
    requires x in Doubling(size, maxWorkGroupSize)
    ensures p in ForScatter(cand, startBlocks, size, maxWorkGroupSize) && p.scatterWorkGroupSize == x
    decreases if size <= maxWorkGroupSize then maxWorkGroupSize - size + 1 else 0
  {
    hide ScatterSlice, MaxScale;
    if x == size {
      AtLeastOneSlice(size, ScatterSlice(cand));
      p := ForScales(cand, startBlocks, size, MaxScale(cand))[0];
    } else {
      p := ScatterTries(cand, startBlocks, size * 2, maxWorkGroupSize, x);
    }
  }

  /** The inner loop: one candidate for each scale. */
  method ScaleCandidates(cand: Parameters, startBlocks: nat, size: nat) returns (sets: seq<Parameters>)
    requires Quot(size, ScatterSlice(cand)) > 0
    ensures sets == ForScales(cand, startBlocks, size, MaxScale(cand))
  {
    hide ForScale, ScatterSlice;
    var scales := MaxScale(cand);
    sets := [];
    var scale := 1;
    while scale <= scales
      invariant 1 <= scale <= scales + 1
      invariant sets == ForScales(cand, startBlocks, size, scale - 1)
    {
      sets := sets + [ForScale(cand, startBlocks, size, scale)];
      scale := scale + 1;
    }
  }

  method ScatterCandidates(cand: Parameters, startBlocks: nat, maxWorkGroupSize: nat) returns (sets: seq<Parameters>)
    ensures sets == ForScatter(cand, startBlocks, ScatterSlice(cand), maxWorkGroupSize)
  {
    sets := [];
    var scatterSlice := ScatterSlice(cand);
    var size := scatterSlice;
    while size <= maxWorkGroupSize
      invariant size >= scatterSlice
      invariant sets + ForScatter(cand, startBlocks, size, maxWorkGroupSize)
             == ForScatter(cand, startBlocks, scatterSlice, maxWorkGroupSize)
      decreases maxWorkGroupSize + 1 - size
    {
      AtLeastOneSlice(size, scatterSlice);
      ghost var before := sets;
      var more := ScaleCandidates(cand, startBlocks, size);
      sets := sets + more;
      assert before + ForScatter(cand, startBlocks, size, maxWorkGroupSize)
          == sets + ForScatter(cand, startBlocks, size * 2, maxWorkGroupSize);
      size := size * 2;
    }
  }

  // ---- step 3: number of blocks

  /** The elements of a set in ascending order. */
  ghost predicate Ascends(r: seq<nat>, s: set<nat>) {
    && (forall x :: x in r <==> x in s)
    && forall i, j | 0 <= i < j < |r| :: r[i] < r[j]
  }

  /** There is only one ascending order. */
  lemma {:induction false} AscendsUnique(r: seq<nat>, r': seq<nat>, s: set<nat>)
    requires Ascends(r, s) && Ascends(r', s)
    ensures r == r'
    decreases |r|
  {
    assert r' != [] ==> r'[0] in s;
    if r != [] {
      assert r[0] in s;
      assert r[0] == r'[0];
      var rest := s - {r[0]};
      forall x ensures (x in r[1..] <==> x in rest) && (x in r'[1..] <==> x in rest) {
        assert x in r <==> x == r[0] || x in r[1..];
        assert x in r' <==> x == r'[0] || x in r'[1..];
      }
      AscendsUnique(r[1..], r'[1..], rest);
    }
  }

  lemma {:induction false} LeastExists(s: set<nat>) returns (x: nat)
    requires s != {}
    ensures x in s && forall y | y in s :: x <= y
    decreases |s|
  {
    var z :| z in s;
    var rest := s - {z};
    assert s == rest + {z};
    x := z;
    if rest != {} {
      var y := LeastExists(rest);
      x := if y < z then y else z;
    }
  }

  /** And there is one. */
  lemma {:induction false} AscendsExists(s: set<nat>) returns (r: seq<nat>)
    ensures Ascends(r, s)
    decreases |s|
  {
    if s == {} {
      r := [];
    } else {
      var x := LeastExists(s);
      var rest := AscendsExists(s - {x});
      r := [x] + rest;
      assert forall i | 0 <= i < |rest| :: rest[i] in rest;
    }
  }

  /** The elements of a set in ascending order, as std::set yields them. */
  method Ascending(s: set<nat>) returns (r: seq<nat>)
    ensures Ascends(r, s)
  {
    r := [];
    var rest := s;
    while rest != {}
      invariant rest <= s
      invariant forall x :: x in s <==> x in r || x in rest
      invariant forall i, j :: 0 <= i < j < |r| ==> r[i] < r[j]
      invariant forall i, x :: 0 <= i < |r| && x in rest ==> r[i] < x
      decreases rest
    {
      var least := Least(rest);
      r := r + [least];
      rest := rest - {least};
    }
  }

  method Least(s: set<nat>) returns (x: nat)
    requires s != {}
    ensures x in s && forall y :: y in s ==> x <= y
  {
    x :| x in s;
    var rest := s - {x};
    while rest != {}
      invariant rest <= s && x in s
      invariant forall y :: y in s ==> y in rest || x <= y
      decreases rest
    {
      var y :| y in rest;
      rest := rest - {y};
      if y < x {
        x := y;
      }
    }
  }

  /** What the block counts have to be multiples of. */
  lemma SliceGeometry(cand: Parameters)
    requires WholeSlices(cand) && IsPow2(cand.warpSizeSchedule)
    ensures var slices, radix := SlicesPerWorkGroup(cand), Pow2(cand.radixBits);
            && slices > 0 && cand.scatterWorkGroupSize / radix > 0
            && cand.scatterWorkGroupSize / radix % slices == 0
            && Max(4, slices) % slices == 0
  {
    var slices, radix, slice := SlicesPerWorkGroup(cand), Pow2(cand.radixBits), ScatterSlice(cand);
    hide Pow2;
    Pow2IsPow2(cand.radixBits);
    Pow2Divides(radix, slice);
    WorkGroupDigits(slices, slice, radix);
    FourOrMore(slices);
  }

  /** slices * slice / radix is a positive multiple of slices if slice is a multiple of the radix. */
  lemma WorkGroupDigits(slices: nat, slice: nat, radix: nat)
    requires slices > 0 && slice > 0 && radix > 0 && slice % radix == 0
    ensures slices * slice / radix > 0 && slices * slice / radix % slices == 0
  {
    var m := slice / radix;
    Quotient(slice, radix);
    MulAssoc(slices, m, radix);
    DivModUnique(slices * slice, radix, slices * m, 0);
    assert m > 0 by {
      MultiplesApart(m, 0, radix);
    }
    ProductPositive(slices, m);
    Commute(slices, m);
    MultipleMod(m, slices);
  }

  lemma FourOrMore(slices: nat)
    requires IsPow2(slices)
    ensures slices > 0 && Max(4, slices) % slices == 0
  {
    if slices <= 4 {
      assert Pow2(2) == 4;
      Pow2IsPow2(2);
      Pow2Divides(slices, 4);
    } else {
      MultipleMod(1, slices);
    }
  }

  /** Rounding the limit down twice leaves a positive number exactly when one whole work-group fits. */
  lemma LimitPositiveExactly(maxBlocks: nat, slices: nat, q: nat)
    requires slices > 0 && q > 0 && q % slices == 0
    ensures var limit := RoundDown(RoundDown(maxBlocks, slices), q);
            limit % slices == 0 && (limit > 0 <==> maxBlocks >= q)
  {
    var first := RoundDown(maxBlocks, slices);
    var limit := RoundDown(first, q);
    MultipleTrans(limit, q, slices);
    if maxBlocks >= q {
      RoundDownGreatest(maxBlocks, slices, q);
      RoundDownGreatest(first, q, q) by {
        assert q == 1 * q;
        MultipleMod(1, q);
      }
    } else {
      MultiplesApart(0, limit / q, q);
    }
  }

  /** The most blocks tried: what fits, rounded down to whole scatter work-groups. */
  function BlockLimit(cand: Parameters, maxBlocks: nat): nat
    requires SlicesPerWorkGroup(cand) > 0 && Quot(cand.scatterWorkGroupSize, Pow2(cand.radixBits)) > 0
  {
    RoundDown(RoundDown(maxBlocks, SlicesPerWorkGroup(cand)), Quot(cand.scatterWorkGroupSize, Pow2(cand.radixBits)))
  }

  predicate BlocksDefined(cand: Parameters) {
    && SlicesPerWorkGroup(cand) > 0
    && Quot(cand.scatterWorkGroupSize, Pow2(cand.radixBits)) > 0
  }

  /** The block counts tried: doublings of the least, doublings of the number of compute units rounded
      down to whole work-groups, and the limit. */
  function BlockCounts(cand: Parameters, maxBlocks: nat, computeUnits: nat): set<nat>
    requires BlocksDefined(cand) && computeUnits > 0
  {
    var slices, least := SlicesPerWorkGroup(cand), Quot(cand.scanWorkGroupSize, Pow2(cand.radixBits));
    var limit := BlockLimit(cand, maxBlocks);
    (set x | x in Doubling(Max(least, slices), limit))
    + (set x | x in Doubling(computeUnits, limit) && RoundDown(x, slices) >= least :: RoundDown(x, slices))
    + {limit}
  }

  /** Every count is a multiple of the slices of a work-group. If the limit has room for one scatter work-group
      they are all positive; otherwise the rounded-down limit, zero, is the only one. */
  lemma BlockCountsMeaning(cand: Parameters, maxBlocks: nat, computeUnits: nat)
    requires WholeSlices(cand) && IsPow2(cand.warpSizeSchedule) && computeUnits > 0
    requires cand.scanWorkGroupSize == 4 * Pow2(cand.radixBits)
    ensures BlocksDefined(cand)
    ensures forall x | x in BlockCounts(cand, maxBlocks, computeUnits) :: x % SlicesPerWorkGroup(cand) == 0
    ensures if maxBlocks >= Quot(cand.scatterWorkGroupSize, Pow2(cand.radixBits))
            then 0 !in BlockCounts(cand, maxBlocks, computeUnits)
            else BlockCounts(cand, maxBlocks, computeUnits) == {0}
  {
    hide IsPow2, WholeSlices, SlicesPerWorkGroup, Pow2;
    SliceGeometry(cand);
    var slices, radix := SlicesPerWorkGroup(cand), Pow2(cand.radixBits);
    DivModUnique(4 * radix, radix, 4, 0);
    LimitPositiveExactly(maxBlocks, slices, Quot(cand.scatterWorkGroupSize, radix));
    DoublingMultiples(Max(4, slices), BlockLimit(cand, maxBlocks), slices);
  }

  function ForBlocks(cand: Parameters, counts: seq<nat>): (sets: seq<Parameters>)
    ensures |sets| == |counts|
  {
    seq(|counts|, i requires 0 <= i < |counts| => cand.(scanBlocks := counts[i]))
  }

  method DoubleInto(cands: set<nat>, start: nat, limit: nat) returns (r: set<nat>)
    requires start > 0
    ensures r == cands + set x | x in Doubling(start, limit)
  {
    r := cands;
    var scanBlocks := start;
    ghost var done: seq<nat> := [];
    while scanBlocks <= limit
      invariant scanBlocks > 0 && done + Doubling(scanBlocks, limit) == Doubling(start, limit)
      invariant r == cands + set x | x in done
      decreases if scanBlocks <= limit then limit - scanBlocks + 1 else 0
    {
      assert done + Doubling(scanBlocks, limit) == (done + [scanBlocks]) + Doubling(scanBlocks * 2, limit);
      r := r + {scanBlocks};
      done := done + [scanBlocks];
      scanBlocks := scanBlocks * 2;
    }
    assert done + [] == done;
  }

  method DoubleUnitsInto(cands: set<nat>, start: nat, limit: nat, slices: nat, least: nat) returns (r: set<nat>)
    requires start > 0 && slices > 0
    ensures r == cands + set x | x in Doubling(start, limit) && RoundDown(x, slices) >= least :: RoundDown(x, slices)
  {
    r := cands;
    var scanBlocks := start;
    ghost var done: seq<nat> := [];
    while scanBlocks <= limit
      invariant scanBlocks > 0 && done + Doubling(scanBlocks, limit) == Doubling(start, limit)
      invariant r == cands + set x | x in done && RoundDown(x, slices) >= least :: RoundDown(x, slices)
      decreases if scanBlocks <= limit then limit - scanBlocks + 1 else 0
    {
      assert done + Doubling(scanBlocks, limit) == (done + [scanBlocks]) + Doubling(scanBlocks * 2, limit);
      var blocks := RoundDown(scanBlocks, slices);
      assert (set x | x in done + [scanBlocks] && RoundDown(x, slices) >= least :: RoundDown(x, slices))
          == (set x | x in done && RoundDown(x, slices) >= least :: RoundDown(x, slices))
             + if blocks >= least then {blocks} else {};
      if blocks >= least {
        r := r + {blocks};
      }
      done := done + [scanBlocks];
      scanBlocks := scanBlocks * 2;
    }
    assert done + [] == done;
  }

  /** One candidate for each count, in ascending order. */
  method BlockCandidates(cand: Parameters, maxBlocks0: nat, computeUnits: nat)
    returns (sets: seq<Parameters>, ghost counts: seq<nat>)
    requires BlocksDefined(cand) && computeUnits > 0
    ensures Ascends(counts, BlockCounts(cand, maxBlocks0, computeUnits)) && sets == ForBlocks(cand, counts)
  {
    hide BlockCounts, Ascends;
    var cands := CollectCounts(cand, maxBlocks0, computeUnits);
    var order := Ascending(cands);
    counts := order;
    sets := [];
    for i := 0 to |order|
      invariant sets == ForBlocks(cand, order[..i])
    {
      sets := sets + [cand.(scanBlocks := order[i])];
    }
    assert order[..|order|] == order;
  }

  method CollectCounts(cand: Parameters, maxBlocks0: nat, computeUnits: nat) returns (cands: set<nat>)
    requires BlocksDefined(cand) && computeUnits > 0
    ensures cands == BlockCounts(cand, maxBlocks0, computeUnits)
    ensures cand.scanWorkGroupSize == 4 * Pow2(cand.radixBits) ==>
              forall x: nat :: x in cands <==>
                Offered(maxBlocks0, SlicesPerWorkGroup(cand), Quot(cand.scatterWorkGroupSize, Pow2(cand.radixBits)),
                        computeUnits, x)
  {
    hide ScatterSlice, Pow2, Doubling, Offered;
    var radix := Pow2(cand.radixBits);
    var slicesPerWorkGroup := cand.scatterWorkGroupSize / ScatterSlice(cand);
    var maxBlocks := RoundDown(maxBlocks0, slicesPerWorkGroup);
    maxBlocks := RoundDown(maxBlocks, cand.scatterWorkGroupSize / radix);
    var least := cand.scanWorkGroupSize / radix;
    cands := DoubleInto({}, Max(least, slicesPerWorkGroup), maxBlocks);
    cands := DoubleUnitsInto(cands, computeUnits, maxBlocks, slicesPerWorkGroup, least);
    cands := cands + {maxBlocks};
    if cand.scanWorkGroupSize == 4 * Pow2(cand.radixBits) {
      forall x: nat
        ensures x in BlockCounts(cand, maxBlocks0, computeUnits) <==>
                Offered(maxBlocks0, SlicesPerWorkGroup(cand), Quot(cand.scatterWorkGroupSize, Pow2(cand.radixBits)),
                        computeUnits, x)
      {
        OfferedExactly(cand, maxBlocks0, computeUnits, x);
      }
    }
  }

  // ---- all three steps

  /** The parameters before any of them is tuned. */
  function StartParameters(device: Device, radixBits: nat): Parameters {
    var radix := Pow2(radixBits);
    Parameters(device.warpSizeMem, device.warpSizeSchedule, 0, 4 * radix, Max(device.warpSizeSchedule, radix), 1,
               StartBlocks(device, radix), radixBits)
  }

  /** Half of the most blocks, in whole scan work-groups of four digits' worth. */
  function StartBlocks(device: Device, radix: nat): (blocks: nat)
    requires radix > 0
    ensures blocks % 4 == 0 && 2 * blocks <= MaxBlocks(device, radix) < 2 * blocks + 8
  {
    RoundDown(MaxBlocks(device, radix) / 2, 4)
  }

  type Timing = Tune.Callback<Parameters>

  /** Every callback of the tuner first constructs a sort with the candidate's parameters
      (src/radixsort.cpp:485, 521 and 570). Its histogram has a counter for each digit and block, and OpenCL
      refuses to create a buffer of size zero (clCreateBuffer, CL_INVALID_BUFFER_SIZE); the constructor turns
      that into an InternalError (src/radixsort.cpp:387 and 400), which counts as failure. What else the
      callback does, and returns, is arbitrary. */
  function Constructing(rest: Timing): Timing {
    (pass: nat, size: nat, p: Parameters) => if p.scanBlocks == 0 then Tune.Failed else rest(pass, size, p)
  }

  /** The candidates of the first step. */
  function FirstSets(device: Device, radixBits: nat): seq<Parameters> {
    ForReduce(StartParameters(device, radixBits), Doubling(Pow2(radixBits), device.maxWorkGroupSize))
  }

  /** The candidates of the second step. */
  function SecondSets(device: Device, radixBits: nat, first: Parameters): seq<Parameters> {
    ForScatter(first, StartBlocks(device, Pow2(radixBits)), ScatterSlice(first), device.maxWorkGroupSize)
  }

  /** The block counts of the third step. */
  function ThirdCounts(device: Device, radixBits: nat, second: Parameters): set<nat>
    requires BlocksDefined(second) && device.computeUnits > 0
  {
    BlockCounts(second, MaxBlocks(device, Pow2(radixBits)), device.computeUnits)
  }

  /** The outcome of the first two selections. */
  ghost function AfterScatter(device: Device, radixBits: nat, sizes: seq<nat>, reduce: Timing, scatter: Timing):
    Tune.Outcome<Parameters>
  {
    var first := Tune.TuneFrom(Constructing(reduce), FirstSets(device, radixBits), sizes, 0.5, 0);
    if !first.Chosen? then first
    else Tune.TuneFrom(Constructing(scatter), SecondSets(device, radixBits, first.params), sizes, 0.5, 0)
  }

  /** The outcome of all three, each starting from what the one before has chosen. */
  ghost predicate Selected(device: Device, radixBits: nat, sizes: seq<nat>,
                           reduce: Timing, scatter: Timing, blocks: Timing, outcome: Tune.Outcome<Parameters>)
    requires device.computeUnits > 0
  {
    var second := AfterScatter(device, radixBits, sizes, reduce, scatter);
    if !second.Chosen? then outcome == second
    else
      && BlocksDefined(second.params)
      && exists counts | Ascends(counts, ThirdCounts(device, radixBits, second.params)) ::
           outcome == Tune.TuneFrom(Constructing(blocks), ForBlocks(second.params, counts), sizes, 0.5, 0)
  }

  lemma ReduceShaped(device: Device, radixBits: nat, p: Parameters)
    requires p in FirstSets(device, radixBits)
    ensures p == StartParameters(device, radixBits).(reduceWorkGroupSize := p.reduceWorkGroupSize)
    ensures Pow2(radixBits) <= p.reduceWorkGroupSize <= device.maxWorkGroupSize
  {
    hide Doubling, Pow2, StartParameters;
    var sizes := Doubling(Pow2(radixBits), device.maxWorkGroupSize);
    DoublingMeaning(Pow2(radixBits), device.maxWorkGroupSize);
    var i :| 0 <= i < |sizes| && p == StartParameters(device, radixBits).(reduceWorkGroupSize := sizes[i]);
    MultiplesApart(1, Pow2(i), Pow2(radixBits));
    Commute(Pow2(i), Pow2(radixBits));
  }

  /** After the second step everything but the number of blocks has its final shape. */
  lemma SecondShaped(device: Device, radixBits: nat, first: Parameters, second: Parameters)
    requires radixBits >= 1 && IsPow2(device.warpSizeSchedule)
    requires first in FirstSets(device, radixBits) && second in SecondSets(device, radixBits, first)
    ensures Shaped(second, device, radixBits)
    ensures second.scanBlocks == RoundDown(StartBlocks(device, Pow2(radixBits)), SlicesPerWorkGroup(second))
  {
    hide Pow2, IsPow2, Doubling;
    ReduceShaped(device, radixBits, first);
    Pow2Zero(ScatterSlice(first));
    ScatterShaped(first, StartBlocks(device, Pow2(radixBits)), ScatterSlice(first), 0, device.maxWorkGroupSize);
    assert IsScatterCandidate(second, first, StartBlocks(device, Pow2(radixBits)),
                              Doubling(ScatterSlice(first), device.maxWorkGroupSize));
    DoublingMeaning(ScatterSlice(first), device.maxWorkGroupSize);
  }

  lemma Pow2Zero(x: nat)
    ensures x * Pow2(0) == x
  {
  }

  /** Whatever the callbacks measure in the first two steps: what they choose has its shape, and as many blocks
      as it started with, which is at least one scatter work-group's. */
  lemma ScatterChosen(device: Device, radixBits: nat, sizes: seq<nat>, reduce: Timing, scatter: Timing)
    requires radixBits >= 1 && IsPow2(device.warpSizeSchedule) && sizes != []
    requires AfterScatter(device, radixBits, sizes, reduce, scatter).Chosen?
    ensures var p := AfterScatter(device, radixBits, sizes, reduce, scatter).params;
            && Shaped(p, device, radixBits)
            && 0 < SlicesPerWorkGroup(p) <= StartBlocks(device, Pow2(radixBits))
  {
    hide Shaped, FirstSets, SecondSets, StartBlocks, Pow2, IsPow2, SlicesPerWorkGroup, RoundDown, Quot;
    hide Tune.TuneFrom;
    var first := Tune.TuneFrom(Constructing(reduce), FirstSets(device, radixBits), sizes, 0.5, 0).params;
    TuneProperties.ChosenSucceeded(Constructing(reduce), FirstSets(device, radixBits), sizes, 0.5, 0, 0);
    var p := AfterScatter(device, radixBits, sizes, reduce, scatter).params;
    TuneProperties.ChosenSucceeded(Constructing(scatter), SecondSets(device, radixBits, first), sizes, 0.5, 0, 0);
    SecondShaped(device, radixBits, first, p);
    ShapedDefined(p, device, radixBits);
    AtLeastOneMultiple(StartBlocks(device, Pow2(radixBits)), SlicesPerWorkGroup(p));
  }

  lemma AtLeastOneMultiple(x: nat, y: nat)
    requires y > 0 && RoundDown(x, y) > 0
    ensures y <= x
  {
    MultiplesApart(0, x / y, y);
  }

  lemma ShapedDefined(p: Parameters, device: Device, radixBits: nat)
    requires Shaped(p, device, radixBits) && IsPow2(device.warpSizeSchedule)
    ensures BlocksDefined(p)
  {
    SliceGeometry(p);
  }

  lemma BlockChosen(device: Device, radixBits: nat, cand: Parameters, counts: seq<nat>, p: Parameters)
    requires radixBits >= 1 && IsPow2(device.warpSizeSchedule) && device.computeUnits > 0
    requires Shaped(cand, device, radixBits) && BlocksDefined(cand)
    requires Ascends(counts, ThirdCounts(device, radixBits, cand)) && p in ForBlocks(cand, counts) && p.scanBlocks > 0
    ensures Shaped(p, device, radixBits) && Aligned(p) && Admissible(p)
  {
    hide IsPow2, Pow2, BlockCounts, BlockLimit, MaxBlocks, Doubling;
    BlockCountsMeaning(cand, MaxBlocks(device, Pow2(radixBits)), device.computeUnits);
    var i :| 0 <= i < |counts| && p == ForBlocks(cand, counts)[i];
    assert counts[i] in counts;
    assert SlicesPerWorkGroup(p) == SlicesPerWorkGroup(cand);
    ShapedIsAdmissible(p, device, radixBits);
  }

  /** Whatever the callbacks measure: chosen parameters have the tuned shape, which keeps the sweep within bytes,
      and meet the asserts of the sort. */
  lemma TunedIsAdmissible(device: Device, radixBits: nat, sizes: seq<nat>,
                          reduce: Timing, scatter: Timing, blocks: Timing, outcome: Tune.Outcome<Parameters>)
    requires radixBits >= 1 && IsPow2(device.warpSizeSchedule) && device.computeUnits > 0 && sizes != []
    requires Selected(device, radixBits, sizes, reduce, scatter, blocks, outcome) && outcome.Chosen?
    ensures var p := outcome.params;
            Shaped(p, device, radixBits) && Aligned(p) && Admissible(p)
  {
    hide Shaped, Aligned, Admissible, AfterScatter, ThirdCounts, Ascends;
    ScatterChosen(device, radixBits, sizes, reduce, scatter);
    var second := AfterScatter(device, radixBits, sizes, reduce, scatter).params;
    var counts :| Ascends(counts, ThirdCounts(device, radixBits, second))
                  && outcome == Tune.TuneFrom(Constructing(blocks), ForBlocks(second, counts), sizes, 0.5, 0);
    TuneProperties.ChosenSucceeded(Constructing(blocks), ForBlocks(second, counts), sizes, 0.5, 0, 0);
    BlockChosen(device, radixBits, second, counts, outcome.params);
  }

  // ---- devices on which the third step is offered only zero blocks

  /** The widest scatter work-group for which the blocks of the second step are enough to construct a sort
      finds no room for its blocks in the third. */
  predicate DeadEnd(device: Device, radixBits: nat) {
    var radix := Pow2(radixBits);
    var slice := Max(device.warpSizeSchedule, radix);
    var widest := Min(device.maxWorkGroupSize, StartBlocks(device, radix) * slice);
    slice <= 255 && slice <= widest && MaxBlocks(device, radix) < Quot(LargestDoubling(slice, widest), radix)
  }

  lemma QuotMono(x: nat, y: nat, d: nat)
    requires x <= y && d > 0
    ensures Quot(x, d) <= Quot(y, d)
  {
    MultiplesApart(Quot(y, d) + 1, Quot(x, d), d);
  }

  lemma {:induction false} DoublingShorter(start: nat, limit: nat, longer: nat, x: nat)
    requires start > 0 && limit <= longer
    ensures x in Doubling(start, limit) <==> x in Doubling(start, longer) && x <= limit
    decreases if start <= longer then longer - start + 1 else 0
  {
    if start <= longer {
      DoublingShorter(start * 2, limit, longer, x);
      if start > limit && x in Doubling(start, longer) {
        DoublingMeaning(start, longer);
        var i :| 0 <= i < |Doubling(start, longer)| && x == Doubling(start, longer)[i];
        MultiplesApart(1, Pow2(i), start);
        Commute(start, Pow2(i));
      }
    }
  }

  /** If the device is no dead end, whatever the second step chooses has room for its blocks. */
  lemma NoDeadEnd(device: Device, radixBits: nat, p: Parameters)
    requires Shaped(p, device, radixBits) && !DeadEnd(device, radixBits)
    requires SlicesPerWorkGroup(p) <= StartBlocks(device, Pow2(radixBits))
    ensures MaxBlocks(device, Pow2(radixBits)) >= Quot(p.scatterWorkGroupSize, Pow2(radixBits))
  {
    hide MaxBlocks, Doubling, Pow2, StartBlocks, LargestDoubling;
    var radix := Pow2(radixBits);
    var slice, x := ScatterSlice(p), p.scatterWorkGroupSize;
    var widest := Min(device.maxWorkGroupSize, StartBlocks(device, radix) * slice);
    ScaleBound(p.scatterWorkScale, slice);
    MultiplesApart(SlicesPerWorkGroup(p), StartBlocks(device, radix), slice);
    DoublingShorter(slice, widest, device.maxWorkGroupSize, x);
    SliceFits(slice, widest, x);
    LargestDoublingIsLargest(slice, widest, x);
    QuotMono(x, LargestDoubling(slice, widest), radix);
  }

  lemma ScaleBound(scale: nat, slice: nat)
    requires slice > 0 && 1 <= scale <= 255 / slice
    ensures slice <= 255
  {
  }

  lemma SliceFits(start: nat, limit: nat, x: nat)
    requires start > 0 && x in Doubling(start, limit)
    ensures start <= limit
  {
  }

  /** A slice of at most two digits' worth of work items is never a dead end: the second step starts with half
      of the blocks that fit. */
  lemma NarrowSliceHasRoom(device: Device, radixBits: nat)
    requires Max(device.warpSizeSchedule, Pow2(radixBits)) <= 2 * Pow2(radixBits)
    ensures !DeadEnd(device, radixBits)
  {
    hide Pow2, LargestDoubling, MaxBlocks;
    var radix := Pow2(radixBits);
    var slice, blocks := Max(device.warpSizeSchedule, radix), StartBlocks(device, radix);
    var widest := Min(device.maxWorkGroupSize, blocks * slice);
    assert 2 * blocks <= MaxBlocks(device, radix);
    if slice <= widest {
      HalfIsEnough(blocks, slice, radix, LargestDoubling(slice, widest));
    }
  }

  lemma HalfIsEnough(blocks: nat, slice: nat, radix: nat, size: nat)
    requires radix > 0 && slice <= 2 * radix && size <= blocks * slice
    ensures Quot(size, radix) <= 2 * blocks
  {
    var q, bound := Quot(size, radix), 2 * blocks;
    assert q * radix <= size;
    hide Quot;
    MulMono(slice, 2 * radix, blocks);
    MulAssoc(blocks, 2, radix);
    assert bound == blocks * 2;
    MultiplesApart(bound, q, radix);
  }

  /** The first two steps choose something, and then the third fails whatever its callback measures. */
  ghost predicate Stuck(device: Device, radixBits: nat, sizes: seq<nat>, reduce: Timing, scatter: Timing)
    requires device.computeUnits > 0
  {
    && AfterScatter(device, radixBits, sizes, reduce, scatter).Chosen?
    && forall blocks: Timing, outcome | Selected(device, radixBits, sizes, reduce, scatter, blocks, outcome) ::
         outcome == Tune.TuneError
  }

  /** Timings in which one kind of candidate is equally fast and all others fail. */
  function Only(good: Parameters -> bool): Timing {
    (pass: nat, size: nat, p: Parameters) => if good(p) then Tune.Rates(1.0, 1.0) else Tune.Failed
  }

  /** Where only such candidates can win, and of them only those that can be constructed. */
  lemma OnlyChosen(good: Parameters -> bool, candidates: seq<Parameters>, sizes: seq<nat>, p: Parameters)
    requires p in candidates && good(p) && p.scanBlocks > 0 && sizes != []
    ensures var outcome := Tune.TuneFrom(Constructing(Only(good)), candidates, sizes, 0.5, 0);
            outcome.Chosen? && outcome.params in candidates && good(outcome.params)
  {
    var measure := Constructing(Only(good));
    var f := (q: Parameters) => if q.scanBlocks > 0 && good(q) then Tune.Rates(1.0, 1.0) else Tune.Failed;
    assert TuneProperties.Steady(measure, f, 0.5);
    TuneProperties.PruningSound(measure, f, candidates, sizes, 0.5, 0);
    Tune.OnlySurvivorsMatter(f, candidates, 0.0);
    TuneProperties.MaxRateMeaning(f, candidates);
    var i :| 0 <= i < |candidates| && candidates[i] == p;
    var k := TuneProperties.SelectMeaning(f, candidates);
  }

  /** On a dead-end device timings that favour the widest work-group get it chosen. */
  lemma WidestChosen(device: Device, radixBits: nat, sizes: seq<nat>) returns (reduce: Timing, scatter: Timing)
    requires radixBits >= 1 && IsPow2(device.warpSizeSchedule) && sizes != []
    requires DeadEnd(device, radixBits)
    ensures var second := AfterScatter(device, radixBits, sizes, reduce, scatter);
            second.Chosen? && MaxBlocks(device, Pow2(radixBits)) < Quot(second.params.scatterWorkGroupSize, Pow2(radixBits))
  {
    hide Doubling, Pow2, IsPow2, MaxBlocks, ForReduce, ForScatter, Shaped, Only, StartBlocks, SlicesPerWorkGroup, ScatterSlice;
    var radix, limit := Pow2(radixBits), device.maxWorkGroupSize;
    var slice, blocks := Max(device.warpSizeSchedule, radix), StartBlocks(device, radix);
    var widest := Min(limit, blocks * slice);
    var size := LargestDoubling(slice, widest);
    var any := (p: Parameters) => true;
    var wide := (p: Parameters) => p.scatterWorkGroupSize == size;
    reduce, scatter := Only(any), Only(wide);
    var sets1 := FirstSets(device, radixBits);
    PositiveBlocks(blocks, slice, widest);
    FirstCandidate(StartParameters(device, radixBits), radix, limit);
    OnlyChosen(any, sets1, sizes, sets1[0]);
    var first := Tune.TuneFrom(Constructing(reduce), sets1, sizes, 0.5, 0).params;
    ReduceShaped(device, radixBits, first);
    SliceOf(first, device, radix);
    DoublingShorter(slice, widest, limit, size);
    ScaleOne(first);
    var tried := ScatterTries(first, blocks, ScatterSlice(first), limit, size);
    TriedHasBlocks(device, radixBits, first, tried, blocks);
    OnlyChosen(wide, SecondSets(device, radixBits, first), sizes, tried);
  }

  lemma SliceOf(p: Parameters, device: Device, radix: nat)
    requires p.warpSizeSchedule == device.warpSizeSchedule && Pow2(p.radixBits) == radix
    ensures ScatterSlice(p) == Max(device.warpSizeSchedule, radix)
  {
  }

  lemma PositiveBlocks(blocks: nat, slice: nat, widest: nat)
    requires 0 < slice <= widest <= blocks * slice
    ensures blocks > 0
  {
  }

  /** A work-group within the blocks of the second step can be constructed. */
  lemma TriedHasBlocks(device: Device, radixBits: nat, first: Parameters, p: Parameters, blocks: nat)
    requires radixBits >= 1 && IsPow2(device.warpSizeSchedule)
    requires first in FirstSets(device, radixBits) && p in SecondSets(device, radixBits, first)
    requires blocks == StartBlocks(device, Pow2(radixBits)) && p.scatterWorkGroupSize <= blocks * ScatterSlice(first)
    ensures p.scanBlocks > 0
  {
    hide Pow2, IsPow2, Doubling, StartBlocks, FirstSets, SecondSets, MaxBlocks, Quot, RoundDown;
    SecondShaped(device, radixBits, first, p);
    ReduceShaped(device, radixBits, first);
    ShapedDefined(p, device, radixBits);
    SliceOf(first, device, Pow2(radixBits));
    SliceOf(p, device, Pow2(radixBits));
    EnoughBlocks(p.scatterWorkGroupSize, ScatterSlice(p), blocks);
  }

  lemma EnoughBlocks(size: nat, slice: nat, blocks: nat)
    requires slice > 0 && Quot(size, slice) > 0 && size <= blocks * slice
    ensures RoundDown(blocks, Quot(size, slice)) > 0
  {
    var slices := Quot(size, slice);
    assert slices * slice <= size;
    hide Quot, RoundDown;
    MultiplesApart(blocks, slices, slice);
    MultipleMod(1, slices);
    RoundDownGreatest(blocks, slices, slices);
  }

  lemma FirstCandidate(start: Parameters, radix: nat, limit: nat)
    requires 0 < radix <= limit
    ensures |ForReduce(start, Doubling(radix, limit))| > 0
    ensures ForReduce(start, Doubling(radix, limit))[0].scanBlocks == start.scanBlocks
  {
  }

  lemma ScaleOne(p: Parameters)
    requires ScatterSlice(p) <= 255
    ensures MaxScale(p) > 0
  {
    AtLeastOneSlice(255, ScatterSlice(p));
  }

  /** Offered only zero blocks, the third step fails; offered anything else, it may succeed. */
  lemma ThirdStep(device: Device, radixBits: nat, sizes: seq<nat>, reduce: Timing, scatter: Timing)
    requires radixBits >= 1 && IsPow2(device.warpSizeSchedule) && device.computeUnits > 0 && sizes != []
    requires AfterScatter(device, radixBits, sizes, reduce, scatter).Chosen?
    ensures var p := AfterScatter(device, radixBits, sizes, reduce, scatter).params;
            Stuck(device, radixBits, sizes, reduce, scatter) <==>
            MaxBlocks(device, Pow2(radixBits)) < Quot(p.scatterWorkGroupSize, Pow2(radixBits))
  {
    hide AfterScatter, MaxBlocks, BlockCounts, Pow2, IsPow2, Shaped, ForBlocks;
    ScatterChosen(device, radixBits, sizes, reduce, scatter);
    var p := AfterScatter(device, radixBits, sizes, reduce, scatter).params;
    ShapedCounts(device, radixBits, p);
    var counts := AscendsExists(ThirdCounts(device, radixBits, p));
    if MaxBlocks(device, Pow2(radixBits)) < Quot(p.scatterWorkGroupSize, Pow2(radixBits)) {
      forall blocks: Timing, outcome | Selected(device, radixBits, sizes, reduce, scatter, blocks, outcome)
        ensures outcome == Tune.TuneError
      {
        var order :| Ascends(order, ThirdCounts(device, radixBits, p))
                     && outcome == Tune.TuneFrom(Constructing(blocks), ForBlocks(p, order), sizes, 0.5, 0);
        OnlyZeroFails(p, order, sizes, blocks);
      }
    } else {
      var any := (q: Parameters) => true;
      var tried := PositiveCandidate(p, counts, ThirdCounts(device, radixBits, p));
      OnlyChosen(any, ForBlocks(p, counts), sizes, tried);
      var outcome := Tune.TuneFrom(Constructing(Only(any)), ForBlocks(p, counts), sizes, 0.5, 0);
      assert Selected(device, radixBits, sizes, reduce, scatter, Only(any), outcome);
    }
  }

  lemma ShapedCounts(device: Device, radixBits: nat, p: Parameters)
    requires Shaped(p, device, radixBits) && IsPow2(device.warpSizeSchedule) && device.computeUnits > 0
    ensures BlocksDefined(p)
    ensures var counts := ThirdCounts(device, radixBits, p);
            && counts != {}
            && if MaxBlocks(device, Pow2(radixBits)) >= Quot(p.scatterWorkGroupSize, Pow2(radixBits)) then 0 !in counts
               else counts == {0}
  {
    hide MaxBlocks, Doubling, Pow2, IsPow2;
    BlockCountsMeaning(p, MaxBlocks(device, Pow2(radixBits)), device.computeUnits);
    assert BlockLimit(p, MaxBlocks(device, Pow2(radixBits))) in ThirdCounts(device, radixBits, p);
  }

  lemma OnlyZeroFails(p: Parameters, counts: seq<nat>, sizes: seq<nat>, blocks: Timing)
    requires Ascends(counts, {0}) && sizes != []
    ensures Tune.TuneFrom(Constructing(blocks), ForBlocks(p, counts), sizes, 0.5, 0) == Tune.TuneError
  {
    var f := Tune.AtPass(Constructing(blocks), 0, sizes[0]);
    forall i | 0 <= i < |counts| ensures counts[i] == 0 {
      assert counts[i] in counts;
    }
    NoSurvivors(f, ForBlocks(p, counts));
  }

  lemma {:induction false} NoSurvivors(f: Parameters -> Tune.Measurement, candidates: seq<Parameters>)
    requires forall i | 0 <= i < |candidates| :: f(candidates[i]).Failed?
    ensures Tune.Survivors(f, candidates) == []
  {
    if candidates != [] {
      NoSurvivors(f, candidates[..|candidates| - 1]);
    }
  }

  lemma PositiveCandidate(p: Parameters, counts: seq<nat>, s: set<nat>) returns (q: Parameters)
    requires Ascends(counts, s) && s != {} && 0 !in s
    ensures q in ForBlocks(p, counts) && q.scanBlocks > 0
  {
    var x :| x in s;
    var i :| 0 <= i < |counts| && counts[i] == x;
    q := ForBlocks(p, counts)[i];
  }

  /** Tuning can get stuck in its third step if and only if the device is a dead end. */
  lemma StuckExactly(device: Device, radixBits: nat, sizes: seq<nat>)
    requires radixBits >= 1 && IsPow2(device.warpSizeSchedule) && device.computeUnits > 0 && sizes != []
    ensures (exists reduce: Timing, scatter: Timing :: Stuck(device, radixBits, sizes, reduce, scatter)) <==>
            DeadEnd(device, radixBits)
  {
    hide Stuck, AfterScatter, DeadEnd, Shaped, MaxBlocks, StartBlocks;
    if DeadEnd(device, radixBits) {
      var reduce, scatter := WidestChosen(device, radixBits, sizes);
      ThirdStep(device, radixBits, sizes, reduce, scatter);
    } else {
      forall reduce: Timing, scatter: Timing ensures !Stuck(device, radixBits, sizes, reduce, scatter) {
        NotStuck(device, radixBits, sizes, reduce, scatter);
      }
    }
  }

  lemma NotStuck(device: Device, radixBits: nat, sizes: seq<nat>, reduce: Timing, scatter: Timing)
    requires radixBits >= 1 && IsPow2(device.warpSizeSchedule) && device.computeUnits > 0 && sizes != []
    requires !DeadEnd(device, radixBits)
    ensures !Stuck(device, radixBits, sizes, reduce, scatter)
  {
    hide AfterScatter, DeadEnd, Shaped, MaxBlocks, StartBlocks;
    if AfterScatter(device, radixBits, sizes, reduce, scatter).Chosen? {
      ScatterChosen(device, radixBits, sizes, reduce, scatter);
      NoDeadEnd(device, radixBits, AfterScatter(device, radixBits, sizes, reduce, scatter).params);
      ThirdStep(device, radixBits, sizes, reduce, scatter);
    }
  }

  /** Such a device: work-groups of 8192, warps of 64 and 32 KiB of local memory, which hold 504 blocks of 16
      digits where the widest work-group needs 512. */
  lemma WideWarpsStuck(sizes: seq<nat>)
    requires sizes != []
    ensures exists reduce: Timing, scatter: Timing :: Stuck(Device(8192, 8192, 1, 64, 64), 4, sizes, reduce, scatter)
  {
    hide Stuck, LargestDoubling;
    var device := Device(8192, 8192, 1, 64, 64);
    assert Pow2(4) == 16;
    assert MaxBlocks(device, 16) == 504 && StartBlocks(device, 16) == 252;
    LargestOf8192();
    assert Pow2(6) == 64;
    Pow2IsPow2(6);
    StuckExactly(device, 4, sizes);
  }

  lemma LargestOf8192()
    ensures LargestDoubling(64, 8192) == 8192
  {
    assert LargestDoubling(1024, 8192) == LargestDoubling(2048, 8192) == LargestDoubling(4096, 8192) == 8192;
    assert LargestDoubling(128, 8192) == LargestDoubling(256, 8192) == LargestDoubling(512, 8192)
        == LargestDoubling(1024, 8192);
  }

  // ---- exactly which parameters can come out

  /** The block counts offered to a scatter work-group of so many slices, and so many times as wide as the radix: the
      most blocks, rounded down twice to whole work-groups; four or one work-group's slices, doubled any number of
      times up to that limit; and the number of compute units, doubled likewise and then rounded down to whole
      work-groups, if that leaves at least four. */
  ghost predicate Offered(maxBlocks: nat, slices: nat, digits: nat, computeUnits: nat, x: nat)
    requires slices > 0 && digits > 0
  {
    var limit := RoundDown(RoundDown(maxBlocks, slices), digits);
    || x == limit
    || (x <= limit && IsDoubled(Max(4, slices), x))
    || (x >= 4 && UnitsRounded(computeUnits, slices, limit, x))
  }

  /** A doubling of the compute units within the limit, rounded down to whole work-groups. */
  ghost predicate UnitsRounded(computeUnits: nat, slices: nat, limit: nat, x: nat)
    requires slices > 0
  {
    exists y: nat :: IsDoubled(computeUnits, y) && y <= limit && x == RoundDown(y, slices)
  }

  /** The third source of block counts. */
  ghost predicate FromUnits(computeUnits: nat, slices: nat, limit: nat, x: nat)
    requires computeUnits > 0 && slices > 0
  {
    exists y :: y in Doubling(computeUnits, limit) && RoundDown(y, slices) >= 4 && x == RoundDown(y, slices)
  }

  lemma UnitsExactly(computeUnits: nat, slices: nat, limit: nat, x: nat)
    requires computeUnits > 0 && slices > 0
    ensures FromUnits(computeUnits, slices, limit, x) <==> x >= 4 && UnitsRounded(computeUnits, slices, limit, x)
  {
    hide Doubling, RoundDown, IsDoubled;
    if FromUnits(computeUnits, slices, limit, x) {
      var y :| y in Doubling(computeUnits, limit) && RoundDown(y, slices) >= 4 && x == RoundDown(y, slices);
      DoublingExactly(computeUnits, limit, y);
    }
    if x >= 4 && UnitsRounded(computeUnits, slices, limit, x) {
      var y: nat :| IsDoubled(computeUnits, y) && y <= limit && x == RoundDown(y, slices);
      DoublingExactly(computeUnits, limit, y);
    }
  }

  /** The three sources of block counts. */
  lemma CountsParts(cand: Parameters, maxBlocks: nat, computeUnits: nat, x: nat)
    requires BlocksDefined(cand) && computeUnits > 0 && cand.scanWorkGroupSize == 4 * Pow2(cand.radixBits)
    ensures var slices, limit := SlicesPerWorkGroup(cand), BlockLimit(cand, maxBlocks);
            x in BlockCounts(cand, maxBlocks, computeUnits) <==>
            x == limit || x in Doubling(Max(4, slices), limit) || FromUnits(computeUnits, slices, limit, x)
  {
    hide Doubling, Pow2, RoundDown, SlicesPerWorkGroup, BlockLimit;
    DivModUnique(4 * Pow2(cand.radixBits), Pow2(cand.radixBits), 4, 0);
  }

  lemma OfferedExactly(cand: Parameters, maxBlocks: nat, computeUnits: nat, x: nat)
    requires BlocksDefined(cand) && computeUnits > 0 && cand.scanWorkGroupSize == 4 * Pow2(cand.radixBits)
    ensures x in BlockCounts(cand, maxBlocks, computeUnits) <==>
            Offered(maxBlocks, SlicesPerWorkGroup(cand), Quot(cand.scatterWorkGroupSize, Pow2(cand.radixBits)),
                    computeUnits, x)
  {
    hide SlicesPerWorkGroup, Pow2, Doubling, RoundDown, UnitsRounded, FromUnits, IsDoubled, BlockCounts, Quot;
    CountsParts(cand, maxBlocks, computeUnits, x);
    DoublingExactly(Max(4, SlicesPerWorkGroup(cand)), BlockLimit(cand, maxBlocks), x);
    UnitsExactly(computeUnits, SlicesPerWorkGroup(cand), BlockLimit(cand, maxBlocks), x);
  }

  /** Everything tuning can return, whatever is measured. */
  ghost predicate Tunable(device: Device, radixBits: nat, p: Parameters) {
    var radix := Pow2(radixBits);
    && p.warpSizeMem == device.warpSizeMem && p.warpSizeSchedule == device.warpSizeSchedule
    && p.radixBits == radixBits && p.scanWorkGroupSize == 4 * radix
    && p.reduceWorkGroupSize <= device.maxWorkGroupSize && IsDoubled(radix, p.reduceWorkGroupSize)
    && p.scatterWorkGroupSize <= device.maxWorkGroupSize
    && p.scatterWorkScale >= 1 && p.scatterWorkScale * Max(device.warpSizeSchedule, radix) <= 255
    && exists k: nat :: TunableBlocks(device, radix, k, p.scatterWorkGroupSize, p.scanBlocks)
  }

  /** A scatter work-group of 2^k slices, no more than there are blocks to start with, and a block count offered to it. */
  ghost predicate TunableBlocks(device: Device, radix: nat, k: nat, size: nat, blocks: nat)
    requires radix > 0
  {
    && size == Max(device.warpSizeSchedule, radix) * Pow2(k) && Pow2(k) <= StartBlocks(device, radix)
    && size / radix > 0 && blocks > 0
    && Offered(MaxBlocks(device, radix), Pow2(k), size / radix, device.computeUnits, blocks)
  }

  /** The first step tries exactly the doublings of the radix, smallest first. */
  lemma FirstExactly(device: Device, radixBits: nat, p: Parameters)
    ensures var radix := Pow2(radixBits);
            p in FirstSets(device, radixBits) <==>
            && p == Parameters(device.warpSizeMem, device.warpSizeSchedule, p.reduceWorkGroupSize, 4 * radix,
                               Max(device.warpSizeSchedule, radix), 1, StartBlocks(device, radix), radixBits)
            && p.reduceWorkGroupSize <= device.maxWorkGroupSize && IsDoubled(radix, p.reduceWorkGroupSize)
  {
    hide Doubling, Pow2, StartBlocks, IsDoubled;
    var sizes := Doubling(Pow2(radixBits), device.maxWorkGroupSize);
    DoublingExactly(Pow2(radixBits), device.maxWorkGroupSize, p.reduceWorkGroupSize);
    var start := StartParameters(device, radixBits);
    if p == start.(reduceWorkGroupSize := p.reduceWorkGroupSize) && p.reduceWorkGroupSize in sizes {
      var i: nat :| i < |sizes| && sizes[i] == p.reduceWorkGroupSize;
      assert FirstSets(device, radixBits)[i] == p;
    }
  }

  lemma FirstAscends(device: Device, radixBits: nat, i: nat, j: nat)
    requires i < j < |FirstSets(device, radixBits)|
    ensures FirstSets(device, radixBits)[i].reduceWorkGroupSize < FirstSets(device, radixBits)[j].reduceWorkGroupSize
  {
    hide Doubling, Pow2, StartParameters;
    DoublingAscends(Pow2(radixBits), device.maxWorkGroupSize, i, j);
  }

  /** The second step tries smaller work-groups first, and of one size the smaller scales. */
  lemma {:induction false} ScatterAscends(cand: Parameters, startBlocks: nat, size: nat, maxWorkGroupSize: nat, i: nat, j: nat)
    requires size >= ScatterSlice(cand) && i < j < |ForScatter(cand, startBlocks, size, maxWorkGroupSize)|
    ensures var p, q := ForScatter(cand, startBlocks, size, maxWorkGroupSize)[i],
                        ForScatter(cand, startBlocks, size, maxWorkGroupSize)[j];
            p.scatterWorkGroupSize < q.scatterWorkGroupSize
            || (p.scatterWorkGroupSize == q.scatterWorkGroupSize && p.scatterWorkScale < q.scatterWorkScale)
    decreases if size <= maxWorkGroupSize then maxWorkGroupSize - size + 1 else 0
  {
    hide ScatterSlice, MaxScale, RoundDown, Quot, Doubling;
    AtLeastOneSlice(size, ScatterSlice(cand));
    var here := ForScales(cand, startBlocks, size, MaxScale(cand));
    var rest := ForScatter(cand, startBlocks, size * 2, maxWorkGroupSize);
    assert ForScatter(cand, startBlocks, size, maxWorkGroupSize) == here + rest;
    if i >= |here| {
      ScatterAscends(cand, startBlocks, size * 2, maxWorkGroupSize, i - |here|, j - |here|);
    } else if j >= |here| {
      var q := rest[j - |here|];
      assert q in rest;
      ScatterExactly(cand, startBlocks, size * 2, maxWorkGroupSize, q);
      DoublingAtLeast(size * 2, maxWorkGroupSize, q.scatterWorkGroupSize);
    }
  }

  lemma ScalesExactly(cand: Parameters, startBlocks: nat, size: nat, scales: nat, p: Parameters)
    requires Quot(size, ScatterSlice(cand)) > 0
    ensures p in ForScales(cand, startBlocks, size, scales) <==>
            1 <= p.scatterWorkScale <= scales && p == ForScale(cand, startBlocks, size, p.scatterWorkScale)
  {
    hide ScatterSlice, RoundDown, Quot;
    var sets := ForScales(cand, startBlocks, size, scales);
    if 1 <= p.scatterWorkScale <= scales && p == ForScale(cand, startBlocks, size, p.scatterWorkScale) {
      assert sets[p.scatterWorkScale - 1] == p;
    }
  }

  lemma {:induction false} ScatterExactly(cand: Parameters, startBlocks: nat, size: nat, maxWorkGroupSize: nat, p: Parameters)
    requires size >= ScatterSlice(cand)
    ensures p in ForScatter(cand, startBlocks, size, maxWorkGroupSize) <==>
            && p.scatterWorkGroupSize in Doubling(size, maxWorkGroupSize)
            && 1 <= p.scatterWorkScale <= MaxScale(cand)
            && Quot(p.scatterWorkGroupSize, ScatterSlice(cand)) > 0
            && p == ForScale(cand, startBlocks, p.scatterWorkGroupSize, p.scatterWorkScale)
    decreases if size <= maxWorkGroupSize then maxWorkGroupSize - size + 1 else 0
  {
    hide ScatterSlice, MaxScale, ForScales, RoundDown, Quot;
    if size <= maxWorkGroupSize {
      AtLeastOneSlice(size, ScatterSlice(cand));
      ScatterExactly(cand, startBlocks, size * 2, maxWorkGroupSize, p);
      ScalesExactly(cand, startBlocks, size, MaxScale(cand), p);
    }
  }

  lemma ScaleBoundExactly(scale: nat, slice: nat)
    requires slice > 0
    ensures scale <= Quot(255, slice) <==> scale * slice <= 255
  {
    MultiplesApart(scale, Quot(255, slice), slice);
    MultiplesApart(Quot(255, slice) + 1, scale, slice);
  }

  /** The second step tries exactly all doubled sizes with all scales that keep a tile within a byte. */
  lemma SecondExactly(device: Device, radixBits: nat, first: Parameters, p: Parameters)
    ensures p in SecondSets(device, radixBits, first) <==>
            && 1 <= p.scatterWorkScale && p.scatterWorkScale * ScatterSlice(first) <= 255
            && p.scatterWorkGroupSize <= device.maxWorkGroupSize
            && exists k: nat :: ScatterOf(first, StartBlocks(device, Pow2(radixBits)), k, p)
  {
    hide *;
    var slice, start := ScatterSlice(first), StartBlocks(device, Pow2(radixBits));
    SecondIs(device, radixBits, first);
    ScatterExactly(first, start, slice, device.maxWorkGroupSize, p);
    DoublingExactly(slice, device.maxWorkGroupSize, p.scatterWorkGroupSize);
    ScaleBoundExactly(p.scatterWorkScale, slice);
    MaxScaleIs(first);
    if IsDoubled(slice, p.scatterWorkGroupSize) {
      var k := Doublings(slice, p.scatterWorkGroupSize);
      OfSize(first, start, k, p);
    }
    if k: nat :| ScatterOf(first, start, k, p) {
      OfSize(first, start, k, p);
      IsDoubling(slice, k);
    }
  }

  lemma Doublings(start: nat, x: nat) returns (k: nat)
    requires IsDoubled(start, x)
    ensures x == start * Pow2(k)
  {
    k :| x == start * Pow2(k);
  }

  lemma IsDoubling(start: nat, k: nat)
    ensures IsDoubled(start, start * Pow2(k))
  {
  }

  lemma SecondIs(device: Device, radixBits: nat, first: Parameters)
    ensures SecondSets(device, radixBits, first) ==
            ForScatter(first, StartBlocks(device, Pow2(radixBits)), ScatterSlice(first), device.maxWorkGroupSize)
  {
  }

  lemma MaxScaleIs(p: Parameters)
    ensures MaxScale(p) == Quot(255, ScatterSlice(p))
  {
  }

  lemma OfSize(first: Parameters, start: nat, k: nat, p: Parameters)
    ensures ScatterOf(first, start, k, p) ==> p.scatterWorkGroupSize == ScatterSlice(first) * Pow2(k)
    ensures p.scatterWorkGroupSize == ScatterSlice(first) * Pow2(k) ==>
              && Quot(p.scatterWorkGroupSize, ScatterSlice(first)) > 0
              && (ScatterOf(first, start, k, p) <==> p == ForScale(first, start, p.scatterWorkGroupSize, p.scatterWorkScale))
  {
    hide ScatterSlice, Pow2, RoundDown, Quot;
    SlicesAre(ScatterSlice(first), k);
  }

  lemma SlicesAre(slice: nat, k: nat)
    requires slice > 0
    ensures Quot(slice * Pow2(k), slice) == Pow2(k)
  {
    Commute(slice, Pow2(k));
    DivModUnique(slice * Pow2(k), slice, Pow2(k), 0);
  }

  /** The candidate of 2^k slices with the scale of p. */
  predicate ScatterOf(first: Parameters, startBlocks: nat, k: nat, p: Parameters) {
    p == first.(scatterWorkGroupSize := ScatterSlice(first) * Pow2(k), scatterWorkScale := p.scatterWorkScale,
                scanBlocks := RoundDown(startBlocks, Pow2(k)))
  }

  /** Timings in which only one candidate succeeds. */
  function Favour(p: Parameters): Timing {
    (pass: nat, size: nat, q: Parameters) => if q == p then Tune.Rates(1.0, 1.0) else Tune.Failed
  }

  lemma Favoured(p: Parameters, candidates: seq<Parameters>, sizes: seq<nat>)
    requires p in candidates && p.scanBlocks > 0 && sizes != []
    ensures Tune.TuneFrom(Constructing(Favour(p)), candidates, sizes, 0.5, 0) == Tune.Chosen(p)
  {
    TuneProperties.OnlyOneChosen(Constructing(Favour(p)), candidates, sizes, p);
  }

  lemma BlocksOf(cand: Parameters, counts: seq<nat>, s: set<nat>, p: Parameters)
    requires Ascends(counts, s)
    ensures p in ForBlocks(cand, counts) <==> p == cand.(scanBlocks := p.scanBlocks) && p.scanBlocks in s
  {
    if p == cand.(scanBlocks := p.scanBlocks) && p.scanBlocks in s {
      var i: nat :| i < |counts| && counts[i] == p.scanBlocks;
      assert ForBlocks(cand, counts)[i] == p;
    }
  }

  /** Every offered count but zero is the outcome of the third step for some callback, and no other is for any. */
  lemma ThirdExactly(device: Device, radixBits: nat, sizes: seq<nat>, reduce: Timing, scatter: Timing, p: Parameters)
    requires radixBits >= 1 && IsPow2(device.warpSizeSchedule) && device.computeUnits > 0 && sizes != []
    requires AfterScatter(device, radixBits, sizes, reduce, scatter).Chosen?
    ensures var second := AfterScatter(device, radixBits, sizes, reduce, scatter).params;
            && BlocksDefined(second) && second.radixBits == radixBits
            && ((exists blocks: Timing :: Selected(device, radixBits, sizes, reduce, scatter, blocks, Tune.Chosen(p))) <==>
                && p == second.(scanBlocks := p.scanBlocks) && p.scanBlocks > 0
                && Offered(MaxBlocks(device, Pow2(radixBits)), SlicesPerWorkGroup(second),
                           Quot(second.scatterWorkGroupSize, Pow2(radixBits)), device.computeUnits, p.scanBlocks))
  {
    hide AfterScatter, MaxBlocks, Pow2, IsPow2, BlockCounts, Offered, ForBlocks, SlicesPerWorkGroup;
    ScatterChosen(device, radixBits, sizes, reduce, scatter);
    var second := AfterScatter(device, radixBits, sizes, reduce, scatter).params;
    ShapedDefined(second, device, radixBits);
    OfferedExactly(second, MaxBlocks(device, Pow2(radixBits)), device.computeUnits, p.scanBlocks);
    if blocks: Timing :| Selected(device, radixBits, sizes, reduce, scatter, blocks, Tune.Chosen(p)) {
      var counts :| Ascends(counts, ThirdCounts(device, radixBits, second))
                    && Tune.Chosen(p) == Tune.TuneFrom(Constructing(blocks), ForBlocks(second, counts), sizes, 0.5, 0);
      TuneProperties.ChosenSucceeded(Constructing(blocks), ForBlocks(second, counts), sizes, 0.5, 0, 0);
      BlocksOf(second, counts, ThirdCounts(device, radixBits, second), p);
    }
    if p == second.(scanBlocks := p.scanBlocks) && p.scanBlocks > 0 && p.scanBlocks in ThirdCounts(device, radixBits, second) {
      var counts := AscendsExists(ThirdCounts(device, radixBits, second));
      BlocksOf(second, counts, ThirdCounts(device, radixBits, second), p);
      Favoured(p, ForBlocks(second, counts), sizes);
      assert Selected(device, radixBits, sizes, reduce, scatter, Favour(p), Tune.Chosen(p));
    }
  }

  /** What tuning can return: for which parameters there are measurements that end in them. */
  ghost predicate CanBeTuned(device: Device, radixBits: nat, sizes: seq<nat>, p: Parameters)
    requires device.computeUnits > 0
  {
    exists reduce: Timing, scatter: Timing, blocks: Timing ::
      Selected(device, radixBits, sizes, reduce, scatter, blocks, Tune.Chosen(p))
  }

  /** The parameters of p with which each step ends if it is favoured: all but the number of blocks, and all but
      that and the scatter work-group. */
  function FirstOf(device: Device, radixBits: nat, p: Parameters): Parameters {
    StartParameters(device, radixBits).(reduceWorkGroupSize := p.reduceWorkGroupSize)
  }

  function SecondOf(device: Device, radixBits: nat, k: nat, p: Parameters): Parameters {
    FirstOf(device, radixBits, p).(scatterWorkGroupSize := p.scatterWorkGroupSize, scatterWorkScale := p.scatterWorkScale,
                                   scanBlocks := RoundDown(StartBlocks(device, Pow2(radixBits)), Pow2(k)))
  }

  lemma FirstOfSlice(device: Device, radixBits: nat, p: Parameters)
    ensures ScatterSlice(FirstOf(device, radixBits, p)) == Max(device.warpSizeSchedule, Pow2(radixBits))
  {
  }

  /** The first two steps can be made to choose any of their candidates. */
  lemma TwoStepsFavoured(device: Device, radixBits: nat, sizes: seq<nat>, k: nat, p: Parameters)
    requires sizes != [] && Tunable(device, radixBits, p)
    requires TunableBlocks(device, Pow2(radixBits), k, p.scatterWorkGroupSize, p.scanBlocks)
    ensures AfterScatter(device, radixBits, sizes, Favour(FirstOf(device, radixBits, p)),
                         Favour(SecondOf(device, radixBits, k, p)))
            == Tune.Chosen(SecondOf(device, radixBits, k, p))
  {
    var first, second := FirstOf(device, radixBits, p), SecondOf(device, radixBits, k, p);
    FirstOfSlice(device, radixBits, p);
    PositiveStart(StartBlocks(device, Pow2(radixBits)), Pow2(k));
    hide Pow2, ScatterSlice, FirstSets, SecondSets, StartBlocks, Offered, IsDoubled, RoundDown, Quot, Tune.TuneFrom, Favour;
    FirstExactly(device, radixBits, first);
    SecondExactly(device, radixBits, first, second);
    assert ScatterOf(first, StartBlocks(device, Pow2(radixBits)), k, second);
    Favoured(first, FirstSets(device, radixBits), sizes);
    Favoured(second, SecondSets(device, radixBits, first), sizes);
  }

  lemma PositiveStart(start: nat, slices: nat)
    requires 0 < slices <= start
    ensures RoundDown(start, slices) > 0
  {
    MultipleMod(1, slices);
    RoundDownGreatest(start, slices, slices);
  }

  lemma SecondSlices(device: Device, radixBits: nat, k: nat, p: Parameters)
    requires TunableBlocks(device, Pow2(radixBits), k, p.scatterWorkGroupSize, p.scanBlocks)
    ensures SlicesPerWorkGroup(SecondOf(device, radixBits, k, p)) == Pow2(k)
  {
    FirstOfSlice(device, radixBits, p);
    hide Pow2, Offered, RoundDown, StartBlocks;
    SlicesAre(Max(device.warpSizeSchedule, Pow2(radixBits)), k);
  }

  lemma WasTuned(device: Device, radixBits: nat, sizes: seq<nat>, reduce: Timing, scatter: Timing, blocks: Timing,
                 p: Parameters)
    requires device.computeUnits > 0 && Selected(device, radixBits, sizes, reduce, scatter, blocks, Tune.Chosen(p))
    ensures CanBeTuned(device, radixBits, sizes, p)
  {
    hide Selected;
  }

  /** All of these can be returned. */
  lemma TunableIsTuned(device: Device, radixBits: nat, sizes: seq<nat>, p: Parameters)
    requires radixBits >= 1 && IsPow2(device.warpSizeSchedule) && device.computeUnits > 0 && sizes != []
    requires Tunable(device, radixBits, p)
    ensures CanBeTuned(device, radixBits, sizes, p)
  {
    hide Selected, AfterScatter, Pow2, IsPow2, Offered, IsDoubled, StartBlocks, MaxBlocks, RoundDown, Favour, SlicesPerWorkGroup;
    var k: nat :| TunableBlocks(device, Pow2(radixBits), k, p.scatterWorkGroupSize, p.scanBlocks);
    var first, second := FirstOf(device, radixBits, p), SecondOf(device, radixBits, k, p);
    TwoStepsFavoured(device, radixBits, sizes, k, p);
    SecondSlices(device, radixBits, k, p);
    ThirdExactly(device, radixBits, sizes, Favour(first), Favour(second), p);
    QuotIs(second.scatterWorkGroupSize, Pow2(radixBits));
  }

  lemma QuotIs(x: nat, y: nat)
    requires y > 0
    ensures Quot(x, y) == x / y
  {
  }

  /** After two steps, whatever is measured. */
  lemma TwoStepsTunable(device: Device, radixBits: nat, sizes: seq<nat>, reduce: Timing, scatter: Timing) returns (k: nat)
    requires sizes != [] && AfterScatter(device, radixBits, sizes, reduce, scatter).Chosen?
    ensures var radix := Pow2(radixBits);
            var p := AfterScatter(device, radixBits, sizes, reduce, scatter).params;
            && p == SecondOf(device, radixBits, k, p) && p.scanBlocks > 0
            && p.reduceWorkGroupSize <= device.maxWorkGroupSize && IsDoubled(radix, p.reduceWorkGroupSize)
            && p.scatterWorkGroupSize <= device.maxWorkGroupSize
            && p.scatterWorkScale >= 1 && p.scatterWorkScale * Max(device.warpSizeSchedule, radix) <= 255
            && p.scatterWorkGroupSize == Max(device.warpSizeSchedule, radix) * Pow2(k)
  {
    hide FirstSets, SecondSets, StartBlocks, Pow2, IsDoubled, RoundDown, Quot, ScatterSlice, Tune.TuneFrom;
    var first := Tune.TuneFrom(Constructing(reduce), FirstSets(device, radixBits), sizes, 0.5, 0).params;
    TuneProperties.ChosenSucceeded(Constructing(reduce), FirstSets(device, radixBits), sizes, 0.5, 0, 0);
    var p := AfterScatter(device, radixBits, sizes, reduce, scatter).params;
    TuneProperties.ChosenSucceeded(Constructing(scatter), SecondSets(device, radixBits, first), sizes, 0.5, 0, 0);
    FirstExactly(device, radixBits, first);
    SecondExactly(device, radixBits, first, p);
    FirstOfSlice(device, radixBits, first);
    k :| ScatterOf(first, StartBlocks(device, Pow2(radixBits)), k, p);
  }

  /** Nothing else can. */
  lemma TunedIsTunable(device: Device, radixBits: nat, sizes: seq<nat>, p: Parameters)
    requires radixBits >= 1 && IsPow2(device.warpSizeSchedule) && device.computeUnits > 0 && sizes != []
    requires CanBeTuned(device, radixBits, sizes, p)
    ensures Tunable(device, radixBits, p)
  {
    hide AfterScatter, Pow2, IsPow2, Offered, IsDoubled, StartBlocks, MaxBlocks, RoundDown, SlicesPerWorkGroup, Ascends;
    hide Tune.TuneFrom, ForBlocks, ThirdCounts, Constructing, Shaped, Quot;
    var reduce: Timing, scatter: Timing, blocks: Timing :|
      Selected(device, radixBits, sizes, reduce, scatter, blocks, Tune.Chosen(p));
    var second := AfterScatter(device, radixBits, sizes, reduce, scatter).params;
    ScatterChosen(device, radixBits, sizes, reduce, scatter);
    ThirdExactly(device, radixBits, sizes, reduce, scatter, p);
    var k := TwoStepsTunable(device, radixBits, sizes, reduce, scatter);
    SecondOfSlices(device, radixBits, k, second);
    QuotIs(second.scatterWorkGroupSize, Pow2(radixBits));
    assert TunableBlocks(device, Pow2(radixBits), k, p.scatterWorkGroupSize, p.scanBlocks);
  }

  lemma SecondOfSlices(device: Device, radixBits: nat, k: nat, p: Parameters)
    requires p == SecondOf(device, radixBits, k, p)
    requires p.scatterWorkGroupSize == Max(device.warpSizeSchedule, Pow2(radixBits)) * Pow2(k)
    ensures SlicesPerWorkGroup(p) == Pow2(k) && p.radixBits == radixBits
    ensures ScatterSlice(p) == Max(device.warpSizeSchedule, Pow2(radixBits))
    ensures p.warpSizeMem == device.warpSizeMem && p.warpSizeSchedule == device.warpSizeSchedule
    ensures p.scanWorkGroupSize == 4 * Pow2(radixBits)
  {
    hide Pow2, RoundDown, StartBlocks;
    SlicesAre(Max(device.warpSizeSchedule, Pow2(radixBits)), k);
  }

  /** Exactly which parameters tuning can return. */
  lemma TunedExactly(device: Device, radixBits: nat, sizes: seq<nat>, p: Parameters)
    requires radixBits >= 1 && IsPow2(device.warpSizeSchedule) && device.computeUnits > 0 && sizes != []
    ensures CanBeTuned(device, radixBits, sizes, p) <==> Tunable(device, radixBits, p)
  {
    hide CanBeTuned, Tunable, IsPow2;
    if Tunable(device, radixBits, p) {
      TunableIsTuned(device, radixBits, sizes, p);
    }
    if CanBeTuned(device, radixBits, sizes, p) {
      TunedIsTunable(device, radixBits, sizes, p);
    }
  }

  /** So with tuned parameters the generated byte program is exact: on a tile, which holds scatterWorkScale keys
      for each work item of a slice, every state is that of unbounded integers, and the final one holds the
      exclusive prefix sums of the counters; at the radix stop the kernel reads the true counts. */
  lemma TunedSweepExact(p: Parameters, device: Device, radixBits: nat, steps: seq<Sweep.Step>, m: Sweep.Memory, j: nat)
    requires Shaped(p, device, radixBits) && radixBits >= 1
    requires Sweep.SweepSteps(steps, Pow2(radixBits), ScatterSlice(p))
    requires SweepLevels.StopsAt(steps, ScatterSlice(p), Pow2(radixBits))
    requires Sweep.SliceMemory(m, Pow2(radixBits), ScatterSlice(p))
    requires Sums.Sum(m.level1) <= ScatterSlice(p) * p.scatterWorkScale
    requires j <= |Sweep.Ups(steps) + Sweep.Downs(steps)|
    ensures var program := Sweep.Ups(steps) + Sweep.Downs(steps);
            && Sweep.Run(Sweep.Byte, program[..j], m) == Sweep.Run(Sweep.Unbounded, program[..j], m)
            && Sweep.IsScan(Sweep.Unbounded, m.level1, Sweep.Run(Sweep.Byte, program, m).level1)
            && SweepLevels.CountsDigits(Sweep.Unbounded, m, Sweep.Run(Sweep.Byte, Sweep.Ups(steps), m),
                                        Pow2(radixBits), ScatterSlice(p))
            && SweepLevels.CountsSmaller(Sweep.Unbounded, m, Sweep.Run(Sweep.Byte, program, m),
                                         Pow2(radixBits), ScatterSlice(p))
  {
    hide SweepLevels.StopsAt, SweepLevels.CountsDigits, SweepLevels.CountsSmaller;
    hide Sweep.SweepSteps, Sweep.SliceMemory, Sweep.IsScan, Sweep.Run, Sweep.Ups, Sweep.Downs, ScatterSlice, WholeSlices;
    var program := Sweep.Ups(steps) + Sweep.Downs(steps);
    SweepBytes.TileSweepExact(steps, Pow2(radixBits), ScatterSlice(p), m, p.scatterWorkScale, j);
    SweepBytes.TileSweepExact(steps, Pow2(radixBits), ScatterSlice(p), m, p.scatterWorkScale, |program|);
    assert program[..|program|] == program;
    SweepBytes.TileCountsExact(steps, Pow2(radixBits), ScatterSlice(p), m, p.scatterWorkScale);
    Sweep.SweepScans(Sweep.Unbounded, steps, Pow2(radixBits), ScatterSlice(p), m);
  }

  /** Runs the three selections. None means that the device's work-groups are smaller than the radix, in
      which case the code gives up before it has set any parameter. */
  method TuneRadixsort(device: Device, radixBits: nat, enabled: bool, problemSizes: seq<nat>,
                       measureReduce: Timing, measureScatter: Timing, measureBlocks: Timing)
    returns (outcome: Option<Tune.Outcome<Parameters>>)
    requires radixBits >= 1 && IsPow2(device.warpSizeSchedule) && device.computeUnits > 0 && problemSizes != []
    ensures !enabled ==> outcome == Some(Tune.Disabled)
    ensures enabled ==> (outcome == None <==> device.maxWorkGroupSize < Pow2(radixBits))
    ensures enabled && outcome.Some? ==>
              Selected(device, radixBits, problemSizes, measureReduce, measureScatter, measureBlocks, outcome.value)
    ensures outcome.Some? && outcome.value.Chosen? ==>
              var p := outcome.value.params;
              Shaped(p, device, radixBits) && Aligned(p) && Admissible(p) && Tunable(device, radixBits, p)
  {
    hide Tunable, CanBeTuned, Pow2, IsPow2, ForReduce, ForScatter, Doubling, Shaped, Aligned, Admissible, BlockCounts, MaxBlocks, Constructing;
    hide Tune.TuneFrom, ForBlocks, Ascends, RoundDown, ScatterSlice, BlocksDefined, Quot;
    if !enabled {
      return Some(Tune.Disabled);
    }
    var radix := Pow2(radixBits);
    var maxBlocks := MaxBlocks(device, radix);
    DivModUnique(4 * radix, radix, 4, 0);
    var startBlocks := RoundDown(maxBlocks / 2, 4 * radix / radix);
    if device.maxWorkGroupSize < radix {
      return None;
    }
    var scatterSlice := Max(device.warpSizeSchedule, radix);
    var cand := Parameters(device.warpSizeMem, device.warpSizeSchedule, 0, 4 * radix, scatterSlice, 1, startBlocks, radixBits);

    var sets := ReduceCandidates(cand, radix, device.maxWorkGroupSize);
    var result := Tune.TuneOne(enabled, sets, problemSizes, Constructing(measureReduce), 0.5);
    if !result.Chosen? {
      return Some(result);
    }
    TuneProperties.ChosenSucceeded(Constructing(measureReduce), sets, problemSizes, 0.5, 0, 0);
    cand := result.params;

    ghost var first := cand;
    sets := ScatterCandidates(cand, startBlocks, device.maxWorkGroupSize);
    result := Tune.TuneOne(enabled, sets, problemSizes, Constructing(measureScatter), 0.5);
    if !result.Chosen? {
      return Some(result);
    }
    TuneProperties.ChosenSucceeded(Constructing(measureScatter), sets, problemSizes, 0.5, 0, 0);
    cand := result.params;
    SecondShaped(device, radixBits, first, cand);
    ShapedDefined(cand, device, radixBits);

    ghost var counts;
    sets, counts := BlockCandidates(cand, maxBlocks, device.computeUnits);
    result := Tune.TuneOne(enabled, sets, problemSizes, Constructing(measureBlocks), 0.5);
    outcome := Some(result);
    if result.Chosen? {
      TunedIsAdmissible(device, radixBits, problemSizes, measureReduce, measureScatter, measureBlocks, result);
      WasTuned(device, radixBits, problemSizes, measureReduce, measureScatter, measureBlocks, result.params);
      TunedIsTunable(device, radixBits, problemSizes, result.params);
    }
  }
}

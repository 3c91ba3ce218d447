/** The three device phases of one radix sort pass: the reference loops the unit tests compare the
    device against (test/test_radixsort.cpp:409-414, 440-449 and 513-545), over a histogram table that
    holds `radix` counters for each block, block after block. The bounds of the blocks are those the
    kernels compute, in cl_uint. */
module RadixKernels {
  import opened Blocks
  import opened Partition
  import opened Sums
  import opened StableSort

  /** The `radixBits` bits of the key from firstBit on. */
  function Digit(key: nat, firstBit: nat, radix: nat): (d: nat)
    requires radix > 0
    ensures d < radix
  {
    key / Pow2(firstBit) % radix
  }

  function Digits(keys: seq<nat>, firstBit: nat, radix: nat): (ds: seq<nat>)
    requires radix > 0
    ensures |ds| == |keys|
    ensures forall i :: 0 <= i < |keys| ==> ds[i] == Digit(keys[i], firstBit, radix) < radix
  {
    seq(|keys|, i requires 0 <= i < |keys| => Digit(keys[i], firstBit, radix))
  }

  // ---- the table

  /** block * radix + digit; the recursive form keeps multiplication out of the larger proofs. */
  function Address(radix: nat, block: nat, digit: nat): nat {
    if block == 0 then digit else Address(radix, block - 1, digit) + radix
  }

  lemma {:induction false} AddressIs(radix: nat, b: nat, d: nat)
    ensures Address(radix, b, d) == b * radix + d
  {
    if b > 0 {
      AddressIs(radix, b - 1, d);
      assert b * radix == (b - 1) * radix + radix;
    }
  }

  function Cell(t: seq<nat>, radix: nat, block: nat, digit: nat): nat {
    var a := Address(radix, block, digit);
    if a < |t| then t[a] else 0
  }

  lemma AddressInjective(radix: nat, b: nat, d: nat, b': nat, d': nat)
    requires d < radix && d' < radix
    requires Address(radix, b, d) == Address(radix, b', d')
    ensures b == b' && d == d'
  {
    AddressIs(radix, b, d);
    AddressIs(radix, b', d');
    MultiplesApart(b, b', radix);
    MultiplesApart(b', b, radix);
  }

  lemma AddressBound(radix: nat, blocks: nat, b: nat, d: nat)
    requires b < blocks && d < radix
    ensures Address(radix, b, d) == b * radix + d < blocks * radix
  {
    AddressIs(radix, b, d);
    MultiplesApart(b, blocks, radix);
  }

  /** Writing one cell leaves all others alone. */
  lemma CellUpdate(t: seq<nat>, radix: nat, b: nat, d: nat, v: nat, b': nat, d': nat)
    requires d < radix && d' < radix && Address(radix, b, d) < |t|
    ensures Cell(t[Address(radix, b, d) := v], radix, b', d') ==
            if b' == b && d' == d then v else Cell(t, radix, b', d')
  {
    if Address(radix, b, d) == Address(radix, b', d') {
      AddressInjective(radix, b, d, b', d');
    }
  }

  /** How many elements of block b have digit d. */
  function BlockCount(ds: seq<nat>, len: nat, b: nat, d: nat): nat {
    CountEq(ds, BlockStart(|ds|, len, b), BlockEnd(|ds|, len, b), d)
  }

  /** Each cell counts the elements of its block that have its digit. */
  ghost predicate IsHistogram(t: seq<nat>, ds: seq<nat>, radix: nat, len: nat, blocks: nat) {
    forall b: nat, d: nat :: b < blocks && d < radix ==>
      Cell(t, radix, b, d) == BlockCount(ds, len, b, d)
  }

  /** Each cell holds the place of the first element of its block that has its digit: all smaller
      digits come first, then the same digit in earlier blocks. */
  ghost predicate IsOffsets(t: seq<nat>, ds: seq<nat>, radix: nat, len: nat, blocks: nat) {
    forall b: nat, d: nat :: b < blocks && d < radix ==>
      Cell(t, radix, b, d) == CountLess(ds, d) + CountEq(ds, 0, BlockStart(|ds|, len, b), d)
  }

  // ---- phase 1: histogram of each block

  /** The blocks before b are counted completely, block b up to element j, the rest is zero. */
  ghost predicate Counted(t: seq<nat>, ds: seq<nat>, radix: nat, len: nat, blocks: nat, b: nat, j: nat)
    requires j <= |ds|
  {
    forall c: nat, d: nat :: c < blocks && d < radix ==>
      Cell(t, radix, c, d) ==
      if c < b then BlockCount(ds, len, c, d)
      else if c == b then CountEq(ds, BlockStart(|ds|, len, b), j, d)
      else 0
  }

  lemma CountOne(t: seq<nat>, ds: seq<nat>, radix: nat, len: nat, blocks: nat, b: nat, j: nat)
    requires b < blocks && BlockStart(|ds|, len, b) <= j < |ds| && ds[j] < radix
    requires Address(radix, b, ds[j]) < |t|
    requires Counted(t, ds, radix, len, blocks, b, j)
    ensures var a := Address(radix, b, ds[j]);
            Counted(t[a := t[a] + 1], ds, radix, len, blocks, b, j + 1)
  {
    var a := Address(radix, b, ds[j]);
    var t' := t[a := t[a] + 1];
    assert t[a] == Cell(t, radix, b, ds[j]);
    forall c: nat, d: nat | c < blocks && d < radix
      ensures Cell(t', radix, c, d) ==
              if c < b then BlockCount(ds, len, c, d)
              else if c == b then CountEq(ds, BlockStart(|ds|, len, b), j + 1, d)
              else 0
    {
      CellUpdate(t, radix, b, ds[j], t[a] + 1, c, d);
    }
  }

  method ReduceKernel(table: array<nat>, keys: array<nat>, len: nat, elements: nat, firstBit: nat, radix: nat, blocks: nat)
    requires table != keys
    requires radix > 0 && elements <= keys.Length && blocks * radix <= table.Length
    requires blocks * len < UINT_RANGE
    modifies table
    ensures IsHistogram(table[..], Digits(keys[..elements], firstBit, radix), radix, len, blocks)
  {
    ghost var ds := Digits(keys[..elements], firstBit, radix);
    for k := 0 to blocks * radix
      invariant forall j :: 0 <= j < k ==> table[j] == 0
    {
      table[k] := 0;
    }
    CellsZero(table[..], radix, blocks);
    assert BlockStart(elements, len, 0) == 0;
    assert Counted(table[..], ds, radix, len, blocks, 0, 0);
    for b := 0 to blocks
      invariant Counted(table[..], ds, radix, len, blocks, b, BlockStart(elements, len, b))
    {
      KernelBounds(elements, len, blocks, b);
      for j := KernelStart(elements, len, b) to KernelEnd(elements, len, b)
        invariant Counted(table[..], ds, radix, len, blocks, b, j)
      {
        var digit := Digit(keys[j], firstBit, radix);
        assert digit == ds[j];
        AddressBound(radix, blocks, b, digit);
        CountOne(table[..], ds, radix, len, blocks, b, j);
        CountCell(table, b * radix + digit);
      }
    }
  }

  method CountCell(table: array<nat>, a: nat)
    requires a < table.Length
    modifies table
    ensures table[..] == old(table[..])[a := old(table[a]) + 1]
  {
    table[a] := table[a] + 1;
  }

  lemma CellsZero(t: seq<nat>, radix: nat, blocks: nat)
    requires blocks * radix <= |t|
    requires forall j :: 0 <= j < blocks * radix ==> t[j] == 0
    ensures forall b: nat, d: nat :: b < blocks && d < radix ==> Cell(t, radix, b, d) == 0
  {
    forall b: nat, d: nat | b < blocks && d < radix
      ensures Cell(t, radix, b, d) == 0
    {
      AddressBound(radix, blocks, b, d);
    }
  }

  // ---- phase 2: scan of the table in digit-major order

  /** Sum of the cells of one digit over the first b blocks. */
  function DigitSum(t: seq<nat>, radix: nat, b: nat, d: nat): nat {
    if b == 0 then 0 else DigitSum(t, radix, b - 1, d) + Cell(t, radix, b - 1, d)
  }

  /** Sum of all cells of the digits below d. */
  function LowerDigitsSum(t: seq<nat>, radix: nat, blocks: nat, d: nat): nat {
    if d == 0 then 0 else LowerDigitsSum(t, radix, blocks, d - 1) + DigitSum(t, radix, blocks, d - 1)
  }

  /** The value the scan gives to a cell. */
  function CellBefore(t: seq<nat>, radix: nat, blocks: nat, b: nat, d: nat): nat {
    LowerDigitsSum(t, radix, blocks, d) + DigitSum(t, radix, b, d)
  }

  /** The scan has replaced all cells before (digit d, block b) in digit-major order. */
  ghost predicate ScannedTo(was: seq<nat>, t: seq<nat>, radix: nat, blocks: nat, b: nat, d: nat) {
    forall c: nat, e: nat :: c < blocks && e < radix ==>
      Cell(t, radix, c, e) ==
      if e < d || (e == d && c < b) then CellBefore(was, radix, blocks, c, e) else Cell(was, radix, c, e)
  }

  lemma ScanNothing(t: seq<nat>, radix: nat, blocks: nat)
    ensures ScannedTo(t, t, radix, blocks, 0, 0)
  {
  }

  lemma ScanOne(was: seq<nat>, t: seq<nat>, radix: nat, blocks: nat, b: nat, d: nat)
    requires b < blocks && d < radix && Address(radix, b, d) < |t|
    requires ScannedTo(was, t, radix, blocks, b, d)
    ensures t[Address(radix, b, d)] == Cell(was, radix, b, d)
    ensures ScannedTo(was, t[Address(radix, b, d) := CellBefore(was, radix, blocks, b, d)], radix, blocks, b + 1, d)
  {
    var v := CellBefore(was, radix, blocks, b, d);
    var t' := t[Address(radix, b, d) := v];
    assert Cell(t, radix, b, d) == Cell(was, radix, b, d);
    forall c: nat, e: nat | c < blocks && e < radix
      ensures Cell(t', radix, c, e) ==
              if e < d || (e == d && c < b + 1) then CellBefore(was, radix, blocks, c, e) else Cell(was, radix, c, e)
    {
      CellUpdate(t, radix, b, d, v, c, e);
    }
  }

  /** At the end of a digit the scan continues with the first block of the next. */
  lemma ScanNextDigit(was: seq<nat>, t: seq<nat>, radix: nat, blocks: nat, d: nat)
    requires ScannedTo(was, t, radix, blocks, blocks, d)
    ensures ScannedTo(was, t, radix, blocks, 0, d + 1)
  {
  }

  method ScanKernel(table: array<nat>, radix: nat, blocks: nat)
    requires blocks * radix <= table.Length
    modifies table
    ensures ScannedTo(old(table[..]), table[..], radix, blocks, 0, radix)
  {
    hide ScannedTo;
    ghost var was := table[..];
    ScanNothing(was, radix, blocks);
    var sum := 0;
    for d := 0 to radix
      invariant sum == LowerDigitsSum(was, radix, blocks, d)
      invariant ScannedTo(was, table[..], radix, blocks, 0, d)
    {
      for b := 0 to blocks
        invariant sum == CellBefore(was, radix, blocks, b, d)
        invariant ScannedTo(was, table[..], radix, blocks, b, d)
      {
        AddressBound(radix, blocks, b, d);
        ScanOne(was, table[..], radix, blocks, b, d);
        var next := Exchange(table, b * radix + d, sum);
        sum := sum + next;
      }
      ScanNextDigit(was, table[..], radix, blocks, d);
    }
  }

  /** Stores a value and returns the one it replaces. */
  method Exchange(table: array<nat>, a: nat, v: nat) returns (next: nat)
    requires a < table.Length
    modifies table
    ensures next == old(table[a]) && table[..] == old(table[..])[a := v]
  {
    next := table[a];
    table[a] := v;
  }

  /** Scanning a histogram gives offsets, provided the blocks cover the input. */
  lemma ScannedHistogram(t: seq<nat>, t': seq<nat>, ds: seq<nat>, radix: nat, len: nat, blocks: nat)
    requires IsHistogram(t, ds, radix, len, blocks)
    requires |ds| <= blocks * len
    requires ScannedTo(t, t', radix, blocks, 0, radix)
    ensures IsOffsets(t', ds, radix, len, blocks)
  {
    forall b: nat, d: nat | b < blocks && d < radix
      ensures Cell(t', radix, b, d) == CountLess(ds, d) + CountEq(ds, 0, BlockStart(|ds|, len, b), d)
    {
      DigitSumCounts(t, ds, radix, len, blocks, b, d);
      LowerDigitsSumCounts(t, ds, radix, len, blocks, d);
    }
  }

  lemma {:induction false} DigitSumCounts(t: seq<nat>, ds: seq<nat>, radix: nat, len: nat, blocks: nat, b: nat, d: nat)
    requires IsHistogram(t, ds, radix, len, blocks)
    requires b <= blocks && d < radix
    ensures DigitSum(t, radix, b, d) == CountEq(ds, 0, BlockStart(|ds|, len, b), d)
  {
    if b > 0 {
      DigitSumCounts(t, ds, radix, len, blocks, b - 1, d);
      BlockStartMono(|ds|, len, b - 1, b);
      assert Cell(t, radix, b - 1, d) == BlockCount(ds, len, b - 1, d);
      CountEqSplit(ds, 0, BlockStart(|ds|, len, b - 1), BlockStart(|ds|, len, b), d);
    }
  }

  lemma {:induction false} LowerDigitsSumCounts(t: seq<nat>, ds: seq<nat>, radix: nat, len: nat, blocks: nat, d: nat)
    requires IsHistogram(t, ds, radix, len, blocks)
    requires |ds| <= blocks * len && d <= radix
    ensures LowerDigitsSum(t, radix, blocks, d) == CountLess(ds, d)
  {
    if d > 0 {
      LowerDigitsSumCounts(t, ds, radix, len, blocks, d - 1);
      DigitSumCounts(t, ds, radix, len, blocks, blocks, d - 1);
    }
  }

  /** No counter and no offset exceeds the number of elements, so none overflows a cl_uint. */
  lemma CountsFit(ds: seq<nat>, lo: nat, hi: nat, d: nat)
    requires lo <= hi <= |ds|
    ensures CountEq(ds, lo, hi, d) <= |ds|
    ensures CountLess(ds, d) + CountEq(ds, 0, hi, d) <= |ds|
  {
    CountEqSplit(ds, 0, lo, hi, d);
    CountEqSplit(ds, 0, hi, |ds|, d);
    CountLessBound(ds, d + 1);
  }

  // ---- phase 3: scatter

  /** How many pairs the scatter phase writes for the tile that begins at `start`: the distance to the end of
      the block, computed as a signed number, decides (kernels/radixsort.cl:859). */
  function TileCount(start: nat, end: nat, tile: nat): nat {
    var left := AsInt(end - start);
    if left <= 0 then 0 else Min(left, tile)
  }

  /** The pairs of the tile that lie before the end. */
  function TilePairs(start: nat, end: nat, tile: nat): nat {
    if start < end then Min(end - start, tile) else 0
  }

  /** These are the same exactly if the distance fits a signed number. */
  lemma TileCountExactly(start: nat, end: nat, tile: nat)
    requires start < UINT_RANGE && end < UINT_RANGE && tile > 0
    ensures TileCount(start, end, tile) == TilePairs(start, end, tile) <==> -INT_RANGE <= end - start < INT_RANGE
  {
  }

  /** What the 32-bit arithmetic of the kernels demands: the arguments survive their cast, no bound and no
      position in the last tile reaches 2^32, and no distance from a position to its block's end needs more
      than 31 bits and a sign. */
  predicate Fits32(elements: nat, len: nat, blocks: nat, tile: nat) {
    && elements < UINT_RANGE && len < UINT_RANGE && blocks < UINT_RANGE
    && blocks * len + tile <= UINT_RANGE
    && Min(len, elements) < INT_RANGE && blocks * len <= elements + INT_RANGE
  }

  /** Then in every tile of every block all addresses are those of unbounded integers, and exactly the pairs
      before the block's end are written. */
  lemma TilesExact(elements: nat, len: nat, blocks: nat, tile: nat, b: nat, start: nat)
    requires tile > 0 && Fits32(elements, len, blocks, tile) && b < blocks && b * len <= start < b * len + len
    ensures start + tile <= UINT_RANGE
    ensures TileCount(start, KernelEnd(elements, len, b), tile) == TilePairs(start, BlockEnd(elements, len, b), tile)
  {
    KernelBounds(elements, len, blocks, b);
    MultiplesApart(b + 1, blocks, len);
    assert (b + 1) * len == b * len + len;
    TileCountExactly(start, BlockEnd(elements, len, b), tile);
  }

  /** The first tile of a block of 2^31 elements or more is not written at all. */
  lemma LongBlockLost(elements: nat, len: nat, tile: nat)
    requires INT_RANGE <= Min(len, elements) < UINT_RANGE && elements < UINT_RANGE && len < UINT_RANGE
    ensures TileCount(0, KernelEnd(elements, len, 0), tile) == 0
  {
  }

  /** Each running offset is where the block's next element with that digit must go. */
  ghost predicate RunningOffsets(running: seq<nat>, ds: seq<nat>, radix: nat, cursor: seq<nat>) {
    forall b, d: nat :: 0 <= b < |cursor| && d < radix ==>
      cursor[b] <= |ds| && Cell(running, radix, b, d) == CountLess(ds, d) + CountEq(ds, 0, cursor[b], d)
  }

  /** Every element before its block's cursor is in its place. */
  ghost predicate Placed<T>(ds: seq<nat>, len: nat, cursor: seq<nat>, input: seq<T>, output: seq<T>) {
    && |input| == |output| == |ds|
    && forall b, i :: 0 <= b < |cursor| && BlockStart(|ds|, len, b) <= i < cursor[b] && i < |ds| ==>
         Rank(ds, i) < |output| && output[Rank(ds, i)] == input[i]
  }

  lemma AdvanceOffset(running: seq<nat>, ds: seq<nat>, radix: nat, cursor: seq<nat>, b: nat)
    requires RunningOffsets(running, ds, radix, cursor)
    requires b < |cursor| && cursor[b] < |ds| && ds[cursor[b]] < radix
    requires Address(radix, b, ds[cursor[b]]) < |running|
    ensures var i, a := cursor[b], Address(radix, b, ds[cursor[b]]);
            && running[a] == Rank(ds, i)
            && RunningOffsets(running[a := running[a] + 1], ds, radix, cursor[b := i + 1])
  {
    var i, a := cursor[b], Address(radix, b, ds[cursor[b]]);
    var running', cursor' := running[a := running[a] + 1], cursor[b := i + 1];
    assert running[a] == Cell(running, radix, b, ds[i]);
    forall c, d: nat | 0 <= c < |cursor| && d < radix
      ensures cursor'[c] <= |ds| && Cell(running', radix, c, d) == CountLess(ds, d) + CountEq(ds, 0, cursor'[c], d)
    {
      CellUpdate(running, radix, b, ds[i], running[a] + 1, c, d);
      assert Cell(running, radix, c, d) == CountLess(ds, d) + CountEq(ds, 0, cursor[c], d);
    }
  }

  lemma PlaceOne<T>(ds: seq<nat>, len: nat, cursor: seq<nat>, input: seq<T>, output: seq<T>, b: nat)
    requires Placed(ds, len, cursor, input, output)
    requires b < |cursor| && cursor[b] < |ds|
    ensures var i := cursor[b];
            && Rank(ds, i) < |ds|
            && Placed(ds, len, cursor[b := i + 1], input, output[Rank(ds, i) := input[i]])
  {
    var i := cursor[b];
    RankBound(ds, i);
    var cursor', output' := cursor[b := i + 1], output[Rank(ds, i) := input[i]];
    forall c, j | 0 <= c < |cursor'| && BlockStart(|ds|, len, c) <= j < cursor'[c] && j < |ds|
      ensures Rank(ds, j) < |output'| && output'[Rank(ds, j)] == input[j]
    {
      if j != i {
        assert j < cursor[c];
        if Rank(ds, j) == Rank(ds, i) {
          RankInjective(ds, i, j);
        }
      } else {
        assert Rank(ds, j) == Rank(ds, i);
      }
    }
  }

  /** When every block is finished and the blocks cover the input, everything has moved. */
  lemma AllPlaced<T>(ds: seq<nat>, len: nat, cursor: seq<nat>, input: seq<T>, output: seq<T>)
    requires Placed(ds, len, cursor, input, output)
    requires |ds| <= |cursor| * len
    requires forall b :: 0 <= b < |cursor| ==> cursor[b] >= BlockEnd(|ds|, len, b)
    ensures Moved(input, output, Order(ds))
  {
    forall i | 0 <= i < |ds|
      ensures Rank(ds, i) < |output| && output[Rank(ds, i)] == input[i]
    {
      var b := BlockOf(|ds|, len, |cursor|, i);
    }
  }

  /** The blocks are processed by work-groups that run in no particular order: each step picks any
      block that has elements left and moves its next element to the place its block's running
      offset for the digit names. */
  method ScatterKernel<V>(outKeys: array<nat>, outValues: array<V>, inKeys: array<nat>, inValues: array<V>,
                          table: array<nat>, len: nat, elements: nat, firstBit: nat, radix: nat, blocks: nat,
                          hasValues: bool)
    requires radix > 0
    requires elements <= inKeys.Length && elements <= outKeys.Length && blocks * radix <= table.Length
    requires hasValues ==> elements <= inValues.Length && elements <= outValues.Length
    requires outKeys != inKeys && outKeys != table && outValues != inValues
    requires {outKeys as object, inKeys as object, table as object} !! {outValues as object, inValues as object}
    requires elements <= blocks * len < UINT_RANGE
    requires IsOffsets(table[..], Digits(inKeys[..elements], firstBit, radix), radix, len, blocks)
    modifies outKeys, if hasValues then {outValues} else {}
    ensures var p := Order(Digits(inKeys[..elements], firstBit, radix));
            && Moved(inKeys[..elements], outKeys[..elements], p)
            && (hasValues ==> Moved(inValues[..elements], outValues[..elements], p))
    ensures outKeys[elements..] == old(outKeys[elements..])
    ensures hasValues ==> outValues[elements..] == old(outValues[elements..])
  {
    hide RunningOffsets, Placed, IsOffsets, Moved, Rank, Order, Digit, Digits, Address, Sum;
    hide BlockStart, BlockEnd, KernelStart, KernelEnd;
    ghost var ds := Digits(inKeys[..elements], firstBit, radix);
    var running := table[..];
    var cursor: seq<nat> := seq(blocks, b requires 0 <= b < blocks => KernelStart(elements, len, b));
    AllKernelBounds(elements, len, blocks);
    ghost var left: seq<nat> := seq(blocks, b requires 0 <= b < blocks =>
      BlockEnd(elements, len, b) - BlockStart(elements, len, b));
    StartScatter(running, ds, radix, len, cursor, inKeys[..elements], outKeys[..elements]);
    if hasValues {
      StartScatter(running, ds, radix, len, cursor, inValues[..elements], outValues[..elements]);
    }
    while exists b: nat :: b < blocks && cursor[b] < KernelEnd(elements, len, b)
      invariant |running| == table.Length && |cursor| == blocks && |left| == blocks
      invariant CursorsValid(elements, len, cursor)
      invariant forall b :: 0 <= b < blocks ==> left[b] == BlockEnd(elements, len, b) - cursor[b]
      invariant RunningOffsets(running, ds, radix, cursor)
      invariant Placed(ds, len, cursor, inKeys[..elements], outKeys[..elements])
      invariant hasValues ==> Placed(ds, len, cursor, inValues[..elements], outValues[..elements])
      invariant outKeys[elements..] == old(outKeys[elements..])
      invariant hasValues ==> outValues[elements..] == old(outValues[elements..])
      decreases Sum(left)
    {
      var b: nat :| b < blocks && cursor[b] < KernelEnd(elements, len, b);
      var i := cursor[b];
      var digit := Digit(inKeys[i], firstBit, radix);
      assert digit == ds[i];
      AddressBound(radix, blocks, b, digit);
      var place := running[b * radix + digit];
      AdvanceOffset(running, ds, radix, cursor, b);
      PlaceOne(ds, len, cursor, inKeys[..elements], outKeys[..elements], b);
      Store(outKeys, elements, place, inKeys[i]);
      if hasValues {
        PlaceOne(ds, len, cursor, inValues[..elements], outValues[..elements], b);
        Store(outValues, elements, place, inValues[i]);
      }
      running := running[b * radix + digit := place + 1];
      cursor := cursor[b := i + 1];
      SumUpdate(left, b, left[b] - 1);
      left := left[b := left[b] - 1];
    }
    AllPlaced(ds, len, cursor, inKeys[..elements], outKeys[..elements]);
    if hasValues {
      AllPlaced(ds, len, cursor, inValues[..elements], outValues[..elements]);
    }
  }

  lemma AllKernelBounds(elements: nat, len: nat, blocks: nat)
    requires blocks * len < UINT_RANGE
    ensures forall b: nat :: b < blocks ==> KernelStart(elements, len, b) == BlockStart(elements, len, b)
    ensures forall b: nat :: b < blocks ==> KernelEnd(elements, len, b) == BlockEnd(elements, len, b)
  {
    hide KernelStart, KernelEnd, BlockStart, BlockEnd;
    forall b: nat | b < blocks
      ensures KernelStart(elements, len, b) == BlockStart(elements, len, b)
      ensures KernelEnd(elements, len, b) == BlockEnd(elements, len, b)
    {
      KernelBounds(elements, len, blocks, b);
    }
  }

  /** Writes one of the first n elements. */
  method Store<T>(a: array<T>, n: nat, k: nat, v: T)
    requires k < n <= a.Length
    modifies a
    ensures a[..n] == old(a[..n])[k := v]
    ensures a[n..] == old(a[n..])
  {
    a[k] := v;
  }

  lemma StartScatter<T>(table: seq<nat>, ds: seq<nat>, radix: nat, len: nat, cursor: seq<nat>,
                        input: seq<T>, output: seq<T>)
    requires |input| == |output| == |ds|
    requires IsOffsets(table, ds, radix, len, |cursor|)
    requires forall b :: 0 <= b < |cursor| ==> cursor[b] == BlockStart(|ds|, len, b)
    ensures RunningOffsets(table, ds, radix, cursor)
    ensures Placed(ds, len, cursor, input, output)
  {
  }
}

/** How every primitive cuts its input: consecutive blocks of equal length, the last ones cut off at
    the end of the input or empty. */
module Partition {
  import opened Blocks
  import opened Sums

  /** First element of block b; a block past the end is empty and starts at the end. */
  function BlockStart(elements: nat, len: nat, b: nat): (s: nat)
    ensures s <= elements
  {
    Min(b * len, elements)
  }

  /** One past the last element of block b. */
  function BlockEnd(elements: nat, len: nat, b: nat): (s: nat)
    ensures BlockStart(elements, len, b) <= s <= elements
  {
    BlockStartMono(elements, len, b, b + 1);
    BlockStart(elements, len, b + 1)
  }

  lemma BlockStartMono(elements: nat, len: nat, b: nat, c: nat)
    requires b <= c
    ensures BlockStart(elements, len, b) <= BlockStart(elements, len, c)
  {
    MultiplesApart(b, c, len);
  }

  /** Some block holds the element. */
  lemma BlockOf(elements: nat, len: nat, blocks: nat, i: nat) returns (b: nat)
    requires i < elements <= blocks * len
    ensures b < blocks && BlockStart(elements, len, b) <= i < BlockEnd(elements, len, b)
  {
    b := 0;
    while i >= (b + 1) * len
      invariant b * len <= i
      invariant b < blocks
      decreases blocks - b
    {
      MultiplesApart(blocks, b + 1, len);
      b := b + 1;
    }
  }

  /** No element is in two blocks. */
  lemma BlockUnique(elements: nat, len: nat, b: nat, c: nat, i: nat)
    requires BlockStart(elements, len, b) <= i < BlockEnd(elements, len, b)
    requires BlockStart(elements, len, c) <= i < BlockEnd(elements, len, c)
    ensures b == c
  {
    MultiplesApart(b + 1, c, len);
    MultiplesApart(c + 1, b, len);
  }

  // ---- the bounds as the kernels compute them, in cl_uint (kernels/radixsort.cl:253-254 and 917-919,
  //      kernels/reduce.cl:128-129)

  /** A start past the end of the input, where nothing is left, is cut off. */
  function KernelStart(elements: nat, len: nat, b: nat): nat {
    Min(CastUint(b * len), elements)
  }

  function KernelEnd(elements: nat, len: nat, b: nat): nat {
    Min(CastUint(CastUint(b * len) + len), elements)
  }

  predicate SameBounds(elements: nat, len: nat, b: nat) {
    KernelStart(elements, len, b) == BlockStart(elements, len, b) && KernelEnd(elements, len, b) == BlockEnd(elements, len, b)
  }

  lemma KernelBounds(elements: nat, len: nat, blocks: nat, b: nat)
    requires blocks * len < UINT_RANGE && b < blocks
    ensures SameBounds(elements, len, b)
  {
    MultiplesApart(b, blocks, len);
    MultiplesApart(b + 1, blocks, len);
    assert (b + 1) * len == b * len + len;
  }

  /** The kernels cut the input as the blocks do if and only if the blocks together are shorter than 2^32. */
  lemma KernelBoundsExactly(elements: nat, len: nat, blocks: nat)
    requires 0 < len <= elements < UINT_RANGE
    ensures (forall b: nat :: b < blocks ==> SameBounds(elements, len, b)) <==> blocks * len < UINT_RANGE
  {
    hide SameBounds;
    if blocks * len < UINT_RANGE {
      forall b: nat | b < blocks ensures SameBounds(elements, len, b) {
        KernelBounds(elements, len, blocks, b);
      }
    } else {
      var b := FirstTooLong(elements, len, blocks);
    }
  }

  /** The first block whose end does not fit ends too early: its end wraps to less than one block length. */
  lemma FirstTooLong(elements: nat, len: nat, blocks: nat) returns (b: nat)
    requires 0 < len <= elements < UINT_RANGE <= blocks * len
    ensures b < blocks && KernelEnd(elements, len, b) < len && BlockEnd(elements, len, b) == elements
    ensures !SameBounds(elements, len, b)
  {
    var c := CeilDiv(UINT_RANGE, len);
    CeilDivLeast(UINT_RANGE, len, blocks);
    b := c - 1;
    assert c * len == b * len + len;
    assert CastUint(c * len) == c * len - UINT_RANGE;
  }

  /** cursor[b] is a position in block b, or its end. */
  ghost predicate CursorsValid(elements: nat, len: nat, cursor: seq<nat>) {
    forall b :: 0 <= b < |cursor| ==> BlockStart(elements, len, b) <= cursor[b] <= BlockEnd(elements, len, b)
  }

  // ---- sums of blocks, modulo the element width

  /** The sum of block b of the input; zero, the identity, for an empty block. */
  function BlockSum(input: seq<nat>, len: nat, modulus: nat, b: nat): nat
    requires modulus > 0
  {
    Sum(input[BlockStart(|input|, len, b)..BlockEnd(|input|, len, b)]) % modulus
  }

  method RangeSum(data: array<nat>, lo: nat, hi: nat, modulus: nat) returns (sum: nat)
    requires lo <= hi <= data.Length && modulus > 0
    ensures sum == Sum(data[lo..hi]) % modulus
  {
    sum := 0 % modulus;
    for i := lo to hi
      invariant sum == Sum(data[lo..i]) % modulus
    {
      assert data[lo..i + 1] == data[lo..i] + [data[i]];
      SumAppend(data[lo..i], [data[i]]);
      assert Sum([data[i]]) == data[i] by {
        assert [data[i]][..0] == [];
      }
      ModAdd(Sum(data[lo..i]), data[i], modulus);
      sum := (sum + data[i]) % modulus;
    }
  }

  // ---- adding the blocks up again

  /** Adding up the partial sums of the first b blocks gives the sum of everything in them. */
  lemma PartialsTotal(sums: seq<nat>, window: seq<nat>, len: nat, modulus: nat, b: nat)
    requires modulus > 0 && b <= |sums|
    requires forall g :: 0 <= g < b ==> sums[g] == BlockSum(window, len, modulus, g)
    ensures Sum(sums[..b]) % modulus == Sum(window[..BlockStart(|window|, len, b)]) % modulus
  {
    hide Sum, BlockStart, BlockSum;
    PartialsRemainder(sums, window, len, modulus, b);
  }

  /** The sum of everything before block b. */
  function SumBefore(window: seq<nat>, len: nat, b: nat): nat {
    Sum(window[..BlockStart(|window|, len, b)])
  }

  lemma {:induction false} PartialsRemainder(sums: seq<nat>, window: seq<nat>, len: nat, modulus: nat, b: nat)
    requires modulus > 0 && b <= |sums|
    requires forall g :: 0 <= g < b ==> sums[g] == BlockSum(window, len, modulus, g)
    ensures Rem(Sum(sums[..b]), modulus) == Rem(SumBefore(window, len, b), modulus)
  {
    hide Sum, SumBefore, BlockSum, BlockOfWindow, Rem;
    if b == 0 {
      NothingBefore(sums, window, len);
    } else {
      PartialsRemainder(sums, window, len, modulus, b - 1);
      SumStep(sums, b - 1);
      BlockAdds(window, len, modulus, b - 1);
      RemAddBoth(Sum(sums[..b - 1]), SumBefore(window, len, b - 1), Sum(BlockOfWindow(window, len, b - 1)), modulus);
    }
  }

  function BlockOfWindow(window: seq<nat>, len: nat, b: nat): seq<nat> {
    window[BlockStart(|window|, len, b)..BlockEnd(|window|, len, b)]
  }

  lemma NothingBefore(sums: seq<nat>, window: seq<nat>, len: nat)
    ensures Sum(sums[..0]) == SumBefore(window, len, 0) == 0
  {
  }

  lemma BlockAdds(window: seq<nat>, len: nat, modulus: nat, b: nat)
    requires modulus > 0
    ensures BlockSum(window, len, modulus, b) == Rem(Sum(BlockOfWindow(window, len, b)), modulus)
    ensures SumBefore(window, len, b + 1) == SumBefore(window, len, b) + Sum(BlockOfWindow(window, len, b))
  {
    hide Sum, BlockStart;
    SumSplit(window, BlockStart(|window|, len, b), BlockEnd(|window|, len, b));
  }
}

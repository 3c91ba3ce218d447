/** Integer rounding used by every block computation (src/utils.h), powers of two,
    and the few facts about division and remainder the other modules rely on. */
module Blocks {

  /** Bound of the OpenCL type cl_uint, to which kernel arguments are cast. */
  const UINT_RANGE: nat := 0x1_0000_0000

  /** Bound of size_t on a 64-bit host. */
  const SIZE_RANGE: nat := 0x1_0000_0000_0000_0000

  /** The cast of a kernel argument to cl_uint. */
  function CastUint(x: nat): (r: nat)
    ensures r < UINT_RANGE
    ensures x < UINT_RANGE ==> r == x
  {
    x % UINT_RANGE
  }

  /** Bound of the OpenCL type int, as which the scatter phase compares distances. */
  const INT_RANGE: int := 0x8000_0000

  /** A number as a signed 32-bit integer: the congruent one from -2^31 up to 2^31. */
  function AsInt(x: int): (r: int)
    ensures -INT_RANGE <= r < INT_RANGE
    ensures -INT_RANGE <= x < INT_RANGE ==> r == x
  {
    (x + INT_RANGE) % UINT_RANGE - INT_RANGE
  }

  function Min(x: nat, y: nat): nat {
    if x <= y then x else y
  }

  function Max(x: nat, y: nat): nat {
    if x <= y then y else x
  }

  /** The largest multiple of y that is at most x. */
  function RoundDown(x: nat, y: nat): (r: nat)
    requires y > 0
    ensures r <= x < r + y
    ensures r % y == 0
  {
    MultipleMod(x / y, y);
    x / y * y
  }

  /** The smallest multiple of y that is at least x. */
  function RoundUp(x: nat, y: nat): (r: nat)
    requires y > 0
    ensures x <= r < x + y
    ensures r % y == 0
  {
    MultipleMod((x + y - 1) / y, y);
    (x + y - 1) / y * y
  }

  /** Whole pieces of size y that fit into x. */
  function Quot(x: nat, y: nat): (q: nat)
    requires y > 0
    ensures q * y <= x < q * y + y
  {
    x / y
  }

  /** The number of pieces of size y that cover x. */
  function CeilDiv(x: nat, y: nat): (r: nat)
    requires y > 0
    ensures x <= r * y < x + y
  {
    (x + y - 1) / y
  }

  lemma MultipleMod(k: nat, y: nat)
    requires y > 0
    ensures (k * y) % y == 0
  {
    if k > 0 {
      MultipleMod(k - 1, y);
      assert k * y == (k - 1) * y + y;
      ModAddSelf((k - 1) * y, y);
    }
  }

  lemma ModAddSelf(x: nat, y: nat)
    requires y > 0
    ensures (x + y) % y == x % y
  {
    var q, r := x / y, x % y;
    assert x + y == (q + 1) * y + r;
    DivModUnique(x + y, y, q + 1, r);
  }

  lemma {:induction false} NextMultiple(p: nat, q: nat, y: nat)
    requires p < q
    ensures p * y + y <= q * y
  {
    assert q * y == (q - 1) * y + y;
    if p < q - 1 {
      NextMultiple(p, q - 1, y);
    }
  }

  /** Distinct multiples of y are at least y apart. */
  lemma MultiplesApart(p: nat, q: nat, y: nat)
    ensures p < q ==> p * y + y <= q * y
    ensures p * y < q * y ==> p * y + y <= q * y
    ensures p <= q ==> p * y <= q * y
  {
    if p < q {
      NextMultiple(p, q, y);
    } else if q < p {
      NextMultiple(q, p, y);
    }
  }

  /** Quotient and remainder are determined by their defining equation. */
  lemma DivModUnique(x: nat, y: nat, q: nat, r: nat)
    requires r < y
    requires x == q * y + r
    ensures x / y == q && x % y == r
  {
    var q', r' := x / y, x % y;
    assert x == y * q' + r';
    MultiplesApart(q, q', y);
    MultiplesApart(q', q, y);
  }

  /** Divisibility in terms of an explicit quotient. */
  lemma Quotient(x: nat, y: nat)
    requires y > 0
    requires x % y == 0
    ensures x == x / y * y
  {
  }

  lemma MultipleTrans(x: nat, y: nat, z: nat)
    requires y > 0 && z > 0
    requires x % y == 0 && y % z == 0
    ensures x % z == 0
  {
    var p, q := x / y, y / z;
    assert x == p * (q * z) == (p * q) * z;
    MultipleMod(p * q, z);
  }

  lemma Commute(x: nat, y: nat)
    ensures x * y == y * x
  {
  }

  lemma MulMono(a: nat, b: nat, c: nat)
    requires a <= b
    ensures a * c <= b * c && c * a <= c * b
  {
  }

  /** Rounding up stays below any multiple that is already large enough. */
  lemma RoundUpLeast(x: nat, y: nat, m: nat)
    requires y > 0
    requires x <= m && m % y == 0
    ensures RoundUp(x, y) <= m
  {
    var r := RoundUp(x, y);
    Quotient(m, y);
    Quotient(r, y);
    MultiplesApart(m / y, r / y, y);
  }

  /** Rounding down stays above any multiple that already fits. */
  lemma RoundDownGreatest(x: nat, y: nat, m: nat)
    requires y > 0
    requires m <= x && m % y == 0
    ensures m <= RoundDown(x, y)
  {
    var r := RoundDown(x, y);
    Quotient(m, y);
    Quotient(r, y);
    MultiplesApart(r / y, m / y, y);
  }

  /** If m pieces of size y cover x then CeilDiv needs no more than m. */
  lemma CeilDivLeast(x: nat, y: nat, m: nat)
    requires y > 0
    requires x <= m * y
    ensures CeilDiv(x, y) <= m
  {
    MultiplesApart(m, CeilDiv(x, y), y);
  }

  function Pow2(n: nat): (p: nat)
    ensures p >= 1
    ensures n >= 1 ==> p >= 2 && p % 2 == 0
  {
    if n == 0 then 1 else 2 * Pow2(n - 1)
  }

  predicate IsPow2(x: nat) {
    exists k: nat | k < x :: Pow2(k) == x
  }

  lemma Pow2Less(n: nat)
    ensures n < Pow2(n)
  {
  }

  lemma Pow2IsPow2(n: nat)
    ensures IsPow2(Pow2(n))
  {
    Pow2Less(n);
  }

  lemma MulAssoc(x: nat, y: nat, z: nat)
    ensures x * (y * z) == (x * y) * z
  {
  }

  lemma {:induction false} Pow2Add(a: nat, b: nat)
    ensures Pow2(a + b) == Pow2(a) * Pow2(b)
  {
    if a > 0 {
      Pow2Add(a - 1, b);
      MulAssoc(2, Pow2(a - 1), Pow2(b));
    }
  }

  lemma Pow2Mono(a: nat, b: nat)
    requires a <= b
    ensures Pow2(a) <= Pow2(b)
  {
    Pow2Add(a, b - a);
    MulMono(1, Pow2(b - a), Pow2(a));
  }

  lemma Pow2Quotient(a: nat, b: nat)
    requires a <= b
    ensures Pow2(b) % Pow2(a) == 0
    ensures Pow2(b) / Pow2(a) == Pow2(b - a)
  {
    Pow2Add(b - a, a);
    DivModUnique(Pow2(b), Pow2(a), Pow2(b - a), 0);
  }

  lemma Pow2Reflects(a: nat, b: nat)
    requires Pow2(a) <= Pow2(b)
    ensures a <= b
  {
    if b < a {
      Pow2Mono(b + 1, a);
    }
  }

  /** Of two powers of two, the larger is a multiple of the smaller. */
  lemma Pow2Divides(x: nat, y: nat)
    requires IsPow2(x) && IsPow2(y) && x <= y
    ensures x > 0 && y % x == 0 && IsPow2(y / x)
  {
    var a: nat :| a < x && Pow2(a) == x;
    var b: nat :| b < y && Pow2(b) == y;
    Pow2Reflects(a, b);
    Pow2Quotient(a, b);
    Pow2IsPow2(b - a);
  }

  lemma Pow2Product(x: nat, y: nat)
    requires IsPow2(x) && IsPow2(y)
    ensures IsPow2(x * y)
  {
    var a: nat :| a < x && Pow2(a) == x;
    var b: nat :| b < y && Pow2(b) == y;
    Pow2Add(a, b);
    Pow2IsPow2(a + b);
  }

  /** A grid of `blocks` blocks, each a multiple of `tile` long, that covers `elements`:
      the shape of roundUp(elements, tile * blocks) / blocks in the scan and the
      reduction (src/scan.cpp:468, src/reduce.cpp:293). */
  function GridBlock(elements: nat, tile: nat, blocks: nat): (len: nat)
    requires tile > 0 && blocks > 0
    ensures len % tile == 0
    ensures len * blocks >= elements
    ensures len * blocks < elements + tile * blocks
    ensures elements > 0 ==> len > 0
  {
    ProductPositive(tile, blocks);
    GridBlockExact(elements, tile, blocks);
    RoundUp(elements, tile * blocks) / blocks
  }

  lemma ProductPositive(x: nat, y: nat)
    requires x > 0 && y > 0
    ensures x * y > 0
  {
    MultiplesApart(0, x, y);
  }

  lemma GridBlockExact(elements: nat, tile: nat, blocks: nat)
    requires tile > 0 && blocks > 0 && tile * blocks > 0
    ensures var len := RoundUp(elements, tile * blocks) / blocks;
            len * blocks == RoundUp(elements, tile * blocks) && len % tile == 0
  {
    var total := RoundUp(elements, tile * blocks);
    var k := total / (tile * blocks);
    Quotient(total, tile * blocks);
    MulAssoc(k, tile, blocks);
    DivModUnique(total, blocks, k * tile, 0);
    MultipleMod(k, tile);
  }

  lemma {:induction false} ModAddMultiple(x: nat, q: nat, m: nat)
    requires m > 0
    ensures (q * m + x) % m == x % m
  {
    if q > 0 {
      ModAddMultiple(x, q - 1, m);
      assert q * m + x == ((q - 1) * m + x) + m;
      ModAddSelf((q - 1) * m + x, m);
    }
  }

  lemma ModAdd(x: nat, y: nat, m: nat)
    requires m > 0
    ensures (x % m + y) % m == (x + y) % m
  {
    var q := x / m;
    assert x + y == q * m + (x % m + y);
    ModAddMultiple(x % m + y, q, m);
  }

  function Rem(x: nat, m: nat): nat
    requires m > 0
  {
    x % m
  }

  lemma RemAdd(x: nat, y: nat, m: nat)
    requires m > 0
    ensures Rem(Rem(x, m) + y, m) == Rem(x + y, m)
  {
    ModAdd(x, y, m);
  }

  /** If s and x leave the same remainder, adding the remainder of y to s is as good as adding y to x. */
  lemma RemAddBoth(s: nat, x: nat, y: nat, m: nat)
    requires m > 0 && Rem(s, m) == Rem(x, m)
    ensures Rem(s + Rem(y, m), m) == Rem(x + y, m)
  {
    hide Rem;
    RemAdd(s, Rem(y, m), m);
    RemAdd(x, Rem(y, m), m);
    RemAdd(y, x, m);
  }

  // ---- doubling loops

  /** start, twice start, and so on, up to the limit. */
  function Doubling(start: nat, limit: nat): (r: seq<nat>)
    requires start > 0
    ensures forall i | 0 <= i < |r| :: r[i] > 0
    decreases if start <= limit then limit - start + 1 else 0
  {
    if start > limit then [] else [start] + Doubling(start * 2, limit)
  }

  /** start, doubled k times. */
  function Doubled(start: nat, k: nat): nat
    decreases k
  {
    if k == 0 then start else Doubled(start * 2, k - 1)
  }

  lemma {:induction false} DoubledIs(start: nat, k: nat)
    ensures Doubled(start, k) == start * Pow2(k)
    decreases k
  {
    if k > 0 {
      DoubledIs(start * 2, k - 1);
      MulAssoc(start, 2, Pow2(k - 1));
    }
  }

  lemma {:induction false} DoublingVisits(start: nat, limit: nat)
    requires start > 0
    ensures forall i | 0 <= i < |Doubling(start, limit)| :: Doubling(start, limit)[i] == Doubled(start, i) <= limit
    ensures Doubled(start, |Doubling(start, limit)|) > limit
    decreases if start <= limit then limit - start + 1 else 0
  {
    if start <= limit {
      var rest := Doubling(start * 2, limit);
      DoublingVisits(start * 2, limit);
      forall i | 0 <= i < |Doubling(start, limit)|
        ensures Doubling(start, limit)[i] == Doubled(start, i) <= limit
      {
        if i > 0 {
          assert Doubling(start, limit)[i] == rest[i - 1];
        }
      }
    }
  }

  /** Exactly the multiples of start by a power of two that do not exceed the limit. */
  lemma DoublingMeaning(start: nat, limit: nat)
    requires start > 0
    ensures forall i | 0 <= i < |Doubling(start, limit)| ::
              Doubling(start, limit)[i] == start * Pow2(i) <= limit
    ensures start * Pow2(|Doubling(start, limit)|) > limit
  {
    hide Doubling, Doubled, Pow2;
    DoublingVisits(start, limit);
    forall i | 0 <= i < |Doubling(start, limit)| ensures Doubling(start, limit)[i] == start * Pow2(i) <= limit {
      DoubledIs(start, i);
    }
    DoubledIs(start, |Doubling(start, limit)|);
  }

  /** start times a power of two. */
  ghost predicate IsDoubled(start: nat, x: nat) {
    exists k: nat :: x == start * Pow2(k)
  }

  /** Exactly the multiples of start by a power of two that do not exceed the limit, as a set. */
  lemma DoublingExactly(start: nat, limit: nat, x: nat)
    requires start > 0
    ensures x in Doubling(start, limit) <==> x <= limit && IsDoubled(start, x)
  {
    hide Doubling, Pow2;
    DoublingMeaning(start, limit);
    var visited := Doubling(start, limit);
    if x in visited {
      var i: nat :| i < |visited| && visited[i] == x;
      assert x == start * Pow2(i);
    }
    if x <= limit && IsDoubled(start, x) {
      var k: nat :| x == start * Pow2(k);
      if k >= |visited| {
        Pow2Mono(|visited|, k);
        MulMono(Pow2(|visited|), Pow2(k), start);
      } else {
        assert visited[k] == x;
      }
    }
  }

  lemma {:induction false} DoublingAtLeast(start: nat, limit: nat, x: nat)
    requires start > 0 && x in Doubling(start, limit)
    ensures start <= x <= limit
    decreases if start <= limit then limit - start + 1 else 0
  {
    if x != start {
      DoublingAtLeast(start * 2, limit, x);
    }
  }

  lemma {:induction false} DoublingAscends(start: nat, limit: nat, i: nat, j: nat)
    requires start > 0 && i < j < |Doubling(start, limit)|
    ensures Doubling(start, limit)[i] < Doubling(start, limit)[j]
    decreases if start <= limit then limit - start + 1 else 0
  {
    if i == 0 {
      assert Doubling(start, limit)[j] in Doubling(start * 2, limit);
      DoublingAtLeast(start * 2, limit, Doubling(start, limit)[j]);
    } else {
      DoublingAscends(start * 2, limit, i - 1, j - 1);
    }
  }

  /** The powers of two are determined by these two facts. */
  lemma Pow2Meaning(n: nat)
    ensures Pow2(0) == 1 && Pow2(n + 1) == Pow2(n) + Pow2(n)
  {
  }

  lemma Pow2Double(x: nat)
    requires IsPow2(x)
    ensures IsPow2(x * 2) && x > 0
  {
    var k: nat :| k < x && Pow2(k) == x;
    Pow2IsPow2(k + 1);
  }

  lemma OneIsPow2()
    ensures IsPow2(1)
  {
    assert Pow2(0) == 1;
  }

  lemma {:induction false} DoublingPow2(start: nat, limit: nat)
    requires IsPow2(start) && start > 0
    ensures forall i | 0 <= i < |Doubling(start, limit)| :: IsPow2(Doubling(start, limit)[i])
    decreases if start <= limit then limit - start + 1 else 0
  {
    if start <= limit {
      Pow2Double(start);
      DoublingPow2(start * 2, limit);
    }
  }

  /** Doubling a multiple gives multiples. */
  lemma {:induction false} DoublingMultiples(start: nat, limit: nat, m: nat)
    requires start > 0 && m > 0 && start % m == 0
    ensures forall i | 0 <= i < |Doubling(start, limit)| :: Doubling(start, limit)[i] % m == 0
    decreases if start <= limit then limit - start + 1 else 0
  {
    if start <= limit {
      Quotient(start, m);
      assert start * 2 == (start / m * 2) * m;
      MultipleMod(start / m * 2, m);
      DoublingMultiples(start * 2, limit, m);
    }
  }

  /** The last size a doubling loop visits. */
  function LargestDoubling(start: nat, limit: nat): (r: nat)
    requires 0 < start <= limit
    ensures start <= r <= limit
    ensures r in Doubling(start, limit)
    decreases limit - start
  {
    if start * 2 > limit then start else LargestDoubling(start * 2, limit)
  }

  /** No visited size is larger. */
  lemma {:induction false} LargestDoublingIsLargest(start: nat, limit: nat, x: nat)
    requires 0 < start <= limit && x in Doubling(start, limit)
    ensures x <= LargestDoubling(start, limit)
    decreases limit - start
  {
    if x == start {
    } else if start * 2 <= limit {
      LargestDoublingIsLargest(start * 2, limit, x);
    }
  }
}

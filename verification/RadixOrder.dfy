/** The least-significant-digit argument: one stable pass per digit, from the lowest bits up, is a
    stable sort by all the bits seen so far. */
module RadixOrder {
  import opened Blocks
  import opened StableSort
  import opened RadixKernels

  /** The lowest `bits` bits of a key. */
  function LowBits(key: nat, bits: nat): nat {
    key % Pow2(bits)
  }

  function Low(keys: seq<nat>, bits: nat): (low: seq<nat>)
    ensures |low| == |keys|
    ensures forall i :: 0 <= i < |keys| ==> low[i] == LowBits(keys[i], bits)
  {
    seq(|keys|, i requires 0 <= i < |keys| => LowBits(keys[i], bits))
  }

  lemma MixedRadix(k: nat, f: nat, r: nat, q: nat, l: nat, q': nat, d: nat)
    requires l < f && d < r
    requires k == q * f + l && q == q' * r + d
    ensures r * f > 0 && k % (r * f) == d * f + l
  {
    assert (q' * r + d) * f == q' * (r * f) + d * f;
    NextMultiple(d, r, f);
    DivModUnique(k, r * f, q', d * f + l);
  }

  lemma DivMod(x: nat, y: nat)
    requires y > 0
    ensures x == x / y * y + x % y
  {
  }

  lemma SplitAt(k: nat, f: nat, r: nat)
    requires f > 0 && r > 0
    ensures r * f > 0 && k % (r * f) == (k / f % r) * f + k % f
  {
    DivMod(k, f);
    DivMod(k / f, r);
    MixedRadix(k, f, r, k / f, k % f, k / f / r, k / f % r);
  }

  /** The bits below firstBit and the digit above them make up the bits below firstBit + radixBits. */
  lemma LowSplit(key: nat, firstBit: nat, radixBits: nat)
    ensures LowBits(key, firstBit + radixBits) ==
            Digit(key, firstBit, Pow2(radixBits)) * Pow2(firstBit) + LowBits(key, firstBit)
    ensures LowBits(key, firstBit) < Pow2(firstBit)
  {
    SplitAt(key, Pow2(firstBit), Pow2(radixBits));
    Pow2Add(radixBits, firstBit);
  }

  /** Comparing the combined bits compares the digit first and the lower bits second. */
  lemma LowCompare(a: nat, b: nat, firstBit: nat, radixBits: nat)
    ensures var da, db := Digit(a, firstBit, Pow2(radixBits)), Digit(b, firstBit, Pow2(radixBits));
            LowBits(a, firstBit + radixBits) < LowBits(b, firstBit + radixBits) <==>
            da < db || (da == db && LowBits(a, firstBit) < LowBits(b, firstBit))
  {
    LowSplit(a, firstBit, radixBits);
    LowSplit(b, firstBit, radixBits);
    var da, db := Digit(a, firstBit, Pow2(radixBits)), Digit(b, firstBit, Pow2(radixBits));
    MultiplesApart(da, db, Pow2(firstBit));
    MultiplesApart(db, da, Pow2(firstBit));
  }

  /** One pass extends a stable sort by the bits below firstBit to the bits below
      firstBit + radixBits, for whatever order p the keys were left in. */
  lemma PassExtends(keys: seq<nat>, cur: seq<nat>, p: seq<nat>, firstBit: nat, radixBits: nat)
    requires IsStableOrder(Low(keys, firstBit), p) && Moved(keys, cur, p)
    ensures var q := Order(Digits(cur, firstBit, Pow2(radixBits)));
            IsStableOrder(Low(keys, firstBit + radixBits), Then(p, q))
  {
    var radix := Pow2(radixBits);
    var low, both := Low(keys, firstBit), Low(keys, firstBit + radixBits);
    var digit, moved := Digits(keys, firstBit, radix), Digits(cur, firstBit, radix);
    var q := Order(moved);
    OrderIsStable(moved);
    assert Moved(digit, moved, p);
    forall i, j | 0 <= i < |low| && 0 <= j < |low|
      ensures both[i] < both[j] <==> digit[i] < digit[j] || (digit[i] == digit[j] && low[i] < low[j])
    {
      LowCompare(keys[i], keys[j], firstBit, radixBits);
    }
    ComposeOrders(low, digit, both, p, moved, q);
  }

  function Identity(n: nat): (p: seq<nat>)
    ensures |p| == n
    ensures forall i :: 0 <= i < n ==> p[i] == i
  {
    seq(n, i => i)
  }

  /** With no bits looked at, leaving everything in place is the stable sort. */
  lemma NoBitsSorted(keys: seq<nat>)
    ensures IsStableOrder(Low(keys, 0), Identity(|keys|))
  {
  }

  // ---- what the whole sort means

  /** If no key has more than `bits` bits, sorting by the low bits is sorting by the key. */
  lemma LowIsWhole(keys: seq<nat>, bits: nat)
    requires forall i :: 0 <= i < |keys| ==> keys[i] < Pow2(bits)
    ensures Low(keys, bits) == keys
  {
    forall i | 0 <= i < |keys|
      ensures LowBits(keys[i], bits) == keys[i]
    {
      DivModUnique(keys[i], Pow2(bits), 0, keys[i]);
    }
  }

  /** The sort's postcondition, spelled out: the output keys ascend in their low bits, no pair of key
      and value is lost, duplicated or torn apart, and pairs with equal low bits keep their order. */
  lemma SortedMeaning<V(!new)>(keys: seq<nat>, values: seq<V>, outKeys: seq<nat>, outValues: seq<V>, bits: nat)
    requires |keys| == |values|
    requires Moved(keys, outKeys, Order(Low(keys, bits))) && Moved(values, outValues, Order(Low(keys, bits)))
    ensures forall x, y :: 0 <= x < y < |outKeys| ==> LowBits(outKeys[x], bits) <= LowBits(outKeys[y], bits)
    ensures multiset(Pairs(keys, values)) == multiset(Pairs(outKeys, outValues))
    ensures var p := Order(Low(keys, bits));
            forall i, j :: 0 <= i < j < |keys| && LowBits(keys[i], bits) == LowBits(keys[j], bits) ==> p[i] < p[j]
  {
    var low := Low(keys, bits);
    var p := Order(low);
    OrderIsStable(low);
    StableOrderInjective(low, p);
    assert Moved(low, Low(outKeys, bits), p);
    OutputSorted(low, Low(outKeys, bits));
    forall x, y | 0 <= x < y < |outKeys|
      ensures LowBits(outKeys[x], bits) <= LowBits(outKeys[y], bits)
    {
      assert Low(outKeys, bits)[x] <= Low(outKeys, bits)[y];
    }
    MovedIsPermutation(Pairs(keys, values), Pairs(outKeys, outValues), p);
    forall i, j | 0 <= i < j < |keys| && LowBits(keys[i], bits) == LowBits(keys[j], bits)
      ensures p[i] < p[j]
    {
      assert Precedes(low, i, j);
    }
  }

  /** p takes every pair to its place, those with smaller low bits first and the others in their old order. */
  ghost predicate StableBy<V>(keys0: seq<nat>, values0: seq<V>, keys: seq<nat>, values: seq<V>, bits: nat,
                              hasValues: bool, p: seq<nat>)
  {
    && Moved(keys0, keys, p) && (hasValues ==> Moved(values0, values, p))
    && forall i, j | 0 <= i < |p| && 0 <= j < |p| ::
         keys0[i] % Pow2(bits) < keys0[j] % Pow2(bits) || (keys0[i] % Pow2(bits) == keys0[j] % Pow2(bits) && i < j)
         ==> p[i] < p[j]
  }

  /** The pairs have been sorted stably by their low bits. */
  ghost predicate StablySorted<V>(keys0: seq<nat>, values0: seq<V>, keys: seq<nat>, values: seq<V>, bits: nat,
                                  hasValues: bool)
  {
    exists p: seq<nat> :: StableBy(keys0, values0, keys, values, bits, hasValues, p)
  }

  lemma OrderSortsStably<V>(keys0: seq<nat>, values0: seq<V>, keys: seq<nat>, values: seq<V>, bits: nat, hasValues: bool)
    requires Moved(keys0, keys, Order(Low(keys0, bits)))
    requires hasValues ==> Moved(values0, values, Order(Low(keys0, bits)))
    ensures StablySorted(keys0, values0, keys, values, bits, hasValues)
  {
    var low := Low(keys0, bits);
    var p := Order(low);
    OrderIsStable(low);
    hide Order, Rank;
    forall i, j | 0 <= i < |p| && 0 <= j < |p|
      ensures keys0[i] % Pow2(bits) < keys0[j] % Pow2(bits) || (keys0[i] % Pow2(bits) == keys0[j] % Pow2(bits) && i < j)
              ==> p[i] < p[j]
    {
      assert Precedes(low, i, j) <==> low[i] < low[j] || (low[i] == low[j] && i < j);
    }
    assert StableBy(keys0, values0, keys, values, bits, hasValues, p);
  }

  /** The keys ascend, no key or pair is lost, duplicated or torn apart, and equal keys have kept their order. */
  ghost predicate Sorted<V>(keys0: seq<nat>, values0: seq<V>, keys: seq<nat>, values: seq<V>, hasValues: bool) {
    && |keys| == |keys0|
    && (forall x, y | 0 <= x < y < |keys| :: keys[x] <= keys[y])
    && multiset(keys) == multiset(keys0)
    && (hasValues ==> |values| == |values0| == |keys| && multiset(Pairs(keys, values)) == multiset(Pairs(keys0, values0)))
    && exists p: seq<nat> :: KeepsTies(keys0, values0, keys, values, hasValues, p)
  }

  ghost predicate KeepsTies<V>(keys0: seq<nat>, values0: seq<V>, keys: seq<nat>, values: seq<V>, hasValues: bool,
                               p: seq<nat>)
  {
    && Moved(keys0, keys, p) && (hasValues ==> Moved(values0, values, p))
    && forall i, j | 0 <= i < j < |p| && keys0[i] == keys0[j] :: p[i] < p[j]
  }

  /** If no key has more bits than were sorted by, the keys are sorted outright. */
  lemma SortedOutright<V(!new)>(keys0: seq<nat>, values0: seq<V>, keys: seq<nat>, values: seq<V>, bits: nat, hasValues: bool)
    requires StablySorted(keys0, values0, keys, values, bits, hasValues)
    requires forall i | 0 <= i < |keys0| :: keys0[i] < Pow2(bits)
    ensures Sorted(keys0, values0, keys, values, hasValues)
  {
    hide Pow2;
    var p :| StableBy(keys0, values0, keys, values, bits, hasValues, p);
    forall i | 0 <= i < |keys0| ensures keys0[i] % Pow2(bits) == keys0[i] {
      DivModUnique(keys0[i], Pow2(bits), 0, keys0[i]);
    }
    StableOutright(keys0, keys, p);
    if hasValues {
      MovedIsPermutation(Pairs(keys0, values0), Pairs(keys, values), p);
    }
    assert KeepsTies(keys0, values0, keys, values, hasValues, p);
  }

  lemma StableOutright(keys0: seq<nat>, keys: seq<nat>, p: seq<nat>)
    requires Moved(keys0, keys, p)
    requires forall i, j | 0 <= i < |p| && 0 <= j < |p| :: keys0[i] < keys0[j] || (keys0[i] == keys0[j] && i < j) ==> p[i] < p[j]
    ensures IsStableOrder(keys0, p) && Injective(p)
    ensures forall x, y | 0 <= x < y < |keys| :: keys[x] <= keys[y]
    ensures multiset(keys) == multiset(keys0)
  {
    assert IsStableOrder(keys0, p);
    StableOrderInjective(keys0, p);
    MovedIsPermutation(keys0, keys, p);
    StableOrderUnique(keys0, p);
    OutputSorted(keys0, keys);
  }

  function Pairs<V>(keys: seq<nat>, values: seq<V>): (s: seq<(nat, V)>)
    requires |keys| == |values|
    ensures |s| == |keys|
    ensures forall i :: 0 <= i < |s| ==> s[i] == (keys[i], values[i])
  {
    seq(|keys|, i requires 0 <= i < |keys| => (keys[i], values[i]))
  }
}

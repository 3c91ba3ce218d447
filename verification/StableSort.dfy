/** What a stable sort is, independently of how it is computed.

    Elements are compared by a sequence of keys; ties are broken by position. The place of
    element i is its rank: how many keys are smaller, plus how many equal keys come earlier. */
module StableSort {

  /** How many of keys[lo..hi] equal d. */
  function CountEq(keys: seq<nat>, lo: nat, hi: nat, d: nat): nat
    requires hi <= |keys|
  {
    if hi <= lo then 0
    else CountEq(keys, lo, hi - 1, d) + if keys[hi - 1] == d then 1 else 0
  }

  /** How many keys are below d. */
  function CountLess(keys: seq<nat>, d: nat): nat {
    if d == 0 then 0 else CountLess(keys, d - 1) + CountEq(keys, 0, |keys|, d - 1)
  }

  function Rank(keys: seq<nat>, i: nat): nat
    requires i < |keys|
  {
    CountLess(keys, keys[i]) + CountEq(keys, 0, i, keys[i])
  }

  /** The rank of every position. */
  function Order(keys: seq<nat>): (p: seq<nat>)
    ensures |p| == |keys|
    ensures forall i :: 0 <= i < |keys| ==> p[i] == Rank(keys, i)
  {
    seq(|keys|, i requires 0 <= i < |keys| => Rank(keys, i))
  }

  /** Element i must come before element j. */
  predicate Precedes(keys: seq<nat>, i: nat, j: nat)
    requires i < |keys| && j < |keys|
  {
    keys[i] < keys[j] || (keys[i] == keys[j] && i < j)
  }

  /** p sends every position to a place in such a way that all pairs keep the required order. */
  ghost predicate IsStableOrder(keys: seq<nat>, p: seq<nat>) {
    && |p| == |keys|
    && (forall i :: 0 <= i < |p| ==> p[i] < |keys|)
    && (forall i, j :: 0 <= i < |keys| && 0 <= j < |keys| && Precedes(keys, i, j) ==> p[i] < p[j])
  }

  /** Element i of the input is found at place p[i] of the output. */
  ghost predicate Moved<T>(input: seq<T>, output: seq<T>, p: seq<nat>) {
    && |input| == |output| == |p|
    && forall i :: 0 <= i < |p| ==> p[i] < |output| && output[p[i]] == input[i]
  }

  // ---- counting

  lemma {:induction false} CountEqSplit(keys: seq<nat>, lo: nat, mid: nat, hi: nat, d: nat)
    requires lo <= mid <= hi <= |keys|
    ensures CountEq(keys, lo, hi, d) == CountEq(keys, lo, mid, d) + CountEq(keys, mid, hi, d)
  {
    if mid < hi {
      CountEqSplit(keys, lo, mid, hi - 1, d);
    }
  }

  lemma {:induction false} CountLessMono(keys: seq<nat>, d: nat, e: nat)
    requires d <= e
    ensures CountLess(keys, d) <= CountLess(keys, e)
  {
    if d < e {
      CountLessMono(keys, d, e - 1);
    }
  }

  /** The keys below d are those of the prefix below d, plus the last one if it is. */
  lemma {:induction false} CountLessPeel(keys: seq<nat>, d: nat)
    requires keys != []
    ensures var n := |keys| - 1;
            CountLess(keys, d) == CountLess(keys[..n], d) + if keys[n] < d then 1 else 0
  {
    var n := |keys| - 1;
    if d > 0 {
      CountLessPeel(keys, d - 1);
      CountEqPrefix(keys, n, n, d - 1);
    }
  }

  lemma {:induction false} CountEqPrefix(keys: seq<nat>, n: nat, hi: nat, d: nat)
    requires hi <= n <= |keys|
    ensures CountEq(keys[..n], 0, hi, d) == CountEq(keys, 0, hi, d)
  {
    if hi > 0 {
      CountEqPrefix(keys, n, hi - 1, d);
    }
  }

  lemma {:induction false} CountLessBound(keys: seq<nat>, d: nat)
    ensures CountLess(keys, d) <= |keys|
  {
    if keys == [] {
      CountLessEmpty(keys, d);
    } else {
      CountLessPeel(keys, d);
      CountLessBound(keys[..|keys| - 1], d);
    }
  }

  lemma {:induction false} CountLessEmpty(keys: seq<nat>, d: nat)
    requires keys == []
    ensures CountLess(keys, d) == 0
  {
    if d > 0 {
      CountLessEmpty(keys, d - 1);
    }
  }

  /** Once d exceeds every key, all keys are below it. */
  lemma {:induction false} CountLessAll(keys: seq<nat>, d: nat)
    requires forall i :: 0 <= i < |keys| ==> keys[i] < d
    ensures CountLess(keys, d) == |keys|
  {
    if keys == [] {
      CountLessEmpty(keys, d);
    } else {
      CountLessPeel(keys, d);
      CountLessAll(keys[..|keys| - 1], d);
    }
  }

  // ---- the rank is the only stable order

  lemma RankStrict(keys: seq<nat>, i: nat, j: nat)
    requires i < |keys| && j < |keys| && Precedes(keys, i, j)
    ensures Rank(keys, i) < Rank(keys, j)
  {
    var d := keys[i];
    if d == keys[j] {
      CountEqSplit(keys, 0, i + 1, j, d);
    } else {
      CountEqSplit(keys, 0, i + 1, |keys|, d);
      CountLessMono(keys, d + 1, keys[j]);
    }
  }

  lemma RankBound(keys: seq<nat>, i: nat)
    requires i < |keys|
    ensures Rank(keys, i) < |keys|
  {
    var d := keys[i];
    CountEqSplit(keys, 0, i + 1, |keys|, d);
    CountLessBound(keys, d + 1);
  }

  lemma RankInjective(keys: seq<nat>, i: nat, j: nat)
    requires i < |keys| && j < |keys| && Rank(keys, i) == Rank(keys, j)
    ensures i == j
  {
    if i != j {
      if Precedes(keys, i, j) {
        RankStrict(keys, i, j);
      } else {
        RankStrict(keys, j, i);
      }
    }
  }

  /** The ranks form a stable order. */
  lemma OrderIsStable(keys: seq<nat>)
    ensures IsStableOrder(keys, Order(keys))
  {
    var p := Order(keys);
    forall i | 0 <= i < |p|
      ensures p[i] < |keys|
    {
      RankBound(keys, i);
    }
    forall i, j | 0 <= i < |keys| && 0 <= j < |keys| && Precedes(keys, i, j)
      ensures p[i] < p[j]
    {
      RankStrict(keys, i, j);
    }
  }

  ghost predicate Injective(p: seq<nat>) {
    forall i, j :: 0 <= i < |p| && 0 <= j < |p| && p[i] == p[j] ==> i == j
  }

  lemma StableOrderInjective(keys: seq<nat>, p: seq<nat>)
    requires IsStableOrder(keys, p)
    ensures Injective(p)
  {
    forall i, j | 0 <= i < |p| && 0 <= j < |p| && p[i] == p[j]
      ensures i == j
    {
      assert i == j || Precedes(keys, i, j) || Precedes(keys, j, i);
    }
  }

  function Range(n: nat): (s: set<nat>)
    ensures forall x :: x in s <==> 0 <= x < n
    ensures |s| == n
  {
    if n == 0 then {} else Range(n - 1) + {n - 1}
  }

  function Image(p: seq<nat>): (s: set<nat>)
    ensures forall x :: x in s <==> x in p
  {
    set x | x in p
  }

  lemma {:induction false} ImageSize(p: seq<nat>)
    requires Injective(p)
    ensures |Image(p)| == |p|
  {
    if p != [] {
      var n := |p| - 1;
      ImageSize(p[..n]);
      assert Image(p) == Image(p[..n]) + {p[n]};
      assert p[n] !in Image(p[..n]);
    }
  }

  lemma SubsetFull(a: set<nat>, b: set<nat>)
    requires a <= b && |a| == |b|
    ensures a == b
  {
    var rest := b - a;
    assert b == a + rest;
    assert |b| == |a| + |rest|;
  }

  /** An injection of [0, n) into itself hits every place. */
  lemma Surjective(p: seq<nat>, x: nat)
    requires Injective(p)
    requires forall i :: 0 <= i < |p| ==> p[i] < |p|
    requires x < |p|
    ensures exists i :: 0 <= i < |p| && p[i] == x
  {
    ImageSize(p);
    SubsetFull(Image(p), Range(|p|));
    assert x in Image(p);
  }

  /** Two stable orders agree: the place of an element is the number of elements that
      precede it, whatever the order was computed by. */
  lemma StableOrderUnique(keys: seq<nat>, p: seq<nat>)
    requires IsStableOrder(keys, p)
    ensures p == Order(keys)
  {
    OrderIsStable(keys);
    var q := Order(keys);
    StableOrderInjective(keys, q);
    forall i | 0 <= i < |keys|
      ensures p[i] == q[i]
    {
      PlaceAtLeast(keys, p, q, i);
      PlaceAtMost(keys, p, q, i);
    }
  }

  lemma {:induction false} PlaceAtLeast(keys: seq<nat>, p: seq<nat>, q: seq<nat>, i: nat)
    requires IsStableOrder(keys, p) && IsStableOrder(keys, q) && i < |keys|
    ensures q[i] <= p[i]
    decreases q[i]
  {
    if q[i] > 0 {
      StableOrderInjective(keys, q);
      Surjective(q, q[i] - 1);
      var j :| 0 <= j < |q| && q[j] == q[i] - 1;
      assert Precedes(keys, j, i) || Precedes(keys, i, j);
      PlaceAtLeast(keys, p, q, j);
    }
  }

  lemma {:induction false} PlaceAtMost(keys: seq<nat>, p: seq<nat>, q: seq<nat>, i: nat)
    requires IsStableOrder(keys, p) && IsStableOrder(keys, q) && i < |keys|
    ensures p[i] <= q[i]
    decreases |keys| - q[i]
  {
    if q[i] + 1 < |keys| {
      StableOrderInjective(keys, q);
      Surjective(q, q[i] + 1);
      var j :| 0 <= j < |q| && q[j] == q[i] + 1;
      assert Precedes(keys, j, i) || Precedes(keys, i, j);
      PlaceAtMost(keys, p, q, j);
    }
  }

  // ---- what a stable order means for the moved elements

  /** Moving elements to their ranks is a permutation: nothing is lost or duplicated. */
  lemma {:induction false} MovedIsPermutation<T(!new)>(input: seq<T>, output: seq<T>, p: seq<nat>)
    requires Injective(p) && Moved(input, output, p)
    ensures multiset(input) == multiset(output)
    decreases |p|
  {
    if p == [] {
      assert input == [] && output == [];
    } else {
      var n := |p| - 1;
      var x := p[n];
      var input', output' := input[..n], output[..x] + output[x + 1..];
      var p' := seq(n, i requires 0 <= i < n => if p[i] < x then p[i] else p[i] - 1);
      forall i | 0 <= i < n
        ensures p[i] != x && p'[i] < |output'| && output'[p'[i]] == input'[i]
      {
      }
      forall i, j | 0 <= i < n && 0 <= j < n && p'[i] == p'[j]
        ensures i == j
      {
        assert p[i] == p[j];
      }
      MovedIsPermutation(input', output', p');
      assert input == input' + [input[n]];
      assert output == output[..x] + [output[x]] + output[x + 1..];
    }
  }

  /** The keys of the output, in output order, never decrease. */
  lemma OutputSorted(keys: seq<nat>, outKeys: seq<nat>)
    requires Moved(keys, outKeys, Order(keys))
    ensures forall x, y :: 0 <= x < y < |outKeys| ==> outKeys[x] <= outKeys[y]
  {
    OrderIsStable(keys);
    var p := Order(keys);
    StableOrderInjective(keys, p);
    forall x, y | 0 <= x < y < |outKeys|
      ensures outKeys[x] <= outKeys[y]
    {
      Surjective(p, x);
      Surjective(p, y);
      var i :| 0 <= i < |p| && p[i] == x;
      var j :| 0 <= j < |p| && p[j] == y;
      assert !Precedes(keys, j, i);
    }
  }

  // ---- least-significant-digit composition

  /** Sorting stably by a low key and then by a high digit sorts stably by the combined key.
      low and digit are indexed by the original position; moved holds the digits in the order
      the first sort left them in. */
  lemma ComposeOrders(low: seq<nat>, digit: seq<nat>, both: seq<nat>, p: seq<nat>, moved: seq<nat>, q: seq<nat>)
    requires |low| == |digit| == |both|
    requires IsStableOrder(low, p) && Moved(digit, moved, p) && IsStableOrder(moved, q)
    requires forall i, j :: 0 <= i < |low| && 0 <= j < |low| ==>
               (both[i] < both[j] <==> digit[i] < digit[j] || (digit[i] == digit[j] && low[i] < low[j]))
    ensures IsStableOrder(both, Then(p, q))
  {
    var r := Then(p, q);
    forall i, j | 0 <= i < |both| && 0 <= j < |both| && Precedes(both, i, j)
      ensures r[i] < r[j]
    {
      if digit[i] < digit[j] {
        assert Precedes(moved, p[i], p[j]);
      } else {
        assert !(both[j] < both[i]);
        assert digit[i] == digit[j];
        assert Precedes(low, i, j);
        assert Precedes(moved, p[i], p[j]);
      }
    }
  }

  /** First p, then q. */
  function Then(p: seq<nat>, q: seq<nat>): (r: seq<nat>)
    requires |p| == |q|
    requires forall i :: 0 <= i < |p| ==> p[i] < |q|
    ensures |r| == |p|
    ensures forall i :: 0 <= i < |p| ==> r[i] == q[p[i]]
  {
    seq(|p|, i requires 0 <= i < |p| => q[p[i]])
  }

  lemma MovedTwice<T>(a: seq<T>, b: seq<T>, c: seq<T>, p: seq<nat>, q: seq<nat>)
    requires Moved(a, b, p) && Moved(b, c, q)
    ensures Moved(a, c, Then(p, q))
  {
  }
}

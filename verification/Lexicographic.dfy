/** Lexicographic comparison of sequences, as std::lexicographical_compare and the comparison operators
    of std::string and std::vector define it. */
module Lexicographic {

  /** Position k decides: everything before is equal, and the first sequence ends there or is less. */
  ghost predicate DecidedAt<T(!new)>(less: (T, T) -> bool, a: seq<T>, b: seq<T>, k: nat) {
    && k <= |a| && k < |b| && a[..k] == b[..k]
    && (k == |a| || less(a[k], b[k]))
  }

  ghost predicate LexLess<T(!new)>(less: (T, T) -> bool, a: seq<T>, b: seq<T>) {
    exists k: nat :: DecidedAt(less, a, b, k)
  }

  lemma LexIrreflexive<T(!new)>(less: (T, T) -> bool, a: seq<T>)
    requires forall i | 0 <= i < |a| :: !less(a[i], a[i])
    ensures !LexLess(less, a, a)
  {
  }

  lemma LexTransitive<T(!new)>(less: (T, T) -> bool, a: seq<T>, b: seq<T>, c: seq<T>)
    requires forall i | 0 <= i < |a| && i < |b| && i < |c| ::
               less(a[i], b[i]) && less(b[i], c[i]) ==> less(a[i], c[i])
    requires LexLess(less, a, b) && LexLess(less, b, c)
    ensures LexLess(less, a, c)
  {
    var j: nat :| DecidedAt(less, a, b, j);
    var k: nat :| DecidedAt(less, b, c, k);
    var m := if j <= k then j else k;
    assert a[..m] == a[..j][..m] == b[..m] == b[..k][..m] == c[..m];
    if j < k {
      assert b[j] == b[..k][j] == c[..k][j] == c[j];
    } else if k < j {
      assert a[k] == a[..j][k] == b[..j][k] == b[k];
    }
    assert DecidedAt(less, a, c, m);
  }

  lemma {:induction false} LexTotal<T(!new)>(less: (T, T) -> bool, a: seq<T>, b: seq<T>)
    requires forall i | 0 <= i < |a| && i < |b| :: a[i] == b[i] || less(a[i], b[i]) || less(b[i], a[i])
    ensures a == b || LexLess(less, a, b) || LexLess(less, b, a)
    decreases |a|
  {
    if a == [] && b != [] {
      assert DecidedAt(less, a, b, 0);
    } else if b == [] && a != [] {
      assert DecidedAt(less, b, a, 0);
    } else if a != [] {
      if a[0] != b[0] {
        assert DecidedAt(less, a, b, 0) || DecidedAt(less, b, a, 0);
      } else {
        LexTotal(less, a[1..], b[1..]);
        LexConcat(less, a[..1], a[1..], b[..1], b[1..]);
        LexConcat(less, b[..1], b[1..], a[..1], a[1..]);
        assert a == a[..1] + a[1..] && b == b[..1] + b[1..];
        assert a[..1] == b[..1];
      }
    }
  }

  /** Comparison of concatenations whose first parts have the same length. */
  lemma LexConcat<T(!new)>(less: (T, T) -> bool, a: seq<T>, a': seq<T>, b: seq<T>, b': seq<T>)
    requires |a| == |b|
    ensures LexLess(less, a + a', b + b') <==> LexLess(less, a, b) || (a == b && LexLess(less, a', b'))
  {
    if LexLess(less, a + a', b + b') {
      var k: nat :| DecidedAt(less, a + a', b + b', k);
      LexSplit(less, a, a', b, b', k);
    }
    if LexLess(less, a, b) {
      var k: nat :| DecidedAt(less, a, b, k);
      LexInFirst(less, a, a', b, b', k);
    }
    if a == b && LexLess(less, a', b') {
      var k: nat :| DecidedAt(less, a', b', k);
      LexInSecond(less, a, a', b', k);
    }
  }

  lemma LexSplit<T(!new)>(less: (T, T) -> bool, a: seq<T>, a': seq<T>, b: seq<T>, b': seq<T>, k: nat)
    requires |a| == |b| && DecidedAt(less, a + a', b + b', k)
    ensures LexLess(less, a, b) || (a == b && LexLess(less, a', b'))
  {
    var n := |a|;
    if k < n {
      assert a[..k] == (a + a')[..k] == (b + b')[..k] == b[..k];
      assert DecidedAt(less, a, b, k);
    } else {
      assert a == (a + a')[..k][..n] == (b + b')[..k][..n] == b;
      assert a'[..k - n] == (a + a')[..k][n..] == (b + b')[..k][n..] == b'[..k - n];
      assert DecidedAt(less, a', b', k - n);
    }
  }

  lemma LexInFirst<T(!new)>(less: (T, T) -> bool, a: seq<T>, a': seq<T>, b: seq<T>, b': seq<T>, k: nat)
    requires |a| == |b| && DecidedAt(less, a, b, k)
    ensures LexLess(less, a + a', b + b')
  {
    assert (a + a')[..k] == a[..k] && (b + b')[..k] == b[..k];
    assert DecidedAt(less, a + a', b + b', k);
  }

  lemma LexInSecond<T(!new)>(less: (T, T) -> bool, a: seq<T>, a': seq<T>, b': seq<T>, k: nat)
    requires DecidedAt(less, a', b', k)
    ensures LexLess(less, a + a', a + b')
  {
    assert (a + a')[..|a| + k] == a + a'[..k] && (a + b')[..|a| + k] == a + b'[..k];
    assert DecidedAt(less, a + a', a + b', |a| + k);
  }
}

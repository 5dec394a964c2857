/** Sums over the values of a finite map, the exact-arithmetic meaning of
    Python's `sum(d.values())`. A Python dict is summed in its iteration
    order; over exact reals the order does not matter, which is what
    `SumOverRemove` establishes. */
module Sums {

  /** The sum of `m[k]` over the keys `k` in `ks`, taken one key at a time in
      an unspecified order. */
  ghost function SumOver<K>(m: map<K, real>, ks: set<K>): real
    requires ks <= m.Keys
    decreases ks
  {
    if ks == {} then 0.0
    else
      var k :| k in ks;
      m[k] + SumOver(m, ks - {k})
  }

  /** The sum of all values of `m` (app.py:40 sums `tfidf.values()`); a map
      whose values are all zero, the empty map among them, sums to zero. */
  ghost function SumValues<K>(m: map<K, real>): (r: real)
    ensures (forall k :: k in m ==> m[k] == 0.0) ==> r == 0.0
  {
    if forall k :: k in m ==> m[k] == 0.0 then
      SumOverZero(m, m.Keys);
      SumOver(m, m.Keys)
    else SumOver(m, m.Keys)
  }

  /** Any key may be taken out first: the sum does not depend on the order
      in which keys are visited. */
  lemma {:induction false} SumOverRemove<K>(m: map<K, real>, ks: set<K>, k: K)
    requires ks <= m.Keys && k in ks
    ensures SumOver(m, ks) == m[k] + SumOver(m, ks - {k})
    decreases ks
  {
    var j :| j in ks && SumOver(m, ks) == m[j] + SumOver(m, ks - {j});
    if j != k {
      SumOverRemove(m, ks - {j}, k);
      SumOverRemove(m, ks - {k}, j);
      assert ks - {j} - {k} == ks - {k} - {j};
    }
  }

  /** Two maps that agree on `ks` have the same sum over `ks`. */
  lemma {:induction false} SumOverAgree<K>(m1: map<K, real>, m2: map<K, real>, ks: set<K>)
    requires ks <= m1.Keys && ks <= m2.Keys
    requires forall k :: k in ks ==> m1[k] == m2[k]
    ensures SumOver(m1, ks) == SumOver(m2, ks)
    decreases ks
  {
    if ks != {} {
      var k :| k in ks;
      SumOverRemove(m1, ks, k);
      SumOverRemove(m2, ks, k);
      SumOverAgree(m1, m2, ks - {k});
    }
  }

  /** Adding `d` to the value at one key adds `d` to the sum. */
  lemma SumValuesBump<K>(m: map<K, real>, k: K, d: real)
    requires k in m
    ensures SumValues(m[k := m[k] + d]) == SumValues(m) + d
  {
    var m' := m[k := m[k] + d];
    assert m'.Keys == m.Keys;
    SumOverRemove(m, m.Keys, k);
    SumOverRemove(m', m.Keys, k);
    SumOverAgree(m, m', m.Keys - {k});
  }

  /** A map whose values are all zero sums to zero. */
  lemma {:induction false} SumOverZero<K>(m: map<K, real>, ks: set<K>)
    requires ks <= m.Keys
    requires forall k :: k in ks ==> m[k] == 0.0
    ensures SumOver(m, ks) == 0.0
    decreases ks
  {
    if ks != {} {
      var k :| k in ks;
      SumOverRemove(m, ks, k);
      SumOverZero(m, ks - {k});
    }
  }

  /** Values no smaller than `lo` give a sum no smaller than `|ks| * lo`. */
  lemma {:induction false} SumOverLowerBound<K>(m: map<K, real>, ks: set<K>, lo: real)
    requires ks <= m.Keys
    requires forall k :: k in ks ==> lo <= m[k]
    ensures (|ks| as real) * lo <= SumOver(m, ks)
    decreases ks
  {
    if ks == {} {
      ZeroTimes(|ks| as real, lo);
    } else {
      var k :| k in ks;
      var rest := ks - {k};
      SumOverRemove(m, ks, k);
      SumOverLowerBound(m, rest, lo);
      assert |ks| == |rest| + 1;
      StepLower(SumOver(m, ks), m[k], SumOver(m, rest), |rest| as real, |ks| as real, lo);
    }
  }

  /** Values no larger than `hi` give a sum no larger than `|ks| * hi`. */
  lemma {:induction false} SumOverUpperBound<K>(m: map<K, real>, ks: set<K>, hi: real)
    requires ks <= m.Keys
    requires forall k :: k in ks ==> m[k] <= hi
    ensures SumOver(m, ks) <= (|ks| as real) * hi
    decreases ks
  {
    if ks == {} {
      ZeroTimes(|ks| as real, hi);
    } else {
      var k :| k in ks;
      var rest := ks - {k};
      SumOverRemove(m, ks, k);
      SumOverUpperBound(m, rest, hi);
      assert |ks| == |rest| + 1;
      StepUpper(SumOver(m, ks), m[k], SumOver(m, rest), |rest| as real, |ks| as real, hi);
    }
  }

  /** Facts about exact division used by the TF and IDF proofs. */
  lemma DivAdd(a: real, b: real, d: real)
    requires d > 0.0
    ensures (a + b) / d == a / d + b / d
  {
  }

  lemma DivInUnit(a: real, d: real)
    requires 0.0 < a <= d
    ensures 0.0 < a / d <= 1.0
  {
  }

  lemma DivSelf(d: real)
    requires d > 0.0
    ensures d / d == 1.0
  {
  }

  lemma DivBelowOne(n: real, q: real)
    requires n >= 0.0 && q > 0.0
    ensures n / q < 1.0 <==> n < q
  {
    var r := n / q;
    assert r * q == n;
    assert q - n == (1.0 - r) * q;
    MulPositive(1.0 - r, q);
    MulPositive(r - 1.0, q);
    assert n - q == (r - 1.0) * q;
  }

  lemma DivIsOne(n: real, q: real)
    requires q > 0.0
    ensures n / q == 1.0 <==> n == q
  {
  }

  lemma DivPositive(n: real, q: real)
    requires q > 0.0
    ensures n > 0.0 ==> n / q > 0.0
  {
  }

  lemma MulPositive(a: real, b: real)
    ensures a > 0.0 && b > 0.0 ==> a * b > 0.0
  {
  }

  lemma StepLower(total: real, x: real, rest: real, n: real, c: real, lo: real)
    requires total == x + rest && lo <= x && n * lo <= rest && c == n + 1.0
    ensures c * lo <= total
  {
    assert c * lo == n * lo + lo;
  }

  lemma StepUpper(total: real, x: real, rest: real, n: real, c: real, hi: real)
    requires total == x + rest && x <= hi && rest <= n * hi && c == n + 1.0
    ensures total <= c * hi
  {
    assert c * hi == n * hi + hi;
  }

  lemma ZeroTimes(c: real, x: real)
    requires c == 0.0
    ensures c * x == 0.0
  {
  }

  lemma DivTimes(a: real, d: real)
    requires d > 0.0
    ensures (a / d) * d == a
  {
  }

  /** A sum between `n * lo` and `n * hi` has its mean between `lo` and `hi`. */
  lemma MeanBetween(total: real, n: real, lo: real, hi: real)
    requires n > 0.0
    requires n * lo <= total <= n * hi
    ensures lo <= total / n <= hi
  {
    var mean := total / n;
    assert mean * n == total;
    MulPositive(lo - mean, n);
    assert n * lo - total == (lo - mean) * n;
    MulPositive(mean - hi, n);
    assert total - n * hi == (mean - hi) * n;
  }
}

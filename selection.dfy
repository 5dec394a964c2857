/** Choosing the sentences of the summary (app.py:41-42): rank the sentence
    indices by descending score, keep the first `N` of the ranking, then put
    the kept indices back in ascending order, which is document order.

    Python's sort is stable, and stays stable with `reverse=True`: indices
    with equal scores keep their ascending order. The ranking is therefore
    the unique permutation of the indices that orders them by descending
    score and, on equal scores, by ascending index (`RankingIsUnique`). It is
    computed here by insertion. */
module Selection {

  /** Index `i` comes before index `j` in the ranking. */
  predicate RanksBefore(scores: seq<real>, i: nat, j: nat)
    requires i < |scores| && j < |scores|
  {
    scores[i] > scores[j] || (scores[i] == scores[j] && i < j)
  }

  predicate InRange(scores: seq<real>, r: seq<nat>) {
    forall p :: 0 <= p < |r| ==> r[p] < |scores|
  }

  /** `r` lists indices of `scores` in ranking order, none twice. */
  predicate Ranked(scores: seq<real>, r: seq<nat>) {
    && InRange(scores, r)
    && forall p, q :: 0 <= p < q < |r| ==> RanksBefore(scores, r[p], r[q])
  }

  /** Index `a` ranks before every index of `r`. */
  predicate Leads(scores: seq<real>, a: nat, r: seq<nat>)
    requires a < |scores| && InRange(scores, r)
  {
    forall q :: 0 <= q < |r| ==> RanksBefore(scores, a, r[q])
  }

  lemma RankedCons(scores: seq<real>, a: nat, r: seq<nat>)
    requires a < |scores| && Ranked(scores, r) && Leads(scores, a, r)
    ensures Ranked(scores, [a] + r)
  {
    var r' := [a] + r;
    forall p, q | 0 <= p < q < |r'| ensures RanksBefore(scores, r'[p], r'[q]) {
      assert r'[q] == r[q - 1];
      if p > 0 {
        assert r'[p] == r[p - 1];
      }
    }
  }

  /** Places index `i`, larger than every index already ranked, behind all
      indices whose score is at least its own. */
  function Insert(scores: seq<real>, r: seq<nat>, i: nat): (res: seq<nat>)
    requires Ranked(scores, r) && i < |scores|
    requires forall p :: 0 <= p < |r| ==> r[p] < i
    ensures Ranked(scores, res)
    ensures |res| == |r| + 1
    ensures forall x :: x in res <==> x in r || x == i
    ensures forall a: nat :: a < |scores| && Leads(scores, a, r) && RanksBefore(scores, a, i) ==>
      Leads(scores, a, res)
  {
    if |r| == 0 then [i]
    else if RanksBefore(scores, r[0], i) then
      var tail := Insert(scores, r[1..], i);
      assert forall x :: x in r <==> x == r[0] || x in r[1..] by {
        assert r == [r[0]] + r[1..];
      }
      RankedCons(scores, r[0], tail);
      [r[0]] + tail
    else
      RankedCons(scores, i, r);
      [i] + r
  }

  /** The ranking of the indices `0 .. k - 1`. */
  function RankPrefix(scores: seq<real>, k: nat): (r: seq<nat>)
    requires k <= |scores|
    ensures Ranked(scores, r)
    ensures |r| == k
    ensures forall x: nat :: x in r <==> x < k
  {
    if k == 0 then []
    else
      var prev := RankPrefix(scores, k - 1);
      assert forall p :: 0 <= p < |prev| ==> prev[p] in prev;
      Insert(scores, prev, k - 1)
  }

  /** The stable descending ranking of all indices by score (app.py:41),
      before it is cut to its first `n` entries. */
  function Ranking(scores: seq<real>): (r: seq<nat>)
    ensures Ranked(scores, r)
    ensures |r| == |scores|
    ensures forall x: nat :: x in r <==> x < |scores|
  {
    RankPrefix(scores, |scores|)
  }

  /** The first element of a ranked sequence ranks before every other. */
  lemma RankedHead(scores: seq<real>, r: seq<nat>, x: nat)
    requires Ranked(scores, r) && |r| > 0 && x in r && x != r[0]
    ensures x < |scores| && RanksBefore(scores, r[0], x)
  {
    var q :| 0 <= q < |r| && r[q] == x;
  }

  /** Two ranked sequences with the same elements are equal: the ranking
      order leaves no freedom, so any stable descending sort of the indices
      gives `Ranking(scores)`. */
  lemma {:induction false} RankedUnique(scores: seq<real>, a: seq<nat>, b: seq<nat>)
    requires Ranked(scores, a) && Ranked(scores, b)
    requires |a| == |b|
    requires forall x :: x in a <==> x in b
    ensures a == b
  {
    if |a| > 0 {
      assert a[0] in b;
      if a[0] != b[0] {
        RankedHead(scores, a, b[0]);
        RankedHead(scores, b, a[0]);
        assert false;
      }
      var a', b' := a[1..], b[1..];
      assert a == [a[0]] + a' && b == [b[0]] + b';
      forall x ensures x in a' <==> x in b' {
        if x in a' {
          var p :| 0 <= p < |a'| && a'[p] == x;
          assert RanksBefore(scores, a[0], a[p + 1]);
          assert x in b;
        }
        if x in b' {
          var p :| 0 <= p < |b'| && b'[p] == x;
          assert RanksBefore(scores, b[0], b[p + 1]);
          assert x in a;
        }
      }
      assert Ranked(scores, a') by {
        forall p, q | 0 <= p < q < |a'| ensures RanksBefore(scores, a'[p], a'[q]) {
          assert a'[p] == a[p + 1] && a'[q] == a[q + 1];
        }
      }
      assert Ranked(scores, b') by {
        forall p, q | 0 <= p < q < |b'| ensures RanksBefore(scores, b'[p], b'[q]) {
          assert b'[p] == b[p + 1] && b'[q] == b[q + 1];
        }
      }
      RankedUnique(scores, a', b');
      assert a == [a[0]] + a' && b == [b[0]] + b';
    }
  }

  /** Any ordering of all the indices by descending score that keeps equal
      scores in ascending index order is the ranking. */
  lemma RankingIsUnique(scores: seq<real>, r: seq<nat>)
    requires Ranked(scores, r) && |r| == |scores|
    requires forall x :: 0 <= x < |scores| ==> x in r
    ensures r == Ranking(scores)
  {
    RankedUnique(scores, r, Ranking(scores));
  }

  /** Index `i` of a list of length `len` lies before the stop position `n`
      of the slice `a[:n]`, a negative `n` standing for `len + n`. */
  predicate BeforeStop(n: int, len: nat, i: nat) {
    if n >= 0 then i < n else i < len + n
  }

  /** The length of the slice `a[:n]` of a list of length `len` in Python:
      a negative `n` counts from the end. */
  function SliceLength(n: int, len: nat): (k: nat)
    ensures k <= len
    ensures forall i: nat :: i < len ==> (i < k <==> BeforeStop(n, len, i))
  {
    if n >= 0 then (if n < len then n else len)
    else if len + n > 0 then len + n else 0
  }

  /** `top_indices`: the first `n` entries of the ranking. */
  function TopIndices(scores: seq<real>, n: int): (top: seq<nat>)
    ensures Ranked(scores, top)
    ensures |top| == SliceLength(n, |scores|)
  {
    Ranking(scores)[..SliceLength(n, |scores|)]
  }

  /** Every chosen index ranks before every index left out: its score is
      at least as high, and on equal scores the lower index is chosen. */
  lemma TopIndicesDominate(scores: seq<real>, n: int, i: nat, j: nat)
    requires i in TopIndices(scores, n)
    requires j < |scores| && j !in TopIndices(scores, n)
    ensures i < |scores|
    ensures scores[i] >= scores[j]
    ensures scores[i] == scores[j] ==> i < j
  {
    var r, k := Ranking(scores), SliceLength(n, |scores|);
    var p :| 0 <= p < k && r[p] == i;
    assert j in r;
    var q :| 0 <= q < |r| && r[q] == j;
    assert q >= k;
    assert RanksBefore(scores, r[p], r[q]);
  }

  /** When `n` covers every sentence, every index is chosen. */
  lemma TopIndicesAll(scores: seq<real>, n: int)
    requires n >= |scores|
    ensures forall x: nat :: x in TopIndices(scores, n) <==> x < |scores|
  {
    assert TopIndices(scores, n) == Ranking(scores);
  }

  predicate Increasing(s: seq<nat>) {
    forall p, q :: 0 <= p < q < |s| ==> s[p] <= s[q]
  }

  predicate StrictlyIncreasing(s: seq<nat>) {
    forall p, q :: 0 <= p < q < |s| ==> s[p] < s[q]
  }

  predicate Distinct(s: seq<nat>) {
    forall p, q :: 0 <= p < q < |s| ==> s[p] != s[q]
  }

  lemma IncreasingCons(v: nat, s: seq<nat>)
    ensures Increasing(s) && (|s| > 0 ==> v <= s[0]) ==> Increasing([v] + s)
    ensures StrictlyIncreasing(s) && (|s| > 0 ==> v < s[0]) ==> StrictlyIncreasing([v] + s)
  {
    var s' := [v] + s;
    assert forall q :: 0 < q < |s'| ==> s'[q] == s[q - 1];
  }

  lemma IncreasingTail(s: seq<nat>)
    requires |s| > 0
    ensures Increasing(s) ==> Increasing(s[1..])
    ensures StrictlyIncreasing(s) ==> StrictlyIncreasing(s[1..])
  {
    assert forall q :: 0 <= q < |s| - 1 ==> s[1..][q] == s[q + 1];
  }

  lemma InsertBehindCount(s: seq<nat>, x: nat, tail: seq<nat>)
    requires |s| > 0
    requires multiset(tail) == multiset(s[1..]) + multiset{x}
    ensures multiset([s[0]] + tail) == multiset(s) + multiset{x}
  {
    assert s == [s[0]] + s[1..];
  }

  /** Inserts `x` into an increasing sequence, keeping it increasing. */
  function InsertAscending(s: seq<nat>, x: nat): (r: seq<nat>)
    requires Increasing(s)
    ensures Increasing(r)
    ensures multiset(r) == multiset(s) + multiset{x}
    ensures StrictlyIncreasing(s) && x !in s ==> StrictlyIncreasing(r)
    ensures |r| > 0 && (r[0] == x || (|s| > 0 && r[0] == s[0]))
  {
    if |s| == 0 then [x]
    else if s[0] < x then
      IncreasingTail(s);
      var tail := InsertAscending(s[1..], x);
      InsertBehind(s, x, tail);
      InsertBehindCount(s, x, tail);
      [s[0]] + tail
    else
      IncreasingCons(x, s);
      [x] + s
  }

  /** The step of `InsertAscending` that keeps the head of `s` in front of
      `tail`, the insertion of `x` into the rest of `s`. */
  lemma InsertBehind(s: seq<nat>, x: nat, tail: seq<nat>)
    requires |s| > 0 && Increasing(s) && s[0] < x
    requires Increasing(tail)
    requires StrictlyIncreasing(s[1..]) && x !in s[1..] ==> StrictlyIncreasing(tail)
    requires |tail| > 0 && (tail[0] == x || (|s[1..]| > 0 && tail[0] == s[1..][0]))
    ensures Increasing([s[0]] + tail)
    ensures StrictlyIncreasing(s) && x !in s ==> StrictlyIncreasing([s[0]] + tail)
  {
    var rest := s[1..];
    assert |tail| > 0 ==> s[0] <= tail[0] && (StrictlyIncreasing(s) ==> s[0] < tail[0]) by {
      if |rest| > 0 {
        assert rest[0] == s[1];
      }
    }
    IncreasingTail(s);
    IncreasingCons(s[0], tail);
  }

  /** `sorted(xs)` on a list of indices. */
  function SortAscending(xs: seq<nat>): (r: seq<nat>)
    ensures Increasing(r)
    ensures multiset(r) == multiset(xs)
    ensures Distinct(xs) ==> StrictlyIncreasing(r)
  {
    if |xs| == 0 then []
    else
      var rest := SortAscending(xs[1..]);
      var r := InsertAscending(rest, xs[0]);
      assert multiset(r) == multiset(xs) by {
        assert xs == [xs[0]] + xs[1..];
      }
      assert Distinct(xs) ==> StrictlyIncreasing(r) by {
        DistinctTail(xs);
        assert xs[0] in rest <==> xs[0] in multiset(rest);
      }
      r
  }

  lemma DistinctTail(xs: seq<nat>)
    requires |xs| > 0
    ensures Distinct(xs) ==> Distinct(xs[1..]) && xs[0] !in xs[1..]
  {
    var tail := xs[1..];
    assert forall q :: 0 <= q < |tail| ==> tail[q] == xs[q + 1];
  }

  /** Sequences with the same multiset have the same length and members. */
  lemma SameMembers(a: seq<nat>, b: seq<nat>)
    requires multiset(a) == multiset(b)
    ensures |a| == |b|
    ensures forall x :: x in a <==> x in b
  {
    assert |a| == |multiset(a)| && |b| == |multiset(b)|;
    forall x ensures x in a <==> x in b {
      assert x in a <==> x in multiset(a);
      assert x in b <==> x in multiset(b);
    }
  }

  /** A ranked sequence holds no index twice. */
  lemma RankedDistinct(scores: seq<real>, r: seq<nat>)
    requires Ranked(scores, r)
    ensures Distinct(r)
  {
  }

  /** The chosen indices in document order: strictly ascending, each a
      valid index, exactly the indices of `TopIndices`. */
  function Chosen(scores: seq<real>, n: int): (order: seq<nat>)
    ensures StrictlyIncreasing(order)
    ensures InRange(scores, order)
    ensures |order| == SliceLength(n, |scores|)
    ensures forall x :: x in order <==> x in TopIndices(scores, n)
  {
    var top := TopIndices(scores, n);
    RankedDistinct(scores, top);
    var order := SortAscending(top);
    SameMembers(order, top);
    assert InRange(scores, order) by {
      forall p | 0 <= p < |order| ensures order[p] < |scores| {
        assert order[p] in top;
      }
    }
    order
  }

  /** A strictly ascending list of all the indices `0 .. len - 1` is the
      list `0, 1, ..., len - 1` itself. */
  lemma {:induction false} AscendingCover(s: seq<nat>, len: nat)
    requires StrictlyIncreasing(s) && |s| == len
    requires forall x: nat :: x in s <==> x < len
    ensures forall k :: 0 <= k < len ==> s[k] == k
  {
    forall k | 0 <= k < len ensures s[k] == k {
      AscendingLower(s, k);
      AscendingUpper(s, len, k);
    }
  }

  lemma {:induction false} AscendingLower(s: seq<nat>, k: nat)
    requires StrictlyIncreasing(s) && k < |s|
    ensures s[k] >= k
  {
    if k > 0 {
      AscendingLower(s, k - 1);
    }
  }

  lemma {:induction false} AscendingUpper(s: seq<nat>, len: nat, k: nat)
    requires StrictlyIncreasing(s) && |s| == len && k < len
    requires forall x :: x in s ==> x < len
    ensures s[k] <= k
    decreases len - k
  {
    if k + 1 < len {
      AscendingUpper(s, len, k + 1);
    } else {
      assert s[k] in s;
    }
  }

  /** With `n` at least the number of sentences, the chosen indices are
      `0, 1, ..., len(scores) - 1` in order. */
  lemma ChosenAll(scores: seq<real>, n: int)
    requires n >= |scores|
    ensures Chosen(scores, n) == seq(|scores|, k => k)
  {
    var order := Chosen(scores, n);
    TopIndicesAll(scores, n);
    AscendingCover(order, |scores|);
  }
}

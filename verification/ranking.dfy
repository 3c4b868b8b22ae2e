/**
 Ranking of candidate rows by a similarity score and the top-N selection that
 follows it: order every candidate by score, best first, drop the first entry
 of that order, and keep the next n, with the slice bounds of a Python
 sequence. Ties may be ordered either way; every property below holds for any
 descending order of the scores.
 */
module Ranking {

  predicate InRange(order: seq<nat>, n: nat) {
    forall k :: 0 <= k < |order| ==> order[k] < n
  }

  predicate Distinct(order: seq<nat>) {
    forall a, b :: 0 <= a < b < |order| ==> order[a] != order[b]
  }

  predicate Descending(scores: seq<real>, order: seq<nat>)
    requires InRange(order, |scores|)
  {
    forall a, b :: 0 <= a < b < |order| ==> scores[order[a]] >= scores[order[b]]
  }

  /** order lists every index of scores exactly once, with scores never increasing along it. */
  predicate IsRanking(scores: seq<real>, order: seq<nat>) {
    && |order| == |scores|
    && InRange(order, |scores|)
    && Distinct(order)
    && (forall x: nat :: x < |scores| ==> x in order)
    && Descending(scores, order)
  }

  /** Every candidate in xs scores at most b. */
  predicate AtMost(scores: seq<real>, xs: seq<nat>, b: real)
    requires InRange(xs, |scores|)
  {
    forall k :: 0 <= k < |xs| ==> scores[xs[k]] <= b
  }

  /** Places candidate i into an order, in front of the first candidate it scores at least as high as. */
  function Insert(scores: seq<real>, i: nat, xs: seq<nat>): (r: seq<nat>)
    requires i < |scores| && InRange(xs, |scores|)
    ensures |r| == |xs| + 1
    ensures multiset(r) == multiset(xs) + multiset{i}
    ensures InRange(r, |scores|)
  {
    if |xs| == 0 then [i]
    else if scores[i] >= scores[xs[0]] then [i] + xs
    else
      assert xs == [xs[0]] + xs[1..];
      [xs[0]] + Insert(scores, i, xs[1..])
  }

  /** Inserting keeps every bound that holds of xs and of the new candidate. */
  lemma {:induction false} InsertAtMost(scores: seq<real>, i: nat, xs: seq<nat>, b: real)
    requires i < |scores| && InRange(xs, |scores|)
    requires AtMost(scores, xs, b) && scores[i] <= b
    ensures AtMost(scores, Insert(scores, i, xs), b)
    decreases |xs|
  {
    if |xs| > 0 && scores[i] < scores[xs[0]] {
      InsertAtMost(scores, i, xs[1..], b);
    }
  }

  /** Inserting into a descending order gives a descending order. */
  lemma {:induction false} InsertDescending(scores: seq<real>, i: nat, xs: seq<nat>)
    requires i < |scores| && InRange(xs, |scores|) && Descending(scores, xs)
    ensures Descending(scores, Insert(scores, i, xs))
    decreases |xs|
  {
    if |xs| > 0 {
      if scores[i] >= scores[xs[0]] {
        var r := Insert(scores, i, xs);
        forall a, b | 0 <= a < b < |r| ensures scores[r[a]] >= scores[r[b]] {
          if a == 0 {
            assert scores[xs[0]] >= scores[xs[b - 1]];
          } else {
            assert r[a] == xs[a - 1] && r[b] == xs[b - 1];
          }
        }
      } else {
        var rest := Insert(scores, i, xs[1..]);
        InsertDescending(scores, i, xs[1..]);
        assert AtMost(scores, xs[1..], scores[xs[0]]) by {
          forall k | 0 <= k < |xs[1..]| ensures scores[xs[1..][k]] <= scores[xs[0]] {
            assert xs[1..][k] == xs[k + 1];
          }
        }
        InsertAtMost(scores, i, xs[1..], scores[xs[0]]);
        var r := Insert(scores, i, xs);
        assert r == [xs[0]] + rest;
        forall a, b | 0 <= a < b < |r| ensures scores[r[a]] >= scores[r[b]] {
          assert r[b] == rest[b - 1];
          if a > 0 {
            assert r[a] == rest[a - 1];
          }
        }
      }
    }
  }

  /** A sequence is distinct exactly when each of its elements occurs once. */
  lemma DistinctCounts(xs: seq<nat>)
    ensures Distinct(xs) <==> forall x :: x in multiset(xs) ==> multiset(xs)[x] == 1
  {
    if Distinct(xs) {
      DistinctCountsOne(xs);
    } else {
      var a, b :| 0 <= a < b < |xs| && xs[a] == xs[b];
      var x := xs[a];
      assert xs == xs[..a] + [x] + xs[a + 1..b] + [x] + xs[b + 1..];
      assert multiset(xs)[x] >= 2;
    }
  }

  lemma {:induction false} DistinctCountsOne(xs: seq<nat>)
    requires Distinct(xs)
    ensures forall x :: x in multiset(xs) ==> multiset(xs)[x] == 1
    decreases |xs|
  {
    if |xs| > 0 {
      var t := xs[1..];
      assert Distinct(t) by {
        forall a, b | 0 <= a < b < |t| ensures t[a] != t[b] {
          assert t[a] == xs[a + 1] && t[b] == xs[b + 1];
        }
      }
      DistinctCountsOne(t);
      assert xs == [xs[0]] + t;
      assert xs[0] !in t by {
        forall k | 0 <= k < |t| ensures t[k] != xs[0] {
          assert t[k] == xs[k + 1];
        }
      }
    }
  }

  /** The indices 0, 1, ..., k - 1. */
  function Upto(k: nat): (r: seq<nat>)
    ensures |r| == k && forall j :: 0 <= j < k ==> r[j] == j
  {
    if k == 0 then [] else Upto(k - 1) + [k - 1]
  }

  /** Inserting candidate k - 1 into a descending arrangement of the first k - 1 gives one of the first k. */
  lemma RankStep(scores: seq<real>, k: nat, prev: seq<nat>)
    requires 0 < k <= |scores| && InRange(prev, |scores|) && Descending(scores, prev)
    requires multiset(prev) == multiset(Upto(k - 1))
    ensures multiset(Insert(scores, k - 1, prev)) == multiset(Upto(k))
    ensures Descending(scores, Insert(scores, k - 1, prev))
  {
    InsertDescending(scores, k - 1, prev);
    var r := Insert(scores, k - 1, prev);
    var u := Upto(k - 1);
    var last: seq<nat> := [k - 1];
    assert multiset(r) == multiset(prev) + multiset(last);
    assert Upto(k) == u + last;
    assert multiset(u + last) == multiset(u) + multiset(last);
  }

  /** A descending order of the first k candidates, holding each of them once. */
  function RankPrefix(scores: seq<real>, k: nat): (r: seq<nat>)
    requires k <= |scores|
    ensures multiset(r) == multiset(Upto(k))
    ensures InRange(r, |scores|) && Descending(scores, r)
  {
    if k == 0 then []
    else
      var prev := RankPrefix(scores, k - 1);
      RankStep(scores, k, prev);
      Insert(scores, k - 1, prev)
  }

  /** A sequence with the same elements as 0, ..., n - 1 lists each of them exactly once. */
  lemma PermutationOfUpto(r: seq<nat>, n: nat)
    requires multiset(r) == multiset(Upto(n))
    ensures |r| == n && Distinct(r)
    ensures forall x: nat :: x < n ==> x in r
  {
    var u := Upto(n);
    assert |r| == |multiset(r)| == |multiset(u)| == n;
    assert Distinct(u);
    DistinctCounts(u);
    DistinctCounts(r);
    forall x: nat | x < n ensures x in r {
      assert u[x] == x;
      assert x in multiset(u);
    }
  }

  /** The descending ranking of all candidates (argsort reversed). */
  function Rank(scores: seq<real>): (r: seq<nat>)
    ensures IsRanking(scores, r)
  {
    var r := RankPrefix(scores, |scores|);
    PermutationOfUpto(r, |scores|);
    r
  }

  /** Where a Python slice bound lands in a sequence of length len: negative bounds count from the end. */
  function SliceBound(i: int, len: nat): (j: nat)
    ensures j <= len
  {
    if i < 0 then (if i + len < 0 then 0 else i + len)
    else if i > len then len
    else i
  }

  /** s[start:stop] in Python. */
  function PySlice<T>(s: seq<T>, start: int, stop: int): seq<T> {
    var a := SliceBound(start, |s|);
    var b := SliceBound(stop, |s|);
    if a < b then s[a..b] else []
  }

  /** order[1:n+1]: the ranking with its first entry dropped, cut to n entries. */
  function TopAfterFirst(order: seq<nat>, n: int): seq<nat> {
    PySlice(order, 1, n + 1)
  }

  function MinInt(a: int, b: int): int { if a <= b then a else b }
  function MaxInt(a: int, b: int): int { if a <= b then b else a }

  /**
   TopAfterFirst is always a contiguous run of the ranking that starts right
   after its first entry; for n >= 0 it has min(n, max(0, |order| - 1)) entries.
   */
  lemma TopAfterFirstShape(order: seq<nat>, n: int)
    ensures var r := TopAfterFirst(order, n);
            && SliceEnd(order, n) <= |order|
            && r == order[MinInt(1, |order|)..SliceEnd(order, n)]
    ensures n >= 0 ==> |TopAfterFirst(order, n)| == MinInt(n, MaxInt(0, |order| - 1))
  {
  }

  /** Where order[1:n+1] stops. */
  function SliceEnd(order: seq<nat>, n: int): nat {
    MaxInt(MinInt(1, |order|), SliceBound(n + 1, |order|))
  }

  /** The first-ranked candidate scores at least as high as every candidate. */
  lemma FirstIsBest(scores: seq<real>, order: seq<nat>, x: nat)
    requires IsRanking(scores, order) && x < |scores|
    ensures scores[order[0]] >= scores[x]
  {
    assert x in order;
    var p :| 0 <= p < |order| && order[p] == x;
    if p > 0 {
      assert scores[order[0]] >= scores[order[p]];
    }
  }

  /** The second-ranked candidate scores at least as high as every candidate but the first-ranked. */
  lemma SecondIsBestOfRest(scores: seq<real>, order: seq<nat>, x: nat)
    requires IsRanking(scores, order) && x < |scores| && x != order[0]
    ensures |order| >= 2 && scores[order[1]] >= scores[x]
  {
    assert x in order;
    var p :| 0 <= p < |order| && order[p] == x;
    if p > 1 {
      assert scores[order[1]] >= scores[order[p]];
    }
  }

  /** The ranker returns distinct candidate indices in non-increasing score order. */
  lemma TopAfterFirstOrdered(scores: seq<real>, order: seq<nat>, n: int)
    requires IsRanking(scores, order)
    ensures var r := TopAfterFirst(order, n);
            InRange(r, |scores|) && Distinct(r) && Descending(scores, r)
  {
    TopAfterFirstShape(order, n);
    var r := TopAfterFirst(order, n);
    var a := MinInt(1, |order|);
    assert forall k :: 0 <= k < |r| ==> r[k] == order[a + k];
  }

  /**
   The first-ranked candidate is always dropped, whether or not it is the
   query, and nothing returned scores above it.
   */
  lemma TopAfterFirstDropsFirst(scores: seq<real>, order: seq<nat>, n: int)
    requires IsRanking(scores, order) && |scores| > 0
    ensures order[0] !in TopAfterFirst(order, n)
    ensures forall k :: 0 <= k < |TopAfterFirst(order, n)| ==> scores[TopAfterFirst(order, n)[k]] <= scores[order[0]]
  {
    TopAfterFirstShape(order, n);
    var r := TopAfterFirst(order, n);
    forall k | 0 <= k < |r| ensures r[k] != order[0] && scores[r[k]] <= scores[order[0]] {
      assert r[k] == order[1 + k];
    }
  }

  /**
   Top-N: no candidate left out, other than the dropped first-ranked one,
   scores above any candidate returned.
   */
  lemma TopAfterFirstKeepsBest(scores: seq<real>, order: seq<nat>, n: int, k: nat, j: nat)
    requires IsRanking(scores, order)
    requires k < |TopAfterFirst(order, n)|
    requires j < |scores| && j !in TopAfterFirst(order, n) && j != order[0]
    ensures scores[j] <= scores[TopAfterFirst(order, n)[k]]
  {
    TopAfterFirstShape(order, n);
    var r := TopAfterFirst(order, n);
    var a := MinInt(1, |order|);
    var b := SliceEnd(order, n);
    assert forall t :: a <= t < b ==> order[t] == r[t - a];
    assert j in order;
    var p :| 0 <= p < |order| && order[p] == j;
    assert p >= b;
    assert r[k] == order[a + k];
  }

  /**
   idx is what a top-N selection after dropping the first-ranked candidate top
   may return: distinct candidates in non-increasing score order, never top,
   none above top, and no other candidate left out above a selected one.
   */
  predicate SelectedAfter(scores: seq<real>, top: nat, idx: seq<nat>)
    requires InRange(idx, |scores|) && top < |scores|
  {
    && Distinct(idx)
    && Descending(scores, idx)
    && top !in idx
    && AtMost(scores, idx, scores[top])
    && forall j, k :: 0 <= j < |scores| && j !in idx && j != top && 0 <= k < |idx| ==> scores[j] <= scores[idx[k]]
  }

  /** The [1:n+1] slice of a descending ranking is such a selection. */
  lemma TopAfterFirstSelects(scores: seq<real>, order: seq<nat>, n: int)
    requires IsRanking(scores, order) && |scores| > 0
    ensures InRange(TopAfterFirst(order, n), |scores|)
    ensures SelectedAfter(scores, order[0], TopAfterFirst(order, n))
  {
    var r := TopAfterFirst(order, n);
    TopAfterFirstOrdered(scores, order, n);
    TopAfterFirstDropsFirst(scores, order, n);
    forall j, k | 0 <= j < |scores| && j !in r && j != order[0] && 0 <= k < |r|
      ensures scores[j] <= scores[r[k]]
    {
      TopAfterFirstKeepsBest(scores, order, n, k, j);
    }
  }

  /** A candidate that scores strictly above every other one is never returned. */
  lemma UniqueBestNotReturned(scores: seq<real>, order: seq<nat>, n: int, q: nat)
    requires IsRanking(scores, order)
    requires q < |scores|
    requires forall j :: 0 <= j < |scores| && j != q ==> scores[j] < scores[q]
    ensures q !in TopAfterFirst(order, n)
  {
    FirstIsBest(scores, order, q);
    assert order[0] == q;
    TopAfterFirstDropsFirst(scores, order, n);
  }

  /**
   When exactly two candidates share the best score (a song and its duplicate)
   and n >= 1, one of the two is returned first: only the first-ranked is dropped.
   */
  lemma TiedBestReturned(scores: seq<real>, order: seq<nat>, n: int, p: nat, q: nat)
    requires IsRanking(scores, order)
    requires p < |scores| && q < |scores| && p != q && scores[p] == scores[q]
    requires forall j :: 0 <= j < |scores| && j != p && j != q ==> scores[j] < scores[p]
    requires n >= 1
    ensures |TopAfterFirst(order, n)| >= 1
    ensures TopAfterFirst(order, n)[0] == p || TopAfterFirst(order, n)[0] == q
  {
    FirstIsBest(scores, order, p);
    assert order[0] == p || order[0] == q;
    var other := if order[0] == p then q else p;
    SecondIsBestOfRest(scores, order, other);
    assert order[1] == p || order[1] == q;
    TopAfterFirstShape(order, n);
  }
}

/**
 * Ranking by score: the stable sort that Python's `sorted(..., key=...)`
 * performs, and the order-independent meaning of "the K-th highest score",
 * on which both tie-aware top-K selections of the engine rest.
 */
module Ranking {
  import opened Seqs

  /** Every element of `xs` has a score. */
  ghost predicate Covers(s: map<string, real>, xs: seq<string>) {
    forall x :: x in xs ==> x in s
  }

  /** `a` may precede `b`: ascending, or descending when `desc`. */
  predicate InOrder(a: real, b: real, desc: bool) {
    if desc then a >= b else a <= b
  }

  ghost predicate SortedBy(r: seq<string>, s: map<string, real>, desc: bool)
    requires Covers(s, r)
  {
    forall i, j :: 0 <= i < j < |r| ==> InOrder(s[r[i]], s[r[j]], desc)
  }

  /** Inserts `x` in front of the first element it may precede, so that equal scores keep their order. */
  function Insert(x: string, ys: seq<string>, s: map<string, real>, desc: bool): (r: seq<string>)
    requires x in s && Covers(s, ys)
    ensures multiset(r) == multiset(ys) + multiset{x}
    ensures forall z :: z in r <==> z == x || z in ys
    ensures Covers(s, r)
    ensures SortedBy(ys, s, desc) ==> SortedBy(r, s, desc)
    ensures Distinct(ys) && x !in ys ==> Distinct(r)
  {
    if ys == [] || InOrder(s[x], s[ys[0]], desc) then
      InsertFrontSorted(x, ys, s, desc);
      [x] + ys
    else
      var rest := Insert(x, ys[1..], s, desc);
      assert ys == [ys[0]] + ys[1..];
      InsertBehindSorted(x, ys, rest, s, desc);
      DistinctTail(ys);
      DistinctCons(ys[0], rest);
      [ys[0]] + rest
  }

  lemma InsertFrontSorted(x: string, ys: seq<string>, s: map<string, real>, desc: bool)
    requires x in s && Covers(s, ys)
    requires ys == [] || InOrder(s[x], s[ys[0]], desc)
    ensures SortedBy(ys, s, desc) ==> SortedBy([x] + ys, s, desc)
  {
    if SortedBy(ys, s, desc) {
      var r := [x] + ys;
      forall i, j | 0 <= i < j < |r| ensures InOrder(s[r[i]], s[r[j]], desc) {
        if i == 0 && j > 1 {
          assert InOrder(s[ys[0]], s[ys[j - 1]], desc);
        }
      }
    }
  }

  lemma InsertBehindSorted(x: string, ys: seq<string>, rest: seq<string>, s: map<string, real>, desc: bool)
    requires x in s && Covers(s, ys) && ys != [] && !InOrder(s[x], s[ys[0]], desc)
    requires Covers(s, rest) && forall z :: z in rest ==> z == x || z in ys[1..]
    requires SortedBy(ys[1..], s, desc) ==> SortedBy(rest, s, desc)
    ensures SortedBy(ys, s, desc) ==> SortedBy([ys[0]] + rest, s, desc)
  {
    if SortedBy(ys, s, desc) {
      var r := [ys[0]] + rest;
      forall i, j | 0 <= i < j < |r| ensures InOrder(s[r[i]], s[r[j]], desc) {
        if i == 0 {
          var z := rest[j - 1];
          assert z in rest;
          if z != x {
            var k :| 0 <= k < |ys[1..]| && ys[1..][k] == z;
            assert ys[k + 1] == z;
          }
        } else {
          assert r[i] == rest[i - 1] && r[j] == rest[j - 1];
        }
      }
    }
  }

  /**
   * `sorted(xs, key=s)` (ascending) or `sorted(xs, key=s, reverse=True)`
   * (descending): a stable sort, a permutation of `xs` ordered by score.
   */
  function SortByScore(xs: seq<string>, s: map<string, real>, desc: bool): (r: seq<string>)
    requires Covers(s, xs)
    ensures multiset(r) == multiset(xs)
    ensures |r| == |xs|
    ensures forall z :: z in r <==> z in xs
    ensures Covers(s, r)
    ensures SortedBy(r, s, desc)
    ensures Distinct(xs) ==> Distinct(r)
  {
    if xs == [] then []
    else
      assert xs == [xs[0]] + xs[1..];
      Insert(xs[0], SortByScore(xs[1..], s, desc), s, desc)
  }

  /** The elements of `r` whose score is `v`, in their order in `r`. */
  ghost function WithScore(r: seq<string>, s: map<string, real>, v: real): seq<string>
    requires Covers(s, r)
  {
    if r == [] then []
    else (if s[r[0]] == v then [r[0]] else []) + WithScore(r[1..], s, v)
  }

  lemma {:induction false} WithScoreConcat(a: seq<string>, b: seq<string>, s: map<string, real>, v: real)
    requires Covers(s, a) && Covers(s, b)
    ensures WithScore(a + b, s, v) == WithScore(a, s, v) + WithScore(b, s, v)
  {
    if a == [] {
      assert a + b == b;
    } else {
      assert (a + b)[0] == a[0] && (a + b)[1..] == a[1..] + b;
      WithScoreConcat(a[1..], b, s, v);
    }
  }

  /**
   * Insert is stable: among equal scores, the inserted element comes
   * first, and the others keep their order.
   */
  lemma {:induction false} InsertStable(x: string, ys: seq<string>, s: map<string, real>, desc: bool, v: real)
    requires x in s && Covers(s, ys)
    ensures WithScore(Insert(x, ys, s, desc), s, v) == WithScore([x] + ys, s, v)
  {
    if ys != [] && !InOrder(s[x], s[ys[0]], desc) {
      var rest := Insert(x, ys[1..], s, desc);
      InsertStable(x, ys[1..], s, desc, v);
      assert ys == [ys[0]] + ys[1..];
      WithScoreSwap(x, ys[0], ys[1..], rest, s, v);
    }
  }

  /** Moving `x` past an element `y` of another score does not change the order of any one score's elements. */
  lemma WithScoreSwap(x: string, y: string, tail: seq<string>, rest: seq<string>, s: map<string, real>, v: real)
    requires x in s && y in s && s[x] != s[y] && Covers(s, tail) && Covers(s, rest)
    requires WithScore(rest, s, v) == WithScore([x] + tail, s, v)
    ensures WithScore([y] + rest, s, v) == WithScore([x] + ([y] + tail), s, v)
  {
    assert ([y] + rest)[1..] == rest;
    assert ([x] + tail)[1..] == tail;
    assert ([x] + ([y] + tail))[1..] == [y] + tail;
    assert ([y] + tail)[1..] == tail;
  }

  /**
   * `sorted` is stable: for every score, the elements with that score
   * appear in the ranking in the order they have in the input. Together
   * with SortByScore's contract this fixes the ranking completely.
   */
  lemma {:induction false} SortStable(xs: seq<string>, s: map<string, real>, desc: bool, v: real)
    requires Covers(s, xs)
    ensures WithScore(SortByScore(xs, s, desc), s, v) == WithScore(xs, s, v)
  {
    if xs != [] {
      var sorted := SortByScore(xs[1..], s, desc);
      SortStable(xs[1..], s, desc, v);
      InsertStable(xs[0], sorted, s, desc, v);
      assert ([xs[0]] + sorted)[1..] == sorted;
    }
  }

  /** A score `a` clears `t`: strictly above it, or at least it. */
  predicate Clears(a: real, t: real, strict: bool) {
    if strict then a > t else a >= t
  }

  /** How many elements of `r` (with repetition) have a score clearing `t`. */
  ghost function CountClearing(r: seq<string>, s: map<string, real>, t: real, strict: bool): (n: nat)
    requires Covers(s, r)
    ensures n <= |r|
  {
    if r == [] then 0
    else (if Clears(s[r[0]], t, strict) then 1 else 0) + CountClearing(r[1..], s, t, strict)
  }

  /**
   * `t` is the K-th highest score among `keys`: at least K of them score
   * `t` or more, and fewer than K score strictly more. This does not depend
   * on how equal scores are ordered.
   */
  ghost predicate IsKthHighest(keys: seq<string>, s: map<string, real>, k: nat, t: real)
    requires Covers(s, keys)
  {
    CountClearing(keys, s, t, false) >= k && CountClearing(keys, s, t, true) < k
  }

  lemma {:induction false} CountConcat(a: seq<string>, b: seq<string>, s: map<string, real>, t: real, strict: bool)
    requires Covers(s, a) && Covers(s, b)
    ensures CountClearing(a + b, s, t, strict) == CountClearing(a, s, t, strict) + CountClearing(b, s, t, strict)
  {
    if a == [] {
      assert a + b == b;
    } else {
      assert (a + b)[0] == a[0];
      assert (a + b)[1..] == a[1..] + b;
      CountConcat(a[1..], b, s, t, strict);
    }
  }

  lemma {:induction false} CountAll(r: seq<string>, s: map<string, real>, t: real, strict: bool)
    requires Covers(s, r)
    requires forall i :: 0 <= i < |r| ==> Clears(s[r[i]], t, strict)
    ensures CountClearing(r, s, t, strict) == |r|
  {
    if r != [] {
      CountAll(r[1..], s, t, strict);
    }
  }

  lemma {:induction false} CountNone(r: seq<string>, s: map<string, real>, t: real, strict: bool)
    requires Covers(s, r)
    requires forall i :: 0 <= i < |r| ==> !Clears(s[r[i]], t, strict)
    ensures CountClearing(r, s, t, strict) == 0
  {
    if r != [] {
      CountNone(r[1..], s, t, strict);
    }
  }

  /** Counts depend only on the multiset of elements. */
  lemma {:induction false} CountPermutation(a: seq<string>, b: seq<string>, s: map<string, real>, t: real, strict: bool)
    requires Covers(s, a) && Covers(s, b)
    requires multiset(a) == multiset(b)
    ensures CountClearing(a, s, t, strict) == CountClearing(b, s, t, strict)
    decreases |a|
  {
    if a == [] {
      assert |b| == |multiset(b)| == 0;
    } else {
      var x := a[0];
      assert x in multiset(b);
      var j :| 0 <= j < |b| && b[j] == x;
      CountPermutation(RemoveAt(a, 0), RemoveAt(b, j), s, t, strict);
      CountRemoveAt(a, 0, s, t, strict);
      CountRemoveAt(b, j, s, t, strict);
    }
  }

  /** Taking out one element takes out its share of the count. */
  lemma CountRemoveAt(b: seq<string>, j: nat, s: map<string, real>, t: real, strict: bool)
    requires Covers(s, b) && j < |b|
    ensures CountClearing(b, s, t, strict)
            == (if Clears(s[b[j]], t, strict) then 1 else 0) + CountClearing(RemoveAt(b, j), s, t, strict)
  {
    assert b[..j] + b[j..] == b;
    CountConcat(b[..j], b[j..], s, t, strict);
    assert b[j..][1..] == b[j + 1..];
    CountConcat(b[..j], b[j + 1..], s, t, strict);
  }

  /** `b` without its element at `j`. */
  ghost function RemoveAt(b: seq<string>, j: nat): (rest: seq<string>)
    requires j < |b|
    ensures rest == b[..j] + b[j + 1..]
    ensures multiset(rest) == multiset(b) - multiset{b[j]}
  {
    assert b == b[..j] + [b[j]] + b[j + 1..];
    b[..j] + b[j + 1..]
  }

  /** A lower threshold lets through, strictly, at least what a higher one lets through inclusively. */
  lemma {:induction false} CountMonotone(r: seq<string>, s: map<string, real>, lo: real, hi: real)
    requires Covers(s, r) && lo < hi
    ensures CountClearing(r, s, lo, true) >= CountClearing(r, s, hi, false)
  {
    if r != [] {
      CountMonotone(r[1..], s, lo, hi);
    }
  }

  /** There is only one K-th highest score. */
  lemma KthHighestUnique(keys: seq<string>, s: map<string, real>, k: nat, t1: real, t2: real)
    requires Covers(s, keys)
    requires IsKthHighest(keys, s, k, t1) && IsKthHighest(keys, s, k, t2)
    ensures t1 == t2
  {
    if t1 < t2 {
      CountMonotone(keys, s, t1, t2);
    } else if t2 < t1 {
      CountMonotone(keys, s, t2, t1);
    }
  }

  lemma KthHighestPermutation(a: seq<string>, b: seq<string>, s: map<string, real>, k: nat, t: real)
    requires Covers(s, a) && Covers(s, b) && multiset(a) == multiset(b)
    ensures IsKthHighest(a, s, k, t) <==> IsKthHighest(b, s, k, t)
  {
    CountPermutation(a, b, s, t, false);
    CountPermutation(a, b, s, t, true);
  }

  /** In an ascending ranking of n >= K elements, the K-th highest score is the one at index n - K. */
  lemma AscendingThreshold(r: seq<string>, s: map<string, real>, k: nat)
    requires Covers(s, r) && SortedBy(r, s, false) && 1 <= k <= |r|
    ensures IsKthHighest(r, s, k, s[r[|r| - k]])
  {
    AscendingStrictCount(r, s, |r| - k);
    AscendingInclusiveCount(r, s, |r| - k);
  }

  /** In an ascending ranking, at most the entries after index `m` score strictly above the one at `m`. */
  lemma AscendingStrictCount(r: seq<string>, s: map<string, real>, m: nat)
    requires Covers(s, r) && SortedBy(r, s, false) && m < |r|
    ensures CountClearing(r, s, s[r[m]], true) <= |r| - m - 1
  {
    var t := s[r[m]];
    var lo, hi := r[..m + 1], r[m + 1..];
    assert r == lo + hi;
    CountConcat(lo, hi, s, t, true);
    forall i | 0 <= i < |lo| ensures !Clears(s[lo[i]], t, true) {
      assert lo[i] == r[i];
      assert i == m || InOrder(s[r[i]], s[r[m]], false);
    }
    CountNone(lo, s, t, true);
  }

  /** In an ascending ranking, every entry from index `m` on scores at least the one at `m`. */
  lemma AscendingInclusiveCount(r: seq<string>, s: map<string, real>, m: nat)
    requires Covers(s, r) && SortedBy(r, s, false) && m < |r|
    ensures CountClearing(r, s, s[r[m]], false) >= |r| - m
  {
    var t := s[r[m]];
    var lo, hi := r[..m], r[m..];
    assert r == lo + hi;
    CountConcat(lo, hi, s, t, false);
    forall i | 0 <= i < |hi| ensures Clears(s[hi[i]], t, false) {
      assert hi[i] == r[m + i];
      assert i == 0 || InOrder(s[r[m]], s[r[m + i]], false);
    }
    CountAll(hi, s, t, false);
  }

  /** In a descending ranking of at least K elements, the K-th highest score is the one at index K - 1. */
  lemma DescendingThreshold(r: seq<string>, s: map<string, real>, k: nat)
    requires Covers(s, r) && SortedBy(r, s, true) && 1 <= k <= |r|
    ensures IsKthHighest(r, s, k, s[r[k - 1]])
  {
    var t := s[r[k - 1]];
    var hi, lo := r[..k - 1], r[k - 1..];
    assert r == hi + lo;
    CountConcat(hi, lo, s, t, true);
    CountNone(lo, s, t, true);
    var hi', lo' := r[..k], r[k..];
    assert r == hi' + lo';
    CountConcat(hi', lo', s, t, false);
    CountAll(hi', s, t, false);
  }

  /** Every collection of at least K scored keys has a K-th highest score. */
  lemma KthHighestExists(keys: seq<string>, s: map<string, real>, k: nat) returns (t: real)
    requires Covers(s, keys) && 1 <= k <= |keys|
    ensures IsKthHighest(keys, s, k, t)
  {
    var r := SortByScore(keys, s, true);
    DescendingThreshold(r, s, k);
    KthHighestPermutation(r, keys, s, k, s[r[k - 1]]);
    t := s[r[k - 1]];
  }

  /** The longest prefix of `r` whose scores all equal `t`. */
  ghost function TiedRun(r: seq<string>, s: map<string, real>, t: real): (p: seq<string>)
    requires Covers(s, r)
    ensures |p| <= |r| && p == r[..|p|]
    ensures forall i :: 0 <= i < |p| ==> s[r[i]] == t
    ensures |p| < |r| ==> s[r[|p|]] != t
  {
    if r == [] || s[r[0]] != t then []
    else [r[0]] + TiedRun(r[1..], s, t)
  }

  /**
   * The tie-aware top-K of a descending ranking: its first K entries, then
   * every further entry tied with the K-th, up to the first that is not.
   */
  ghost function Plateau(r: seq<string>, s: map<string, real>, k: nat): seq<string>
    requires Covers(s, r) && 1 <= k
  {
    if |r| <= k then r else r[..k] + TiedRun(r[k..], s, s[r[k - 1]])
  }

  /** The plateau is a prefix of the ranking with at least min(K, |r|) entries, all of it when |r| <= K. */
  lemma PlateauPrefix(r: seq<string>, s: map<string, real>, k: nat)
    requires Covers(s, r) && 1 <= k
    ensures |Plateau(r, s, k)| <= |r| && Plateau(r, s, k) == r[..|Plateau(r, s, k)|]
    ensures |Plateau(r, s, k)| >= if |r| < k then |r| else k
    ensures |r| <= k ==> Plateau(r, s, k) == r
  {
    if |r| > k {
      assert r[..k] + TiedRun(r[k..], s, s[r[k - 1]]) == r[..k + |TiedRun(r[k..], s, s[r[k - 1]])|];
    } else {
      assert r[..|r|] == r;
    }
  }

  /**
   * On a descending ranking of K or more entries, an entry is in the
   * plateau exactly when it scores at least the K-th highest score.
   */
  lemma PlateauIsThreshold(r: seq<string>, s: map<string, real>, k: nat)
    requires Covers(s, r) && SortedBy(r, s, true) && 1 <= k
    ensures |r| >= k ==> forall t :: IsKthHighest(r, s, k, t) ==>
              forall i :: 0 <= i < |r| ==> (i < |Plateau(r, s, k)| <==> s[r[i]] >= t)
  {
    PlateauPrefix(r, s, k);
    if |r| >= k {
      var t0 := s[r[k - 1]];
      var run := TiedRun(r[k..], s, t0);
      var p := Plateau(r, s, k);
      assert p == r[..k + |run|];
      DescendingThreshold(r, s, k);
      forall t | IsKthHighest(r, s, k, t)
        ensures forall i :: 0 <= i < |r| ==> (i < |p| <==> s[r[i]] >= t)
      {
        KthHighestUnique(r, s, k, t, t0);
        forall i | 0 <= i < |r| ensures i < |p| <==> s[r[i]] >= t {
          if i < k {
            assert InOrder(s[r[i]], s[r[k - 1]], true) || i == k - 1;
          } else if i < |p| {
            assert r[i] == r[k..][i - k];
          } else {
            var first := k + |run|;
            assert r[first] == r[k..][|run|];
            assert InOrder(s[r[k - 1]], s[r[first]], true);
            assert first == i || InOrder(s[r[first]], s[r[i]], true);
          }
        }
      }
    }
  }

  /** On a duplicate-free descending ranking, the same in terms of membership. */
  lemma PlateauMembers(r: seq<string>, s: map<string, real>, k: nat, t: real)
    requires Covers(s, r) && SortedBy(r, s, true) && Distinct(r) && 1 <= k <= |r|
    requires IsKthHighest(r, s, k, t)
    ensures forall x :: x in Plateau(r, s, k) <==> x in r && s[x] >= t
  {
    PlateauPrefix(r, s, k);
    PlateauIsThreshold(r, s, k);
    var p := Plateau(r, s, k);
    forall x ensures x in p <==> x in r && s[x] >= t {
      if x in p {
        var i :| 0 <= i < |p| && p[i] == x;
        assert r[i] == x;
      }
      if x in r && s[x] >= t {
        var i :| 0 <= i < |r| && r[i] == x;
        assert p[i] == x;
      }
    }
  }
}

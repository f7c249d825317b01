/**
 Python's stable `sorted(..., reverse=True)` followed by a slice `[:limit]`, for
 limits of either sign.  What the sort keeps, what the slice takes, and when cutting
 one of two merged lists beforehand makes no difference to the merged slice.
 */
module Sorting {

  /** `x` goes behind every element whose key is at least its own. */
  function Insert<T>(xs: seq<T>, x: T, key: T -> real): (r: seq<T>) {
    if xs == [] then [x]
    else if key(xs[|xs| - 1]) < key(x) then Insert(xs[..|xs| - 1], x, key) + [xs[|xs| - 1]]
    else xs + [x]
  }

  function Sort<T>(xs: seq<T>, key: T -> real): (r: seq<T>) {
    if xs == [] then [] else Insert(Sort(xs[..|xs| - 1], key), xs[|xs| - 1], key)
  }

  /** The slice `xs[:limit]`, negative limits included. */
  function Take<T>(xs: seq<T>, limit: int): (r: seq<T>) {
    if limit >= |xs| then xs
    else if limit >= 0 then xs[..limit]
    else if |xs| + limit >= 0 then xs[..|xs| + limit]
    else []
  }

  lemma TakeMembers<T(!new)>(xs: seq<T>, limit: int)
    ensures forall i :: 0 <= i < |Take(xs, limit)| ==> xs[i] in Take(xs, limit)
    ensures forall i :: 0 <= i < limit && i < |xs| ==> xs[i] in Take(xs, limit)
  {
    forall i | 0 <= i < |Take(xs, limit)| ensures xs[i] in Take(xs, limit) {
      assert Take(xs, limit)[i] == xs[i];
    }
  }

  ghost predicate Descending<T(!new)>(xs: seq<T>, key: T -> real) {
    forall i, j :: 0 <= i < j < |xs| ==> key(xs[i]) >= key(xs[j])
  }

  function WithKey<T>(xs: seq<T>, key: T -> real, k: real): seq<T> {
    if xs == [] then []
    else WithKey(xs[..|xs| - 1], key, k) + (if key(xs[|xs| - 1]) == k then [xs[|xs| - 1]] else [])
  }

  lemma {:induction false} InsertPermutes<T(!new)>(xs: seq<T>, x: T, key: T -> real)
    ensures multiset(Insert(xs, x, key)) == multiset(xs) + multiset{x}
    ensures |Insert(xs, x, key)| == |xs| + 1
    ensures forall y :: y in Insert(xs, x, key) ==> y == x || y in xs
  {
    if xs != [] && key(xs[|xs| - 1]) < key(x) {
      var n := |xs| - 1;
      assert xs == xs[..n] + [xs[n]];
      InsertPermutes(xs[..n], x, key);
    }
  }

  lemma DescendingMore<T(!new)>(xs: seq<T>, x: T, key: T -> real)
    requires Descending(xs, key) && forall i :: 0 <= i < |xs| ==> key(xs[i]) >= key(x)
    ensures Descending(xs + [x], key)
  {
  }

  lemma {:induction false} InsertSorted<T(!new)>(xs: seq<T>, x: T, key: T -> real)
    requires Descending(xs, key)
    ensures Descending(Insert(xs, x, key), key)
  {
    if xs != [] && key(xs[|xs| - 1]) < key(x) {
      var n := |xs| - 1;
      InsertSorted(xs[..n], x, key);
      InsertPermutes(xs[..n], x, key);
      var r := Insert(xs[..n], x, key);
      assert Insert(xs, x, key) == r + [xs[n]];
      hide Insert;
      forall i | 0 <= i < |r| ensures key(r[i]) >= key(xs[n]) {
        assert r[i] in r;
      }
      DescendingMore(r, xs[n], key);
    }
  }

  /** Sorting permutes, orders by falling key and keeps equal keys in their order. */
  lemma {:induction false} SortSorted<T(!new)>(xs: seq<T>, key: T -> real)
    ensures Descending(Sort(xs, key), key)
    ensures multiset(Sort(xs, key)) == multiset(xs)
    ensures |Sort(xs, key)| == |xs|
  {
    if xs != [] {
      var n := |xs| - 1;
      assert xs == xs[..n] + [xs[n]];
      SortSorted(xs[..n], key);
      InsertSorted(Sort(xs[..n], key), xs[n], key);
      InsertPermutes(Sort(xs[..n], key), xs[n], key);
    }
  }

  lemma {:induction false} InsertStable<T(!new)>(xs: seq<T>, x: T, key: T -> real, k: real)
    requires Descending(xs, key)
    ensures WithKey(Insert(xs, x, key), key, k) == WithKey(xs, key, k) + (if key(x) == k then [x] else [])
  {
    hide WithKey;
    if xs != [] && key(xs[|xs| - 1]) < key(x) {
      var n := |xs| - 1;
      InsertStable(xs[..n], x, key, k);
      WithKeyStep(xs[..n], xs[n], key, k);
      WithKeyStep(Insert(xs[..n], x, key), xs[n], key, k);
      assert xs == xs[..n] + [xs[n]];
      var f := WithKey(xs[..n], key, k);
      assert f + [] == f && f + [x] + [] == f + [x] && f + [xs[n]] + [] == f + [xs[n]];
    } else {
      assert Insert(xs, x, key) == xs + [x];
      WithKeyStep(xs, x, key, k);
    }
  }

  lemma WithKeyStep<T(!new)>(xs: seq<T>, x: T, key: T -> real, k: real)
    ensures WithKey(xs + [x], key, k) == WithKey(xs, key, k) + (if key(x) == k then [x] else [])
  {
    assert (xs + [x])[..|xs|] == xs;
  }

  lemma {:induction false} SortStable<T(!new)>(xs: seq<T>, key: T -> real, k: real)
    ensures WithKey(Sort(xs, key), key, k) == WithKey(xs, key, k)
  {
    if xs != [] {
      var n := |xs| - 1;
      SortStable(xs[..n], key, k);
      SortSorted(xs[..n], key);
      InsertStable(Sort(xs[..n], key), xs[n], key, k);
    }
  }

  lemma {:induction false} PrefixWithKey<T(!new)>(xs: seq<T>, n: nat, key: T -> real, k: real)
    requires n <= |xs|
    ensures WithKey(xs[..n], key, k) <= WithKey(xs, key, k)
  {
    if n < |xs| {
      var front := xs[..|xs| - 1];
      assert front[..n] == xs[..n];
      PrefixWithKey(front, n, key, k);
    } else {
      assert xs[..n] == xs;
    }
  }

  /** A slice keeps the first elements with each key. */
  lemma TakePrefix<T(!new)>(xs: seq<T>, limit: int, key: T -> real, k: real)
    ensures WithKey(Take(xs, limit), key, k) <= WithKey(xs, key, k)
  {
    hide WithKey;
    PrefixWithKey(xs, |Take(xs, limit)|, key, k);
    assert Take(xs, limit) == xs[..|Take(xs, limit)|];
  }

  lemma SortMembers<T(!new)>(xs: seq<T>, key: T -> real)
    ensures forall x :: x in Sort(xs, key) <==> x in xs
  {
    SortSorted(xs, key);
    forall x ensures x in Sort(xs, key) <==> x in xs {
      assert x in Sort(xs, key) <==> x in multiset(Sort(xs, key));
    }
  }

  /** What is cut off scores no higher than anything that is kept. */
  lemma TakeBest<T(!new)>(xs: seq<T>, key: T -> real, limit: int, kept: T, cut: int)
    requires kept in Take(Sort(xs, key), limit) && |Take(Sort(xs, key), limit)| <= cut < |xs|
    ensures |Sort(xs, key)| == |xs| && key(kept) >= key(Sort(xs, key)[cut])
  {
    SortSorted(xs, key);
    var r := Sort(xs, key);
    var i :| 0 <= i < |Take(r, limit)| && Take(r, limit)[i] == kept;
    assert r[i] == kept;
  }

  // ----- cutting before merging -----

  ghost predicate Strict<T(!new)>(xs: seq<T>, key: T -> real) {
    forall i, j :: 0 <= i < j < |xs| ==> key(xs[i]) > key(xs[j])
  }

  ghost predicate Injective<T(!new)>(s: set<T>, key: T -> real) {
    forall x, y :: x in s && y in s && key(x) == key(y) ==> x == y
  }

  ghost function Elements<T>(xs: seq<T>): set<T> {
    set x | x in xs
  }

  ghost predicate Distinct<T>(xs: seq<T>) {
    forall i, j :: 0 <= i < j < |xs| ==> xs[i] != xs[j]
  }

  lemma TwiceInMultiset<T(!new)>(ys: seq<T>, i: nat, j: nat)
    requires i < j < |ys| && ys[i] == ys[j]
    ensures multiset(ys)[ys[i]] >= 2
  {
    assert ys == ys[..j] + ys[j..];
    assert ys[i] in ys[..j] && ys[j] in ys[j..];
  }

  lemma DistinctByMultiset<T(!new)>(xs: seq<T>, ys: seq<T>)
    requires Distinct(xs) && multiset(xs) == multiset(ys)
    ensures Distinct(ys)
  {
    forall x ensures multiset(xs)[x] <= 1 { DistinctOnce(xs, x); }
    forall i, j | 0 <= i < j < |ys| ensures ys[i] != ys[j] {
      if ys[i] == ys[j] { TwiceInMultiset(ys, i, j); }
    }
  }

  lemma {:induction false} DistinctOnce<T(!new)>(xs: seq<T>, x: T)
    requires Distinct(xs)
    ensures multiset(xs)[x] <= 1
  {
    if xs != [] {
      var n := |xs| - 1;
      assert xs == xs[..n] + [xs[n]];
      DistinctOnce(xs[..n], x);
      if x == xs[n] { assert x !in xs[..n]; }
    }
  }

  lemma SortStrict<T(!new)>(xs: seq<T>, key: T -> real)
    requires Distinct(xs) && Injective(Elements(xs), key)
    ensures Strict(Sort(xs, key), key) && Elements(Sort(xs, key)) == Elements(xs)
  {
    SortSorted(xs, key);
    SortMembers(xs, key);
    DistinctByMultiset(xs, Sort(xs, key));
    var r := Sort(xs, key);
    forall i, j | 0 <= i < j < |r| ensures key(r[i]) > key(r[j]) {
      assert r[i] in Elements(xs) && r[j] in Elements(xs);
    }
  }

  /** A list without repetitions is as long as the set of its elements. */
  lemma {:induction false} DistinctSize<T(!new)>(xs: seq<T>)
    requires Distinct(xs)
    ensures |Elements(xs)| == |xs|
  {
    if xs != [] {
      var n := |xs| - 1;
      DistinctSize(xs[..n]);
      assert Elements(xs) == Elements(xs[..n]) + {xs[n]};
    }
  }

  lemma NothingListed<T(!new)>(xs: seq<T>)
    ensures Elements(xs) == {} <==> xs == []
  {
    if xs != [] { assert xs[0] in Elements(xs); }
  }

  /** A strictly falling list is determined by its elements. */
  lemma {:induction false} StrictDetermined<T(!new)>(xs: seq<T>, ys: seq<T>, key: T -> real)
    requires Strict(xs, key) && Strict(ys, key) && Elements(xs) == Elements(ys)
    ensures xs == ys
  {
    if |xs| == 0 || |ys| == 0 {
      NothingListed(xs);
      NothingListed(ys);
    } else {
      assert xs[0] in Elements(ys);
      assert ys[0] in Elements(xs);
      assert xs[0] == ys[0];
      forall x ensures x in xs[1..] <==> x in ys[1..] {
        if x in xs[1..] { assert x in Elements(ys); }
        if x in ys[1..] { assert x in Elements(xs); }
      }
      StrictDetermined(xs[1..], ys[1..], key);
    }
  }

  /** In a falling list that is part of another no element stands later than in the whole. */
  lemma {:induction false} PositionInPart<T(!new)>(part: seq<T>, full: seq<T>, p: nat, i: nat, key: T -> real)
    requires Strict(part, key) && Strict(full, key)
    requires forall x :: x in part ==> x in full
    requires p < |part| && i < |full| && part[p] == full[i]
    ensures p <= i
  {
    if p > 0 {
      assert part[p - 1] in full;
      var k :| 0 <= k < |full| && full[k] == part[p - 1];
      PositionInPart(part, full, p - 1, k, key);
    }
  }

  /** A falling part that holds the first `n` elements of the whole starts with them. */
  lemma SamePrefix<T(!new)>(part: seq<T>, full: seq<T>, n: nat, i: nat, key: T -> real)
    requires Strict(part, key) && Strict(full, key)
    requires forall x :: x in part ==> x in full
    requires forall x :: x in Take(full, n) ==> x in part
    requires i < n && i < |full|
    ensures i < |part| && part[i] == full[i]
  {
    var top := Take(full, n);
    assert top[i] == full[i];
    assert full[i] in part;
    var p :| 0 <= p < |part| && part[p] == full[i];
    PositionInPart(part, full, p, i, key);
    PositionInPart(top, part, i, p, key);
  }

  /** Cutting one of two falling lists to `n` loses nothing among the first `n` of their merge. */
  lemma CutThenMerge<T(!new)>(part: seq<T>, merged: seq<T>, full: seq<T>, n: nat, key: T -> real)
    requires Strict(part, key) && Strict(merged, key) && Strict(full, key)
    requires forall x :: x in merged ==> x in full
    requires forall x :: x in full ==> x in merged || x in part
    requires forall x :: x in Take(part, n) ==> x in merged
    requires forall x :: x in part ==> x in full
    ensures Take(merged, n) == Take(full, n)
  {
    forall x | x in Take(full, n) ensures x in merged {
      var i :| 0 <= i < |Take(full, n)| && Take(full, n)[i] == x;
      assert full[i] in full;
      if x in part {
        var p :| 0 <= p < |part| && part[p] == x;
        PositionInPart(part, full, p, i, key);
        assert Take(part, n)[p] == x;
      }
    }
    forall i | 0 <= i < n && i < |full| ensures i < |merged| && merged[i] == full[i] {
      SamePrefix(merged, full, n, i, key);
    }
    if |full| <= n {
      assert Take(full, n) == full;
      forall x ensures x in Elements(merged) <==> x in Elements(full) {}
      StrictDetermined(merged, full, key);
    } else {
      if n > 0 { SamePrefix(merged, full, n, n - 1, key); }
      assert Take(merged, n) == merged[..n];
    }
  }
}

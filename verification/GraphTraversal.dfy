/** The breadth-first loop of `traverse`, proved against bounded walks. */
module GraphTraversal {
  import opened GraphModel
  import opened GraphWalks
  import Sorting

  ghost predicate DistinctKeys(edges: seq<Edge>) {
    forall i, j :: 0 <= i < j < |edges| ==> edges[i].key != edges[j].key
  }

  /** The id is the start, or a walk of at most `maxDepth` edges leads to it. */
  ghost predicate Reached(q: Query, start: string, x: string, maxDepth: int) {
    x == start || Within(q, start, x, maxDepth)
  }

  /** The bound of the loop, as a natural number. */
  ghost function Depth(maxDepth: int): nat {
    if maxDepth < 0 then 0 else maxDepth
  }

  lemma DepthReaches(q: Query, start: string, x: string, maxDepth: int)
    ensures Within(q, start, x, Depth(maxDepth)) <==> Reached(q, start, x, maxDepth)
    ensures Within(q, start, x, Depth(maxDepth) - 1) <==> Within(q, start, x, maxDepth - 1)
  {
    WithinSelf(q, start, Depth(maxDepth));
    WithinZero(q, start, x);
    NotBelowZero(q, start, x, maxDepth - 1);
    NotBelowZero(q, start, x, maxDepth);
    NotBelowZero(q, start, x, -1);
    hide Within;
  }

  lemma NotBelowZero(q: Query, start: string, x: string, d: int)
    ensures d < 0 ==> !Within(q, start, x, d)
  {
    assert d < 0 ==> forall w :: !IsWalkOf(q, w, start, x, d);
  }

  /** No id is listed before one that is strictly nearer to the start. */
  ghost predicate NearestFirst(q: Query, start: string, order: seq<string>) {
    forall i, j, d: int :: 0 <= i < j < |order| && Within(q, start, order[j], d) ==> Within(q, start, order[i], d)
  }

  /** Edge `i` has an end at depth below the bound from which the direction follows it. */
  ghost predicate Expands(q: Query, start: string, maxDepth: int, i: nat) {
    exists a :: Within(q, start, a, maxDepth - 1) && Follows(q, i, a)
  }

  /** An expanded edge, in terms of the filter and its two ends. */
  lemma ExpandsExactly(q: Query, start: string, maxDepth: int, i: nat)
    ensures Expands(q, start, maxDepth, i) <==>
              && i < |q.edges| && (q.types != {} ==> q.edges[i].key.edgeType in q.types)
              && exists a, b :: Within(q, start, a, maxDepth - 1) && Leads(q.direction, q.edges[i], a, b)
  {
    hide Within, Leads, Joins;
    forall a, b { JoinsExactly(q, i, a, b); }
    forall a { JoinsExactly(q, i, a, ""); }
  }

  /** The edges expanded under a filter are those expanded without one among the edges of its types. */
  lemma FilterExpands(q: Query, start: string, maxDepth: int, i: nat, j: nat)
    requires q.types != {} && i < |q.edges| && j < |Unfiltered(q).edges| && q.edges[i] == Unfiltered(q).edges[j]
    ensures Expands(q, start, maxDepth, i) <==> Expands(Unfiltered(q), start, maxDepth, j)
  {
    hide Within, Leads, Expands;
    ExpandsExactly(q, start, maxDepth, i);
    ExpandsExactly(Unfiltered(q), start, maxDepth, j);
    OfTypesExact(q.edges, q.types, q.edges[i]);
    assert q.edges[i] in OfTypes(q.edges, q.types);
    forall a { FilterRestricts(q, start, a, maxDepth - 1); }
  }

  // ----- the order of the visit -----

  /** Each element at its first occurrence. */
  ghost function Once<T>(xs: seq<T>): seq<T> {
    if xs == [] then []
    else var n := |xs| - 1; if xs[n] in Once(xs[..n]) then Once(xs[..n]) else Once(xs[..n]) + [xs[n]]
  }

  lemma OnceMore<T>(xs: seq<T>, ys: seq<T>, x: T)
    ensures Once(xs + (ys + [x])) == if x in Once(xs + ys) then Once(xs + ys) else Once(xs + ys) + [x]
  {
    assert (xs + (ys + [x]))[..|xs + ys|] == xs + ys;
  }

  /** The ids the first `n` edges lead to from `a`, in the order of the edges. */
  ghost function LedTo(q: Query, a: string, n: nat): seq<string>
    requires n <= |q.edges|
  {
    if n == 0 then []
    else
      LedTo(q, a, n - 1) + (if Follows(q, n - 1, a) then [Neighbor(q.direction, q.edges[n - 1], a).value] else [])
  }

  /** Those of the first `n` edges that are followed from `a`. */
  ghost function FollowedFrom(q: Query, a: string, n: nat): seq<Edge>
    requires n <= |q.edges|
  {
    if n == 0 then []
    else FollowedFrom(q, a, n - 1) + (if Follows(q, n - 1, a) then [q.edges[n - 1]] else [])
  }

  /** The start, and what the first `k` ids lead to, as far as they lie above the depth bound. */
  ghost function Arrivals(q: Query, start: string, maxDepth: int, order: seq<string>, k: nat): seq<string>
    requires k <= |order|
  {
    if k == 0 then [start]
    else
      Arrivals(q, start, maxDepth, order, k - 1)
      + (if Within(q, start, order[k - 1], maxDepth - 1) then LedTo(q, order[k - 1], |q.edges|) else [])
  }

  ghost function Departures(q: Query, start: string, maxDepth: int, order: seq<string>, k: nat): seq<Edge>
    requires k <= |order|
  {
    if k == 0 then []
    else
      Departures(q, start, maxDepth, order, k - 1)
      + (if Within(q, start, order[k - 1], maxDepth - 1) then FollowedFrom(q, order[k - 1], |q.edges|) else [])
  }

  /**
   The order of a visit: the start, then id after id what each one leads to, edge
   after edge, every id and every edge listed where it is met first.
   */
  ghost predicate InVisitOrder(q: Query, start: string, maxDepth: int, order: seq<string>, found: seq<Edge>) {
    && order == Once(Arrivals(q, start, maxDepth, order, |order|))
    && found == Once(Departures(q, start, maxDepth, order, |order|))
  }

  lemma {:induction false} LedToPrefix(q: Query, p: Query, a: string, n: nat)
    requires n <= |p.edges| <= |q.edges| && p == q.(edges := q.edges[..|p.edges|])
    ensures LedTo(p, a, n) == LedTo(q, a, n) && FollowedFrom(p, a, n) == FollowedFrom(q, a, n)
  {
    if n > 0 { LedToPrefix(q, p, a, n - 1); }
  }

  /** One more edge at the end of the list. */
  lemma LedToNext(q: Query, a: string, e: Edge)
    ensures var p, n := q.(edges := q.edges + [e]), |q.edges|;
            && LedTo(p, a, n + 1) == LedTo(q, a, n)
                 + (if Allowed(q, e) && Neighbor(q.direction, e, a).Some? then [Neighbor(q.direction, e, a).value]
                    else [])
            && FollowedFrom(p, a, n + 1) == FollowedFrom(q, a, n)
                 + (if Allowed(q, e) && Neighbor(q.direction, e, a).Some? then [e] else [])
  {
    hide Neighbor;
    var p, n := q.(edges := q.edges + [e]), |q.edges|;
    assert p.edges[..n] == q.edges;
    LedToPrefix(p, q, a, n);
  }

  /** Leaving out the edges a filter rejects does not change where the others lead. */
  lemma {:induction false} FilterLeads(q: Query, a: string)
    requires q.types != {}
    ensures LedTo(Unfiltered(q), a, |Unfiltered(q).edges|) == LedTo(q, a, |q.edges|)
    ensures FollowedFrom(Unfiltered(q), a, |Unfiltered(q).edges|) == FollowedFrom(q, a, |q.edges|)
    decreases |q.edges|
  {
    hide Neighbor, LedTo, FollowedFrom;
    if q.edges == [] {
      NothingLeads(q, a);
      NothingLeads(Unfiltered(q), a);
    } else {
      var n := |q.edges| - 1;
      var front := q.(edges := q.edges[..n]);
      assert q == front.(edges := front.edges + [q.edges[n]]);
      FilterLeads(front, a);
      LedToNext(front, a, q.edges[n]);
      if q.edges[n].key.edgeType in q.types {
        var u := Unfiltered(front);
        LedToNext(u, a, q.edges[n]);
        assert Unfiltered(q) == u.(edges := u.edges + [q.edges[n]]);
      } else {
        assert OfTypes(q.edges, q.types) == OfTypes(front.edges, q.types);
      }
    }
  }

  lemma NothingLeads(q: Query, a: string)
    requires q.edges == []
    ensures LedTo(q, a, 0) == [] && FollowedFrom(q, a, 0) == []
  {
  }

  lemma {:induction false} FilterArrivals(q: Query, start: string, maxDepth: int, order: seq<string>, k: nat)
    requires q.types != {} && k <= |order|
    ensures Arrivals(Unfiltered(q), start, maxDepth, order, k) == Arrivals(q, start, maxDepth, order, k)
    ensures Departures(Unfiltered(q), start, maxDepth, order, k) == Departures(q, start, maxDepth, order, k)
  {
    hide LedTo, FollowedFrom, Within, OfTypes;
    if k > 0 {
      FilterArrivals(q, start, maxDepth, order, k - 1);
      FilterLeads(q, order[k - 1]);
      FilterRestricts(q, start, order[k - 1], maxDepth - 1);
    }
  }

  lemma FilterVisits(q: Query, start: string, maxDepth: int, order: seq<string>, found: seq<Edge>)
    requires q.types != {}
    ensures InVisitOrder(q, start, maxDepth, order, found) <==>
            InVisitOrder(Unfiltered(q), start, maxDepth, order, found)
  {
    FilterArrivals(q, start, maxDepth, order, |order|);
    hide Arrivals, Departures, Once, Unfiltered;
  }

  /** The same with the depths the ids were queued with. */
  ghost function Arrived(q: Query, start: string, bound: nat, order: seq<string>, dep: seq<nat>, k: nat): seq<string>
    requires k <= |order| == |dep|
  {
    if k == 0 then [start]
    else
      Arrived(q, start, bound, order, dep, k - 1)
      + (if dep[k - 1] < bound then LedTo(q, order[k - 1], |q.edges|) else [])
  }

  ghost function Departed(q: Query, bound: nat, order: seq<string>, dep: seq<nat>, k: nat): seq<Edge>
    requires k <= |order| == |dep|
  {
    if k == 0 then []
    else
      Departed(q, bound, order, dep, k - 1)
      + (if dep[k - 1] < bound then FollowedFrom(q, order[k - 1], |q.edges|) else [])
  }

  /** The lists are in order up to edge `n` of the id at position `head`. */
  ghost predicate OrderedSoFar(q: Query, start: string, bound: nat, order: seq<string>, dep: seq<nat>, head: nat,
                               n: nat, found: seq<Edge>)
  {
    && n <= |q.edges| && head < |order| == |dep|
    && order == Once(Arrived(q, start, bound, order, dep, head) + LedTo(q, order[head], n))
    && found == Once(Departed(q, bound, order, dep, head) + FollowedFrom(q, order[head], n))
  }

  ghost predicate Ordered(q: Query, start: string, bound: nat, order: seq<string>, dep: seq<nat>, head: nat,
                          found: seq<Edge>)
  {
    && head <= |order| == |dep|
    && order == Once(Arrived(q, start, bound, order, dep, head)) && found == Once(Departed(q, bound, order, dep, head))
  }

  lemma {:induction false} ArrivedMore(q: Query, start: string, bound: nat, order: seq<string>, dep: seq<nat>, k: nat,
                                       y: string, d: nat)
    requires k <= |order| == |dep|
    ensures Arrived(q, start, bound, order + [y], dep + [d], k) == Arrived(q, start, bound, order, dep, k)
    ensures Departed(q, bound, order + [y], dep + [d], k) == Departed(q, bound, order, dep, k)
  {
    if k > 0 { ArrivedMore(q, start, bound, order, dep, k - 1, y, d); }
  }

  lemma OrderedStart(q: Query, start: string, bound: nat)
    ensures Ordered(q, start, bound, [start], [0], 0, [])
  {
    assert [start][..0] == [];
  }

  lemma OrderedEnter(q: Query, start: string, bound: nat, order: seq<string>, dep: seq<nat>, head: nat,
                     found: seq<Edge>)
    requires Ordered(q, start, bound, order, dep, head, found) && head < |order|
    ensures OrderedSoFar(q, start, bound, order, dep, head, 0, found)
  {
    assert Arrived(q, start, bound, order, dep, head) + [] == Arrived(q, start, bound, order, dep, head);
    assert Departed(q, bound, order, dep, head) + [] == Departed(q, bound, order, dep, head);
  }

  lemma OrderedLeave(q: Query, start: string, bound: nat, order: seq<string>, dep: seq<nat>, head: nat,
                     found: seq<Edge>)
    requires head < |order| == |dep|
    requires OrderedSoFar(q, start, bound, order, dep, head, if dep[head] < bound then |q.edges| else 0, found)
    ensures Ordered(q, start, bound, order, dep, head + 1, found)
  {
  }

  /** One edge, whatever the loop body does with it. */
  lemma OrderedEdge(q: Query, start: string, bound: nat, order: seq<string>, dep: seq<nat>, head: nat, n: nat,
                    found: seq<Edge>, order': seq<string>, dep': seq<nat>, found': seq<Edge>)
    requires n < |q.edges| && OrderedSoFar(q, start, bound, order, dep, head, n, found)
    requires if !Follows(q, n, order[head]) then order' == order && dep' == dep && found' == found
             else
               && found' == (if q.edges[n] in found then found else found + [q.edges[n]])
               && var y := Neighbor(q.direction, q.edges[n], order[head]).value;
                  if y in order then order' == order && dep' == dep
                  else order' == order + [y] && dep' == dep + [dep[head] + 1]
    ensures OrderedSoFar(q, start, bound, order', dep', head, n + 1, found')
  {
    hide Once, Neighbor, Arrived, Departed;
    var a := order[head];
    var arrived, departed := Arrived(q, start, bound, order, dep, head), Departed(q, bound, order, dep, head);
    if Follows(q, n, a) {
      var y := Neighbor(q.direction, q.edges[n], a).value;
      OnceMore(arrived, LedTo(q, a, n), y);
      OnceMore(departed, FollowedFrom(q, a, n), q.edges[n]);
      if y !in order { ArrivedMore(q, start, bound, order, dep, head, y, dep[head] + 1); }
    } else {
      assert LedTo(q, a, n) + [] == LedTo(q, a, n) && FollowedFrom(q, a, n) + [] == FollowedFrom(q, a, n);
    }
  }

  /** When every id has been taken off the queue, the depths are the true distances. */
  lemma {:induction false} ArrivedExact(q: Query, start: string, maxDepth: int, order: seq<string>, dep: seq<nat>,
                                        k: nat)
    requires Queue(q, start, Depth(maxDepth), order, dep) && k <= |order|
    requires ScannedBefore(q, Depth(maxDepth), order, dep, |order|)
    ensures Arrived(q, start, Depth(maxDepth), order, dep, k) == Arrivals(q, start, maxDepth, order, k)
    ensures Departed(q, Depth(maxDepth), order, dep, k) == Departures(q, start, maxDepth, order, k)
  {
    hide LedTo, FollowedFrom, Scanned;
    if k > 0 {
      ArrivedExact(q, start, maxDepth, order, dep, k - 1);
      AboveBound(q, start, maxDepth, order, dep, k - 1);
    }
  }

  lemma AboveBound(q: Query, start: string, maxDepth: int, order: seq<string>, dep: seq<nat>, j: nat)
    requires Queue(q, start, Depth(maxDepth), order, dep) && j < |order|
    requires ScannedBefore(q, Depth(maxDepth), order, dep, |order|)
    ensures dep[j] < Depth(maxDepth) <==> Within(q, start, order[j], maxDepth - 1)
  {
    DepthReaches(q, start, order[j], maxDepth);
    var bound: int := Depth(maxDepth);
    if Within(q, start, order[j], bound - 1) {
      var w :| IsWalkOf(q, w, start, order[j], bound - 1);
      assert |w| >= 1;
      QueueExact(q, start, bound, order, dep, order[j], bound - 1);
      var k :| 0 <= k < |order| && order[k] == order[j] && dep[k] <= bound - 1;
      assert k == j;
    }
    if dep[j] < bound { WithinMonotone(q, start, order[j], dep[j], bound - 1); }
  }

  lemma VisitOrder(q: Query, start: string, maxDepth: int, order: seq<string>, dep: seq<nat>, found: seq<Edge>)
    requires Queue(q, start, Depth(maxDepth), order, dep)
    requires ScannedBefore(q, Depth(maxDepth), order, dep, |order|)
    requires Ordered(q, start, Depth(maxDepth), order, dep, |order|, found)
    ensures InVisitOrder(q, start, maxDepth, order, found)
  {
    ArrivedExact(q, start, maxDepth, order, dep, |order|);
  }

  // ----- the queue invariant -----

  /**
   `order` is the visited dictionary in insertion order and `dep` the depth each
   id was queued with; the queue is the part of `order` not yet taken off.
   */
  ghost predicate Queue(q: Query, start: string, bound: nat, order: seq<string>, dep: seq<nat>) {
    && |order| == |dep| > 0
    && order[0] == start && dep[0] == 0
    && Sorting.Distinct(order)
    && (forall i, j :: 0 <= i <= j < |dep| ==> dep[i] <= dep[j])
    && (forall j :: 0 <= j < |order| ==> dep[j] <= bound && Within(q, start, order[j], dep[j]))
  }

  /** Queue depths span at most two consecutive values. */
  ghost predicate Narrow(dep: seq<nat>, head: nat) {
    head < |dep| ==> dep[|dep| - 1] <= dep[head] + 1
  }

  ghost predicate Has(order: seq<string>, dep: seq<nat>, x: string, d: int) {
    |order| == |dep| && exists k :: 0 <= k < |order| && order[k] == x && dep[k] <= d
  }

  /** The first `n` edges have been followed from the id at position `j`. */
  ghost predicate Scanned(q: Query, bound: nat, order: seq<string>, dep: seq<nat>, j: nat, n: nat)
    requires j < |order| == |dep|
  {
    dep[j] < bound ==>
      forall i: nat :: i < n && Follows(q, i, order[j]) ==>
        Has(order, dep, Neighbor(q.direction, q.edges[i], order[j]).value, dep[j] + 1)
  }

  ghost predicate ScannedBefore(q: Query, bound: nat, order: seq<string>, dep: seq<nat>, head: nat)
    requires head <= |order| == |dep|
  {
    forall j: nat :: j < head ==> Scanned(q, bound, order, dep, j, |q.edges|)
  }

  lemma HasAppend(order: seq<string>, dep: seq<nat>, x: string, d: int, y: string, e: nat)
    requires Has(order, dep, x, d)
    ensures Has(order + [y], dep + [e], x, d)
  {
    var k :| 0 <= k < |order| && order[k] == x && dep[k] <= d;
    assert (order + [y])[k] == x && (dep + [e])[k] <= d;
  }

  lemma ScannedAppend(q: Query, bound: nat, order: seq<string>, dep: seq<nat>, j: nat, n: nat, y: string, e: nat)
    requires j < |order| == |dep| && Scanned(q, bound, order, dep, j, n)
    ensures Scanned(q, bound, order + [y], dep + [e], j, n)
  {
    var order', dep' := order + [y], dep + [e];
    assert order'[j] == order[j] && dep'[j] == dep[j];
    if dep[j] < bound {
      forall i: nat | i < n && Follows(q, i, order[j])
        ensures Has(order', dep', Neighbor(q.direction, q.edges[i], order[j]).value, dep[j] + 1)
      {
        HasAppend(order, dep, Neighbor(q.direction, q.edges[i], order[j]).value, dep[j] + 1, y, e);
      }
    }
  }

  lemma QueueAppend(q: Query, start: string, bound: nat, order: seq<string>, dep: seq<nat>, head: nat, i: nat)
    requires Queue(q, start, bound, order, dep) && head < |order| && Narrow(dep, head)
    requires dep[head] < bound && Follows(q, i, order[head])
    requires Neighbor(q.direction, q.edges[i], order[head]).value !in order
    ensures Queue(q, start, bound, order + [Neighbor(q.direction, q.edges[i], order[head]).value],
                  dep + [dep[head] + 1])
  {
    var y := Neighbor(q.direction, q.edges[i], order[head]).value;
    assert Joins(q, i, order[head], y);
    WithinExtend(q, start, order[head], y, dep[head]);
  }

  /** Once every id nearer than `d` has been scanned, the queue holds the whole ball of radius `d`. */
  lemma {:induction false} BallQueued(q: Query, start: string, bound: nat, order: seq<string>, dep: seq<nat>,
                                      x: string, d: nat)
    requires Queue(q, start, bound, order, dep) && d <= bound
    requires forall j: nat :: j < |order| && dep[j] < d ==> Scanned(q, bound, order, dep, j, |q.edges|)
    requires Within(q, start, x, d)
    ensures Has(order, dep, x, d)
    decreases d
  {
    if d == 0 {
      WithinZero(q, start, x);
      assert order[0] == x;
    } else if Within(q, start, x, d - 1) {
      BallQueued(q, start, bound, order, dep, x, d - 1);
    } else {
      var y := WithinSplit(q, start, x, d - 1);
      BallQueued(q, start, bound, order, dep, y, d - 1);
      var j: nat :| j < |order| && order[j] == y && dep[j] <= d - 1;
      var i: nat :| Joins(q, i, y, x);
      assert Scanned(q, bound, order, dep, j, |q.edges|);
      assert Has(order, dep, x, dep[j] + 1);
    }
  }

  /** What an exhausted queue says about the ids it visited. */
  lemma QueueExact(q: Query, start: string, bound: nat, order: seq<string>, dep: seq<nat>, x: string, d: nat)
    requires Queue(q, start, bound, order, dep) && ScannedBefore(q, bound, order, dep, |order|)
    requires d <= bound
    ensures Within(q, start, x, d) <==> Has(order, dep, x, d)
  {
    if Within(q, start, x, d) {
      BallQueued(q, start, bound, order, dep, x, d);
    }
    if Has(order, dep, x, d) {
      var k :| 0 <= k < |order| && order[k] == x && dep[k] <= d;
      WithinMonotone(q, start, x, dep[k], d);
    }
  }

  lemma QueueNearestFirst(q: Query, start: string, bound: nat, order: seq<string>, dep: seq<nat>)
    requires Queue(q, start, bound, order, dep) && ScannedBefore(q, bound, order, dep, |order|)
    ensures NearestFirst(q, start, order)
  {
    forall i, j, d: int | 0 <= i < j < |order| && Within(q, start, order[j], d)
      ensures Within(q, start, order[i], d)
    {
      var w :| IsWalkOf(q, w, start, order[j], d);
      assert d >= 0;
      if d <= bound {
        QueueExact(q, start, bound, order, dep, order[j], d);
        var k :| 0 <= k < |order| && order[k] == order[j] && dep[k] <= d;
        assert k == j;
      }
      WithinMonotone(q, start, order[i], dep[i], d);
    }
  }

  // ----- the collected edges -----

  /** Edge `i` was met from an id before `head`, or among the first `n` edges scanned from `head`. */
  ghost predicate Met(q: Query, bound: nat, order: seq<string>, dep: seq<nat>, head: nat, n: nat, i: nat) {
    |order| == |dep| &&
    exists j: nat :: j < |order| && dep[j] < bound && (j < head || (j == head && i < n)) && Follows(q, i, order[j])
  }

  ghost predicate Collected(q: Query, bound: nat, order: seq<string>, dep: seq<nat>, head: nat, n: nat,
                            found: seq<Edge>, seen: set<EdgeKey>) {
    && Sorting.Distinct(found)
    && (forall e :: e in found ==> e in q.edges && e.key in seen)
    && (forall k :: k in seen ==> exists e :: e in found && e.key == k)
    && (forall i: nat :: i < |q.edges| ==> (q.edges[i] in found <==> Met(q, bound, order, dep, head, n, i)))
  }

  lemma MetAppend(q: Query, bound: nat, order: seq<string>, dep: seq<nat>, head: nat, n: nat, i: nat, y: string, e: nat)
    requires head < |order| == |dep|
    ensures Met(q, bound, order + [y], dep + [e], head, n, i) <==> Met(q, bound, order, dep, head, n, i)
  {
    var order', dep' := order + [y], dep + [e];
    assert forall j :: 0 <= j < |order| ==> order'[j] == order[j] && dep'[j] == dep[j];
  }

  lemma QueueExpands(q: Query, start: string, bound: nat, maxDepth: int, order: seq<string>, dep: seq<nat>, i: nat)
    requires bound == Depth(maxDepth)
    requires Queue(q, start, bound, order, dep) && ScannedBefore(q, bound, order, dep, |order|)
    ensures Met(q, bound, order, dep, |order|, 0, i) <==> Expands(q, start, maxDepth, i)
  {
    forall a { DepthReaches(q, start, a, maxDepth); }
    if Met(q, bound, order, dep, |order|, 0, i) {
      var j: nat :| j < |order| && dep[j] < bound && Follows(q, i, order[j]);
      WithinMonotone(q, start, order[j], dep[j], bound - 1);
    }
    if Expands(q, start, maxDepth, i) {
      var a :| Within(q, start, a, maxDepth - 1) && Follows(q, i, a);
      var w :| IsWalkOf(q, w, start, a, bound - 1);
      QueueExact(q, start, bound, order, dep, a, bound - 1);
    }
  }

  // ----- the loop -----

  lemma {:induction false} DistinctSize(s: seq<string>, t: set<string>)
    requires Sorting.Distinct(s) && forall x :: x in s ==> x in t
    ensures |s| <= |t|
  {
    if s != [] {
      var n := |s| - 1;
      assert s[n] in s;
      forall x | x in s[..n] ensures x in t - {s[n]} {}
      DistinctSize(s[..n], t - {s[n]});
    }
  }

  lemma QueueBounded(q: Query, start: string, bound: nat, order: seq<string>, dep: seq<nat>)
    requires Queue(q, start, bound, order, dep)
    ensures |order| <= |Ids(q, start)|
  {
    forall x | x in order ensures x in Ids(q, start) {
      var k :| 0 <= k < |order| && order[k] == x;
      WithinIds(q, start, x, dep[k]);
    }
    DistinctSize(order, Ids(q, start));
  }

  lemma CollectNext(q: Query, bound: nat, order: seq<string>, dep: seq<nat>, head: nat, n: nat, found: seq<Edge>,
                    seen: set<EdgeKey>, found': seq<Edge>, seen': set<EdgeKey>)
    requires DistinctKeys(q.edges) && n < |q.edges| && head < |order| == |dep| && dep[head] < bound
    requires Collected(q, bound, order, dep, head, n, found, seen)
    requires var e := q.edges[n];
             if Follows(q, n, order[head]) && e.key !in seen then found' == found + [e] && seen' == seen + {e.key}
             else found' == found && seen' == seen
    ensures Collected(q, bound, order, dep, head, n + 1, found', seen')
  {
    var e := q.edges[n];
    if e.key in seen {
      var e' :| e' in found && e'.key == e.key;
      assert e' == e;
    }
    forall i: nat | i < |q.edges| ensures q.edges[i] in found' <==> Met(q, bound, order, dep, head, n + 1, i) {
      assert q.edges[i] in found <==> Met(q, bound, order, dep, head, n, i);
      if i == n && Follows(q, n, order[head]) {
        assert Met(q, bound, order, dep, head, n + 1, i);
      } else if Met(q, bound, order, dep, head, n + 1, i) {
        assert Met(q, bound, order, dep, head, n, i);
      }
      if q.edges[i] == e { assert i == n; }
    }
    forall k | k in seen' ensures exists f :: f in found' && f.key == k {
      if k in seen {
        var f :| f in found && f.key == k;
        assert f in found';
      } else {
        assert e in found';
      }
    }
  }

  lemma CollectedAppend(q: Query, bound: nat, order: seq<string>, dep: seq<nat>, head: nat, n: nat, found: seq<Edge>,
                        seen: set<EdgeKey>, y: string, e: nat)
    requires head < |order| == |dep| && Collected(q, bound, order, dep, head, n, found, seen)
    ensures Collected(q, bound, order + [y], dep + [e], head, n, found, seen)
  {
    forall i: nat | i < |q.edges|
      ensures q.edges[i] in found <==> Met(q, bound, order + [y], dep + [e], head, n, i)
    {
      MetAppend(q, bound, order, dep, head, n, i, y, e);
    }
  }

  lemma ScannedBeforeAppend(q: Query, bound: nat, order: seq<string>, dep: seq<nat>, head: nat, y: string, e: nat)
    requires head <= |order| == |dep| && ScannedBefore(q, bound, order, dep, head)
    ensures ScannedBefore(q, bound, order + [y], dep + [e], head)
  {
    forall j: nat | j < head ensures Scanned(q, bound, order + [y], dep + [e], j, |q.edges|) {
      ScannedAppend(q, bound, order, dep, j, |q.edges|, y, e);
    }
  }

  lemma ScannedNext(q: Query, bound: nat, order: seq<string>, dep: seq<nat>, j: nat, n: nat)
    requires j < |order| == |dep| && Scanned(q, bound, order, dep, j, n)
    requires Follows(q, n, order[j]) ==>
               Has(order, dep, Neighbor(q.direction, q.edges[n], order[j]).value, dep[j] + 1)
    ensures Scanned(q, bound, order, dep, j, n + 1)
  {
  }

  /** An id already visited was queued with a depth of at most one more than the current one. */
  lemma VisitedHas(q: Query, start: string, bound: nat, order: seq<string>, dep: seq<nat>, head: nat, x: string)
    requires Queue(q, start, bound, order, dep) && head < |dep| && Narrow(dep, head) && x in order
    ensures Has(order, dep, x, dep[head] + 1)
  {
    var k :| 0 <= k < |order| && order[k] == x;
    assert dep[k] <= dep[|dep| - 1];
  }

  lemma Advance(q: Query, bound: nat, order: seq<string>, dep: seq<nat>, head: nat, n: nat, found: seq<Edge>,
                seen: set<EdgeKey>)
    requires head < |order| == |dep| && Narrow(dep, head)
    requires forall i, j :: 0 <= i <= j < |dep| ==> dep[i] <= dep[j]
    requires dep[head] < bound ==> n == |q.edges|
    requires ScannedBefore(q, bound, order, dep, head) && Scanned(q, bound, order, dep, head, n)
    requires Collected(q, bound, order, dep, head, n, found, seen)
    ensures Narrow(dep, head + 1) && ScannedBefore(q, bound, order, dep, head + 1)
    ensures Collected(q, bound, order, dep, head + 1, 0, found, seen)
  {
    forall i: nat | i < |q.edges| ensures q.edges[i] in found <==> Met(q, bound, order, dep, head + 1, 0, i) {
      assert Met(q, bound, order, dep, head + 1, 0, i) <==> Met(q, bound, order, dep, head, n, i);
    }
  }

  /** Everything the loop keeps while it is at edge `n` of the id at position `head`. */
  ghost predicate Searching(q: Query, start: string, bound: nat, order: seq<string>, dep: seq<nat>, head: nat, n: nat,
                            found: seq<Edge>, seen: set<EdgeKey>) {
    && Queue(q, start, bound, order, dep) && head < |order| && Narrow(dep, head) && dep[head] < bound
    && ScannedBefore(q, bound, order, dep, head) && Scanned(q, bound, order, dep, head, n)
    && Collected(q, bound, order, dep, head, n, found, seen)
  }

  /** One edge that is not followed. */
  lemma SearchSkip(q: Query, start: string, bound: nat, order: seq<string>, dep: seq<nat>, head: nat, n: nat,
                   found: seq<Edge>, seen: set<EdgeKey>)
    requires DistinctKeys(q.edges) && n < |q.edges|
    requires Searching(q, start, bound, order, dep, head, n, found, seen) && !Follows(q, n, order[head])
    ensures Searching(q, start, bound, order, dep, head, n + 1, found, seen)
  {
    CollectNext(q, bound, order, dep, head, n, found, seen, found, seen);
  }

  /** One edge that leads to an id already visited. */
  lemma SearchOld(q: Query, start: string, bound: nat, order: seq<string>, dep: seq<nat>, head: nat, n: nat,
                  found: seq<Edge>, seen: set<EdgeKey>, found': seq<Edge>, seen': set<EdgeKey>)
    requires DistinctKeys(q.edges) && n < |q.edges|
    requires Searching(q, start, bound, order, dep, head, n, found, seen) && Follows(q, n, order[head])
    requires Neighbor(q.direction, q.edges[n], order[head]).value in order
    requires if q.edges[n].key in seen then found' == found && seen' == seen
             else found' == found + [q.edges[n]] && seen' == seen + {q.edges[n].key}
    ensures Searching(q, start, bound, order, dep, head, n + 1, found', seen')
  {
    CollectNext(q, bound, order, dep, head, n, found, seen, found', seen');
    VisitedHas(q, start, bound, order, dep, head, Neighbor(q.direction, q.edges[n], order[head]).value);
    ScannedNext(q, bound, order, dep, head, n);
  }

  /** One edge that leads to a new id. */
  lemma SearchNew(q: Query, start: string, bound: nat, order: seq<string>, dep: seq<nat>, head: nat, n: nat,
                  found: seq<Edge>, seen: set<EdgeKey>)
    requires n < |q.edges|
    requires Searching(q, start, bound, order, dep, head, n, found, seen) && Follows(q, n, order[head])
    requires Neighbor(q.direction, q.edges[n], order[head]).value !in order
    ensures Searching(q, start, bound, order + [Neighbor(q.direction, q.edges[n], order[head]).value],
                      dep + [dep[head] + 1], head, n, found, seen)
  {
    var y, e := Neighbor(q.direction, q.edges[n], order[head]).value, dep[head] + 1;
    QueueAppend(q, start, bound, order, dep, head, n);
    ScannedBeforeAppend(q, bound, order, dep, head, y, e);
    ScannedAppend(q, bound, order, dep, head, n, y, e);
    CollectedAppend(q, bound, order, dep, head, n, found, seen, y, e);
  }

  /** One edge, whatever the loop body does with it. */
  lemma SearchEdge(q: Query, start: string, bound: nat, order: seq<string>, dep: seq<nat>, head: nat, n: nat,
                   found: seq<Edge>, seen: set<EdgeKey>, order': seq<string>, dep': seq<nat>, found': seq<Edge>,
                   seen': set<EdgeKey>)
    requires DistinctKeys(q.edges) && n < |q.edges| && head < |order| == |dep|
    requires Searching(q, start, bound, order, dep, head, n, found, seen)
    requires var next := Neighbor(q.direction, q.edges[n], order[head]);
             if !Allowed(q, q.edges[n]) || next.None? then
               order' == order && dep' == dep && found' == found && seen' == seen
             else
               && (if next.value in order then order' == order && dep' == dep
                   else order' == order + [next.value] && dep' == dep + [dep[head] + 1])
               && (if q.edges[n].key in seen then found' == found && seen' == seen
                   else found' == found + [q.edges[n]] && seen' == seen + {q.edges[n].key})
    ensures Searching(q, start, bound, order', dep', head, n + 1, found', seen')
  {
    hide Searching, DistinctKeys;
    if !Follows(q, n, order[head]) {
      SearchSkip(q, start, bound, order, dep, head, n, found, seen);
    } else {
      var y := Neighbor(q.direction, q.edges[n], order[head]).value;
      if y !in order {
        SearchNew(q, start, bound, order, dep, head, n, found, seen);
        assert order'[|order|] == y;
      }
      SearchOld(q, start, bound, order', dep', head, n, found, seen, found', seen');
    }
  }

  /** The deque holds the ids of `order` from position `head` on, each with its depth. */
  ghost predicate Mirrors(frontier: seq<(string, int)>, order: seq<string>, dep: seq<nat>, head: nat) {
    && head <= |order| == |dep| && |frontier| == |order| - head
    && forall k :: head <= k < |order| ==> frontier[k - head] == (order[k], dep[k])
  }

  lemma MirrorsAppend(frontier: seq<(string, int)>, order: seq<string>, dep: seq<nat>, head: nat, y: string, e: nat)
    requires Mirrors(frontier, order, dep, head)
    ensures Mirrors(frontier + [(y, e)], order + [y], dep + [e], head)
  {
  }

  /** The loop body at an id above the depth bound: scan every edge once. */
  method Scan(q: Query, ghost start: string, ghost bound: nat, order0: seq<string>, ghost dep0: seq<nat>,
              frontier0: seq<(string, int)>, ghost head: nat, found0: seq<Edge>, seen0: set<EdgeKey>, current: string,
              depth: int)
    returns (order: seq<string>, ghost dep: seq<nat>, frontier: seq<(string, int)>,
             found: seq<Edge>, seen: set<EdgeKey>)
    requires DistinctKeys(q.edges)
    requires Searching(q, start, bound, order0, dep0, head, 0, found0, seen0)
    requires current == order0[head] && depth == dep0[head]
    requires Mirrors(frontier0, order0, dep0, head + 1)
    requires OrderedSoFar(q, start, bound, order0, dep0, head, 0, found0)
    ensures Searching(q, start, bound, order, dep, head, |q.edges|, found, seen)
    ensures OrderedSoFar(q, start, bound, order, dep, head, |q.edges|, found)
    ensures Mirrors(frontier, order, dep, head + 1)
  {
    hide *;
    order, dep, frontier, found, seen := order0, dep0, frontier0, found0, seen0;
    SearchingSizes(q, start, bound, order, dep, head, 0, found, seen);
    for n := 0 to |q.edges|
      invariant head < |order| == |dep| && order[head] == current && dep[head] == depth
      invariant Searching(q, start, bound, order, dep, head, n, found, seen)
      invariant OrderedSoFar(q, start, bound, order, dep, head, n, found)
      invariant Mirrors(frontier, order, dep, head + 1)
    {
      var edge := q.edges[n];
      var neighbor := Neighbor(q.direction, edge, current);
      ghost var order1, dep1, found1, seen1 := order, dep, found, seen;
      if Allowed(q, edge) && neighbor.Some? {
        if edge.key !in seen {
          seen := seen + {edge.key};
          found := found + [edge];
        }
        if neighbor.value !in order {
          MirrorsAppend(frontier, order, dep, head + 1, neighbor.value, depth + 1);
          order, dep := order + [neighbor.value], dep + [depth + 1];
          frontier := frontier + [(neighbor.value, depth + 1)];
        }
      }
      ScanEdge(q, start, bound, order1, dep1, head, n, found1, seen1, order, dep, found, seen);
    }
  }

  lemma SearchingSizes(q: Query, start: string, bound: nat, order: seq<string>, dep: seq<nat>, head: nat, n: nat,
                       found: seq<Edge>, seen: set<EdgeKey>)
    requires Searching(q, start, bound, order, dep, head, n, found, seen)
    ensures head < |order| == |dep|
  {
  }

  /** Edges are recognised by their keys. */
  lemma SeenIsFound(q: Query, start: string, bound: nat, order: seq<string>, dep: seq<nat>, head: nat, n: nat,
                    found: seq<Edge>, seen: set<EdgeKey>)
    requires DistinctKeys(q.edges) && n < |q.edges| && Searching(q, start, bound, order, dep, head, n, found, seen)
    ensures q.edges[n].key in seen <==> q.edges[n] in found
  {
    if q.edges[n].key in seen {
      var e :| e in found && e.key == q.edges[n].key;
      assert e == q.edges[n];
    }
  }

  /** One edge, for everything the loop keeps. */
  lemma ScanEdge(q: Query, start: string, bound: nat, order: seq<string>, dep: seq<nat>, head: nat, n: nat,
                 found: seq<Edge>, seen: set<EdgeKey>, order': seq<string>, dep': seq<nat>, found': seq<Edge>,
                 seen': set<EdgeKey>)
    requires DistinctKeys(q.edges) && n < |q.edges| && head < |order| == |dep|
    requires Searching(q, start, bound, order, dep, head, n, found, seen)
    requires OrderedSoFar(q, start, bound, order, dep, head, n, found)
    requires var next := Neighbor(q.direction, q.edges[n], order[head]);
             if !Allowed(q, q.edges[n]) || next.None? then
               order' == order && dep' == dep && found' == found && seen' == seen
             else
               && (if next.value in order then order' == order && dep' == dep
                   else order' == order + [next.value] && dep' == dep + [dep[head] + 1])
               && (if q.edges[n].key in seen then found' == found && seen' == seen
                   else found' == found + [q.edges[n]] && seen' == seen + {q.edges[n].key})
    ensures Searching(q, start, bound, order', dep', head, n + 1, found', seen')
    ensures OrderedSoFar(q, start, bound, order', dep', head, n + 1, found')
  {
    hide Searching, OrderedSoFar, DistinctKeys;
    SeenIsFound(q, start, bound, order, dep, head, n, found, seen);
    SearchEdge(q, start, bound, order, dep, head, n, found, seen, order', dep', found', seen');
    OrderedEdge(q, start, bound, order, dep, head, n, found, order', dep', found');
  }

  /** What the loop keeps between two ids. */
  ghost predicate Idle(q: Query, start: string, bound: nat, order: seq<string>, dep: seq<nat>, head: nat,
                       found: seq<Edge>, seen: set<EdgeKey>) {
    && Queue(q, start, bound, order, dep) && head <= |order| && Narrow(dep, head)
    && ScannedBefore(q, bound, order, dep, head)
    && Collected(q, bound, order, dep, head, 0, found, seen)
  }

  lemma IdleBounded(q: Query, start: string, bound: nat, order: seq<string>, dep: seq<nat>, head: nat,
                    found: seq<Edge>, seen: set<EdgeKey>)
    requires Idle(q, start, bound, order, dep, head, found, seen)
    ensures head <= |order| == |dep| <= |Ids(q, start)|
  {
    QueueBounded(q, start, bound, order, dep);
  }

  lemma IdleStart(q: Query, start: string)
    ensures forall bound: nat :: Idle(q, start, bound, [start], [0], 0, [], {})
  {
    WithinSelf(q, start, 0);
  }

  lemma NextMirrored(frontier: seq<(string, int)>, order: seq<string>, dep: seq<nat>, head: nat, maxDepth: int)
    requires Mirrors(frontier, order, dep, head) && frontier != []
    ensures head < |order| == |dep| && frontier[0] == (order[head], dep[head])
    ensures Mirrors(frontier[1..], order, dep, head + 1)
    ensures dep[head] < maxDepth <==> dep[head] < Depth(maxDepth)
  {
  }

  lemma NoneMirrored(order: seq<string>, dep: seq<nat>, head: nat)
    requires Mirrors([], order, dep, head)
    ensures head == |order|
  {
  }

  lemma IdleEnds(q: Query, start: string, bound: nat, order: seq<string>, dep: seq<nat>, head: nat, found: seq<Edge>,
                 seen: set<EdgeKey>)
    requires Idle(q, start, bound, order, dep, head, found, seen) && head == |order|
    ensures Queue(q, start, bound, order, dep) && ScannedBefore(q, bound, order, dep, |order|)
  {
  }

  lemma IdleEnter(q: Query, start: string, bound: nat, order: seq<string>, dep: seq<nat>, head: nat, found: seq<Edge>,
                  seen: set<EdgeKey>)
    requires Idle(q, start, bound, order, dep, head, found, seen) && head < |order| && dep[head] < bound
    ensures Searching(q, start, bound, order, dep, head, 0, found, seen)
  {
  }

  lemma IdleSkip(q: Query, start: string, bound: nat, order: seq<string>, dep: seq<nat>, head: nat, found: seq<Edge>,
                 seen: set<EdgeKey>)
    requires Idle(q, start, bound, order, dep, head, found, seen) && head < |order| && dep[head] >= bound
    ensures Idle(q, start, bound, order, dep, head + 1, found, seen)
  {
    Advance(q, bound, order, dep, head, 0, found, seen);
  }

  lemma SearchLeave(q: Query, start: string, bound: nat, order: seq<string>, dep: seq<nat>, head: nat,
                    found: seq<Edge>, seen: set<EdgeKey>)
    requires Searching(q, start, bound, order, dep, head, |q.edges|, found, seen)
    ensures Idle(q, start, bound, order, dep, head + 1, found, seen)
  {
    Advance(q, bound, order, dep, head, |q.edges|, found, seen);
  }

  lemma IdleExact(q: Query, start: string, maxDepth: int, order: seq<string>, dep: seq<nat>, head: nat,
                  found: seq<Edge>, seen: set<EdgeKey>)
    requires Idle(q, start, Depth(maxDepth), order, dep, head, found, seen) && head == |order|
    ensures Sorting.Distinct(order) && |order| > 0 && order[0] == start
    ensures forall x :: x in order <==> Reached(q, start, x, maxDepth)
    ensures NearestFirst(q, start, order)
    ensures Sorting.Distinct(found) && forall e :: e in found ==> e in q.edges
    ensures forall i: nat :: i < |q.edges| ==> (q.edges[i] in found <==> Expands(q, start, maxDepth, i))
  {
    var bound := Depth(maxDepth);
    forall x ensures x in order <==> Reached(q, start, x, maxDepth) {
      DepthReaches(q, start, x, maxDepth);
      QueueExact(q, start, bound, order, dep, x, bound);
      if x in order {
        var k :| 0 <= k < |order| && order[k] == x;
        assert Has(order, dep, x, bound);
      }
    }
    QueueNearestFirst(q, start, bound, order, dep);
    forall i: nat | i < |q.edges| ensures q.edges[i] in found <==> Expands(q, start, maxDepth, i) {
      QueueExpands(q, start, bound, maxDepth, order, dep, i);
    }
  }

  /**
   The traversal from an existing start: the ids in the order they are visited
   and the edges in the order they are first met.
   */
  method BreadthFirst(q: Query, start: string, maxDepth: int) returns (order: seq<string>, found: seq<Edge>)
    requires DistinctKeys(q.edges)
    ensures Sorting.Distinct(order) && |order| > 0 && order[0] == start
    ensures forall x :: x in order <==> Reached(q, start, x, maxDepth)
    ensures NearestFirst(q, start, order)
    ensures Sorting.Distinct(found) && forall e :: e in found ==> e in q.edges
    ensures forall i: nat :: i < |q.edges| ==> (q.edges[i] in found <==> Expands(q, start, maxDepth, i))
    ensures InVisitOrder(q, start, maxDepth, order, found)
  {
    ghost var bound := Depth(maxDepth);
    order := [start];
    found := [];
    ghost var dep: seq<nat> := [0];
    var seen: set<EdgeKey> := {};
    var frontier := [(start, 0)];
    ghost var head := 0;
    IdleStart(q, start);
    OrderedStart(q, start, bound);
    assert Mirrors(frontier, order, dep, head);
    hide *;
    while frontier != []
      invariant Idle(q, start, bound, order, dep, head, found, seen)
      invariant Ordered(q, start, bound, order, dep, head, found)
      invariant Mirrors(frontier, order, dep, head)
      decreases |Ids(q, start)| - head
    {
      IdleBounded(q, start, bound, order, dep, head, found, seen);
      NextMirrored(frontier, order, dep, head, maxDepth);
      var (current, depth) := frontier[0];
      frontier := frontier[1..];
      OrderedEnter(q, start, bound, order, dep, head, found);
      if depth < maxDepth {
        IdleEnter(q, start, bound, order, dep, head, found, seen);
        order, dep, frontier, found, seen :=
          Scan(q, start, bound, order, dep, frontier, head, found, seen, current, depth);
        SearchLeave(q, start, bound, order, dep, head, found, seen);
      } else {
        IdleSkip(q, start, bound, order, dep, head, found, seen);
      }
      OrderedLeave(q, start, bound, order, dep, head, found);
      head := head + 1;
    }
    NoneMirrored(order, dep, head);
    IdleEnds(q, start, bound, order, dep, head, found, seen);
    VisitOrder(q, start, maxDepth, order, dep, found);
    IdleExact(q, start, maxDepth, order, dep, head, found, seen);
  }
}

/**
 What a bounded traversal is about, independent of any search order: which ids
 are joined by a walk of at most `d` allowed, correctly oriented edges.
 */
module GraphWalks {
  import opened Outcomes
  import opened GraphModel

  /** The edges, the edge-type filter (empty means every type) and the direction. */
  datatype Query = Query(edges: seq<Edge>, types: set<string>, direction: string)

  predicate Allowed(q: Query, e: Edge) {
    q.types == {} || e.key.edgeType in q.types
  }

  /** The id one edge leads to from `current`, if the direction lets it be followed. */
  function Neighbor(direction: string, e: Edge, current: string): Option<string> {
    if direction in {"out", "both"} && e.key.sourceId == current then Some(e.key.targetId)
    else if direction in {"in", "both"} && e.key.targetId == current then Some(e.key.sourceId)
    else None
  }

  predicate Follows(q: Query, i: nat, a: string) {
    i < |q.edges| && Allowed(q, q.edges[i]) && Neighbor(q.direction, q.edges[i], a).Some?
  }

  predicate Joins(q: Query, i: nat, a: string, b: string) {
    Follows(q, i, a) && Neighbor(q.direction, q.edges[i], a).value == b
  }

  ghost predicate Adjacent(q: Query, a: string, b: string) {
    exists i: nat :: Joins(q, i, a, b)
  }

  /** A nonempty list of ids, each adjacent to the one before it. */
  ghost predicate IsWalk(q: Query, w: seq<string>) {
    |w| > 0 && forall i :: 0 < i < |w| ==> Adjacent(q, w[i - 1], w[i])
  }

  ghost predicate IsWalkOf(q: Query, w: seq<string>, a: string, b: string, d: int) {
    IsWalk(q, w) && w[0] == a && w[|w| - 1] == b && |w| - 1 <= d
  }

  /** `b` is reached from `a` by a walk of at most `d` edges. */
  ghost predicate Within(q: Query, a: string, b: string, d: int) {
    exists w :: IsWalkOf(q, w, a, b, d)
  }

  lemma WithinSelf(q: Query, a: string, d: nat)
    ensures Within(q, a, a, d)
  {
    assert IsWalkOf(q, [a], a, a, d);
  }

  lemma WithinZero(q: Query, a: string, b: string)
    ensures Within(q, a, b, 0) <==> a == b
  {
    WithinSelf(q, a, 0);
  }

  lemma WithinMonotone(q: Query, a: string, b: string, d: int, d': int)
    requires d <= d' && Within(q, a, b, d)
    ensures Within(q, a, b, d')
  {
    var w :| IsWalkOf(q, w, a, b, d);
    assert IsWalkOf(q, w, a, b, d');
  }

  lemma WithinExtend(q: Query, a: string, b: string, c: string, d: int)
    requires Within(q, a, b, d) && Adjacent(q, b, c)
    ensures Within(q, a, c, d + 1)
  {
    var w :| IsWalkOf(q, w, a, b, d);
    assert IsWalkOf(q, w + [c], a, c, d + 1);
  }

  /** The last edge of a walk can be split off, unless a shorter walk does. */
  lemma WithinSplit(q: Query, a: string, c: string, d: nat) returns (b: string)
    requires Within(q, a, c, d + 1)
    ensures Within(q, a, c, d) || (Within(q, a, b, d) && Adjacent(q, b, c))
  {
    var w :| IsWalkOf(q, w, a, c, d + 1);
    if |w| == 1 {
      WithinSelf(q, a, d);
      b := a;
    } else {
      b := w[|w| - 2];
      assert IsWalkOf(q, w[..|w| - 1], a, b, d);
    }
  }

  // ----- the filter -----

  /** The edge leads from `a` to `b`: along its arrow, against it, or either way. */
  ghost predicate Leads(direction: string, e: Edge, a: string, b: string) {
    || ((direction == "out" || direction == "both") && e.key.sourceId == a && e.key.targetId == b)
    || ((direction == "in" || direction == "both") && e.key.targetId == a && e.key.sourceId == b)
  }

  /** What is followed: with a filter nothing but edges of its types, without one every edge, in the given direction. */
  lemma JoinsExactly(q: Query, i: nat, a: string, b: string)
    ensures Joins(q, i, a, b) <==>
              && i < |q.edges| && Leads(q.direction, q.edges[i], a, b)
              && (q.types != {} ==> q.edges[i].key.edgeType in q.types)
    ensures Follows(q, i, a) <==> exists c :: Joins(q, i, a, c)
  {
    if Follows(q, i, a) { assert Joins(q, i, a, Neighbor(q.direction, q.edges[i], a).value); }
  }

  lemma AdjacentExactly(q: Query, a: string, b: string)
    ensures Adjacent(q, a, b) <==>
            exists e :: e in q.edges && Leads(q.direction, e, a, b) && (q.types != {} ==> e.key.edgeType in q.types)
  {
    hide Leads, Joins;
    forall i: nat { JoinsExactly(q, i, a, b); }
    if e :| e in q.edges && Leads(q.direction, e, a, b) && (q.types != {} ==> e.key.edgeType in q.types) {
      var i: nat :| i < |q.edges| && q.edges[i] == e;
      assert Joins(q, i, a, b);
    }
  }

  /** The edges whose type is among the given ones, in their order. */
  ghost function OfTypes(edges: seq<Edge>, types: set<string>): seq<Edge> {
    if edges == [] then []
    else
      var n := |edges| - 1;
      OfTypes(edges[..n], types) + (if edges[n].key.edgeType in types then [edges[n]] else [])
  }

  lemma {:induction false} OfTypesExact(edges: seq<Edge>, types: set<string>, e: Edge)
    ensures e in OfTypes(edges, types) <==> e in edges && e.key.edgeType in types
  {
    if edges != [] {
      var n := |edges| - 1;
      assert edges == edges[..n] + [edges[n]];
      OfTypesExact(edges[..n], types, e);
    }
  }

  /** The query without a filter on the edges the filter lets through. */
  ghost function Unfiltered(q: Query): Query {
    Query(OfTypes(q.edges, q.types), {}, q.direction)
  }

  /** Walks with a filter are the walks without one over the edges of its types. */
  lemma FilterRestricts(q: Query, a: string, b: string, d: int)
    requires q.types != {}
    ensures Adjacent(q, a, b) <==> Adjacent(Unfiltered(q), a, b)
    ensures Within(q, a, b, d) <==> Within(Unfiltered(q), a, b, d)
  {
    hide Adjacent, Leads;
    forall x, y ensures Adjacent(q, x, y) <==> Adjacent(Unfiltered(q), x, y) {
      AdjacentExactly(q, x, y);
      AdjacentExactly(Unfiltered(q), x, y);
      forall e { OfTypesExact(q.edges, q.types, e); }
    }
    forall w ensures IsWalkOf(q, w, a, b, d) <==> IsWalkOf(Unfiltered(q), w, a, b, d) {}
  }

  // ----- direction duality -----

  function Opposite(direction: string): string {
    if direction == "out" then "in" else if direction == "in" then "out" else direction
  }

  function Reverse(q: Query): Query {
    q.(direction := Opposite(q.direction))
  }

  lemma AdjacentReverse(q: Query, a: string, b: string)
    ensures Adjacent(q, a, b) <==> Adjacent(Reverse(q), b, a)
  {
    forall i: nat ensures Joins(q, i, a, b) <==> Joins(Reverse(q), i, b, a) {}
    if Adjacent(q, a, b) {
      var i: nat :| Joins(q, i, a, b);
      assert Joins(Reverse(q), i, b, a);
    }
  }

  function Reversed(w: seq<string>): (r: seq<string>)
    ensures |r| == |w| && forall i :: 0 <= i < |w| ==> r[i] == w[|w| - 1 - i]
  {
    seq(|w|, i requires 0 <= i < |w| => w[|w| - 1 - i])
  }

  lemma WithinReversed(q: Query, a: string, b: string, d: int)
    requires Within(q, a, b, d)
    ensures Within(Reverse(q), b, a, d)
  {
    var w :| IsWalkOf(q, w, a, b, d);
    var r := Reversed(w);
    forall i | 0 < i < |r| ensures Adjacent(Reverse(q), r[i - 1], r[i]) {
      var j := |w| - i;
      assert r[i] == w[j - 1] && r[i - 1] == w[j];
      AdjacentReverse(q, w[j - 1], w[j]);
    }
    assert IsWalkOf(Reverse(q), r, b, a, d);
  }

  /**
   `b` is in the `out` traversal from `a` exactly when `a` is in the `in`
   traversal from `b` at the same depth; for `both` the relation is symmetric.
   */
  lemma DirectionDuality(edges: seq<Edge>, types: set<string>, a: string, b: string, d: int)
    ensures Within(Query(edges, types, "out"), a, b, d) <==> Within(Query(edges, types, "in"), b, a, d)
    ensures Within(Query(edges, types, "both"), a, b, d) <==> Within(Query(edges, types, "both"), b, a, d)
  {
    var o, n, t := Query(edges, types, "out"), Query(edges, types, "in"), Query(edges, types, "both");
    assert Reverse(o) == n && Reverse(n) == o && Reverse(t) == t;
    if Within(o, a, b, d) { WithinReversed(o, a, b, d); }
    if Within(n, b, a, d) { WithinReversed(n, b, a, d); }
    if Within(t, a, b, d) { WithinReversed(t, a, b, d); }
    if Within(t, b, a, d) { WithinReversed(t, b, a, d); }
  }

  // ----- saturation -----

  /** The start and every endpoint of an edge, dangling or not. */
  function Ids(q: Query, a: string): set<string> {
    {a} + (set e | e in q.edges :: e.key.sourceId) + (set e | e in q.edges :: e.key.targetId)
  }

  ghost function Ball(q: Query, a: string, d: int): set<string> {
    set x | x in Ids(q, a) && Within(q, a, x, d)
  }

  lemma WithinIds(q: Query, a: string, b: string, d: int)
    requires Within(q, a, b, d)
    ensures b in Ids(q, a)
  {
    var w :| IsWalkOf(q, w, a, b, d);
    if |w| > 1 {
      assert Adjacent(q, w[|w| - 2], w[|w| - 1]);
      var i: nat :| Joins(q, i, w[|w| - 2], w[|w| - 1]);
      assert q.edges[i] in q.edges;
    }
  }

  lemma BallStep(q: Query, a: string, d: nat, d': nat)
    requires d <= d' && Ball(q, a, d) == Ball(q, a, d + 1)
    ensures Ball(q, a, d) == Ball(q, a, d')
    decreases d'
  {
    if d < d' {
      BallStep(q, a, d, d' - 1);
      forall x | x in Ball(q, a, d') ensures x in Ball(q, a, d) {
        var y := WithinSplit(q, a, x, d' - 1);
        if Within(q, a, y, d' - 1) && Adjacent(q, y, x) {
          WithinIds(q, a, y, d' - 1);
          assert y in Ball(q, a, d);
          WithinExtend(q, a, y, x, d);
          assert x in Ball(q, a, d + 1);
        }
      }
      forall x | x in Ball(q, a, d) ensures x in Ball(q, a, d') {
        WithinMonotone(q, a, x, d, d');
      }
    }
  }

  /** Until the ball stops growing it gains an id at every depth. */
  lemma {:induction false} BallGrows(q: Query, a: string, d: nat)
    ensures |Ball(q, a, d)| > d || exists k :: 0 <= k < d && Ball(q, a, k) == Ball(q, a, k + 1)
  {
    if d == 0 {
      WithinSelf(q, a, 0);
      assert a in Ball(q, a, 0);
    } else {
      BallGrows(q, a, d - 1);
      if |Ball(q, a, d - 1)| > d - 1 && Ball(q, a, d - 1) != Ball(q, a, d - 1 + 1) {
        forall x | x in Ball(q, a, d - 1) ensures x in Ball(q, a, d) {
          WithinMonotone(q, a, x, d - 1, d);
        }
        ProperSubset(Ball(q, a, d - 1), Ball(q, a, d));
      }
    }
  }

  lemma ProperSubset(s: set<string>, t: set<string>)
    requires s < t
    ensures |s| < |t|
  {
    var x :| x in t && x !in s;
    SubsetSize(s, t - {x});
  }

  lemma {:induction false} SubsetSize(s: set<string>, t: set<string>)
    requires s <= t
    ensures |s| <= |t|
  {
    if s != {} {
      var x :| x in s;
      SubsetSize(s - {x}, t - {x});
    }
  }

  lemma BallInIds(q: Query, a: string, d: int)
    ensures Ball(q, a, d) <= Ids(q, a)
  {
    hide Ids, Within;
  }

  /** The ball has stopped growing before it would outgrow the ids there are. */
  lemma BallStops(q: Query, a: string) returns (k: nat)
    ensures k < |Ids(q, a)| && Ball(q, a, k) == Ball(q, a, k + 1)
  {
    hide Ball, Ids;
    var n := |Ids(q, a)|;
    BallGrows(q, a, n);
    BallInIds(q, a, n);
    SubsetSize(Ball(q, a, n), Ids(q, a));
    k :| 0 <= k < n && Ball(q, a, k) == Ball(q, a, k + 1);
  }

  /**
   Deepening a traversal beyond the number of distinct ids finds nothing new:
   one walk with fewer edges than there are ids already reaches everything.
   */
  lemma Saturation(q: Query, a: string, b: string, d: int)
    requires d >= |Ids(q, a)| - 1
    ensures Within(q, a, b, d) <==> Within(q, a, b, |Ids(q, a)| - 1)
  {
    var n := |Ids(q, a)|;
    var k := BallStops(q, a);
    if Within(q, a, b, d) {
      WithinIds(q, a, b, d);
      BallStep(q, a, k, d);
      assert b in Ball(q, a, d);
      assert Within(q, a, b, k);
      WithinMonotone(q, a, b, k, n - 1);
    }
    if Within(q, a, b, n - 1) { WithinMonotone(q, a, b, n - 1, d); }
  }
}

/** The hashing embedding and cosine similarity over exact reals. */
module Embeddings {
  import opened PyText

  // MD5 is an arbitrary function to a slot and a sign, and the square root an
  // arbitrary function with the defining property of one.

  // ----- cosine similarity -----

  function Dot(a: seq<real>, b: seq<real>): real
    requires |a| == |b|
  {
    if a == [] then 0.0 else Dot(a[..|a| - 1], b[..|b| - 1]) + a[|a| - 1] * b[|b| - 1]
  }

  ghost predicate IsSqrt(sqrt: real -> real) {
    forall x :: x >= 0.0 ==> sqrt(x) >= 0.0 && sqrt(x) * sqrt(x) == x
  }

  function Norm(sqrt: real -> real, v: seq<real>): real {
    sqrt(Dot(v, v))
  }

  function Cosine(sqrt: real -> real, left: seq<real>, right: seq<real>): real {
    if left == [] || right == [] || |left| != |right| then 0.0
    else
      var l, r := Norm(sqrt, left), Norm(sqrt, right);
      if l == 0.0 || r == 0.0 then 0.0
      else
        NonZeroProduct(l, r);
        Dot(left, right) / (l * r)
  }

  lemma ProductPositive(u: real, v: real)
    requires u > 0.0 && v > 0.0
    ensures u * v > 0.0
  {
  }

  lemma NonZeroProduct(u: real, v: real)
    requires u != 0.0 && v != 0.0
    ensures u * v != 0.0
  {
    var p, q := if u > 0.0 then u else -u, if v > 0.0 then v else -v;
    ProductPositive(p, q);
    assert u * v == p * q || u * v == -(p * q);
  }

  lemma SquarePositive(u: real, x: real)
    requires x == u * u && u != 0.0
    ensures x > 0.0
  {
    if u > 0.0 { ProductIs(u, u, x); } else { ProductIs(-u, -u, x); }
  }

  lemma ProductIs(u: real, v: real, x: real)
    requires u > 0.0 && v > 0.0 && x == u * v
    ensures x > 0.0
  {
  }

  lemma SquareNonNegative(x: real)
    ensures x * x >= 0.0
  {
  }

  lemma {:induction false} DotSelf(v: seq<real>)
    ensures Dot(v, v) >= 0.0
  {
    if v != [] {
      DotSelf(v[..|v| - 1]);
      SquareNonNegative(v[|v| - 1]);
    }
  }

  lemma {:induction false} DotSymmetric(a: seq<real>, b: seq<real>)
    requires |a| == |b|
    ensures Dot(a, b) == Dot(b, a)
  {
    if a != [] { DotSymmetric(a[..|a| - 1], b[..|b| - 1]); }
  }

  lemma SquareDifference(s: real, t: real)
    ensures t * t - s * s == (t - s) * (t + s)
  {
  }

  /** A nonnegative number is at least another one whose square it exceeds in square. */
  lemma SquareOrder(s: real, t: real)
    requires s >= 0.0 && s * s >= t * t
    ensures s >= t
  {
    if t > s {
      ProductPositive(t - s, t + s);
      SquareDifference(s, t);
    }
  }

  /** The mixed term of the step. */
  lemma CauchyMixed(d: real, a: real, b: real, x: real, y: real)
    requires a >= 0.0 && b >= 0.0 && d * d <= a * b
    ensures 2.0 * (d * (x * y)) <= a * (y * y) + b * (x * x)
  {
    var p := x * y;
    var s, t := a * (y * y) + b * (x * x), 2.0 * (d * p);
    SquareNonNegative(x);
    SquareNonNegative(y);
    Products(a, b, x * x, y * y);
    SquareNonNegative(p);
    SquareOfProduct(x, y);
    SumSquares(a * (y * y), b * (x * x));
    Regroup(a, b, x * x, y * y);
    SquareOfDouble(d, p);
    Scale(d * d, a * b, p * p);
    Chained(s * s, (a * (y * y)) * (b * (x * x)), t * t, (d * d) * (p * p), (a * b) * (p * p));
    SquareOrder(s, t);
  }

  /** The step of the Cauchy-Schwarz induction. */
  lemma CauchyStep(d: real, a: real, b: real, x: real, y: real)
    requires a >= 0.0 && b >= 0.0 && d * d <= a * b
    ensures (d + x * y) * (d + x * y) <= (a + x * x) * (b + y * y)
  {
    CauchyMixed(d, a, b, x, y);
    SquareOfProduct(x, y);
    Expand(d, x * y, a, b, x * x, y * y);
  }

  lemma Products(a: real, b: real, u: real, v: real)
    requires a >= 0.0 && b >= 0.0 && u >= 0.0 && v >= 0.0
    ensures a * v >= 0.0 && b * u >= 0.0 && a * v + b * u >= 0.0
  {
  }

  lemma Regroup(a: real, b: real, u: real, v: real)
    ensures (a * v) * (b * u) == (a * b) * (u * v)
  {
  }

  lemma SquareOfProduct(x: real, y: real)
    ensures (x * y) * (x * y) == (x * x) * (y * y)
  {
  }

  lemma SquareOfDouble(d: real, p: real)
    ensures (2.0 * (d * p)) * (2.0 * (d * p)) == 4.0 * ((d * d) * (p * p))
  {
  }

  lemma Chained(ss: real, mn: real, tt: real, low: real, high: real)
    requires ss >= 4.0 * mn && mn == high && tt == 4.0 * low && low <= high
    ensures ss >= tt
  {
  }

  lemma Scale(m: real, n: real, k: real)
    requires m <= n && k >= 0.0
    ensures m * k <= n * k
  {
  }

  lemma SumSquares(m: real, n: real)
    ensures (m + n) * (m + n) >= 4.0 * (m * n)
  {
    SquareNonNegative(m - n);
    assert (m + n) * (m + n) == (m - n) * (m - n) + 4.0 * (m * n);
  }

  lemma Expand(d: real, p: real, a: real, b: real, u: real, v: real)
    requires a * v + b * u >= 2.0 * (d * p) && d * d <= a * b && p * p == u * v
    ensures (d + p) * (d + p) <= (a + u) * (b + v)
  {
    assert (d + p) * (d + p) == d * d + 2.0 * (d * p) + p * p;
    assert (a + u) * (b + v) == a * b + (a * v + b * u) + u * v;
  }

  /** The Cauchy-Schwarz inequality. */
  lemma {:induction false} CauchySchwarz(a: seq<real>, b: seq<real>)
    requires |a| == |b|
    ensures Dot(a, b) * Dot(a, b) <= Dot(a, a) * Dot(b, b)
  {
    if a != [] {
      var n := |a| - 1;
      CauchySchwarz(a[..n], b[..n]);
      DotSelf(a[..n]);
      DotSelf(b[..n]);
      CauchyStep(Dot(a[..n], b[..n]), Dot(a[..n], a[..n]), Dot(b[..n], b[..n]), a[n], b[n]);
    }
  }

  lemma QuotientBounded(d: real, m: real)
    requires m > 0.0 && d * d <= m * m
    ensures -1.0 <= d / m <= 1.0
  {
    SquareOrder(m, d);
    SquareOrder(m, -d);
    assert d / m * m == d;
  }

  /** Cosine similarity lies between -1 and 1 and is symmetric, on vectors of any lengths. */
  lemma CosineBounded(sqrt: real -> real, a: seq<real>, b: seq<real>)
    requires IsSqrt(sqrt)
    ensures -1.0 <= Cosine(sqrt, a, b) <= 1.0
    ensures Cosine(sqrt, a, b) == Cosine(sqrt, b, a)
  {
    if |a| == |b| && a != [] {
      var l, r := Norm(sqrt, a), Norm(sqrt, b);
      DotSelf(a);
      DotSelf(b);
      DotSymmetric(a, b);
      if l != 0.0 && r != 0.0 {
        NonZeroProduct(l, r);
        CauchySchwarz(a, b);
        NormsProduct(l, r, Dot(a, a), Dot(b, b));
        QuotientBounded(Dot(a, b), l * r);
      }
    }
  }

  lemma NormsProduct(l: real, r: real, x: real, y: real)
    requires l >= 0.0 && r >= 0.0 && l * l == x && r * r == y && l * r != 0.0
    ensures l * r > 0.0 && (l * r) * (l * r) == x * y && l != 0.0 && r != 0.0
  {
  }

  ghost predicate IsZero(v: seq<real>) {
    forall i :: 0 <= i < |v| ==> v[i] == 0.0
  }

  lemma IsZeroSplit(v: seq<real>)
    requires v != []
    ensures IsZero(v) <==> IsZero(v[..|v| - 1]) && v[|v| - 1] == 0.0
  {
    var n := |v| - 1;
    assert forall i :: 0 <= i < n ==> v[..n][i] == v[i];
  }

  lemma {:induction false} ZeroVector(v: seq<real>)
    ensures Dot(v, v) == 0.0 <==> IsZero(v)
  {
    hide IsZero;
    if v == [] {
      assert IsZero(v) by { NothingIsZero(v); }
    } else {
      var n := |v| - 1;
      ZeroVector(v[..n]);
      DotSelf(v[..n]);
      IsZeroSplit(v);
      SquareNonNegative(v[n]);
      if v[n] != 0.0 { SquarePositive(v[n], Dot(v, v) - Dot(v[..n], v[..n])); }
    }
  }

  lemma NothingIsZero(v: seq<real>)
    requires v == []
    ensures IsZero(v)
  {
  }

  /** The norm is zero exactly for zero vectors. */
  lemma NormZero(sqrt: real -> real, v: seq<real>)
    requires IsSqrt(sqrt)
    ensures Norm(sqrt, v) * Norm(sqrt, v) == Dot(v, v) && Norm(sqrt, v) >= 0.0
    ensures Norm(sqrt, v) == 0.0 <==> IsZero(v)
  {
    DotSelf(v);
    ZeroVector(v);
    hide IsZero;
    if Norm(sqrt, v) != 0.0 { SquarePositive(Norm(sqrt, v), Dot(v, v)); }
  }

  /** A vector with a nonzero component is fully similar to itself; the zero vector is not. */
  lemma CosineSelf(sqrt: real -> real, v: seq<real>)
    requires IsSqrt(sqrt)
    ensures Cosine(sqrt, v, v) == if IsZero(v) then 0.0 else 1.0
  {
    NormZero(sqrt, v);
    var l := Norm(sqrt, v);
    if v == [] {
    } else if l != 0.0 {
      hide IsSqrt, IsZero;
      SquarePositive(l, Dot(v, v));
      OverItself(Dot(v, v));
    }
  }

  lemma OverItself(x: real)
    requires x != 0.0
    ensures x / x == 1.0
  {
  }

  /** The positive number whose square is the inner product of the vector with itself. */
  ghost predicate IsNorm(n: real, v: seq<real>) {
    n > 0.0 && n * n == Dot(v, v)
  }

  /**
   On two vectors of one length with a nonzero component each, the similarity times
   the two norms is the inner product; on any others it is 0.
   */
  lemma CosineExactly(sqrt: real -> real, a: seq<real>, b: seq<real>)
    requires IsSqrt(sqrt)
    ensures if |a| != |b| || IsZero(a) || IsZero(b) then Cosine(sqrt, a, b) == 0.0
            else exists l, r :: IsNorm(l, a) && IsNorm(r, b) && Cosine(sqrt, a, b) * (l * r) == Dot(a, b)
  {
    NormZero(sqrt, a);
    NormZero(sqrt, b);
    assert a == [] ==> IsZero(a);
    if |a| == |b| && !IsZero(a) && !IsZero(b) {
      hide IsSqrt, IsZero, Dot, Cosine;
      var l, r := Norm(sqrt, a), Norm(sqrt, b);
      assert IsNorm(l, a) && IsNorm(r, b);
      CosineDivides(sqrt, a, b);
    }
  }

  lemma CosineDivides(sqrt: real -> real, a: seq<real>, b: seq<real>)
    requires |a| == |b| > 0 && Norm(sqrt, a) != 0.0 && Norm(sqrt, b) != 0.0
    ensures Cosine(sqrt, a, b) * (Norm(sqrt, a) * Norm(sqrt, b)) == Dot(a, b)
  {
    hide Norm, Dot;
    NonZeroProduct(Norm(sqrt, a), Norm(sqrt, b));
    TimesQuotient(Dot(a, b), Norm(sqrt, a) * Norm(sqrt, b));
  }

  lemma TimesQuotient(x: real, y: real)
    requires y != 0.0
    ensures x / y * y == x
  {
  }

  // ----- the embedding of a list of tokens -----

  type Slot = string -> nat

  type Sign = string -> bool

  /** The unnormalised component: tokens hashed to slot `i`, counted with their sign. */
  function Bucket(tokens: seq<string>, slot: Slot, sign: Sign, dimension: nat, i: nat): int
    requires dimension > 0
  {
    if tokens == [] then 0
    else Bucket(tokens[..|tokens| - 1], slot, sign, dimension, i)
         + Contribution(tokens[|tokens| - 1], slot, sign, dimension, i)
  }

  function Contribution(token: string, slot: Slot, sign: Sign, dimension: nat, i: nat): int
    requires dimension > 0
  {
    if slot(token) % dimension == i then (if sign(token) then 1 else -1) else 0
  }

  function Histogram(tokens: seq<string>, slot: Slot, sign: Sign, dimension: nat): (v: seq<int>)
    requires dimension > 0
    ensures |v| == dimension && forall i :: 0 <= i < dimension ==> v[i] == Bucket(tokens, slot, sign, dimension, i)
  {
    seq(dimension, i requires 0 <= i < dimension => Bucket(tokens, slot, sign, dimension, i))
  }

  function Reals(v: seq<int>): (r: seq<real>)
    ensures |r| == |v| && forall i :: 0 <= i < |v| ==> r[i] == v[i] as real
  {
    seq(|v|, i requires 0 <= i < |v| => v[i] as real)
  }

  function Scaled(v: seq<real>, n: real): (r: seq<real>)
    requires n != 0.0
    ensures |r| == |v| && forall i :: 0 <= i < |v| ==> r[i] == v[i] / n
  {
    seq(|v|, i requires 0 <= i < |v| => v[i] / n)
  }

  function Normalised(sqrt: real -> real, v: seq<real>): seq<real> {
    if Norm(sqrt, v) == 0.0 then v else Scaled(v, Norm(sqrt, v))
  }

  /** The accumulation loop over a vector updated in place, then the normalisation. */
  method EmbedTokens(tokens: seq<string>, slot: Slot, sign: Sign, dimension: nat, sqrt: real -> real)
    returns (r: seq<real>)
    requires dimension > 0
    ensures r == Normalised(sqrt, Reals(Histogram(tokens, slot, sign, dimension)))
    ensures |r| == dimension
  {
    var vec := new int[dimension](_ => 0);
    for n := 0 to |tokens|
      invariant forall i :: 0 <= i < dimension ==> vec[i] == Bucket(tokens[..n], slot, sign, dimension, i)
    {
      assert tokens[..n + 1][..n] == tokens[..n];
      var index := slot(tokens[n]) % dimension;
      vec[index] := vec[index] + (if sign(tokens[n]) then 1 else -1);
    }
    assert tokens[..|tokens|] == tokens;
    assert vec[..] == Histogram(tokens, slot, sign, dimension);
    r := Normalised(sqrt, Reals(vec[..]));
  }

  /** The positions of the tokens that vote for slot `i` with the given sign. */
  ghost function Votes(tokens: seq<string>, slot: Slot, sign: Sign, dimension: nat, i: nat, positive: bool): set<int>
    requires dimension > 0
  {
    set k | 0 <= k < |tokens| && VotesFor(tokens[k], slot, sign, dimension, i, positive)
  }

  ghost predicate VotesFor(token: string, slot: Slot, sign: Sign, dimension: nat, i: nat, positive: bool)
    requires dimension > 0
  {
    slot(token) % dimension == i && sign(token) == positive
  }

  lemma VotesNext(tokens: seq<string>, slot: Slot, sign: Sign, dimension: nat, i: nat, positive: bool)
    requires dimension > 0 && tokens != []
    ensures var n := |tokens| - 1;
            |Votes(tokens, slot, sign, dimension, i, positive)| ==
            |Votes(tokens[..n], slot, sign, dimension, i, positive)|
            + (if VotesFor(tokens[n], slot, sign, dimension, i, positive) then 1 else 0)
  {
    hide VotesFor;
    var n := |tokens| - 1;
    var before, after := Votes(tokens[..n], slot, sign, dimension, i, positive),
                         Votes(tokens, slot, sign, dimension, i, positive);
    var last: set<int> := if VotesFor(tokens[n], slot, sign, dimension, i, positive) then {n} else {};
    forall k ensures k in after <==> k in before || k in last {
      if 0 <= k < n { assert tokens[..n][k] == tokens[k]; }
    }
    hide Votes;
    assert after == before + last;
  }

  /** A component of the histogram is the number of tokens that vote for it less the number that vote against it. */
  lemma {:induction false} HistogramCounts(tokens: seq<string>, slot: Slot, sign: Sign, dimension: nat, i: nat)
    requires i < dimension
    ensures Histogram(tokens, slot, sign, dimension)[i] ==
            |Votes(tokens, slot, sign, dimension, i, true)| - |Votes(tokens, slot, sign, dimension, i, false)|
  {
    hide Votes;
    if tokens == [] {
      NoVotes(slot, sign, dimension, i, true);
      NoVotes(slot, sign, dimension, i, false);
    } else {
      HistogramCounts(tokens[..|tokens| - 1], slot, sign, dimension, i);
      VotesNext(tokens, slot, sign, dimension, i, true);
      VotesNext(tokens, slot, sign, dimension, i, false);
    }
  }

  lemma NoVotes(slot: Slot, sign: Sign, dimension: nat, i: nat, positive: bool)
    requires dimension > 0
    ensures Votes([], slot, sign, dimension, i, positive) == {}
  {
  }

  lemma ScaledBack(v: seq<real>, n: real)
    requires n != 0.0
    ensures forall i :: 0 <= i < |v| ==> Scaled(v, n)[i] * n == v[i]
  {
    forall i | 0 <= i < |v| ensures Scaled(v, n)[i] * n == v[i] { TimesQuotient(v[i], n); }
  }

  /** Normalising divides every component by the one positive number that makes the norm 1; zero vectors stay. */
  lemma NormalisedExactly(sqrt: real -> real, v: seq<real>)
    requires IsSqrt(sqrt)
    ensures |Normalised(sqrt, v)| == |v|
    ensures if IsZero(v) then Normalised(sqrt, v) == v
            else exists n :: IsNorm(n, v) && forall i :: 0 <= i < |v| ==> Normalised(sqrt, v)[i] * n == v[i]
  {
    NormZero(sqrt, v);
    hide IsSqrt, IsZero, Dot, Norm, Scaled;
    var n := Norm(sqrt, v);
    if n != 0.0 {
      assert IsNorm(n, v);
      ScaledBack(v, n);
    }
  }

  // ----- order does not matter -----

  lemma {:induction false} BucketJoin(a: seq<string>, b: seq<string>, slot: Slot, sign: Sign, dimension: nat, i: nat)
    requires dimension > 0
    ensures Bucket(a + b, slot, sign, dimension, i) ==
            Bucket(a, slot, sign, dimension, i) + Bucket(b, slot, sign, dimension, i)
    decreases |b|
  {
    if b == [] {
      assert a + b == a;
    } else {
      assert (a + b)[..|a + b| - 1] == a + b[..|b| - 1];
      BucketJoin(a, b[..|b| - 1], slot, sign, dimension, i);
    }
  }

  lemma WithoutOne(front: seq<string>, x: string, back: seq<string>)
    ensures multiset(front + [x] + back) == multiset(front + back) + multiset{x}
  {
  }

  lemma WithoutAt(a: seq<string>, k: nat)
    requires k < |a|
    ensures multiset(a) == multiset(a[..k] + a[k + 1..]) + multiset{a[k]}
  {
    WithoutOne(a[..k], a[k], a[k + 1..]);
    assert a == a[..k] + [a[k]] + a[k + 1..];
  }

  lemma RemoveOne(a: seq<string>, b: seq<string>, k: nat)
    requires a != [] && k < |b| && multiset(a) == multiset(b) && b[k] == a[|a| - 1]
    ensures multiset(a[..|a| - 1]) == multiset(b[..k] + b[k + 1..])
  {
    WithoutAt(a, |a| - 1);
    WithoutAt(b, k);
    assert a[..|a| - 1] + a[|a|..] == a[..|a| - 1];
    SameRest(multiset(a[..|a| - 1]), multiset(b[..k] + b[k + 1..]), b[k]);
  }

  lemma SameRest(a: multiset<string>, b: multiset<string>, x: string)
    requires a + multiset{x} == b + multiset{x}
    ensures a == b
  {
    forall y ensures a[y] == b[y] {
      assert (a + multiset{x})[y] == (b + multiset{x})[y];
    }
  }

  lemma {:induction false} BucketOfMultiset(a: seq<string>, b: seq<string>, slot: Slot, sign: Sign, dimension: nat,
                                            i: nat)
    requires dimension > 0 && multiset(a) == multiset(b)
    ensures Bucket(a, slot, sign, dimension, i) == Bucket(b, slot, sign, dimension, i)
    decreases |a|
  {
    if a == [] {
      assert |multiset(b)| == 0;
      assert b == [];
    } else {
      hide Bucket, Contribution;
      var n := |a| - 1;
      assert a == a[..n] + [a[n]];
      assert a[n] in multiset(b);
      var k :| 0 <= k < |b| && b[k] == a[n];
      var front, back := b[..k], b[k + 1..];
      assert b == front + ([b[k]] + back);
      RemoveOne(a, b, k);
      BucketOfMultiset(a[..n], front + back, slot, sign, dimension, i);
      BucketJoin(front, back, slot, sign, dimension, i);
      BucketJoin(front, [b[k]] + back, slot, sign, dimension, i);
      BucketJoin([b[k]], back, slot, sign, dimension, i);
      BucketOne(b[k], slot, sign, dimension, i);
      BucketJoin(a[..n], [a[n]], slot, sign, dimension, i);
    }
  }

  lemma BucketOne(token: string, slot: Slot, sign: Sign, dimension: nat, i: nat)
    requires dimension > 0
    ensures Bucket([token], slot, sign, dimension, i) == Contribution(token, slot, sign, dimension, i)
  {
    assert [token][..0] == [];
  }

  /** The embedding depends only on how often each token occurs. */
  lemma EmbeddingIgnoresOrder(a: seq<string>, b: seq<string>, slot: Slot, sign: Sign, dimension: nat,
                              sqrt: real -> real)
    requires dimension > 0 && multiset(a) == multiset(b)
    ensures Normalised(sqrt, Reals(Histogram(a, slot, sign, dimension))) ==
            Normalised(sqrt, Reals(Histogram(b, slot, sign, dimension)))
  {
    forall i | 0 <= i < dimension
      ensures Bucket(a, slot, sign, dimension, i) == Bucket(b, slot, sign, dimension, i)
    {
      BucketOfMultiset(a, b, slot, sign, dimension, i);
    }
    assert Histogram(a, slot, sign, dimension) == Histogram(b, slot, sign, dimension);
  }

  // ----- weight -----

  function Abs(x: int): nat {
    if x < 0 then -x else x
  }

  function Weight(v: seq<int>): nat {
    if v == [] then 0 else Weight(v[..|v| - 1]) + Abs(v[|v| - 1])
  }

  lemma {:induction false} WeightZero(v: seq<int>)
    requires forall i :: 0 <= i < |v| ==> v[i] == 0
    ensures Weight(v) == 0
  {
    if v != [] { WeightZero(v[..|v| - 1]); }
  }

  /** Changing one component by one changes the weight by one. */
  lemma {:induction false} WeightStep(v: seq<int>, w: seq<int>, k: nat)
    requires |v| == |w| && k < |v| && (w[k] == v[k] + 1 || w[k] == v[k] - 1)
    requires forall i :: 0 <= i < |v| && i != k ==> w[i] == v[i]
    ensures Weight(w) == Weight(v) + 1 || Weight(w) == Weight(v) - 1
  {
    var n := |v| - 1;
    if k == n {
      assert v[..n] == w[..n];
    } else {
      WeightStep(v[..n], w[..n], k);
    }
  }

  lemma HistogramStep(tokens: seq<string>, slot: Slot, sign: Sign, dimension: nat)
    requires dimension > 0 && tokens != []
    ensures var n := |tokens| - 1;
            var v, w := Histogram(tokens[..n], slot, sign, dimension), Histogram(tokens, slot, sign, dimension);
            var k := slot(tokens[n]) % dimension;
            && (w[k] == v[k] + 1 || w[k] == v[k] - 1)
            && forall i :: 0 <= i < dimension && i != k ==> w[i] == v[i]
  {
  }

  lemma EmptyHistogram(slot: Slot, sign: Sign, dimension: nat)
    requires dimension > 0
    ensures forall i :: 0 <= i < dimension ==> Histogram([], slot, sign, dimension)[i] == 0
  {
  }

  /** The unnormalised vector weighs at most one per token, and leaves an even number of tokens over. */
  lemma {:induction false} HistogramWeight(tokens: seq<string>, slot: Slot, sign: Sign, dimension: nat)
    requires dimension > 0
    ensures Weight(Histogram(tokens, slot, sign, dimension)) <= |tokens|
    ensures (|tokens| - Weight(Histogram(tokens, slot, sign, dimension))) % 2 == 0
    decreases |tokens|
  {
    hide Histogram, Weight, Bucket, Contribution;
    var w := Histogram(tokens, slot, sign, dimension);
    if tokens == [] {
      EmptyHistogram(slot, sign, dimension);
      WeightZero(w);
    } else {
      var n := |tokens| - 1;
      HistogramWeight(tokens[..n], slot, sign, dimension);
      HistogramStep(tokens, slot, sign, dimension);
      WeightStep(Histogram(tokens[..n], slot, sign, dimension), w, slot(tokens[n]) % dimension);
    }
  }

  // ----- norm -----

  /** Multiplication under a name, to keep the solver from expanding it. */
  function Times(x: real, y: real): real {
    x * y
  }

  lemma DotStep(v: seq<real>)
    requires v != []
    ensures var k := |v| - 1; Dot(v, v) == Dot(v[..k], v[..k]) + Times(v[k], v[k])
  {
  }

  lemma DotNothing(v: seq<real>, m: real)
    requires v == []
    ensures Dot(v, v) == 0.0 && Times(0.0, m) == 0.0
  {
  }

  lemma ScaledFront(v: seq<real>, n: real)
    requires n != 0.0 && v != []
    ensures var s, k := Scaled(v, n), |v| - 1;
            s[..k] == Scaled(v[..k], n) && Times(Times(s[k], s[k]), Times(n, n)) == Times(v[k], v[k])
  {
    var k := |v| - 1;
    SquareOfQuotient(v[k], n, Scaled(v, n)[k]);
  }

  lemma {:induction false} DotScaled(v: seq<real>, n: real)
    requires n != 0.0
    ensures Times(Dot(Scaled(v, n), Scaled(v, n)), Times(n, n)) == Dot(v, v)
    decreases |v|
  {
    hide Scaled, Dot, Times;
    var s, m := Scaled(v, n), Times(n, n);
    if v == [] {
      DotNothing(v, m);
      DotNothing(s, m);
    } else {
      var k := |v| - 1;
      DotScaled(v[..k], n);
      ScaledFront(v, n);
      DotStep(v);
      DotStep(s);
      Distribute(Dot(s[..k], s[..k]), Times(s[k], s[k]), m);
    }
  }

  lemma Distribute(a: real, b: real, c: real)
    ensures Times(a + b, c) == Times(a, c) + Times(b, c)
  {
  }

  lemma SquareOfQuotient(x: real, n: real, q: real)
    requires n != 0.0 && q == x / n
    ensures q * q * (n * n) == x * x
  {
    assert q * n == x;
    assert q * q * (n * n) == (q * n) * (q * n);
  }

  lemma ScaledNorm(v: seq<real>, n: real)
    requires n != 0.0 && n * n == Dot(v, v)
    ensures Dot(Scaled(v, n), Scaled(v, n)) == 1.0
  {
    DotScaled(v, n);
    SquarePositive(n, Dot(v, v));
    hide Dot, Scaled;
    CancelFactor(Dot(Scaled(v, n), Scaled(v, n)), n * n, Dot(v, v));
  }

  /** An embedding has norm 1, or every component of it is zero. */
  lemma EmbeddingNorm(sqrt: real -> real, v: seq<real>)
    requires IsSqrt(sqrt)
    ensures |Normalised(sqrt, v)| == |v|
    ensures if IsZero(v) then IsZero(Normalised(sqrt, v)) else Dot(Normalised(sqrt, v), Normalised(sqrt, v)) == 1.0
  {
    NormZero(sqrt, v);
    hide IsSqrt, IsZero, Dot;
    if Norm(sqrt, v) != 0.0 { ScaledNorm(v, Norm(sqrt, v)); }
  }

  lemma CancelFactor(x: real, m: real, y: real)
    requires m == y && y > 0.0 && x * m == y
    ensures x == 1.0
  {
    Distribute(x, -1.0, m);
    if x > 1.0 { ProductIs(x - 1.0, m, (x - 1.0) * m); }
    if x < 1.0 { ProductIs(1.0 - x, m, (1.0 - x) * m); }
  }

  // ----- the tokens of a text -----

  function WordEnd(s: string, i: nat): (j: nat)
    requires i <= |s|
    ensures i <= j <= |s| && (i < |s| && IsWord(s[i]) ==> i < j)
    decreases |s| - i
  {
    if i < |s| && IsWord(s[i]) then WordEnd(s, i + 1) else i
  }

  /** The maximal runs of word characters. */
  function Words(s: string, i: nat): seq<string>
    requires i <= |s|
    decreases |s| - i
  {
    if i == |s| then []
    else if IsWord(s[i]) then [s[i..WordEnd(s, i)]] + Words(s, WordEnd(s, i))
    else Words(s, i + 1)
  }

  /** Each run of whitespace replaced by one space. */
  function Collapse(s: string): string {
    if s == "" then ""
    else if IsSpace(s[0]) then (if |s| > 1 && IsSpace(s[1]) then Collapse(s[1..]) else " " + Collapse(s[1..]))
    else [s[0]] + Collapse(s[1..])
  }

  function Trigrams(s: string): seq<string> {
    seq(if |s| < 2 then 0 else |s| - 2, i requires 0 <= i && i + 2 < |s| => s[i..i + 3])
  }

  function Tokens(text: string): seq<string> {
    var normalized := Strip(Lower(text));
    if normalized == "" then [] else Words(normalized, 0) + Trigrams(Collapse(normalized))
  }

  /** A maximal run of word characters. */
  ghost predicate WordAt(s: string, i: nat, j: nat) {
    && i < j <= |s| && (forall k :: i <= k < j ==> IsWord(s[k]))
    && (i > 0 ==> !IsWord(s[i - 1])) && (j < |s| ==> !IsWord(s[j]))
  }

  lemma WordEndExact(s: string, i: nat)
    requires i <= |s|
    ensures var j := WordEnd(s, i); (forall k :: i <= k < j ==> IsWord(s[k])) && (j < |s| ==> !IsWord(s[j]))
    decreases |s| - i
  {
    hide IsWord;
    if i < |s| && IsWord(s[i]) { WordEndExact(s, i + 1); }
  }

  /** The spans of all maximal runs from position `i` on, from left to right. */
  ghost predicate Spans(s: string, i: nat, spans: seq<(nat, nat)>) {
    && (forall k :: 0 <= k < |spans| ==> i <= spans[k].0 && WordAt(s, spans[k].0, spans[k].1))
    && (forall k, l :: 0 <= k < l < |spans| ==> spans[k].1 <= spans[l].0)
    && forall a: nat, b: nat :: i <= a && WordAt(s, a, b) ==> (a, b) in spans
  }

  ghost function Cut(s: string, spans: seq<(nat, nat)>): (words: seq<string>)
    requires forall k :: 0 <= k < |spans| ==> spans[k].0 <= spans[k].1 <= |s|
  {
    seq(|spans|, k requires 0 <= k < |spans| => s[spans[k].0..spans[k].1])
  }

  lemma SpansMore(s: string, i: nat, j: nat, rest: seq<(nat, nat)>)
    requires WordAt(s, i, j) && Spans(s, j, rest)
    ensures Spans(s, i, [(i, j)] + rest)
  {
    hide IsWord;
    var spans := [(i, j)] + rest;
    assert spans[0] == (i, j);
    forall a: nat, b: nat | i <= a && WordAt(s, a, b) ensures (a, b) in spans {
      if a == i {
        assert b == j;
      } else {
        assert (a, b) in rest;
      }
    }
  }

  lemma SpansSkip(s: string, i: nat, spans: seq<(nat, nat)>)
    requires i < |s| && !IsWord(s[i]) && Spans(s, i + 1, spans)
    ensures Spans(s, i, spans)
  {
    hide IsWord;
  }

  /** The words are cut out of the text at the maximal runs, all of them, in their order. */
  lemma {:induction false} WordsExact(s: string, i: nat) returns (spans: seq<(nat, nat)>)
    requires i <= |s| && (0 < i < |s| ==> !IsWord(s[i - 1]) || !IsWord(s[i]))
    ensures Spans(s, i, spans) && Words(s, i) == Cut(s, spans)
    decreases |s| - i
  {
    hide IsWord, Spans, WordEnd;
    if i == |s| {
      spans := [];
      NoneAtEnd(s);
    } else if IsWord(s[i]) {
      var j := WordEnd(s, i);
      WordEndExact(s, i);
      var rest := WordsExact(s, j);
      spans := [(i, j)] + rest;
      SpansMore(s, i, j, rest);
    } else {
      spans := WordsExact(s, i + 1);
      SpansSkip(s, i, spans);
    }
  }

  lemma NoneAtEnd(s: string)
    ensures Spans(s, |s|, [])
  {
  }

  /**
   `c` is `s` with each run of whitespace made one space: `at` says where each
   character of `c` stands in `s`, and only whitespace is left out, before whitespace.
   */
  ghost predicate Squeezed(s: string, c: string, at: seq<nat>) {
    && |at| == |c| && (forall k :: 0 <= k < |c| ==> at[k] < |s|)
    && (forall k :: 0 <= k < |c| ==> c[k] == if IsSpace(s[at[k]]) then ' ' else s[at[k]])
    && (forall k :: 0 <= k < |c| ==> LeavesOut(s, c, at, k))
    && (s != "" ==> at != [] && at[|at| - 1] == |s| - 1)
  }

  /** Between two places only whitespace is left out, before whitespace that follows no other. */
  ghost predicate LeavesOut(s: string, c: string, at: seq<nat>, k: nat)
    requires k < |c| == |at| && forall i :: 0 <= i < |at| ==> at[i] < |s|
  {
    && (k > 0 ==> at[k - 1] < at[k] && (c[k - 1] != ' ' || c[k] != ' '))
    && forall j :: (if k == 0 then 0 else at[k - 1] + 1) <= j < at[k] ==> IsSpace(s[j]) && IsSpace(s[at[k]])
  }

  lemma {:induction false} CollapseExact(s: string) returns (at: seq<nat>)
    ensures Squeezed(s, Collapse(s), at)
  {
    hide IsSpace, Squeezed;
    if s == "" {
      at := [];
      NothingSqueezed();
    } else {
      var rest := CollapseExact(s[1..]);
      var c := Collapse(s[1..]);
      var later := seq(|rest|, k requires 0 <= k < |rest| => rest[k] + 1);
      if IsSpace(s[0]) && |s| > 1 && IsSpace(s[1]) {
        at := later;
        SqueezeSkip(s, c, rest, later);
      } else {
        at := [0] + later;
        SqueezeKeep(s, c, rest, later);
      }
    }
  }

  lemma NothingSqueezed()
    ensures Squeezed("", "", [])
  {
  }

  lemma SqueezeSkip(s: string, c: string, rest: seq<nat>, later: seq<nat>)
    requires |s| > 1 && IsSpace(s[0]) && IsSpace(s[1]) && Squeezed(s[1..], c, rest)
    requires |later| == |rest| && forall k :: 0 <= k < |rest| ==> later[k] == rest[k] + 1
    ensures Squeezed(s, c, later)
  {
    hide IsSpace;
    FirstPlace(s[1..], c, rest);
    forall k | 0 <= k < |c| ensures LeavesOut(s, c, later, k) {
      assert LeavesOut(s[1..], c, rest, k);
      forall j | (if k == 0 then 0 else later[k - 1] + 1) <= j < later[k] ensures IsSpace(s[j]) {
        if j > 0 { assert s[j] == s[1..][j - 1]; }
      }
    }
  }

  lemma SqueezeKeep(s: string, c: string, rest: seq<nat>, later: seq<nat>)
    requires s != "" && Squeezed(s[1..], c, rest) && (|s| > 1 && IsSpace(s[0]) ==> !IsSpace(s[1]))
    requires |later| == |rest| && forall k :: 0 <= k < |rest| ==> later[k] == rest[k] + 1
    ensures Squeezed(s, [if IsSpace(s[0]) then ' ' else s[0]] + c, [0] + later)
  {
    SpaceIsSpace();
    hide IsSpace;
    if |s| > 1 { FirstPlace(s[1..], c, rest); }
    var x := if IsSpace(s[0]) then ' ' else s[0];
    var c', at := [x] + c, [0] + later;
    assert forall k :: 0 <= k < |c'| ==> at[k] < |s| && c'[k] == if IsSpace(s[at[k]]) then ' ' else s[at[k]];
    hide LeavesOut;
    forall k | 0 < k < |c'| ensures LeavesOut(s, c', at, k) { PlaceBehind(s, x, c, rest, later, k); }
    NoPlaceBefore(s, c', at);
  }

  lemma NoPlaceBefore(s: string, c: string, at: seq<nat>)
    requires c != "" && |at| == |c| && at[0] == 0 && forall i :: 0 <= i < |at| ==> at[i] < |s|
    ensures LeavesOut(s, c, at, 0)
  {
  }

  lemma PlaceBehind(s: string, x: char, c: string, rest: seq<nat>, later: seq<nat>, k: nat)
    requires 0 < k <= |c| == |rest| == |later| && s != "" && forall i :: 0 <= i < |rest| ==> rest[i] < |s| - 1
    requires forall i :: 0 <= i < |rest| ==> later[i] == rest[i] + 1
    requires LeavesOut(s[1..], c, rest, k - 1) && (k == 1 ==> x != ' ' || c[0] != ' ')
    ensures LeavesOut(s, [x] + c, [0] + later, k)
  {
    hide IsSpace;
    var c', at := [x] + c, [0] + later;
    assert at[k] == rest[k - 1] + 1 && c'[k] == c[k - 1];
    if k > 1 {
      assert at[k - 1] == rest[k - 2] + 1 && c'[k - 1] == c[k - 2];
    } else {
      assert at[k - 1] == 0 && c'[k - 1] == x;
    }
    forall j | at[k - 1] + 1 <= j < at[k] ensures IsSpace(s[j]) && IsSpace(s[at[k]]) {
      assert s[j] == s[1..][j - 1] && s[at[k]] == s[1..][rest[k - 1]];
    }
  }

  lemma SpaceIsSpace()
    ensures IsSpace(' ')
  {
  }

  /** What is left out before the first place is whitespace before whitespace. */
  lemma FirstPlace(s: string, c: string, at: seq<nat>)
    requires Squeezed(s, c, at) && s != ""
    ensures at != [] && (at[0] > 0 ==> IsSpace(s[0])) && (IsSpace(s[0]) <==> IsSpace(s[at[0]]))
  {
    hide IsSpace;
    assert LeavesOut(s, c, at, 0);
  }

  /** The tokens of a text: the words of its lowered, stripped form, then the trigrams of that form squeezed. */
  lemma TokensExactly(text: string) returns (spans: seq<(nat, nat)>, compact: string, at: seq<nat>)
    ensures var s := Strip(Lower(text));
            && Spans(s, 0, spans) && Squeezed(s, compact, at)
            && var n := if s == "" || |compact| < 2 then 0 else |compact| - 2;
               && |Tokens(text)| == |spans| + n
               && Tokens(text)[..|spans|] == Cut(s, spans)
               && forall i :: |spans| <= i < |spans| + n ==>
                    Tokens(text)[i] == compact[i - |spans|..i - |spans| + 3]
  {
    var s := Strip(Lower(text));
    TokensSplit(text);
    hide *;
    spans := WordsExact(s, 0);
    at := CollapseExact(s);
    compact := Collapse(s);
    CutSize(s, spans);
    TrigramsExact(compact);
    if s == "" { NoSpans(spans); }
  }

  lemma TokensSplit(text: string)
    ensures var s := Strip(Lower(text));
            Tokens(text) == if s == "" then [] else Words(s, 0) + Trigrams(Collapse(s))
  {
    hide Strip, Lower, Words, Trigrams, Collapse;
  }

  lemma CutSize(s: string, spans: seq<(nat, nat)>)
    requires Spans(s, 0, spans)
    ensures |Cut(s, spans)| == |spans|
  {
  }

  lemma TrigramsExact(s: string)
    ensures |Trigrams(s)| == (if |s| < 2 then 0 else |s| - 2)
    ensures forall i :: 0 <= i < |Trigrams(s)| ==> Trigrams(s)[i] == s[i..i + 3]
  {
  }

  lemma NoSpans(spans: seq<(nat, nat)>)
    ensures Spans("", 0, spans) ==> spans == []
  {
    assert Spans("", 0, spans) && |spans| > 0 ==> WordAt("", spans[0].0, spans[0].1);
  }

  lemma LowerTail(s: string)
    requires s != ""
    ensures Lower(s) != "" && (IsSpace(Lower(s)[0]) <==> IsSpace(s[0])) && Lower(s)[1..] == Lower(s[1..])
  {
  }

  lemma LowerFront(s: string)
    requires s != ""
    ensures var n := |s| - 1;
            && |Lower(s)| == |s| && (IsSpace(Lower(s)[n]) <==> IsSpace(s[n])) && Lower(s)[..n] == Lower(s[..n])
  {
  }

  lemma {:induction false} LowerLStrip(s: string)
    ensures LStrip(Lower(s)) == Lower(LStrip(s))
  {
    hide LStrip, Lower, IsSpace;
    if s == "" {
      assert Lower(s) == "";
      NothingToStrip();
    } else {
      LowerTail(s);
      LStripStep(s);
      LStripStep(Lower(s));
      if IsSpace(s[0]) { LowerLStrip(s[1..]); }
    }
  }

  lemma {:induction false} LowerRStrip(s: string)
    ensures RStrip(Lower(s)) == Lower(RStrip(s))
  {
    hide RStrip, Lower, IsSpace;
    if s == "" {
      assert Lower(s) == "";
      NothingToStrip();
    } else {
      LowerFront(s);
      RStripStep(s);
      RStripStep(Lower(s));
      if IsSpace(s[|s| - 1]) { LowerRStrip(s[..|s| - 1]); }
    }
  }

  lemma LowerStrip(s: string)
    ensures Strip(Lower(s)) == Lower(Strip(s))
  {
    hide LStrip, RStrip, Lower;
    LowerLStrip(s);
    LowerRStrip(LStrip(s));
  }

  /** Letter case and surrounding whitespace make no difference to the tokens, hence to the embedding. */
  lemma TokensIgnoreCaseAndMargins(text: string)
    ensures Tokens(Lower(text)) == Tokens(text) == Tokens(Strip(text))
  {
    hide Strip, Lower, Words, Trigrams, Collapse;
    LowerTwice(text);
    LowerStrip(text);
    LowerStrip(Strip(text));
    StripStripped(text);
  }

  // ----- the embedding of a text -----

  function Embedding(text: string, slot: Slot, sign: Sign, dimension: nat, sqrt: real -> real): (v: seq<real>)
    requires dimension > 0
    ensures |v| == dimension
  {
    Normalised(sqrt, Reals(Histogram(Tokens(text), slot, sign, dimension)))
  }

  method EmbedText(text: string, slot: Slot, sign: Sign, dimension: nat, sqrt: real -> real) returns (v: seq<real>)
    requires dimension > 0
    ensures v == Embedding(text, slot, sign, dimension, sqrt)
    ensures IsSqrt(sqrt) ==> IsZero(v) || Dot(v, v) == 1.0
  {
    hide Tokens, Histogram, IsZero, IsSqrt;
    v := EmbedTokens(Tokens(text), slot, sign, dimension, sqrt);
    if IsSqrt(sqrt) { EmbeddingNorm(sqrt, Reals(Histogram(Tokens(text), slot, sign, dimension))); }
  }

  /** Texts that agree in letter case and margins, or as multisets of tokens, are embedded alike. */
  lemma EmbeddedAlike(a: string, b: string, slot: Slot, sign: Sign, dimension: nat, sqrt: real -> real)
    requires dimension > 0
    requires Lower(Strip(a)) == Lower(Strip(b)) || multiset(Tokens(a)) == multiset(Tokens(b))
    ensures Embedding(a, slot, sign, dimension, sqrt) == Embedding(b, slot, sign, dimension, sqrt)
  {
    hide Tokens, Histogram, Normalised, Strip, Lower;
    if Lower(Strip(a)) == Lower(Strip(b)) {
      TokensIgnoreCaseAndMargins(a);
      TokensIgnoreCaseAndMargins(Strip(a));
      TokensIgnoreCaseAndMargins(b);
      TokensIgnoreCaseAndMargins(Strip(b));
    }
    EmbeddingIgnoresOrder(Tokens(a), Tokens(b), slot, sign, dimension, sqrt);
  }
}

/**
 pkg/quantization/product.go: when k-means makes the clustering objective no worse than it was at the start.

 The search for the nearest centroid starts from the largest float32, so a vector that is farther than that from all
 centroids is assigned to centroid 0, wherever the others are, and pulls it away from the vectors around it.
 */
module KMeansDescent {
  import opened KMeans

  // ----- Staying inside the range of a float32 -----

  ghost predicate InBox(v: Vector, bound: real) {
    forall j :: 0 <= j < |v| ==> -bound <= v[j] <= bound
  }

  ghost predicate AllInBox(vectors: seq<Vector>, bound: real) {
    forall i :: 0 <= i < |vectors| ==> InBox(vectors[i], bound)
  }

  /** No squared distance between vectors of the box exceeds MAX_FLOAT32. */
  ghost predicate SmallBox(bound: real, dim: nat) {
    dim as real * (4.0 * bound * bound) <= MAX_FLOAT32
  }

  lemma BoxedSquare(x: real, y: real, bound: real)
    requires -bound <= x <= bound && -bound <= y <= bound
    ensures Square(x - y) <= 4.0 * bound * bound
  {
    var d := x - y;
    Product(2.0 * bound - d, 2.0 * bound + d);
    assert (2.0 * bound - d) * (2.0 * bound + d) == 4.0 * bound * bound - d * d;
  }

  lemma OneMoreTimes(n: nat, q: real)
    ensures (n + 1) as real * q == n as real * q + q
  {
  }

  lemma NextTimes(m: nat, q: real)
    ensures Times(m as real, q) == if m == 0 then 0.0 else Times((m - 1) as real, q) + q
  {
    if m > 0 {
      OneMoreTimes(m - 1, q);
    }
  }

  lemma {:induction false} BoxedDistance(a: Vector, b: Vector, bound: real, n: nat)
    requires n <= |a| && n <= |b| && InBox(a, bound) && InBox(b, bound)
    ensures PartialDistance(a, b, n) <= n as real * (4.0 * bound * bound)
  {
    if n > 0 {
      BoxedDistance(a, b, bound, n - 1);
      BoxedSquare(a[n - 1], b[n - 1], bound);
      OneMoreTimes(n - 1, 4.0 * bound * bound);
    }
  }

  lemma {:induction false} BoxedSum(vectors: seq<Vector>, assignments: seq<nat>, c: nat, j: nat, dim: nat,
                                    bound: real, n: nat)
    requires Uniform(vectors, dim) && AllInBox(vectors, bound) && j < dim && n <= |vectors| && n <= |assignments|
    ensures -Times(Members(assignments, c, n) as real, bound) <= CoordinateSum(vectors, assignments, c, j, dim, n)
         <= Times(Members(assignments, c, n) as real, bound)
  {
    hide Times;
    NextTimes(Members(assignments, c, n), bound);
    if n > 0 {
      BoxedSum(vectors, assignments, c, j, dim, bound, n - 1);
      assert InBox(vectors[n - 1], bound);
    }
  }

  lemma QuotientAtMost(sum: real, count: real, bound: real)
    requires count > 0.0 && sum <= Times(count, bound)
    ensures sum / count <= bound
  {
    var q := sum / count;
    assert q * count == sum;
    if q > bound {
      assert (q - bound) * count > 0.0;
    }
  }

  lemma QuotientAtLeast(sum: real, count: real, bound: real)
    requires count > 0.0 && -Times(count, bound) <= sum
    ensures -bound <= sum / count
  {
    var q := sum / count;
    assert q * count == sum;
    if q < -bound {
      assert (-bound - q) * count > 0.0;
    }
  }

  lemma UpdatedStaysInBox(vectors: seq<Vector>, assignments: seq<nat>, codebook: seq<Vector>, dim: nat, bound: real)
    requires Uniform(vectors, dim) && Uniform(codebook, dim) && |assignments| == |vectors|
    requires AllInBox(vectors, bound) && AllInBox(codebook, bound)
    ensures AllInBox(Updated(vectors, assignments, codebook, dim), bound)
  {
    var updated := Updated(vectors, assignments, codebook, dim);
    forall c | 0 <= c < |updated|
      ensures InBox(updated[c], bound)
    {
      var members := Members(assignments, c, |vectors|);
      if members > 0 {
        forall j | 0 <= j < dim
          ensures -bound <= updated[c][j] <= bound
        {
          BoxedSum(vectors, assignments, c, j, dim, bound, |vectors|);
          var sum := CoordinateSum(vectors, assignments, c, j, dim, |vectors|);
          QuotientAtMost(sum, members as real, bound);
          QuotientAtLeast(sum, members as real, bound);
        }
      } else {
        assert InBox(codebook[c], bound);
      }
    }
  }

  lemma DistanceInBox(v: Vector, w: Vector, bound: real)
    requires |v| == |w| && InBox(v, bound) && InBox(w, bound) && SmallBox(bound, |v|)
    ensures SquaredDistance(v, w) <= MAX_FLOAT32
  {
    BoxedDistance(v, w, bound, |v|);
  }

  /** When all distances are at most MAX_FLOAT32 and none is below it, all are equal and 0 is a first nearest index. */
  lemma NearestInBox(v: Vector, codebook: seq<Vector>, bound: real)
    requires Uniform(codebook, |v|) && codebook != [] && InBox(v, bound) && AllInBox(codebook, bound)
    requires SmallBox(bound, |v|)
    ensures FirstNearest(v, codebook, NearestIndex(v, codebook))
  {
    hide InBox, SmallBox, SquaredDistance;
    NearestIsFirst(v, codebook);
    forall c | 0 <= c < |codebook|
      ensures SquaredDistance(v, codebook[c]) <= MAX_FLOAT32
    {
      assert InBox(codebook[c], bound);
      DistanceInBox(v, codebook[c], bound);
    }
  }

  lemma {:induction false} RoundsLowerObjective(vectors: seq<Vector>, codebook: seq<Vector>, assignments: seq<nat>,
                                                dim: nat, n: nat, bound: real)
    requires Uniform(vectors, dim) && Uniform(codebook, dim) && codebook != [] && SmallBox(bound, dim)
    requires AllInBox(vectors, bound) && AllInBox(codebook, bound)
    ensures Objective(vectors, Rounds(vectors, codebook, assignments, dim, n), dim, |vectors|)
         <= Objective(vectors, codebook, dim, |vectors|)
    decreases n
  {
    hide Objective, FirstNearest, Updated, InBox, SmallBox;
    var next := Assigned(vectors, codebook, dim);
    if n > 0 && next != assignments {
      forall i | 0 <= i < |vectors|
        ensures FirstNearest(vectors[i], codebook, next[i])
      {
        NearestInBox(vectors[i], codebook, bound);
      }
      var updated := Updated(vectors, next, codebook, dim);
      IterationLowersObjective(vectors, next, codebook, dim);
      UpdatedStaysInBox(vectors, next, codebook, dim, bound);
      RoundsLowerObjective(vectors, updated, next, dim, n - 1, bound);
    }
  }

  // ----- A vector out of range -----

  /** The point with all coordinates x. */
  function At(x: real, dim: nat): (v: Vector)
    ensures |v| == dim && forall j :: 0 <= j < dim ==> v[j] == x
  {
    seq(dim, _ => x)
  }

  /** The squared distance between two such points. */
  function Apart(x: real, y: real, dim: nat): real {
    dim as real * Square(x - y)
  }

  lemma {:induction false} ApartSoFar(x: real, y: real, dim: nat, n: nat)
    requires n <= dim
    ensures PartialDistance(At(x, dim), At(y, dim), n) == n as real * Square(x - y)
  {
    if n > 0 {
      ApartSoFar(x, y, dim, n - 1);
      OneMoreTimes(n - 1, Square(x - y));
    }
  }

  lemma SamePoint(x: real, dim: nat)
    ensures Apart(x, x, dim) == 0.0
  {
  }

  lemma DistanceApart(x: real, y: real, dim: nat)
    ensures SquaredDistance(At(x, dim), At(y, dim)) == Apart(x, y, dim)
  {
    ApartSoFar(x, y, dim, dim);
  }

  function Spot(a: real, p: real, b: real, n: nat, i: int): real {
    if i < n then a else if i == n then p else b
  }

  /** n vectors at a, one at p and one at b. */
  function FarVectors(a: real, p: real, b: real, n: nat, dim: nat): (vectors: seq<Vector>)
    ensures |vectors| == n + 2 && Uniform(vectors, dim)
    ensures forall i :: 0 <= i < n + 2 ==> vectors[i] == At(Spot(a, p, b, n, i), dim)
  {
    seq(n + 2, i => At(Spot(a, p, b, n, i), dim))
  }

  function Pair(x: real, p: real, dim: nat): (codebook: seq<Vector>)
    ensures |codebook| == 2 && Uniform(codebook, dim) && codebook[0] == At(x, dim) && codebook[1] == At(p, dim)
  {
    [At(x, dim), At(p, dim)]
  }

  lemma NearestOfPair(v: Vector, codebook: seq<Vector>)
    requires |codebook| == 2 && Uniform(codebook, |v|)
    ensures
      var d0, d1 := SquaredDistance(v, codebook[0]), SquaredDistance(v, codebook[1]);
      NearestIndex(v, codebook) == (if d1 < MAX_FLOAT32 && d1 < d0 then 1 else 0)
  {
    var d0, d1 := SquaredDistance(v, codebook[0]), SquaredDistance(v, codebook[1]);
    assert Nearest(v, codebook, 0) == (0, MAX_FLOAT32);
    assert Nearest(v, codebook, 1) == (0, if d0 < MAX_FLOAT32 then d0 else MAX_FLOAT32);
    assert Nearest(v, codebook, 2).0 == if d1 < MAX_FLOAT32 && d1 < d0 then 1 else 0;
  }

  /** The point at p belongs to the second centroid, all others to the first. */
  function OneApart(n: nat): (assignments: seq<nat>)
    ensures |assignments| == n + 2 && forall i :: 0 <= i < n + 2 ==> assignments[i] == if i == n then 1 else 0
  {
    seq(n + 2, i => if i == n then 1 else 0)
  }

  /** The points at a and p are nearest to the centroids at x and p, and the one at b is in range of neither. */
  ghost predicate OutOfRange(a: real, p: real, b: real, x: real, dim: nat) {
    && Apart(a, x, dim) <= Apart(a, p, dim) && 0.0 < Apart(p, x, dim)
    && MAX_FLOAT32 <= Apart(b, p, dim) <= Apart(b, x, dim)
  }

  lemma FarAssignment(a: real, p: real, b: real, x: real, n: nat, dim: nat)
    requires OutOfRange(a, p, b, x, dim)
    ensures Assigned(FarVectors(a, p, b, n, dim), Pair(x, p, dim), dim) == OneApart(n)
  {
    var vectors, codebook := FarVectors(a, p, b, n, dim), Pair(x, p, dim);
    forall i | 0 <= i < n + 2
      ensures NearestIndex(vectors[i], codebook) == if i == n then 1 else 0
    {
      var y := Spot(a, p, b, n, i);
      NearestOfPair(At(y, dim), codebook);
      DistanceApart(y, x, dim);
      DistanceApart(y, p, dim);
      assert Apart(p, p, dim) == 0.0;
    }
  }

  lemma {:induction false} FarMembers(n: nat, m: nat)
    requires m <= n + 2
    ensures Members(OneApart(n), 0, m) == if m <= n then m else m - 1
    ensures Members(OneApart(n), 1, m) == if m <= n then 0 else 1
  {
    if m > 0 {
      FarMembers(n, m - 1);
    }
  }

  lemma {:induction false} FarSums(a: real, p: real, b: real, n: nat, dim: nat, j: nat, m: nat)
    requires m <= n + 2 && j < dim
    ensures CoordinateSum(FarVectors(a, p, b, n, dim), OneApart(n), 0, j, dim, m)
         == if m <= n then m as real * a else n as real * a + if m == n + 1 then 0.0 else b
    ensures CoordinateSum(FarVectors(a, p, b, n, dim), OneApart(n), 1, j, dim, m) == if m <= n then 0.0 else p
  {
    if m > 0 {
      FarSums(a, p, b, n, dim, j, m - 1);
      OneMoreTimes(m - 1, a);
    }
  }

  lemma QuotientIs(sum: real, count: real, q: real)
    requires count > 0.0 && sum == count * q
    ensures sum / count == q
  {
  }

  /** The mean of the points at a and the one at b is x. */
  ghost predicate Between(a: real, b: real, n: nat, x: real) {
    n as real * a + b == (n + 1) as real * x
  }

  lemma FarMeans(a: real, p: real, b: real, n: nat, dim: nat, x: real)
    requires Between(a, b, n, x)
    ensures Updated(FarVectors(a, p, b, n, dim), OneApart(n), Pair(a, p, dim), dim) == Pair(x, p, dim)
  {
    var vectors, next := FarVectors(a, p, b, n, dim), OneApart(n);
    FarMembers(n, n + 2);
    forall j | 0 <= j < dim
      ensures Mean(vectors, next, 0, dim)[j] == x && Mean(vectors, next, 1, dim)[j] == p
    {
      FarSums(a, p, b, n, dim, j, n + 2);
      QuotientIs(n as real * a + b, (n + 1) as real, x);
    }
    assert Mean(vectors, next, 0, dim) == At(x, dim) && Mean(vectors, next, 1, dim) == At(p, dim);
  }

  lemma LeastOfPair(y: real, x: real, p: real, dim: nat)
    ensures LeastDistance(At(y, dim), Pair(x, p, dim), 2)
         == if Apart(y, p, dim) < Apart(y, x, dim) then Apart(y, p, dim) else Apart(y, x, dim)
  {
    DistanceApart(y, x, dim);
    DistanceApart(y, p, dim);
    assert LeastDistance(At(y, dim), Pair(x, p, dim), 1) == Apart(y, x, dim);
  }

  lemma {:induction false} FarObjective(a: real, p: real, b: real, x: real, n: nat, dim: nat, m: nat)
    requires OutOfRange(a, p, b, x, dim) && m <= n + 2
    ensures Objective(FarVectors(a, p, b, n, dim), Pair(x, p, dim), dim, m)
         == if m <= n then Times(m as real, Apart(a, x, dim))
            else Times(n as real, Apart(a, x, dim)) + if m == n + 1 then 0.0 else Apart(b, p, dim)
  {
    hide LeastDistance, Apart, Times;
    NextTimes(m, Apart(a, x, dim));
    if m > 0 {
      FarObjective(a, p, b, x, n, dim, m - 1);
      LeastOfPair(Spot(a, p, b, n, m - 1), x, p, dim);
      SamePoint(p, dim);
    }
  }

  /** The centroid at a moves to the mean x, the point at b stays out of range, and the search ends. */
  lemma FarRounds(a: real, p: real, b: real, x: real, n: nat, dim: nat, rounds: nat)
    requires OutOfRange(a, p, b, a, dim) && OutOfRange(a, p, b, x, dim) && Between(a, b, n, x) && rounds > 1
    ensures Rounds(FarVectors(a, p, b, n, dim), Pair(a, p, dim), Zeros(n + 2), dim, rounds) == Pair(x, p, dim)
  {
    hide Rounds, OutOfRange, Between, Assigned, Updated;
    var vectors, next := FarVectors(a, p, b, n, dim), OneApart(n);
    FarAssignment(a, p, b, a, n, dim);
    FarMeans(a, p, b, n, dim, x);
    FarAssignment(a, p, b, x, n, dim);
    OneMoreRound(vectors, Pair(a, p, dim), Zeros(n + 2), dim, rounds);
    assert next[n] != Zeros(n + 2)[n];
    OneMoreRound(vectors, Pair(x, p, dim), next, dim, rounds - 1);
  }

  lemma ApartIsPositive(x: real, y: real, dim: nat)
    requires x != y && dim > 0
    ensures Apart(x, y, dim) > 0.0
  {
    PositiveSquare(x - y);
    PositiveTimes(dim as real, Square(x - y));
    assert Times(dim as real, Square(x - y)) == Apart(x, y, dim);
  }

  /** The codebook that such a search ends with is worse than its start. */
  lemma FarIsWorse(a: real, p: real, b: real, x: real, n: nat, dim: nat)
    requires OutOfRange(a, p, b, a, dim) && OutOfRange(a, p, b, x, dim) && Between(a, b, n, x)
    requires n > 0 && x != a && dim > 0
    ensures
      var vectors, start := FarVectors(a, p, b, n, dim), Pair(a, p, dim);
      Objective(vectors, Clustered(vectors, start, dim), dim, n + 2) > Objective(vectors, start, dim, n + 2)
  {
    hide Rounds, OutOfRange, Between, Objective;
    FarRounds(a, p, b, x, n, dim, MAX_ITERATIONS);
    FarObjective(a, p, b, a, n, dim, n + 2);
    FarObjective(a, p, b, x, n, dim, n + 2);
    ApartIsPositive(a, x, dim);
    PositiveTimes(n as real, Apart(a, x, dim));
    SamePoint(a, dim);
  }

  // ----- The boxes in which k-means never makes things worse -----

  ghost predicate IsStart(vectors: seq<Vector>, k: nat, picks: seq<nat>, dim: nat) {
    && Uniform(vectors, dim) && 0 < Clusters(vectors, k) <= |picks|
    && forall i :: 0 <= i < |picks| ==> picks[i] < |vectors|
  }

  /** Clustering vectors of the box, from whatever random start, ends with an objective at most that of the start. */
  ghost predicate NeverWorse(bound: real, dim: nat) {
    forall vectors, k, picks :: IsStart(vectors, k, picks, dim) && AllInBox(vectors, bound) ==>
      NoWorse(vectors, Picked(vectors, picks, Clusters(vectors, k)), dim)
  }

  ghost predicate NoWorse(vectors: seq<Vector>, start: seq<Vector>, dim: nat)
    requires Uniform(vectors, dim) && Uniform(start, dim) && start != []
  {
    Objective(vectors, Clustered(vectors, start, dim), dim, |vectors|) <= Objective(vectors, start, dim, |vectors|)
  }

  lemma SmallBoxDescends(vectors: seq<Vector>, start: seq<Vector>, dim: nat, bound: real)
    requires Uniform(vectors, dim) && Uniform(start, dim) && start != [] && SmallBox(bound, dim)
    requires AllInBox(vectors, bound) && AllInBox(start, bound)
    ensures NoWorse(vectors, start, dim)
  {
    RoundsLowerObjective(vectors, start, Zeros(|vectors|), dim, MAX_ITERATIONS, bound);
  }

  lemma SquareMonotone(d: real, e: real)
    requires 0.0 <= d <= e
    ensures Square(d) <= Square(e)
  {
    Product(e - d, e + d);
    assert (e - d) * (e + d) == Square(e) - Square(d);
  }

  /** Points on a line: the farther ones are farther apart in all coordinates. */
  lemma Farther(x: real, y: real, x': real, y': real, dim: nat)
    requires 0.0 <= y - x <= y' - x'
    ensures Apart(x, y, dim) <= Apart(x', y', dim) && Apart(y, x, dim) == Apart(x, y, dim)
  {
    SquareMonotone(y - x, y' - x');
    Product(dim as real, Square(y' - x') - Square(y - x));
    assert dim as real * (Square(y' - x') - Square(y - x))
        == dim as real * Square(y' - x') - dim as real * Square(y - x);
    assert Square(y - x) == Square(x - y) && Square(y' - x') == Square(x' - y');
  }

  lemma LessFactor(q: real, s: real, t: real)
    requires q > 0.0 && q * s < q * t
    ensures s < t
  {
    assert q * (s - t) == q * s - q * t;
    if s >= t {
      Product(q, s - t);
    }
  }

  lemma Distribute(q: real, a: real, b: real, c: real)
    ensures q * (a - b + c) == q * a - q * b + q * c
  {
  }

  lemma SquareOfStep(bound: real, t: real)
    ensures Square(bound - (-bound + t)) == 4.0 * bound * bound - 4.0 * bound * t + Square(t)
  {
    var d := 2.0 * bound - t;
    assert bound - (-bound + t) == d;
    assert d * d == 4.0 * bound * bound - 4.0 * bound * t + t * t;
  }

  lemma PositiveBound(bound: real, dim: nat)
    requires bound >= 0.0 && dim > 0 && !SmallBox(bound, dim)
    ensures Times(dim as real, 4.0 * bound) > 0.0
  {
    if bound > 0.0 {
      PositiveTimes(dim as real, 4.0 * bound);
    }
  }

  /** A step away from one corner of the box, after which the other corner is still out of range. */
  lemma SmallStep(bound: real, dim: nat) returns (t: real)
    requires bound >= 0.0 && dim > 0 && !SmallBox(bound, dim)
    ensures 0.0 < t <= bound && Apart(bound, -bound + t, dim) >= MAX_FLOAT32
  {
    var q := Times(dim as real, 4.0 * bound);
    PositiveBound(bound, dim);
    t := StepOf(q, q * bound - MAX_FLOAT32);
    assert q * bound == dim as real * (4.0 * bound * bound);
    LessFactor(q, 0.0, t);
    LessFactor(q, t, bound);
    StepLeaves(bound, dim, t);
  }

  lemma StepOf(q: real, excess: real) returns (t: real)
    requires q > 0.0
    ensures q * t == excess
  {
    t := excess / q;
  }

  lemma StepLeaves(bound: real, dim: nat, t: real)
    requires Times(dim as real, 4.0 * bound) * t == dim as real * (4.0 * bound * bound) - MAX_FLOAT32
    ensures Apart(bound, -bound + t, dim) >= MAX_FLOAT32
  {
    SquareOfStep(bound, t);
    Distribute(dim as real, 4.0 * bound * bound, 4.0 * bound * t, Square(t));
    assert Times(dim as real, 4.0 * bound) * t == dim as real * (4.0 * bound * t);
    Product(dim as real, Square(t));
  }

  /** So many points that the mean moves by less than the step. */
  lemma ManyPoints(bound: real, t: real) returns (n: nat, h: real)
    requires 0.0 < t <= bound
    ensures n > 0 && 0.0 < h < t && (n + 1) as real * h == 2.0 * bound
  {
    var ratio := 2.0 * bound / t;
    assert ratio * t == 2.0 * bound;
    PositiveRatio(ratio, t);
    n := ratio.Floor + 1;
    var count := (n + 1) as real;
    assert count > ratio;
    h := 2.0 * bound / count;
    assert count * h == 2.0 * bound;
    LessFactor(count, 0.0, h);
    Product(count - ratio, t);
    PositiveTimes(count - ratio, t);
    assert Times(count - ratio, t) == count * t - ratio * t;
    LessFactor(count, h, t);
  }

  lemma PositiveRatio(ratio: real, t: real)
    requires t > 0.0 && ratio * t > 0.0
    ensures ratio > 0.0
  {
    LessFactor(t, 0.0, ratio);
  }

  /** In a larger box there are points that clustering makes worse. */
  lemma FarPoints(bound: real, dim: nat) returns (p: real, x: real, n: nat)
    requires bound >= 0.0 && dim > 0 && !SmallBox(bound, dim)
    ensures OutOfRange(-bound, p, bound, -bound, dim) && OutOfRange(-bound, p, bound, x, dim)
    ensures Between(-bound, bound, n, x) && n > 0 && x != -bound && -bound <= p <= bound
  {
    var t := SmallStep(bound, dim);
    var h;
    n, h := ManyPoints(bound, t);
    p, x := -bound + t, -bound + h;
    StepIsOutOfRange(bound, dim, t, 0.0);
    StepIsOutOfRange(bound, dim, t, h);
    MeanOfCorners(bound, n, h);
  }

  lemma MeanOfCorners(bound: real, n: nat, h: real)
    requires (n + 1) as real * h == 2.0 * bound
    ensures Between(-bound, bound, n, -bound + h)
  {
    assert (n + 1) as real * (-bound + h) == (n + 1) as real * -bound + (n + 1) as real * h;
    OneMoreTimes(n, -bound);
  }

  lemma StepIsOutOfRange(bound: real, dim: nat, t: real, h: real)
    requires dim > 0 && 0.0 <= h < t <= bound && Apart(bound, -bound + t, dim) >= MAX_FLOAT32
    ensures OutOfRange(-bound, -bound + t, bound, -bound + h, dim)
  {
    hide Apart;
    var a, p, x := -bound, -bound + t, -bound + h;
    Farther(a, x, a, p, dim);
    Farther(p, bound, x, bound, dim);
    Farther(x, bound, x, bound, dim);
    ApartIsPositive(p, x, dim);
  }

  lemma FarStart(a: real, p: real, b: real, n: nat, dim: nat)
    requires n > 0 && a <= p <= b && a == -b
    ensures
      var vectors, picks := FarVectors(a, p, b, n, dim), [0] + [n];
      && IsStart(vectors, 2, picks, dim) && AllInBox(vectors, b) && Clusters(vectors, 2) == 2
      && Picked(vectors, picks, 2) == Pair(a, p, dim)
  {
    var vectors, picks := FarVectors(a, p, b, n, dim), [0] + [n];
    assert picks[0] == 0 && picks[1] == n;
    var codebook := Picked(vectors, picks, 2);
    assert codebook[0] == At(a, dim) && codebook[1] == At(p, dim);
  }

  lemma LargeBoxFails(bound: real, dim: nat)
    requires bound >= 0.0 && dim > 0 && !SmallBox(bound, dim)
    ensures !NeverWorse(bound, dim)
  {
    hide OutOfRange, Between, Objective, Clustered, AllInBox, SmallBox, IsStart;
    var p, x, n := FarPoints(bound, dim);
    FarIsWorse(-bound, p, bound, x, n, dim);
    FarStart(-bound, p, bound, n, dim);
  }

  /** Main result: k-means never ends with a larger objective than it started with, whatever the vectors of the box and
      the random draws, exactly when the square of the diagonal of the box is at most the largest float32. */
  lemma NeverWorseExactly(bound: real, dim: nat)
    requires bound >= 0.0 && dim > 0
    ensures NeverWorse(bound, dim) <==> dim as real * (4.0 * bound * bound) <= MAX_FLOAT32
  {
    if SmallBox(bound, dim) {
      hide AllInBox, NoWorse;
      forall vectors, k, picks | IsStart(vectors, k, picks, dim) && AllInBox(vectors, bound)
        ensures NoWorse(vectors, Picked(vectors, picks, Clusters(vectors, k)), dim)
      {
        PickedInBox(vectors, picks, Clusters(vectors, k), bound);
        SmallBoxDescends(vectors, Picked(vectors, picks, Clusters(vectors, k)), dim, bound);
      }
    } else {
      LargeBoxFails(bound, dim);
    }
  }

  lemma PickedInBox(vectors: seq<Vector>, picks: seq<nat>, k: nat, bound: real)
    requires k <= |picks| && AllInBox(vectors, bound) && forall i :: 0 <= i < |picks| ==> picks[i] < |vectors|
    ensures AllInBox(Picked(vectors, picks, k), bound)
  {
  }
}

/**
 pkg/quantization/product.go: nearest-centroid search and k-means clustering, over exact reals.

 The objective of a codebook is the sum, over the training vectors, of the squared distance to the nearest
 centroid. Every iteration of the clustering loop lowers it or leaves it alone.
 */
module KMeans {

  type Vector = seq<real>

  // math.MaxFloat32, the start value of the nearest-centroid search
  const MAX_FLOAT32: real := 340282346638528859811704183484516925440.0

  function Square(x: real): (r: real)
    ensures r >= 0.0
  {
    x * x
  }

  lemma Product(p: real, q: real)
    requires p >= 0.0 && q >= 0.0
    ensures p * q >= 0.0
  {
  }

  function Times(p: real, q: real): real {
    p * q
  }

  lemma PositiveTimes(p: real, q: real)
    requires p > 0.0 && q > 0.0
    ensures Times(p, q) > 0.0
  {
  }

  lemma PositiveSquare(x: real)
    requires x != 0.0
    ensures Square(x) > 0.0
  {
    if x > 0.0 {
      PositiveTimes(x, x);
      assert Times(x, x) == Square(x);
    } else {
      PositiveTimes(-x, -x);
      assert Times(-x, -x) == Square(x);
    }
  }

  // ----- Squared distance -----

  /** Squared distance between the first n coordinates. */
  ghost function PartialDistance(a: Vector, b: Vector, n: nat): (r: real)
    requires n <= |a| && n <= |b|
    ensures r >= 0.0
  {
    if n == 0 then 0.0 else PartialDistance(a, b, n - 1) + Square(a[n - 1] - b[n - 1])
  }

  ghost function SquaredDistance(a: Vector, b: Vector): (r: real)
    requires |a| <= |b|
    ensures r >= 0.0
  {
    PartialDistance(a, b, |a|)
  }

  method ComputeSquaredDistance(a: Vector, b: Vector) returns (sum: real)
    requires |a| <= |b|
    ensures sum == SquaredDistance(a, b)
  {
    sum := 0.0;
    for i := 0 to |a|
      invariant sum == PartialDistance(a, b, i)
    {
      var d := a[i] - b[i];
      sum := sum + d * d;
    }
  }

  lemma {:induction false} ZeroDistance(a: Vector, b: Vector, n: nat)
    requires n <= |a| && n <= |b|
    ensures PartialDistance(a, b, n) == 0.0 <==> a[..n] == b[..n]
  {
    if n > 0 {
      ZeroDistance(a, b, n - 1);
      assert a[..n] == a[..n - 1] + [a[n - 1]] && b[..n] == b[..n - 1] + [b[n - 1]];
      var d := a[n - 1] - b[n - 1];
      if d != 0.0 {
        PositiveSquare(d);
      }
      if a[..n] == b[..n] {
        assert a[..n - 1] == a[..n][..n - 1] && b[..n - 1] == b[..n][..n - 1];
        assert a[..n][n - 1] == b[..n][n - 1];
      }
    }
  }

  // ----- Nearest centroid -----

  ghost predicate Uniform(codebook: seq<Vector>, dim: nat) {
    forall c :: 0 <= c < |codebook| ==> |codebook[c]| == dim
  }

  /** best is the first of the centroids with the least distance to v. */
  ghost predicate FirstNearest(v: Vector, codebook: seq<Vector>, best: nat)
    requires Uniform(codebook, |v|)
  {
    && best < |codebook|
    && (forall c :: 0 <= c < |codebook| ==> SquaredDistance(v, codebook[best]) <= SquaredDistance(v, codebook[c]))
    && (forall c :: 0 <= c < best ==> SquaredDistance(v, codebook[best]) < SquaredDistance(v, codebook[c]))
  }

  ghost predicate SomeInRange(v: Vector, codebook: seq<Vector>)
    requires Uniform(codebook, |v|)
  {
    exists c :: 0 <= c < |codebook| && SquaredDistance(v, codebook[c]) < MAX_FLOAT32
  }

  /** What the search has found after n centroids: an index and a distance below which the next one has to be. */
  ghost function Nearest(v: Vector, codebook: seq<Vector>, n: nat): (r: (nat, real))
    requires Uniform(codebook, |v|) && n <= |codebook|
    ensures codebook != [] ==> r.0 < |codebook|
  {
    if n == 0 then (0, MAX_FLOAT32)
    else
      var best, d := Nearest(v, codebook, n - 1), SquaredDistance(v, codebook[n - 1]);
      if d < best.1 then (n - 1, d) else best
  }

  ghost function NearestIndex(v: Vector, codebook: seq<Vector>): (best: nat)
    requires Uniform(codebook, |v|)
    ensures codebook != [] ==> best < |codebook|
  {
    Nearest(v, codebook, |codebook|).0
  }

  ghost predicate FoundSoFar(v: Vector, codebook: seq<Vector>, n: nat, r: (nat, real))
    requires Uniform(codebook, |v|) && n <= |codebook|
  {
    && r.1 <= MAX_FLOAT32
    && (r.1 == MAX_FLOAT32 ==> r.0 == 0)
    && (r.1 < MAX_FLOAT32 ==> r.0 < n && r.1 == SquaredDistance(v, codebook[r.0]))
    && (forall c :: 0 <= c < n ==> r.1 <= SquaredDistance(v, codebook[c]))
    && (forall c :: 0 <= c < n && c < r.0 ==> r.1 < SquaredDistance(v, codebook[c]))
  }

  lemma {:induction false} NearestSoFar(v: Vector, codebook: seq<Vector>, n: nat)
    requires Uniform(codebook, |v|) && n <= |codebook|
    ensures FoundSoFar(v, codebook, n, Nearest(v, codebook, n))
  {
    if n > 0 {
      NearestSoFar(v, codebook, n - 1);
    }
  }

  lemma NearestIsFirst(v: Vector, codebook: seq<Vector>)
    requires Uniform(codebook, |v|)
    ensures if SomeInRange(v, codebook) then FirstNearest(v, codebook, NearestIndex(v, codebook))
            else NearestIndex(v, codebook) == 0
  {
    NearestSoFar(v, codebook, |codebook|);
  }

  /** Main result: the first of the nearest centroids, or 0 when none is in the range of a float32. */
  method FindNearestCentroid(v: Vector, codebook: seq<Vector>) returns (bestIdx: nat)
    requires Uniform(codebook, |v|)
    ensures bestIdx == NearestIndex(v, codebook)
    ensures if SomeInRange(v, codebook) then FirstNearest(v, codebook, bestIdx) else bestIdx == 0
  {
    bestIdx := 0;
    var bestDist := MAX_FLOAT32;
    for i := 0 to |codebook|
      invariant (bestIdx, bestDist) == Nearest(v, codebook, i)
    {
      var d := ComputeSquaredDistance(v, codebook[i]);
      if d < bestDist {
        bestDist := d;
        bestIdx := i;
      }
    }
    NearestIsFirst(v, codebook);
  }

  /** The nearest centroid of every vector. */
  ghost function Assigned(vectors: seq<Vector>, codebook: seq<Vector>, dim: nat): (assignments: seq<nat>)
    requires Uniform(vectors, dim) && Uniform(codebook, dim)
    ensures |assignments| == |vectors|
    ensures codebook != [] ==> forall i :: 0 <= i < |vectors| ==> assignments[i] < |codebook|
  {
    seq(|vectors|, i requires 0 <= i < |vectors| => NearestIndex(vectors[i], codebook))
  }

  // ----- Objective and cost of an assignment -----

  /** Distance from v to the nearest of the first n centroids. */
  ghost function LeastDistance(v: Vector, codebook: seq<Vector>, n: nat): real
    requires Uniform(codebook, |v|) && 0 < n <= |codebook|
  {
    var d := SquaredDistance(v, codebook[n - 1]);
    if n == 1 then d else
    var e := LeastDistance(v, codebook, n - 1);
    if d < e then d else e
  }

  lemma {:induction false} LeastDistanceIsLeast(v: Vector, codebook: seq<Vector>, n: nat)
    requires Uniform(codebook, |v|) && 0 < n <= |codebook|
    ensures forall c :: 0 <= c < n ==> LeastDistance(v, codebook, n) <= SquaredDistance(v, codebook[c])
    ensures exists c :: 0 <= c < n && LeastDistance(v, codebook, n) == SquaredDistance(v, codebook[c])
  {
    if n > 1 {
      LeastDistanceIsLeast(v, codebook, n - 1);
    }
  }

  /** The clustering objective over the first n training vectors. */
  ghost function Objective(vectors: seq<Vector>, codebook: seq<Vector>, dim: nat, n: nat): real
    requires Uniform(vectors, dim) && Uniform(codebook, dim) && codebook != [] && n <= |vectors|
  {
    if n == 0 then 0.0
    else Objective(vectors, codebook, dim, n - 1) + LeastDistance(vectors[n - 1], codebook, |codebook|)
  }

  ghost predicate IsAssignment(assignments: seq<nat>, n: nat, k: nat) {
    n <= |assignments| && forall i :: 0 <= i < |assignments| ==> assignments[i] < k
  }

  /** Sum of the distances of the first n vectors to the centroids they are assigned to. */
  ghost function Cost(vectors: seq<Vector>, assignments: seq<nat>, codebook: seq<Vector>, dim: nat, n: nat): real
    requires Uniform(vectors, dim) && Uniform(codebook, dim) && n <= |vectors|
    requires IsAssignment(assignments, n, |codebook|)
  {
    if n == 0 then 0.0
    else Cost(vectors, assignments, codebook, dim, n - 1)
         + SquaredDistance(vectors[n - 1], codebook[assignments[n - 1]])
  }

  lemma {:induction false} ObjectiveAtMostCost(vectors: seq<Vector>, assignments: seq<nat>, codebook: seq<Vector>,
                                               dim: nat, n: nat)
    requires Uniform(vectors, dim) && Uniform(codebook, dim) && codebook != [] && n <= |vectors|
    requires IsAssignment(assignments, n, |codebook|)
    ensures Objective(vectors, codebook, dim, n) <= Cost(vectors, assignments, codebook, dim, n)
    ensures (forall i :: 0 <= i < n ==> FirstNearest(vectors[i], codebook, assignments[i])) ==>
              Objective(vectors, codebook, dim, n) == Cost(vectors, assignments, codebook, dim, n)
  {
    if n > 0 {
      ObjectiveAtMostCost(vectors, assignments, codebook, dim, n - 1);
      LeastDistanceIsLeast(vectors[n - 1], codebook, |codebook|);
    }
  }

  // ----- The mean of a cluster -----

  ghost function Members(assignments: seq<nat>, c: nat, n: nat): nat
    requires n <= |assignments|
  {
    if n == 0 then 0 else Members(assignments, c, n - 1) + if assignments[n - 1] == c then 1 else 0
  }

  ghost function CoordinateSum(vectors: seq<Vector>, assignments: seq<nat>, c: nat, j: nat, dim: nat, n: nat): real
    requires Uniform(vectors, dim) && j < dim && n <= |vectors| && n <= |assignments|
  {
    if n == 0 then 0.0
    else CoordinateSum(vectors, assignments, c, j, dim, n - 1)
         + if assignments[n - 1] == c then vectors[n - 1][j] else 0.0
  }

  ghost function Mean(vectors: seq<Vector>, assignments: seq<nat>, c: nat, dim: nat): (m: Vector)
    requires Uniform(vectors, dim) && |assignments| == |vectors| && Members(assignments, c, |vectors|) > 0
    ensures |m| == dim
  {
    seq(dim, j requires 0 <= j < dim =>
      CoordinateSum(vectors, assignments, c, j, dim, |vectors|) / Members(assignments, c, |vectors|) as real)
  }

  /** Centroids after the update phase: an empty cluster keeps its centroid. */
  ghost function Updated(vectors: seq<Vector>, assignments: seq<nat>, codebook: seq<Vector>, dim: nat): (u: seq<Vector>)
    requires Uniform(vectors, dim) && Uniform(codebook, dim) && |assignments| == |vectors|
    ensures |u| == |codebook| && Uniform(u, dim)
  {
    seq(|codebook|, c requires 0 <= c < |codebook| =>
      if Members(assignments, c, |vectors|) > 0 then Mean(vectors, assignments, c, dim) else codebook[c])
  }

  /** Changing one coordinate of a vector changes the distance by the change of one square. */
  lemma {:induction false} DistanceShift(v: Vector, w: Vector, j: nat, x: real, n: nat)
    requires |v| == |w| && j < |w| && n <= |w|
    ensures PartialDistance(v, w[j := x], n) ==
            PartialDistance(v, w, n) + if j < n then Square(v[j] - x) - Square(v[j] - w[j]) else 0.0
  {
    if n > 0 {
      DistanceShift(v, w, j, x, n - 1);
    }
  }

  lemma SquareDifference(v: real, x: real, y: real)
    ensures Square(v - x) - Square(v - y) == (x * x - y * y) - 2.0 * (x - y) * v
  {
  }

  lemma OneMore(members: nat, sum: real, v: real, p: real, q: real)
    ensures (members + 1) as real * p - q * (sum + v) == members as real * p - q * sum + (p - q * v)
  {
  }

  /** What the first n vectors add to the cost when centroid c moves from y to x in coordinate j. */
  ghost function Shift(vectors: seq<Vector>, assignments: seq<nat>, dim: nat, c: nat, j: nat, x: real, y: real,
                       n: nat): real
    requires Uniform(vectors, dim) && j < dim && n <= |vectors| && n <= |assignments|
  {
    Members(assignments, c, n) as real * (x * x - y * y)
    - 2.0 * (x - y) * CoordinateSum(vectors, assignments, c, j, dim, n)
  }

  lemma ShiftStep(vectors: seq<Vector>, assignments: seq<nat>, dim: nat, c: nat, j: nat, x: real, y: real, n: nat)
    requires Uniform(vectors, dim) && j < dim && 0 < n <= |vectors| && n <= |assignments|
    ensures Shift(vectors, assignments, dim, c, j, x, y, n) == Shift(vectors, assignments, dim, c, j, x, y, n - 1)
              + if assignments[n - 1] == c then Square(vectors[n - 1][j] - x) - Square(vectors[n - 1][j] - y) else 0.0
  {
    if assignments[n - 1] == c {
      var v := vectors[n - 1][j];
      SquareDifference(v, x, y);
      OneMore(Members(assignments, c, n - 1), CoordinateSum(vectors, assignments, c, j, dim, n - 1), v,
              x * x - y * y, 2.0 * (x - y));
    }
  }

  lemma {:induction false} CostShift(vectors: seq<Vector>, assignments: seq<nat>, codebook: seq<Vector>, dim: nat,
                                     c: nat, j: nat, x: real, n: nat)
    requires Uniform(vectors, dim) && Uniform(codebook, dim) && n <= |vectors|
    requires IsAssignment(assignments, n, |codebook|) && c < |codebook| && j < dim
    ensures
      Cost(vectors, assignments, codebook[c := codebook[c][j := x]], dim, n) ==
      Cost(vectors, assignments, codebook, dim, n) + Shift(vectors, assignments, dim, c, j, x, codebook[c][j], n)
  {
    if n > 0 {
      CostShift(vectors, assignments, codebook, dim, c, j, x, n - 1);
      ShiftStep(vectors, assignments, dim, c, j, x, codebook[c][j], n);
      if assignments[n - 1] == c {
        DistanceShift(vectors[n - 1], codebook[c], j, x, dim);
      }
    }
  }

  lemma MeanMinimisesSquares(count: real, sum: real, x: real, y: real)
    requires count > 0.0 && x == sum / count
    ensures count * (x * x - y * y) - 2.0 * (x - y) * sum <= 0.0
  {
    assert sum == count * x;
    assert count * (x * x - y * y) - 2.0 * (x - y) * (count * x) == -(count * Square(x - y));
    assert count * Square(x - y) >= 0.0;
  }

  lemma ShiftToMean(vectors: seq<Vector>, assignments: seq<nat>, dim: nat, c: nat, j: nat, y: real)
    requires Uniform(vectors, dim) && j < dim && |assignments| == |vectors| && Members(assignments, c, |vectors|) > 0
    ensures Shift(vectors, assignments, dim, c, j, Mean(vectors, assignments, c, dim)[j], y, |vectors|) <= 0.0
  {
    MeanMinimisesSquares(Members(assignments, c, |vectors|) as real,
                         CoordinateSum(vectors, assignments, c, j, dim, |vectors|),
                         Mean(vectors, assignments, c, dim)[j], y);
  }

  /** Replacing the first j coordinates of centroid c by those of the mean does not raise the cost. */
  lemma {:induction false} TowardsMean(vectors: seq<Vector>, assignments: seq<nat>, codebook: seq<Vector>, dim: nat,
                                       c: nat, j: nat)
    requires Uniform(vectors, dim) && Uniform(codebook, dim) && |assignments| == |vectors|
    requires IsAssignment(assignments, |vectors|, |codebook|) && c < |codebook| && j <= dim
    requires Members(assignments, c, |vectors|) > 0
    ensures
      var moved := codebook[c := Mean(vectors, assignments, c, dim)[..j] + codebook[c][j..]];
      Uniform(moved, dim) &&
      Cost(vectors, assignments, moved, dim, |vectors|) <= Cost(vectors, assignments, codebook, dim, |vectors|)
  {
    var mean := Mean(vectors, assignments, c, dim);
    if j == 0 {
      assert mean[..0] + codebook[c][0..] == codebook[c];
      assert codebook[c := codebook[c]] == codebook;
    } else {
      TowardsMean(vectors, assignments, codebook, dim, c, j - 1);
      var before := codebook[c := mean[..j - 1] + codebook[c][j - 1..]];
      CostShift(vectors, assignments, before, dim, c, j - 1, mean[j - 1], |vectors|);
      ShiftToMean(vectors, assignments, dim, c, j - 1, before[c][j - 1]);
      assert before[c][j - 1 := mean[j - 1]] == mean[..j] + codebook[c][j..];
      assert before[c := before[c][j - 1 := mean[j - 1]]] == codebook[c := mean[..j] + codebook[c][j..]];
    }
  }

  /** The first c centroids are updated, the others are kept. */
  ghost function Mixed(updated: seq<Vector>, kept: seq<Vector>, c: nat, dim: nat): (mixed: seq<Vector>)
    requires c <= |kept| == |updated| && Uniform(updated, dim) && Uniform(kept, dim)
    ensures |mixed| == |kept| && Uniform(mixed, dim) && (c < |kept| ==> mixed[c] == kept[c])
  {
    updated[..c] + kept[c..]
  }

  lemma OneMoreReplaced(updated: seq<Vector>, kept: seq<Vector>, c: nat, dim: nat)
    requires c < |kept| == |updated| && Uniform(updated, dim) && Uniform(kept, dim)
    ensures Mixed(updated, kept, c + 1, dim) == Mixed(updated, kept, c, dim)[c := updated[c]]
  {
  }

  /** Updating the centroid c, which no update has touched yet, does not raise the cost of the assignment. */
  lemma UpdateOneLowersCost(vectors: seq<Vector>, assignments: seq<nat>, codebook: seq<Vector>, current: seq<Vector>,
                            dim: nat, c: nat)
    requires Uniform(vectors, dim) && Uniform(codebook, dim) && |assignments| == |vectors|
    requires Uniform(current, dim) && |current| == |codebook| && c < |codebook| && current[c] == codebook[c]
    requires IsAssignment(assignments, |vectors|, |codebook|)
    ensures
      var next := current[c := Updated(vectors, assignments, codebook, dim)[c]];
      Uniform(next, dim) &&
      Cost(vectors, assignments, next, dim, |vectors|) <= Cost(vectors, assignments, current, dim, |vectors|)
  {
    if Members(assignments, c, |vectors|) > 0 {
      TowardsMean(vectors, assignments, current, dim, c, dim);
      var mean := Mean(vectors, assignments, c, dim);
      assert mean[..dim] + current[c][dim..] == mean;
    } else {
      assert current[c := codebook[c]] == current;
    }
  }

  /** Updating the first c centroids does not raise the cost of the assignment. */
  lemma {:induction false} UpdateLowersCost(vectors: seq<Vector>, assignments: seq<nat>, codebook: seq<Vector>,
                                            dim: nat, c: nat)
    requires Uniform(vectors, dim) && Uniform(codebook, dim) && |assignments| == |vectors|
    requires IsAssignment(assignments, |vectors|, |codebook|) && c <= |codebook|
    ensures Cost(vectors, assignments, Mixed(Updated(vectors, assignments, codebook, dim), codebook, c, dim), dim,
                 |vectors|)
         <= Cost(vectors, assignments, codebook, dim, |vectors|)
  {
    var updated := Updated(vectors, assignments, codebook, dim);
    if c == 0 {
      assert Mixed(updated, codebook, 0, dim) == codebook;
    } else {
      UpdateLowersCost(vectors, assignments, codebook, dim, c - 1);
      UpdateOneLowersCost(vectors, assignments, codebook, Mixed(updated, codebook, c - 1, dim), dim, c - 1);
      OneMoreReplaced(updated, codebook, c - 1, dim);
    }
  }

  /** Main result for one iteration: reassigning to nearest centroids and moving to means lowers the objective. */
  lemma IterationLowersObjective(vectors: seq<Vector>, assignments: seq<nat>, codebook: seq<Vector>, dim: nat)
    requires Uniform(vectors, dim) && Uniform(codebook, dim) && |assignments| == |vectors| && codebook != []
    requires IsAssignment(assignments, |vectors|, |codebook|)
    requires forall i :: 0 <= i < |vectors| ==> FirstNearest(vectors[i], codebook, assignments[i])
    ensures Objective(vectors, Updated(vectors, assignments, codebook, dim), dim, |vectors|)
         <= Objective(vectors, codebook, dim, |vectors|)
  {
    var updated := Updated(vectors, assignments, codebook, dim);
    UpdateLowersCost(vectors, assignments, codebook, dim, |codebook|);
    assert Mixed(updated, codebook, |codebook|, dim) == updated;
    ObjectiveAtMostCost(vectors, assignments, codebook, dim, |vectors|);
    ObjectiveAtMostCost(vectors, assignments, updated, dim, |vectors|);
  }

  // ----- The clustering loop -----

  function Clusters(vectors: seq<Vector>, k: nat): nat {
    if |vectors| < k then |vectors| else k
  }

  /** The random start: centroid i is a copy of the vector that the i-th random index picks. */
  function Picked(vectors: seq<Vector>, picks: seq<nat>, k: nat): seq<Vector>
    requires k <= |picks| && forall i :: 0 <= i < |picks| ==> picks[i] < |vectors|
  {
    seq(k, i requires 0 <= i < k => vectors[picks[i]])
  }

  method AssignPhase(vectors: seq<Vector>, centroids: seq<Vector>, assignments: array<nat>, dim: nat)
    returns (changed: bool)
    requires Uniform(vectors, dim) && Uniform(centroids, dim) && assignments.Length == |vectors|
    modifies assignments
    ensures assignments[..] == Assigned(vectors, centroids, dim)
    ensures changed <==> assignments[..] != old(assignments[..])
  {
    changed := false;
    for i := 0 to |vectors|
      invariant !changed ==> assignments[..] == old(assignments[..])
      invariant changed ==> exists n :: 0 <= n < i && assignments[n] != old(assignments[n])
      invariant forall n :: i <= n < |vectors| ==> assignments[n] == old(assignments[n])
      invariant forall n :: 0 <= n < i ==> assignments[n] == NearestIndex(vectors[n], centroids)
    {
      var best := FindNearestCentroid(vectors[i], centroids);
      if best != assignments[i] {
        changed := true;
      }
      assignments[i] := best;
    }
  }

  /** sums holds, for every centroid, the coordinate sums over the first n vectors. */
  ghost predicate SumsUpTo(sums: seq<Vector>, vectors: seq<Vector>, assignments: seq<nat>, dim: nat, n: nat)
    requires Uniform(vectors, dim) && n <= |vectors| && n <= |assignments|
  {
    && Uniform(sums, dim)
    && forall c: nat, j: nat :: c < |sums| && j < dim ==>
         sums[c][j] == CoordinateSum(vectors, assignments, c, j, dim, n)
  }

  method AddVector(sums: array<Vector>, v: Vector, c: nat)
    requires c < sums.Length && |sums[c]| == |v|
    modifies sums
    ensures |sums[c]| == |v| && forall j :: 0 <= j < |v| ==> sums[c][j] == old(sums[c])[j] + v[j]
    ensures forall d :: 0 <= d < sums.Length && d != c ==> sums[d] == old(sums[d])
  {
    for j := 0 to |v|
      invariant |sums[c]| == |v|
      invariant forall n :: 0 <= n < |v| ==> sums[c][n] == if n < j then old(sums[c])[n] + v[n] else old(sums[c])[n]
      invariant forall d :: 0 <= d < sums.Length && d != c ==> sums[d] == old(sums[d])
    {
      sums[c] := sums[c][j := sums[c][j] + v[j]];
    }
  }

  method SetMean(centroids: array<Vector>, c: nat, sum: Vector, count: nat)
    requires c < centroids.Length && |centroids[c]| == |sum| && count > 0
    modifies centroids
    ensures |centroids[c]| == |sum| && forall j :: 0 <= j < |sum| ==> centroids[c][j] == sum[j] / count as real
    ensures forall d :: 0 <= d < centroids.Length && d != c ==> centroids[d] == old(centroids[d])
  {
    for j := 0 to |sum|
      invariant |centroids[c]| == |sum| && forall n :: 0 <= n < j ==> centroids[c][n] == sum[n] / count as real
      invariant forall d :: 0 <= d < centroids.Length && d != c ==> centroids[d] == old(centroids[d])
    {
      centroids[c] := centroids[c][j := sum[j] / count as real];
    }
  }

  method UpdatePhase(vectors: seq<Vector>, centroids: array<Vector>, assignments: seq<nat>, dim: nat)
    requires Uniform(vectors, dim) && Uniform(centroids[..], dim) && |assignments| == |vectors|
    requires IsAssignment(assignments, |vectors|, centroids.Length)
    modifies centroids
    ensures centroids[..] == Updated(vectors, assignments, old(centroids[..]), dim)
  {
    var k := centroids.Length;
    var counts := new nat[k](_ => 0);
    var sums := new Vector[k](_ => seq(dim, _ => 0.0));
    for i := 0 to |vectors|
      invariant forall c :: 0 <= c < k ==> counts[c] == Members(assignments, c, i)
      invariant SumsUpTo(sums[..], vectors, assignments, dim, i)
      invariant centroids[..] == old(centroids[..])
    {
      var c := assignments[i];
      counts[c] := counts[c] + 1;
      assert |sums[..][c]| == dim;
      AddVector(sums, vectors[i], c);
    }
    ghost var updated := Updated(vectors, assignments, old(centroids[..]), dim);
    for i := 0 to k
      invariant forall c :: 0 <= c < k ==> counts[c] == Members(assignments, c, |vectors|)
      invariant SumsUpTo(sums[..], vectors, assignments, dim, |vectors|)
      invariant forall c :: 0 <= c < k ==> centroids[c] == if c < i then updated[c] else old(centroids[c])
    {
      if counts[i] > 0 {
        assert |centroids[i]| == |old(centroids[..])[i]| == dim && |sums[..][i]| == dim;
        SetMean(centroids, i, sums[i], counts[i]);
        assert centroids[i] == updated[i];
      }
    }
  }

  function Zeros(n: nat): (z: seq<nat>)
    ensures |z| == n && forall i :: 0 <= i < n ==> z[i] == 0
  {
    seq(n, _ => 0)
  }

  /** The codebook that at most n rounds make of this one: as long as an assignment changes, the centroids move to the
      means of what is assigned to them. */
  ghost function Rounds(vectors: seq<Vector>, codebook: seq<Vector>, assignments: seq<nat>, dim: nat, n: nat)
    : (r: seq<Vector>)
    requires Uniform(vectors, dim) && Uniform(codebook, dim)
    ensures |r| == |codebook| && Uniform(r, dim)
    decreases n
  {
    var next := Assigned(vectors, codebook, dim);
    if n == 0 || next == assignments then codebook
    else Rounds(vectors, Updated(vectors, next, codebook, dim), next, dim, n - 1)
  }

  /** How many times they move. */
  ghost function Moves(vectors: seq<Vector>, codebook: seq<Vector>, assignments: seq<nat>, dim: nat, n: nat): nat
    requires Uniform(vectors, dim) && Uniform(codebook, dim)
    decreases n
  {
    var next := Assigned(vectors, codebook, dim);
    if n == 0 || next == assignments then 0
    else 1 + Moves(vectors, Updated(vectors, next, codebook, dim), next, dim, n - 1)
  }

  const MAX_ITERATIONS := 20

  /** What k-means makes of the start codebook; at first every vector is assigned to centroid 0. */
  ghost function Clustered(vectors: seq<Vector>, start: seq<Vector>, dim: nat): (r: seq<Vector>)
    requires Uniform(vectors, dim) && Uniform(start, dim)
    ensures |r| == |start| && Uniform(r, dim)
  {
    Rounds(vectors, start, Zeros(|vectors|), dim, MAX_ITERATIONS)
  }

  /** Centroid 0 is as near to v as any other, or none is in range. */
  ghost predicate StaysAtZero(v: Vector, codebook: seq<Vector>)
    requires Uniform(codebook, |v|)
  {
    SomeInRange(v, codebook) ==>
      forall c :: 0 <= c < |codebook| ==> SquaredDistance(v, codebook[0]) <= SquaredDistance(v, codebook[c])
  }

  lemma NearestIsZeroExactly(v: Vector, codebook: seq<Vector>)
    requires Uniform(codebook, |v|)
    ensures NearestIndex(v, codebook) == 0 <==> StaysAtZero(v, codebook)
  {
    NearestIsFirst(v, codebook);
  }

  /** The start is returned without a single move exactly when every vector is as near to centroid 0 as to any other,
      or out of range of all of them. */
  lemma NoMoveExactly(vectors: seq<Vector>, start: seq<Vector>, dim: nat, n: nat)
    requires Uniform(vectors, dim) && Uniform(start, dim) && n > 0
    ensures Moves(vectors, start, Zeros(|vectors|), dim, n) == 0 <==>
            forall i :: 0 <= i < |vectors| ==> StaysAtZero(vectors[i], start)
    ensures Moves(vectors, start, Zeros(|vectors|), dim, n) == 0 ==>
              Rounds(vectors, start, Zeros(|vectors|), dim, n) == start
  {
    var next := Assigned(vectors, start, dim);
    forall i | 0 <= i < |vectors|
      ensures next[i] == 0 <==> StaysAtZero(vectors[i], start)
    {
      NearestIsZeroExactly(vectors[i], start);
    }
    assert (forall i :: 0 <= i < |vectors| ==> next[i] == 0) ==> next == Zeros(|vectors|);
  }

  /** So a start whose centroids are all the same vector, as one cluster always is, is returned as it is. */
  lemma EqualCentroidsStay(vectors: seq<Vector>, start: seq<Vector>, dim: nat)
    requires Uniform(vectors, dim) && Uniform(start, dim) && forall c :: 0 <= c < |start| ==> start[c] == start[0]
    ensures Clustered(vectors, start, dim) == start
  {
    NoMoveExactly(vectors, start, dim, MAX_ITERATIONS);
  }

  lemma OneMoreRound(vectors: seq<Vector>, codebook: seq<Vector>, assignments: seq<nat>, dim: nat, n: nat)
    requires Uniform(vectors, dim) && Uniform(codebook, dim) && n > 0
    ensures
      var next := Assigned(vectors, codebook, dim);
      Rounds(vectors, codebook, assignments, dim, n) ==
      if next == assignments then codebook
      else Rounds(vectors, Updated(vectors, next, codebook, dim), next, dim, n - 1)
  {
  }

  /** Main result: k-means with the random start that picks stands for. */
  method Cluster(vectors: seq<Vector>, dim: nat, k: nat, picks: seq<nat>) returns (codebook: seq<Vector>)
    requires Uniform(vectors, dim)
    requires Clusters(vectors, k) <= |picks| && forall i :: 0 <= i < |picks| ==> picks[i] < |vectors|
    ensures |codebook| == Clusters(vectors, k) && Uniform(codebook, dim)
    ensures codebook == Clustered(vectors, Picked(vectors, picks, Clusters(vectors, k)), dim)
  {
    hide Rounds, Assigned, Updated;
    var clusters := Clusters(vectors, k);
    ghost var start := Picked(vectors, picks, clusters);
    if clusters == 0 {
      EqualCentroidsStay(vectors, start, dim);
      return [];
    }
    var centroids := new Vector[clusters](i requires 0 <= i < clusters => vectors[picks[i]]);
    assert centroids[..] == start;
    var assignments := new nat[|vectors|](_ => 0);
    assert assignments[..] == Zeros(|vectors|);
    for iter := 0 to MAX_ITERATIONS
      invariant Uniform(centroids[..], dim)
      invariant Clustered(vectors, start, dim)
             == Rounds(vectors, centroids[..], assignments[..], dim, MAX_ITERATIONS - iter)
    {
      OneMoreRound(vectors, centroids[..], assignments[..], dim, MAX_ITERATIONS - iter);
      var changed := AssignPhase(vectors, centroids[..], assignments, dim);
      if !changed {
        return centroids[..];
      }
      UpdatePhase(vectors, centroids, assignments[..], dim);
    }
    NoRoundsLeft(vectors, centroids[..], assignments[..], dim);
    return centroids[..];
  }

  lemma NoRoundsLeft(vectors: seq<Vector>, codebook: seq<Vector>, assignments: seq<nat>, dim: nat)
    requires Uniform(vectors, dim) && Uniform(codebook, dim)
    ensures Rounds(vectors, codebook, assignments, dim, 0) == codebook
  {
  }
}

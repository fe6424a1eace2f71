/**
 pkg/index/ivf.go: the inverted file index. Vectors are kept in clusters, one for each centroid, and a search looks into
 the clusters whose centroids are nearest to the query.

 Distance and similarity are parameters, and so are the random draws of the training.
 */
module IvfIndex {
  import opened Scans
  import opened Ranking
  import opened FlatIndex
  import opened IdGroups

  /** The first of the first n centroids with the least distance below the limit, or 0, and that least distance. */
  function NearestOf<V>(distance: (V, V) -> real, limit: real, centroids: seq<V>, v: V, n: nat): (r: (nat, real))
    requires n <= |centroids|
    ensures r.0 == 0 || r.0 < n
    ensures r.1 <= limit && forall i :: 0 <= i < n ==> r.1 <= distance(v, centroids[i])
    ensures r.1 < limit ==> r.0 < n && r.1 == distance(v, centroids[r.0])
  {
    if n == 0 then (0, limit)
    else
      var best := NearestOf(distance, limit, centroids, v, n - 1);
      var d := distance(v, centroids[n - 1]);
      if d < best.1 then (n - 1, d) else best
  }

  /** Of equally near centroids it is the first; and 0 if none is below the limit. */
  lemma {:induction false} NearestIsFirst<V>(distance: (V, V) -> real, limit: real, centroids: seq<V>, v: V, n: nat)
    requires n <= |centroids|
    ensures
      var r := NearestOf(distance, limit, centroids, v, n);
      && (r.1 == limit ==> r.0 == 0)
      && forall i :: 0 <= i < r.0 && i < n ==> r.1 < distance(v, centroids[i])
  {
    if n > 0 {
      NearestIsFirst(distance, limit, centroids, v, n - 1);
    }
  }

  function Nearest<V>(distance: (V, V) -> real, limit: real, centroids: seq<V>, v: V): (c: nat)
    ensures c == 0 || c < |centroids|
  {
    NearestOf(distance, limit, centroids, v, |centroids|).0
  }

  ghost function SumTo(xs: seq<real>, n: nat): real
    requires n <= |xs|
  {
    if n == 0 then 0.0 else SumTo(xs, n - 1) + xs[n - 1]
  }

  lemma {:induction false} SumNotNegative(xs: seq<real>, n: nat)
    requires n <= |xs| && forall i :: 0 <= i < |xs| ==> xs[i] >= 0.0
    ensures SumTo(xs, n) >= 0.0
  {
    if n > 0 {
      SumNotNegative(xs, n - 1);
    }
  }

  /** The sum of a list is that of its parts, and of a single weight the weight. */
  lemma {:induction false} SumAddsUp(xs: seq<real>, ys: seq<real>, n: nat)
    requires n <= |ys|
    ensures SumTo(xs + ys, |xs| + n) == SumTo(xs, |xs|) + SumTo(ys, n)
    ensures |xs| == 1 ==> SumTo(xs, 1) == xs[0]
  {
    if n > 0 {
      SumAddsUp(xs, ys, n - 1);
    } else {
      SumOfFront(xs, ys, |xs|);
    }
  }

  lemma {:induction false} SumOfFront(xs: seq<real>, ys: seq<real>, n: nat)
    requires n <= |xs|
    ensures SumTo(xs + ys, n) == SumTo(xs, n)
  {
    if n > 0 {
      SumOfFront(xs, ys, n - 1);
    }
  }

  lemma ProductNotNegative(x: real, y: real)
    requires x >= 0.0 && y >= 0.0
    ensures x * y >= 0.0
  {
  }

  lemma Spread(roll: real, total: real)
    ensures (1.0 - roll) * total == total - roll * total
  {
  }

  lemma ShareAtMost(roll: real, total: real)
    requires roll < 1.0 && total >= 0.0
    ensures roll * total <= total
  {
    var rest := 1.0 - roll;
    assert rest >= 0.0;
    ProductNotNegative(rest, total);
    Spread(roll, total);
  }

  /** The roll falls into the share of index i: the weights before it do not reach roll times the total, but with its
      own they do. */
  ghost predicate InShare(weights: seq<real>, roll: real, i: nat) {
    && i < |weights| && roll * SumTo(weights, |weights|) <= SumTo(weights, i + 1)
    && (i > 0 ==> SumTo(weights, i) < roll * SumTo(weights, |weights|))
  }

  lemma {:induction false} SumOfEqual(weights: seq<real>, w: real, n: nat)
    requires n <= |weights| && forall i :: 0 <= i < |weights| ==> weights[i] == w
    ensures SumTo(weights, n) == n as real * w
  {
    if n > 0 {
      SumOfEqual(weights, w, n - 1);
    }
  }

  lemma Cancel(x: real, y: real, w: real)
    requires w > 0.0
    ensures x * w <= y * w <==> x <= y
  {
    var d := y - x;
    assert d * w == y * w - x * w;
    if d >= 0.0 {
      ProductNotNegative(d, w);
    } else {
      assert d * w < 0.0;
    }
  }

  /** Of n equal weights, the one at i is drawn by the rolls above i and up to i + 1 n-ths. */
  lemma EqualShares(weights: seq<real>, w: real, roll: real, i: nat)
    requires w > 0.0 && forall k :: 0 <= k < |weights| ==> weights[k] == w
    requires InShare(weights, roll, i)
    ensures roll * |weights| as real <= (i + 1) as real && (i > 0 ==> i as real < roll * |weights| as real)
  {
    var share := roll * |weights| as real;
    SumOfEqual(weights, w, |weights|);
    SumOfEqual(weights, w, i + 1);
    SumOfEqual(weights, w, i);
    assert roll * (|weights| as real * w) == share * w;
    Cancel(share, (i + 1) as real, w);
    Cancel(share, i as real, w);
  }

  /** A draw with probability proportional to weight. */
  method Draw(weights: seq<real>, roll: real) returns (i: nat)
    requires |weights| > 0 && 0.0 <= roll < 1.0
    requires forall k :: 0 <= k < |weights| ==> weights[k] >= 0.0
    ensures InShare(weights, roll, i)
  {
    var total := 0.0;
    for k := 0 to |weights|
      invariant total == SumTo(weights, k)
    {
      total := total + weights[k];
    }
    SumNotNegative(weights, |weights|);
    var r := roll * total;
    assert r == roll * SumTo(weights, |weights|);
    ShareAtMost(roll, total);
    var acc := 0.0;
    i := 0;
    while i < |weights|
      invariant i <= |weights| && acc == SumTo(weights, i)
      invariant i > 0 ==> acc < r
    {
      acc := acc + weights[i];
      if acc >= r {
        return;
      }
      i := i + 1;
    }
  }

  class Ivf<V(!new)> {
    const nclusters: nat
    const nprobe: nat
    const distance: (V, V) -> real
    const similarity: (V, V) -> real
    const limit: real // math.MaxFloat64, where the search for the nearest centroid starts
    const missing: V // what looking up a removed vector yields
    var centroids: seq<V>
    var clusters: Groups
    var vectors: map<string, V>

    /** The cluster of the centroid nearest to each stored vector. */
    ghost function Homes(): map<string, nat>
      reads this
    {
      map id | id in vectors :: Nearest(distance, limit, centroids, vectors[id])
    }

    ghost predicate Partitioned()
      reads this
    {
      Partition(clusters, Homes())
    }

    constructor (nclusters: nat, nprobe: nat, distance: (V, V) -> real, similarity: (V, V) -> real, limit: real,
                 missing: V)
      ensures Partitioned() && centroids == [] && vectors == map[]
      ensures this.nclusters == nclusters && this.nprobe == nprobe
      ensures this.distance == distance && this.similarity == similarity && this.limit == limit
              && this.missing == missing
    {
      this.nclusters, this.nprobe := nclusters, nprobe;
      this.distance, this.similarity, this.limit, this.missing := distance, similarity, limit, missing;
      centroids, clusters, vectors := [], map[], map[];
    }

    method AssignCluster(v: V) returns (best: nat)
      ensures best == Nearest(distance, limit, centroids, v)
    {
      if |centroids| == 0 {
        return 0;
      }
      best := 0;
      var bestDist := limit;
      for i := 0 to |centroids|
        invariant (best, bestDist) == NearestOf(distance, limit, centroids, v, i)
      {
        var d := distance(v, centroids[i]);
        if d < bestDist {
          bestDist := d;
          best := i;
        }
      }
    }

    method File(v: V, id: string)
      modifies this`clusters, this`vectors
      ensures vectors == old(vectors)[id := v]
      ensures clusters == Appended(old(clusters), Nearest(distance, limit, centroids, v), id)
    {
      vectors := vectors[id := v];
      var c := AssignCluster(v);
      clusters := Appended(clusters, c, id);
    }

    /** Main result: an insert keeps every ID in its one place exactly when the ID is new. */
    method Insert(v: V, id: string)
      modifies this`clusters, this`vectors
      ensures vectors == old(vectors)[id := v]
      ensures clusters == Appended(old(clusters), Nearest(distance, limit, centroids, v), id)
      ensures old(Partitioned()) ==> (Partitioned() <==> id !in old(vectors))
    {
      ghost var before, homes, home := clusters, Homes(), Nearest(distance, limit, centroids, v);
      File(v, id);
      assert Homes() == homes[id := home];
      InsertIntoPartition(before, homes, home, id);
    }

    method RemoveVector(id: string)
      modifies this`clusters, this`vectors
      ensures vectors == old(vectors) - {id} && clusters == RemovedExcept(old(clusters), {}, id)
      ensures old(Partitioned()) ==> Partitioned()
    {
      ghost var homes := Homes();
      vectors := vectors - {id};
      assert Homes() == homes - {id};
      if Partition(clusters, homes) {
        RemoveKeepsPartition(clusters, homes, id);
      }
      CutOutEverywhere(id);
    }

    method CutOutEverywhere(id: string)
      modifies this`clusters
      ensures clusters == RemovedExcept(old(clusters), {}, id)
    {
      var rest := clusters.Keys;
      ghost var before := clusters;
      while rest != {}
        invariant rest <= before.Keys && clusters == RemovedExcept(before, rest, id)
      {
        var c :| c in rest;
        var ids := CutOut(clusters[c], id);
        clusters := clusters[c := ids];
        rest := rest - {c};
      }
    }

    /** ds holds the distance from each vector to the centroid in cs nearest to it. */
    ghost predicate AreWeights(ids: seq<string>, cs: seq<V>, ds: seq<real>)
      reads this`vectors
    {
      |ds| == |ids| && forall i :: 0 <= i < |ids| ==>
        ids[i] in vectors && ds[i] == NearestOf(distance, limit, cs, vectors[ids[i]], |cs|).1
    }

    /** v is the vector in whose share of the distances to the centroids cs the roll falls. */
    ghost predicate DrawnNext(ids: seq<string>, cs: seq<V>, roll: real, v: V)
      reads this`vectors
    {
      exists ds, i: nat :: AreWeights(ids, cs, ds) && InShare(ds, roll, i) && v == vectors[ids[i]]
    }

    /** The first centroid is the vector that first picks; each next one is drawn by its distance to those before it. */
    ghost predicate Seeded(ids: seq<string>, first: nat, rolls: seq<real>, cs: seq<V>)
      reads this`vectors
    {
      && 0 < |cs| <= |rolls| && first < |ids| && ids[first] in vectors && cs[0] == vectors[ids[first]]
      && forall c :: 1 <= c < |cs| ==> DrawnNext(ids, cs[..c], rolls[c], cs[c])
    }

    lemma SeedOneMore(ids: seq<string>, first: nat, rolls: seq<real>, cs: seq<V>, v: V)
      requires Seeded(ids, first, rolls, cs) && |cs| < |rolls| && DrawnNext(ids, cs, rolls[|cs|], v)
      ensures Seeded(ids, first, rolls, cs + [v])
    {
      var more := cs + [v];
      assert more[..|cs|] == cs;
      forall c | 1 <= c < |more|
        ensures DrawnNext(ids, more[..c], rolls[c], more[c])
      {
        if c < |cs| {
          assert DrawnNext(ids, cs[..c], rolls[c], cs[c]) && more[..c] == cs[..c];
        }
      }
    }

    lemma SeedsAreStored(ids: seq<string>, first: nat, rolls: seq<real>, cs: seq<V>)
      requires Seeded(ids, first, rolls, cs)
      ensures forall c :: 0 <= c < |cs| ==> IsStored(cs[c])
    {
      forall c | 0 <= c < |cs|
        ensures IsStored(cs[c])
      {
        if c == 0 {
          assert ids[first] in vectors && vectors[ids[first]] == cs[c];
        } else {
          assert DrawnNext(ids, cs[..c], rolls[c], cs[c]);
          var ds, i: nat :| AreWeights(ids, cs[..c], ds) && InShare(ds, rolls[c], i) && cs[c] == vectors[ids[i]];
          assert ids[i] in vectors && vectors[ids[i]] == cs[c];
        }
      }
    }

    /** The distance from each vector to the centroid nearest to it. */
    method LeastDistances(ids: seq<string>) returns (ds: seq<real>)
      requires forall i :: 0 <= i < |ids| ==> ids[i] in vectors
      ensures AreWeights(ids, centroids, ds)
    {
      ds := [];
      for i := 0 to |ids|
        invariant |ds| == i
        invariant forall k :: 0 <= k < i ==>
                    ds[k] == NearestOf(distance, limit, centroids, vectors[ids[k]], |centroids|).1
      {
        var least := limit;
        for j := 0 to |centroids|
          invariant least == NearestOf(distance, limit, centroids, vectors[ids[i]], j).1
        {
          var d := distance(vectors[ids[i]], centroids[j]);
          if d < least {
            least := d;
          }
        }
        ds := ds + [least];
      }
    }

    ghost predicate IsStored(v: V)
      reads this`vectors
    {
      exists id :: id in vectors && vectors[id] == v
    }

    /** k-means++ seeding: first and rolls are the draws of the random source. The clusters are rebuilt from the stored
        vectors, so training restores the partition even where inserts had broken it. */
    method Train(first: nat, rolls: seq<real>) returns (ok: bool)
      requires nclusters > 0 && |rolls| == nclusters && forall c :: 0 <= c < nclusters ==> 0.0 <= rolls[c] < 1.0
      requires vectors != map[] ==> first < |vectors|
      requires limit >= 0.0 && forall x, y :: distance(x, y) >= 0.0
      modifies this`centroids, this`clusters
      ensures ok <==> |vectors| >= nclusters
      ensures !ok ==> centroids == old(centroids) && clusters == old(clusters)
      ensures ok ==> |centroids| == nclusters && forall c :: 0 <= c < nclusters ==> IsStored(centroids[c])
      ensures ok ==> exists ids :: Lists(ids, vectors.Keys) && Seeded(ids, first, rolls, centroids)
      ensures ok ==> Partitioned()
    {
      if |vectors| < nclusters {
        return false;
      }
      var ids := Listing(vectors.Keys);
      ListingLength(ids, vectors.Keys);
      centroids := [vectors[ids[first]]];
      for c := 1 to nclusters
        invariant |centroids| == c && Seeded(ids, first, rolls, centroids)
        invariant clusters == old(clusters) && ids != []
      {
        assert 0.0 <= rolls[c] < 1.0;
        var next := NextCentroid(ids, rolls[c]);
        SeedOneMore(ids, first, rolls, centroids, next);
        centroids := centroids + [next];
      }
      SeedsAreStored(ids, first, rolls, centroids);
      Reassign();
      return true;
    }

    method NextCentroid(ids: seq<string>, roll: real) returns (v: V)
      requires ids != [] && forall i :: 0 <= i < |ids| ==> ids[i] in vectors
      requires limit >= 0.0 && 0.0 <= roll < 1.0 && forall x, y :: distance(x, y) >= 0.0
      ensures DrawnNext(ids, centroids, roll, v)
    {
      var distances := LeastDistances(ids);
      var i := Draw(distances, roll);
      v := vectors[ids[i]];
    }

    method Reassign()
      modifies this`clusters
      ensures Partitioned()
    {
      clusters := map[];
      var rest := vectors.Keys;
      ghost var homes := Homes();
      assert homes - rest == map[];
      while rest != {}
        invariant rest <= vectors.Keys && homes == Homes()
        invariant Partition(clusters, homes - rest)
      {
        var id :| id in rest;
        var c := AssignCluster(vectors[id]);
        FreshKeepsPartition(clusters, homes - rest, c, id);
        OneFewerLeft(homes, rest, id);
        clusters := Appended(clusters, c, id);
        rest := rest - {id};
      }
      assert homes - {} == homes;
    }

    function Distances(query: V): seq<real>
      reads this
    {
      seq(|centroids|, i requires 0 <= i < |centroids| reads this => distance(query, centroids[i]))
    }

    method NearestCentroids(query: V, n: nat) returns (cs: seq<nat>)
      ensures LeastFirst(Distances(query), n, cs)
      ensures |cs| == (if |centroids| < n then |centroids| else n) && forall c :: c in cs ==> c < |centroids|
      ensures forall i, j :: 0 <= i < j < |cs| ==>
                distance(query, centroids[cs[i]]) <= distance(query, centroids[cs[j]])
      ensures forall c, p :: 0 <= c < |centroids| && c !in cs && p in cs ==>
                distance(query, centroids[p]) <= distance(query, centroids[c])
    {
      if |centroids| == 0 {
        return [];
      }
      var scores: seq<real> := [];
      for i := 0 to |centroids|
        invariant scores == Distances(query)[..i]
      {
        scores := scores + [distance(query, centroids[i])];
      }
      cs := TakeLeast(scores, n);
    }

    ghost predicate InClusters(id: string, cs: seq<nat>)
      reads this
    {
      id in vectors && Homes()[id] in cs
    }

    ghost function HitsIn(query: V, cs: seq<nat>): set<Hit>
      reads this
    {
      set id | id in vectors && InClusters(id, cs) :: Hit(id, similarity(query, vectors[id]))
    }

    function VectorAt(id: string): V
      reads this`vectors
    {
      if id in vectors then vectors[id] else missing
    }

    /** One hit for each ID, in order. */
    ghost function Scored(query: V, ids: seq<string>): (hits: seq<Hit>)
      reads this
      ensures |hits| == |ids| && forall i :: 0 <= i < |ids| ==>
                hits[i] == Hit(ids[i], similarity(query, VectorAt(ids[i])))
    {
      seq(|ids|, i requires 0 <= i < |ids| reads this => Hit(ids[i], similarity(query, VectorAt(ids[i]))))
    }

    /** The IDs listed in the clusters, in cluster order. */
    ghost function Listed(cs: seq<nat>): seq<string>
      reads this`clusters
    {
      if cs == [] then [] else Listed(cs[..|cs| - 1]) + Members(clusters, cs[|cs| - 1])
    }

    /** Scores whatever the clusters list: an ID that is listed twice is scored twice. */
    method Collect(query: V, cs: seq<nat>) returns (hits: seq<Hit>)
      ensures hits == Scored(query, Listed(cs))
    {
      hits := [];
      for i := 0 to |cs|
        invariant hits == Scored(query, Listed(cs[..i]))
      {
        var ids := Members(clusters, cs[i]);
        ghost var before := Listed(cs[..i]);
        for k := 0 to |ids|
          invariant hits == Scored(query, before + ids[..k])
        {
          hits := hits + [Hit(ids[k], similarity(query, VectorAt(ids[k])))];
        }
        assert cs[..i + 1][..i] == cs[..i] && ids[..|ids|] == ids;
      }
      assert cs[..|cs|] == cs;
    }

    /** In a partitioned index, clusters list the stored IDs at home in them, each once. */
    lemma {:induction false} ListedAtHome(cs: seq<nat>)
      requires Partitioned() && Distinct(cs)
      ensures Distinct(Listed(cs)) && forall id :: id in Listed(cs) <==> InClusters(id, cs)
      decreases |cs|
    {
      if cs != [] {
        var front, c := cs[..|cs| - 1], cs[|cs| - 1];
        ListedAtHome(front);
        assert cs == front + [c] && c !in front;
        forall id | id in Listed(front)
          ensures id !in Members(clusters, c)
        {
        }
        AppendDistinct(Listed(front), Members(clusters, c));
      }
    }

    lemma ScoredAtHome(query: V, cs: seq<nat>, hits: seq<Hit>)
      requires Partitioned() && Distinct(cs) && hits == Scored(query, Listed(cs))
      ensures Distinct(hits) && (set h | h in hits) == HitsIn(query, cs)
    {
      ListedAtHome(cs);
      var ids := Listed(cs);
      forall h | h in HitsIn(query, cs)
        ensures h in hits
      {
        var i :| 0 <= i < |ids| && ids[i] == h.id;
        assert hits[i] == h;
      }
      forall i | 0 <= i < |hits|
        ensures hits[i] in HitsIn(query, cs)
      {
        assert ids[i] in ids;
      }
    }

    lemma ProbeAll(query: V, cs: seq<nat>)
      requires centroids != [] && LeastFirst(Distances(query), nprobe, cs) && nprobe >= |centroids|
      ensures HitsIn(query, cs) == Hits(vectors, similarity, query)
    {
      forall id | id in vectors
        ensures InClusters(id, cs)
      {
        assert Homes()[id] < |centroids|;
      }
    }

    /** Main result: a search ranks what the nprobe clusters nearest to the query list, in any index that holds a
        vector. Where every ID is in its one place, that ranks the vectors of these clusters; and when it probes every
        cluster, it is the brute-force ranking of all vectors. An index that has not been trained finds nothing. */
    method Search(query: V, topK: nat) returns (r: seq<Hit>, ghost probed: seq<nat>)
      ensures LeastFirst(Distances(query), nprobe, probed)
      ensures forall c, p :: 0 <= c < |centroids| && c !in probed && p in probed && p < |centroids| ==>
                distance(query, centroids[p]) <= distance(query, centroids[c])
      ensures if vectors == map[] then r == [] else Ranks(Scored(query, Listed(probed)), topK, r)
      ensures Partitioned() ==> IsTopK(HitsIn(query, probed), topK, r)
      ensures centroids == [] ==> r == []
      ensures Partitioned() && centroids != [] && nprobe >= |centroids| ==>
                IsTopK(Hits(vectors, similarity, query), topK, r)
    {
      var cs := NearestCentroids(query, nprobe);
      probed := cs;
      if nprobe >= |centroids| > 0 {
        ProbeAll(query, cs);
      }
      if |vectors| == 0 {
        assert vectors == map[] && HitsIn(query, cs) == {};
        return [], cs;
      }
      var hits := Collect(query, cs);
      if Partitioned() {
        ScoredAtHome(query, cs, hits);
      }
      r := SortAndCut(hits, topK);
    }
  }
}

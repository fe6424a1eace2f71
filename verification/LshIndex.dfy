/**
 pkg/index/lsh.go: locality-sensitive hashing with hyperplanes. Each table files every stored ID in the bucket of the
 hash of its vector; a search ranks the IDs that share a bucket with the query, or all IDs if there are none.

 The random hyperplanes and the similarity are parameters. Tables are numbered, where the source names them t0, t1, ...
 */
module LshIndex {
  import opened MachineInts
  import opened Scans
  import opened Ranking
  import opened IdGroups

  type Vector = seq<real>

  function Dot(v: Vector, plane: Vector, n: nat): real
    requires n <= |v| <= |plane|
  {
    if n == 0 then 0.0 else Dot(v, plane, n - 1) + v[n - 1] * plane[n - 1]
  }

  /** Which side of the hyperplane v is on. */
  predicate Above(v: Vector, plane: Vector)
    requires |v| <= |plane|
  {
    Dot(v, plane, |v|) > 0.0
  }

  ghost predicate Fits(v: Vector, planes: seq<Vector>) {
    forall h :: 0 <= h < |planes| ==> |v| <= |planes[h]|
  }

  /** The hash over the first n hyperplanes: one bit for each, shifted into a 32-bit word. */
  ghost function HashOver(planes: seq<Vector>, v: Vector, n: nat): (hash: nat)
    requires n <= |planes| && Fits(v, planes)
    ensures hash < TWO_TO_THE_32
  {
    if n == 0 then 0
    else HashOver(planes, v, n - 1) * 2 % TWO_TO_THE_32 + if Above(v, planes[n - 1]) then 1 else 0
  }

  // ----- What a hash says -----

  function Pow2(k: nat): (p: nat)
    ensures p > 0
  {
    if k == 0 then 1 else 2 * Pow2(k - 1)
  }

  lemma {:induction false} Pow2Add(j: nat, k: nat)
    ensures Pow2(j + k) == Pow2(j) * Pow2(k)
  {
    if j > 0 {
      Pow2Add(j - 1, k);
      assert Pow2(j) * Pow2(k) == 2 * (Pow2(j - 1) * Pow2(k));
    }
  }

  lemma MultipleIsFar(m: nat, d: int)
    ensures d >= 1 ==> m * d >= m
    ensures d <= -1 ==> m * d <= 0 - m
  {
    if d >= 1 {
      assert m * d == m + m * (d - 1);
      assert m * (d - 1) >= 0;
    } else if d <= -1 {
      assert m * d == 0 - m + m * (d + 1);
      assert m * (d + 1) <= 0;
    }
  }

  lemma DivMod(x: nat, m: nat, q: nat, r: nat)
    requires r < m && x == m * q + r
    ensures x % m == r
  {
    var d := x / m;
    assert x == m * d + x % m;
    assert m * (q - d) == m * q - m * d;
    MultipleIsFar(m, q - d);
  }

  lemma Reassociate(m: nat, k: nat, q: nat, d: nat)
    ensures (m * k) * q + m * d == m * (k * q + d)
  {
  }

  lemma ModOfMultiple(x: nat, m: nat, k: nat)
    requires m > 0 && k > 0
    ensures m * k > 0 && x % (m * k) % m == x % m
  {
    assert m * k > 0;
    var q, r := x / (m * k), x % (m * k);
    assert x == (m * k) * q + r;
    assert r == m * (r / m) + r % m;
    Reassociate(m, k, q, r / m);
    DivMod(x, m, k * q + r / m, r % m);
  }

  lemma ShiftIn(x: nat, m: nat, bit: nat)
    requires m > 0 && bit < 2
    ensures (2 * x + bit) % (2 * m) == 2 * (x % m) + bit
  {
    assert x == m * (x / m) + x % m;
    assert 2 * x + bit == (2 * m) * (x / m) + (2 * (x % m) + bit);
    DivMod(2 * x + bit, 2 * m, x / m, 2 * (x % m) + bit);
  }

  lemma WordIsPow2()
    ensures TWO_TO_THE_32 == Pow2(32) == 2 * Pow2(31)
  {
    assert Pow2(4) == 16;
    Pow2Add(4, 4);
    Pow2Add(8, 8);
    Pow2Add(16, 16);
  }

  lemma LowBit(planes: seq<Vector>, v: Vector, n: nat, k: nat)
    requires 0 < n <= |planes| && Fits(v, planes) && 0 < k <= 32
    ensures HashOver(planes, v, n) % Pow2(k) ==
      2 * (HashOver(planes, v, n - 1) % Pow2(k - 1)) + if Above(v, planes[n - 1]) then 1 else 0
  {
    var before := HashOver(planes, v, n - 1);
    var bit := if Above(v, planes[n - 1]) then 1 else 0;
    WordIsPow2();
    ShiftIn(before, Pow2(31), 0);
    var low := before % Pow2(31);
    assert HashOver(planes, v, n) == 2 * low + bit;
    ShiftIn(low, Pow2(k - 1), bit);
    Pow2Add(k - 1, 32 - k);
    ModOfMultiple(before, Pow2(k - 1), Pow2(32 - k));
  }

  /** The last k bits of two hashes agree exactly when the vectors are on the same side of each of the last k planes. */
  lemma {:induction false} SameBitsExactly(planes: seq<Vector>, v: Vector, w: Vector, n: nat, k: nat)
    requires n <= |planes| && Fits(v, planes) && Fits(w, planes) && k <= 32
    ensures HashOver(planes, v, n) % Pow2(k) == HashOver(planes, w, n) % Pow2(k) <==>
      forall h :: 0 <= h < n && n - k <= h ==> Above(v, planes[h]) == Above(w, planes[h])
  {
    if n > 0 && k > 0 {
      SameBitsExactly(planes, v, w, n - 1, k - 1);
      LowBit(planes, v, n, k);
      LowBit(planes, w, n, k);
    }
  }

  ghost function Hash(planes: seq<Vector>, v: Vector): nat
    requires Fits(v, planes)
  {
    HashOver(planes, v, |planes|)
  }

  lemma WordHash(hash: nat)
    requires hash < TWO_TO_THE_32
    ensures hash % TWO_TO_THE_32 == hash
  {
  }

  /** Main result: two vectors share a bucket exactly when no hyperplane separates them, save that a 32-bit hash only
      remembers the last 32 hyperplanes. */
  lemma SameBucketExactly(planes: seq<Vector>, v: Vector, w: Vector)
    requires Fits(v, planes) && Fits(w, planes)
    ensures Hash(planes, v) == Hash(planes, w) <==>
      forall h :: 0 <= h < |planes| && |planes| - 32 <= h ==> Above(v, planes[h]) == Above(w, planes[h])
  {
    WordIsPow2();
    SameBitsExactly(planes, v, w, |planes|, 32);
    WordHash(HashOver(planes, v, |planes|));
    WordHash(HashOver(planes, w, |planes|));
  }

  // ----- What the sides are -----

  /** The product is additive in the vector. */
  lemma {:induction false} DotAdds(u: Vector, v: Vector, w: Vector, plane: Vector, n: nat)
    requires |u| == |v| == |w| <= |plane| && n <= |w| && forall i :: 0 <= i < |w| ==> w[i] == u[i] + v[i]
    ensures Dot(w, plane, n) == Dot(u, plane, n) + Dot(v, plane, n)
  {
    if n > 0 {
      DotAdds(u, v, w, plane, n - 1);
      assert w[n - 1] * plane[n - 1] == u[n - 1] * plane[n - 1] + v[n - 1] * plane[n - 1];
    }
  }

  lemma Product(a: real, b: real, c: real)
    ensures c * a * b == c * (a * b)
  {
  }

  lemma Distribute(c: real, a: real, b: real)
    ensures c * (a + b) == c * a + c * b
  {
  }

  /** It is homogeneous. */
  lemma {:induction false} DotScales(v: Vector, c: real, w: Vector, plane: Vector, n: nat)
    requires |v| == |w| <= |plane| && n <= |w| && forall i :: 0 <= i < |w| ==> w[i] == c * v[i]
    ensures Dot(w, plane, n) == c * Dot(v, plane, n)
  {
    if n > 0 {
      DotScales(v, c, w, plane, n - 1);
      Product(v[n - 1], plane[n - 1], c);
      Distribute(c, Dot(v, plane, n - 1), v[n - 1] * plane[n - 1]);
    }
  }

  /** v is zero but for its component at i. */
  ghost predicate OnAxis(v: Vector, i: nat) {
    i < |v| && forall j :: 0 <= j < |v| && j != i ==> v[j] == 0.0
  }

  /** The product of a vector on an axis with a plane is that of their components there; so a unit vector picks out one
      component of the plane. With the two laws above this leaves only one product. */
  lemma {:induction false} DotOnAxis(v: Vector, i: nat, plane: Vector, n: nat)
    requires OnAxis(v, i) && |v| <= |plane| && n <= |v|
    ensures Dot(v, plane, n) == if i < n then v[i] * plane[i] else 0.0
    ensures v[i] == 1.0 && n == |v| ==> Dot(v, plane, n) == plane[i]
  {
    if n > 0 {
      DotOnAxis(v, i, plane, n - 1);
    }
  }

  function Times(x: real, y: real): real {
    x * y
  }

  lemma SignOfProduct(x: real, y: real)
    requires x > 0.0
    ensures Times(x, y) > 0.0 <==> y > 0.0
  {
    if y <= 0.0 {
      assert x * y <= 0.0;
    }
  }

  /** Main result: a vector that points along an axis is on the positive side exactly of the planes whose normal has a
      positive component there. */
  lemma AxisSide(v: Vector, i: nat, plane: Vector)
    requires OnAxis(v, i) && v[i] > 0.0 && |v| <= |plane|
    ensures Above(v, plane) <==> plane[i] > 0.0
  {
    DotOnAxis(v, i, plane, |v|);
    SignOfProduct(v[i], plane[i]);
    assert Times(v[i], plane[i]) == v[i] * plane[i];
  }

  /** Main result: the length of a vector does not matter for its bucket, only its direction. */
  lemma ScalingKeepsBucket(planes: seq<Vector>, v: Vector, c: real, w: Vector)
    requires Fits(v, planes) && Fits(w, planes) && c > 0.0
    requires |v| == |w| && forall i :: 0 <= i < |w| ==> w[i] == c * v[i]
    ensures Hash(planes, v) == Hash(planes, w)
  {
    forall h | 0 <= h < |planes|
      ensures Above(v, planes[h]) == Above(w, planes[h])
    {
      DotScales(v, c, w, planes[h], |v|);
      SignOfProduct(c, Dot(v, planes[h], |v|));
      assert Times(c, Dot(v, planes[h], |v|)) == c * Dot(v, planes[h], |v|);
    }
    SameBucketExactly(planes, v, w);
  }

  function Square(x: real): real {
    x * x
  }

  lemma SquareIsPositive(x: real)
    ensures Square(x) >= 0.0 && (Square(x) > 0.0 <==> x != 0.0)
  {
    if x > 0.0 {
      SignOfProduct(x, x);
      assert Times(x, x) == Square(x);
    } else if x < 0.0 {
      SignOfProduct(-x, -x);
      assert Times(-x, -x) == Square(x);
    }
  }

  /** The first n components are zero. */
  ghost predicate IsZero(v: Vector, n: nat)
    requires n <= |v|
  {
    forall i :: 0 <= i < n ==> v[i] == 0.0
  }

  lemma OneMoreSquare(v: Vector, n: nat)
    requires 0 < n <= |v|
    ensures Dot(v, v, n) == Dot(v, v, n - 1) + Square(v[n - 1])
    ensures IsZero(v, n) <==> IsZero(v, n - 1) && v[n - 1] == 0.0
  {
  }

  lemma {:induction false} DotWithItself(v: Vector, n: nat)
    requires n <= |v|
    ensures Dot(v, v, n) >= 0.0 && (Dot(v, v, n) > 0.0 <==> !IsZero(v, n))
  {
    if n > 0 {
      hide Dot, Square, IsZero;
      DotWithItself(v, n - 1);
      SquareIsPositive(v[n - 1]);
      OneMoreSquare(v, n);
    }
  }

  /** Main result: the normal of a plane that the hash sees and its opposite share a bucket only if the normal is
      zero. */
  lemma OppositesPart(planes: seq<Vector>, h: nat, v: Vector, w: Vector)
    requires h < |planes| && |planes| - 32 <= h && Fits(v, planes) && Fits(w, planes)
    requires v == planes[h] && |w| == |v| && forall i :: 0 <= i < |w| ==> w[i] == -1.0 * v[i]
    ensures Above(v, planes[h]) <==> !IsZero(v, |v|)
    ensures !IsZero(v, |v|) ==> Hash(planes, v) != Hash(planes, w)
  {
    DotWithItself(v, |v|);
    DotScales(v, -1.0, w, planes[h], |v|);
    SameBucketExactly(planes, v, w);
  }

  class Lsh {
    const hyperplanes: seq<seq<Vector>>
    const similarity: (Vector, Vector) -> real
    var buckets: map<nat, Groups>
    var vectors: map<string, Vector>

    /** No vector is longer than the hyperplanes. */
    ghost predicate Suits(v: Vector) {
      forall t :: 0 <= t < |hyperplanes| ==> Fits(v, hyperplanes[t])
    }

    ghost predicate Valid()
      reads this
    {
      && (forall t :: t in buckets ==> t < |hyperplanes|)
      && forall id :: id in vectors ==> Suits(vectors[id])
    }

    ghost function Table(t: nat): Groups
      reads this
    {
      if t in buckets then buckets[t] else map[]
    }

    ghost function Homes(t: nat): map<string, nat>
      requires t < |hyperplanes| && Valid()
      reads this
    {
      map id | id in vectors :: Hash(hyperplanes[t], vectors[id])
    }

    /** In every table each stored ID is in the bucket of its hash, once, and in no other. */
    ghost predicate Filed()
      requires Valid()
      reads this
    {
      forall t :: 0 <= t < |hyperplanes| ==> Partition(Table(t), Homes(t))
    }

    constructor (hyperplanes: seq<seq<Vector>>, similarity: (Vector, Vector) -> real)
      ensures Valid() && Filed() && vectors == map[]
      ensures this.hyperplanes == hyperplanes && this.similarity == similarity
    {
      this.hyperplanes, this.similarity := hyperplanes, similarity;
      buckets, vectors := map[], map[];
    }

    method HashOf(v: Vector, t: nat) returns (hash: nat)
      requires t < |hyperplanes| && Suits(v)
      ensures hash == Hash(hyperplanes[t], v)
    {
      var planes := hyperplanes[t];
      hash := 0;
      for h := 0 to |planes|
        invariant hash == HashOver(planes, v, h)
      {
        var dot := 0.0;
        for i := 0 to |v|
          invariant dot == Dot(v, planes[h], i)
        {
          dot := dot + v[i] * planes[h][i];
        }
        var bit := if dot > 0.0 then 1 else 0;
        hash := hash * 2 % TWO_TO_THE_32 + bit;
      }
    }

    /** Main result: an insert keeps the index filed exactly when the ID is new. */
    method Insert(v: Vector, id: string)
      requires Valid() && Suits(v)
      modifies this
      ensures Valid() && vectors == old(vectors)[id := v]
      ensures forall t :: 0 <= t < |hyperplanes| ==> Table(t) == Appended(old(Table(t)), Hash(hyperplanes[t], v), id)
      ensures old(Filed()) && hyperplanes != [] ==> (Filed() <==> id !in old(vectors))
    {
      hide Partition;
      vectors := vectors[id := v];
      AppendToTables(v, id);
      forall t | 0 <= t < |hyperplanes| && old(Filed())
        ensures Partition(Table(t), Homes(t)) <==> id !in old(vectors)
      {
        assert Homes(t) == old(Homes(t))[id := Hash(hyperplanes[t], v)];
        InsertPartitionsExactly(old(Table(t)), old(Homes(t)), Hash(hyperplanes[t], v), id);
      }
      if hyperplanes != [] && old(Filed()) {
        assert Partition(Table(0), Homes(0)) <==> id !in old(vectors);
      }
    }

    method AppendToTables(v: Vector, id: string)
      requires Valid() && Suits(v)
      modifies this`buckets
      ensures Valid()
      ensures forall t :: 0 <= t < |hyperplanes| ==> Table(t) == Appended(old(Table(t)), Hash(hyperplanes[t], v), id)
    {
      for t := 0 to |hyperplanes|
        invariant Valid()
        invariant forall u :: 0 <= u < |hyperplanes| ==>
          Table(u) == if u < t then Appended(old(Table(u)), Hash(hyperplanes[u], v), id) else old(Table(u))
      {
        var hash := HashOf(v, t);
        if t !in buckets {
          buckets := buckets[t := map[]];
        }
        buckets := buckets[t := Appended(buckets[t], hash, id)];
      }
    }

    method CutOutEverywhere(id: string, groups: Groups) returns (after: Groups)
      ensures after == RemovedExcept(groups, {}, id)
    {
      after := groups;
      var rest := groups.Keys;
      while rest != {}
        invariant rest <= groups.Keys && after == RemovedExcept(groups, rest, id)
      {
        var c :| c in rest;
        var ids := CutOut(after[c], id);
        after := after[c := ids];
        rest := rest - {c};
      }
    }

    method RemoveVector(id: string)
      requires Valid()
      modifies this
      ensures Valid() && vectors == old(vectors) - {id}
      ensures forall t: nat :: Table(t) == RemovedExcept(old(Table(t)), {}, id)
      ensures old(Filed()) ==> Filed()
    {
      hide Partition;
      label Start:
      vectors := vectors - {id};
      var rest := buckets.Keys;
      while rest != {}
        invariant vectors == old(vectors) - {id} && buckets.Keys == old(buckets.Keys) && rest <= buckets.Keys
        invariant forall t: nat ::
                    Table(t) == if t in rest then old@Start(Table(t)) else RemovedExcept(old@Start(Table(t)), {}, id)
      {
        var t :| t in rest;
        var after := CutOutEverywhere(id, buckets[t]);
        buckets := buckets[t := after];
        rest := rest - {t};
      }
      forall t | 0 <= t < |hyperplanes| && old(Filed())
        ensures Partition(Table(t), Homes(t))
      {
        assert Homes(t) == old(Homes(t)) - {id};
        RemoveKeepsPartition(old(Table(t)), old(Homes(t)), id);
      }
    }

    /** The IDs listed in the buckets of the query in the first n tables. */
    ghost function Gathered(query: Vector, n: nat): set<string>
      requires Suits(query) && n <= |hyperplanes|
      reads this
    {
      if n == 0 then {}
      else
        var listed := Members(Table(n - 1), Hash(hyperplanes[n - 1], query));
        Gathered(query, n - 1) + set id | id in listed
    }

    /** The stored ID shares a bucket with the query in one of the first n tables. */
    ghost predicate SharesBucket(query: Vector, id: string, n: nat)
      requires Valid() && Suits(query) && id in vectors && n <= |hyperplanes|
      reads this
    {
      exists t :: 0 <= t < n && Hash(hyperplanes[t], query) == Hash(hyperplanes[t], vectors[id])
    }

    ghost function Candidates(query: Vector, n: nat): set<string>
      requires Valid() && Suits(query) && n <= |hyperplanes|
      reads this
    {
      set id | id in vectors && SharesBucket(query, id, n)
    }

    lemma OneMoreTable(query: Vector, t: nat)
      requires Valid() && Filed() && Suits(query) && t < |hyperplanes|
      ensures Candidates(query, t + 1) ==
        Candidates(query, t) + set id | id in Members(Table(t), Hash(hyperplanes[t], query))
    {
      var hash := Hash(hyperplanes[t], query);
      assert Partition(Table(t), Homes(t));
      forall id
        ensures id in Members(Table(t), hash) <==> id in vectors && Hash(hyperplanes[t], vectors[id]) == hash
      {
        assert id in Members(Table(t), hash) <==> id in Homes(t) && Homes(t)[id] == hash;
      }
      forall id | id in vectors
        ensures SharesBucket(query, id, t + 1) <==>
                  SharesBucket(query, id, t) || Hash(hyperplanes[t], vectors[id]) == hash
      {
      }
    }

    /** In a filed index, what is gathered are the stored IDs that share a bucket with the query. */
    lemma {:induction false} GatheredShareBucket(query: Vector, n: nat)
      requires Valid() && Filed() && Suits(query) && n <= |hyperplanes|
      ensures Gathered(query, n) == Candidates(query, n)
    {
      hide Hash, Partition;
      if n > 0 {
        GatheredShareBucket(query, n - 1);
        OneMoreTable(query, n - 1);
      }
    }

    /** In any index, what the buckets of the query list; in a filed one, the IDs that share a bucket with it. */
    method CollectCandidates(query: Vector) returns (candidates: set<string>)
      requires Valid() && Suits(query)
      ensures candidates == Gathered(query, |hyperplanes|)
      ensures Filed() ==> candidates == Candidates(query, |hyperplanes|)
    {
      candidates := {};
      for t := 0 to |hyperplanes|
        invariant candidates == Gathered(query, t)
      {
        var hash := HashOf(query, t);
        if t in buckets && hash in buckets[t] {
          candidates := candidates + set id | id in buckets[t][hash];
        }
      }
      if Filed() {
        GatheredShareBucket(query, |hyperplanes|);
      }
    }

    /** A removed ID that is still listed has no components. */
    function VectorAt(id: string): Vector
      reads this`vectors
    {
      if id in vectors then vectors[id] else []
    }

    ghost function Scored(query: Vector, ids: set<string>): set<Hit>
      reads this`vectors
    {
      set id | id in ids :: Hit(id, similarity(query, VectorAt(id)))
    }

    /** What a search ranks: the gathered IDs, or all stored ones if none is gathered. */
    ghost function Searched(query: Vector): set<Hit>
      requires Suits(query)
      reads this
    {
      Scored(query, if Gathered(query, |hyperplanes|) == {} then vectors.Keys else Gathered(query, |hyperplanes|))
    }

    ghost function Pool(query: Vector): set<string>
      requires Valid() && Suits(query)
      reads this
    {
      if Candidates(query, |hyperplanes|) == {} then vectors.Keys else Candidates(query, |hyperplanes|)
    }

    ghost function PoolHits(query: Vector): set<Hit>
      requires Valid() && Suits(query)
      reads this
    {
      set id | id in vectors && id in Pool(query) :: Hit(id, similarity(query, vectors[id]))
    }

    method Score(query: Vector, ids: seq<string>) returns (hits: seq<Hit>)
      requires Distinct(ids)
      ensures Distinct(hits) && (set h | h in hits) == Scored(query, set id | id in ids)
    {
      hits := [];
      for i := 0 to |ids|
        invariant |hits| == i && forall k :: 0 <= k < i ==> hits[k] == Hit(ids[k], similarity(query, VectorAt(ids[k])))
      {
        hits := hits + [Hit(ids[i], similarity(query, VectorAt(ids[i])))];
      }
      forall h | h in Scored(query, set id | id in ids)
        ensures h in hits
      {
        var i :| 0 <= i < |ids| && ids[i] == h.id;
        assert hits[i] == h;
      }
    }

    /** The gathered IDs, or all stored ones if none is gathered. */
    method ChooseCandidates(query: Vector) returns (ids: seq<string>)
      requires Valid() && Suits(query)
      ensures Distinct(ids) && Scored(query, set id | id in ids) == Searched(query)
    {
      var candidates := CollectCandidates(query);
      if candidates == {} {
        candidates := vectors.Keys;
      }
      ids := Listing(candidates);
      assert (set id | id in ids) == candidates;
    }

    /** Main result: a search ranks what the buckets of the query list, or all vectors if they list nothing. In a filed
        index these are the IDs that share a bucket with the query, and a query equal to a stored vector scores at least
        that vector's similarity to itself. */
    method Search(query: Vector, topK: nat) returns (r: seq<Hit>)
      requires Valid() && Suits(query)
      ensures if vectors == map[] then r == [] else IsTopK(Searched(query), topK, r)
      ensures Filed() ==> IsTopK(PoolHits(query), topK, r)
      ensures Filed() ==> forall id :: id in vectors && vectors[id] == query && topK >= 1 ==>
                r != [] && r[0].score >= similarity(query, query)
    {
      if |vectors| == 0 {
        assert PoolHits(query) == {} && vectors == map[];
        return [];
      }
      var ids := ChooseCandidates(query);
      var hits := Score(query, ids);
      r := SortAndCut(hits, topK);
      if Filed() {
        RanksPool(query, topK, r);
      }
    }

    lemma RanksPool(query: Vector, topK: nat, r: seq<Hit>)
      requires Valid() && Filed() && Suits(query) && IsTopK(Searched(query), topK, r)
      ensures IsTopK(PoolHits(query), topK, r)
      ensures forall id :: id in vectors && vectors[id] == query && topK >= 1 ==>
                r != [] && r[0].score >= similarity(query, query)
    {
      GatheredShareBucket(query, |hyperplanes|);
      assert Pool(query) <= vectors.Keys;
      assert Searched(query) == PoolHits(query);
      forall id | id in vectors && vectors[id] == query && topK >= 1
        ensures r != [] && r[0].score >= similarity(query, query)
      {
        FindsItself(query, topK, r, id);
      }
    }

    lemma FindsItself(query: Vector, topK: nat, r: seq<Hit>, id: string)
      requires Valid() && Suits(query) && IsTopK(PoolHits(query), topK, r)
      requires id in vectors && vectors[id] == query && topK >= 1
      ensures r != [] && r[0].score >= similarity(query, query)
    {
      var self := Hit(id, similarity(query, query));
      assert id in Pool(query) by {
        if hyperplanes != [] {
          assert Hash(hyperplanes[0], query) == Hash(hyperplanes[0], vectors[id]);
          assert SharesBucket(query, id, |hyperplanes|);
        } else {
          assert Candidates(query, |hyperplanes|) == {};
        }
      }
      assert self in PoolHits(query);
      if self in r {
        var i :| 0 <= i < |r| && r[i] == self;
      }
    }
  }
}

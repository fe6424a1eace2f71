/**
 pkg/index/flat.go: the brute-force index. Cosine similarity is a parameter: only that it is a function of the two
 vectors matters.
 */
module FlatIndex {
  import opened Scans
  import opened Ranking

  /** One hit for every vector, with its similarity to the query. */
  ghost function Hits<V>(vectors: map<string, V>, similarity: (V, V) -> real, query: V): set<Hit> {
    set id | id in vectors :: Hit(id, similarity(query, vectors[id]))
  }

  /** Hits of the listed vectors, in the order of the list. */
  method Score<V>(vectors: map<string, V>, similarity: (V, V) -> real, query: V, ids: seq<string>)
    returns (hits: seq<Hit>)
    requires Distinct(ids) && forall i :: 0 <= i < |ids| ==> ids[i] in vectors
    ensures Distinct(hits) && forall h :: h in hits <==>
              h.id in ids && h.id in vectors && h.score == similarity(query, vectors[h.id])
  {
    hits := [];
    for i := 0 to |ids|
      invariant |hits| == i && forall k :: 0 <= k < i ==> hits[k] == Hit(ids[k], similarity(query, vectors[ids[k]]))
    {
      hits := hits + [Hit(ids[i], similarity(query, vectors[ids[i]]))];
    }
    forall h: Hit | h.id in ids && h.id in vectors && h.score == similarity(query, vectors[h.id])
      ensures h in hits
    {
      var i :| 0 <= i < |ids| && ids[i] == h.id;
      assert hits[i] == h;
    }
  }

  class Flat<V> {
    const similarity: (V, V) -> real
    var vectors: map<string, V>

    constructor (similarity: (V, V) -> real)
      ensures this.similarity == similarity && vectors == map[]
    {
      this.similarity := similarity;
      vectors := map[];
    }

    method Insert(vector: V, id: string)
      modifies this
      ensures vectors == old(vectors)[id := vector]
    {
      vectors := vectors[id := vector];
    }

    method RemoveVector(id: string)
      modifies this
      ensures vectors == old(vectors) - {id}
    {
      vectors := vectors - {id};
    }

    method Len() returns (n: nat)
      ensures n == |vectors|
    {
      return |vectors|;
    }

    method Search(query: V, topK: nat) returns (r: seq<Hit>)
      ensures IsTopK(Hits(vectors, similarity, query), topK, r)
    {
      if |vectors| == 0 {
        return [];
      }
      var ids := Listing(vectors.Keys);
      var hits := Score(vectors, similarity, query, ids);
      assert (set h | h in hits) == Hits(vectors, similarity, query);
      r := SortAndCut(hits, topK);
    }
  }
}

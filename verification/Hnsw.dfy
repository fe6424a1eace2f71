/**
 pkg/index/hnsw.go: the layered graph index. The level of a new node and the similarity of two vectors are parameters.

 Both search loops of the source skip every candidate that has been visited, and every candidate is marked visited when
 it is added, so a layer search always ends where it starts; SearchLayer proves this.
 */
module Hnsw {
  import opened Scans
  import opened Ranking
  import opened IdGroups
  import opened HnswLayers

  ghost predicate AllVisited(entries: seq<Hit>, visited: set<string>) {
    forall i :: 0 <= i < |entries| ==> entries[i].id in visited
  }

  class Index<V> {
    const m: nat
    const efConstruction: nat
    const efSearch: nat
    const similarity: (V, V) -> real
    var maxLevel: nat
    var layers: map<nat, seq<string>>
    var vectors: map<string, V>
    var nodeLevels: map<string, nat>
    var neighbors: map<nat, Layer>
    var enter: string

    /** The entry point is empty exactly when the index is, and otherwise live. */
    ghost predicate Entered()
      reads this
    {
      "" !in vectors && (enter == "" <==> vectors == map[]) && (enter != "" ==> enter in vectors)
    }

    /** Live IDs are listed in the layers up to their level; links join live IDs, at most m from each. */
    ghost predicate Valid()
      reads this
    {
      && nodeLevels.Keys == vectors.Keys && Listed(layers, nodeLevels, maxLevel)
      && AllSound(neighbors, vectors.Keys, m)
      && Entered()
    }

    constructor (m: nat, efConstruction: nat, efSearch: nat, similarity: (V, V) -> real)
      ensures Valid() && vectors == map[]
      ensures this.m == m && this.efConstruction == efConstruction && this.efSearch == efSearch
              && this.similarity == similarity
    {
      this.m, this.efConstruction, this.efSearch, this.similarity := m, efConstruction, efSearch, similarity;
      maxLevel, layers, vectors, nodeLevels, neighbors, enter := 0, map[], map[], map[], map[], "";
    }

    function Score(query: V, id: string): real
      reads this
    {
      if id in vectors then similarity(query, vectors[id]) else 0.0
    }

    // ----- Searching a layer -----

    /** The best neighbour of the entries not yet visited, if it beats the current one. */
    method BestNeighbor(query: V, entries: seq<Hit>, visited: set<string>, layer: Layer, current: string)
      returns (best: string, bestScore: real)
      requires Sound(layer, vectors.Keys, m)
      ensures bestScore == Score(query, best)
      ensures best == current || (best in vectors && bestScore > Score(query, current))
      ensures AllVisited(entries, visited) ==> best == current
    {
      best, bestScore := current, Score(query, current);
      for i := 0 to |entries|
        invariant bestScore == Score(query, best)
        invariant best == current || (best in vectors && bestScore > Score(query, current))
        invariant AllVisited(entries, visited) ==> best == current
      {
        if entries[i].id !in visited {
          var ids := Listing(LinksOf(layer, entries[i].id).Keys);
          for k := 0 to |ids|
            invariant bestScore == Score(query, best)
            invariant best == current || (best in vectors && bestScore > Score(query, current))
          {
            if ids[k] !in visited {
              var s := Score(query, ids[k]);
              if s > bestScore {
                best, bestScore := ids[k], s;
              }
            }
          }
        }
      }
    }

    ghost function Better(query: V, score: real): set<string>
      reads this
    {
      set id | id in vectors && Score(query, id) > score
    }

    /** The greedy search for a closer entry point; each round finds a better one, so it ends. */
    method Climb(query: V, entries: seq<Hit>, visited: set<string>, layer: Layer, start: string)
      returns (current: string)
      requires Sound(layer, vectors.Keys, m)
      ensures Score(query, current) >= Score(query, start)
      ensures AllVisited(entries, visited) ==> current == start
    {
      current := start;
      while true
        invariant Score(query, current) >= Score(query, start)
        invariant AllVisited(entries, visited) ==> current == start
        decreases |Better(query, Score(query, current))|
      {
        var best, bestScore := BestNeighbor(query, entries, visited, layer, current);
        if best == current {
          return;
        }
        var was, now := Better(query, Score(query, current)), Better(query, bestScore);
        assert best in was && best !in now;
        SubsetSize(now, was);
        current := best;
      }
    }

    /** The best neighbour above the lowest score that has been neither visited nor added; "" if there is none. */
    method BestExpansion(query: V, entries: seq<Hit>, visited: set<string>, added: set<string>, layer: Layer,
                         lowest: real)
      returns (best: string, bestScore: real)
      requires Sound(layer, vectors.Keys, m)
      ensures best != "" ==> best in vectors && bestScore == Score(query, best) && best !in visited && best !in added
      ensures AllVisited(entries, visited) ==> best == ""
    {
      best, bestScore := "", -1.0;
      for i := 0 to |entries|
        invariant best != "" ==>
                    best in vectors && bestScore == Score(query, best) && best !in visited && best !in added
        invariant AllVisited(entries, visited) ==> best == ""
      {
        if entries[i].id !in visited {
          var ids := Listing(LinksOf(layer, entries[i].id).Keys);
          for k := 0 to |ids|
            invariant best != "" ==>
                        best in vectors && bestScore == Score(query, best) && best !in visited && best !in added
          {
            if ids[k] !in visited && ids[k] !in added {
              var s := Score(query, ids[k]);
              if s > lowest && s > bestScore {
                best, bestScore := ids[k], s;
              }
            }
          }
        }
      }
    }

    method Expand(query: V, entries: seq<Hit>, visited: set<string>, layer: Layer, score: real, ef: nat)
      returns (candidates: seq<Hit>)
      requires Sound(layer, vectors.Keys, m)
      ensures entries <= candidates
      ensures AllVisited(entries, visited) ==> candidates == entries
    {
      candidates := entries;
      var seen, added, lowest, expanded := visited, visited, score, 0;
      while expanded < ef
        invariant entries <= candidates
        invariant AllVisited(entries, visited) ==> candidates == entries && seen == visited
      {
        var best, bestScore := BestExpansion(query, candidates, seen, added, layer, lowest);
        if best == "" {
          return;
        }
        seen, added := seen + {best}, added + {best};
        candidates := candidates + [Hit(best, bestScore)];
        if bestScore < lowest {
          lowest := bestScore;
        }
        expanded := expanded + 1;
      }
    }

    /** Main result: a layer search returns the entry point it was given and nothing else. */
    method SearchLayer(query: V, start: string, layer: Layer, ef: nat) returns (result: Links)
      requires Sound(layer, vectors.Keys, m)
      ensures result == map[start := if start in vectors then similarity(query, vectors[start]) else 0.0]
    {
      var entries := [Hit(start, Score(query, start))];
      var visited := {start};
      var current := Climb(query, entries, visited, layer, start);
      var candidates := Expand(query, entries, visited, layer, Score(query, current), ef);
      result := map[];
      for i := 0 to |candidates|
        invariant result == if i == 0 then map[] else map[start := Score(query, start)]
      {
        result := result[candidates[i].id := candidates[i].score];
      }
    }

    // ----- Inserting -----

    /** What selectNeighbors keeps of the one candidate a layer search returns. */
    function Kept(candidate: string, score: real): Links {
      if m == 0 then map[] else map[candidate := score]
    }

    lemma OneCandidate(candidate: string, score: real, kept: Links)
      requires Selected(map[candidate := score], m, kept)
      ensures kept == Kept(candidate, score)
    {
      if m > 0 {
        SelectedAll(map[candidate := score], m, kept);
      }
    }

    /** The layer after id has been linked to the entry point e and every list cut to its m best links. */
    ghost predicate LinkMade(before: Layer, id: string, e: string, score: real, after: Layer) {
      Pruned(LinkedTo(before, id, Kept(e, score)), m, after)
    }

    method LinkInLayer(id: string, layer: Layer, ef: nat) returns (after: Layer)
      requires id in vectors && enter in vectors && Sound(layer, vectors.Keys, m)
      ensures LinkMade(layer, id, enter, Score(vectors[id], enter), after) && Sound(after, vectors.Keys, m)
    {
      var candidates := SearchLayer(vectors[id], enter, layer, ef);
      var kept := SelectNeighbors(candidates, m);
      OneCandidate(enter, Score(vectors[id], enter), kept);
      var linked := AddLinks(layer, id, kept);
      after := Prune(linked, m);
      LinkingKeepsSound(layer, vectors.Keys, m, id, kept, after);
    }

    /** In the layers from lo up to hi the link from id to e has been made; the others are as before. */
    ghost predicate LinksMade(before: map<nat, Layer>, id: string, e: string, score: real, lo: nat, hi: nat,
                              after: map<nat, Layer>) {
      forall l: nat ::
        if lo <= l < hi then LinkMade(At(before, l), id, e, score, At(after, l))
        else At(after, l) == At(before, l)
    }

    lemma OneMoreLayer(before: map<nat, Layer>, id: string, e: string, score: real, l: nat, hi: nat,
                       after: map<nat, Layer>, layer: Layer)
      requires l < hi && LinksMade(before, id, e, score, l + 1, hi, after)
      requires LinkMade(At(before, l), id, e, score, layer)
      ensures LinksMade(before, id, e, score, l, hi, after[l := layer])
    {
      AtPut(after, l, layer);
    }

    /** The number of layers an insert links in. The first node of an index becomes the entry point in place of its top
        link; one with an empty ID never does. */
    function LinkedLayers(id: string, level: nat): nat
      reads this
    {
      if enter != "" then level + 1 else if id != "" then level else 0
    }

    method LinkDownwards(id: string, level: nat)
      requires AllSound(neighbors, vectors.Keys, m) && id in vectors && (enter == "" || enter in vectors)
      modifies this`neighbors, this`enter
      ensures AllSound(neighbors, vectors.Keys, m) && enter == if old(enter) == "" then id else old(enter)
      ensures LinksMade(old(neighbors), id, enter, Score(vectors[id], enter), 0, old(LinkedLayers(id, level)),
                        neighbors)
    {
      ghost var e := if enter == "" then id else enter;
      ghost var hi := LinkedLayers(id, level);
      for l := level + 1 downto 0
        invariant AllSound(neighbors, vectors.Keys, m)
        invariant enter == if l == level + 1 then old(enter) else e
        invariant LinksMade(old(neighbors), id, e, Score(vectors[id], e), l, hi, neighbors)
      {
        if enter == "" {
          enter := id;
          continue;
        }
        var layer := At(neighbors, l);
        var after := LinkInLayer(id, layer, if l == 0 then efSearch else efConstruction);
        OneMoreLayer(old(neighbors), id, e, Score(vectors[id], e), l, hi, neighbors, after);
        PutSound(neighbors, vectors.Keys, m, l, after);
        neighbors := neighbors[l := after];
      }
    }

    method AddNode(v: V, id: string, level: nat)
      requires nodeLevels.Keys == vectors.Keys && Listed(layers, nodeLevels, maxLevel)
               && AllSound(neighbors, vectors.Keys, m)
      modifies this`vectors, this`nodeLevels, this`maxLevel, this`layers
      ensures nodeLevels.Keys == vectors.Keys && Listed(layers, nodeLevels, maxLevel)
              && AllSound(neighbors, vectors.Keys, m)
      ensures vectors == old(vectors)[id := v] && nodeLevels == old(nodeLevels)[id := level]
      ensures maxLevel == if level > old(maxLevel) then level else old(maxLevel)
      ensures AppendedUpTo(old(layers), id, level, layers)
    {
      MoreLive(neighbors, vectors.Keys, m, id);
      vectors := vectors[id := v];
      assert vectors.Keys == old(vectors.Keys) + {id};
      nodeLevels := nodeLevels[id := level];
      if level > maxLevel {
        maxLevel := level;
      }
      layers := AppendToLayers(layers, id, level);
      AppendKeepsListed(old(layers), old(nodeLevels), old(maxLevel), id, level, layers, maxLevel);
    }

    /** Main result: an insert keeps the index valid exactly when the ID is not empty; in the layers of the new node it
        links the node to the entry point and to no other. */
    method Insert(v: V, id: string, level: nat)
      requires Valid()
      modifies this
      ensures Valid() <==> id != ""
      ensures vectors == old(vectors)[id := v] && nodeLevels == old(nodeLevels)[id := level]
      ensures maxLevel == if level > old(maxLevel) then level else old(maxLevel)
      ensures AppendedUpTo(old(layers), id, level, layers)
      ensures enter == if old(enter) == "" then id else old(enter)
      ensures
        var levels := if old(enter) != "" then level + 1 else if id != "" then level else 0;
        var score := if enter in vectors then similarity(v, vectors[enter]) else 0.0;
        LinksMade(old(neighbors), id, enter, score, 0, levels, neighbors)
    {
      AddNode(v, id, level);
      LinkDownwards(id, level);
    }

    // ----- Removing -----

    method CutOutOfLayers(id: string)
      requires Listed(layers, nodeLevels, maxLevel)
      modifies this`layers, this`nodeLevels
      ensures layers == RemovedExcept(old(layers), {}, id) && nodeLevels == old(nodeLevels) - {id}
      ensures Listed(layers, nodeLevels, maxLevel)
    {
      nodeLevels := nodeLevels - {id};
      var rest := layers.Keys;
      while rest != {}
        invariant nodeLevels == old(nodeLevels) - {id}
        invariant rest <= old(layers.Keys) && layers == RemovedExcept(old(layers), rest, id)
      {
        var l :| l in rest;
        var ids := CutOut(layers[l], id);
        layers := layers[l := ids];
        rest := rest - {l};
      }
      assert layers == RemovedExcept(old(layers), {}, id);
      RemoveKeepsListed(old(layers), old(nodeLevels), maxLevel, id);
    }

    method DeleteLinks(id: string)
      requires AllSound(neighbors, vectors.Keys + {id}, m) && id !in vectors
      modifies this`neighbors
      ensures AllWithout(old(neighbors), id, neighbors) && AllSound(neighbors, vectors.Keys, m)
    {
      neighbors := DeleteEverywhere(neighbors, id);
      AllWithoutSound(old(neighbors), vectors.Keys + {id}, m, id, neighbors);
      assert vectors.Keys + {id} - {id} == vectors.Keys;
    }

    method PickEntry() returns (e: string)
      requires "" !in vectors && nodeLevels.Keys == vectors.Keys && Listed(layers, nodeLevels, maxLevel)
      ensures if e == "" then vectors == map[] else e in vectors
    {
      var ids := Members(layers, 0);
      for i := 0 to |ids|
        invariant forall k :: 0 <= k < i ==> ids[k] !in vectors
      {
        if ids[i] in vectors {
          return ids[i];
        }
      }
      forall id | id in vectors.Keys
        ensures id in ids
      {
        assert id in nodeLevels.Keys && ListedAt(layers, nodeLevels, maxLevel, id, 0);
      }
      assert vectors.Keys == {};
      e := "";
    }

    /** Main result: a removal keeps the index valid; if it removes the entry point, another live ID takes its place. */
    method RemoveVector(id: string)
      requires Valid()
      modifies this
      ensures Valid()
      ensures vectors == old(vectors) - {id} && nodeLevels == old(nodeLevels) - {id} && maxLevel == old(maxLevel)
      ensures layers == RemovedExcept(old(layers), {}, id)
      ensures AllWithout(old(neighbors), id, neighbors)
      ensures old(enter) != id ==> enter == old(enter)
    {
      MoreLive(neighbors, vectors.Keys, m, id);
      vectors := vectors - {id};
      assert vectors.Keys + {id} == old(vectors.Keys) + {id};
      CutOutOfLayers(id);
      DeleteLinks(id);
      assert vectors == map[] <==> vectors.Keys == {};
      if enter == id {
        enter := PickEntry();
      }
    }

    // ----- Searching -----

    /** At layer l the descent goes from a to the best of a and its neighbours. */
    ghost predicate Step(query: V, l: nat, a: string, b: string)
      reads this
    {
      && (b == a || (b in LinksOf(At(neighbors, l), a) && Score(query, b) > Score(query, a)))
      && forall nb :: nb in LinksOf(At(neighbors, l), a) ==> Score(query, nb) <= Score(query, b)
    }

    /** The IDs a search passes in its first steps down from the top layer. */
    ghost predicate IsDescent(query: V, path: seq<string>, steps: nat)
      requires steps <= maxLevel
      reads this
    {
      && |path| == steps + 1 && path[0] == enter
      && forall i :: 0 <= i < steps ==> Step(query, maxLevel - i, path[i], path[i + 1])
    }

    lemma OneStepDown(query: V, path: seq<string>, steps: nat, next: string)
      requires steps < maxLevel && IsDescent(query, path, steps) && Step(query, maxLevel - steps, path[steps], next)
      ensures IsDescent(query, path + [next], steps + 1)
    {
      var longer := path + [next];
      assert forall i :: 0 <= i <= steps ==> longer[i] == path[i];
    }

    ghost predicate NoneBetter(query: V, ids: seq<string>, score: real)
      reads this
    {
      forall id :: id in ids ==> Score(query, id) <= score
    }

    method BestBelow(query: V, l: nat, current: string) returns (best: string)
      requires Sound(At(neighbors, l), vectors.Keys, m) && current in vectors
      ensures best in vectors && Step(query, l, current, best)
    {
      best := current;
      var bestScore := Score(query, current);
      var ids := Listing(LinksOf(At(neighbors, l), current).Keys);
      for k := 0 to |ids|
        invariant bestScore == Score(query, best) && bestScore >= Score(query, current) && best in vectors
        invariant best == current || (best in ids && bestScore > Score(query, current))
        invariant NoneBetter(query, ids[..k], bestScore)
      {
        var s := Score(query, ids[k]);
        assert ids[..k + 1] == ids[..k] + [ids[k]];
        if s > bestScore {
          best, bestScore := ids[k], s;
        }
      }
      assert ids[..|ids|] == ids;
    }

    /** The way down from the entry point through the layers above layer 0. */
    method Descend(query: V) returns (current: string, ghost path: seq<string>)
      requires Valid() && enter != ""
      ensures IsDescent(query, path, maxLevel) && path[maxLevel] == current
      ensures current in vectors && Score(query, current) >= Score(query, enter)
    {
      current := enter;
      path := [enter];
      for l := maxLevel + 1 downto 1
        invariant IsDescent(query, path, maxLevel + 1 - l) && path[maxLevel + 1 - l] == current
        invariant current in vectors && Score(query, current) >= Score(query, enter)
      {
        var next := BestBelow(query, l, current);
        OneStepDown(query, path, maxLevel - l, next);
        current := next;
        path := path + [current];
      }
    }

    /** Main result: a search returns one live vector with its true score: the end of the descent. That score is at
        least the entry point's. */
    method Search(query: V, topK: nat) returns (r: seq<Hit>, ghost path: seq<string>)
      requires Valid()
      ensures vectors == map[] ==> r == []
      ensures vectors != map[] ==>
                && IsDescent(query, path, maxLevel)
                && path[maxLevel] in vectors && Score(query, path[maxLevel]) >= Score(query, enter)
                && (forall i, nb :: 0 <= i < maxLevel && nb in LinksOf(At(neighbors, maxLevel - i), path[i]) ==>
                      Score(query, nb) <= Score(query, path[i + 1]))
                && r == if topK == 0 then [] else [Hit(path[maxLevel], similarity(query, vectors[path[maxLevel]]))]
    {
      if enter == "" || |vectors| == 0 {
        return [], [];
      }
      var current;
      current, path := Descend(query);
      var candidates := SearchLayer(query, current, At(neighbors, 0), efSearch);
      r := Rank(candidates, topK);
      RankOfOne(current, Score(query, current), topK, r);
    }
  }
}

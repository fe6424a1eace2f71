/**
 The link lists of one layer of pkg/index/hnsw.go: for each ID the IDs linked to it, with scores.
 */
module HnswLayers {
  import opened Scans
  import opened Ranking
  import opened IdGroups

  type Links = map<string, real>
  type Layer = map<string, Links>

  function LinksOf(layer: Layer, id: string): Links {
    if id in layer then layer[id] else map[]
  }

  /** All IDs of the layer are live and none has more than m links. */
  ghost predicate Sound(layer: Layer, live: set<string>, m: nat) {
    forall src :: src in layer ==> src in live && layer[src].Keys <= live && |layer[src]| <= m
  }

  // ----- selectNeighbors -----

  ghost function LinkHits(links: Links): set<Hit> {
    set id | id in links :: Hit(id, links[id])
  }

  /** kept holds the m best links, or all of them if there are fewer. */
  ghost predicate Selected(links: Links, m: nat, kept: Links) {
    && (forall id :: id in kept ==> id in links && kept[id] == links[id])
    && |kept| == (if |links| < m then |links| else m)
    && forall id, out :: id in kept && out in links && out !in kept ==> links[out] <= kept[id]
  }

  lemma SelectedAll(links: Links, m: nat, kept: Links)
    requires Selected(links, m, kept) && |links| <= m
    ensures kept == links
  {
    SubsetSize(kept.Keys, links.Keys);
  }

  /** The links as hits, best first, cut to k. */
  method Rank(links: Links, k: nat) returns (top: seq<Hit>)
    ensures IsTopK(LinkHits(links), k, top) && |LinkHits(links)| == |links|
  {
    var ids := Listing(links.Keys);
    var pairs: seq<Hit> := [];
    for i := 0 to |ids|
      invariant |pairs| == i && forall j :: 0 <= j < i ==> pairs[j] == Hit(ids[j], links[ids[j]])
    {
      pairs := pairs + [Hit(ids[i], links[ids[i]])];
    }
    forall id | id in links
      ensures Hit(id, links[id]) in pairs
    {
      var j :| 0 <= j < |ids| && ids[j] == id;
      assert pairs[j] == Hit(id, links[id]);
    }
    assert (set h | h in pairs) == LinkHits(links);
    ListingLength(ids, links.Keys);
    ListingLength(pairs, LinkHits(links));
    top := SortAndCut(pairs, k);
  }

  lemma RankOfOne(id: string, score: real, k: nat, top: seq<Hit>)
    requires IsTopK(LinkHits(map[id := score]), k, top)
    ensures top == if k == 0 then [] else [Hit(id, score)]
  {
    var links := map[id := score];
    assert id in links && Hit(id, links[id]) in LinkHits(links);
    assert LinkHits(links) == {Hit(id, score)};
  }

  method SelectNeighbors(links: Links, m: nat) returns (kept: Links)
    ensures Selected(links, m, kept)
    ensures |kept| == (if |links| < m then |links| else m) && forall id :: id in kept ==> id in links
    ensures forall id, out :: id in kept && out in links && out !in kept ==> links[out] <= links[id]
  {
    var top := Rank(links, m);
    kept := LinksFrom(links, top);
    forall id, out | id in kept && out in links && out !in kept
      ensures links[out] <= kept[id]
    {
      var k :| 0 <= k < |top| && top[k].id == id;
      assert Hit(out, links[out]) in LinkHits(links) && Hit(out, links[out]) !in top;
    }
  }

  method LinksFrom(links: Links, top: seq<Hit>) returns (kept: Links)
    requires Distinct(top) && forall k :: 0 <= k < |top| ==> top[k].id in links && top[k].score == links[top[k].id]
    ensures |kept| == |top|
    ensures forall id :: id in kept <==> exists k :: 0 <= k < |top| && top[k].id == id
    ensures forall id :: id in kept ==> id in links && kept[id] == links[id]
  {
    kept := map[];
    for i := 0 to |top|
      invariant |kept| == i
      invariant forall id :: id in kept <==> exists k :: 0 <= k < i && top[k].id == id
      invariant forall id :: id in kept ==> id in links && kept[id] == links[id]
    {
      assert top[i].id !in kept;
      kept := kept[top[i].id := top[i].score];
    }
  }

  // ----- Linking a new ID -----

  /** The layer with links in both directions between id and the kept IDs. */
  function LinkedTo(layer: Layer, id: string, kept: Links): Layer {
    map src | src in layer.Keys + {id} + kept.Keys :: LinkedLinks(layer, id, kept, src)
  }

  function LinkedLinks(layer: Layer, id: string, kept: Links, src: string): Links {
    if src == id then LinksOf(layer, id) + kept
    else if src in kept then LinksOf(layer, src)[id := kept[src]]
    else LinksOf(layer, src)
  }

  method AddLinks(layer: Layer, id: string, kept: Links) returns (after: Layer)
    ensures after == LinkedTo(layer, id, kept)
  {
    after := layer[id := LinksOf(layer, id)];
    var rest := kept.Keys;
    NoLinks(layer, id);
    assert kept - rest == map[];
    while rest != {}
      invariant rest <= kept.Keys && after == LinkedTo(layer, id, kept - rest)
    {
      var nid :| nid in rest;
      OneMoreLink(layer, id, kept - rest, nid, kept[nid]);
      OneFewerLeft(kept, rest, nid);
      after := after[id := after[id][nid := kept[nid]]];
      after := after[nid := LinksOf(after, nid)[id := kept[nid]]];
      rest := rest - {nid};
    }
    assert kept - {} == kept;
  }

  lemma NoLinks(layer: Layer, id: string)
    ensures LinkedTo(layer, id, map[]) == layer[id := LinksOf(layer, id)]
  {
    assert LinksOf(layer, id) + map[] == LinksOf(layer, id);
  }

  function BothWays(layer: Layer, id: string, nid: string, score: real): Layer
    requires id in layer
  {
    var forth := layer[id := layer[id][nid := score]];
    forth[nid := LinksOf(forth, nid)[id := score]]
  }

  lemma OneMoreOwnLink(layer: Layer, id: string, done: Links, nid: string, score: real)
    requires nid !in done
    ensures BothWays(LinkedTo(layer, id, done), id, nid, score)[id] == LinkedLinks(layer, id, done[nid := score], id)
  {
    var own := LinksOf(layer, id);
    assert own + done[nid := score] == (own + done)[nid := score];
    assert (own + done)[nid := score][nid := score] == (own + done)[nid := score];
    assert LinkedTo(layer, id, done)[id] == own + done;
  }

  lemma OneMoreLinkAt(layer: Layer, id: string, done: Links, nid: string, score: real, src: string)
    requires nid !in done && src in layer.Keys + {id, nid} + done.Keys
    ensures BothWays(LinkedTo(layer, id, done), id, nid, score)[src] == LinkedLinks(layer, id, done[nid := score], src)
  {
    if src == id {
      OneMoreOwnLink(layer, id, done, nid, score);
    } else if src == nid {
      assert LinksOf(LinkedTo(layer, id, done), nid) == LinksOf(layer, nid);
    } else {
      assert src in LinkedTo(layer, id, done);
    }
  }

  lemma OneMoreLink(layer: Layer, id: string, done: Links, nid: string, score: real)
    requires nid !in done
    ensures LinkedTo(layer, id, done[nid := score]) == BothWays(LinkedTo(layer, id, done), id, nid, score)
  {
    var after := BothWays(LinkedTo(layer, id, done), id, nid, score);
    forall src | src in after
      ensures after[src] == LinkedTo(layer, id, done[nid := score])[src]
    {
      OneMoreLinkAt(layer, id, done, nid, score, src);
    }
  }

  // ----- Pruning -----

  ghost predicate Pruned(before: Layer, m: nat, after: Layer) {
    after.Keys == before.Keys && forall src :: src in before ==> Selected(before[src], m, after[src])
  }

  method Prune(layer: Layer, m: nat) returns (after: Layer)
    ensures Pruned(layer, m, after)
  {
    after := layer;
    var rest := layer.Keys;
    while rest != {}
      invariant rest <= layer.Keys && after.Keys == layer.Keys
      invariant forall src :: src in layer ==>
                  if src in rest then after[src] == layer[src] else Selected(layer[src], m, after[src])
    {
      var src :| src in rest;
      if |after[src]| > m {
        var kept := SelectNeighbors(after[src], m);
        after := after[src := kept];
      }
      rest := rest - {src};
    }
  }

  lemma LinkedLive(layer: Layer, live: set<string>, m: nat, id: string, kept: Links, src: string)
    requires Sound(layer, live, m) && id in live && kept.Keys <= live && src in LinkedTo(layer, id, kept)
    ensures src in live && LinkedLinks(layer, id, kept, src).Keys <= live
  {
    assert LinksOf(layer, src).Keys <= live;
  }

  lemma SelectedLive(links: Links, live: set<string>, m: nat, kept: Links)
    requires Selected(links, m, kept) && links.Keys <= live
    ensures kept.Keys <= live && |kept| <= m
  {
  }

  /** Linking and pruning keep a layer sound. */
  lemma LinkingKeepsSound(layer: Layer, live: set<string>, m: nat, id: string, kept: Links, after: Layer)
    requires Sound(layer, live, m) && id in live && kept.Keys <= live
    requires Pruned(LinkedTo(layer, id, kept), m, after)
    ensures Sound(after, live, m)
  {
    forall src | src in after
      ensures src in live && after[src].Keys <= live && |after[src]| <= m
    {
      LinkedLive(layer, live, m, id, kept, src);
      SelectedLive(LinkedLinks(layer, id, kept, src), live, m, after[src]);
    }
  }

  // ----- Removal -----

  function Without(layer: Layer, id: string): Layer {
    map src | src in layer && src != id :: layer[src] - {id}
  }

  lemma RemovalKeepsSound(layer: Layer, live: set<string>, m: nat, id: string)
    requires Sound(layer, live, m)
    ensures Sound(Without(layer, id), live - {id}, m)
  {
    forall src | src in Without(layer, id)
      ensures |layer[src] - {id}| <= m
    {
      SubsetSize((layer[src] - {id}).Keys, layer[src].Keys);
    }
  }

  method DeleteID(layer: Layer, id: string) returns (after: Layer)
    ensures after == Without(layer, id)
  {
    after := layer - {id};
    var rest := after.Keys;
    while rest != {}
      invariant rest <= after.Keys == layer.Keys - {id}
      invariant forall src :: src in after ==> after[src] == if src in rest then layer[src] else layer[src] - {id}
    {
      var src :| src in rest;
      after := after[src := after[src] - {id}];
      rest := rest - {src};
    }
  }

  // ----- All layers -----

  function At(neighbors: map<nat, Layer>, l: nat): Layer {
    if l in neighbors then neighbors[l] else map[]
  }

  lemma AtPut(neighbors: map<nat, Layer>, l: nat, layer: Layer)
    ensures forall k: nat :: At(neighbors[l := layer], k) == if k == l then layer else At(neighbors, k)
  {
    forall k: nat
      ensures At(neighbors[l := layer], k) == if k == l then layer else At(neighbors, k)
    {
      assert k != l ==> (k in neighbors[l := layer] <==> k in neighbors);
    }
  }

  ghost predicate AllSound(neighbors: map<nat, Layer>, live: set<string>, m: nat) {
    forall l: nat :: Sound(At(neighbors, l), live, m)
  }

  lemma MoreLive(neighbors: map<nat, Layer>, live: set<string>, m: nat, id: string)
    requires AllSound(neighbors, live, m)
    ensures AllSound(neighbors, live + {id}, m)
  {
    forall l: nat
      ensures Sound(At(neighbors, l), live + {id}, m)
    {
      assert Sound(At(neighbors, l), live, m);
    }
  }

  lemma PutSound(neighbors: map<nat, Layer>, live: set<string>, m: nat, l: nat, layer: Layer)
    requires AllSound(neighbors, live, m) && Sound(layer, live, m)
    ensures AllSound(neighbors[l := layer], live, m)
  {
    var after := neighbors[l := layer];
    forall k: nat
      ensures Sound(At(after, k), live, m)
    {
      assert Sound(At(neighbors, k), live, m);
    }
  }

  /** Every layer has lost the ID. */
  ghost predicate AllWithout(before: map<nat, Layer>, id: string, after: map<nat, Layer>) {
    forall l: nat :: At(after, l) == Without(At(before, l), id)
  }

  lemma AllWithoutSound(before: map<nat, Layer>, live: set<string>, m: nat, id: string, after: map<nat, Layer>)
    requires AllSound(before, live, m) && AllWithout(before, id, after)
    ensures AllSound(after, live - {id}, m)
  {
    forall l: nat
      ensures Sound(At(after, l), live - {id}, m)
    {
      RemovalKeepsSound(At(before, l), live, m, id);
    }
  }

  method DeleteEverywhere(neighbors: map<nat, Layer>, id: string) returns (after: map<nat, Layer>)
    ensures AllWithout(neighbors, id, after)
  {
    after := neighbors;
    var rest := neighbors.Keys;
    while rest != {}
      invariant rest <= after.Keys <= neighbors.Keys
      invariant forall l: nat :: At(after, l) == if l in rest then At(neighbors, l) else Without(At(neighbors, l), id)
    {
      var l :| l in rest;
      rest := rest - {l};
      var layer := DeleteID(after[l], id);
      after := if |layer| == 0 then after - {l} else after[l := layer];
    }
  }

  // ----- The node lists of the layers -----

  ghost predicate ListedAt(layers: Groups, levels: map<string, nat>, maxLevel: nat, id: string, l: nat) {
    id in levels && l <= levels[id] ==> l <= maxLevel && id in Members(layers, l)
  }

  /** Every ID is listed in each layer up to its level. */
  ghost predicate Listed(layers: Groups, levels: map<string, nat>, maxLevel: nat) {
    forall id, l: nat :: ListedAt(layers, levels, maxLevel, id, l)
  }

  ghost predicate AppendedUpTo(before: Groups, id: string, level: nat, after: Groups) {
    forall l: nat :: Members(after, l) == Members(before, l) + if l <= level then [id] else []
  }

  method AppendToLayers(layers: Groups, id: string, level: nat) returns (after: Groups)
    ensures AppendedUpTo(layers, id, level, after)
  {
    after := layers;
    for l := 0 to level + 1
      invariant forall k: nat :: Members(after, k) == Members(layers, k) + if k < l then [id] else []
    {
      after := Appended(after, l, id);
    }
  }

  lemma AppendKeepsListed(before: Groups, levels: map<string, nat>, maxLevel: nat, id: string, level: nat,
                          after: Groups, newMax: nat)
    requires Listed(before, levels, maxLevel) && AppendedUpTo(before, id, level, after) && newMax >= maxLevel
             && newMax >= level
    ensures Listed(after, levels[id := level], newMax)
  {
    var now := levels[id := level];
    forall x, l: nat
      ensures ListedAt(after, now, newMax, x, l)
    {
      assert Members(after, l) == Members(before, l) + if l <= level then [id] else [];
      assert ListedAt(before, levels, maxLevel, x, l);
    }
  }

  lemma RemoveKeepsListed(layers: Groups, levels: map<string, nat>, maxLevel: nat, id: string)
    requires Listed(layers, levels, maxLevel)
    ensures Listed(RemovedExcept(layers, {}, id), levels - {id}, maxLevel)
  {
    var now, after := levels - {id}, RemovedExcept(layers, {}, id);
    forall x, l: nat
      ensures ListedAt(after, now, maxLevel, x, l)
    {
      assert ListedAt(layers, levels, maxLevel, x, l);
      if x != id && x in Members(layers, l) {
        RemoveFirstKeepsOthers(Members(layers, l), id, x);
        assert Members(after, l) == RemoveFirst(Members(layers, l), id);
      }
    }
  }
}

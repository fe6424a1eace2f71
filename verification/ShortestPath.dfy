/**
 pkg/graph/traversal.go: ShortestPath, a breadth-first search that records parents and walks back along them.
 */
module ShortestPath {
  import opened Wrappers
  import opened Scans
  import opened PropertyGraph
  import opened Reachability

  datatype PathResult = PathResult(from: string, to: string, nodeIds: seq<string>, edgeIds: seq<string>, length: nat)

  const OUTGOING := Options(Out, [], [], 0, 0)

  /** The edge leads from a to b: it is filed under a and its To end is b. In a truthful store its From end is a. */
  ghost predicate Joins(s: State, id: string, a: string, b: string) {
    Leads(s, OUTGOING, a, id) && s.edges[id].to == b
  }

  lemma JoinsIsFromTo(s: State, id: string, a: string, b: string)
    requires Indexed(s) && Coherent(s)
    ensures Joins(s, id, a, b) <==> id in s.edges && s.edges[id].from == a && s.edges[id].to == b
  {
    CoherentNeighbours(s, OUTGOING, a, id);
  }

  // ----- The search tree -----

  /** x was reached from its parent, one level above it. */
  ghost predicate TreeEdge(s: State, dist: map<string, nat>, parent: map<string, string>, edgeTo: map<string, string>,
                           x: string)
    requires x in dist
  {
    && x in s.nodes
    && x in parent && parent[x] in dist && dist[x] == dist[parent[x]] + 1
    && x in edgeTo && Joins(s, edgeTo[x], parent[x], x)
  }

  /** dist maps every visited node to its depth in the tree of parents rooted at a. */
  ghost predicate SearchTree(s: State, a: string, dist: map<string, nat>, parent: map<string, string>,
                             edgeTo: map<string, string>) {
    && a in dist && dist[a] == 0
    && forall x {:trigger TreeEdge(s, dist, parent, edgeTo, x)} :: x in dist && x != a ==>
         TreeEdge(s, dist, parent, edgeTo, x)
  }

  /** The queue holds the visited nodes that are not done, by increasing depth and at most two depths at a time. */
  ghost predicate Queued(dist: map<string, nat>, done: set<string>, queue: seq<string>) {
    && Distinct(queue)
    && (forall i :: 0 <= i < |queue| ==> queue[i] in dist && queue[i] !in done)
    && (forall i, j :: 0 <= i < j < |queue| ==> dist[queue[i]] <= dist[queue[j]] <= dist[queue[i]] + 1)
  }

  ghost predicate ExpandedAll(links: Graph, dist: map<string, nat>, done: set<string>) {
    forall p, x :: p in done && (p, x) in links ==> p in dist && x in dist && dist[x] <= dist[p] + 1
  }

  ghost predicate Frontier(links: Graph, dist: map<string, nat>, done: set<string>, queue: seq<string>) {
    && Queued(dist, done, queue) && ExpandedAll(links, dist, done)
    && (forall x :: x in dist <==> x in done || x in queue)
    && (forall p, i :: p in done && 0 <= i < |queue| ==> dist[p] <= dist[queue[i]])
  }

  /** Between the moment h is taken from the queue and the moment it is done. */
  ghost predicate Expanding(links: Graph, dist: map<string, nat>, done: set<string>, h: string, queue: seq<string>) {
    && h in dist && h !in done && h !in queue
    && Queued(dist, done, queue) && ExpandedAll(links, dist, done)
    && (forall x :: x in dist <==> x in done || x == h || x in queue)
    && (forall p :: p in done ==> dist[p] <= dist[h])
    && (forall i :: 0 <= i < |queue| ==> dist[h] <= dist[queue[i]] <= dist[h] + 1)
  }

  lemma TakeHead(links: Graph, dist: map<string, nat>, done: set<string>, queue: seq<string>)
    requires Frontier(links, dist, done, queue) && queue != []
    ensures Expanding(links, dist, done, queue[0], queue[1..])
  {
    assert queue == [queue[0]] + queue[1..];
  }

  lemma DiscoverInTree(s: State, a: string, dist: map<string, nat>, parent: map<string, string>,
                       edgeTo: map<string, string>,
                       h: string, n: string, id: string)
    requires SearchTree(s, a, dist, parent, edgeTo) && h in dist
    requires n !in dist && Joins(s, id, h, n) && n in s.nodes
    ensures SearchTree(s, a, dist[n := dist[h] + 1], parent[n := h], edgeTo[n := id])
  {
    var dist', parent', edgeTo' := dist[n := dist[h] + 1], parent[n := h], edgeTo[n := id];
    forall x | x in dist' && x != a
      ensures TreeEdge(s, dist', parent', edgeTo', x)
    {
      assert x != n ==> TreeEdge(s, dist, parent, edgeTo, x);
    }
  }

  lemma DiscoverInQueue(links: Graph, dist: map<string, nat>, done: set<string>, h: string, queue: seq<string>,
                        n: string)
    requires Expanding(links, dist, done, h, queue) && n !in dist
    ensures Expanding(links, dist[n := dist[h] + 1], done, h, queue + [n])
  {
    var dist', queue' := dist[n := dist[h] + 1], queue + [n];
    assert forall i :: 0 <= i < |queue| ==> queue'[i] == queue[i] != n;
  }

  lemma FinishHead(links: Graph, dist: map<string, nat>, done: set<string>, h: string, queue: seq<string>)
    requires Expanding(links, dist, done, h, queue)
    requires forall x :: (h, x) in links ==> x in dist
    ensures Frontier(links, dist, done + {h}, queue)
  {
  }

  // ----- Optimality -----

  /** Along any path from a, the nodes are reached in time until one is met that still waits in the queue. */
  lemma {:induction false} AlongPath(links: Graph, a: string, dist: map<string, nat>, done: set<string>,
                                     queue: seq<string>,
                                     p: seq<string>, i: nat)
    requires Frontier(links, dist, done, queue) && a in dist && dist[a] == 0
    requires IsPath(links, p) && p[0] == a && i < |p|
    ensures (p[i] in dist && dist[p[i]] <= i) || exists j :: 0 <= j < i && p[j] in queue && dist[p[j]] <= j
  {
    if i > 0 {
      AlongPath(links, a, dist, done, queue, p, i - 1);
      if p[i - 1] in dist && dist[p[i - 1]] <= i - 1 {
        assert (p[i - 1], p[i]) in links;
        if p[i - 1] !in done {
          assert p[i - 1] in queue;
        }
      }
    }
  }

  lemma HeadIsNearest(links: Graph, a: string, dist: map<string, nat>, done: set<string>, queue: seq<string>,
                      p: seq<string>)
    requires Frontier(links, dist, done, queue) && queue != [] && a in dist && dist[a] == 0
    requires Connects(links, p, a, queue[0])
    ensures dist[queue[0]] + 1 <= |p|
  {
    AlongPath(links, a, dist, done, queue, p, |p| - 1);
  }

  lemma HeadHasShortestPath(links: Graph, a: string, dist: map<string, nat>, done: set<string>, queue: seq<string>)
    requires Frontier(links, dist, done, queue) && queue != [] && a in dist && dist[a] == 0
    ensures forall p :: Connects(links, p, a, queue[0]) ==> dist[queue[0]] + 1 <= |p|
  {
    forall p | Connects(links, p, a, queue[0])
      ensures dist[queue[0]] + 1 <= |p|
    {
      HeadIsNearest(links, a, dist, done, queue, p);
    }
  }

  lemma EmptyQueueNoPath(links: Graph, a: string, dist: map<string, nat>, done: set<string>, b: string)
    requires Frontier(links, dist, done, []) && a in dist && dist[a] == 0 && b !in done
    ensures !exists p :: Connects(links, p, a, b)
  {
    if p :| Connects(links, p, a, b) {
      AlongPath(links, a, dist, done, [], p, |p| - 1);
    }
  }

  // ----- The walk back -----

  /** The edges join the nodes one after the other. */
  ghost predicate JoinedBy(s: State, nodeIds: seq<string>, edgeIds: seq<string>) {
    |nodeIds| == |edgeIds| + 1 && forall i :: 0 <= i < |edgeIds| ==> Joins(s, edgeIds[i], nodeIds[i], nodeIds[i + 1])
  }

  lemma Prepend(s: State, links: Graph, p: seq<string>, edgeIds: seq<string>, a: string, b: string, c: string,
                id: string)
    requires Connects(links, p, b, c) && JoinedBy(s, p, edgeIds) && (a, b) in links && Joins(s, id, a, b)
    ensures Connects(links, [a] + p, a, c) && JoinedBy(s, [a] + p, [id] + edgeIds)
  {
    var q, ids := [a] + p, [id] + edgeIds;
    forall i | 0 <= i < |q| - 1
      ensures (q[i], q[i + 1]) in links && Joins(s, ids[i], q[i], q[i + 1])
    {
      if i > 0 {
        assert q[i] == p[i - 1] && q[i + 1] == p[i] && ids[i] == edgeIds[i - 1];
      }
    }
  }

  method WalkBack(ghost s: State, from: string, to: string, parent: map<string, string>, edgeTo: map<string, string>,
                  ghost dist: map<string, nat>) returns (path: seq<string>, edgePath: seq<string>)
    requires SearchTree(s, from, dist, parent, edgeTo) && to in dist
    ensures Connects(Links(s, OUTGOING), path, from, to) && JoinedBy(s, path, edgePath) && |path| == dist[to] + 1
  {
    path, edgePath := [], [];
    var current := to;
    while current != from
      invariant current in dist && dist[current] + |path| == dist[to]
      invariant Connects(Links(s, OUTGOING), [current] + path, current, to) && JoinedBy(s, [current] + path, edgePath)
      decreases dist[current]
    {
      assert TreeEdge(s, dist, parent, edgeTo, current);
      path := [current] + path;
      assert Linked(s, OUTGOING, parent[current], current);
      Prepend(s, Links(s, OUTGOING), path, edgePath, parent[current], current, to, edgeTo[current]);
      if current in edgeTo {
        edgePath := [edgeTo[current]] + edgePath;
      }
      current := parent[current];
    }
    path := [from] + path;
  }

  method GetEdgesFrom(g: GraphStore, nodeId: string) returns (edges: seq<Edge>)
    requires Indexed(g.Now())
    ensures FoundEdges(g.Now(), OUTGOING, nodeId, edges)
    ensures forall id :: Leads(g.Now(), OUTGOING, nodeId, id) ==> g.Now().edges[id] in edges
  {
    var neighbors;
    neighbors, edges := g.GetNeighbors(nodeId, OUTGOING);
  }

  method FindEdgeTo(g: GraphStore, nodeId: string, target: string) returns (id: string)
    requires Indexed(g.Now()) && Linked(g.Now(), OUTGOING, nodeId, target)
    ensures Joins(g.Now(), id, nodeId, target)
  {
    var edges := GetEdgesFrom(g, nodeId);
    ghost var leading :|
      Leads(g.Now(), OUTGOING, nodeId, leading) && FarEnd(OUTGOING, g.Now().edges[leading]) == target;
    assert g.Now().edges[leading] in edges;
    for i := 0 to |edges|
      invariant forall k :: 0 <= k < i ==> edges[k].to != target
    {
      if edges[i].to == target {
        return edges[i].id;
      }
    }
    assert false;
  }

  ghost predicate AllIn(ids: seq<string>, n: nat, visited: set<string>) {
    n <= |ids| && forall k :: 0 <= k < n ==> ids[k] in visited
  }

  lemma AllInGrows(ids: seq<string>, n: nat, visited: set<string>)
    requires AllIn(ids, n, visited) && n < |ids|
    ensures AllIn(ids, n + 1, visited + {ids[n]})
  {
  }

  method NeighborIds(g: GraphStore, nodeId: string) returns (ids: seq<string>)
    requires Indexed(g.Now())
    ensures forall i :: 0 <= i < |ids| ==> (nodeId, ids[i]) in Links(g.Now(), OUTGOING) && ids[i] in g.Now().nodes
    ensures forall b :: (nodeId, b) in Links(g.Now(), OUTGOING) ==> b in ids
  {
    hide Collected, NeighborsOf, EdgesOf, Indexed;
    var neighbors, edges := g.GetNeighbors(nodeId, OUTGOING);
    ids := seq(|neighbors|, i requires 0 <= i < |neighbors| => neighbors[i].id);
    forall b | Linked(g.Now(), OUTGOING, nodeId, b)
      ensures b in ids
    {
      var i :| 0 <= i < |neighbors| && neighbors[i].id == b;
      assert ids[i] == b;
    }
  }

  /** The inner step of the search: n is reached for the first time, from nodeId. */
  lemma Discover(s: State, a: string, links: Graph, dist: map<string, nat>, parent: map<string, string>,
                 edgeTo: map<string, string>,
                 done: set<string>, h: string, queue: seq<string>, n: string, id: string)
    requires SearchTree(s, a, dist, parent, edgeTo) && Expanding(links, dist, done, h, queue)
    requires n !in dist && Joins(s, id, h, n) && n in s.nodes
    ensures SearchTree(s, a, dist[n := dist[h] + 1], parent[n := h], edgeTo[n := id])
    ensures Expanding(links, dist[n := dist[h] + 1], done, h, queue + [n])
  {
    DiscoverInTree(s, a, dist, parent, edgeTo, h, n, id);
    DiscoverInQueue(links, dist, done, h, queue, n);
  }

  /** The loop over the neighbours of the node that has just been taken from the queue. */
  method Expand(g: GraphStore, nodeId: string, visited0: set<string>, parent0: map<string, string>,
                edgeTo0: map<string, string>,
                queue0: seq<string>, ghost from: string, ghost dist0: map<string, nat>, ghost done: set<string>)
    returns (visited: set<string>, parent: map<string, string>, edgeTo: map<string, string>, queue: seq<string>,
             ghost dist: map<string, nat>)
    requires Indexed(g.Now()) && dist0.Keys == visited0 <= {from} + g.Now().nodes.Keys
    requires SearchTree(g.Now(), from, dist0, parent0, edgeTo0)
    requires Expanding(Links(g.Now(), OUTGOING), dist0, done, nodeId, queue0)
    ensures dist.Keys == visited <= {from} + g.Now().nodes.Keys
    ensures SearchTree(g.Now(), from, dist, parent, edgeTo)
    ensures Expanding(Links(g.Now(), OUTGOING), dist, done, nodeId, queue)
    ensures forall x :: (nodeId, x) in Links(g.Now(), OUTGOING) ==> x in dist
  {
    ghost var s, links := g.Now(), Links(g.Now(), OUTGOING);
    hide SearchTree, Expanding, Indexed;
    visited, parent, edgeTo, queue, dist := visited0, parent0, edgeTo0, queue0, dist0;
    var neighbors := NeighborIds(g, nodeId);
    for i := 0 to |neighbors|
      invariant dist.Keys == visited <= {from} + s.nodes.Keys
      invariant SearchTree(s, from, dist, parent, edgeTo)
      invariant Expanding(links, dist, done, nodeId, queue)
      invariant AllIn(neighbors, i, visited)
    {
      var n := neighbors[i];
      if n !in visited {
        var id := FindEdgeTo(g, nodeId, n);
        AllInGrows(neighbors, i, visited);
        Discover(s, from, links, dist, parent, edgeTo, done, nodeId, queue, n, id);
        visited := visited + {neighbors[i]};
        parent := parent[n := nodeId];
        edgeTo := edgeTo[n := id];
        queue := queue + [n];
        dist := dist[n := dist[nodeId] + 1];
      }
    }
  }

  ghost predicate IsShortest(s: State, r: PathResult, from: string, to: string) {
    && r.from == from && r.to == to
    && Connects(Links(s, OUTGOING), r.nodeIds, from, to)
    && JoinedBy(s, r.nodeIds, r.edgeIds)
    && r.length == |r.edgeIds|
    && forall p :: Connects(Links(s, OUTGOING), p, from, to) ==> |r.nodeIds| <= |p|
  }

  /** Main result: the search ends, reports no path exactly when there is none, and otherwise a shortest one. */
  method Find(g: GraphStore, from: string, to: string) returns (r: Option<PathResult>)
    requires Indexed(g.Now())
    ensures r.None? <==> !exists p :: Connects(Links(g.Now(), OUTGOING), p, from, to)
    ensures r.Some? ==> IsShortest(g.Now(), r.value, from, to)
  {
    ghost var s, links := g.Now(), Links(g.Now(), OUTGOING);
    if from == to {
      assert Connects(links, [from], from, to);
      return Some(PathResult(from, to, [from], [], 0));
    }
    var visited := {from};
    var parent: map<string, string>, edgeTo: map<string, string> := map[], map[];
    var queue := [from];
    ghost var dist: map<string, nat>, done: set<string> := map[from := 0], {};
    while |queue| > 0
      invariant dist.Keys == visited <= {from} + s.nodes.Keys
      invariant SearchTree(s, from, dist, parent, edgeTo) && Frontier(links, dist, done, queue)
      invariant to !in done
      decreases {from} + s.nodes.Keys - done
    {
      var nodeId := queue[0];
      TakeHead(links, dist, done, queue);
      if nodeId == to {
        HeadHasShortestPath(links, from, dist, done, queue);
        var path, edgePath := WalkBack(s, from, to, parent, edgeTo, dist);
        assert Connects(Links(g.Now(), OUTGOING), path, from, to);
        return Some(PathResult(from, to, path, edgePath, |path| - 1));
      }
      visited, parent, edgeTo, queue, dist :=
        Expand(g, nodeId, visited, parent, edgeTo, queue[1..], from, dist, done);
      FinishHead(links, dist, done, nodeId, queue);
      done := done + {nodeId};
    }
    assert queue == [];
    EmptyQueueNoPath(links, from, dist, done, to);
    return None;
  }
}

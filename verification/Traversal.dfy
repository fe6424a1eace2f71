/**
 pkg/graph/traversal.go: breadth-first search over neighbour queries, and what the traversals share.
 */
module Traversal {
  import opened PropertyGraph
  import opened Reachability

  const DEFAULT_DEPTH := 3

  // ----- Results without repetition -----

  ghost predicate DistinctIds(nodes: seq<Node>) {
    forall i, j :: 0 <= i < j < |nodes| ==> nodes[i].id != nodes[j].id
  }

  /** The first occurrence of every ID, in order. */
  ghost function Deduplicated(nodes: seq<Node>): seq<Node> {
    if nodes == [] then []
    else
      var front, last := nodes[..|nodes| - 1], nodes[|nodes| - 1];
      if HasId(front, last.id) then Deduplicated(front) else Deduplicated(front) + [last]
  }

  lemma {:induction false} DeduplicatedIds(nodes: seq<Node>)
    ensures DistinctIds(Deduplicated(nodes))
    ensures forall id :: HasId(Deduplicated(nodes), id) <==> HasId(nodes, id)
    ensures forall n :: n in Deduplicated(nodes) ==> n in nodes
    ensures DistinctIds(nodes) ==> Deduplicated(nodes) == nodes
    decreases |nodes|
  {
    if nodes != [] {
      var front, last := nodes[..|nodes| - 1], nodes[|nodes| - 1];
      DeduplicatedIds(front);
      assert nodes == front + [last];
      HasIdAppend(front, last);
      HasIdAppend(Deduplicated(front), last);
      if !HasId(front, last.id) {
        assert !HasId(Deduplicated(front), last.id);
      } else {
        var i :| 0 <= i < |front| && front[i].id == last.id;
        assert nodes[i].id == nodes[|nodes| - 1].id;
      }
    }
  }

  method DeduplicateNodes(nodes: seq<Node>) returns (result: seq<Node>)
    ensures result == Deduplicated(nodes)
  {
    var seen: set<string> := {};
    result := [];
    for i := 0 to |nodes|
      invariant result == Deduplicated(nodes[..i])
      invariant forall id :: id in seen <==> HasId(nodes[..i], id)
    {
      assert nodes[..i + 1] == nodes[..i] + [nodes[i]] && nodes[..i + 1][..i] == nodes[..i];
      HasIdAppend(nodes[..i], nodes[i]);
      if nodes[i].id !in seen {
        seen := seen + {nodes[i].id};
        result := result + [nodes[i]];
      }
    }
    assert nodes[..|nodes|] == nodes;
  }

  ghost predicate Stored(s: State, nodes: seq<Node>) {
    forall n :: n in nodes ==> n.id in s.nodes && n == s.nodes[n.id]
  }

  function Depth(opts: Options): nat {
    if opts.maxDepth <= 0 then DEFAULT_DEPTH else opts.maxDepth
  }

  /** A search whose maximal depth is not set has three levels. */
  lemma DepthExactly(opts: Options)
    ensures Depth(opts) == if opts.maxDepth <= 0 then 3 else opts.maxDepth
  {
  }

  // ----- Edges in results -----

  /** A neighbour query of q, without a limit, returns the stored edge e. */
  predicate LedFrom(s: State, opts: Options, q: string, e: Edge) {
    Leads(s, opts, q, e.id) && e == s.edges[e.id]
  }

  /** The edges have grown by edges that queries of the sources return; when nothing is cut, by all of them. */
  ghost predicate EdgesGrown(s: State, opts: Options, all: bool, sources: seq<string>, edges0: seq<Edge>,
                             edges: seq<Edge>) {
    && (forall e :: e in edges0 ==> e in edges)
    && (forall e :: e in edges ==> e in edges0 || exists q :: q in sources && LedFrom(s, opts, q, e))
    && (all ==> forall q, e :: q in sources && LedFrom(s, opts, q, e) ==> e in edges)
  }

  lemma EdgesGrowByNode(s: State, opts: Options, all: bool, sources: seq<string>, nodeId: string, edges0: seq<Edge>,
                        edges1: seq<Edge>, edges: seq<Edge>)
    requires EdgesGrown(s, opts, all, sources, edges0, edges1) && EdgesGrown(s, opts, all, [nodeId], edges1, edges)
    ensures EdgesGrown(s, opts, all, sources + [nodeId], edges0, edges)
  {
    assert forall q :: q in sources + [nodeId] <==> q in sources || q in [nodeId];
  }

  /** Nothing is cut without a limit, and in a truthful store an edge that a query of a node returns ends there. */
  ghost predicate TakesAll(s: State, opts: Options) {
    opts.limit <= 0 && Coherent(s)
  }

  lemma LedEdgeEnds(s: State, opts: Options, q: string, e: Edge)
    requires Indexed(s) && Coherent(s) && LedFrom(s, opts, q, e)
    ensures e.from == q || e.to == q
  {
    if e.id in Listed(s, opts, q, true) {
      var k :| k in s.fromIndex && k.node == q && s.fromIndex[k] == e.id;
    } else {
      var k :| k in s.toIndex && k.node == q && s.toIndex[k] == e.id;
    }
  }

  // ----- Breadth-first search -----

  /** nodes come in the order of their distance from start. */
  ghost predicate NearestFirst(links: Graph, start: string, nodes: seq<Node>) {
    forall i, j, d: nat :: 0 <= i < j < |nodes| && Within(links, start, d, nodes[j].id) ==>
      Within(links, start, d, nodes[i].id)
  }

  ghost predicate Touched(links: Graph, sources: seq<string>, x: string) {
    exists q :: q in sources && (q, x) in links
  }

  /** The level behind `before` has been followed from all nodes of sources: visited, next and nodes have grown
      accordingly. Without a limit nothing is missed. */
  ghost predicate LevelGrown(links: Graph, exact: bool, sources: seq<string>, before: set<string>, visited: set<string>,
                             next: seq<string>) {
    && before <= visited
    && (forall x :: x in visited ==> x in before || Touched(links, sources, x))
    && (exact ==> forall x :: Touched(links, sources, x) ==> x in visited)
    && (forall x :: x in next <==> x in visited && x !in before)
  }

  /** nodes are the visited ones except the start. */
  ghost predicate Reported(s: State, start: string, visited: set<string>, nodes: seq<Node>) {
    && Stored(s, nodes) && DistinctIds(nodes)
    && (forall x :: HasId(nodes, x) <==> x in visited && x != start)
  }

  lemma ReportOne(s: State, start: string, visited: set<string>, nodes: seq<Node>, n: Node)
    requires Reported(s, start, visited, nodes) && start in visited
    requires n.id !in visited && n.id in s.nodes && n == s.nodes[n.id]
    ensures Reported(s, start, visited + {n.id}, nodes + [n])
  {
    HasIdAppend(nodes, n);
    forall i | 0 <= i < |nodes|
      ensures nodes[i].id != n.id
    {
      assert HasId(nodes, nodes[i].id);
    }
  }

  /** Reported nodes are within the next depth, and those just appended are not within the depth before it. */
  ghost predicate Ordered(links: Graph, start: string, depth: nat, nodes: seq<Node>) {
    NearestFirst(links, start, nodes) && forall i :: 0 <= i < |nodes| ==> Within(links, start, depth, nodes[i].id)
  }

  lemma AppendFarther(links: Graph, start: string, depth: nat, nodes: seq<Node>, n: Node)
    requires Ordered(links, start, depth + 1, nodes)
    requires Within(links, start, depth + 1, n.id) && !Within(links, start, depth, n.id)
    ensures Ordered(links, start, depth + 1, nodes + [n])
  {
    var longer := nodes + [n];
    forall i, j, d: nat | 0 <= i < j < |longer| && Within(links, start, d, longer[j].id)
      ensures Within(links, start, d, longer[i].id)
    {
      if j == |nodes| {
        if d <= depth {
          WithinMonotone(links, start, d, depth, n.id);
        }
        WithinMonotone(links, start, depth + 1, d, longer[i].id);
      }
    }
  }

  /** What one neighbour query adds to a level. */
  ghost predicate NodeGrown(links: Graph, exact: bool, nodeId: string, seen0: set<string>, next0: seq<string>,
                            seen: set<string>, next: seq<string>) {
    && seen0 <= seen
    && (forall x :: x in seen ==> x in seen0 || (nodeId, x) in links)
    && (exact ==> forall x :: (nodeId, x) in links ==> x in seen)
    && (forall x :: x in next <==> x in next0 || (x in seen && x !in seen0))
  }

  lemma LevelGrowsByNode(links: Graph, exact: bool, sources: seq<string>, nodeId: string, before: set<string>,
                         seen0: set<string>, next0: seq<string>, seen: set<string>, next: seq<string>)
    requires LevelGrown(links, exact, sources, before, seen0, next0)
    requires NodeGrown(links, exact, nodeId, seen0, next0, seen, next)
    ensures LevelGrown(links, exact, sources + [nodeId], before, seen, next)
  {
    var longer := sources + [nodeId];
    assert nodeId in longer && forall q :: q in longer <==> q in sources || q == nodeId;
    forall x
      ensures Touched(links, longer, x) <==> Touched(links, sources, x) || (nodeId, x) in links
    {
    }
  }

  ghost predicate AllSeen(found: seq<Node>, n: nat, visited: set<string>) {
    n <= |found| && forall k :: 0 <= k < n ==> found[k].id in visited
  }

  lemma SeenOneMore(found: seq<Node>, n: nat, before: set<string>, visited: set<string>)
    requires AllSeen(found, n, before) && before <= visited && n < |found| && found[n].id in visited
    ensures AllSeen(found, n + 1, visited)
  {
  }

  /** The loop over the neighbours found: unvisited ones are visited and reported. */
  method VisitFound(ghost s: State, start: string, opts: Options, ghost depth: nat, nodeId: string, found: seq<Node>,
                    foundEdges: seq<Edge>, seen0: set<string>, next0: seq<string>, nodes0: seq<Node>, edges0: seq<Edge>)
    returns (seen: set<string>, next: seq<string>, nodes: seq<Node>, edges: seq<Edge>)
    requires FoundNodes(s, opts, nodeId, found) && Reported(s, start, seen0, nodes0) && start in seen0
    requires FoundEdges(s, opts, nodeId, foundEdges)
    requires opts.limit <= 0 ==> forall b :: Linked(s, opts, nodeId, b) ==> HasId(found, b)
    requires Within(Links(s, opts), start, depth, nodeId)
    requires opts.limit <= 0 ==>
               && Ordered(Links(s, opts), start, depth + 1, nodes0)
               && forall x :: Within(Links(s, opts), start, depth, x) ==> x in seen0
    ensures NodeGrown(Links(s, opts), opts.limit <= 0, nodeId, seen0, next0, seen, next)
    ensures Reported(s, start, seen, nodes)
    ensures opts.limit <= 0 ==> Ordered(Links(s, opts), start, depth + 1, nodes)
    ensures EdgesGrown(s, opts, false, [nodeId], edges0, edges)
  {
    ghost var links := Links(s, opts);
    seen, next, nodes, edges := seen0, next0, nodes0, edges0;
    for k := 0 to |found|
      invariant seen0 <= seen && forall x :: x in seen ==> x in seen0 || (nodeId, x) in links
      invariant AllSeen(found, k, seen)
      invariant forall x :: x in next <==> x in next0 || (x in seen && x !in seen0)
      invariant Reported(s, start, seen, nodes)
      invariant opts.limit <= 0 ==> Ordered(links, start, depth + 1, nodes)
      invariant EdgesGrown(s, opts, false, [nodeId], edges0, edges)
    {
      var n := found[k];
      SeenOneMore(found, k, seen, seen + {n.id});
      if n.id !in seen {
        assert (nodeId, n.id) in links;
        ReportOne(s, start, seen, nodes, n);
        if opts.limit <= 0 {
          AppendFarther(links, start, depth, nodes, n);
        }
        seen := seen + {n.id};
        next := next + [n.id];
        nodes := nodes + [n];
        if k < |foundEdges| {
          OneEdgeMore(s, opts, nodeId, edges0, edges, foundEdges[k]);
          edges := edges + [foundEdges[k]];
        }
      } else {
        assert seen + {n.id} == seen;
      }
    }
  }

  lemma OneEdgeMore(s: State, opts: Options, nodeId: string, edges0: seq<Edge>, edges: seq<Edge>, e: Edge)
    requires EdgesGrown(s, opts, false, [nodeId], edges0, edges) && LedFrom(s, opts, nodeId, e)
    ensures EdgesGrown(s, opts, false, [nodeId], edges0, edges + [e])
  {
    assert nodeId in [nodeId];
  }

  /** The edges found at an end of which a visited node lies are returned too, again. */
  method AddEdges(ghost s: State, opts: Options, nodeId: string, foundEdges: seq<Edge>, seen: set<string>,
                  edges0: seq<Edge>) returns (edges: seq<Edge>)
    requires Indexed(s) && nodeId in seen && FoundEdges(s, opts, nodeId, foundEdges)
    requires opts.limit <= 0 ==> forall id :: Leads(s, opts, nodeId, id) ==> s.edges[id] in foundEdges
    ensures EdgesGrown(s, opts, TakesAll(s, opts), [nodeId], edges0, edges)
  {
    edges := edges0;
    for i := 0 to |foundEdges|
      invariant EdgesGrown(s, opts, false, [nodeId], edges0, edges)
      invariant Coherent(s) ==> forall k :: 0 <= k < i ==> foundEdges[k] in edges
    {
      var e := foundEdges[i];
      if e.to in seen || e.from in seen {
        OneEdgeMore(s, opts, nodeId, edges0, edges, e);
        edges := edges + [e];
      } else if Coherent(s) {
        LedEdgeEnds(s, opts, nodeId, e);
      }
    }
  }

  method ExpandNode(g: GraphStore, start: string, opts: Options, ghost depth: nat, nodeId: string,
                    seen0: set<string>, next0: seq<string>, nodes0: seq<Node>, edges0: seq<Edge>)
    returns (seen: set<string>, next: seq<string>, nodes: seq<Node>, edges: seq<Edge>)
    requires Indexed(g.Now()) && Reported(g.Now(), start, seen0, nodes0) && start in seen0 && nodeId in seen0
    requires Within(Links(g.Now(), opts), start, depth, nodeId)
    requires opts.limit <= 0 ==>
               && Ordered(Links(g.Now(), opts), start, depth + 1, nodes0)
               && forall x :: Within(Links(g.Now(), opts), start, depth, x) ==> x in seen0
    ensures NodeGrown(Links(g.Now(), opts), opts.limit <= 0, nodeId, seen0, next0, seen, next)
    ensures Reported(g.Now(), start, seen, nodes)
    ensures opts.limit <= 0 ==> Ordered(Links(g.Now(), opts), start, depth + 1, nodes)
    ensures EdgesGrown(g.Now(), opts, TakesAll(g.Now(), opts), [nodeId], edges0, edges)
  {
    var found, foundEdges := g.GetNeighbors(nodeId, opts);
    var more;
    seen, next, nodes, more :=
      VisitFound(g.Now(), start, opts, depth, nodeId, found, foundEdges, seen0, next0, nodes0, edges0);
    edges := AddEdges(g.Now(), opts, nodeId, foundEdges, seen, more);
  }

  /** The state between two levels: visited is what lies within depth, queue what lies exactly at depth. With a limit,
      only the inclusions hold. */
  ghost predicate AtDepth(links: Graph, exact: bool, start: string, depth: nat, visited: set<string>,
                          queue: seq<string>) {
    && start in visited
    && (forall x :: x in visited ==> Within(links, start, depth, x))
    && (forall x :: x in queue ==> Within(links, start, depth, x) && x in visited)
    && (exact ==> forall x :: Within(links, start, depth, x) ==> x in visited)
    && (exact ==> forall x :: x in queue <==>
         Within(links, start, depth, x) && (depth > 0 ==> !Within(links, start, depth - 1, x)))
  }

  method ExpandLevel(g: GraphStore, start: string, opts: Options, ghost depth: nat, queue: seq<string>,
                     visited: set<string>, nodes: seq<Node>, edges0: seq<Edge>)
    returns (next: seq<string>, seen: set<string>, result: seq<Node>, edges: seq<Edge>)
    requires Indexed(g.Now()) && Reported(g.Now(), start, visited, nodes)
    requires AtDepth(Links(g.Now(), opts), opts.limit <= 0, start, depth, visited, queue)
    requires opts.limit <= 0 ==> Ordered(Links(g.Now(), opts), start, depth + 1, nodes)
    ensures LevelGrown(Links(g.Now(), opts), opts.limit <= 0, queue, visited, seen, next)
    ensures Reported(g.Now(), start, seen, result)
    ensures opts.limit <= 0 ==> Ordered(Links(g.Now(), opts), start, depth + 1, result)
    ensures EdgesGrown(g.Now(), opts, TakesAll(g.Now(), opts), queue, edges0, edges)
  {
    ghost var s, links := g.Now(), Links(g.Now(), opts);
    next, seen, result, edges := [], visited, nodes, edges0;
    for i := 0 to |queue|
      invariant LevelGrown(links, opts.limit <= 0, queue[..i], visited, seen, next)
      invariant Reported(s, start, seen, result)
      invariant opts.limit <= 0 ==> Ordered(links, start, depth + 1, result)
      invariant EdgesGrown(s, opts, TakesAll(s, opts), queue[..i], edges0, edges)
    {
      ghost var seen0, next0, edges1 := seen, next, edges;
      assert queue[i] in queue;
      seen, next, result, edges := ExpandNode(g, start, opts, depth, queue[i], seen, next, result, edges);
      EdgesGrowByNode(s, opts, TakesAll(s, opts), queue[..i], queue[i], edges0, edges1, edges);
      LevelGrowsByNode(links, opts.limit <= 0, queue[..i], queue[i], visited, seen0, next0, seen, next);
      assert queue[..i + 1] == queue[..i] + [queue[i]];
    }
    assert queue[..|queue|] == queue;
  }

  lemma NextDepth(links: Graph, exact: bool, start: string, depth: nat, queue: seq<string>, before: set<string>,
                  visited: set<string>, next: seq<string>)
    requires AtDepth(links, exact, start, depth, before, queue)
             && LevelGrown(links, exact, queue, before, visited, next)
    ensures AtDepth(links, exact, start, depth + 1, visited, next)
  {
    forall x
      ensures x in visited ==> Within(links, start, depth + 1, x)
      ensures exact && Within(links, start, depth + 1, x) ==> x in visited
    {
      if exact && Within(links, start, depth + 1, x) && !Within(links, start, depth, x) {
        var c :| Within(links, start, depth, c) && (c, x) in links;
        assert c in queue;
      }
      if x in visited && x !in before {
        var q :| q in queue && (q, x) in links;
      }
    }
  }

  lemma SearchEnds(links: Graph, exact: bool, start: string, depth: nat, maxDepth: nat, visited: set<string>,
                   queue: seq<string>)
    requires AtDepth(links, exact, start, depth, visited, queue) && depth <= maxDepth
             && (queue == [] || depth == maxDepth)
    ensures forall x :: x in visited ==> Within(links, start, maxDepth, x)
    ensures exact ==> forall x :: Within(links, start, maxDepth, x) ==> x in visited
  {
    forall x | x in visited
      ensures Within(links, start, maxDepth, x)
    {
      WithinMonotone(links, start, depth, maxDepth, x);
    }
    if exact && depth < maxDepth {
      forall x | Within(links, start, maxDepth, x)
        ensures x in visited
      {
        assert Within(links, start, 0, start);
        if depth > 0 {
          Saturated(links, start, depth - 1, maxDepth, x);
        }
      }
    }
  }

  /** edges are some that queries of nodes at less than depth return; when nothing is cut, all of them. */
  ghost predicate EdgesAtDepth(s: State, opts: Options, start: string, depth: nat, edges: seq<Edge>) {
    && (forall e :: e in edges ==> LedWithin(s, opts, start, depth, e))
    && (TakesAll(s, opts) ==> forall e :: LedWithin(s, opts, start, depth, e) ==> e in edges)
  }

  ghost predicate LedWithin(s: State, opts: Options, start: string, depth: nat, e: Edge) {
    depth > 0 && exists q :: Within(Links(s, opts), start, depth - 1, q) && LedFrom(s, opts, q, e)
  }

  lemma NextEdges(s: State, opts: Options, start: string, depth: nat, visited: set<string>, queue: seq<string>,
                  edges0: seq<Edge>, edges: seq<Edge>)
    requires AtDepth(Links(s, opts), opts.limit <= 0, start, depth, visited, queue)
    requires EdgesAtDepth(s, opts, start, depth, edges0)
    requires EdgesGrown(s, opts, TakesAll(s, opts), queue, edges0, edges)
    ensures EdgesAtDepth(s, opts, start, depth + 1, edges)
  {
    var links := Links(s, opts);
    forall e | e in edges
      ensures LedWithin(s, opts, start, depth + 1, e)
    {
      if e in edges0 {
        LedFarther(s, opts, start, depth, depth + 1, e);
      }
    }
    forall e | TakesAll(s, opts) && LedWithin(s, opts, start, depth + 1, e)
      ensures e in edges
    {
      var q :| Within(links, start, depth, q) && LedFrom(s, opts, q, e);
      assert q in queue || (depth > 0 && Within(links, start, depth - 1, q));
    }
  }

  lemma LedFarther(s: State, opts: Options, start: string, depth: nat, maxDepth: nat, e: Edge)
    requires LedWithin(s, opts, start, depth, e) && depth <= maxDepth
    ensures LedWithin(s, opts, start, maxDepth, e)
  {
    var q :| Within(Links(s, opts), start, depth - 1, q) && LedFrom(s, opts, q, e);
    WithinMonotone(Links(s, opts), start, depth - 1, maxDepth - 1, q);
  }

  lemma EdgesEnd(s: State, opts: Options, start: string, depth: nat, maxDepth: nat, visited: set<string>,
                 queue: seq<string>, edges: seq<Edge>)
    requires AtDepth(Links(s, opts), opts.limit <= 0, start, depth, visited, queue) && depth <= maxDepth
    requires EdgesAtDepth(s, opts, start, depth, edges) && (queue == [] || depth == maxDepth)
    ensures EdgesAtDepth(s, opts, start, maxDepth, edges)
  {
    var links := Links(s, opts);
    forall e | e in edges
      ensures LedWithin(s, opts, start, maxDepth, e)
    {
      LedFarther(s, opts, start, depth, maxDepth, e);
    }
    forall e | TakesAll(s, opts) && LedWithin(s, opts, start, maxDepth, e)
      ensures e in edges
    {
      var q :| Within(links, start, maxDepth - 1, q) && LedFrom(s, opts, q, e);
      if depth < maxDepth {
        assert Within(links, start, 0, start);
        if depth > 0 {
          Saturated(links, start, depth - 1, maxDepth - 1, q);
        }
      }
    }
  }

  lemma SearchStarts(s: State, opts: Options, start: string)
    ensures AtDepth(Links(s, opts), opts.limit <= 0, start, 0, {start}, [start])
    ensures Reported(s, start, {start}, []) && Ordered(Links(s, opts), start, 1, [])
    ensures EdgesAtDepth(s, opts, start, 0, [])
  {
  }

  lemma OrderedFarther(links: Graph, start: string, depth: nat, nodes: seq<Node>)
    ensures Ordered(links, start, depth, nodes) ==> Ordered(links, start, depth + 1, nodes)
  {
    if Ordered(links, start, depth, nodes) {
      forall i | 0 <= i < |nodes|
        ensures Within(links, start, depth + 1, nodes[i].id)
      {
        WithinMonotone(links, start, depth, depth + 1, nodes[i].id);
      }
    }
  }

  lemma SearchReports(s: State, links: Graph, exact: bool, start: string, depth: nat, maxDepth: nat,
                      visited: set<string>, nodes: seq<Node>)
    requires exact ==> Ordered(links, start, depth, nodes)
    requires Reported(s, start, visited, nodes) && forall x :: x in visited ==> Within(links, start, maxDepth, x)
    requires exact ==> forall x :: Within(links, start, maxDepth, x) ==> x in visited
    ensures Stored(s, nodes) && DistinctIds(nodes)
    ensures forall x :: HasId(nodes, x) ==> x != start && Within(links, start, maxDepth, x)
    ensures exact ==> forall x :: x != start && Within(links, start, maxDepth, x) ==> HasId(nodes, x)
    ensures exact ==> NearestFirst(links, start, nodes)
  {
  }

  /** Main result: without a limit, BFS returns exactly the nodes at distance 1 to the maximal depth, each once, nearest
      first. With a limit it still returns stored nodes within that depth only. The edges are stored ones that queries
      of nodes within the depth before the last return; without a limit, in a truthful store, all of them. */
  method BFS(g: GraphStore, start: string, opts: Options) returns (result: seq<Node>, edges: seq<Edge>)
    requires Indexed(g.Now())
    ensures Stored(g.Now(), result) && DistinctIds(result)
    ensures forall x :: HasId(result, x) ==> x != start && Within(Links(g.Now(), opts), start, Depth(opts), x)
    ensures opts.limit <= 0 ==>
              (forall x :: x != start && Within(Links(g.Now(), opts), start, Depth(opts), x) ==> HasId(result, x))
              && NearestFirst(Links(g.Now(), opts), start, result)
    ensures opts.limit <= 0 && opts.maxDepth <= 0 ==>
              forall x :: HasId(result, x) <==> x != start && Within(Links(g.Now(), opts), start, 3, x)
    ensures EdgesAtDepth(g.Now(), opts, start, Depth(opts), edges)
  {
    hide AtDepth, Reported, Ordered, NearestFirst, Within, LevelGrown, EdgesAtDepth, EdgesGrown, Deduplicated;
    ghost var s, links := g.Now(), Links(g.Now(), opts);
    var maxDepth := opts.maxDepth;
    if maxDepth <= 0 {
      maxDepth := DEFAULT_DEPTH;
    }
    var visited := {start};
    var nodes: seq<Node> := [];
    edges := [];
    SearchStarts(s, opts, start);
    var queue := [start];
    var depth := 0;
    while |queue| > 0 && depth < maxDepth
      invariant depth <= maxDepth
      invariant AtDepth(links, opts.limit <= 0, start, depth, visited, queue)
      invariant Reported(s, start, visited, nodes)
      invariant opts.limit <= 0 ==> Ordered(links, start, depth + 1, nodes)
      invariant EdgesAtDepth(s, opts, start, depth, edges)
      decreases maxDepth - depth
    {
      ghost var edges0 := edges;
      var next, seen, more;
      next, seen, more, edges := ExpandLevel(g, start, opts, depth, queue, visited, nodes, edges);
      NextEdges(s, opts, start, depth, visited, queue, edges0, edges);
      NextDepth(links, opts.limit <= 0, start, depth, queue, visited, seen, next);
      OrderedFarther(links, start, depth + 1, more);
      queue, visited, nodes := next, seen, more;
      depth := depth + 1;
    }
    EdgesEnd(s, opts, start, depth, maxDepth, visited, queue, edges);
    SearchEnds(links, opts.limit <= 0, start, depth, maxDepth, visited, queue);
    DepthExactly(opts);
    SearchReports(s, links, opts.limit <= 0, start, depth + 1, maxDepth, visited, nodes);
    DeduplicatedIds(nodes);
    result := DeduplicateNodes(nodes);
  }
}

/**
 pkg/graph/traversal.go: depth-first search. The recursive closure shares a visited set and a result list; here they
 are passed in and handed back.

 The order in which a neighbour query lists the neighbours decides what a search with a depth bound reports. What some
 order makes the search do is written down as a relation; the methods keep to it, and the theorems are about it.
 */
module DepthFirst {
  import opened Scans
  import opened PropertyGraph
  import opened Reachability
  import opened Traversal

  // ----- The search for some order of the neighbours -----

  /** order lists neighbours of a node, and without a limit all of them. */
  ghost predicate InSomeOrder(links: Graph, exact: bool, nodeId: string, order: seq<string>) {
    && Distinct(order)
    && (forall i :: 0 <= i < |order| ==> (nodeId, order[i]) in links)
    && (exact ==> forall w :: (nodeId, w) in links ==> w in order)
  }

  /** A visit of nodeId can extend the visited nodes and the reported IDs from v0, r0 to v, r. */
  ghost predicate Visits(links: Graph, exact: bool, nodeId: string, depth: nat, maxDepth: nat,
                         v0: set<string>, r0: set<string>, v: set<string>, r: set<string>)
    requires depth <= maxDepth
    decreases maxDepth - depth, 0, 0
  {
    if nodeId in v0 || depth == maxDepth then v == v0 && r == r0
    else exists order :: InSomeOrder(links, exact, nodeId, order)
                         && VisitsAll(links, exact, order, depth + 1, maxDepth, v0 + {nodeId}, r0, v, r)
  }

  /** Reporting and visiting the unvisited ones of ids, one after the other, can do so. */
  ghost predicate VisitsAll(links: Graph, exact: bool, ids: seq<string>, depth: nat, maxDepth: nat,
                            v0: set<string>, r0: set<string>, v: set<string>, r: set<string>)
    requires depth <= maxDepth
    decreases maxDepth - depth, |ids|, 0
  {
    if ids == [] then v == v0 && r == r0
    else
      var front, last := ids[..|ids| - 1], ids[|ids| - 1];
      exists v1, r1 :: VisitsAll(links, exact, front, depth, maxDepth, v0, r0, v1, r1)
                       && VisitsOne(links, exact, last, depth, maxDepth, v1, r1, v, r)
  }

  /** The body of the loop over the neighbours: an unvisited one is reported and visited. */
  ghost predicate VisitsOne(links: Graph, exact: bool, id: string, depth: nat, maxDepth: nat,
                            v0: set<string>, r0: set<string>, v: set<string>, r: set<string>)
    requires depth <= maxDepth
    decreases maxDepth - depth, 0, 1
  {
    if id in v0 then v == v0 && r == r0
    else Visits(links, exact, id, depth, maxDepth, v0, r0 + {id}, v, r)
  }

  /** A depth-first search can report these IDs. */
  ghost predicate Searches(s: State, opts: Options, start: string, reported: set<string>) {
    var links, exact, none, start0 := Links(s, opts), opts.limit <= 0, {}, {start} * s.nodes.Keys;
    exists visited :: Visits(links, exact, start, 0, Depth(opts), none, start0, visited, reported)
  }

  lemma OneMoreVisited(links: Graph, exact: bool, order: seq<string>, i: nat, depth: nat, maxDepth: nat,
                       v0: set<string>, r0: set<string>, v: set<string>, r: set<string>, v1: set<string>,
                       r1: set<string>)
    requires depth <= maxDepth && i < |order| && VisitsAll(links, exact, order[..i], depth, maxDepth, v0, r0, v, r)
    requires VisitsOne(links, exact, order[i], depth, maxDepth, v, r, v1, r1)
    ensures VisitsAll(links, exact, order[..i + 1], depth, maxDepth, v0, r0, v1, r1)
  {
    var ids := order[..i + 1];
    assert ids[..|ids| - 1] == order[..i] && ids[|ids| - 1] == order[i];
    assert VisitsAll(links, exact, ids[..|ids| - 1], depth, maxDepth, v0, r0, v, r);
  }

  lemma NoneVisited(links: Graph, exact: bool, order: seq<string>, depth: nat, maxDepth: nat, v: set<string>,
                    r: set<string>)
    requires depth <= maxDepth
    ensures VisitsAll(links, exact, order[..0], depth, maxDepth, v, r, v, r)
  {
  }

  // ----- Nothing beyond the depth bound -----

  ghost predicate AllWithin(links: Graph, start: string, maxDepth: nat, ids: set<string>) {
    forall x :: x in ids ==> Within(links, start, maxDepth, x)
  }

  lemma {:induction false} VisitReportsWithin(links: Graph, exact: bool, start: string, nodeId: string, depth: nat,
                                              maxDepth: nat, v0: set<string>, r0: set<string>, v: set<string>,
                                              r: set<string>)
    requires depth <= maxDepth && Within(links, start, depth, nodeId) && AllWithin(links, start, maxDepth, r0)
    requires Visits(links, exact, nodeId, depth, maxDepth, v0, r0, v, r)
    ensures AllWithin(links, start, maxDepth, r)
    decreases maxDepth - depth, 0
  {
    if nodeId !in v0 && depth < maxDepth {
      var order :| InSomeOrder(links, exact, nodeId, order)
                   && VisitsAll(links, exact, order, depth + 1, maxDepth, v0 + {nodeId}, r0, v, r);
      VisitsReportWithin(links, exact, start, nodeId, order, depth + 1, maxDepth, v0 + {nodeId}, r0, v, r);
    }
  }

  lemma {:induction false} VisitsReportWithin(links: Graph, exact: bool, start: string, self: string, ids: seq<string>,
                                              depth: nat, maxDepth: nat,
                                              v0: set<string>, r0: set<string>, v: set<string>, r: set<string>)
    requires 0 < depth <= maxDepth && Within(links, start, depth - 1, self) && AllWithin(links, start, maxDepth, r0)
    requires forall i :: 0 <= i < |ids| ==> (self, ids[i]) in links
    requires VisitsAll(links, exact, ids, depth, maxDepth, v0, r0, v, r)
    ensures AllWithin(links, start, maxDepth, r)
    decreases maxDepth - depth, |ids|
  {
    if ids != [] {
      var front, last := ids[..|ids| - 1], ids[|ids| - 1];
      var v1, r1 :| VisitsAll(links, exact, front, depth, maxDepth, v0, r0, v1, r1)
                    && VisitsOne(links, exact, last, depth, maxDepth, v1, r1, v, r);
      VisitsReportWithin(links, exact, start, self, front, depth, maxDepth, v0, r0, v1, r1);
      if last !in v1 {
        WithinMonotone(links, start, depth, maxDepth, last);
        VisitReportsWithin(links, exact, start, last, depth, maxDepth, v1, r1 + {last}, v, r);
      }
    }
  }

  /** Main result: whatever the order and the limit, a search reports nodes within the maximal depth. */
  lemma SearchIsSound(s: State, opts: Options, start: string, reported: set<string>)
    requires Searches(s, opts, start, reported)
    ensures AllWithin(Links(s, opts), start, Depth(opts), reported)
  {
    var links, exact, none, start0 := Links(s, opts), opts.limit <= 0, {}, {start} * s.nodes.Keys;
    var visited :| Visits(links, exact, start, 0, Depth(opts), none, start0, visited, reported);
    WithinMonotone(links, start, 0, Depth(opts), start);
    VisitReportsWithin(links, exact, start, start, 0, Depth(opts), none, start0, visited, reported);
  }

  // ----- What has been reported when a visit ends -----

  ghost predicate SimplePath(links: Graph, start: string, p: seq<string>) {
    IsPath(links, p) && p[0] == start && Distinct(p)
  }

  /** The depth bound cannot cut the search: no path from the start that meets no node twice has more links. */
  ghost predicate Roomy(links: Graph, start: string, maxDepth: nat) {
    forall p :: SimplePath(links, start, p) ==> |p| <= maxDepth + 1
  }

  lemma DistinctIn(p: seq<string>, all: set<string>)
    requires Distinct(p) && forall i :: 0 <= i < |p| ==> p[i] in all
    ensures |p| <= |all|
  {
    var ids := set i | 0 <= i < |p| :: p[i];
    ListingLength(p, ids);
    SubsetSize(ids, all);
  }

  lemma LinkIsStored(s: State, opts: Options, a: string, b: string)
    requires (a, b) in Links(s, opts)
    ensures b in s.nodes
  {
  }

  /** As many levels as there are stored nodes besides the start are always enough. */
  lemma ManyLevelsAreRoomy(s: State, opts: Options, start: string, maxDepth: nat)
    requires maxDepth >= |s.nodes.Keys - {start}|
    ensures Roomy(Links(s, opts), start, maxDepth)
  {
    hide Linked;
    var links, others := Links(s, opts), s.nodes.Keys - {start};
    forall p | SimplePath(links, start, p)
      ensures |p| <= maxDepth + 1
    {
      forall i | 0 < i < |p|
        ensures p[i] in others
      {
        assert (p[i - 1], p[i]) in links;
        LinkIsStored(s, opts, p[i - 1], p[i]);
      }
      DistinctIn(p[1..], others);
    }
  }

  /** The nodes on the call stack are visited and distinct, and the path along them leads on to nodeId. */
  ghost predicate OnStack(links: Graph, start: string, stack: seq<string>, visited: set<string>, nodeId: string) {
    && IsPath(links, stack + [nodeId]) && (stack + [nodeId])[0] == start
    && Distinct(stack) && forall i :: 0 <= i < |stack| ==> stack[i] in visited
  }

  lemma PushOnStack(links: Graph, start: string, stack: seq<string>, visited0: set<string>, nodeId: string,
                    visited: set<string>, next: string)
    requires OnStack(links, start, stack, visited0, nodeId) && nodeId !in visited0
    requires visited0 + {nodeId} <= visited && (nodeId, next) in links
    ensures OnStack(links, start, stack + [nodeId], visited, next)
  {
    var p := stack + [nodeId] + [next];
    forall i | 0 <= i < |p| - 1
      ensures (p[i], p[i + 1]) in links
    {
      if i < |stack| {
        assert (stack + [nodeId])[i] == p[i] && (stack + [nodeId])[i + 1] == p[i + 1];
      }
    }
    assert p[0] == (stack + [nodeId])[0];
  }

  /** All links of x lead to nodes that have been visited or reported. */
  ghost predicate Followed(links: Graph, x: string, v: set<string>, r: set<string>) {
    forall w :: (x, w) in links ==> w in v || w in r
  }

  lemma RoomForOneMore(links: Graph, start: string, stack: seq<string>, visited: set<string>, nodeId: string,
                       maxDepth: nat)
    requires OnStack(links, start, stack, visited, nodeId) && nodeId !in visited && Roomy(links, start, maxDepth)
    ensures |stack| <= maxDepth
  {
    assert SimplePath(links, start, stack + [nodeId]);
  }

  /** A node at the bound ends a path as long as any: its links lead back to the stack or to itself. */
  lemma CutIsFollowed(links: Graph, start: string, stack: seq<string>, nodeId: string, visited: set<string>,
                      reported: set<string>)
    requires OnStack(links, start, stack, visited, nodeId) && nodeId !in visited && nodeId in reported
    requires Roomy(links, start, |stack|)
    ensures Followed(links, nodeId, visited, reported)
  {
    forall w | (nodeId, w) in links
      ensures w in visited || w in reported
    {
      if w !in visited && w != nodeId {
        PushOnStack(links, start, stack, visited, nodeId, visited + {nodeId}, w);
        RoomForOneMore(links, start, stack + [nodeId], visited + {nodeId}, w, |stack|);
      }
    }
  }

  /** The sets only grow, and nodes visited since v0, other than self, have been reported. */
  ghost predicate ReportedSince(v0: set<string>, r0: set<string>, v: set<string>, r: set<string>, self: string) {
    v0 <= v && r0 <= r && v - v0 - {self} <= r
  }

  /** The links of nodes visited since v0, other than self, have been followed, and in a roomy search also those of
      nodes that have only been reported. */
  ghost predicate FollowedSince(links: Graph, roomy: bool, v0: set<string>, r0: set<string>, v: set<string>,
                                r: set<string>, self: string) {
    forall x :: x != self && ((x in v && x !in v0) || (roomy && x in r && x !in r0)) ==> Followed(links, x, v, r)
  }

  /** What a visit of nodeId does. */
  ghost predicate Explored(links: Graph, roomy: bool, cut: bool, nodeId: string, v0: set<string>, r0: set<string>,
                           v: set<string>, r: set<string>) {
    && (!cut ==> nodeId in v) && ReportedSince(v0, r0, v, r, nodeId)
    && FollowedSince(links, roomy, v0, r0, v, r, nodeId)
    && (nodeId !in v0 && (!cut || roomy) ==> Followed(links, nodeId, v, r))
  }

  /** The same for the visits of ids, neighbours of self, since the visit of self began. */
  ghost predicate ExploredAll(links: Graph, roomy: bool, cut: bool, self: string, ids: seq<string>, v0: set<string>,
                              r0: set<string>, v: set<string>, r: set<string>) {
    && self in v && (forall i :: 0 <= i < |ids| ==> ids[i] in v || (cut && ids[i] in r))
    && ReportedSince(v0, r0, v, r, self) && FollowedSince(links, roomy, v0, r0, v, r, self)
  }

  lemma ExploredOneMore(links: Graph, roomy: bool, cut: bool, self: string, ids: seq<string>, n: string,
                        v0: set<string>, r0: set<string>, v: set<string>, r: set<string>, v1: set<string>,
                        r1: set<string>)
    requires ExploredAll(links, roomy, cut, self, ids, v0, r0, v, r) && n !in v
    requires Explored(links, roomy, cut, n, v, r + {n}, v1, r1)
    requires cut ==> v1 == v
    ensures ExploredAll(links, roomy, cut, self, ids + [n], v0, r0, v1, r1)
  {
    forall x | x != self && ((x in v1 && x !in v0) || (roomy && x in r1 && x !in r0))
      ensures Followed(links, x, v1, r1)
    {
      if x != n && ((x in v && x !in v0) || (roomy && x in r && x !in r0)) {
        assert Followed(links, x, v, r);
      }
    }
  }

  lemma {:induction false} VisitExplores(links: Graph, start: string, stack: seq<string>, nodeId: string, maxDepth: nat,
                                         v0: set<string>, r0: set<string>, v: set<string>, r: set<string>)
    requires |stack| <= maxDepth && OnStack(links, start, stack, v0, nodeId)
    requires |stack| == maxDepth ==> nodeId in r0
    requires Visits(links, true, nodeId, |stack|, maxDepth, v0, r0, v, r)
    ensures Explored(links, Roomy(links, start, maxDepth), |stack| == maxDepth, nodeId, v0, r0, v, r)
    decreases maxDepth - |stack|, 0
  {
    if nodeId !in v0 {
      if |stack| == maxDepth {
        if Roomy(links, start, maxDepth) {
          CutIsFollowed(links, start, stack, nodeId, v0, r0);
        }
      } else {
        var order :| InSomeOrder(links, true, nodeId, order)
                     && VisitsAll(links, true, order, |stack| + 1, maxDepth, v0 + {nodeId}, r0, v, r);
        VisitsExplore(links, start, stack, nodeId, order, maxDepth, v0, r0, v, r);
      }
    }
  }

  lemma {:induction false} VisitsExplore(links: Graph, start: string, stack: seq<string>, self: string,
                                         ids: seq<string>, maxDepth: nat,
                                         v0: set<string>, r0: set<string>, v: set<string>, r: set<string>)
    requires |stack| < maxDepth && OnStack(links, start, stack, v0, self)
    requires self !in v0 && forall i :: 0 <= i < |ids| ==> (self, ids[i]) in links
    requires VisitsAll(links, true, ids, |stack| + 1, maxDepth, v0 + {self}, r0, v, r)
    ensures ExploredAll(links, Roomy(links, start, maxDepth), |stack| + 1 == maxDepth, self, ids, v0, r0, v, r)
    decreases maxDepth - |stack| - 1, |ids|
  {
    if ids != [] {
      var roomy, cut := Roomy(links, start, maxDepth), |stack| + 1 == maxDepth;
      var front, last := ids[..|ids| - 1], ids[|ids| - 1];
      var v1, r1 :| VisitsAll(links, true, front, |stack| + 1, maxDepth, v0 + {self}, r0, v1, r1)
                    && VisitsOne(links, true, last, |stack| + 1, maxDepth, v1, r1, v, r);
      VisitsExplore(links, start, stack, self, front, maxDepth, v0, r0, v1, r1);
      assert ids == front + [last];
      if last !in v1 {
        PushOnStack(links, start, stack, v0, self, v1, last);
        VisitExplores(links, start, stack + [self], last, maxDepth, v1, r1 + {last}, v, r);
        ExploredOneMore(links, roomy, cut, self, front, last, v0, r0, v1, r1, v, r);
      }
    }
  }

  /** Main result: whatever the order, a search without a limit that the depth bound cannot cut reports all the
      stored nodes that can be reached from the start, the start included. */
  lemma RoomySearchIsComplete(s: State, opts: Options, start: string, reported: set<string>)
    requires Searches(s, opts, start, reported) && opts.limit <= 0 && Roomy(Links(s, opts), start, Depth(opts))
    ensures forall x :: x in s.nodes && Reachable(Links(s, opts), start, x) ==> x in reported
  {
    var links, start0 := Links(s, opts), {start} * s.nodes.Keys;
    var visited :| Visits(links, true, start, 0, Depth(opts), {}, start0, visited, reported);
    VisitExplores(links, start, [], start, Depth(opts), {}, start0, visited, reported);
    var closed := visited + reported;
    forall x, y | x in closed && (x, y) in links
      ensures y in closed
    {
      assert Followed(links, x, visited, reported);
    }
    forall x | x in s.nodes && Reachable(links, start, x)
      ensures x in reported
    {
      var d :| Within(links, start, d, x);
      ClosedContainsWithin(links, start, d, x, closed);
    }
  }

  /** A search reports every stored node within its depth bound. */
  ghost predicate Complete(s: State, opts: Options, start: string, reported: set<string>) {
    forall x :: x in s.nodes && Within(Links(s, opts), start, Depth(opts), x) ==> x in reported
  }

  lemma WithinOne(links: Graph, a: string, b: string)
    ensures Within(links, a, 1, b) <==> a == b || (a, b) in links
  {
    assert Within(links, a, 0, a);
  }

  /** With two levels the links of every neighbour of the start have been followed, and with one nothing is asked of
      the neighbours. */
  lemma NearIsReported(links: Graph, start: string, order: seq<string>, maxDepth: nat, v: set<string>, r: set<string>,
                       r0: set<string>, x: string)
    requires 0 < maxDepth <= 2 && InSomeOrder(links, true, start, order)
    requires ExploredAll(links, false, maxDepth == 1, start, order, {}, r0, v, r)
    requires Within(links, start, maxDepth, x)
    ensures x == start || x in r
  {
    WithinOne(links, start, x);
    if x != start && (start, x) !in links {
      var c :| Within(links, start, 1, c) && (c, x) in links;
      WithinOne(links, start, c);
      assert Followed(links, c, v, r);
    }
  }

  /** Main result: whatever the order, a search without a limit and with at most two levels reports every stored node
      within its depth bound. */
  lemma ShallowSearchIsComplete(s: State, opts: Options, start: string, reported: set<string>)
    requires Searches(s, opts, start, reported) && opts.limit <= 0 && Depth(opts) <= 2
    ensures Complete(s, opts, start, reported)
  {
    var links, start0 := Links(s, opts), {start} * s.nodes.Keys;
    var visited :| Visits(links, true, start, 0, Depth(opts), {}, start0, visited, reported);
    var order :| InSomeOrder(links, true, start, order)
                 && VisitsAll(links, true, order, 1, Depth(opts), {} + {start}, start0, visited, reported);
    VisitsExplore(links, start, [], start, order, Depth(opts), {}, start0, visited, reported);
    forall x | x in s.nodes && Within(links, start, Depth(opts), x)
      ensures x in reported
    {
      NearIsReported(links, start, order, Depth(opts), visited, reported, start0, x);
    }
  }

  // ----- The methods -----

  ghost function Ids(nodes: seq<Node>): (ids: set<string>)
    ensures forall id :: id in ids <==> HasId(nodes, id)
  {
    set i | 0 <= i < |nodes| :: nodes[i].id
  }

  lemma IdsAppend(nodes: seq<Node>, n: Node)
    ensures Ids(nodes + [n]) == Ids(nodes) + {n.id}
  {
    HasIdAppend(nodes, n);
  }

  ghost function IdsInOrder(nodes: seq<Node>): (ids: seq<string>)
    ensures |ids| == |nodes| && forall i :: 0 <= i < |ids| ==> ids[i] == nodes[i].id
  {
    seq(|nodes|, i requires 0 <= i < |nodes| => nodes[i].id)
  }

  lemma NeighborsInOrder(s: State, opts: Options, nodeId: string, neighbors: seq<Node>, edges: seq<Edge>)
    requires FoundNodes(s, opts, nodeId, neighbors)
    requires opts.limit <= 0 ==> FoundAll(s, opts, nodeId, neighbors, edges)
    ensures InSomeOrder(Links(s, opts), opts.limit <= 0, nodeId, IdsInOrder(neighbors))
  {
  }

  /** Every edge is a stored one that a query of the start or of a reported node returns. */
  ghost predicate LedFromReported(s: State, opts: Options, start: string, nodes: seq<Node>, edges: seq<Edge>) {
    forall e :: e in edges ==> exists q :: (q == start || HasId(nodes, q)) && LedFrom(s, opts, q, e)
  }

  lemma LedFromMore(s: State, opts: Options, start: string, nodes: seq<Node>, n: Node, q: string, edges: seq<Edge>,
                    more: seq<Edge>)
    requires LedFromReported(s, opts, start, nodes, edges) && (q == start || HasId(nodes, q))
    requires forall e :: e in more ==> LedFrom(s, opts, q, e)
    ensures LedFromReported(s, opts, start, nodes + [n], edges + more)
    ensures q == start || HasId(nodes + [n], q)
  {
    HasIdAppend(nodes, n);
  }

  method Visit(g: GraphStore, ghost start: string, nodeId: string, depth: nat, maxDepth: nat, opts: Options,
               visited0: set<string>, nodes0: seq<Node>, edges0: seq<Edge>)
    returns (visited: set<string>, nodes: seq<Node>, edges: seq<Edge>)
    requires Indexed(g.Now()) && depth <= maxDepth && Stored(g.Now(), nodes0)
    requires nodeId == start || HasId(nodes0, nodeId)
    requires LedFromReported(g.Now(), opts, start, nodes0, edges0)
    ensures Stored(g.Now(), nodes) && Ids(nodes0) <= Ids(nodes)
    ensures Visits(Links(g.Now(), opts), opts.limit <= 0, nodeId, depth, maxDepth,
                   visited0, Ids(nodes0), visited, Ids(nodes))
    ensures LedFromReported(g.Now(), opts, start, nodes, edges)
    decreases maxDepth - depth, 0
  {
    visited, nodes, edges := visited0, nodes0, edges0;
    if nodeId in visited || depth >= maxDepth {
      return;
    }
    visited := visited + {nodeId};
    var neighbors, foundEdges := g.GetNeighbors(nodeId, opts);
    NeighborsInOrder(g.Now(), opts, nodeId, neighbors, foundEdges);
    visited, nodes, edges :=
      VisitNeighbors(g, start, nodeId, neighbors, foundEdges, depth + 1, maxDepth, opts, visited, nodes, edges);
  }

  /** The loop over the neighbours of a node. */
  method VisitNeighbors(g: GraphStore, ghost start: string, ghost self: string, neighbors: seq<Node>,
                        foundEdges: seq<Edge>, depth: nat, maxDepth: nat, opts: Options,
                        visited0: set<string>, nodes0: seq<Node>, edges0: seq<Edge>)
    returns (visited: set<string>, nodes: seq<Node>, edges: seq<Edge>)
    requires Indexed(g.Now()) && depth <= maxDepth && Stored(g.Now(), neighbors) && Stored(g.Now(), nodes0)
    requires FoundEdges(g.Now(), opts, self, foundEdges) && (self == start || HasId(nodes0, self))
    requires LedFromReported(g.Now(), opts, start, nodes0, edges0)
    ensures Stored(g.Now(), nodes) && Ids(nodes0) <= Ids(nodes)
    ensures VisitsAll(Links(g.Now(), opts), opts.limit <= 0, IdsInOrder(neighbors), depth, maxDepth,
                      visited0, Ids(nodes0), visited, Ids(nodes))
    ensures LedFromReported(g.Now(), opts, start, nodes, edges)
    decreases maxDepth - depth, 1
  {
    hide Indexed, Linked, Visits, VisitsAll, LedFromReported;
    ghost var s, links, exact, order := g.Now(), Links(g.Now(), opts), opts.limit <= 0, IdsInOrder(neighbors);
    visited, nodes, edges := visited0, nodes0, edges0;
    NoneVisited(links, exact, order, depth, maxDepth, visited0, Ids(nodes0));
    for i := 0 to |neighbors|
      invariant Stored(s, nodes) && Ids(nodes0) <= Ids(nodes) && (self == start || HasId(nodes, self))
      invariant VisitsAll(links, exact, order[..i], depth, maxDepth, visited0, Ids(nodes0), visited, Ids(nodes))
      invariant LedFromReported(s, opts, start, nodes, edges)
    {
      var n := neighbors[i];
      ghost var visited1, nodes1 := visited, nodes;
      if n.id !in visited {
        var more := if i < |foundEdges| then [foundEdges[i]] else [];
        LedFromMore(s, opts, start, nodes, n, self, edges, more);
        IdsAppend(nodes, n);
        visited, nodes, edges := Visit(g, start, n.id, depth, maxDepth, opts, visited, nodes + [n], edges + more);
      }
      OneMoreVisited(links, exact, order, i, depth, maxDepth, visited0, Ids(nodes0), visited1, Ids(nodes1),
                     visited, Ids(nodes));
    }
    assert order[..|order|] == order;
  }

  /** Main result: DFS returns stored nodes, each once, and reports what some order of the neighbours makes a search
      report: nodes within the maximal depth, without a limit all of them when there are at most two levels, and all
      reachable ones when the depth bound cannot cut the search. The edges are stored ones that queries of the start or
      of these nodes return. */
  method DFS(g: GraphStore, start: string, opts: Options) returns (result: seq<Node>, edges: seq<Edge>)
    requires Indexed(g.Now())
    ensures Stored(g.Now(), result) && DistinctIds(result)
    ensures Searches(g.Now(), opts, start, Ids(result))
    ensures forall x :: HasId(result, x) ==> Within(Links(g.Now(), opts), start, Depth(opts), x)
    ensures opts.limit <= 0 && Depth(opts) <= 2 ==> Complete(g.Now(), opts, start, Ids(result))
    ensures opts.limit <= 0 && Roomy(Links(g.Now(), opts), start, Depth(opts)) ==>
              forall x :: HasId(result, x) <==> x in g.Now().nodes && Reachable(Links(g.Now(), opts), start, x)
    ensures LedFromReported(g.Now(), opts, start, result, edges)
  {
    ghost var s := g.Now();
    var maxDepth := opts.maxDepth;
    if maxDepth <= 0 {
      maxDepth := DEFAULT_DEPTH;
    }
    var nodes: seq<Node> := [];
    if start in g.nodes {
      nodes := [] + [g.nodes[start]];
      HasIdAppend([], g.nodes[start]);
    }
    assert Ids(nodes) == {start} * s.nodes.Keys;
    var visited;
    visited, nodes, edges := Visit(g, start, start, 0, maxDepth, opts, {}, nodes, []);
    DeduplicatedIds(nodes);
    result := DeduplicateNodes(nodes);
    assert Ids(result) == Ids(nodes);
    assert Visits(Links(s, opts), opts.limit <= 0, start, 0, Depth(opts), {}, {start} * s.nodes.Keys, visited,
                  Ids(result));
    SearchIsSound(s, opts, start, Ids(result));
    if opts.limit <= 0 && Depth(opts) <= 2 {
      ShallowSearchIsComplete(s, opts, start, Ids(result));
    }
    if opts.limit <= 0 && Roomy(Links(s, opts), start, Depth(opts)) {
      RoomySearchIsComplete(s, opts, start, Ids(result));
    }
  }
}

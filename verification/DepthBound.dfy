/**
 pkg/graph/traversal.go: which depth bounds a depth-first search keeps. A node that the search first meets over a long
 way is not expanded again when it meets it over a short one, so from three levels on it can miss a node within its
 bound: the store below has a chain as long as the bound allows and a shortcut into it.
 */
module DepthBound {
  import opened PropertyGraph
  import opened Reachability
  import opened Traversal
  import opened DepthFirst

  /** Outgoing neighbours of every type, without a limit. */
  function Plain(maxDepth: nat): Options {
    Options(Out, [], [], 0, maxDepth)
  }

  // ----- Runs of upserts -----

  function Arrow(id: string, from: string, to: string): Op {
    UpsertEdge(Edge(id, from, to, "", 1.0, map[]))
  }

  function Place(id: string): Op {
    UpsertNode(Node(id, "", [], map[]))
  }

  ghost predicate Upserts(ops: seq<Op>) {
    forall i :: 0 <= i < |ops| ==> Proper(ops[i]) && (ops[i].UpsertNode? || ops[i].UpsertEdge?)
  }

  /** A run of upserts stores what it upserts and nothing else. */
  lemma {:induction false} RunOfUpserts(ops: seq<Op>)
    requires Upserts(ops)
    ensures forall op :: op in ops ==>
              if op.UpsertNode? then op.node.id in Run(ops).nodes else op.edge.id in Run(ops).edges
    ensures forall id :: id in Run(ops).edges ==> Run(ops).edges[id].id == id && UpsertEdge(Run(ops).edges[id]) in ops
    decreases |ops|
  {
    if ops != [] {
      var front, last := ops[..|ops| - 1], ops[|ops| - 1];
      RunOfUpserts(front);
      assert ops == front + [last];
    }
  }

  ghost predicate HasArrow(ops: seq<Op>, x: string, y: string) {
    exists i :: 0 <= i < |ops| && ops[i].UpsertEdge? && ops[i].edge.from == x && ops[i].edge.to == y
  }

  /** After upserts that use no edge ID twice, a plain outgoing query leads along the edges to stored nodes. */
  lemma LinksOfUpserts(ops: seq<Op>, maxDepth: nat, x: string, y: string)
    requires Upserts(ops) && NoReuse(ops)
    ensures Linked(Run(ops), Plain(maxDepth), x, y) <==> y in Run(ops).nodes && HasArrow(ops, x, y)
  {
    var s, opts := Run(ops), Plain(maxDepth);
    EveryRunIndexed(ops);
    EveryRunCoherent(ops);
    RunOfUpserts(ops);
    if Linked(s, opts, x, y) {
      var id :| Leads(s, opts, x, id) && s.edges[id].to == y;
      CoherentNeighbours(s, opts, x, id);
      var i :| 0 <= i < |ops| && ops[i] == UpsertEdge(s.edges[id]);
      assert HasArrow(ops, x, y);
    }
    if y in s.nodes && HasArrow(ops, x, y) {
      var i :| 0 <= i < |ops| && ops[i].UpsertEdge? && ops[i].edge.from == x && ops[i].edge.to == y;
      var e := ops[i].edge;
      assert ops[i] in ops && e.id in s.edges;
      SameEnds(ops, e, s.edges[e.id]);
      CoherentNeighbours(s, opts, x, e.id);
    }
  }

  lemma SameEnds(ops: seq<Op>, e: Edge, f: Edge)
    requires NoReuse(ops) && UpsertEdge(e) in ops && UpsertEdge(f) in ops && e.id == f.id
    ensures e.from == f.from && e.to == f.to
  {
    var i :| 0 <= i < |ops| && ops[i] == UpsertEdge(e);
    var j :| 0 <= j < |ops| && ops[j] == UpsertEdge(f);
    assert FromKey(ops[i].edge) == FromKey(ops[j].edge) && ToKey(ops[i].edge) == ToKey(ops[j].edge);
  }

  // ----- A chain with a shortcut -----

  function Name(n: nat): (name: string)
    ensures |name| == n + 1
  {
    seq(n + 1, _ => 'n')
  }

  /** Node 0 is linked to 1 and 2, and each of 1 to d to the next one. */
  predicate Steps(d: nat, x: string, y: string) {
    0 < |x| <= d + 1 && x == Name(|x| - 1) && (y == Name(|x|) || (|x| == 1 && y == Name(2)))
  }

  /** Places for the nodes 0 to d + 1, arrows from 0 to d to the next node, and the shortcut. */
  function DetourOp(d: nat, i: nat): Op {
    if i < d + 2 then Place(Name(i))
    else if i < 2 * d + 3 then var k: nat := i - d - 2; Arrow(Name(k), Name(k), Name(k + 1))
    else Arrow(Name(d + 1), Name(0), Name(2))
  }

  function Detour(d: nat): (ops: seq<Op>)
    ensures |ops| == 2 * d + 4 && forall i :: 0 <= i < |ops| ==> ops[i] == DetourOp(d, i)
  {
    seq(2 * d + 4, i requires 0 <= i => DetourOp(d, i))
  }

  lemma DetourArrows(d: nat, x: string, y: string)
    ensures HasArrow(Detour(d), x, y) <==> Steps(d, x, y)
  {
    var ops := Detour(d);
    if HasArrow(ops, x, y) {
      var i :| 0 <= i < |ops| && ops[i].UpsertEdge? && ops[i].edge.from == x && ops[i].edge.to == y;
      assert ops[i] == DetourOp(d, i);
    }
    if Steps(d, x, y) {
      var i := if y == Name(|x|) then d + 1 + |x| else 2 * d + 3;
      assert ops[i] == DetourOp(d, i);
    }
  }

  lemma DetourUpserts(d: nat)
    ensures Upserts(Detour(d)) && NoReuse(Detour(d))
  {
    var ops := Detour(d);
    forall i | 0 <= i < |ops| && ops[i].UpsertEdge?
      ensures |ops[i].edge.id| == i - d - 1
    {
      assert ops[i] == DetourOp(d, i);
    }
    forall i | 0 <= i < |ops|
      ensures Proper(ops[i]) && (ops[i].UpsertNode? || ops[i].UpsertEdge?)
    {
      assert ops[i] == DetourOp(d, i);
    }
  }

  lemma NameIsStored(d: nat, k: nat)
    requires k <= d + 1
    ensures Name(k) in Run(Detour(d)).nodes
  {
    var ops := Detour(d);
    DetourUpserts(d);
    RunOfUpserts(ops);
    assert ops[k] == DetourOp(d, k) && ops[k] in ops;
  }

  ghost predicate IsDetour(links: Graph, d: nat) {
    forall x, y :: (x, y) in links <==> Steps(d, x, y)
  }

  lemma DetourLinks(d: nat)
    requires d > 0
    ensures IsDetour(Links(Run(Detour(d)), Plain(d)), d)
  {
    var ops, links := Detour(d), Links(Run(Detour(d)), Plain(d));
    forall x, y
      ensures (x, y) in links <==> Steps(d, x, y)
    {
      DetourUpserts(d);
      LinksOfUpserts(ops, d, x, y);
      DetourArrows(d, x, y);
      if Steps(d, x, y) {
        NameIsStored(d, |y| - 1);
      }
    }
  }

  // ----- The search that takes the long way first -----

  lemma VisitInOrder(links: Graph, nodeId: string, order: seq<string>, depth: nat, maxDepth: nat,
                     v0: set<string>, r0: set<string>, v: set<string>, r: set<string>)
    requires depth < maxDepth && nodeId !in v0 && InSomeOrder(links, true, nodeId, order)
    requires VisitsAll(links, true, order, depth + 1, maxDepth, v0 + {nodeId}, r0, v, r)
    ensures Visits(links, true, nodeId, depth, maxDepth, v0, r0, v, r)
  {
  }

  /** One neighbour, n, is not visited yet, and its visit leads to v, r. */
  lemma VisitOnly(links: Graph, n: string, depth: nat, maxDepth: nat,
                  v0: set<string>, r0: set<string>, v: set<string>, r: set<string>)
    requires depth <= maxDepth && n !in v0 && Visits(links, true, n, depth, maxDepth, v0, r0 + {n}, v, r)
    ensures VisitsAll(links, true, [n], depth, maxDepth, v0, r0, v, r)
  {
    var order := [n];
    assert order[..0] == [] && order[..1] == order;
    OneMoreVisited(links, true, order, 0, depth, maxDepth, v0, r0, v0, r0, v, r);
  }

  /** The names of the nodes below n. */
  function Named(n: nat): (names: set<string>)
    ensures forall x :: x in names <==> 0 < |x| <= n && x == Name(|x| - 1)
  {
    set k: nat | k < n :: Name(k)
  }

  lemma NextNamed(n: nat)
    ensures Named(n) + {Name(n)} == Named(n + 1) && Name(n) !in Named(n)
  {
  }

  /** Over the chain, node k is visited with k levels, node d is cut, and node d + 1 is never met. */
  lemma {:induction false} LongWay(links: Graph, d: nat, k: nat)
    requires IsDetour(links, d) && 0 < k <= d
    ensures Visits(links, true, Name(k), k, d, Named(k), Named(k + 1), Named(d), Named(d + 1))
    decreases d - k
  {
    if k < d {
      LongWay(links, d, k + 1);
      NextNamed(k);
      NextNamed(k + 1);
      VisitOnly(links, Name(k + 1), k + 1, d, Named(k + 1), Named(k + 1), Named(d), Named(d + 1));
      assert Steps(d, Name(k), Name(k + 1));
      VisitInOrder(links, Name(k), [Name(k + 1)], k, d, Named(k), Named(k + 1), Named(d), Named(d + 1));
    }
  }

  lemma LongWayFirst(links: Graph, d: nat)
    requires IsDetour(links, d) && d >= 3
    ensures Visits(links, true, Name(0), 0, d, {}, {Name(0)}, Named(d), Named(d + 1))
  {
    hide Visits, VisitsAll;
    var v0, v, r := Named(1), Named(d), Named(d + 1);
    NextNamed(0);
    NextNamed(1);
    assert {} + {Name(0)} == v0 == {Name(0)};
    LongWay(links, d, 1);
    VisitOnly(links, Name(1), 1, d, v0, v0, v, r);
    var order := [Name(1), Name(2)];
    assert order[..1] == [Name(1)] && order[..2] == order;
    OneMoreVisited(links, true, order, 1, 1, d, v0, v0, v, r, v, r);
    assert Steps(d, Name(0), Name(1)) && Steps(d, Name(0), Name(2));
    VisitInOrder(links, Name(0), order, 0, d, {}, v0, v, r);
  }

  lemma {:induction false} ShortWay(links: Graph, d: nat, k: nat)
    requires IsDetour(links, d) && 2 <= k <= d + 1
    ensures Within(links, Name(0), k - 1, Name(k))
    decreases k
  {
    if k == 2 {
      assert Steps(d, Name(0), Name(2));
      WithinOne(links, Name(0), Name(2));
    } else {
      ShortWay(links, d, k - 1);
      assert Steps(d, Name(k - 1), Name(k));
    }
  }

  lemma IsSearch(s: State, opts: Options, links: Graph, start: string, visited: set<string>, reported: set<string>)
    requires links == Links(s, opts) && opts.limit <= 0 && start in s.nodes
    requires Visits(links, true, start, 0, Depth(opts), {}, {start}, visited, reported)
    ensures Searches(s, opts, start, reported)
  {
    assert {start} * s.nodes.Keys == {start};
  }

  lemma LongWayIsSearch(s: State, links: Graph, d: nat)
    requires d >= 3 && links == Links(s, Plain(d)) && IsDetour(links, d) && Name(0) in s.nodes
    ensures Searches(s, Plain(d), Name(0), Named(d + 1))
  {
    LongWayFirst(links, d);
    IsSearch(s, Plain(d), links, Name(0), Named(d), Named(d + 1));
  }

  lemma LongWayMisses(s: State, links: Graph, d: nat)
    requires d >= 3 && links == Links(s, Plain(d)) && IsDetour(links, d) && Name(d + 1) in s.nodes
    ensures !Complete(s, Plain(d), Name(0), Named(d + 1))
  {
    ShortWay(links, d, d + 1);
    assert Name(d + 1) !in Named(d + 1);
  }

  /** With three or more levels a search can miss a node within its bound: it visits node 2 on the second level, node d
      on the last one, and never comes back to node 2, from where node d + 1 is within the bound. */
  lemma DetourMisses(d: nat)
    requires d >= 3
    ensures Searches(Run(Detour(d)), Plain(d), Name(0), Named(d + 1))
    ensures !Complete(Run(Detour(d)), Plain(d), Name(0), Named(d + 1))
  {
    var links := Links(Run(Detour(d)), Plain(d));
    DetourLinks(d);
    NameIsStored(d, 0);
    NameIsStored(d, d + 1);
    LongWayIsSearch(Run(Detour(d)), links, d);
    LongWayMisses(Run(Detour(d)), links, d);
  }

  // ----- The bounds that are kept -----

  ghost predicate AllProper(ops: seq<Op>) {
    forall i :: 0 <= i < |ops| ==> Proper(ops[i])
  }

  /** A search without a limit and with this many levels, in any store and whatever the order, reports every stored
      node within its bound. */
  ghost predicate BoundIsKept(d: nat) {
    forall ops, opts: Options, start, reported ::
      AllProper(ops) && opts.limit <= 0 && Depth(opts) == d && Searches(Run(ops), opts, start, reported) ==>
        Complete(Run(ops), opts, start, reported)
  }

  /** Main result: depth-first search keeps a depth bound exactly up to two levels. */
  lemma BoundIsKeptExactly(d: nat)
    requires d > 0
    ensures BoundIsKept(d) <==> d <= 2
  {
    if d <= 2 {
      forall ops, opts: Options, start, reported | opts.limit <= 0 && Depth(opts) == d
                                          && Searches(Run(ops), opts, start, reported)
        ensures Complete(Run(ops), opts, start, reported)
      {
        ShallowSearchIsComplete(Run(ops), opts, start, reported);
      }
    } else {
      DetourUpserts(d);
      DetourMisses(d);
      assert AllProper(Detour(d)) && Depth(Plain(d)) == d;
    }
  }
}

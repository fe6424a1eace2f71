/**
 pkg/graph/store.go: the property graph. Nodes and edges are stored by ID; two adjacency indexes (from, to) and two
 type indexes are kept beside them.

 Keys that Go builds by joining strings with colons are tuples here. Transactions never fail.
 */
module PropertyGraph {
  import opened Scans

  // ----- Data -----

  datatype Node = Node(id: string, typ: string, labels: seq<string>, properties: map<string, string>)

  datatype Edge = Edge(id: string, from: string, to: string, typ: string, weight: real, properties: map<string, string>)

  /** Key of an adjacency index entry: the node it is filed under, the edge type and the edge ID. */
  datatype Key = Key(node: string, typ: string, edge: string)

  datatype Direction = Unset | Out | In | Both

  datatype Options = Options(
    direction: Direction,
    edgeTypes: seq<string>,
    nodeTypes: seq<string>,
    limit: int,
    maxDepth: int)

  datatype State = State(
    nodes: map<string, Node>,
    nodeTypeIndex: set<(string, string)>,
    edges: map<string, Edge>,
    fromIndex: map<Key, string>,
    toIndex: map<Key, string>,
    edgeTypeIndex: map<(string, string), string>)

  const EMPTY := State(map[], {}, map[], map[], map[], map[])

  function FromKey(e: Edge): Key { Key(e.from, e.typ, e.id) }

  function ToKey(e: Edge): Key { Key(e.to, e.typ, e.id) }

  // ----- Updates on states -----

  function PutNode(s: State, n: Node): State {
    s.(nodes := s.nodes[n.id := n],
       nodeTypeIndex := if n.typ != "" then s.nodeTypeIndex + {(n.typ, n.id)} else s.nodeTypeIndex)
  }

  function PutEdge(s: State, e: Edge): State {
    s.(edges := s.edges[e.id := e],
       fromIndex := s.fromIndex[FromKey(e) := e.id],
       toIndex := s.toIndex[ToKey(e) := e.id],
       edgeTypeIndex := if e.typ != "" then s.edgeTypeIndex[(e.typ, e.id) := e.id] else s.edgeTypeIndex)
  }

  function DropEdge(s: State, id: string): State {
    if id !in s.edges then s
    else
      var e := s.edges[id];
      s.(edges := s.edges - {id},
         fromIndex := s.fromIndex - {Key(e.from, e.typ, id)},
         toIndex := s.toIndex - {Key(e.to, e.typ, id)},
         edgeTypeIndex := if e.typ != "" then s.edgeTypeIndex - {(e.typ, id)} else s.edgeTypeIndex)
  }

  function KeysUnder(index: map<Key, string>, node: string): set<Key> {
    set k | k in index && k.node == node
  }

  /** IDs of the edges filed under node in one adjacency index. */
  function FiledUnder(index: map<Key, string>, node: string): set<string> {
    set k | k in index && k.node == node && index[k] != "" :: index[k]
  }

  function DropNode(s: State, id: string): State {
    s.(nodes := s.nodes - {id},
       edges := s.edges - (FiledUnder(s.fromIndex, id) + FiledUnder(s.toIndex, id)),
       fromIndex := s.fromIndex - KeysUnder(s.fromIndex, id),
       toIndex := s.toIndex - KeysUnder(s.toIndex, id))
  }

  // ----- What every run keeps -----

  ghost predicate GoodIndex(index: map<Key, string>) {
    forall k :: k in index ==> index[k] == k.edge != ""
  }

  /** Records are stored under their own IDs, index entries carry the ID of their key, and every stored edge is filed
      in all indexes. */
  ghost predicate Indexed(s: State) {
    && (forall id :: id in s.nodes ==> s.nodes[id].id == id)
    && GoodIndex(s.fromIndex) && GoodIndex(s.toIndex)
    && (forall id :: id in s.edges ==>
          var e := s.edges[id];
          e.id == id && FromKey(e) in s.fromIndex && ToKey(e) in s.toIndex
          && (e.typ != "" ==> (e.typ, id) in s.edgeTypeIndex))
  }

  /** Every adjacency entry of a stored edge names its true end point and type. */
  ghost predicate Coherent(s: State) {
    && (forall k :: k in s.fromIndex && k.edge in s.edges ==> k == FromKey(s.edges[k.edge]))
    && (forall k :: k in s.toIndex && k.edge in s.edges ==> k == ToKey(s.edges[k.edge]))
  }

  datatype Op =
    | UpsertNode(node: Node)
    | DeleteNode(nodeId: string)
    | UpsertEdge(edge: Edge)
    | DeleteEdge(edgeId: string)

  function Apply(s: State, op: Op): State {
    match op
    case UpsertNode(n) => PutNode(s, n)
    case DeleteNode(id) => DropNode(s, id)
    case UpsertEdge(e) => PutEdge(s, e)
    case DeleteEdge(id) => DropEdge(s, id)
  }

  /** The store never writes an edge without an ID: it makes one up. */
  ghost predicate Proper(op: Op) {
    op.UpsertEdge? ==> op.edge.id != ""
  }

  function Run(ops: seq<Op>): State {
    if ops == [] then EMPTY else Apply(Run(ops[..|ops| - 1]), ops[|ops| - 1])
  }

  lemma DropKeepsIndexed(s: State, op: Op)
    requires Indexed(s) && (op.DeleteNode? || op.DeleteEdge?)
    ensures Indexed(Apply(s, op))
  {
    assert op.DeleteEdge? ==> forall e :: e in s.edges && e != op.edgeId ==> s.edges[e].id != op.edgeId;
  }

  lemma ApplyKeepsIndexed(s: State, op: Op)
    requires Indexed(s) && Proper(op)
    ensures Indexed(Apply(s, op))
  {
    if op.DeleteNode? || op.DeleteEdge? {
      DropKeepsIndexed(s, op);
    }
  }

  /** Some update before the end of the run wrote an edge with this key in its from (to) index. */
  ghost predicate Written(ops: seq<Op>, from: bool, k: Key) {
    exists i :: 0 <= i < |ops| && ops[i].UpsertEdge? && k == (if from then FromKey(ops[i].edge) else ToKey(ops[i].edge))
  }

  predicate SameEdgeId(a: Op, b: Op) {
    a.UpsertEdge? && b.UpsertEdge? && a.edge.id == b.edge.id
  }

  /** No edge ID is ever used for a different edge. */
  ghost predicate NoReuse(ops: seq<Op>) {
    forall i, j :: 0 <= i < |ops| && 0 <= j < |ops| && SameEdgeId(ops[i], ops[j]) ==>
      FromKey(ops[i].edge) == FromKey(ops[j].edge) && ToKey(ops[i].edge) == ToKey(ops[j].edge)
  }

  ghost predicate AllWritten(s: State, ops: seq<Op>) {
    && (forall k :: k in s.fromIndex ==> Written(ops, true, k))
    && (forall k :: k in s.toIndex ==> Written(ops, false, k))
  }

  lemma WrittenStays(ops: seq<Op>, op: Op, from: bool, k: Key)
    ensures Written(ops, from, k) ==> Written(ops + [op], from, k)
    ensures op.UpsertEdge? && k == (if from then FromKey(op.edge) else ToKey(op.edge)) ==> Written(ops + [op], from, k)
  {
    var longer := ops + [op];
    if Written(ops, from, k) {
      var i :| 0 <= i < |ops| && ops[i].UpsertEdge? && k == (if from then FromKey(ops[i].edge) else ToKey(ops[i].edge));
      assert longer[i] == ops[i];
    }
    assert longer[|ops|] == op;
  }

  /** Main result: every run keeps all records indexed. */
  lemma {:induction false} EveryRunIndexed(ops: seq<Op>)
    requires forall i :: 0 <= i < |ops| ==> Proper(ops[i])
    ensures Indexed(Run(ops))
    decreases |ops|
  {
    if ops != [] {
      EveryRunIndexed(ops[..|ops| - 1]);
      ApplyKeepsIndexed(Run(ops[..|ops| - 1]), ops[|ops| - 1]);
    }
  }

  lemma ApplyFilesOneKey(s: State, op: Op)
    ensures forall k :: k in Apply(s, op).fromIndex ==> k in s.fromIndex || (op.UpsertEdge? && k == FromKey(op.edge))
    ensures forall k :: k in Apply(s, op).toIndex ==> k in s.toIndex || (op.UpsertEdge? && k == ToKey(op.edge))
  {
  }

  /** Index entries come from edge updates and from nowhere else. */
  lemma {:induction false} EveryRunWritten(ops: seq<Op>)
    ensures AllWritten(Run(ops), ops)
    decreases |ops|
  {
    if ops != [] {
      var front, op := ops[..|ops| - 1], ops[|ops| - 1];
      EveryRunWritten(front);
      ApplyFilesOneKey(Run(front), op);
      assert ops == front + [op];
      forall from: bool, k | (k in if from then Run(ops).fromIndex else Run(ops).toIndex)
        ensures Written(ops, from, k)
      {
        WrittenStays(front, op, from, k);
      }
    }
  }

  /** Main result: a run that never uses an edge ID for two different edges keeps the adjacency indexes truthful. */
  lemma EveryRunCoherent(ops: seq<Op>)
    requires forall i :: 0 <= i < |ops| ==> Proper(ops[i])
    requires NoReuse(ops)
    ensures Coherent(Run(ops))
  {
    EveryRunIndexed(ops);
    EveryRunWritten(ops);
    var s := Run(ops);
    forall k | k in s.fromIndex && k.edge in s.edges
      ensures k == FromKey(s.edges[k.edge])
    {
      assert Written(ops, true, k) && Written(ops, true, FromKey(s.edges[k.edge]));
    }
    forall k | k in s.toIndex && k.edge in s.edges
      ensures k == ToKey(s.edges[k.edge])
    {
      assert Written(ops, false, k) && Written(ops, false, ToKey(s.edges[k.edge]));
    }
  }

  /** No index entry files the edge under another end point or type. */
  ghost predicate FreeFor(s: State, e: Edge) {
    && (forall k :: k in s.fromIndex && k.edge == e.id ==> k == FromKey(e))
    && (forall k :: k in s.toIndex && k.edge == e.id ==> k == ToKey(e))
  }

  lemma FreeStaysCoherent(s: State, e: Edge)
    requires Coherent(s) && FreeFor(s, e)
    ensures Coherent(PutEdge(s, e))
  {
  }

  /** Exactly when one update keeps the indexes truthful: always, except for an upsert that reuses an edge ID which is
      still filed under another end point or type. */
  lemma CoherentExactly(s: State, op: Op)
    requires Indexed(s) && Coherent(s) && Proper(op)
    ensures Coherent(Apply(s, op)) <==> (op.UpsertEdge? ==> FreeFor(s, op.edge))
  {
    var t := Apply(s, op);
    if op.UpsertEdge? {
      var e := op.edge;
      if FreeFor(s, e) {
        FreeStaysCoherent(s, e);
      } else if k :| k in s.fromIndex && k.edge == e.id && k != FromKey(e) {
        assert k in t.fromIndex && t.edges[k.edge] == e;
      } else {
        var k :| k in s.toIndex && k.edge == e.id && k != ToKey(e);
        assert k in t.toIndex && t.edges[k.edge] == e;
      }
    }
  }

  /** A reused ID does leave a lie behind: edge "e" is filed under "b" although it now leads from "a" to "c", and
      deleting "b" takes it away. */
  lemma ReuseLies()
    ensures
      var first, second := Edge("e", "a", "b", "t", 1.0, map[]), Edge("e", "a", "c", "t", 1.0, map[]);
      var s := Run([UpsertEdge(first), UpsertEdge(second)]);
      && !Coherent(s)
      && Key("b", "t", "e") in s.toIndex && s.edges["e"] == second
      && "e" !in DropNode(s, "b").edges
  {
    var first, second := Edge("e", "a", "b", "t", 1.0, map[]), Edge("e", "a", "c", "t", 1.0, map[]);
    var one, ops := [UpsertEdge(first)], [UpsertEdge(first), UpsertEdge(second)];
    assert one[..0] == [] && Run(one) == PutEdge(EMPTY, first);
    assert ops[..1] == one;
    var s := Run(ops);
    assert s == PutEdge(PutEdge(EMPTY, first), second);
    assert Key("b", "t", "e") in KeysUnder(s.toIndex, "b");
    assert "e" in FiledUnder(s.toIndex, "b");
  }

  // ----- Neighbour queries -----

  function Index(s: State, out: bool): map<Key, string> {
    if out then s.fromIndex else s.toIndex
  }

  predicate ScansIndex(opts: Options, out: bool) {
    if out then opts.direction != In else opts.direction == In || opts.direction == Both
  }

  /** The scan of one adjacency index keeps this entry: no type filter, or a stored edge of a wanted type. */
  predicate Kept(s: State, opts: Options, id: string) {
    opts.edgeTypes == [] || (id in s.edges && s.edges[id].typ in opts.edgeTypes)
  }

  /** The end of an edge that counts as the neighbour: the To end unless the direction is In. */
  function FarEnd(opts: Options, e: Edge): string {
    if opts.direction == In then e.from else e.to
  }

  predicate Wanted(s: State, opts: Options, node: string) {
    node in s.nodes && (opts.nodeTypes == [] || s.nodes[node].typ in opts.nodeTypes)
  }

  /** Edge IDs that a neighbour query of node scans. */
  function Listed(s: State, opts: Options, node: string, out: bool): set<string> {
    if ScansIndex(opts, out) then
      set k | k in Index(s, out) && k.node == node && Kept(s, opts, Index(s, out)[k]) :: Index(s, out)[k]
    else {}
  }

  /** A neighbour query of node, without a limit, returns the edge stored under id. */
  predicate Leads(s: State, opts: Options, node: string, id: string) {
    (id in Listed(s, opts, node, true) || id in Listed(s, opts, node, false)) && id in s.edges
  }

  /** A neighbour query of a, without a limit, returns node b. */
  ghost predicate Linked(s: State, opts: Options, a: string, b: string) {
    Wanted(s, opts, b) && exists id :: Leads(s, opts, a, id) && FarEnd(opts, s.edges[id]) == b
  }

  /** The same as a finite set of pairs. */
  ghost function Links(s: State, opts: Options): (links: set<(string, string)>)
    ensures forall a, b :: (a, b) in links <==> Linked(s, opts, a, b)
  {
    var sources := set k | k in s.fromIndex.Keys + s.toIndex.Keys :: k.node;
    var links := set a, b | a in sources && b in s.nodes && Linked(s, opts, a, b) :: (a, b);
    forall a, b | Linked(s, opts, a, b)
      ensures (a, b) in links
    {
      SourceIsFiled(s, opts, a, b);
    }
    links
  }

  lemma SourceIsFiled(s: State, opts: Options, a: string, b: string)
    requires Linked(s, opts, a, b)
    ensures exists k :: k in s.fromIndex.Keys + s.toIndex.Keys && k.node == a
  {
    var id :| Leads(s, opts, a, id) && FarEnd(opts, s.edges[id]) == b;
    var out := id in Listed(s, opts, a, true);
    var k :| k in Index(s, out) && k.node == a && Kept(s, opts, Index(s, out)[k]) && Index(s, out)[k] == id;
    assert k in s.fromIndex.Keys + s.toIndex.Keys;
  }

  lemma EndPointsFile(s: State, n: string, id: string)
    requires Indexed(s) && id in s.edges && (s.edges[id].from == n || s.edges[id].to == n)
    ensures id in FiledUnder(s.fromIndex, n) + FiledUnder(s.toIndex, n)
  {
    var e := s.edges[id];
    if e.from == n {
      assert s.fromIndex[FromKey(e)] == id;
    } else {
      assert s.toIndex[ToKey(e)] == id;
    }
  }

  /** Main result: once a node is deleted, no neighbour query, whatever its options, leads to it or returns one of its
      edges, although entries that mirror its edges may still be filed. */
  lemma DeletedNodeIsGone(s: State, n: string, opts: Options, node: string, id: string)
    requires Indexed(s)
    ensures
      var t := DropNode(s, n);
      && !Linked(t, opts, node, n)
      && (Leads(t, opts, node, id) ==> t.edges[id].from != n && t.edges[id].to != n)
  {
    var t := DropNode(s, n);
    if id in s.edges && (s.edges[id].from == n || s.edges[id].to == n) {
      EndPointsFile(s, n, id);
    }
  }

  predicate Incident(e: Edge, n: string) {
    e.from == n || e.to == n
  }

  /** Every entry that files a stored edge under n files an edge of n. */
  ghost predicate TruthfulUnder(s: State, n: string) {
    forall id :: id in FiledUnder(s.fromIndex, n) + FiledUnder(s.toIndex, n) && id in s.edges ==>
      Incident(s.edges[id], n)
  }

  /** Main result: deleting a node always deletes its edges and leaves the others it keeps as they are; it deletes no
      other edge exactly when the entries under the node are truthful, whatever those under other nodes say. */
  lemma DeleteNodeExactly(s: State, n: string)
    requires Indexed(s)
    ensures
      var t := DropNode(s, n);
      && (forall id :: id in t.edges ==> id in s.edges && t.edges[id] == s.edges[id] && !Incident(s.edges[id], n))
      && ((forall id :: id in s.edges && !Incident(s.edges[id], n) ==> id in t.edges) <==> TruthfulUnder(s, n))
      && n !in t.nodes && (forall m :: m in s.nodes && m != n ==> m in t.nodes && t.nodes[m] == s.nodes[m])
      && (forall m :: m in t.nodes ==> m in s.nodes)
      && (forall k: Key :: k in t.fromIndex <==> k in s.fromIndex && k.node != n)
      && (forall k: Key :: k in t.toIndex <==> k in s.toIndex && k.node != n)
    ensures Coherent(s) ==> TruthfulUnder(s, n)
  {
    forall id | id in s.edges && Incident(s.edges[id], n)
      ensures id !in DropNode(s, n).edges
    {
      EndPointsFile(s, n, id);
    }
  }

  /** Main result: in a truthful store a query leads over an edge exactly if the edge is stored and of a wanted type and
      the node is its From end, its To end for incoming queries, or either for queries in both directions. */
  lemma CoherentNeighbours(s: State, opts: Options, node: string, id: string)
    requires Indexed(s) && Coherent(s)
    ensures Leads(s, opts, node, id) <==>
            && id in s.edges && (opts.edgeTypes == [] || s.edges[id].typ in opts.edgeTypes)
            && (match opts.direction
                case In => s.edges[id].to == node
                case Both => s.edges[id].from == node || s.edges[id].to == node
                case _ => s.edges[id].from == node)
  {
    if id in s.edges {
      var e := s.edges[id];
      assert s.fromIndex[FromKey(e)] == id && s.toIndex[ToKey(e)] == id;
      assert FromKey(e).node == e.from && ToKey(e).node == e.to;
    }
  }

  /** Main result: in a truthful store b is a neighbour of a exactly if b is stored, of a wanted type, and the To end of
      such an edge; for incoming queries the From end. So a query in both directions names the To end of every edge,
      which is a itself where the edge comes in. */
  lemma CoherentLinks(s: State, opts: Options, a: string, b: string)
    requires Indexed(s) && Coherent(s)
    ensures Linked(s, opts, a, b) <==>
            && b in s.nodes && (opts.nodeTypes == [] || s.nodes[b].typ in opts.nodeTypes)
            && exists id :: id in s.edges && (opts.edgeTypes == [] || s.edges[id].typ in opts.edgeTypes)
                            && (match opts.direction
                                case In => s.edges[id].to == a && s.edges[id].from == b
                                case Both => (s.edges[id].from == a || s.edges[id].to == a) && s.edges[id].to == b
                                case _ => s.edges[id].from == a && s.edges[id].to == b)
  {
    forall id
      ensures Leads(s, opts, a, id) <==>
              && id in s.edges && (opts.edgeTypes == [] || s.edges[id].typ in opts.edgeTypes)
              && (match opts.direction
                  case In => s.edges[id].to == a
                  case Both => s.edges[id].from == a || s.edges[id].to == a
                  case _ => s.edges[id].from == a)
    {
      CoherentNeighbours(s, opts, a, id);
    }
  }

  // ----- What single updates do, record by record -----

  /** Every field of the record is the given one; other nodes, the edges and all adjacency entries stay, so that queries
      lead over the same edges. The type index gains the pair of type and ID, unless the type is empty. */
  lemma UpsertNodeExactly(s: State, n: Node, opts: Options, node: string, id: string)
    ensures
      var t := Apply(s, UpsertNode(n));
      && t.nodes.Keys == s.nodes.Keys + {n.id} && t.nodes[n.id].id == n.id && t.nodes[n.id].typ == n.typ
      && t.nodes[n.id].labels == n.labels && t.nodes[n.id].properties == n.properties
      && (forall m :: m in s.nodes && m != n.id ==> t.nodes[m] == s.nodes[m])
      && (forall typ, m :: (typ, m) in t.nodeTypeIndex <==>
            (typ, m) in s.nodeTypeIndex || (typ != "" && typ == n.typ && m == n.id))
      && t.edges == s.edges && (Leads(t, opts, node, id) <==> Leads(s, opts, node, id))
  {
  }

  /** Every field of the record is the given one and other records stay; the edge is filed under both its ends. */
  lemma UpsertEdgeExactly(s: State, e: Edge)
    ensures
      var t := Apply(s, UpsertEdge(e));
      && t.edges.Keys == s.edges.Keys + {e.id} && t.edges[e.id].id == e.id && t.edges[e.id].from == e.from
      && t.edges[e.id].to == e.to && t.edges[e.id].typ == e.typ && t.edges[e.id].weight == e.weight
      && t.edges[e.id].properties == e.properties
      && (forall other :: other in s.edges && other != e.id ==> t.edges[other] == s.edges[other])
      && t.nodes == s.nodes && (e.typ != "" ==> (e.typ, e.id) in t.edgeTypeIndex)
      && t.fromIndex.Keys == s.fromIndex.Keys + {Key(e.from, e.typ, e.id)}
      && t.toIndex.Keys == s.toIndex.Keys + {Key(e.to, e.typ, e.id)}
  {
  }

  /** Queries whose types admit the new edge lead over it from its From end, its To end or both; over other edges they
      lead as before. */
  lemma NewEdgeIsFollowed(s: State, e: Edge, opts: Options, node: string, id: string)
    requires Indexed(s) && Proper(UpsertEdge(e))
    ensures
      var t := Apply(s, UpsertEdge(e));
      && (opts.edgeTypes == [] || e.typ in opts.edgeTypes ==>
            && (opts.direction != In ==> Leads(t, opts, e.from, e.id))
            && (opts.direction == In || opts.direction == Both ==> Leads(t, opts, e.to, e.id)))
      && (id != e.id ==> (Leads(t, opts, node, id) <==> Leads(s, opts, node, id)))
  {
    var t := Apply(s, UpsertEdge(e));
    assert FromKey(e).node == e.from && ToKey(e).node == e.to;
    assert t.fromIndex[FromKey(e)] == e.id && t.toIndex[ToKey(e)] == e.id;
    UpsertEdgeExactly(s, e);
    if id != e.id {
      hide Listed, Kept, Indexed, Leads;
      SameListing(s, t, opts, node, id);
    }
  }

  /** Adding or removing entries of one ID and its record does not change what is listed of another. */
  lemma SameListing(s: State, t: State, opts: Options, node: string, id: string)
    requires forall k: Key :: k.edge == id ==> (k in s.fromIndex <==> k in t.fromIndex)
    requires forall k: Key :: k.edge == id ==> (k in s.toIndex <==> k in t.toIndex)
    requires GoodIndex(s.fromIndex) && GoodIndex(s.toIndex) && GoodIndex(t.fromIndex) && GoodIndex(t.toIndex)
    requires id in s.edges <==> id in t.edges
    requires id in s.edges ==> s.edges[id] == t.edges[id]
    ensures Leads(t, opts, node, id) <==> Leads(s, opts, node, id)
  {
    forall out
      ensures id in Listed(t, opts, node, out) && id in t.edges ==> id in Listed(s, opts, node, out)
      ensures id in Listed(s, opts, node, out) && id in s.edges ==> id in Listed(t, opts, node, out)
    {
      StillListed(s, t, opts, node, out, id);
      StillListed(t, s, opts, node, out, id);
    }
  }

  lemma StillListed(s: State, t: State, opts: Options, node: string, out: bool, id: string)
    requires forall k: Key :: k.edge == id ==> (k in Index(s, out) <==> k in Index(t, out))
    requires GoodIndex(Index(s, out)) && GoodIndex(Index(t, out))
    requires id in s.edges <==> id in t.edges
    requires id in s.edges ==> s.edges[id] == t.edges[id]
    ensures id in Listed(s, opts, node, out) ==> id in Listed(t, opts, node, out)
  {
    if id in Listed(s, opts, node, out) {
      var k :| k in Index(s, out) && k.node == node && Kept(s, opts, Index(s, out)[k]) && Index(s, out)[k] == id;
      assert k.edge == id && k in Index(t, out) && Index(t, out)[k] == id;
    }
  }

  /** Main result: a deleted edge is gone, with its type entry and, in a truthful store, all entries that carry its ID;
      the records and entries of all other edges stay. */
  lemma DeleteEdgeExactly(s: State, id: string)
    requires Indexed(s)
    ensures
      var t := Apply(s, DeleteEdge(id));
      && t.nodes == s.nodes && t.nodeTypeIndex == s.nodeTypeIndex && id !in t.edges
      && (forall e :: e in s.edges && e != id ==> e in t.edges && t.edges[e] == s.edges[e])
      && (forall e :: e in t.edges ==> e in s.edges)
      && (forall k: Key :: k.edge != id ==> (k in t.fromIndex <==> k in s.fromIndex))
      && (forall k: Key :: k.edge != id ==> (k in t.toIndex <==> k in s.toIndex))
      && (forall typ, e :: e != id ==> ((typ, e) in t.edgeTypeIndex <==> (typ, e) in s.edgeTypeIndex))
      && (id in s.edges && s.edges[id].typ != "" ==> (s.edges[id].typ, id) !in t.edgeTypeIndex)
    ensures id in s.edges && Coherent(s) ==>
              var t := Apply(s, DeleteEdge(id));
              forall k: Key :: k.edge == id ==> k !in t.fromIndex && k !in t.toIndex
  {
  }

  /** No query leads over it any more, and over every other edge queries lead as before. */
  lemma DeletedEdgeIsGone(s: State, id: string, opts: Options, node: string, other: string)
    requires Indexed(s)
    ensures Leads(Apply(s, DeleteEdge(id)), opts, node, other) <==> other != id && Leads(s, opts, node, other)
  {
    DeleteEdgeExactly(s, id);
    DropKeepsIndexed(s, DeleteEdge(id));
    var t := Apply(s, DeleteEdge(id));
    if other != id {
      hide Apply, Listed, Kept, Coherent;
      SameListing(s, t, opts, node, other);
    }
  }

  ghost predicate FoundNodes(s: State, opts: Options, node: string, found: seq<Node>) {
    && (forall i :: 0 <= i < |found| ==> found[i].id in s.nodes && found[i] == s.nodes[found[i].id])
    && (forall i :: 0 <= i < |found| ==> Linked(s, opts, node, found[i].id))
    && (forall i, j :: 0 <= i < j < |found| ==> found[i].id != found[j].id)
  }

  ghost predicate FoundEdges(s: State, opts: Options, node: string, found: seq<Edge>) {
    forall i :: 0 <= i < |found| ==> Leads(s, opts, node, found[i].id) && found[i] == s.edges[found[i].id]
  }

  /** found holds every neighbour of node, each reached over one of the edges. */
  ghost predicate FoundAll(s: State, opts: Options, node: string, found: seq<Node>, edges: seq<Edge>) {
    && (forall b :: Linked(s, opts, node, b) ==> HasId(found, b))
    && (forall id :: Leads(s, opts, node, id) ==> s.edges[id] in edges)
  }

  // ----- What a neighbour query returns for the edge IDs it has collected -----

  /** The keys of an adjacency index that a neighbour query scans. */
  ghost function KeptKeys(s: State, opts: Options, node: string, out: bool): set<Key> {
    if ScansIndex(opts, out) then set k | k in Index(s, out) && k.node == node && Kept(s, opts, Index(s, out)[k])
    else {}
  }

  /** ids are the entries under the scanned keys, in the order of some listing, one for each key. */
  ghost predicate IsScan(s: State, opts: Options, node: string, out: bool, keys: seq<Key>, ids: seq<string>) {
    && Lists(keys, KeptKeys(s, opts, node, out)) && |ids| == |keys|
    && forall i :: 0 <= i < |ids| ==> keys[i] in Index(s, out) && ids[i] == Index(s, out)[keys[i]]
  }

  ghost predicate CanScan(s: State, opts: Options, node: string, out: bool, ids: seq<string>) {
    exists keys :: IsScan(s, opts, node, out, keys, ids)
  }

  function Cut(ids: seq<string>, limit: int): (cut: seq<string>)
    ensures limit > 0 ==> |cut| <= limit
  {
    if 0 < limit < |ids| then ids[..limit] else ids
  }

  /** ids are the outgoing entries followed by the incoming ones, cut to the limit. */
  ghost predicate Collected(s: State, opts: Options, node: string, ids: seq<string>) {
    exists outgoing, incoming ::
      && CanScan(s, opts, node, true, outgoing) && CanScan(s, opts, node, false, incoming)
      && ids == Cut(outgoing + incoming, opts.limit)
  }

  /** The stored edges of the IDs, in order. */
  ghost function EdgesOf(s: State, ids: seq<string>): seq<Edge> {
    if ids == [] then []
    else
      var id := ids[|ids| - 1];
      EdgesOf(s, ids[..|ids| - 1]) + if id in s.edges then [s.edges[id]] else []
  }

  ghost predicate HasId(found: seq<Node>, id: string) {
    exists i :: 0 <= i < |found| && found[i].id == id
  }

  /** The far ends of these edges: those that are stored and wanted, each at its first occurrence. */
  ghost function NeighborsOf(s: State, opts: Options, ids: seq<string>): seq<Node> {
    if ids == [] then []
    else
      var front, id := NeighborsOf(s, opts, ids[..|ids| - 1]), ids[|ids| - 1];
      if id in s.edges && IsNewNeighbor(s, opts, s.edges[id], front) then front + [s.nodes[FarEnd(opts, s.edges[id])]]
      else front
  }

  ghost predicate IsNewNeighbor(s: State, opts: Options, e: Edge, found: seq<Node>) {
    Wanted(s, opts, FarEnd(opts, e)) && !HasId(found, FarEnd(opts, e))
  }

  lemma HasIdAppend(found: seq<Node>, n: Node)
    ensures forall id :: HasId(found + [n], id) <==> HasId(found, id) || id == n.id
  {
    var longer := found + [n];
    assert longer[|found|] == n;
    forall id | HasId(found, id)
      ensures HasId(longer, id)
    {
      var i :| 0 <= i < |found| && found[i].id == id;
      assert longer[i].id == id;
    }
  }

  lemma {:induction false} EdgesAre(s: State, opts: Options, node: string, ids: seq<string>)
    requires Indexed(s) && forall i :: 0 <= i < |ids| ==> IsListed(s, opts, node, ids[i])
    ensures FoundEdges(s, opts, node, EdgesOf(s, ids)) && |EdgesOf(s, ids)| <= |ids|
    ensures forall i :: 0 <= i < |ids| && ids[i] in s.edges ==> s.edges[ids[i]] in EdgesOf(s, ids)
  {
    if ids != [] {
      EdgesAre(s, opts, node, ids[..|ids| - 1]);
    }
  }

  ghost predicate IsListed(s: State, opts: Options, node: string, id: string) {
    id in Listed(s, opts, node, true) || id in Listed(s, opts, node, false)
  }

  lemma NeighborIsFound(s: State, opts: Options, node: string, id: string, found: seq<Node>)
    requires Indexed(s) && FoundNodes(s, opts, node, found) && IsListed(s, opts, node, id) && id in s.edges
    requires IsNewNeighbor(s, opts, s.edges[id], found)
    ensures FoundNodes(s, opts, node, found + [s.nodes[FarEnd(opts, s.edges[id])]])
  {
    var b := FarEnd(opts, s.edges[id]);
    assert Leads(s, opts, node, id) && Linked(s, opts, node, b);
    forall i | 0 <= i < |found|
      ensures found[i].id != b
    {
      assert HasId(found, found[i].id);
    }
  }

  lemma {:induction false} NeighborsAre(s: State, opts: Options, node: string, ids: seq<string>)
    requires Indexed(s) && forall i :: 0 <= i < |ids| ==> IsListed(s, opts, node, ids[i])
    ensures FoundNodes(s, opts, node, NeighborsOf(s, opts, ids))
  {
    if ids != [] {
      var front, id := ids[..|ids| - 1], ids[|ids| - 1];
      NeighborsAre(s, opts, node, front);
      var found := NeighborsOf(s, opts, front);
      if id in s.edges && IsNewNeighbor(s, opts, s.edges[id], found) {
        NeighborIsFound(s, opts, node, id, found);
      }
    }
  }

  lemma {:induction false} AllNeighbors(s: State, opts: Options, ids: seq<string>, id: string)
    requires Indexed(s) && id in ids && id in s.edges && Wanted(s, opts, FarEnd(opts, s.edges[id]))
    ensures HasId(NeighborsOf(s, opts, ids), FarEnd(opts, s.edges[id]))
  {
    var front, last := ids[..|ids| - 1], ids[|ids| - 1];
    var found := NeighborsOf(s, opts, front);
    if id in front {
      AllNeighbors(s, opts, front, id);
    }
    if last in s.edges && IsNewNeighbor(s, opts, s.edges[last], found) {
      HasIdAppend(found, s.nodes[FarEnd(opts, s.edges[last])]);
    }
  }

  lemma ScanIsListed(s: State, opts: Options, node: string, out: bool, ids: seq<string>)
    requires CanScan(s, opts, node, out, ids)
    ensures forall id :: id in ids <==> id in Listed(s, opts, node, out)
  {
    var keys :| IsScan(s, opts, node, out, keys, ids);
    forall id | id in Listed(s, opts, node, out)
      ensures id in ids
    {
      var k :| k in Index(s, out) && k.node == node && Kept(s, opts, Index(s, out)[k]) && Index(s, out)[k] == id;
      assert k in keys;
    }
  }

  lemma CollectedIsListed(s: State, opts: Options, node: string, ids: seq<string>)
    requires Collected(s, opts, node, ids)
    ensures forall i :: 0 <= i < |ids| ==> IsListed(s, opts, node, ids[i])
    ensures opts.limit <= 0 ==> forall id :: IsListed(s, opts, node, id) ==> id in ids
    ensures opts.limit > 0 ==> |ids| <= opts.limit
  {
    var outgoing, incoming :| CanScan(s, opts, node, true, outgoing) && CanScan(s, opts, node, false, incoming)
                              && ids == Cut(outgoing + incoming, opts.limit);
    ScanIsListed(s, opts, node, true, outgoing);
    ScanIsListed(s, opts, node, false, incoming);
    forall i | 0 <= i < |ids|
      ensures IsListed(s, opts, node, ids[i])
    {
      assert (outgoing + incoming)[i] in outgoing || (outgoing + incoming)[i] in incoming;
    }
  }

  lemma AllAreFound(s: State, opts: Options, node: string, ids: seq<string>)
    requires Indexed(s) && forall i :: 0 <= i < |ids| ==> IsListed(s, opts, node, ids[i])
    requires forall id :: IsListed(s, opts, node, id) ==> id in ids
    ensures FoundAll(s, opts, node, NeighborsOf(s, opts, ids), EdgesOf(s, ids))
  {
    EdgesAre(s, opts, node, ids);
    forall b | Linked(s, opts, node, b)
      ensures HasId(NeighborsOf(s, opts, ids), b)
    {
      var id :| Leads(s, opts, node, id) && FarEnd(opts, s.edges[id]) == b;
      assert IsListed(s, opts, node, id);
      AllNeighbors(s, opts, ids, id);
    }
    forall id | Leads(s, opts, node, id)
      ensures s.edges[id] in EdgesOf(s, ids)
    {
      assert IsListed(s, opts, node, id);
    }
  }

  /** Main result: whatever order the scans list the entries in, a query returns linked nodes, each once, and edges that
      lead to them; without a limit it returns all of them. */
  lemma CollectedIsFound(s: State, opts: Options, node: string, ids: seq<string>)
    requires Indexed(s) && Collected(s, opts, node, ids)
    ensures FoundNodes(s, opts, node, NeighborsOf(s, opts, ids)) && FoundEdges(s, opts, node, EdgesOf(s, ids))
    ensures opts.limit > 0 ==> |EdgesOf(s, ids)| <= opts.limit
    ensures opts.limit <= 0 ==> FoundAll(s, opts, node, NeighborsOf(s, opts, ids), EdgesOf(s, ids))
  {
    CollectedIsListed(s, opts, node, ids);
    NeighborsAre(s, opts, node, ids);
    EdgesAre(s, opts, node, ids);
    if opts.limit <= 0 {
      AllAreFound(s, opts, node, ids);
    }
  }

  lemma NothingScanned(s: State, opts: Options, node: string, out: bool)
    requires !ScansIndex(opts, out)
    ensures CanScan(s, opts, node, out, [])
  {
    assert IsScan(s, opts, node, out, [], []);
  }

  lemma BothScanned(s: State, opts: Options, node: string, outgoing: seq<string>, incoming: seq<string>)
    requires CanScan(s, opts, node, true, outgoing) && CanScan(s, opts, node, false, incoming)
    ensures Collected(s, opts, node, Cut(outgoing + incoming, opts.limit))
  {
  }

  // ----- The store -----

  class GraphStore {
    var nodes: map<string, Node>
    var nodeTypeIndex: set<(string, string)>
    var edges: map<string, Edge>
    var fromIndex: map<Key, string>
    var toIndex: map<Key, string>
    var edgeTypeIndex: map<(string, string), string>

    ghost function Now(): State
      reads this
    {
      State(nodes, nodeTypeIndex, edges, fromIndex, toIndex, edgeTypeIndex)
    }

    constructor ()
      ensures Now() == EMPTY
    {
      nodes, nodeTypeIndex, edges, fromIndex, toIndex, edgeTypeIndex := map[], {}, map[], map[], map[], map[];
    }

    /** freshId stands for the UUID that a record without an ID gets. */
    method UpsertNode(node: Node, freshId: string)
      modifies this
      ensures Now() == PutNode(old(Now()), if node.id == "" then node.(id := freshId) else node)
      ensures
        var id := if node.id == "" then freshId else node.id;
        && nodes.Keys == old(nodes).Keys + {id} && nodes[id] == node.(id := id)
        && (forall n :: n in old(nodes) && n != id ==> nodes[n] == old(nodes)[n])
    {
      var n := node;
      if n.id == "" {
        n := n.(id := freshId);
      }
      nodes := nodes[n.id := n];
      if n.typ != "" {
        nodeTypeIndex := nodeTypeIndex + {(n.typ, n.id)};
      }
    }

    method UpsertEdge(edge: Edge, freshId: string)
      modifies this
      ensures Now() == PutEdge(old(Now()), if edge.id == "" then edge.(id := freshId) else edge)
      ensures
        var id := if edge.id == "" then freshId else edge.id;
        && edges.Keys == old(edges).Keys + {id} && edges[id] == edge.(id := id)
        && (forall e :: e in old(edges) && e != id ==> edges[e] == old(edges)[e])
        && Key(edge.from, edge.typ, id) in fromIndex && Key(edge.to, edge.typ, id) in toIndex
    {
      var e := edge;
      if e.id == "" {
        e := e.(id := freshId);
      }
      edges := edges[e.id := e];
      fromIndex := fromIndex[FromKey(e) := e.id];
      toIndex := toIndex[ToKey(e) := e.id];
      if e.typ != "" {
        edgeTypeIndex := edgeTypeIndex[(e.typ, e.id) := e.id];
      }
    }

    method DeleteEdge(id: string)
      modifies this
      ensures Now() == DropEdge(old(Now()), id)
      ensures edges == old(edges) - {id}
      ensures id in old(edges) ==>
                var e := old(edges)[id];
                Key(e.from, e.typ, id) !in fromIndex && Key(e.to, e.typ, id) !in toIndex
    {
      if id !in edges {
        return;
      }
      var e := edges[id];
      edges := edges - {id};
      fromIndex := fromIndex - {Key(e.from, e.typ, id)};
      toIndex := toIndex - {Key(e.to, e.typ, id)};
      if e.typ != "" {
        edgeTypeIndex := edgeTypeIndex - {(e.typ, id)};
      }
    }

    method DeleteNode(id: string)
      modifies this
      ensures Now() == DropNode(old(Now()), id) && nodes == old(nodes) - {id}
    {
      nodes := nodes - {id};
      var outgoing := ScanIndexKeys(fromIndex, id);
      fromIndex := DeleteByPrefix(fromIndex, id);
      var incoming := ScanIndexKeys(toIndex, id);
      toIndex := DeleteByPrefix(toIndex, id);
      var edgeIds := outgoing + incoming;
      var seen: set<string> := {};
      for i := 0 to |edgeIds|
        invariant forall e :: e in seen <==> e in edgeIds[..i]
        invariant edges == old(edges) - seen
        invariant Now() == old(Now()).(nodes := nodes, edges := edges, fromIndex := fromIndex, toIndex := toIndex)
        invariant nodes == old(nodes) - {id}
        invariant fromIndex == old(fromIndex) - KeysUnder(old(fromIndex), id)
        invariant toIndex == old(toIndex) - KeysUnder(old(toIndex), id)
      {
        if edgeIds[i] in seen {
          continue;
        }
        seen := seen + {edgeIds[i]};
        edges := edges - {edgeIds[i]};
      }
      assert edgeIds[..|edgeIds|] == edgeIds;
      assert seen == FiledUnder(old(fromIndex), id) + FiledUnder(old(toIndex), id);
    }

    method GetNeighbors(nodeId: string, opts: Options) returns (found: seq<Node>, foundEdges: seq<Edge>)
      requires Indexed(Now())
      ensures exists ids :: Collected(Now(), opts, nodeId, ids) && found == NeighborsOf(Now(), opts, ids)
                            && foundEdges == EdgesOf(Now(), ids)
      ensures FoundNodes(Now(), opts, nodeId, found) && FoundEdges(Now(), opts, nodeId, foundEdges)
      ensures opts.limit > 0 ==> |foundEdges| <= opts.limit
      ensures opts.limit <= 0 ==> FoundAll(Now(), opts, nodeId, found, foundEdges)
    {
      var edgeIds := CollectEdgeIds(nodeId, opts);
      found, foundEdges := ReadNeighbors(edgeIds, opts);
      CollectedIsFound(Now(), opts, nodeId, edgeIds);
    }

    /** The loop over the collected edge IDs. */
    method ReadNeighbors(edgeIds: seq<string>, opts: Options) returns (found: seq<Node>, foundEdges: seq<Edge>)
      requires Indexed(Now())
      ensures found == NeighborsOf(Now(), opts, edgeIds) && foundEdges == EdgesOf(Now(), edgeIds)
    {
      ghost var s := Now();
      found, foundEdges := [], [];
      var seen: set<string> := {};
      for i := 0 to |edgeIds|
        invariant found == NeighborsOf(s, opts, edgeIds[..i]) && foundEdges == EdgesOf(s, edgeIds[..i])
        invariant forall id :: id in seen <==> HasId(found, id)
      {
        var id := edgeIds[i];
        assert edgeIds[..i + 1][..i] == edgeIds[..i];
        if id !in edges {
          continue;
        }
        var e := edges[id];
        foundEdges := foundEdges + [e];
        var neighborId := FarEnd(opts, e);
        if neighborId !in seen {
          if neighborId !in nodes {
            continue;
          }
          var n := nodes[neighborId];
          if opts.nodeTypes != [] && n.typ !in opts.nodeTypes {
            continue;
          }
          HasIdAppend(found, n);
          seen := seen + {neighborId};
          found := found + [n];
        }
      }
      assert edgeIds[..|edgeIds|] == edgeIds;
    }

    method CollectEdgeIds(nodeId: string, opts: Options) returns (ids: seq<string>)
      ensures Collected(Now(), opts, nodeId, ids)
    {
      var outgoing, incoming := [], [];
      if opts.direction != In {
        outgoing := ScanEdgePrefix(nodeId, opts, true);
      } else {
        NothingScanned(Now(), opts, nodeId, true);
      }
      if opts.direction == In || opts.direction == Both {
        incoming := ScanEdgePrefix(nodeId, opts, false);
      } else {
        NothingScanned(Now(), opts, nodeId, false);
      }
      BothScanned(Now(), opts, nodeId, outgoing, incoming);
      ids := outgoing + incoming;
      if opts.limit > 0 && |ids| > opts.limit {
        ids := ids[..opts.limit];
      }
    }

    method ScanEdgePrefix(nodeId: string, opts: Options, out: bool) returns (ids: seq<string>)
      requires ScansIndex(opts, out)
      ensures CanScan(Now(), opts, nodeId, out, ids)
    {
      var index := if out then fromIndex else toIndex;
      var keys := Listing(KeysUnder(index, nodeId));
      ids := [];
      ghost var kept: seq<Key> := [];
      for i := 0 to |keys|
        invariant Lists(kept, KeptKeys(Now(), opts, nodeId, out) * (set n | 0 <= n < i :: keys[n]))
        invariant |ids| == |kept| && forall n :: 0 <= n < |ids| ==> kept[n] in index && ids[n] == index[kept[n]]
      {
        var id := index[keys[i]];
        if |opts.edgeTypes| > 0 {
          if id !in edges {
            continue;
          }
          if edges[id].typ !in opts.edgeTypes {
            continue;
          }
        }
        ids := ids + [id];
        kept := kept + [keys[i]];
      }
      assert forall k :: k in KeptKeys(Now(), opts, nodeId, out) ==> k in keys;
      assert IsScan(Now(), opts, nodeId, out, kept, ids);
    }
  }

  method ScanIndexKeys(index: map<Key, string>, node: string) returns (ids: seq<string>)
    ensures forall id :: id in ids <==> id in FiledUnder(index, node)
  {
    var keys := Listing(KeysUnder(index, node));
    ids := [];
    for i := 0 to |keys|
      invariant forall id :: id in ids <==> id != "" && exists n :: 0 <= n < i && index[keys[n]] == id
    {
      if index[keys[i]] != "" {
        ids := ids + [index[keys[i]]];
      }
    }
    forall id | id in FiledUnder(index, node)
      ensures id in ids
    {
      var k :| k in index && k.node == node && index[k] != "" && index[k] == id;
      assert k in keys;
    }
  }

  method DeleteByPrefix(index: map<Key, string>, node: string) returns (rest: map<Key, string>)
    ensures rest == index - KeysUnder(index, node)
  {
    var keys := Listing(KeysUnder(index, node));
    rest := index;
    for i := 0 to |keys|
      invariant rest == index - (set n | 0 <= n < i :: keys[n])
    {
      rest := rest - {keys[i]};
    }
    assert (set n | 0 <= n < |keys| :: keys[n]) == KeysUnder(index, node);
  }
}

/**
 pkg/rdf/store.go: SPARQLSelect and SPARQLAsk, a nested-loop join over parsed triple patterns. The evaluator ties the
 variables ?s, ?p and ?o to the subject, predicate and object positions.

 Solutions are those of section 18.3 of SPARQL 1.1 Query Language, restricted to these three variables.
 */
module Sparql {
  import opened Wrappers
  import opened Scans
  import opened RdfStore

  /** A variable; only the first three are ever bound. */
  datatype Var = VarS | VarP | VarO | OtherVar(name: string)

  type Binding = map<Var, Term>

  /** What the parser produces: three positions, each a constant or a wildcard, and nothing else. */
  predicate Parsed(p: Pattern) {
    p.graph == "" && p.inferred.None? && p.limit == 0
  }

  ghost predicate AllParsed(patterns: seq<Pattern>) {
    forall i :: 0 <= i < |patterns| ==> Parsed(patterns[i])
  }

  function Lookup(b: Binding, v: Var, given: Option<Term>): Option<Term> {
    if given.None? && v in b then Some(b[v]) else given
  }

  /** The pattern with bound variables filled in. */
  function Resolve(p: Pattern, b: Binding): Pattern {
    p.(subj := Lookup(b, VarS, p.subj), pred := Lookup(b, VarP, p.pred), obj := Lookup(b, VarO, p.obj))
  }

  /** The wildcard positions of p take their terms from t, whether or not they were bound before. */
  function Bind(b: Binding, p: Pattern, t: Triple): Binding {
    var b1 := if p.subj.None? then b[VarS := t.subj] else b;
    var b2 := if p.pred.None? then b1[VarP := t.pred] else b1;
    if p.obj.None? then b2[VarO := t.obj] else b2
  }

  // ----- Solutions -----

  const POSITIONS: set<Var> := {VarS, VarP, VarO}

  function At(t: Triple, v: Var): Term {
    match v
    case VarS => t.subj
    case VarP => t.pred
    case _ => t.obj
  }

  function Slot(p: Pattern, v: Var): Option<Term> {
    match v
    case VarS => p.subj
    case VarP => p.pred
    case _ => p.obj
  }

  ghost function Variables(p: Pattern): set<Var> {
    set v | v in POSITIONS && Slot(p, v).None?
  }

  ghost function AllVariables(patterns: seq<Pattern>): set<Var> {
    set p, v | p in patterns && v in Variables(p) :: v
  }

  ghost predicate Fits(p: Pattern, b: Binding, t: Triple, v: Var) {
    if Slot(p, v).None? then v in b && At(t, v) == b[v] else TermsEqual(At(t, v), Slot(p, v).value)
  }

  /** t is the instance of p under b: wildcards stand for exactly the bound terms, constants are compared by kind and
      value as the store does. */
  ghost predicate Instance(p: Pattern, b: Binding, t: Triple) {
    forall v :: v in POSITIONS ==> Fits(p, b, t, v)
  }

  ghost predicate Holds(s: State, p: Pattern, b: Binding) {
    exists id :: id in s.triples && Instance(p, b, s.triples[id])
  }

  /** b assigns the variables of the patterns so that every pattern has an instance in the store. */
  ghost predicate Solution(s: State, patterns: seq<Pattern>, b: Binding) {
    b.Keys == AllVariables(patterns) && forall p :: p in patterns ==> Holds(s, p, b)
  }

  /** The order of the patterns, and repetitions, do not matter. */
  lemma OrderDoesNotMatter(s: State, ps: seq<Pattern>, qs: seq<Pattern>, b: Binding)
    requires forall p :: p in ps <==> p in qs
    ensures Solution(s, ps, b) <==> Solution(s, qs, b)
  {
    assert AllVariables(ps) == AllVariables(qs);
  }

  // ----- Solutions up to datatypes and language tags -----

  ghost predicate LooselyFits(p: Pattern, b: Binding, t: Triple, v: Var) {
    if Slot(p, v).None? then v in b && TermsEqual(At(t, v), b[v]) else TermsEqual(At(t, v), Slot(p, v).value)
  }

  /** t is an instance of p under b when terms are compared by kind and value throughout, as the store does. */
  ghost predicate LooseInstance(p: Pattern, b: Binding, t: Triple) {
    LooselyFits(p, b, t, VarS) && LooselyFits(p, b, t, VarP) && LooselyFits(p, b, t, VarO)
  }

  ghost predicate LooselyHolds(s: State, p: Pattern, b: Binding) {
    exists id :: id in s.triples && LooseInstance(p, b, s.triples[id])
  }

  ghost predicate LooseSolution(s: State, patterns: seq<Pattern>, b: Binding) {
    b.Keys == AllVariables(patterns) && forall p :: p in patterns ==> LooselyHolds(s, p, b)
  }

  /** x binds what b binds, to terms of the same kind and value. */
  ghost predicate LooselyAgree(b: Binding, x: Binding) {
    forall v :: v in b ==> v in x && TermsEqual(x[v], b[v])
  }

  // ----- Stores on which the join is exact -----

  /** In each position, terms that count as equal are equal. */
  ghost predicate CrispAt(s: State, v: Var) {
    forall i, j :: i in s.triples && j in s.triples && TermsEqual(At(s.triples[i], v), At(s.triples[j], v)) ==>
      At(s.triples[i], v) == At(s.triples[j], v)
  }

  /** Objects have index keys and no language. */
  ghost predicate Keyed(s: State) {
    forall id :: id in s.triples ==> HasObjectKey(s.triples[id].obj) && s.triples[id].obj.language == ""
  }

  /** And IDs are generated. */
  ghost predicate Plain(s: State) {
    Keyed(s) && forall id :: id in s.triples ==> id == HashTriple(s.triples[id])
  }

  ghost predicate Crisp(s: State) {
    Filed(s) && Plain(s) && forall v :: v in POSITIONS ==> CrispAt(s, v)
  }

  ghost predicate PlainPattern(p: Pattern) {
    Parsed(p) && (p.obj.Some? ==> p.obj.value.language == "")
  }

  /** Some triple has this term in the position of the variable. */
  ghost predicate Occurs(s: State, v: Var, t: Term) {
    v in POSITIONS && exists id :: id in s.triples && At(s.triples[id], v) == t
  }

  ghost predicate FromStore(s: State, b: Binding) {
    forall v :: v in b ==> Occurs(s, v, b[v])
  }

  lemma SolutionsComeFromStore(s: State, patterns: seq<Pattern>, b: Binding)
    requires Solution(s, patterns, b)
    ensures FromStore(s, b)
  {
    forall v | v in b
      ensures Occurs(s, v, b[v])
    {
      var p :| p in patterns && v in Variables(p);
      assert Holds(s, p, b);
      var id :| id in s.triples && Instance(p, b, s.triples[id]);
      assert Fits(p, b, s.triples[id], v);
    }
  }

  lemma PlainObjectQuery(s: State, q: Pattern)
    requires Filed(s) && Keyed(s) && UsesObjects(q) && q.obj.value.language == ""
    ensures Answer(s, q) == FullScan(s, q)
  {
    ObjectIndexExactly(s, q);
  }

  lemma PlainQueryIsScan(s: State, q: Pattern)
    requires Filed(s) && Keyed(s) && (q.obj.Some? ==> q.obj.value.language == "")
    ensures Answer(s, q) == FullScan(s, q)
  {
    if UsesObjects(q) {
      PlainObjectQuery(s, q);
    } else {
      IndexAgreesWithScan(s, q);
    }
  }

  /** On a store of keyed objects, a query for the resolved pattern finds all its matches. */
  lemma ResolvedQuery(s: State, p: Pattern, b: Binding)
    requires Filed(s) && Keyed(s) && PlainPattern(p) && FromStore(s, b)
    ensures Answer(s, Resolve(p, b)) == FullScan(s, Resolve(p, b))
  {
    if p.obj.None? && VarO in b {
      assert Occurs(s, VarO, b[VarO]);
    }
    PlainQueryIsScan(s, Resolve(p, b));
  }

  // ----- One step of the join -----

  lemma BindSlots(b: Binding, p: Pattern, t: Triple)
    ensures Bind(b, p, t).Keys == b.Keys + Variables(p)
    ensures forall v :: v in Variables(p) ==> Bind(b, p, t)[v] == At(t, v)
    ensures forall v :: v in b && v !in Variables(p) ==> Bind(b, p, t)[v] == b[v]
  {
  }

  lemma ResolveSlots(p: Pattern, b: Binding, t: Triple)
    requires Parsed(p)
    ensures Matches(t, Resolve(p, b)) <==>
            forall v :: v in POSITIONS ==>
              if Slot(p, v).Some? then TermsEqual(At(t, v), Slot(p, v).value) else v in b ==> TermsEqual(At(t, v), b[v])
  {
    assert VarS in POSITIONS && VarP in POSITIONS && VarO in POSITIONS;
    assert Slot(p, VarS) == p.subj && Slot(p, VarP) == p.pred && Slot(p, VarO) == p.obj;
  }

  /** x extends b by one match of p. */
  ghost predicate Extends(s: State, p: Pattern, b: Binding, x: Binding) {
    exists id :: id in Answer(s, Resolve(p, b)) && x == Bind(b, p, s.triples[id])
  }

  ghost predicate Agree(b: Binding, x: Binding) {
    b.Keys <= x.Keys && forall v :: v in b ==> x[v] == b[v]
  }

  /** A match never rebinds a variable to another term. */
  lemma MatchAgrees(s: State, p: Pattern, b: Binding, id: TripleId)
    requires Crisp(s) && Parsed(p) && FromStore(s, b) && id in FullScan(s, Resolve(p, b))
    ensures Agree(b, Bind(b, p, s.triples[id])) && Instance(p, Bind(b, p, s.triples[id]), s.triples[id])
  {
    var t := s.triples[id];
    var x := Bind(b, p, t);
    BindSlots(b, p, t);
    ResolveSlots(p, b, t);
    forall v | v in b
      ensures x[v] == b[v]
    {
      assert Occurs(s, v, b[v]) && CrispAt(s, v);
    }
    forall v | v in POSITIONS
      ensures Fits(p, x, t, v)
    {
      assert Slot(p, v).None? ==> v in Variables(p);
    }
  }

  lemma InstanceMatches(s: State, p: Pattern, b: Binding, x: Binding, id: TripleId)
    requires Parsed(p) && id in s.triples && Instance(p, x, s.triples[id])
    requires Agree(b, x) && x.Keys == b.Keys + Variables(p)
    ensures id in FullScan(s, Resolve(p, b)) && Bind(b, p, s.triples[id]) == x
  {
    var t := s.triples[id];
    BindSlots(b, p, t);
    ResolveSlots(p, b, t);
    assert forall v :: v in POSITIONS ==> Fits(p, x, t, v);
  }

  lemma AllVariablesStep(patterns: seq<Pattern>, p: Pattern)
    ensures AllVariables(patterns + [p]) == AllVariables(patterns) + Variables(p)
  {
    var longer := patterns + [p];
    assert p in longer && forall q :: q in longer <==> q in patterns || q == p;
  }

  lemma HoldsUnderMore(s: State, patterns: seq<Pattern>, p: Pattern, b: Binding, x: Binding)
    requires Agree(b, x) && b.Keys == AllVariables(patterns) && p in patterns
    ensures Holds(s, p, b) <==> Holds(s, p, x)
  {
    assert Variables(p) <= b.Keys;
    forall id | id in s.triples
      ensures Instance(p, b, s.triples[id]) <==> Instance(p, x, s.triples[id])
    {
      assert forall v :: v in POSITIONS && Slot(p, v).None? ==> v in Variables(p);
      assert forall v :: v in POSITIONS ==> (Fits(p, b, s.triples[id], v) <==> Fits(p, x, s.triples[id], v));
    }
  }

  lemma ExtensionAgrees(s: State, p: Pattern, b: Binding, x: Binding)
    requires Crisp(s) && PlainPattern(p) && FromStore(s, b) && Extends(s, p, b, x)
    ensures Holds(s, p, x) && Agree(b, x) && x.Keys == b.Keys + Variables(p)
  {
    ResolvedQuery(s, p, b);
    var id :| id in Answer(s, Resolve(p, b)) && x == Bind(b, p, s.triples[id]);
    MatchAgrees(s, p, b, id);
    BindSlots(b, p, s.triples[id]);
  }

  lemma AgreeingIsSolution(s: State, patterns: seq<Pattern>, p: Pattern, b: Binding, x: Binding)
    requires Solution(s, patterns, b) && Holds(s, p, x) && Agree(b, x) && x.Keys == b.Keys + Variables(p)
    ensures Solution(s, patterns + [p], x)
  {
    AllVariablesStep(patterns, p);
    forall q | q in patterns
      ensures Holds(s, q, x)
    {
      HoldsUnderMore(s, patterns, q, b, x);
    }
  }

  lemma ExtensionIsSolution(s: State, patterns: seq<Pattern>, p: Pattern, b: Binding, x: Binding)
    requires Crisp(s) && PlainPattern(p) && Solution(s, patterns, b) && Extends(s, p, b, x)
    ensures Solution(s, patterns + [p], x)
  {
    SolutionsComeFromStore(s, patterns, b);
    ExtensionAgrees(s, p, b, x);
    AgreeingIsSolution(s, patterns, p, b, x);
  }

  /** The part of x that the first patterns bind. */
  ghost function Restrict(x: Binding, vars: set<Var>): Binding {
    map v | v in x && v in vars :: x[v]
  }

  lemma RestrictIsSolution(s: State, patterns: seq<Pattern>, p: Pattern, x: Binding)
    requires Solution(s, patterns + [p], x)
    ensures Solution(s, patterns, Restrict(x, AllVariables(patterns))) && Holds(s, p, x)
    ensures x.Keys == AllVariables(patterns) + Variables(p)
  {
    var longer := patterns + [p];
    assert p in longer && forall q :: q in patterns ==> q in longer;
    AllVariablesStep(patterns, p);
    var b := Restrict(x, AllVariables(patterns));
    forall q | q in patterns
      ensures Holds(s, q, b)
    {
      HoldsUnderMore(s, patterns, q, b, x);
    }
  }

  lemma SolutionIsExtension(s: State, patterns: seq<Pattern>, p: Pattern, x: Binding)
    requires Crisp(s) && PlainPattern(p) && Solution(s, patterns + [p], x)
    ensures
      var b := Restrict(x, AllVariables(patterns));
      Solution(s, patterns, b) && Extends(s, p, b, x)
  {
    RestrictIsSolution(s, patterns, p, x);
    var b := Restrict(x, AllVariables(patterns));
    SolutionsComeFromStore(s, patterns, b);
    ResolvedQuery(s, p, b);
    var id :| id in s.triples && Instance(p, x, s.triples[id]);
    InstanceMatches(s, p, b, x, id);
  }

  lemma SameInstance(s: State, p: Pattern, x: Binding, i: TripleId, j: TripleId)
    requires Crisp(s) && i in s.triples && j in s.triples
    requires Instance(p, x, s.triples[i]) && Instance(p, x, s.triples[j])
    ensures i == j
  {
    var t, u := s.triples[i], s.triples[j];
    forall v | v in POSITIONS
      ensures At(t, v) == At(u, v)
    {
      assert Fits(p, x, t, v) && Fits(p, x, u, v) && CrispAt(s, v);
    }
    assert At(t, VarS) == At(u, VarS) && At(t, VarP) == At(u, VarP) && At(t, VarO) == At(u, VarO);
    assert HashTriple(t) == HashTriple(u);
  }

  lemma SameOrigin(s: State, p: Pattern, b: Binding, c: Binding, i: TripleId, j: TripleId)
    requires Crisp(s) && Parsed(p) && FromStore(s, b) && FromStore(s, c) && b.Keys == c.Keys
    requires i in FullScan(s, Resolve(p, b)) && j in FullScan(s, Resolve(p, c))
    requires Bind(b, p, s.triples[i]) == Bind(c, p, s.triples[j])
    ensures b == c && i == j
  {
    MatchAgrees(s, p, b, i);
    MatchAgrees(s, p, c, j);
    SameInstance(s, p, Bind(b, p, s.triples[i]), i, j);
  }

  lemma OriginUnique(s: State, patterns: seq<Pattern>, p: Pattern, b: Binding, c: Binding, i: TripleId, j: TripleId)
    requires Crisp(s) && PlainPattern(p) && Solution(s, patterns, b) && Solution(s, patterns, c)
    requires i in Answer(s, Resolve(p, b)) && j in Answer(s, Resolve(p, c))
    requires Bind(b, p, s.triples[i]) == Bind(c, p, s.triples[j])
    ensures b == c && i == j
  {
    SolutionsComeFromStore(s, patterns, b);
    SolutionsComeFromStore(s, patterns, c);
    ResolvedQuery(s, p, b);
    ResolvedQuery(s, p, c);
    SameOrigin(s, p, b, c, i, j);
  }

  // ----- What the evaluator computes in any store -----

  /** x extends the empty row by a match of each pattern in turn. */
  ghost predicate Chain(s: State, patterns: seq<Pattern>, x: Binding) {
    if patterns == [] then x == map[]
    else
      var front, p := patterns[..|patterns| - 1], patterns[|patterns| - 1];
      exists b :: Chain(s, front, b) && Extends(s, p, b, x)
  }

  ghost predicate AllChains(s: State, patterns: seq<Pattern>, rows: seq<Binding>) {
    forall x :: x in rows <==> Chain(s, patterns, x)
  }

  /** next holds the extensions of the bindings. */
  ghost predicate AllExtensions(s: State, p: Pattern, bindings: seq<Binding>, next: seq<Binding>) {
    forall x :: x in next <==> exists n :: 0 <= n < |bindings| && Extends(s, p, bindings[n], x)
  }

  lemma ChainsExtend(s: State, before: seq<Pattern>, p: Pattern, bindings: seq<Binding>, next: seq<Binding>)
    requires AllChains(s, before, bindings) && AllExtensions(s, p, bindings, next)
    ensures AllChains(s, before + [p], next)
  {
    var longer := before + [p];
    assert longer[..|longer| - 1] == before;
    forall x
      ensures x in next <==> Chain(s, longer, x)
    {
      if n :| 0 <= n < |bindings| && Extends(s, p, bindings[n], x) {
        assert bindings[n] in bindings;
      }
      if Chain(s, longer, x) {
        var b :| Chain(s, before, b) && Extends(s, p, b, x);
        assert b in bindings;
      }
    }
  }

  lemma MatchIsLooseInstance(p: Pattern, b: Binding, t: Triple)
    requires Parsed(p) && Matches(t, Resolve(p, b))
    ensures LooseInstance(p, Bind(b, p, t), t) && LooselyAgree(b, Bind(b, p, t))
  {
  }

  lemma ExtensionLooselyAgrees(s: State, p: Pattern, b: Binding, x: Binding)
    requires Parsed(p) && Extends(s, p, b, x)
    ensures LooselyHolds(s, p, x) && LooselyAgree(b, x) && x.Keys == b.Keys + Variables(p)
  {
    var id :| id in Answer(s, Resolve(p, b)) && x == Bind(b, p, s.triples[id]);
    MatchIsLooseInstance(p, b, s.triples[id]);
    BindSlots(b, p, s.triples[id]);
  }

  lemma LooselyHoldsUnderMore(s: State, p: Pattern, b: Binding, x: Binding)
    requires LooselyHolds(s, p, b) && LooselyAgree(b, x)
    ensures LooselyHolds(s, p, x)
  {
    var id :| id in s.triples && LooseInstance(p, b, s.triples[id]);
    assert LooseInstance(p, x, s.triples[id]);
  }

  lemma LastLink(s: State, patterns: seq<Pattern>, x: Binding) returns (b: Binding)
    requires patterns != [] && Chain(s, patterns, x)
    ensures Chain(s, patterns[..|patterns| - 1], b) && Extends(s, patterns[|patterns| - 1], b, x)
  {
    b :| Chain(s, patterns[..|patterns| - 1], b) && Extends(s, patterns[|patterns| - 1], b, x);
  }

  /** Main result: in any store, every row assigns the variables so that each pattern has an instance in the store, up
      to datatypes and language tags. */
  lemma {:induction false} ChainIsLooseSolution(s: State, patterns: seq<Pattern>, x: Binding)
    requires Chain(s, patterns, x) && AllParsed(patterns)
    ensures LooseSolution(s, patterns, x)
    decreases |patterns|
  {
    if patterns != [] {
      var b := LastLink(s, patterns, x);
      var front, p := patterns[..|patterns| - 1], patterns[|patterns| - 1];
      ChainIsLooseSolution(s, front, b);
      LooseSolutionExtends(s, front, p, b, x);
      assert patterns == front + [p];
    }
  }

  lemma LooseSolutionExtends(s: State, patterns: seq<Pattern>, p: Pattern, b: Binding, x: Binding)
    requires LooseSolution(s, patterns, b) && Parsed(p) && Extends(s, p, b, x)
    ensures LooseSolution(s, patterns + [p], x)
  {
    ExtensionLooselyAgrees(s, p, b, x);
    AllVariablesStep(patterns, p);
    forall q | q in patterns
      ensures LooselyHolds(s, q, x)
    {
      LooselyHoldsUnderMore(s, q, b, x);
    }
  }

  lemma {:induction false} ChainFromStore(s: State, patterns: seq<Pattern>, x: Binding)
    requires Chain(s, patterns, x)
    ensures FromStore(s, x)
    decreases |patterns|
  {
    if patterns != [] {
      var b := LastLink(s, patterns, x);
      ChainFromStore(s, patterns[..|patterns| - 1], b);
      ExtensionFromStore(s, patterns[|patterns| - 1], b, x);
    }
  }

  lemma ExtensionFromStore(s: State, p: Pattern, b: Binding, x: Binding)
    requires FromStore(s, b) && Extends(s, p, b, x)
    ensures FromStore(s, x)
  {
    var id :| id in Answer(s, Resolve(p, b)) && x == Bind(b, p, s.triples[id]);
    BindSlots(b, p, s.triples[id]);
    forall v | v in x
      ensures Occurs(s, v, x[v])
    {
      assert v in Variables(p) ==> x[v] == At(s.triples[id], v);
    }
  }

  /** The part of a loose solution that the first patterns bind is one of theirs. */
  lemma RestrictIsLooseSolution(s: State, patterns: seq<Pattern>, p: Pattern, x: Binding)
    requires LooseSolution(s, patterns + [p], x)
    ensures LooseSolution(s, patterns, Restrict(x, AllVariables(patterns))) && LooselyHolds(s, p, x)
    ensures x.Keys == AllVariables(patterns) + Variables(p)
  {
    var longer := patterns + [p];
    assert p in longer && forall q :: q in patterns ==> q in longer;
    AllVariablesStep(patterns, p);
    var b := Restrict(x, AllVariables(patterns));
    forall q | q in patterns
      ensures LooselyHolds(s, q, b)
    {
      assert Variables(q) <= AllVariables(patterns);
      var id :| id in s.triples && LooseInstance(q, x, s.triples[id]);
      assert LooseInstance(q, b, s.triples[id]);
    }
  }

  lemma LooseInstanceMatches(p: Pattern, b: Binding, x: Binding, t: Triple)
    requires Parsed(p) && LooseInstance(p, x, t) && LooselyAgree(b, x)
    ensures Matches(t, Resolve(p, b))
  {
  }

  lemma LooseInstanceBinds(p: Pattern, b: Binding, x: Binding, t: Triple)
    requires LooseInstance(p, x, t) && LooselyAgree(b, x) && x.Keys == b.Keys + Variables(p)
    ensures Bind(b, p, t).Keys == x.Keys && LooselyAgree(Bind(b, p, t), x)
  {
    BindSlots(b, p, t);
    forall v | v in x
      ensures TermsEqual(x[v], Bind(b, p, t)[v])
    {
      assert v in Variables(p) ==> Bind(b, p, t)[v] == At(t, v);
    }
  }

  /** A loose instance of p under x extends every row that agrees with x on what it binds. */
  lemma LooseInstanceExtends(s: State, p: Pattern, b: Binding, x: Binding) returns (y: Binding)
    requires Filed(s) && Keyed(s) && PlainPattern(p) && FromStore(s, b) && LooselyHolds(s, p, x) && LooselyAgree(b, x)
    requires x.Keys == b.Keys + Variables(p)
    ensures Extends(s, p, b, y) && y.Keys == x.Keys && LooselyAgree(y, x)
  {
    var id :| id in s.triples && LooseInstance(p, x, s.triples[id]);
    LooseInstanceMatches(p, b, x, s.triples[id]);
    LooseInstanceBinds(p, b, x, s.triples[id]);
    ResolvedQuery(s, p, b);
    y := Bind(b, p, s.triples[id]);
  }

  /** Main result: where every object has an index key and no language, every such assignment is the row of some chain,
      up to datatypes and language tags. */
  lemma {:induction false} LooseSolutionIsChain(s: State, patterns: seq<Pattern>, x: Binding) returns (y: Binding)
    requires Filed(s) && Keyed(s) && LooseSolution(s, patterns, x) && forall p :: p in patterns ==> PlainPattern(p)
    ensures Chain(s, patterns, y) && y.Keys == x.Keys && LooselyAgree(y, x)
    decreases |patterns|
  {
    if patterns == [] {
      y := map[];
    } else {
      var front, p := patterns[..|patterns| - 1], patterns[|patterns| - 1];
      assert patterns == front + [p] && p in patterns;
      RestrictIsLooseSolution(s, front, p, x);
      var b := LooseSolutionIsChain(s, front, Restrict(x, AllVariables(front)));
      ChainFromStore(s, front, b);
      y := LooseInstanceExtends(s, p, b, x);
    }
  }

  // ----- The evaluator -----

  ghost predicate AllSolutions(s: State, patterns: seq<Pattern>, rows: seq<Binding>) {
    Distinct(rows) && forall b :: b in rows <==> Solution(s, patterns, b)
  }

  /** rows are the extensions of b by the listed triples, in order. */
  ghost predicate RowsOf(b: Binding, p: Pattern, triples: seq<Triple>, rows: seq<Binding>) {
    |rows| == |triples| && forall n :: 0 <= n < |rows| ==> rows[n] == Bind(b, p, triples[n])
  }

  lemma RowsDiffer(s: State, before: seq<Pattern>, p: Pattern, b: Binding, triples: seq<Triple>, rows: seq<Binding>)
    requires Crisp(s) && PlainPattern(p) && Solution(s, before, b)
    requires Returns(s, Answer(s, Resolve(p, b)), 0, triples) && RowsOf(b, p, triples, rows)
    ensures Distinct(rows)
  {
    forall m, n | 0 <= m < n < |rows|
      ensures rows[m] != rows[n]
    {
      if rows[m] == rows[n] {
        OriginUnique(s, before, p, b, b, triples[m].id, triples[n].id);
      }
    }
  }

  lemma RowsAreExtensions(s: State, p: Pattern, b: Binding, triples: seq<Triple>, rows: seq<Binding>)
    requires Returns(s, Answer(s, Resolve(p, b)), 0, triples) && RowsOf(b, p, triples, rows)
    ensures forall x :: x in rows <==> Extends(s, p, b, x)
  {
    forall x | Extends(s, p, b, x)
      ensures x in rows
    {
      var id :| id in Answer(s, Resolve(p, b)) && x == Bind(b, p, s.triples[id]);
      var n :| 0 <= n < |triples| && triples[n].id == id;
      assert rows[n] == x;
    }
    forall x | x in rows
      ensures Extends(s, p, b, x)
    {
      var n :| 0 <= n < |rows| && rows[n] == x;
      assert triples[n].id in Answer(s, Resolve(p, b));
    }
  }

  method ExtendRow(store: Store, ghost before: seq<Pattern>, p: Pattern, b: Binding) returns (rows: seq<Binding>)
    requires Filed(store.Now()) && Parsed(p)
    ensures forall x :: x in rows <==> Extends(store.Now(), p, b, x)
    ensures Crisp(store.Now()) && PlainPattern(p) && Solution(store.Now(), before, b) ==> Distinct(rows)
  {
    ghost var s := store.Now();
    var triples := store.Query(Resolve(p, b));
    rows := BindAll(b, p, triples);
    RowsAreExtensions(s, p, b, triples, rows);
    if Crisp(s) && PlainPattern(p) && Solution(s, before, b) {
      RowsDiffer(s, before, p, b, triples, rows);
    }
  }

  method BindAll(b: Binding, p: Pattern, triples: seq<Triple>) returns (rows: seq<Binding>)
    ensures RowsOf(b, p, triples, rows)
  {
    rows := [];
    for k := 0 to |triples|
      invariant |rows| == k && forall n :: 0 <= n < k ==> rows[n] == Bind(b, p, triples[n])
    {
      rows := rows + [Bind(b, p, triples[k])];
    }
  }

  /** The first i bindings have been extended. */
  ghost predicate ExtendedUpTo(s: State, p: Pattern, bindings: seq<Binding>, i: nat, next: seq<Binding>) {
    i <= |bindings| && forall x :: x in next <==> exists n :: 0 <= n < i && Extends(s, p, bindings[n], x)
  }

  lemma ExtendedOneMore(s: State, p: Pattern, bindings: seq<Binding>, i: nat, next: seq<Binding>, rows: seq<Binding>)
    requires ExtendedUpTo(s, p, bindings, i, next) && i < |bindings|
    requires forall x :: x in rows <==> Extends(s, p, bindings[i], x)
    ensures ExtendedUpTo(s, p, bindings, i + 1, next + rows)
  {
    forall x
      ensures x in next + rows <==> exists n :: 0 <= n < i + 1 && Extends(s, p, bindings[n], x)
    {
      assert x in next + rows <==> x in next || x in rows;
    }
  }

  lemma AppendDistinct(s: State, before: seq<Pattern>, p: Pattern, bindings: seq<Binding>, i: nat, next: seq<Binding>,
                       rows: seq<Binding>)
    requires Crisp(s) && PlainPattern(p) && AllSolutions(s, before, bindings) && i < |bindings|
    requires Distinct(next) && ExtendedUpTo(s, p, bindings, i, next)
    requires Distinct(rows) && forall x :: x in rows <==> Extends(s, p, bindings[i], x)
    ensures Distinct(next + rows)
  {
    var all := next + rows;
    forall m, n | 0 <= m < n < |all|
      ensures all[m] != all[n]
    {
      if m < |next| <= n && all[m] == all[n] {
        assert all[m] in next && all[n] in rows;
        var k :| 0 <= k < i && Extends(s, p, bindings[k], all[m]);
        assert bindings[k] in bindings && bindings[i] in bindings;
        DifferentOrigins(s, before, p, bindings[k], bindings[i], all[m]);
      }
    }
  }

  lemma JoinIsComplete(s: State, before: seq<Pattern>, p: Pattern, bindings: seq<Binding>, next: seq<Binding>)
    requires Crisp(s) && PlainPattern(p) && AllSolutions(s, before, bindings)
    requires Distinct(next) && AllExtensions(s, p, bindings, next)
    ensures AllSolutions(s, before + [p], next)
  {
    forall x
      ensures x in next <==> Solution(s, before + [p], x)
    {
      if x in next {
        var n :| 0 <= n < |bindings| && Extends(s, p, bindings[n], x);
        assert bindings[n] in bindings;
        ExtensionIsSolution(s, before, p, bindings[n], x);
      }
      if Solution(s, before + [p], x) {
        SolutionIsExtension(s, before, p, x);
        assert Restrict(x, AllVariables(before)) in bindings;
      }
    }
  }

  /** In any store, the extensions of the bindings; on a crisp store, solutions are extended to solutions. */
  method JoinOne(store: Store, ghost before: seq<Pattern>, p: Pattern, bindings: seq<Binding>)
    returns (next: seq<Binding>)
    requires Filed(store.Now()) && Parsed(p)
    ensures AllExtensions(store.Now(), p, bindings, next)
    ensures Crisp(store.Now()) && PlainPattern(p) && AllSolutions(store.Now(), before, bindings) ==>
              AllSolutions(store.Now(), before + [p], next)
  {
    ghost var s := store.Now();
    ghost var exact := Crisp(s) && PlainPattern(p) && AllSolutions(s, before, bindings);
    next := [];
    for i := 0 to |bindings|
      invariant ExtendedUpTo(s, p, bindings, i, next)
      invariant exact ==> Distinct(next)
    {
      assert bindings[i] in bindings;
      var rows := ExtendRow(store, before, p, bindings[i]);
      ExtendedOneMore(s, p, bindings, i, next, rows);
      if exact {
        AppendDistinct(s, before, p, bindings, i, next, rows);
      }
      next := next + rows;
    }
    if exact {
      JoinIsComplete(s, before, p, bindings, next);
    }
  }

  lemma DifferentOrigins(s: State, patterns: seq<Pattern>, p: Pattern, b: Binding, c: Binding, x: Binding)
    requires Crisp(s) && PlainPattern(p) && Solution(s, patterns, b) && Solution(s, patterns, c)
    requires Extends(s, p, b, x) && Extends(s, p, c, x)
    ensures b == c
  {
    var i :| i in Answer(s, Resolve(p, b)) && x == Bind(b, p, s.triples[i]);
    var j :| j in Answer(s, Resolve(p, c)) && x == Bind(c, p, s.triples[j]);
    OriginUnique(s, patterns, p, b, c, i, j);
  }

  function Project(b: Binding, variables: seq<Var>): Binding {
    map v | v in b && v in variables :: b[v]
  }

  /** row binds what b binds of the requested variables, of all variables if none is requested, to the same terms. */
  ghost predicate Restricts(row: Binding, b: Binding, variables: seq<Var>) {
    && (forall v :: v in row <==> v in b && (variables == [] || v in variables))
    && (forall v :: v in row ==> row[v] == b[v])
  }

  ghost predicate Shows(full: seq<Binding>, variables: seq<Var>, rows: seq<Binding>) {
    |rows| == |full| && forall i :: 0 <= i < |rows| ==> Restricts(rows[i], full[i], variables)
  }

  /** A row is shown exactly when some solution agrees with it on the requested variables. */
  ghost predicate ShowsSolutions(s: State, patterns: seq<Pattern>, variables: seq<Var>, rows: seq<Binding>) {
    forall row :: row in rows <==> exists b :: Solution(s, patterns, b) && Restricts(row, b, variables)
  }

  lemma RestrictionIsUnique(row: Binding, other: Binding, b: Binding, variables: seq<Var>)
    requires Restricts(row, b, variables) && Restricts(other, b, variables)
    ensures row == other
  {
  }

  lemma SolutionsAreShown(s: State, patterns: seq<Pattern>, full: seq<Binding>, variables: seq<Var>,
                          rows: seq<Binding>)
    requires AllSolutions(s, patterns, full) && Shows(full, variables, rows)
    ensures ShowsSolutions(s, patterns, variables, rows)
  {
    hide Solution, Restricts;
    forall row
      ensures row in rows ==> exists b :: Solution(s, patterns, b) && Restricts(row, b, variables)
      ensures (exists b :: Solution(s, patterns, b) && Restricts(row, b, variables)) ==> row in rows
    {
      if row in rows {
        var i :| 0 <= i < |rows| && rows[i] == row;
        assert Solution(s, patterns, full[i]) && Restricts(row, full[i], variables);
      }
      if b :| Solution(s, patterns, b) && Restricts(row, b, variables) {
        var i :| 0 <= i < |full| && full[i] == b;
        RestrictionIsUnique(row, rows[i], b, variables);
      }
    }
  }

  /** Without requested variables every row is shown as it is. */
  lemma ShowsAll(full: seq<Binding>, rows: seq<Binding>)
    requires Shows(full, [], rows)
    ensures rows == full
  {
    forall i | 0 <= i < |rows|
      ensures rows[i] == full[i]
    {
      assert Restricts(full[i], full[i], []);
      RestrictionIsUnique(rows[i], full[i], full[i], []);
    }
  }

  ghost predicate AllPlain(patterns: seq<Pattern>) {
    forall p :: p in patterns ==> PlainPattern(p)
  }

  /** full holds all chains, and on a crisp store it holds exactly the solutions, each once. */
  ghost predicate IsResult(s: State, patterns: seq<Pattern>, full: seq<Binding>) {
    AllChains(s, patterns, full) && (Crisp(s) && AllPlain(patterns) ==> AllSolutions(s, patterns, full))
  }

  /** Main result: before projection, the rows are exactly the chains of matches; they are exactly the solutions, each
      once, on a crisp store, where a row is shown exactly when some solution agrees with it on the requested variables.
      A query without patterns has no rows. */
  method Select(store: Store, patterns: seq<Pattern>, variables: seq<Var>) returns (rows: seq<Binding>)
    requires Filed(store.Now()) && AllParsed(patterns)
    ensures patterns == [] ==> rows == []
    ensures patterns != [] ==> exists full :: IsResult(store.Now(), patterns, full) && Shows(full, variables, rows)
    ensures patterns != [] && variables == [] ==> IsResult(store.Now(), patterns, rows)
    ensures variables != [] ==> forall i, v :: 0 <= i < |rows| && v in rows[i] ==> v in variables
    ensures patterns != [] && Crisp(store.Now()) && AllPlain(patterns) ==>
              ShowsSolutions(store.Now(), patterns, variables, rows)
  {
    if |patterns| == 0 {
      return [];
    }
    ghost var s := store.Now();
    var bindings: seq<Binding> := [map[]];
    NoPatterns(s, bindings);
    for i := 0 to |patterns|
      invariant IsResult(s, patterns[..i], bindings)
    {
      assert patterns[i] in patterns && patterns[..i + 1] == patterns[..i] + [patterns[i]];
      ghost var before := bindings;
      bindings := JoinOne(store, patterns[..i], patterns[i], bindings);
      NextResult(s, patterns[..i], patterns[i], before, bindings);
    }
    assert patterns[..|patterns|] == patterns;
    rows := bindings;
    if |variables| > 0 {
      rows := seq(|bindings|, i requires 0 <= i < |bindings| => Project(bindings[i], variables));
    }
    hide Solution;
    assert Shows(bindings, variables, rows);
    if variables == [] {
      ShowsAll(bindings, rows);
    }
    if Crisp(s) && AllPlain(patterns) {
      SolutionsAreShown(s, patterns, bindings, variables, rows);
    }
  }

  lemma NoPatterns(s: State, rows: seq<Binding>)
    requires rows == [map[]]
    ensures IsResult(s, [], rows)
  {
  }

  lemma NextResult(s: State, before: seq<Pattern>, p: Pattern, bindings: seq<Binding>, next: seq<Binding>)
    requires IsResult(s, before, bindings) && AllExtensions(s, p, bindings, next)
    requires Crisp(s) && PlainPattern(p) && AllSolutions(s, before, bindings) ==> AllSolutions(s, before + [p], next)
    ensures IsResult(s, before + [p], next)
  {
    ChainsExtend(s, before, p, bindings, next);
    if Crisp(s) && AllPlain(before + [p]) {
      var longer := before + [p];
      assert longer[|before|] == p && forall q :: q in before ==> q in longer;
    }
  }

  /** In any store, a yes means that the patterns have a solution up to datatypes and language tags; where objects have
      index keys and no language, a no means that they have none. */
  method Ask(store: Store, patterns: seq<Pattern>) returns (found: bool)
    requires Filed(store.Now()) && AllParsed(patterns)
    ensures found ==> patterns != [] && exists b :: LooseSolution(store.Now(), patterns, b)
    ensures Keyed(store.Now()) && AllPlain(patterns) ==>
              (found <==> patterns != [] && exists b :: LooseSolution(store.Now(), patterns, b))
    ensures Crisp(store.Now()) && AllPlain(patterns) ==>
              (found <==> patterns != [] && exists b :: Solution(store.Now(), patterns, b))
  {
    ghost var s := store.Now();
    var rows := Select(store, patterns, []);
    found := |rows| > 0;
    if found {
      assert rows[0] in rows;
      ChainIsLooseSolution(s, patterns, rows[0]);
    } else if Keyed(s) && AllPlain(patterns) && patterns != [] {
      forall b
        ensures !LooseSolution(s, patterns, b)
      {
        if LooseSolution(s, patterns, b) {
          var y := LooseSolutionIsChain(s, patterns, b);
        }
      }
    }
  }

  // ----- Why the store has to be crisp -----

  function Thirty(datatyp: string): Term { Term(Literal, "30", datatyp, "") }

  function Fact(p: string, o: Term): Triple {
    Triple(HashOf("a", p, o.value), Term(Iri, "a", "", ""), Term(Iri, p, "", ""), o, "", false)
  }

  function Asking(p: string): Pattern {
    ANY.(subj := Some(Term(Iri, "a", "", "")), pred := Some(Term(Iri, p, "", "")))
  }

  /** The store that holds "30" with two datatypes. */
  function TwoThirties(): State {
    Put(Put(EMPTY, Fact("p", Thirty("int"))), Fact("q", Thirty("string")))
  }

  lemma AskThirties(p: string, datatyp: string, b: Binding)
    requires (p == "p" && datatyp == "int") || (p == "q" && datatyp == "string")
    requires b == map[] || exists d :: b == map[VarO := Thirty(d)]
    ensures Extends(TwoThirties(), Asking(p), b, map[VarO := Thirty(datatyp)])
  {
    var id := HashOf("a", p, "30");
    var s := TwoThirties();
    assert "p" != "q";
    assert s.triples[id] == Fact(p, Thirty(datatyp)) && ("a", id) in s.subjects;
    ThirtyIsAnswered(s, id, p, datatyp, b);
  }

  lemma ThirtyIsAnswered(s: State, id: TripleId, p: string, datatyp: string, b: Binding)
    requires id in s.triples && s.triples[id] == Fact(p, Thirty(datatyp)) && ("a", id) in s.subjects
    requires b == map[] || exists d :: b == map[VarO := Thirty(d)]
    ensures Extends(s, Asking(p), b, map[VarO := Thirty(datatyp)])
  {
    assert id in IdsUnder(s.subjects, "a");
    assert id in Answer(s, Resolve(Asking(p), b));
    assert Bind(b, Asking(p), s.triples[id]) == map[VarO := Thirty(datatyp)];
  }

  lemma StringThirtyIsNoSolution()
    ensures !Holds(TwoThirties(), Asking("p"), map[VarO := Thirty("string")])
  {
    var s, p: Pattern, b: Binding := TwoThirties(), Asking("p"), map[VarO := Thirty("string")];
    assert "int" != "string" && "p" != "q";
    forall id | id in s.triples
      ensures !Instance(p, b, s.triples[id])
    {
      assert !Fits(p, b, s.triples[id], VarP) || !Fits(p, b, s.triples[id], VarO);
    }
  }

  /** On it, the last pattern decides which of them the row shows: the order of the patterns matters, and the row need
      not be a solution. */
  lemma DatatypesBreakTheJoin()
    ensures
      var s, p, q := TwoThirties(), Asking("p"), Asking("q");
      var num, str: Binding := map[VarO := Thirty("int")], map[VarO := Thirty("string")];
      && Extends(s, p, map[], num) && Extends(s, q, num, str)
      && Extends(s, q, map[], str) && Extends(s, p, str, num)
      && !Holds(s, p, str)
  {
    AskThirties("p", "int", map[]);
    AskThirties("q", "string", map[VarO := Thirty("int")]);
    AskThirties("q", "string", map[]);
    AskThirties("p", "int", map[VarO := Thirty("string")]);
    StringThirtyIsNoSolution();
  }

  // ----- Exactly when the join is sound -----

  /** Whatever rows two patterns join to are solutions of both. */
  ghost predicate JoinsAreSolutions(s: State) {
    forall p, q, b, x :: PlainPattern(p) && PlainPattern(q) && Extends(s, p, map[], b) && Extends(s, q, b, x) ==>
      Solution(s, [p] + [q], x)
  }

  /** The triple's terms, with a wildcard in the position of v. */
  function OpenAt(t: Triple, v: Var): Pattern {
    ANY.(subj := if v == VarS then None else Some(t.subj),
         pred := if v == VarP then None else Some(t.pred),
         obj := if v == VarO then None else Some(t.obj))
  }

  /** If b is empty or binds v to a term that counts as the triple's, the open pattern of a stored triple extends it to
      the triple's own term. */
  lemma OpenPatternBinds(s: State, id: TripleId, v: Var, b: Binding)
    requires Filed(s) && Plain(s) && id in s.triples && v in POSITIONS
    requires b == map[]
             || (b.Keys == {v} && TermsEqual(At(s.triples[id], v), b[v]) && (v == VarO ==> b[v].language == ""))
    ensures PlainPattern(OpenAt(s.triples[id], v))
    ensures Extends(s, OpenAt(s.triples[id], v), b, map[v := At(s.triples[id], v)])
  {
    var t := s.triples[id];
    var p := OpenAt(t, v);
    PlainQueryIsScan(s, Resolve(p, b));
    assert id in FullScan(s, Resolve(p, b));
    assert Bind(b, p, t) == map[v := At(t, v)];
  }

  lemma OpenInstanceHash(t: Triple, u: Triple, v: Var, c: Term)
    requires v in POSITIONS && c.value == At(t, v).value
    ensures Instance(OpenAt(t, v), map[v := c], u) ==> HashTriple(u) == HashTriple(t)
  {
    assert VarS in POSITIONS && VarP in POSITIONS && VarO in POSITIONS;
  }

  /** A triple that fits the open pattern of t is t: IDs depend on the values only. */
  lemma OnlyItself(s: State, v: Var, i: TripleId, j: TripleId)
    requires Plain(s) && i in s.triples && j in s.triples && v in POSITIONS
    requires TermsEqual(At(s.triples[i], v), At(s.triples[j], v)) && At(s.triples[i], v) != At(s.triples[j], v)
    ensures !Holds(s, OpenAt(s.triples[i], v), map[v := At(s.triples[j], v)])
  {
    var p, x: Binding := OpenAt(s.triples[i], v), map[v := At(s.triples[j], v)];
    forall k | k in s.triples
      ensures !Instance(p, x, s.triples[k])
    {
      OpenInstanceHash(s.triples[i], s.triples[k], v, At(s.triples[j], v));
    }
  }

  lemma UncrispRow(s: State, v: Var, i: TripleId, j: TripleId)
    requires Filed(s) && Plain(s) && i in s.triples && j in s.triples && v in POSITIONS
    requires TermsEqual(At(s.triples[i], v), At(s.triples[j], v)) && At(s.triples[i], v) != At(s.triples[j], v)
    ensures !JoinsAreSolutions(s)
  {
    var p, q := OpenAt(s.triples[i], v), OpenAt(s.triples[j], v);
    var b, x: Binding := map[v := At(s.triples[i], v)], map[v := At(s.triples[j], v)];
    OpenPatternBinds(s, i, v, map[]);
    OpenPatternBinds(s, j, v, b);
    OnlyItself(s, v, i, j);
    assert p in [p] + [q];
    assert !Solution(s, [p] + [q], x);
  }

  lemma CrispJoins(s: State, p: Pattern, q: Pattern, b: Binding, x: Binding)
    requires Crisp(s) && PlainPattern(p) && PlainPattern(q) && Extends(s, p, map[], b) && Extends(s, q, b, x)
    ensures Solution(s, [p] + [q], x)
  {
    TwoMatches(s, p, q, [p], [p] + [q], b, x);
  }

  lemma TwoMatches(s: State, p: Pattern, q: Pattern, one: seq<Pattern>, two: seq<Pattern>, b: Binding, x: Binding)
    requires Crisp(s) && PlainPattern(p) && PlainPattern(q) && Extends(s, p, map[], b) && Extends(s, q, b, x)
    requires one == [p] && two == one + [q]
    ensures Solution(s, two, x)
  {
    OneMatch(s, p, one, b);
    NextJoin(s, one, q, two, b, x);
  }

  lemma OneMatch(s: State, p: Pattern, one: seq<Pattern>, b: Binding)
    requires Crisp(s) && PlainPattern(p) && Extends(s, p, map[], b) && one == [p]
    ensures Solution(s, one, b)
  {
    assert one == [] + [p] && Solution(s, [], map[]);
    NextJoin(s, [], p, one, map[], b);
  }

  lemma NextJoin(s: State, patterns: seq<Pattern>, p: Pattern, more: seq<Pattern>, b: Binding, x: Binding)
    requires Crisp(s) && PlainPattern(p) && Solution(s, patterns, b) && Extends(s, p, b, x) && more == patterns + [p]
    ensures Solution(s, more, x)
  {
    ExtensionIsSolution(s, patterns, p, b, x);
  }

  /** Main result: on stores with generated IDs and plain objects the join returns only solutions, whatever the query,
      exactly when terms that count as equal are equal. */
  lemma JoinIsSoundExactly(s: State)
    requires Filed(s) && Plain(s)
    ensures JoinsAreSolutions(s) <==> Crisp(s)
  {
    if Crisp(s) {
      forall p, q, b, x | PlainPattern(p) && PlainPattern(q) && Extends(s, p, map[], b) && Extends(s, q, b, x)
        ensures Solution(s, [p] + [q], x)
      {
        CrispJoins(s, p, q, b, x);
      }
    } else {
      var v :| v in POSITIONS && !CrispAt(s, v);
      var i, j :| i in s.triples && j in s.triples && TermsEqual(At(s.triples[i], v), At(s.triples[j], v)) &&
        At(s.triples[i], v) != At(s.triples[j], v);
      UncrispRow(s, v, i, j);
    }
  }

  // ----- Exactly when the join misses nothing -----

  /** Whatever one plain pattern asks for, every solution up to datatypes and language tags shows in some row. */
  ghost predicate NothingMissed(s: State) {
    forall p, x :: PlainPattern(p) && LooseSolution(s, [p], x) ==> Shown(s, p, x)
  }

  ghost predicate Shown(s: State, p: Pattern, x: Binding) {
    exists y :: Extends(s, p, map[], y) && y.Keys == x.Keys && LooselyAgree(y, x)
  }

  /** A pattern that asks for the object of t, without its datatype and language. */
  function AskObject(t: Triple): Pattern {
    ANY.(obj := Some(Term(t.obj.kind, t.obj.value, "", "")))
  }

  function Ends(t: Triple): Binding {
    map[VarS := t.subj, VarP := t.pred]
  }

  lemma EndsSolve(s: State, id: TripleId)
    requires id in s.triples
    ensures LooseSolution(s, [AskObject(s.triples[id])], Ends(s.triples[id]))
  {
    var t := s.triples[id];
    var p := AskObject(t);
    assert LooseInstance(p, Ends(t), t);
    assert Variables(p) == {VarS, VarP};
    AllVariablesStep([], p);
    assert [] + [p] == [p];
  }

  lemma SameEndsSameHash(t: Triple, u: Triple)
    requires LooselyAgree(Bind(map[], AskObject(t), u), Ends(t)) && TermsEqual(u.obj, AskObject(t).obj.value)
    ensures HashTriple(u) == HashTriple(t)
  {
    var y := Bind(map[], AskObject(t), u);
    assert VarS in y && VarP in y;
  }

  /** When IDs are generated, only the triple itself can show its ends. */
  lemma OnlyItselfShows(s: State, id: TripleId)
    requires id in s.triples && (forall i :: i in s.triples ==> i == HashTriple(s.triples[i]))
    requires Shown(s, AskObject(s.triples[id]), Ends(s.triples[id]))
    ensures id in Answer(s, AskObject(s.triples[id]))
  {
    var t := s.triples[id];
    var p := AskObject(t);
    var y :| Extends(s, p, map[], y) && y.Keys == Ends(t).Keys && LooselyAgree(y, Ends(t));
    assert Resolve(p, map[]) == p;
    var i :| i in Answer(s, p) && y == Bind(map[], p, s.triples[i]);
    SameEndsSameHash(t, s.triples[i]);
  }

  lemma AnsweredIsKeyed(s: State, id: TripleId)
    requires ObjectsCurrent(s) && id in s.triples && id in Answer(s, AskObject(s.triples[id]))
    ensures HasObjectKey(s.triples[id].obj) && s.triples[id].obj.language == ""
  {
    var p := AskObject(s.triples[id]);
    assert (TermKey(p.obj.value), id) in s.objects;
    TermKeyLanguage(s.triples[id].obj, p.obj.value);
  }

  /** Main result: with generated IDs and no stale object entries, nothing is missed exactly when every object has an
      index key and no language. */
  lemma NothingMissedExactly(s: State)
    requires Filed(s) && ObjectsCurrent(s) && forall id :: id in s.triples ==> id == HashTriple(s.triples[id])
    ensures NothingMissed(s) <==> Keyed(s)
  {
    if Keyed(s) {
      forall p, x | PlainPattern(p) && LooseSolution(s, [p], x)
        ensures Shown(s, p, x)
      {
        var one := [p];
        var y := LooseSolutionIsChain(s, one, x);
        var b := LastLink(s, one, y);
      }
    }
    if NothingMissed(s) {
      forall id | id in s.triples
        ensures HasObjectKey(s.triples[id].obj) && s.triples[id].obj.language == ""
      {
        EndsSolve(s, id);
        OnlyItselfShows(s, id);
        AnsweredIsKeyed(s, id);
      }
    }
  }
}

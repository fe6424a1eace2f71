/**
 pkg/rdf/rdfs.go, the rules: what the six RDFS rules derive, as least closed sets of facts and as proof trees.

 The rules are rdfs11, rdfs9, rdfs5, rdfs7, rdfs2 and rdfs3 of section 9.2.1 of RDF 1.1 Semantics, with the self-loop
 guards of the code: a transitive or type step that would relate a term to itself is left out.
 */
module RdfsRules {
  import opened Scans
  import opened RdfStore

  const W3 := "http://www.w3.org/"
  const RDF := W3 + "1999/02/22-rdf-syntax-ns#"
  const RDFS := W3 + "2000/01/rdf-schema#"

  const TYPE := RDF + "type"
  const SUB_CLASS_OF := RDFS + "subClassOf"
  const SUB_PROPERTY_OF := RDFS + "subPropertyOf"
  const DOMAIN := RDFS + "domain"
  const RANGE := RDFS + "range"

  /** What two terms must share to be equal: datatypes and language tags do not count. */
  datatype Node = Node(kind: Kind, value: string)

  datatype Fact = Fact(s: Node, p: Node, o: Node)

  function Word(v: string): Node {
    Node(Iri, v)
  }

  /** The IRI that is made of a value, without its brackets. */
  function Name(v: string): Node {
    Word(NewIri(v).value)
  }

  datatype Rule =
    | SubClassTransitivity
    | TypePropagation
    | SubPropertyTransitivity
    | PropertyPropagation
    | DomainRule
    | RangeRule

  /** Terms are joined by value; the predicates that are asked for are IRIs. */
  predicate Fires(rule: Rule, a: Fact, b: Fact) {
    match rule
    case SubClassTransitivity =>
      a.p == Word(SUB_CLASS_OF) && b.p == Word(SUB_CLASS_OF) && a.o.value == b.s.value && a.s.value != b.o.value
    case TypePropagation =>
      a.p == Word(TYPE) && b.p == Word(SUB_CLASS_OF) && a.o.value == b.s.value && a.s.value != b.o.value
    case SubPropertyTransitivity =>
      a.p == Word(SUB_PROPERTY_OF) && b.p == Word(SUB_PROPERTY_OF) && a.o.value == b.s.value && a.s.value != b.o.value
    case PropertyPropagation => a.p == Word(SUB_PROPERTY_OF) && b.p == Word(a.s.value)
    case DomainRule => a.p == Word(DOMAIN) && b.p == Word(a.s.value)
    case RangeRule => a.p == Word(RANGE) && b.p == Word(a.s.value)
  }

  /** Only the first rule makes IRIs of the terms; the others pass them on as they are. */
  function Conclusion(rule: Rule, a: Fact, b: Fact): Fact {
    match rule
    case SubClassTransitivity => Fact(Name(a.s.value), Word(SUB_CLASS_OF), Name(b.o.value))
    case TypePropagation => Fact(a.s, Word(TYPE), b.o)
    case SubPropertyTransitivity => Fact(a.s, Word(SUB_PROPERTY_OF), b.o)
    case PropertyPropagation => Fact(b.s, a.o, b.o)
    case DomainRule => Fact(b.s, Word(TYPE), a.o)
    case RangeRule => Fact(b.o, Word(TYPE), a.o)
  }

  type Facts = set<Fact>

  /** h contains what the rule derives from two facts of g. */
  ghost predicate Covers(rule: Rule, g: Facts, h: Facts) {
    forall a, b :: a in g && b in g && Fires(rule, a, b) ==> Conclusion(rule, a, b) in h
  }

  ghost predicate Closed(g: Facts) {
    forall rule: Rule :: Covers(rule, g, g)
  }

  /** h holds no more than every closed superset of g does. */
  ghost predicate Sound(g: Facts, h: Facts) {
    forall c: Facts :: g <= c && Closed(c) ==> h <= c
  }

  /** One pass over all six rules. */
  ghost predicate InferStep(g: Facts, h: Facts) {
    g <= h && Sound(g, h) && forall rule: Rule :: Covers(rule, g, h)
  }

  lemma SoundTransitive(f: Facts, g: Facts, h: Facts)
    requires f <= g && Sound(f, g) && Sound(g, h)
    ensures Sound(f, h)
  {
    forall c: Facts | f <= c && Closed(c)
      ensures h <= c
    {
      assert g <= c;
    }
  }

  // ----- Names -----

  lemma {:induction false} TrimLeftEnds(v: string)
    ensures TrimLeft(v) != "" ==> !IsBracket(TrimLeft(v)[0])
  {
    if v != "" && IsBracket(v[0]) {
      TrimLeftEnds(v[1..]);
    }
  }

  lemma {:induction false} TrimRightEnds(v: string)
    ensures TrimRight(v) <= v && (TrimRight(v) != "" ==> !IsBracket(TrimRight(v)[|TrimRight(v)| - 1]))
  {
    if v != "" && IsBracket(v[|v| - 1]) {
      TrimRightEnds(v[..|v| - 1]);
    }
  }

  lemma NameOfName(v: string)
    ensures Name(Name(v).value) == Name(v)
  {
    var w := TrimLeft(v);
    TrimLeftEnds(v);
    TrimRightEnds(w);
  }

  lemma VocabularyIsPlain(v: string)
    requires v == TYPE || v == SUB_CLASS_OF || v == SUB_PROPERTY_OF
    ensures NewIri(v).value == v && Name(v) == Word(v)
  {
    assert W3[0] == 'h' && RDF[0] == W3[0] && RDFS[0] == W3[0];
    assert "type"[3] == 'e' && "subClassOf"[9] == 'f' && "subPropertyOf"[12] == 'f';
    assert v[0] == 'h';
    NewIriIsPlain(v);
  }

  // ----- Runs -----

  /** Each entry results from the one before it by one pass. */
  ghost predicate IsRun(run: seq<Facts>) {
    run != [] && forall i :: 0 <= i < |run| - 1 ==> InferStep(run[i], run[i + 1])
  }

  lemma {:induction false} RunGrows(run: seq<Facts>, i: nat)
    requires IsRun(run) && i < |run|
    ensures run[0] <= run[i] && Sound(run[0], run[i])
  {
    if i > 0 {
      RunGrows(run, i - 1);
      assert InferStep(run[i - 1], run[i]);
      SoundTransitive(run[0], run[i - 1], run[i]);
    }
  }

  ghost predicate IsLeastClosed(g: Facts, h: Facts) {
    g <= h && Closed(h) && Sound(g, h)
  }

  /** Main result: a pass that adds nothing means the facts are the least closed superset of those at the start. */
  lemma IdlePassMeansClosed(run: seq<Facts>)
    requires IsRun(run) && |run| > 1 && run[|run| - 1] == run[|run| - 2]
    ensures IsLeastClosed(run[0], run[|run| - 1])
  {
    RunGrows(run, |run| - 1);
    assert InferStep(run[|run| - 2], run[|run| - 1]);
  }

  ghost function Terms(g: Facts): set<Node> {
    (set f | f in g :: f.s) + (set f | f in g :: f.p) + (set f | f in g :: f.o)
  }

  /** The rules bring in no term but rdf:type and the IRIs made of the values at hand. */
  ghost function Rebuilt(terms: set<Node>): set<Node> {
    terms + {Word(TYPE)} + set t | t in terms :: Name(t.value)
  }

  /** When all terms are IRIs without brackets, rdf:type is all that the rules bring in. */
  lemma PlainTermsRebuilt(terms: set<Node>)
    requires forall t :: t in terms ==> t == Name(t.value)
    ensures Rebuilt(terms) == terms + {Word(TYPE)}
  {
  }

  lemma NameInRebuilt(terms: set<Node>, n: Node)
    requires n in Rebuilt(terms)
    ensures Name(n.value) in Rebuilt(terms)
  {
    if n !in terms {
      if n == Word(TYPE) {
        VocabularyIsPlain(TYPE);
      } else {
        var t :| t in terms && n == Name(t.value);
        NameOfName(t.value);
      }
    }
  }

  /** All facts over a set of terms. */
  ghost function Universe(terms: set<Node>): Facts {
    set s, p, o | s in terms && p in terms && o in terms :: Fact(s, p, o)
  }

  lemma InUniverse(terms: set<Node>, f: Fact)
    ensures f in Universe(terms) <==> f.s in terms && f.p in terms && f.o in terms
  {
    assert f == Fact(f.s, f.p, f.o);
  }

  lemma ConclusionInUniverse(terms: set<Node>, rule: Rule, a: Fact, b: Fact)
    requires a in Universe(Rebuilt(terms)) && b in Universe(Rebuilt(terms)) && Fires(rule, a, b)
    ensures Conclusion(rule, a, b) in Universe(Rebuilt(terms))
  {
    var all := Rebuilt(terms);
    InUniverse(all, a);
    InUniverse(all, b);
    NameInRebuilt(terms, a.s);
    NameInRebuilt(terms, b.o);
    InUniverse(all, Conclusion(rule, a, b));
  }

  lemma UniverseIsClosed(g: Facts)
    ensures g <= Universe(Rebuilt(Terms(g))) && Closed(Universe(Rebuilt(Terms(g))))
  {
    var terms := Terms(g);
    var u := Universe(Rebuilt(terms));
    forall f | f in g
      ensures f in u
    {
      assert f.s in terms && f.p in terms && f.o in terms;
      InUniverse(Rebuilt(terms), f);
    }
    forall rule: Rule
      ensures Covers(rule, u, u)
    {
      forall a, b | a in u && b in u && Fires(rule, a, b)
        ensures Conclusion(rule, a, b) in u
      {
        ConclusionInUniverse(terms, rule, a, b);
      }
    }
  }

  lemma {:induction false} RowSize<A, B>(x: A, b: set<B>, row: set<(A, B)>)
    requires forall p :: p in row <==> p.0 == x && p.1 in b
    ensures |row| == |b|
    decreases b
  {
    if b == {} {
      assert row == {};
    } else {
      var z :| z in b;
      assert (x, z) in row;
      RowSize(x, b - {z}, row - {(x, z)});
    }
  }

  lemma {:induction false} PairSize<A, B>(a: set<A>, b: set<B>, pairs: set<(A, B)>)
    requires forall p :: p in pairs <==> p.0 in a && p.1 in b
    ensures |pairs| == |a| * |b|
    decreases a
  {
    if a == {} {
      assert pairs == {};
    } else {
      var x :| x in a;
      var row := set p | p in pairs && p.0 == x;
      RowSize(x, b, row);
      PairSize(a - {x}, b, pairs - row);
      assert pairs == (pairs - row) + row;
      OneRowMore(|a - {x}|, |b|);
    }
  }

  lemma OneRowMore(m: nat, n: nat)
    ensures (m + 1) * n == m * n + n
  {
  }

  lemma UniverseSize(terms: set<Node>)
    ensures |Universe(terms)| <= |terms| * |terms| * |terms|
  {
    var pairs := set s, p | s in terms && p in terms :: (s, p);
    var triples := set q, o | q in pairs && o in terms :: (q, o);
    PairSize(terms, terms, pairs);
    PairSize(pairs, terms, triples);
    var nested := (f: Fact) => ((f.s, f.p), f.o);
    var image := set f | f in Universe(terms) :: nested(f);
    ImageSize(Universe(terms), nested, image);
    forall f | f in Universe(terms)
      ensures nested(f) in triples
    {
      InUniverse(terms, f);
      assert (f.s, f.p) in pairs;
    }
    SubsetSize(image, triples);
  }

  /** Main result: passes that keep adding facts come to an end, after at most as many passes as there are facts over
      the terms at the start, the IRIs made of their values, and rdf:type. */
  lemma {:induction false} ProductiveRunIsBounded(run: seq<Facts>)
    requires IsRun(run) && forall i :: 0 <= i < |run| - 1 ==> run[i] != run[i + 1]
    ensures
      var n := |Rebuilt(Terms(run[0]))|;
      |run[0]| + |run| - 1 <= |run[|run| - 1]| <= n * n * n
  {
    var u := Universe(Rebuilt(Terms(run[0])));
    UniverseIsClosed(run[0]);
    RunGrows(run, |run| - 1);
    assert run[|run| - 1] <= u;
    SubsetSize(run[|run| - 1], u);
    UniverseSize(Rebuilt(Terms(run[0])));
    StrictGrowth(run, |run| - 1);
  }

  lemma {:induction false} StrictGrowth(run: seq<Facts>, i: nat)
    requires IsRun(run) && i < |run| && forall i :: 0 <= i < |run| - 1 ==> run[i] != run[i + 1]
    ensures |run[0]| + i <= |run[i]|
  {
    if i > 0 {
      StrictGrowth(run, i - 1);
      assert InferStep(run[i - 1], run[i]) && run[i - 1] != run[i - 1 + 1];
      SubsetSize(run[i - 1], run[i]);
    }
  }

  // ----- Proof trees -----

  datatype Proof = Given(fact: Fact) | By(rule: Rule, left: Proof, right: Proof)

  function Proved(proof: Proof): Fact {
    match proof
    case Given(f) => f
    case By(rule, left, right) => Conclusion(rule, Proved(left), Proved(right))
  }

  ghost predicate IsProof(proof: Proof, g: Facts) {
    match proof
    case Given(f) => f in g
    case By(rule, left, right) => IsProof(left, g) && IsProof(right, g) && Fires(rule, Proved(left), Proved(right))
  }

  ghost predicate Derivable(f: Fact, g: Facts) {
    exists proof :: IsProof(proof, g) && Proved(proof) == f
  }

  lemma {:induction false} ClosedContainsProved(proof: Proof, g: Facts, c: Facts)
    requires IsProof(proof, g) && g <= c && Closed(c)
    ensures Proved(proof) in c
  {
    match proof
    case Given(_) =>
    case By(rule, left, right) =>
      ClosedContainsProved(left, g, c);
      ClosedContainsProved(right, g, c);
      assert Covers(rule, c, c);
  }

  /** Main result: the least closed superset of the asserted facts is what proof trees derive from them. */
  lemma LeastClosedIsDerivable(g: Facts, h: Facts, f: Fact)
    requires IsLeastClosed(g, h)
    ensures f in h <==> Derivable(f, g)
  {
    ClosureIsLeast(g);
    assert h <= Closure(g) && Closure(g) <= h;
  }

  /** What proof trees derive from the facts of g, which is finite. */
  ghost function Closure(g: Facts): Facts {
    set f | f in Universe(Rebuilt(Terms(g))) && Derivable(f, g)
  }

  /** The facts derivable from g are its least closed superset. */
  lemma ClosureIsLeast(g: Facts)
    ensures IsLeastClosed(g, Closure(g)) && forall f :: f in Closure(g) <==> Derivable(f, g)
  {
    var u, c := Universe(Rebuilt(Terms(g))), Closure(g);
    UniverseIsClosed(g);
    forall f | Derivable(f, g)
      ensures f in c
    {
      DerivableInClosed(f, g, u);
    }
    forall f | f in g
      ensures Derivable(f, g)
    {
      assert IsProof(Given(f), g) && Proved(Given(f)) == f;
    }
    forall rule: Rule
      ensures Covers(rule, c, c)
    {
      forall a, b | a in c && b in c && Fires(rule, a, b)
        ensures Conclusion(rule, a, b) in c
      {
        ConclusionIsDerivable(rule, a, b, g);
      }
    }
    forall d: Facts | g <= d && Closed(d)
      ensures c <= d
    {
      forall f | f in c
        ensures f in d
      {
        DerivableInClosed(f, g, d);
      }
    }
  }

  lemma DerivableInClosed(f: Fact, g: Facts, c: Facts)
    requires Derivable(f, g) && g <= c && Closed(c)
    ensures f in c
  {
    var proof :| IsProof(proof, g) && Proved(proof) == f;
    ClosedContainsProved(proof, g, c);
  }

  lemma ConclusionIsDerivable(rule: Rule, a: Fact, b: Fact, g: Facts)
    requires Derivable(a, g) && Derivable(b, g) && Fires(rule, a, b)
    ensures Derivable(Conclusion(rule, a, b), g)
  {
    var p :| IsProof(p, g) && Proved(p) == a;
    var q :| IsProof(q, g) && Proved(q) == b;
    assert IsProof(By(rule, p, q), g) && Proved(By(rule, p, q)) == Conclusion(rule, a, b);
  }

  /** Sound growth leaves the derivable facts as they are. */
  lemma ClosureStays(g: Facts, h: Facts)
    requires g <= h && Sound(g, h)
    ensures Closure(h) == Closure(g)
  {
    ClosureIsLeast(g);
    ClosureIsLeast(h);
    assert h <= Closure(g);
  }

  // ----- Path doubling -----

  /** The classes of p, whose names have no brackets, are chained by asserted subClassOf facts. */
  ghost predicate SubClassPath(g: Facts, p: seq<string>) {
    && |p| >= 2
    && (forall i :: 0 <= i < |p| ==> Name(p[i]) == Word(p[i]))
    && (forall i :: 0 <= i < |p| - 1 ==> SubClass(p[i], p[i + 1]) in g)
  }

  function SubClass(c: string, d: string): Fact {
    Fact(Word(c), Word(SUB_CLASS_OF), Word(d))
  }

  function PowerOfTwo(k: nat): nat {
    if k == 0 then 1 else 2 * PowerOfTwo(k - 1)
  }

  lemma StepGrows(g: Facts, h: Facts)
    requires InferStep(g, h)
    ensures g <= h
  {
  }

  lemma SubClassesCompose(g: Facts, h: Facts, a: string, b: string, c: string)
    requires InferStep(g, h) && SubClass(a, b) in g && SubClass(b, c) in g && a != c
    requires Name(a) == Word(a) && Name(c) == Word(c)
    ensures SubClass(a, c) in h
  {
    assert Covers(SubClassTransitivity, g, h);
    assert Fires(SubClassTransitivity, SubClass(a, b), SubClass(b, c));
  }

  /** Main result: after k passes, two different classes that an asserted path of at most 2^k links joins are related
      directly. Every pass composes what the one before it stored, so the length doubles; a path that returns to one of
      its ends is cut there. */
  lemma {:induction false} PathDoubling(run: seq<Facts>, k: nat, p: seq<string>)
    requires IsRun(run) && k < |run|
    requires SubClassPath(run[0], p) && p[0] != p[|p| - 1] && |p| - 1 <= PowerOfTwo(k)
    ensures SubClass(p[0], p[|p| - 1]) in run[k]
    decreases k, |p|
  {
    hide InferStep;
    if k > 0 {
      StepGrows(run[k - 1], run[k]);
      RunGrows(run, k - 1);
      if |p| - 1 <= PowerOfTwo(k - 1) {
        PathDoubling(run, k - 1, p);
      } else {
        var m := PowerOfTwo(k - 1);
        var front, back := p[..m + 1], p[m..];
        if p[m] == p[0] {
          PathDoubling(run, k - 1, back);
        } else if p[m] == p[|p| - 1] {
          PathDoubling(run, k - 1, front);
        } else {
          PathDoubling(run, k - 1, front);
          PathDoubling(run, k - 1, back);
          SubClassesCompose(run[k - 1], run[k], p[0], p[m], p[|p| - 1]);
        }
      }
    }
  }
}

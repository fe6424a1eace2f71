/**
 pkg/rdf/rdfs.go: the six rules once more, each as a law about stored facts, spelled out with the words of the RDF and
 RDFS vocabularies. The laws do not speak of the inferencer; they say what its rules amount to.
 */
module RdfsLaws {
  import opened RdfStore
  import opened RdfsRules
  import opened Rdfs
  import opened RdfsGrowth
  import opened RdfsRuns

  const RDF_TYPE := "http://www.w3.org/1999/02/22-rdf-syntax-ns#type"
  const RDFS_SUB_CLASS_OF := "http://www.w3.org/2000/01/rdf-schema#subClassOf"
  const RDFS_SUB_PROPERTY_OF := "http://www.w3.org/2000/01/rdf-schema#subPropertyOf"
  const RDFS_DOMAIN := "http://www.w3.org/2000/01/rdf-schema#domain"
  const RDFS_RANGE := "http://www.w3.org/2000/01/rdf-schema#range"

  lemma TypeIsSpelled()
    ensures TYPE == RDF_TYPE
  {
  }

  lemma SubClassOfIsSpelled()
    ensures SUB_CLASS_OF == RDFS_SUB_CLASS_OF
  {
  }

  lemma SubPropertyOfIsSpelled()
    ensures SUB_PROPERTY_OF == RDFS_SUB_PROPERTY_OF
  {
  }

  lemma DomainIsSpelled()
    ensures DOMAIN == RDFS_DOMAIN
  {
  }

  lemma RangeIsSpelled()
    ensures RANGE == RDFS_RANGE
  {
  }

  // ----- The laws -----

  /** rdfs11: a subclass of b and b of c make a subclass of c, unless a is c. Classes are joined by their values, and
      the conclusion names IRIs made of these, without brackets. */
  ghost predicate SubClassLaw(g: Facts, sub: string) {
    forall a, b, b', c: Node ::
      && Fact(a, Node(Iri, sub), b) in g && Fact(b', Node(Iri, sub), c) in g
      && b.value == b'.value && a.value != c.value ==>
        NamesRelated(g, a.value, sub, c.value)
  }

  /** The IRIs made of two values are related. */
  ghost predicate NamesRelated(g: Facts, v: string, p: string, w: string) {
    Fact(Node(Iri, NewIri(v).value), Node(Iri, p), Node(Iri, NewIri(w).value)) in g
  }

  /** rdfs9: what is of a type is of every class above it, unless that is itself. */
  ghost predicate TypeLaw(g: Facts, typ: string, sub: string) {
    forall x, a, a', b: Node ::
      && Fact(x, Node(Iri, typ), a) in g && Fact(a', Node(Iri, sub), b) in g
      && a.value == a'.value && x.value != b.value ==>
        Fact(x, Node(Iri, typ), b) in g
  }

  /** rdfs5: sub-properties are transitive, unless that would relate a property to itself. */
  ghost predicate SubPropertyLaw(g: Facts, sub: string) {
    forall p, q, q', r: Node ::
      && Fact(p, Node(Iri, sub), q) in g && Fact(q', Node(Iri, sub), r) in g
      && q.value == q'.value && p.value != r.value ==>
        Fact(p, Node(Iri, sub), r) in g
  }

  /** rdfs7: what is related by a property is related by every property above it. */
  ghost predicate PropertyLaw(g: Facts, sub: string) {
    forall p, q, x, y: Node ::
      Fact(p, Node(Iri, sub), q) in g && Fact(x, Node(Iri, p.value), y) in g ==> Fact(x, q, y) in g
  }

  /** rdfs2: the subject of a property with a domain is of that type. */
  ghost predicate DomainLaw(g: Facts, domain: string, typ: string) {
    forall p, c, x, y: Node ::
      Fact(p, Node(Iri, domain), c) in g && Fact(x, Node(Iri, p.value), y) in g ==> Fact(x, Node(Iri, typ), c) in g
  }

  /** rdfs3: the object of a property with a range is of that type. */
  ghost predicate RangeLaw(g: Facts, range: string, typ: string) {
    forall p, c, x, y: Node ::
      Fact(p, Node(Iri, range), c) in g && Fact(x, Node(Iri, p.value), y) in g ==> Fact(y, Node(Iri, typ), c) in g
  }

  ghost predicate Lawful(g: Facts) {
    && SubClassLaw(g, RDFS_SUB_CLASS_OF)
    && TypeLaw(g, RDF_TYPE, RDFS_SUB_CLASS_OF)
    && SubPropertyLaw(g, RDFS_SUB_PROPERTY_OF)
    && PropertyLaw(g, RDFS_SUB_PROPERTY_OF)
    && DomainLaw(g, RDFS_DOMAIN, RDF_TYPE)
    && RangeLaw(g, RDFS_RANGE, RDF_TYPE)
  }

  // ----- They are the rules -----

  lemma SubClassConclusion(g: Facts, a: Fact, b: Fact)
    ensures Conclusion(SubClassTransitivity, a, b) in g <==> NamesRelated(g, a.s.value, SUB_CLASS_OF, b.o.value)
  {
    hide NewIri;
  }

  lemma SubClassFires(a: Fact, b: Fact)
    requires Fires(SubClassTransitivity, a, b)
    ensures a == Fact(a.s, Node(Iri, SUB_CLASS_OF), a.o) && b == Fact(b.s, Node(Iri, SUB_CLASS_OF), b.o)
    ensures a.o.value == b.s.value && a.s.value != b.o.value
  {
  }

  lemma SubClassLawCovers(g: Facts)
    requires SubClassLaw(g, SUB_CLASS_OF)
    ensures Covers(SubClassTransitivity, g, g)
  {
    hide Conclusion, NamesRelated, Fires;
    forall a, b | a in g && b in g && Fires(SubClassTransitivity, a, b)
      ensures Conclusion(SubClassTransitivity, a, b) in g
    {
      SubClassFires(a, b);
      SubClassConclusion(g, a, b);
    }
  }

  lemma SubClassRule(g: Facts)
    ensures Covers(SubClassTransitivity, g, g) <==> SubClassLaw(g, SUB_CLASS_OF)
  {
    hide Conclusion, NamesRelated;
    if SubClassLaw(g, SUB_CLASS_OF) {
      SubClassLawCovers(g);
    } else if Covers(SubClassTransitivity, g, g) {
      forall a, b, b', c: Node |
        Fact(a, Node(Iri, SUB_CLASS_OF), b) in g && Fact(b', Node(Iri, SUB_CLASS_OF), c) in g && b.value == b'.value
        && a.value != c.value
        ensures NamesRelated(g, a.value, SUB_CLASS_OF, c.value)
      {
        var e, f := Fact(a, Node(Iri, SUB_CLASS_OF), b), Fact(b', Node(Iri, SUB_CLASS_OF), c);
        assert Fires(SubClassTransitivity, e, f);
        SubClassConclusion(g, e, f);
      }
    }
  }

  lemma TypeRule(g: Facts)
    ensures Covers(TypePropagation, g, g) <==> TypeLaw(g, TYPE, SUB_CLASS_OF)
  {
    if TypeLaw(g, TYPE, SUB_CLASS_OF) {
      forall a, b | a in g && b in g && Fires(TypePropagation, a, b)
        ensures Conclusion(TypePropagation, a, b) in g
      {
        assert Fact(a.s, Node(Iri, TYPE), a.o) in g && Fact(b.s, Node(Iri, SUB_CLASS_OF), b.o) in g;
      }
    }
    if Covers(TypePropagation, g, g) {
      forall x, a, a', b: Node |
        Fact(x, Node(Iri, TYPE), a) in g && Fact(a', Node(Iri, SUB_CLASS_OF), b) in g && a.value == a'.value
        && x.value != b.value
        ensures Fact(x, Node(Iri, TYPE), b) in g
      {
        var e, f := Fact(x, Node(Iri, TYPE), a), Fact(a', Node(Iri, SUB_CLASS_OF), b);
        assert Fires(TypePropagation, e, f);
      }
    }
  }

  lemma SubPropertyRule(g: Facts)
    ensures Covers(SubPropertyTransitivity, g, g) <==> SubPropertyLaw(g, SUB_PROPERTY_OF)
  {
    if SubPropertyLaw(g, SUB_PROPERTY_OF) {
      forall a, b | a in g && b in g && Fires(SubPropertyTransitivity, a, b)
        ensures Conclusion(SubPropertyTransitivity, a, b) in g
      {
        assert Fact(a.s, Node(Iri, SUB_PROPERTY_OF), a.o) in g && Fact(b.s, Node(Iri, SUB_PROPERTY_OF), b.o) in g;
      }
    }
    if Covers(SubPropertyTransitivity, g, g) {
      forall p, q, q', r: Node |
        Fact(p, Node(Iri, SUB_PROPERTY_OF), q) in g && Fact(q', Node(Iri, SUB_PROPERTY_OF), r) in g
        && q.value == q'.value && p.value != r.value
        ensures Fact(p, Node(Iri, SUB_PROPERTY_OF), r) in g
      {
        var e, f := Fact(p, Node(Iri, SUB_PROPERTY_OF), q), Fact(q', Node(Iri, SUB_PROPERTY_OF), r);
        assert Fires(SubPropertyTransitivity, e, f);
      }
    }
  }

  lemma PropertyRule(g: Facts)
    ensures Covers(PropertyPropagation, g, g) <==> PropertyLaw(g, SUB_PROPERTY_OF)
  {
    if PropertyLaw(g, SUB_PROPERTY_OF) {
      forall a, b | a in g && b in g && Fires(PropertyPropagation, a, b)
        ensures Conclusion(PropertyPropagation, a, b) in g
      {
        assert Fact(a.s, Node(Iri, SUB_PROPERTY_OF), a.o) in g && Fact(b.s, Node(Iri, a.s.value), b.o) in g;
      }
    }
    if Covers(PropertyPropagation, g, g) {
      forall p, q, x, y: Node | Fact(p, Node(Iri, SUB_PROPERTY_OF), q) in g && Fact(x, Node(Iri, p.value), y) in g
        ensures Fact(x, q, y) in g
      {
        assert Fires(PropertyPropagation, Fact(p, Node(Iri, SUB_PROPERTY_OF), q), Fact(x, Node(Iri, p.value), y));
      }
    }
  }

  lemma DomainRuleIsLaw(g: Facts)
    ensures Covers(DomainRule, g, g) <==> DomainLaw(g, DOMAIN, TYPE)
  {
    if DomainLaw(g, DOMAIN, TYPE) {
      forall a, b | a in g && b in g && Fires(DomainRule, a, b)
        ensures Conclusion(DomainRule, a, b) in g
      {
        assert Fact(a.s, Node(Iri, DOMAIN), a.o) in g && Fact(b.s, Node(Iri, a.s.value), b.o) in g;
      }
    }
    if Covers(DomainRule, g, g) {
      forall p, c, x, y: Node | Fact(p, Node(Iri, DOMAIN), c) in g && Fact(x, Node(Iri, p.value), y) in g
        ensures Fact(x, Node(Iri, TYPE), c) in g
      {
        assert Fires(DomainRule, Fact(p, Node(Iri, DOMAIN), c), Fact(x, Node(Iri, p.value), y));
      }
    }
  }

  lemma RangeRuleIsLaw(g: Facts)
    ensures Covers(RangeRule, g, g) <==> RangeLaw(g, RANGE, TYPE)
  {
    if RangeLaw(g, RANGE, TYPE) {
      forall a, b | a in g && b in g && Fires(RangeRule, a, b)
        ensures Conclusion(RangeRule, a, b) in g
      {
        assert Fact(a.s, Node(Iri, RANGE), a.o) in g && Fact(b.s, Node(Iri, a.s.value), b.o) in g;
      }
    }
    if Covers(RangeRule, g, g) {
      forall p, c, x, y: Node | Fact(p, Node(Iri, RANGE), c) in g && Fact(x, Node(Iri, p.value), y) in g
        ensures Fact(y, Node(Iri, TYPE), c) in g
      {
        assert Fires(RangeRule, Fact(p, Node(Iri, RANGE), c), Fact(x, Node(Iri, p.value), y));
      }
    }
  }

  /** Main result: a set of facts is closed under the rules exactly when it obeys the six laws. */
  lemma ClosedExactly(g: Facts)
    ensures Closed(g) <==> Lawful(g)
  {
    hide Covers, SubClassLaw, TypeLaw, SubPropertyLaw, PropertyLaw, DomainLaw, RangeLaw;
    TypeIsSpelled();
    SubClassOfIsSpelled();
    SubPropertyOfIsSpelled();
    DomainIsSpelled();
    RangeIsSpelled();
    SubClassRule(g);
    TypeRule(g);
    SubPropertyRule(g);
    PropertyRule(g);
    DomainRuleIsLaw(g);
    RangeRuleIsLaw(g);
    if Lawful(g) {
      forall rule: Rule
        ensures Covers(rule, g, g)
      {
        match rule
        case SubClassTransitivity =>
        case TypePropagation =>
        case SubPropertyTransitivity =>
        case PropertyPropagation =>
        case DomainRule =>
        case RangeRule =>
      }
    }
  }

  // ----- What the inferencer reaches -----

  /** Some record states that s stands to o in the relation p: terms are compared by kind and value. */
  ghost predicate Stated(s: State, f: Fact) {
    exists id ::
      && id in s.triples
      && s.triples[id].subj.kind == f.s.kind && s.triples[id].subj.value == f.s.value
      && s.triples[id].pred.kind == f.p.kind && s.triples[id].pred.value == f.p.value
      && s.triples[id].obj.kind == f.o.kind && s.triples[id].obj.value == f.o.value
  }

  lemma FactsAreStated(s: State, f: Fact)
    ensures f in FactsOf(s) <==> Stated(s, f)
  {
    if f in FactsOf(s) {
      var id :| id in s.triples && FactOf(s.triples[id]) == f;
    }
    if Stated(s, f) {
      var id :| && id in s.triples
                && s.triples[id].subj.kind == f.s.kind && s.triples[id].subj.value == f.s.value
                && s.triples[id].pred.kind == f.p.kind && s.triples[id].pred.value == f.p.value
                && s.triples[id].obj.kind == f.o.kind && s.triples[id].obj.value == f.o.value;
      assert FactOf(s.triples[id]) == f;
    }
  }

  /** Main result: in any store, a call that returns 0 leaves stored facts that obey the laws. */
  lemma ZeroMeansLawful(s: State, t: State)
    requires Filed(s) && Infers(s, t, 0)
    ensures Lawful(FactsOf(t))
  {
    hide Lawful, Infers;
    ZeroMeansClosed(s, t);
    ClosedExactly(FactsOf(t));
  }

  /** Main result: when a call in a run from a tame store returns 0, what the records state is exactly what every lawful
      set of facts contains that contains the facts at the start. */
  lemma SettledStoreIsLeastLawful(states: seq<State>, counts: seq<nat>, f: Fact)
    requires InferRun(states, counts) && Tame(states[0]) && counts != [] && counts[|counts| - 1] == 0
    ensures Stated(states[|counts|], f) <==>
            forall c: Facts :: (forall e :: Stated(states[0], e) ==> e in c) && Lawful(c) ==> f in c
  {
    hide Lawful, Infers, Stated, Closed;
    var g, h := FactsOf(states[0]), FactsOf(states[|counts|]);
    var run := RunOfFacts(states, counts);
    IdlePassMeansClosed(run);
    ClosedExactly(h);
    FactsAreStated(states[|counts|], f);
    forall e
      ensures Stated(states[0], e) <==> e in g
    {
      FactsAreStated(states[0], e);
    }
    if f in h {
      forall c: Facts | (forall e :: Stated(states[0], e) ==> e in c) && Lawful(c)
        ensures f in c
      {
        ClosedExactly(c);
        assert g <= c;
      }
    } else {
      assert Lawful(h) && forall e :: Stated(states[0], e) ==> e in h;
    }
  }

  /** What a rule concludes keeps the terms of its premises, datatypes and language tags included; only the subclass
      rule makes its terms anew. */
  lemma TermsAreKept(rule: Rule, x: Triple, y: Triple)
    requires !rule.SubClassTransitivity?
    ensures
      var t := NewTriple(rule, x, y);
      match rule
      case PropertyPropagation => t.subj == y.subj && t.pred == x.obj && t.obj == y.obj
      case DomainRule => t.subj == y.subj && t.obj == x.obj
      case RangeRule => t.subj == y.obj && t.obj == x.obj
      case _ => t.subj == x.subj && t.obj == y.obj
  {
  }
}

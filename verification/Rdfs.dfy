/**
 pkg/rdf/rdfs.go: the inferencer, which stores what the six rules derive and can take it back. The methods are proved
 to do what the functions and relations on store states say; what these do to the stored facts is in RdfsGrowth.
 */
module Rdfs {
  import opened Wrappers
  import opened RdfStore
  import opened RdfsRules

  // ----- Stored facts -----

  function NodeOf(t: Term): Node {
    Node(t.kind, t.value)
  }

  function FactOf(t: Triple): Fact {
    Fact(NodeOf(t.subj), NodeOf(t.pred), NodeOf(t.obj))
  }

  /** The ID under which the inferencer stores a fact: it is made of the values and does not tell kinds apart. */
  function IdOf(f: Fact): TripleId {
    HashOf(f.s.value, f.p.value, f.o.value)
  }

  ghost function FactsOf(s: State): Facts {
    set id | id in s.triples :: FactOf(s.triples[id])
  }

  // ----- Looking for a triple -----

  function SameTerms(t: Triple): Pattern {
    ANY.(subj := Some(t.subj), pred := Some(t.pred), obj := Some(t.obj))
  }

  /** A query finds a triple with the terms of t. */
  ghost predicate Found(s: State, t: Triple) {
    Answer(s, SameTerms(t)) != {}
  }

  /** A fact that the subject or the predicate index lists. */
  predicate Findable(f: Fact) {
    f.s.kind == Iri || f.p.kind == Iri
  }

  lemma MatchIsSameFact(r: Triple, t: Triple)
    ensures Matches(r, SameTerms(t)) <==> FactOf(r) == FactOf(t)
  {
  }

  /** What the search finds is stored; a findable fact that is stored is found. */
  lemma FoundIffStored(s: State, t: Triple)
    ensures Found(s, t) ==> FactOf(t) in FactsOf(s)
    ensures Filed(s) && Findable(FactOf(t)) ==> (Found(s, t) <==> FactOf(t) in FactsOf(s))
  {
    var q := SameTerms(t);
    if id :| id in Answer(s, q) {
      MatchIsSameFact(s.triples[id], t);
    }
    if Filed(s) && Findable(FactOf(t)) && FactOf(t) in FactsOf(s) {
      var id :| id in s.triples && FactOf(s.triples[id]) == FactOf(t);
      MatchIsSameFact(s.triples[id], t);
      IndexAgreesWithScan(s, q);
      assert id in Answer(s, q);
    }
  }

  // ----- What the passes add -----

  /** A store and how many triples have been added to it. */
  datatype Tally = Tally(state: State, count: nat)

  function Inferred(subj: Term, pred: Term, obj: Term): Triple {
    Triple(NO_ID, subj, pred, obj, "", true)
  }

  ghost function AddTo(acc: Tally, t: Triple): Tally {
    if Found(acc.state, t) then acc else Tally(Put(acc.state, Identified(t)), acc.count + 1)
  }

  /** The test in the inner loop of a pass; data triples are selected by their predicate instead. */
  predicate Joined(rule: Rule, x: Triple, y: Triple) {
    IsUseRule(rule) || (x.obj.value == y.subj.value && x.subj.value != y.obj.value)
  }

  function NewTriple(rule: Rule, x: Triple, y: Triple): Triple {
    match rule
    case SubClassTransitivity => Inferred(NewIri(x.subj.value), NewIri(SUB_CLASS_OF), NewIri(y.obj.value))
    case TypePropagation => Inferred(x.subj, NewIri(TYPE), y.obj)
    case SubPropertyTransitivity => Inferred(x.subj, NewIri(SUB_PROPERTY_OF), y.obj)
    case PropertyPropagation => Inferred(y.subj, x.obj, y.obj)
    case DomainRule => Inferred(y.subj, NewIri(TYPE), x.obj)
    case RangeRule => Inferred(y.obj, NewIri(TYPE), x.obj)
  }

  /** The rules that read the data triples of every schema triple anew. */
  predicate IsUseRule(rule: Rule) {
    rule.PropertyPropagation? || rule.DomainRule? || rule.RangeRule?
  }

  /** Predicates of the two triples that a rule joins; in the last three rules the second is the subject of the first
      triple. */
  function FirstPredicate(rule: Rule): string {
    match rule
    case SubClassTransitivity => SUB_CLASS_OF
    case TypePropagation => TYPE
    case SubPropertyTransitivity => SUB_PROPERTY_OF
    case PropertyPropagation => SUB_PROPERTY_OF
    case DomainRule => DOMAIN
    case RangeRule => RANGE
  }

  function SecondPredicate(rule: Rule, x: Triple): string {
    if IsUseRule(rule) then x.subj.value
    else if rule.SubPropertyTransitivity? then SUB_PROPERTY_OF
    else SUB_CLASS_OF
  }

  ghost function JoinPairTo(acc: Tally, rule: Rule, x: Triple, y: Triple): Tally {
    if Joined(rule, x, y) then AddTo(acc, NewTriple(rule, x, y)) else acc
  }

  /** x has been joined with each of ys. */
  ghost function JoinRowTo(acc: Tally, rule: Rule, x: Triple, ys: seq<Triple>): Tally {
    if ys == [] then acc
    else JoinPairTo(JoinRowTo(acc, rule, x, ys[..|ys| - 1]), rule, x, ys[|ys| - 1])
  }

  function PredicateIs(p: string): Pattern {
    ANY.(pred := Some(Term(Iri, p, "", "")))
  }

  /** A query for the predicate p may return the triples in this order. */
  ghost predicate ListsPredicate(s: State, p: string, triples: seq<Triple>) {
    Returns(s, Answer(s, PredicateIs(p)), 0, triples)
  }

  /** x has been joined with what a query for its second predicate returned: in the first three rules before the pass,
      in s0; in the others just before the row. */
  ghost predicate JoinsOne(rule: Rule, s0: State, x: Triple, ys: seq<Triple>, start: Tally, end: Tally) {
    && ListsPredicate(if IsUseRule(rule) then start.state else s0, SecondPredicate(rule, x), ys)
    && end == JoinRowTo(start, rule, x, ys)
  }

  /** One row after the other, from tally to tally. */
  ghost predicate JoinsRows(rule: Rule, s0: State, xs: seq<Triple>, lists: seq<seq<Triple>>, tallies: seq<Tally>) {
    && |lists| == |xs| && |tallies| == |xs| + 1
    && forall i :: 0 <= i < |xs| ==> JoinsAt(rule, s0, xs, lists, tallies, i)
  }

  ghost predicate JoinsAt(rule: Rule, s0: State, xs: seq<Triple>, lists: seq<seq<Triple>>, tallies: seq<Tally>,
                          i: nat)
    requires i < |xs| == |lists| && |tallies| == |xs| + 1
  {
    JoinsOne(rule, s0, xs[i], lists[i], tallies[i], tallies[i + 1])
  }

  /** One pass over a rule can lead from s to t and return the count. */
  ghost predicate Passes(rule: Rule, s: State, t: State, count: nat) {
    exists xs, lists, tallies :: IsPass(rule, s, xs, lists, tallies, Tally(t, count))
  }

  ghost predicate IsPass(rule: Rule, s: State, xs: seq<Triple>, lists: seq<seq<Triple>>, tallies: seq<Tally>,
                         end: Tally) {
    && ListsPredicate(s, FirstPredicate(rule), xs) && JoinsRows(rule, s, xs, lists, tallies)
    && tallies[0] == Tally(s, 0) && tallies[|xs|] == end
  }

  /** One pass over each of the six rules in turn, and the sum of their counts. */
  ghost predicate IsCall(s: State, s1: State, s2: State, s3: State, s4: State, s5: State, t: State,
                         n0: nat, n1: nat, n2: nat, n3: nat, n4: nat, n5: nat, count: nat) {
    && Passes(SubClassTransitivity, s, s1, n0) && Passes(TypePropagation, s1, s2, n1)
    && Passes(SubPropertyTransitivity, s2, s3, n2) && Passes(PropertyPropagation, s3, s4, n3)
    && Passes(DomainRule, s4, s5, n4) && Passes(RangeRule, s5, t, n5)
    && count == n0 + n1 + n2 + n3 + n4 + n5
  }

  /** One call of Infer can lead from s to t and return the count. */
  ghost predicate Infers(s: State, t: State, count: nat) {
    exists s1, s2, s3, s4, s5, n0: nat, n1: nat, n2: nat, n3: nat, n4: nat, n5: nat ::
      IsCall(s, s1, s2, s3, s4, s5, t, n0, n1, n2, n3, n4, n5, count)
  }

  lemma AddKeepsFiled(acc: Tally, t: Triple)
    requires Filed(acc.state)
    ensures Filed(AddTo(acc, t).state)
  {
    ApplyKeepsFiled(acc.state, Upsert(t));
  }

  lemma OneMorePair(acc: Tally, rule: Rule, x: Triple, ys: seq<Triple>, j: nat)
    requires j < |ys|
    ensures JoinRowTo(acc, rule, x, ys[..j + 1]) == JoinPairTo(JoinRowTo(acc, rule, x, ys[..j]), rule, x, ys[j])
  {
    var front := ys[..j + 1];
    assert front[..|front| - 1] == ys[..j] && front[|front| - 1] == ys[j];
  }

  lemma OneMoreRow(rule: Rule, s0: State, xs: seq<Triple>, i: nat, lists: seq<seq<Triple>>, tallies: seq<Tally>,
                   ys: seq<Triple>, end: Tally)
    requires i < |xs| && JoinsRows(rule, s0, xs[..i], lists, tallies) && JoinsOne(rule, s0, xs[i], ys, tallies[i], end)
    ensures JoinsRows(rule, s0, xs[..i + 1], lists + [ys], tallies + [end])
  {
    hide JoinsOne;
    var more, longerLists, longer := xs[..i + 1], lists + [ys], tallies + [end];
    forall k | 0 <= k < |more|
      ensures JoinsAt(rule, s0, more, longerLists, longer, k)
    {
      if k < i {
        assert JoinsAt(rule, s0, xs[..i], lists, tallies, k);
        assert xs[..i][k] == more[k] && longer[k + 1] == tallies[k + 1];
      }
    }
  }

  lemma SixPasses(s: State, s1: State, s2: State, s3: State, s4: State, s5: State, t: State,
                  n0: nat, n1: nat, n2: nat, n3: nat, n4: nat, n5: nat, count: nat)
    requires IsCall(s, s1, s2, s3, s4, s5, t, n0, n1, n2, n3, n4, n5, count)
    ensures Infers(s, t, count)
  {
  }

  // ----- The inferencer -----

  class Inferencer {
    const store: Store

    constructor (store: Store)
      ensures this.store == store
    {
      this.store := store;
    }

    method WithPredicate(p: string) returns (triples: seq<Triple>)
      requires Filed(store.Now())
      ensures ListsPredicate(store.Now(), p, triples)
    {
      triples := store.Query(PredicateIs(p));
    }

    /** In every store, what is found is stored; and a stored fact is found if its subject or predicate is an IRI. */
    method Exists(t: Triple) returns (found: bool)
      requires Filed(store.Now())
      ensures found <==> Found(store.Now(), t)
      ensures found ==> FactOf(t) in FactsOf(store.Now())
      ensures Findable(FactOf(t)) && FactOf(t) in FactsOf(store.Now()) ==> found
    {
      FoundIffStored(store.Now(), t);
      var results := store.Query(SameTerms(t));
      for i := 0 to |results|
        invariant i == 0
      {
        var r := results[i];
        MatchIsSameFact(r, t);
        if r.subj.value == t.subj.value && r.pred.value == t.pred.value && r.obj.value == t.obj.value {
          return true;
        }
      }
      return false;
    }

    /** Stores the triple unless it is there already. */
    method Add(t: Triple, added: nat) returns (count: nat)
      requires Filed(store.Now())
      modifies store
      ensures Filed(store.Now())
      ensures Tally(store.Now(), count) == AddTo(Tally(old(store.Now()), added), t)
    {
      AddKeepsFiled(Tally(store.Now(), added), t);
      var found := Exists(t);
      if found {
        return added;
      }
      store.UpsertTriple(t);
      return added + 1;
    }

    /** The inner loop of every pass: x is joined with each of ys. */
    method JoinRow(rule: Rule, x: Triple, ys: seq<Triple>, added: nat) returns (count: nat)
      requires Filed(store.Now())
      modifies store
      ensures Filed(store.Now())
      ensures Tally(store.Now(), count) == JoinRowTo(Tally(old(store.Now()), added), rule, x, ys)
    {
      ghost var start := Tally(store.Now(), added);
      count := added;
      for j := 0 to |ys|
        invariant Filed(store.Now())
        invariant Tally(store.Now(), count) == JoinRowTo(start, rule, x, ys[..j])
      {
        OneMorePair(start, rule, x, ys, j);
        if Joined(rule, x, ys[j]) {
          count := Add(NewTriple(rule, x, ys[j]), count);
        }
      }
      assert ys[..|ys|] == ys;
    }

    /** inferSubClassTransitivity, inferTypePropagation and inferSubPropertyTransitivity: both lists are read before the
        pass starts. */
    method ChainPass(rule: Rule) returns (count: nat)
      requires Filed(store.Now()) && !IsUseRule(rule)
      modifies store
      ensures Filed(store.Now()) && Passes(rule, old(store.Now()), store.Now(), count)
    {
      ghost var s := store.Now();
      var xs := WithPredicate(FirstPredicate(rule));
      var ys := WithPredicate(if rule.SubPropertyTransitivity? then SUB_PROPERTY_OF else SUB_CLASS_OF);
      count := 0;
      ghost var lists: seq<seq<Triple>>, tallies := [], [Tally(s, 0)];
      for i := 0 to |xs|
        invariant Filed(store.Now())
        invariant JoinsRows(rule, s, xs[..i], lists, tallies)
        invariant tallies[0] == Tally(s, 0) && tallies[i] == Tally(store.Now(), count)
      {
        count := JoinRow(rule, xs[i], ys, count);
        OneMoreRow(rule, s, xs, i, lists, tallies, ys, Tally(store.Now(), count));
        lists, tallies := lists + [ys], tallies + [Tally(store.Now(), count)];
      }
      assert xs[..|xs|] == xs;
      assert IsPass(rule, s, xs, lists, tallies, Tally(store.Now(), count));
    }

    /** inferPropertyTypePropagation, inferDomain and inferRange: the data triples are read for every schema triple
        anew. */
    method UsePass(rule: Rule) returns (count: nat)
      requires Filed(store.Now()) && IsUseRule(rule)
      modifies store
      ensures Filed(store.Now()) && Passes(rule, old(store.Now()), store.Now(), count)
    {
      ghost var s := store.Now();
      var xs := WithPredicate(FirstPredicate(rule));
      count := 0;
      ghost var lists: seq<seq<Triple>>, tallies := [], [Tally(s, 0)];
      for i := 0 to |xs|
        invariant Filed(store.Now())
        invariant JoinsRows(rule, s, xs[..i], lists, tallies)
        invariant tallies[0] == Tally(s, 0) && tallies[i] == Tally(store.Now(), count)
      {
        var ys := WithPredicate(xs[i].subj.value);
        count := JoinRow(rule, xs[i], ys, count);
        OneMoreRow(rule, s, xs, i, lists, tallies, ys, Tally(store.Now(), count));
        lists, tallies := lists + [ys], tallies + [Tally(store.Now(), count)];
      }
      assert xs[..|xs|] == xs;
      assert IsPass(rule, s, xs, lists, tallies, Tally(store.Now(), count));
    }

    /** One call: a pass over each rule, and the counts add up. */
    method Infer() returns (count: nat)
      requires Filed(store.Now())
      modifies store
      ensures Filed(store.Now()) && Infers(old(store.Now()), store.Now(), count)
    {
      ghost var s0 := store.Now();
      var subClass := ChainPass(SubClassTransitivity);
      ghost var s1 := store.Now();
      var types := ChainPass(TypePropagation);
      ghost var s2 := store.Now();
      var subProperty := ChainPass(SubPropertyTransitivity);
      ghost var s3 := store.Now();
      var uses := UsePass(PropertyPropagation);
      ghost var s4 := store.Now();
      var domains := UsePass(DomainRule);
      ghost var s5 := store.Now();
      var ranges := UsePass(RangeRule);
      ghost var s6 := store.Now();
      count := subClass + types + subProperty + uses + domains + ranges;
      SixPasses(s0, s1, s2, s3, s4, s5, s6, subClass, types, subProperty, uses, domains, ranges, count);
    }

    method DeleteAll(results: seq<Triple>)
      requires Filed(store.Now())
      modifies store
      ensures Filed(store.Now())
      ensures Without(old(store.triples), store.triples, results)
    {
      for i := 0 to |results|
        invariant Filed(store.Now())
        invariant Without(old(store.triples), store.triples, results[..i])
      {
        ApplyKeepsFiled(store.Now(), Delete(results[i].id));
        OneMoreWithout(old(store.triples), store.triples, results, i);
        var found := store.DeleteTriple(results[i].id);
      }
      assert results[..|results|] == results;
    }

    method ClearInferred()
      requires Filed(store.Now())
      modifies store
      ensures Filed(store.Now()) && store.triples == Asserted(old(store.Now()))
    {
      ghost var s := store.Now();
      var results := store.Query(MARKED);
      InferredAreReturned(s, results);
      DeleteAll(results);
      assert store.triples == Asserted(s);
    }
  }

  // ----- Taking inferences back -----

  const MARKED := ANY.(inferred := Some(true))

  /** The records that are not marked as inferred. */
  function Asserted(s: State): map<TripleId, Triple> {
    map id | id in s.triples && !s.triples[id].inferred :: s.triples[id]
  }

  ghost predicate HasRecord(results: seq<Triple>, id: TripleId) {
    exists i :: 0 <= i < |results| && results[i].id == id
  }

  /** The records of the results have been deleted, and no others. */
  ghost predicate Without(before: map<TripleId, Triple>, after: map<TripleId, Triple>, results: seq<Triple>) {
    && (forall id :: id in after <==> id in before && !HasRecord(results, id))
    && (forall id :: id in after ==> after[id] == before[id])
  }

  lemma OneMoreWithout(before: map<TripleId, Triple>, after: map<TripleId, Triple>, results: seq<Triple>, n: nat)
    requires n < |results| && Without(before, after, results[..n])
    ensures Without(before, after - {results[n].id}, results[..n + 1])
    ensures results[n].id !in after ==> Without(before, after, results[..n + 1])
  {
    var more := results[..n + 1];
    forall id
      ensures HasRecord(more, id) <==> HasRecord(results[..n], id) || results[n].id == id
    {
      assert forall i :: 0 <= i <= n ==> more[i] == results[i];
    }
  }

  lemma InferredAreReturned(s: State, results: seq<Triple>)
    requires Filed(s) && Returns(s, Answer(s, MARKED), 0, results)
    ensures forall id :: id in s.triples ==> (HasRecord(results, id) <==> s.triples[id].inferred)
  {
    IndexAgreesWithScan(s, MARKED);
    forall id | id in s.triples
      ensures HasRecord(results, id) <==> s.triples[id].inferred
    {
      assert id in Answer(s, MARKED) <==> s.triples[id].inferred;
    }
  }
}

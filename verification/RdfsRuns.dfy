/**
 pkg/rdf/rdfs.go: what calls of Infer, one after the other, do to a store, and when they come to an end.

 In a tame store no two derivable facts fight for an ID. Stores of plain IRIs are tame; stores with literals or blank
 nodes may or may not be.
 */
module RdfsRuns {
  import opened Scans
  import opened RdfStore
  import opened RdfsRules
  import opened Rdfs
  import opened RdfsGrowth

  /** Every record is filed, and no two facts that can be derived from the store differ only in the kind of a term. */
  ghost predicate Tame(s: State) {
    Orderly(s, Closure(FactsOf(s)))
  }

  // ----- One call -----

  /** Main result: in a tame store, one call is one step of the rules, and it returns by how many records the store has
      grown. */
  lemma TameCall(s: State, t: State, count: nat)
    requires Tame(s) && Infers(s, t, count)
    ensures Tame(t) && Recorded(s, t, count) && InferStep(FactsOf(s), FactsOf(t))
  {
    var c := Closure(FactsOf(s));
    ClosureIsLeast(FactsOf(s));
    var ts := InferAdds(s, t, count, c);
    AddAllInOrder(Tally(s, 0), ts, c);
    assert FactsOf(t) <= c && Sound(FactsOf(s), c);
    ClosureStays(FactsOf(s), FactsOf(t));
  }

  /** Main result: in any store, a call that returns 0 has changed nothing and found nothing left to derive. */
  lemma ZeroMeansClosed(s: State, t: State)
    requires Filed(s) && Infers(s, t, 0)
    ensures t == s && Closed(FactsOf(s))
  {
    var c := Closure(FactsOf(s));
    ClosureIsLeast(FactsOf(s));
    var ts := InferAdds(s, t, 0, c);
    AddAllCounts(Tally(s, 0), ts);
  }

  lemma RecordedIsGrowth(s: State, t: State, n: nat)
    requires Recorded(s, t, n)
    ensures FactsOf(s) <= FactsOf(t) && |FactsOf(t)| == |FactsOf(s)| + n
    ensures n == 0 <==> FactsOf(t) == FactsOf(s)
  {
    SubsetSize(FactsOf(s), FactsOf(t));
  }

  /** The count tells by how many facts the store has grown; it is 0 exactly when there are no new facts. */
  lemma CountIsNewFacts(s: State, t: State, count: nat)
    requires Tame(s) && Infers(s, t, count)
    ensures FactsOf(s) <= FactsOf(t) && |FactsOf(t)| == |FactsOf(s)| + count
    ensures count == 0 <==> FactsOf(t) == FactsOf(s)
  {
    TameCall(s, t, count);
    RecordedIsGrowth(s, t, count);
  }

  // ----- Stores of plain IRIs -----

  ghost predicate IriOnly(s: State) {
    && Filed(s) && Generated(s)
    && forall id :: id in s.triples ==>
         var t := s.triples[id];
         IsPlainIri(t.subj) && IsPlainIri(t.pred) && IsPlainIri(t.obj)
  }

  lemma IriTerms(s: State, n: Node)
    requires IriOnly(s) && n in Rebuilt(Terms(FactsOf(s)))
    ensures n.kind == Iri
  {
    hide Filed, Generated;
    if n in Terms(FactsOf(s)) {
      var f :| f in FactsOf(s) && (f.s == n || f.p == n || f.o == n);
      var id :| id in s.triples && f == FactOf(s.triples[id]);
    }
  }

  lemma IriFacts(s: State, f: Fact)
    requires IriOnly(s) && f in Closure(FactsOf(s))
    ensures f.s.kind == Iri && f.p.kind == Iri && f.o.kind == Iri
  {
    InUniverse(Rebuilt(Terms(FactsOf(s))), f);
    IriTerms(s, f.s);
    IriTerms(s, f.p);
    IriTerms(s, f.o);
  }

  lemma IriOnlyIsTame(s: State)
    requires IriOnly(s)
    ensures Tame(s)
  {
    var c := Closure(FactsOf(s));
    ClosureIsLeast(FactsOf(s));
    forall f | f in c
      ensures Findable(f) && OnlyFact(IdOf(f), f, c)
    {
      IriFacts(s, f);
      forall g | g in c && IdOf(g) == IdOf(f)
        ensures g == f
      {
        IriFacts(s, g);
      }
    }
    forall id | id in s.triples
      ensures OnlyFact(id, FactOf(s.triples[id]), c)
    {
      assert FactOf(s.triples[id]) in FactsOf(s) && id == IdOf(FactOf(s.triples[id]));
    }
  }

  // ----- Runs of calls -----

  /** Each state results from the one before it by one call of Infer, which returned the count. */
  ghost predicate InferRun(states: seq<State>, counts: seq<nat>) {
    && |states| == |counts| + 1 && Filed(states[0])
    && forall i: nat :: i < |counts| ==> IsCallAt(states, counts, i)
  }

  ghost predicate IsCallAt(states: seq<State>, counts: seq<nat>, i: nat)
    requires |states| == |counts| + 1 && i < |counts|
  {
    Infers(states[i], states[i + 1], counts[i])
  }

  lemma TameCallOf(states: seq<State>, counts: seq<nat>, i: nat)
    requires InferRun(states, counts) && i < |counts| && Tame(states[i])
    ensures Tame(states[i + 1]) && Recorded(states[i], states[i + 1], counts[i])
    ensures InferStep(FactsOf(states[i]), FactsOf(states[i + 1]))
  {
    assert IsCallAt(states, counts, i);
    TameCall(states[i], states[i + 1], counts[i]);
  }

  lemma {:induction false} RunStaysTame(states: seq<State>, counts: seq<nat>, i: nat)
    requires InferRun(states, counts) && Tame(states[0]) && i < |states|
    ensures Tame(states[i])
  {
    if i > 0 {
      RunStaysTame(states, counts, i - 1);
      TameCallOf(states, counts, i - 1);
    }
  }

  lemma StepOfFacts(states: seq<State>, counts: seq<nat>, i: nat, g: Facts, h: Facts)
    requires InferRun(states, counts) && Tame(states[0]) && i < |counts|
    requires g == FactsOf(states[i]) && h == FactsOf(states[i + 1])
    ensures InferStep(g, h) && (counts[i] == 0 <==> g == h)
  {
    RunStaysTame(states, counts, i);
    TameCallOf(states, counts, i);
    RecordedIsGrowth(states[i], states[i + 1], counts[i]);
  }

  lemma RunOfFacts(states: seq<State>, counts: seq<nat>) returns (run: seq<Facts>)
    requires InferRun(states, counts) && Tame(states[0])
    ensures |run| == |states| && IsRun(run) && forall i :: 0 <= i < |states| ==> run[i] == FactsOf(states[i])
    ensures forall i :: 0 <= i < |counts| ==> (counts[i] == 0 <==> run[i] == run[i + 1])
  {
    run := seq(|states|, i requires 0 <= i < |states| => FactsOf(states[i]));
    forall i | 0 <= i < |counts|
      ensures InferStep(run[i], run[i + 1]) && (counts[i] == 0 <==> run[i] == run[i + 1])
    {
      StepOfFacts(states, counts, i, run[i], run[i + 1]);
    }
  }

  /** Main result: calls on a tame store that keep returning a positive count come to an end. */
  lemma RepeatedInferEnds(states: seq<State>, counts: seq<nat>)
    requires InferRun(states, counts) && Tame(states[0]) && forall i :: 0 <= i < |counts| ==> counts[i] > 0
    ensures
      var n := |Rebuilt(Terms(FactsOf(states[0])))|;
      |FactsOf(states[0])| + |counts| <= n * n * n
  {
    var run := RunOfFacts(states, counts);
    ProductiveRunIsBounded(run);
  }

  /** In a store of plain IRIs rdf:type is the only term that the rules can bring in. */
  lemma IriOnlyEnds(states: seq<State>, counts: seq<nat>)
    requires InferRun(states, counts) && IriOnly(states[0]) && forall i :: 0 <= i < |counts| ==> counts[i] > 0
    ensures
      var n := |Terms(FactsOf(states[0])) + {Word(TYPE)}|;
      |FactsOf(states[0])| + |counts| <= n * n * n
  {
    var terms := Terms(FactsOf(states[0]));
    forall n | n in terms
      ensures n == Name(n.value)
    {
      IriTermIsPlain(states[0], n);
    }
    PlainTermsRebuilt(terms);
    IriOnlyIsTame(states[0]);
    RepeatedInferEnds(states, counts);
  }

  lemma IriTermIsPlain(s: State, n: Node)
    requires IriOnly(s) && n in Terms(FactsOf(s))
    ensures n == Name(n.value)
  {
    hide Filed, Generated;
    var f :| f in FactsOf(s) && (f.s == n || f.p == n || f.o == n);
    var id :| id in s.triples && f == FactOf(s.triples[id]);
  }

  /** Main result: when a call on a tame store returns 0, the store holds exactly the facts that the rules derive from
      what it held at the start of the run. */
  lemma ZeroCountIsFixpoint(states: seq<State>, counts: seq<nat>, f: Fact)
    requires InferRun(states, counts) && Tame(states[0]) && counts != [] && counts[|counts| - 1] == 0
    ensures f in FactsOf(states[|counts|]) <==> Derivable(f, FactsOf(states[0]))
  {
    var run := RunOfFacts(states, counts);
    IdlePassMeansClosed(run);
    LeastClosedIsDerivable(run[0], run[|run| - 1], f);
  }

  /** Main result: k calls relate any two different classes that an asserted path of at most 2^k links joins. */
  lemma CallsDoublePaths(states: seq<State>, counts: seq<nat>, p: seq<string>)
    requires InferRun(states, counts) && Tame(states[0]) && SubClassPath(FactsOf(states[0]), p)
    requires p[0] != p[|p| - 1] && |p| - 1 <= PowerOfTwo(|counts|)
    ensures SubClass(p[0], p[|p| - 1]) in FactsOf(states[|counts|])
  {
    var run := RunOfFacts(states, counts);
    PathDoubling(run, |counts|, p);
  }

  // ----- Undoing inference -----

  /** No derivable fact can overwrite a stored one with another fact. */
  ghost predicate Unrivalled(s: State) {
    NoRival(s, Closure(FactsOf(s)))
  }

  ghost predicate NoRival(s: State, c: Facts) {
    forall id :: id in s.triples ==> OnlyFact(id, FactOf(s.triples[id]), c)
  }

  ghost predicate AllFindable(c: Facts) {
    forall f :: f in c ==> Findable(f)
  }

  /** The records of s are in t as they were, and all others are marked as inferred. */
  ghost predicate GrownFrom(s: State, t: State) {
    && (forall id :: id in s.triples ==> id in t.triples && t.triples[id] == s.triples[id])
    && (forall id :: id in t.triples && id !in s.triples ==> t.triples[id].inferred)
  }

  /** A fact that would replace a record of s is the fact of that record, and so it is found and nothing is written. */
  lemma AddLeavesRecords(s: State, acc: Tally, t: Triple, c: Facts)
    requires Filed(acc.state) && GrownFrom(s, acc.state) && AllFindable(c)
    requires NoRival(s, c)
    requires FactOf(t) in c && t.id == NO_ID && t.inferred
    ensures GrownFrom(s, AddTo(acc, t).state)
  {
    var id := Identified(t).id;
    assert id == IdOf(FactOf(t));
    FoundIffStored(acc.state, t);
    if id in s.triples {
      assert OnlyFact(id, FactOf(s.triples[id]), c);
      assert FactOf(acc.state.triples[id]) in FactsOf(acc.state);
    }
  }

  lemma {:induction false} AddAllLeavesRecords(s: State, acc: Tally, ts: seq<Triple>, c: Facts)
    requires Filed(acc.state) && GrownFrom(s, acc.state) && AllFindable(c) && Yields(ts, c)
    requires NoRival(s, c)
    ensures GrownFrom(s, AddAll(acc, ts).state)
    decreases |ts|
  {
    if ts != [] {
      var front := ts[..|ts| - 1];
      AddAllLeavesRecords(s, acc, front, c);
      AddAllFiled(acc, front);
      AddLeavesRecords(s, AddAll(acc, front), ts[|ts| - 1], c);
    }
  }

  lemma CallLeavesRecords(s: State, t: State, u: State, count: nat, c: Facts)
    requires Filed(t) && GrownFrom(s, t) && FactsOf(t) <= c && Closed(c) && AllFindable(c) && Infers(t, u, count)
    requires NoRival(s, c)
    ensures Filed(u) && GrownFrom(s, u) && FactsOf(u) <= c
  {
    hide Filed, GrownFrom, FactsOf, Closed, AllFindable, Infers, NoRival, Yields, AddAll, Steady;
    var ts := InferAdds(t, u, count, c);
    AddAllFiled(Tally(t, 0), ts);
    AddAllFacts(Tally(t, 0), ts, c);
    AddAllLeavesRecords(s, Tally(t, 0), ts, c);
  }

  lemma {:induction false} RunLeavesRecords(states: seq<State>, counts: seq<nat>, c: Facts, i: nat)
    requires InferRun(states, counts) && FactsOf(states[0]) <= c && Closed(c) && AllFindable(c) && NoRival(states[0], c)
    requires i < |states|
    ensures Filed(states[i]) && GrownFrom(states[0], states[i]) && FactsOf(states[i]) <= c
  {
    hide FactsOf, Filed, Infers, Closed, AllFindable, NoRival;
    if i > 0 {
      RunLeavesRecords(states, counts, c, i - 1);
      assert IsCallAt(states, counts, i - 1);
      CallLeavesRecords(states[0], states[i - 1], states[i], counts[i - 1], c);
    }
  }

  ghost predicate AllAsserted(s: State) {
    forall id :: id in s.triples ==> !s.triples[id].inferred
  }

  lemma ClearForgetsGrowth(s: State, t: State)
    requires GrownFrom(s, t) && AllAsserted(s)
    ensures Asserted(t) == s.triples
  {
  }

  /** Main result: when nothing was inferred before and no derivable fact can overwrite a stored one, any number of
      calls followed by a clear leaves exactly the records there were, even where the calls never come to an end. */
  lemma ClearUndoesInference(states: seq<State>, counts: seq<nat>)
    requires InferRun(states, counts) && Unrivalled(states[0]) && AllFindable(Closure(FactsOf(states[0])))
    requires AllAsserted(states[0])
    ensures Asserted(states[|counts|]) == states[0].triples
  {
    var c := Closure(FactsOf(states[0]));
    ClosureIsLeast(FactsOf(states[0]));
    RunLeavesRecords(states, counts, c, |counts|);
    ClearForgetsGrowth(states[0], states[|counts|]);
  }

  // ----- Stores that are not tame -----

  /** What a call keeps in any store: facts without a rival in a closed set that contains the stored facts. */
  lemma SafeFactsStay(s: State, t: State, count: nat, c: Facts)
    requires Filed(s) && FactsOf(s) <= c && Closed(c) && Infers(s, t, count)
    ensures Filed(t) && FactsOf(t) <= c && SafeFacts(s, c) <= SafeFacts(t, c)
    ensures Generated(s) ==> Generated(t)
  {
    var ts := InferAdds(s, t, count, c);
    AddAllFiled(Tally(s, 0), ts);
    AddAllFacts(Tally(s, 0), ts, c);
    forall f | f in SafeFacts(s, c)
      ensures f in SafeFacts(t, c)
    {
      var id :| id in s.triples && OnlyFact(id, FactOf(s.triples[id]), c) && f == FactOf(s.triples[id]);
      AddAllKeepsSafe(Tally(s, 0), ts, c, id, f);
    }
    if Generated(s) {
      AddAllGenerated(Tally(s, 0), ts, c);
    }
  }

  lemma SafeFactsStayIn(states: seq<State>, counts: seq<nat>, i: nat, c: Facts)
    requires InferRun(states, counts) && i < |counts| && Filed(states[i]) && FactsOf(states[i]) <= c && Closed(c)
    ensures Filed(states[i + 1]) && FactsOf(states[i + 1]) <= c
    ensures SafeFacts(states[i], c) <= SafeFacts(states[i + 1], c)
    ensures Generated(states[i]) ==> Generated(states[i + 1])
  {
    assert IsCallAt(states, counts, i);
    SafeFactsStay(states[i], states[i + 1], counts[i], c);
  }

  lemma {:induction false} RunKeepsSafe(states: seq<State>, counts: seq<nat>, c: Facts, i: nat)
    requires InferRun(states, counts) && i < |states| && FactsOf(states[0]) <= c && Closed(c) && Generated(states[0])
    ensures Filed(states[i]) && FactsOf(states[i]) <= c && Generated(states[i])
    ensures SafeFacts(states[0], c) <= SafeFacts(states[i], c)
  {
    if i > 0 {
      RunKeepsSafe(states, counts, c, i - 1);
      SafeFactsStayIn(states, counts, i - 1, c);
    }
  }

  lemma OneFactPerId(s: State, e: Fact, f: Fact)
    requires Generated(s) && e in FactsOf(s) && f in FactsOf(s) && IdOf(e) == IdOf(f)
    ensures e == f
  {
    var i :| i in s.triples && e == FactOf(s.triples[i]);
    var j :| j in s.triples && f == FactOf(s.triples[j]);
    assert i == IdOf(e) && j == IdOf(f);
  }

  /** Main result: when two facts that fight for an ID can be derived from facts that nothing overwrites, no call ever
      returns 0: the two overwrite each other for good, and every overwriting is counted. */
  lemma FightNeverEnds(states: seq<State>, counts: seq<nat>, c: Facts, e: Fact, f: Fact, i: nat)
    requires InferRun(states, counts) && Generated(states[0]) && FactsOf(states[0]) <= c && Closed(c)
    requires Derivable(e, SafeFacts(states[0], c)) && Derivable(f, SafeFacts(states[0], c))
    requires e != f && IdOf(e) == IdOf(f) && i < |counts|
    ensures counts[i] > 0
  {
    RunKeepsSafe(states, counts, c, i);
    if counts[i] == 0 {
      var g := FactsOf(states[i]);
      assert IsCallAt(states, counts, i);
      ZeroMeansClosed(states[i], states[i + 1]);
      assert SafeFacts(states[0], c) <= SafeFacts(states[i], c) <= g;
      DerivableInClosed(e, SafeFacts(states[0], c), g);
      DerivableInClosed(f, SafeFacts(states[0], c), g);
      OneFactPerId(states[i], e, f);
      assert false;
    }
  }

  /** Main result: a long run of calls returns 0 at some point exactly when no two derivable facts fight for an ID. */
  lemma EndsExactly(states: seq<State>, counts: seq<nat>)
    requires InferRun(states, counts) && Generated(states[0]) && Unrivalled(states[0])
    requires AllFindable(Closure(FactsOf(states[0])))
    requires
      var n := |Rebuilt(Terms(FactsOf(states[0])))|;
      |counts| > n * n * n
    ensures (exists i :: 0 <= i < |counts| && counts[i] == 0) <==> Separate(Closure(FactsOf(states[0])))
  {
    var s, g := states[0], FactsOf(states[0]);
    var c := Closure(g);
    ClosureIsLeast(g);
    if Separate(c) {
      assert Tame(s);
      if forall i :: 0 <= i < |counts| ==> counts[i] > 0 {
        RepeatedInferEnds(states, counts);
        assert false;
      }
    } else {
      var f :| f in c && !OnlyFact(IdOf(f), f, c);
      var e :| e in c && IdOf(e) == IdOf(f) && e != f;
      AllSafe(s);
      forall i | 0 <= i < |counts|
        ensures counts[i] != 0
      {
        FightNeverEnds(states, counts, c, e, f, i);
      }
    }
  }

  lemma AllSafe(s: State)
    requires Unrivalled(s)
    ensures SafeFacts(s, Closure(FactsOf(s))) == FactsOf(s)
  {
  }

  // ----- A literal and an IRI that fight -----

  function Statement(s: Term, p: string, o: Term): Triple {
    Triple(NO_ID, s, Term(Iri, p, "", ""), o, "", false)
  }

  function Plain(v: string): Term {
    Term(Iri, v, "", "")
  }

  /** p and r are both sub-properties of q, and x has the literal a under p and the IRI a under r. */
  function Twins(x: string, p: string, r: string, q: string, a: string): seq<Op> {
    [Upsert(Statement(Plain(p), SUB_PROPERTY_OF, Plain(q))), Upsert(Statement(Plain(r), SUB_PROPERTY_OF, Plain(q))),
     Upsert(Statement(Plain(x), p, Term(Literal, a, "", ""))), Upsert(Statement(Plain(x), r, Plain(a)))]
  }

  ghost function TwinFacts(x: string, p: string, r: string, q: string, a: string): Facts {
    {Fact(Word(p), Word(SUB_PROPERTY_OF), Word(q)), Fact(Word(r), Word(SUB_PROPERTY_OF), Word(q)),
     Fact(Word(x), Word(p), Node(Literal, a)), Fact(Word(x), Word(r), Word(a))}
  }

  ghost function Fighters(x: string, q: string, a: string): Facts {
    {Fact(Word(x), Word(q), Node(Literal, a)), Fact(Word(x), Word(q), Word(a))}
  }

  predicate Ordinary(name: string) {
    name != TYPE && name != SUB_CLASS_OF && name != SUB_PROPERTY_OF && name != DOMAIN && name != RANGE
  }

  predicate GoodNames(p: string, r: string, q: string) {
    Ordinary(p) && Ordinary(r) && Ordinary(q) && p != r && p != q && r != q
  }

  lemma ShortIsOrdinary(name: string)
    requires |name| < 3
    ensures Ordinary(name)
  {
    assert |W3| == 18 && |RDF| >= 18 && |RDFS| >= 18;
  }

  lemma VocabularyDiffers()
    ensures SUB_PROPERTY_OF != TYPE && SUB_PROPERTY_OF != SUB_CLASS_OF
    ensures SUB_PROPERTY_OF != DOMAIN && SUB_PROPERTY_OF != RANGE
  {
    assert |W3| == 18 && |RDF| == 43 && |RDFS| == 37;
    assert |"subPropertyOf"| == 13 && |"type"| == 4 && |"subClassOf"| == 10 && |"domain"| == 6 && |"range"| == 5;
  }

  lemma TwinShape(x: string, p: string, r: string, q: string, a: string, e: Fact)
    requires GoodNames(p, r, q) && e in TwinFacts(x, p, r, q, a) + Fighters(x, q, a)
    ensures e.p == Word(SUB_PROPERTY_OF) || e.p == Word(p) || e.p == Word(r) || e.p == Word(q)
    ensures e.p == Word(SUB_PROPERTY_OF) ==> e.o == Word(q) && (e.s == Word(p) || e.s == Word(r))
    ensures e.p == Word(p) || e.p == Word(r) ==> e in TwinFacts(x, p, r, q, a)
  {
  }

  lemma FiringTwins(x: string, p: string, r: string, q: string, a: string, rule: Rule, e: Fact, f: Fact)
    requires GoodNames(p, r, q) && Fires(rule, e, f)
    requires e in TwinFacts(x, p, r, q, a) + Fighters(x, q, a) && f in TwinFacts(x, p, r, q, a) + Fighters(x, q, a)
    ensures rule.PropertyPropagation? && e.o == Word(q) && f in TwinFacts(x, p, r, q, a)
    ensures f.p == Word(p) || f.p == Word(r)
  {
    VocabularyDiffers();
    TwinShape(x, p, r, q, a, e);
    TwinShape(x, p, r, q, a, f);
  }

  lemma TwinsClosed(x: string, p: string, r: string, q: string, a: string)
    requires GoodNames(p, r, q)
    ensures Closed(TwinFacts(x, p, r, q, a) + Fighters(x, q, a))
  {
    var c := TwinFacts(x, p, r, q, a) + Fighters(x, q, a);
    forall rule: Rule
      ensures Covers(rule, c, c)
    {
      forall e, f | e in c && f in c && Fires(rule, e, f)
        ensures Conclusion(rule, e, f) in c
      {
        FiringTwins(x, p, r, q, a, rule, e, f);
      }
    }
  }

  lemma UpsertMore(s: State, t: Triple)
    requires Filed(s) && Generated(s) && AllAsserted(s) && t.id == NO_ID && HashTriple(t) !in s.triples && !t.inferred
    ensures Filed(Apply(s, Upsert(t))) && Generated(Apply(s, Upsert(t))) && AllAsserted(Apply(s, Upsert(t)))
    ensures FactsOf(Apply(s, Upsert(t))) == FactsOf(s) + {FactOf(t)}
    ensures Apply(s, Upsert(t)).triples.Keys == s.triples.Keys + {HashTriple(t)}
  {
    ApplyKeepsFiled(s, Upsert(t));
    PutFacts(s, Identified(t));
  }

  lemma RunMore(ops: seq<Op>, op: Op)
    ensures Run(ops + [op]) == Apply(Run(ops), op)
  {
    assert (ops + [op])[..|ops|] == ops;
  }

  lemma RunUpsert(ops: seq<Op>, t: Triple, more: seq<Op>, s: State)
    requires more == ops + [Upsert(t)] && s == Run(ops) && Filed(s) && Generated(s) && AllAsserted(s)
    requires t.id == NO_ID && !t.inferred && HashTriple(t) !in s.triples.Keys
    ensures Filed(Run(more)) && Generated(Run(more)) && AllAsserted(Run(more))
    ensures FactsOf(Run(more)) == FactsOf(s) + {FactOf(t)}
    ensures Run(more).triples.Keys == s.triples.Keys + {HashTriple(t)}
  {
    RunMore(ops, Upsert(t));
    UpsertMore(s, t);
  }

  lemma TwoStatements(t: Triple, u: Triple, ops: seq<Op>)
    requires t.id == NO_ID && u.id == NO_ID && !t.inferred && !u.inferred
    requires HashTriple(u) != HashTriple(t) && ops == [Upsert(t), Upsert(u)]
    ensures Filed(Run(ops)) && Generated(Run(ops)) && AllAsserted(Run(ops))
    ensures FactsOf(Run(ops)) == {FactOf(t), FactOf(u)}
    ensures Run(ops).triples.Keys == {HashTriple(t), HashTriple(u)}
  {
    RunUpsert([], t, [Upsert(t)], EMPTY);
    RunUpsert([Upsert(t)], u, ops, Run([Upsert(t)]));
    assert FactsOf(EMPTY) == {};
  }

  lemma FourStatements(t: Triple, u: Triple, v: Triple, w: Triple, two: seq<Op>, three: seq<Op>, four: seq<Op>)
    requires t.id == NO_ID && u.id == NO_ID && v.id == NO_ID && w.id == NO_ID
    requires !t.inferred && !u.inferred && !v.inferred && !w.inferred
    requires HashTriple(u) != HashTriple(t) && HashTriple(v) !in {HashTriple(t), HashTriple(u)}
    requires HashTriple(w) !in {HashTriple(t), HashTriple(u), HashTriple(v)}
    requires two == [Upsert(t), Upsert(u)] && three == two + [Upsert(v)] && four == three + [Upsert(w)]
    ensures Filed(Run(four)) && Generated(Run(four)) && AllAsserted(Run(four))
    ensures FactsOf(Run(four)) == {FactOf(t), FactOf(u), FactOf(v), FactOf(w)}
  {
    hide Run, Filed, Generated, FactOf, FactsOf, HashTriple, AllAsserted;
    TwoStatements(t, u, two);
    RunUpsert(two, v, three, Run(two));
    RunUpsert(three, w, four, Run(three));
  }

  lemma TwinsStore(x: string, p: string, r: string, q: string, a: string)
    requires GoodNames(p, r, q)
    ensures
      var s := Run(Twins(x, p, r, q, a));
      Filed(s) && Generated(s) && AllAsserted(s) && FactsOf(s) == TwinFacts(x, p, r, q, a)
  {
    var ops := Twins(x, p, r, q, a);
    FourStatements(Statement(Plain(p), SUB_PROPERTY_OF, Plain(q)), Statement(Plain(r), SUB_PROPERTY_OF, Plain(q)),
                   Statement(Plain(x), p, Term(Literal, a, "", "")), Statement(Plain(x), r, Plain(a)),
                   ops[..2], ops[..3], ops);
  }

  lemma TwinHasNoRival(x: string, p: string, r: string, q: string, a: string, e: Fact)
    requires GoodNames(p, r, q) && e in TwinFacts(x, p, r, q, a)
    ensures OnlyFact(IdOf(e), e, TwinFacts(x, p, r, q, a) + Fighters(x, q, a))
  {
    VocabularyDiffers();
  }

  lemma TwinsAreSafe(s: State, x: string, p: string, r: string, q: string, a: string)
    requires GoodNames(p, r, q) && Generated(s) && FactsOf(s) == TwinFacts(x, p, r, q, a)
    ensures NoRival(s, TwinFacts(x, p, r, q, a) + Fighters(x, q, a))
    ensures SafeFacts(s, TwinFacts(x, p, r, q, a) + Fighters(x, q, a)) == FactsOf(s)
  {
    var c := TwinFacts(x, p, r, q, a) + Fighters(x, q, a);
    forall id | id in s.triples
      ensures OnlyFact(id, FactOf(s.triples[id]), c)
    {
      assert FactOf(s.triples[id]) in FactsOf(s) && id == IdOf(FactOf(s.triples[id]));
      TwinHasNoRival(x, p, r, q, a, FactOf(s.triples[id]));
    }
  }

  /** Main result: no call on this store, or on what earlier calls made of it, ever returns 0. */
  lemma TwinsNeverEnd(x: string, p: string, r: string, q: string, a: string, states: seq<State>, counts: seq<nat>,
                      i: nat)
    requires GoodNames(p, r, q) && InferRun(states, counts) && states[0] == Run(Twins(x, p, r, q, a)) && i < |counts|
    ensures counts[i] > 0
  {
    var g, s := TwinFacts(x, p, r, q, a), states[0];
    TwinsStore(x, p, r, q, a);
    TwinsAreSafe(s, x, p, r, q, a);
    TwinsClosed(x, p, r, q, a);
    var isSub, isSub' := Fact(Word(p), Word(SUB_PROPERTY_OF), Word(q)), Fact(Word(r), Word(SUB_PROPERTY_OF), Word(q));
    var has, has' := Fact(Word(x), Word(p), Node(Literal, a)), Fact(Word(x), Word(r), Word(a));
    GivenIsDerivable(isSub, g);
    GivenIsDerivable(isSub', g);
    GivenIsDerivable(has, g);
    GivenIsDerivable(has', g);
    ConclusionIsDerivable(PropertyPropagation, isSub, has, g);
    ConclusionIsDerivable(PropertyPropagation, isSub', has', g);
    FightNeverEnds(states, counts, g + Fighters(x, q, a), Fact(Word(x), Word(q), Node(Literal, a)),
                   Fact(Word(x), Word(q), Word(a)), i);
  }

  lemma TwinPredicates(x: string, p: string, r: string, q: string, a: string)
    ensures forall f :: f in TwinFacts(x, p, r, q, a) + Fighters(x, q, a) ==> f.p.kind == Iri
  {
  }

  lemma UnrivalledWithin(s: State, g: Facts, c: Facts)
    requires g == FactsOf(s) <= c && Closed(c) && forall f :: f in c ==> f.p.kind == Iri
    requires NoRival(s, c)
    ensures Unrivalled(s) && AllFindable(Closure(g))
  {
    hide FactOf, FactsOf, Closed;
    ClosureIsLeast(g);
    forall f | f in Closure(g)
      ensures f in c
    {
      DerivableInClosed(f, g, c);
    }
  }

  lemma TwinsAreUnrivalled(x: string, p: string, r: string, q: string, a: string)
    requires GoodNames(p, r, q)
    ensures
      var s := Run(Twins(x, p, r, q, a));
      Filed(s) && AllAsserted(s) && Unrivalled(s) && AllFindable(Closure(FactsOf(s)))
  {
    hide Run, Twins, TwinFacts, Fighters, Closure, Closed, NoRival, FactsOf, Filed;
    var g, s := TwinFacts(x, p, r, q, a), Run(Twins(x, p, r, q, a));
    TwinsStore(x, p, r, q, a);
    TwinsAreSafe(s, x, p, r, q, a);
    TwinsClosed(x, p, r, q, a);
    TwinPredicates(x, p, r, q, a);
    UnrivalledWithin(s, g, g + Fighters(x, q, a));
  }

  /** Main result: the same calls followed by a clear leave the four statements, whatever their names, as long as the
      three properties are short enough not to be words of the vocabulary. */
  lemma TwinsAreCleared(x: string, p: string, r: string, q: string, a: string, states: seq<State>, counts: seq<nat>)
    requires |p| < 3 && |r| < 3 && |q| < 3 && p != r && p != q && r != q
    requires InferRun(states, counts) && states[0] == Run(Twins(x, p, r, q, a))
    ensures Asserted(states[|counts|]) == states[0].triples
    ensures forall i :: 0 <= i < |counts| ==> counts[i] > 0
  {
    ShortIsOrdinary(p);
    ShortIsOrdinary(r);
    ShortIsOrdinary(q);
    TwinsAreUnrivalled(x, p, r, q, a);
    ClearUndoesInference(states, counts);
    forall i | 0 <= i < |counts|
      ensures counts[i] > 0
    {
      TwinsNeverEnd(x, p, r, q, a, states, counts, i);
    }
  }

  lemma GivenIsDerivable(f: Fact, g: Facts)
    requires f in g
    ensures Derivable(f, g)
  {
    assert IsProof(Given(f), g) && Proved(Given(f)) == f;
  }
}

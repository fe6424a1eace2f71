/**
 pkg/rdf/rdfs.go: what the passes do to the stored facts, in any store and in a tame one.

 An ID is made of the values of a triple alone, so two facts that differ in the kind of a term fight for one record. A
 store is tame when no two derivable facts do.
 */
module RdfsGrowth {
  import opened RdfStore
  import opened RdfsRules
  import opened Rdfs

  // ----- Additions, one after the other -----

  ghost function AddAll(acc: Tally, ts: seq<Triple>): Tally {
    if ts == [] then acc else AddTo(AddAll(acc, ts[..|ts| - 1]), ts[|ts| - 1])
  }

  lemma {:induction false} AddAllMore(acc: Tally, ts: seq<Triple>, us: seq<Triple>)
    ensures AddAll(acc, ts + us) == AddAll(AddAll(acc, ts), us)
    decreases |us|
  {
    hide AddTo;
    if us == [] {
      assert ts + us == ts;
    } else {
      AddAllMore(acc, ts, us[..|us| - 1]);
      assert (ts + us)[..|ts + us| - 1] == ts + us[..|us| - 1];
    }
  }

  lemma AddAllOne(acc: Tally, t: Triple)
    ensures AddAll(acc, [t]) == AddTo(acc, t)
  {
    var one := [t];
    assert one[..0] == [] && AddAll(acc, one[..0]) == acc;
  }

  lemma {:induction false} AddAllShift(s: State, k: nat, ts: seq<Triple>)
    ensures AddAll(Tally(s, k), ts) == Tally(AddAll(Tally(s, 0), ts).state, k + AddAll(Tally(s, 0), ts).count)
    decreases |ts|
  {
    if ts != [] {
      AddAllShift(s, k, ts[..|ts| - 1]);
    }
  }

  /** The triples are new ones that state facts of c. */
  ghost predicate Yields(ts: seq<Triple>, c: Facts) {
    forall i :: 0 <= i < |ts| ==> FactOf(ts[i]) in c && ts[i].id == NO_ID && ts[i].inferred
  }

  ghost predicate States(ts: seq<Triple>, f: Fact) {
    exists i :: 0 <= i < |ts| && FactOf(ts[i]) == f
  }

  lemma StatesMore(ts: seq<Triple>, us: seq<Triple>, f: Fact)
    ensures States(ts + us, f) <==> States(ts, f) || States(us, f)
  {
    if i :| 0 <= i < |ts| && FactOf(ts[i]) == f {
      assert (ts + us)[i] == ts[i];
    }
    if i :| 0 <= i < |us| && FactOf(us[i]) == f {
      assert (ts + us)[|ts| + i] == us[i];
    }
  }

  lemma {:induction false} AddAllFiled(acc: Tally, ts: seq<Triple>)
    requires Filed(acc.state)
    ensures Filed(AddAll(acc, ts).state)
    decreases |ts|
  {
    if ts != [] {
      AddAllFiled(acc, ts[..|ts| - 1]);
      AddKeepsFiled(AddAll(acc, ts[..|ts| - 1]), ts[|ts| - 1]);
    }
  }

  /** The count never falls, and while it stays nothing has been added. */
  lemma {:induction false} AddAllCounts(acc: Tally, ts: seq<Triple>)
    ensures acc.count <= AddAll(acc, ts).count
    ensures acc.count == AddAll(acc, ts).count ==> AddAll(acc, ts) == acc
    ensures acc.count == AddAll(acc, ts).count ==> forall f :: States(ts, f) ==> f in FactsOf(acc.state)
    decreases |ts|
  {
    if ts != [] {
      var front, t := ts[..|ts| - 1], ts[|ts| - 1];
      AddAllCounts(acc, front);
      FoundIffStored(acc.state, t);
      forall f
        ensures States(ts, f) ==> States(front, f) || f == FactOf(t)
      {
        assert ts == front + [t];
        StatesMore(front, [t], f);
      }
    }
  }

  lemma PutFacts(s: State, t: Triple)
    ensures FactsOf(Put(s, t)) <= FactsOf(s) + {FactOf(t)}
    ensures t.id !in s.triples ==> FactsOf(Put(s, t)) == FactsOf(s) + {FactOf(t)}
  {
    var u := Put(s, t);
    assert u.triples == s.triples[t.id := t];
    assert FactOf(u.triples[t.id]) in FactsOf(u);
    forall f | f in FactsOf(u)
      ensures f in FactsOf(s) + {FactOf(t)}
    {
      var id :| id in u.triples && f == FactOf(u.triples[id]);
    }
    if t.id !in s.triples {
      forall f | f in FactsOf(s)
        ensures f in FactsOf(u)
      {
        var id :| id in s.triples && f == FactOf(s.triples[id]);
        assert u.triples[id] == s.triples[id];
      }
    }
  }

  lemma {:induction false} AddAllFacts(acc: Tally, ts: seq<Triple>, c: Facts)
    requires FactsOf(acc.state) <= c && Yields(ts, c)
    ensures FactsOf(AddAll(acc, ts).state) <= c
    decreases |ts|
  {
    if ts != [] {
      var mid, t := AddAll(acc, ts[..|ts| - 1]), ts[|ts| - 1];
      AddAllFacts(acc, ts[..|ts| - 1], c);
      PutFacts(mid.state, Identified(t));
    }
  }

  /** All IDs are those that the store makes up. */
  ghost predicate Generated(s: State) {
    forall id :: id in s.triples ==> id == HashTriple(s.triples[id])
  }

  lemma {:induction false} AddAllGenerated(acc: Tally, ts: seq<Triple>, c: Facts)
    requires Generated(acc.state) && Yields(ts, c)
    ensures Generated(AddAll(acc, ts).state)
    decreases |ts|
  {
    if ts != [] {
      AddAllGenerated(acc, ts[..|ts| - 1], c);
    }
  }

  // ----- Records without a rival -----

  /** No fact of c but f is stored under the ID. */
  ghost predicate OnlyFact(id: TripleId, f: Fact, c: Facts) {
    forall g :: g in c && IdOf(g) == id ==> g == f
  }

  /** The facts of records that no fact of c can overwrite. */
  ghost function SafeFacts(s: State, c: Facts): Facts {
    set id | id in s.triples && OnlyFact(id, FactOf(s.triples[id]), c) :: FactOf(s.triples[id])
  }

  lemma AddKeepsSafe(acc: Tally, t: Triple, c: Facts, id: TripleId, f: Fact)
    requires FactOf(t) in c && t.id == NO_ID && OnlyFact(id, f, c)
    requires id in acc.state.triples && FactOf(acc.state.triples[id]) == f
    ensures id in AddTo(acc, t).state.triples && FactOf(AddTo(acc, t).state.triples[id]) == f
  {
    assert Identified(t).id == IdOf(FactOf(t));
  }

  lemma {:induction false} AddAllKeepsSafe(acc: Tally, ts: seq<Triple>, c: Facts, id: TripleId, f: Fact)
    requires Yields(ts, c) && OnlyFact(id, f, c)
    requires id in acc.state.triples && FactOf(acc.state.triples[id]) == f
    ensures id in AddAll(acc, ts).state.triples && FactOf(AddAll(acc, ts).state.triples[id]) == f
    decreases |ts|
  {
    if ts != [] {
      AddAllKeepsSafe(acc, ts[..|ts| - 1], c, id, f);
      AddKeepsSafe(AddAll(acc, ts[..|ts| - 1]), ts[|ts| - 1], c, id, f);
    }
  }

  // ----- Tame stores -----

  /** Facts of c neither hide from the indexes nor fight for an ID. */
  ghost predicate Separate(c: Facts) {
    forall f :: f in c ==> Findable(f) && OnlyFact(IdOf(f), f, c)
  }

  /** Nor does a fact of c fight with a stored record. */
  ghost predicate Orderly(s: State, c: Facts) {
    && Filed(s) && FactsOf(s) <= c && Separate(c)
    && forall id :: id in s.triples ==> OnlyFact(id, FactOf(s.triples[id]), c)
  }

  /** t's records are those of s and n new ones, all marked as inferred, with n new facts. */
  ghost predicate Recorded(s: State, t: State, n: nat) {
    && (forall id :: id in s.triples ==> id in t.triples && t.triples[id] == s.triples[id])
    && (forall id :: id in t.triples && id !in s.triples ==> t.triples[id].inferred)
    && |t.triples| == |s.triples| + n
    && FactsOf(s) <= FactsOf(t) && |FactsOf(t)| == |FactsOf(s)| + n
  }

  lemma HashedIsStored(s: State, f: Fact, c: Facts)
    requires Orderly(s, c) && f in c && IdOf(f) in s.triples
    ensures f in FactsOf(s)
  {
    assert OnlyFact(IdOf(f), FactOf(s.triples[IdOf(f)]), c);
    assert FactOf(s.triples[IdOf(f)]) in FactsOf(s);
  }

  lemma NewIdIsFree(s: State, t: Triple, c: Facts)
    requires Orderly(s, c) && FactOf(t) in c && t.id == NO_ID && !Found(s, t)
    ensures FactOf(t) !in FactsOf(s) && Identified(t).id !in s.triples
  {
    assert Identified(t).id == IdOf(FactOf(t));
    if IdOf(FactOf(t)) in s.triples {
      HashedIsStored(s, FactOf(t), c);
    }
    FoundIffStored(s, t);
  }

  lemma PutInOrder(s: State, t: Triple, c: Facts)
    requires Orderly(s, c) && FactOf(t) in c && t.id == IdOf(FactOf(t)) && t.id !in s.triples
    ensures Orderly(Put(s, t), c)
  {
    PutFacts(s, t);
    assert Put(s, t).triples == s.triples[t.id := t];
  }

  lemma PutRecorded(s: State, t: Triple)
    requires t.inferred && t.id !in s.triples && FactOf(t) !in FactsOf(s)
    ensures Recorded(s, Put(s, t), 1)
  {
    PutFacts(s, t);
    assert Put(s, t).triples == s.triples[t.id := t];
    assert |FactsOf(s) + {FactOf(t)}| == |FactsOf(s)| + 1;
  }

  lemma RecordedMore(s: State, t: State, u: State, m: nat, n: nat)
    requires Recorded(s, t, m) && Recorded(t, u, n)
    ensures Recorded(s, u, m + n)
  {
  }

  lemma AddInOrder(acc: Tally, t: Triple, c: Facts)
    requires Orderly(acc.state, c) && FactOf(t) in c && t.id == NO_ID && t.inferred
    ensures acc.count <= AddTo(acc, t).count && Orderly(AddTo(acc, t).state, c)
    ensures Recorded(acc.state, AddTo(acc, t).state, AddTo(acc, t).count - acc.count)
  {
    if !Found(acc.state, t) {
      var m := Identified(t);
      NewIdIsFree(acc.state, t, c);
      PutInOrder(acc.state, m, c);
      PutRecorded(acc.state, m);
    }
  }

  /** In a tame store, additions grow the store by the count. */
  lemma {:induction false} AddAllInOrder(acc: Tally, ts: seq<Triple>, c: Facts)
    requires Orderly(acc.state, c) && Yields(ts, c)
    ensures acc.count <= AddAll(acc, ts).count && Orderly(AddAll(acc, ts).state, c)
    ensures Recorded(acc.state, AddAll(acc, ts).state, AddAll(acc, ts).count - acc.count)
    decreases |ts|
  {
    if ts != [] {
      var front, t := ts[..|ts| - 1], ts[|ts| - 1];
      var mid := AddAll(acc, front);
      AddAllInOrder(acc, front, c);
      AddInOrder(mid, t, c);
      RecordedMore(acc.state, mid.state, AddTo(mid, t).state, mid.count - acc.count, AddTo(mid, t).count - mid.count);
    }
  }

  lemma AddStores(acc: Tally, t: Triple, c: Facts)
    requires Orderly(acc.state, c) && FactOf(t) in c && t.id == NO_ID && t.inferred
    ensures FactsOf(AddTo(acc, t).state) == FactsOf(acc.state) + {FactOf(t)}
  {
    FoundIffStored(acc.state, t);
    if !Found(acc.state, t) {
      NewIdIsFree(acc.state, t, c);
      PutFacts(acc.state, Identified(t));
    }
  }

  ghost predicate AllStored(ts: seq<Triple>, h: Facts) {
    forall i :: 0 <= i < |ts| ==> FactOf(ts[i]) in h
  }

  lemma AllStoredMore(ts: seq<Triple>, t: Triple, h: Facts)
    requires AllStored(ts, h)
    ensures AllStored(ts + [t], h + {FactOf(t)})
  {
  }

  lemma OrderStays(acc: Tally, ts: seq<Triple>, c: Facts)
    requires Orderly(acc.state, c) && Yields(ts, c)
    ensures Orderly(AddAll(acc, ts).state, c)
  {
    AddAllInOrder(acc, ts, c);
  }

  lemma {:induction false} AddAllStored(acc: Tally, ts: seq<Triple>, c: Facts)
    requires Orderly(acc.state, c) && Yields(ts, c)
    ensures FactsOf(acc.state) <= FactsOf(AddAll(acc, ts).state)
    ensures AllStored(ts, FactsOf(AddAll(acc, ts).state))
    decreases |ts|
  {
    if ts != [] {
      var front, t := ts[..|ts| - 1], ts[|ts| - 1];
      AddAllStored(acc, front, c);
      OrderStays(acc, front, c);
      AddStores(AddAll(acc, front), t, c);
      AllStoredMore(front, t, FactsOf(AddAll(acc, front).state));
      assert ts == front + [t];
    }
  }

  /** Facts are not lost in a tame store, nor when nothing has been added. */
  ghost predicate Steady(s: State, n: nat, c: Facts) {
    Orderly(s, c) || n == 0
  }

  lemma SteadyKeepsFacts(s: State, ts: seq<Triple>, c: Facts)
    requires Yields(ts, c) && Steady(s, AddAll(Tally(s, 0), ts).count, c)
    ensures FactsOf(s) <= FactsOf(AddAll(Tally(s, 0), ts).state)
    ensures forall f :: States(ts, f) ==> f in FactsOf(AddAll(Tally(s, 0), ts).state)
  {
    if Orderly(s, c) {
      AddAllStored(Tally(s, 0), ts, c);
    } else {
      AddAllCounts(Tally(s, 0), ts);
    }
  }

  // ----- What one row adds -----

  /** The triples state facts of c with the predicate p. */
  ghost predicate OfPredicate(p: string, triples: seq<Triple>, c: Facts) {
    forall i :: 0 <= i < |triples| ==> FactOf(triples[i]) in c && NodeOf(triples[i].pred) == Word(p)
  }

  lemma ListedFacts(s: State, p: string, triples: seq<Triple>, c: Facts)
    requires Filed(s) && ListsPredicate(s, p, triples) && FactsOf(s) <= c
    ensures OfPredicate(p, triples, c)
    ensures forall f :: f in FactsOf(s) && f.p == Word(p) ==> States(triples, f)
  {
    var q := PredicateIs(p);
    IndexAgreesWithScan(s, q);
    forall f | f in FactsOf(s) && f.p == Word(p)
      ensures States(triples, f)
    {
      var id :| id in s.triples && f == FactOf(s.triples[id]);
      assert id in Answer(s, q);
    }
  }

  lemma JoinedIffFires(rule: Rule, x: Triple, y: Triple)
    requires NodeOf(x.pred) == Word(FirstPredicate(rule)) && NodeOf(y.pred) == Word(SecondPredicate(rule, x))
    ensures Joined(rule, x, y) <==> Fires(rule, FactOf(x), FactOf(y))
  {
  }

  lemma NewTripleIsConclusion(rule: Rule, x: Triple, y: Triple)
    ensures FactOf(NewTriple(rule, x, y)) == Conclusion(rule, FactOf(x), FactOf(y))
    ensures NewTriple(rule, x, y).id == NO_ID && NewTriple(rule, x, y).inferred
  {
    VocabularyIsPlain(TYPE);
    VocabularyIsPlain(SUB_CLASS_OF);
    VocabularyIsPlain(SUB_PROPERTY_OF);
  }

  ghost function RowTriples(rule: Rule, x: Triple, ys: seq<Triple>): seq<Triple> {
    if ys == [] then []
    else
      var y := ys[|ys| - 1];
      RowTriples(rule, x, ys[..|ys| - 1]) + if Joined(rule, x, y) then [NewTriple(rule, x, y)] else []
  }

  lemma {:induction false} RowAdds(acc: Tally, rule: Rule, x: Triple, ys: seq<Triple>)
    ensures JoinRowTo(acc, rule, x, ys) == AddAll(acc, RowTriples(rule, x, ys))
    decreases |ys|
  {
    if ys != [] {
      var front, y := ys[..|ys| - 1], ys[|ys| - 1];
      var before, n := RowTriples(rule, x, front), NewTriple(rule, x, y);
      RowAdds(acc, rule, x, front);
      if Joined(rule, x, y) {
        calc {
          JoinRowTo(acc, rule, x, ys);
          AddTo(AddAll(acc, before), n);
          { AddAllOne(AddAll(acc, before), n); }
          AddAll(AddAll(acc, before), [n]);
          { AddAllMore(acc, before, [n]); }
          AddAll(acc, before + [n]);
        }
      } else {
        assert before + [] == before;
      }
    }
  }

  /** Conclusions of a with the facts of ys are stated. */
  ghost predicate RowConcludes(rule: Rule, a: Fact, ys: seq<Triple>, ts: seq<Triple>) {
    forall b :: States(ys, b) && Fires(rule, a, b) ==> States(ts, Conclusion(rule, a, b))
  }

  /** One more pair of a row; before are the triples of the pairs before it. */
  lemma PairYields(rule: Rule, x: Triple, front: seq<Triple>, y: Triple, before: seq<Triple>, c: Facts)
    requires Closed(c) && FactOf(x) in c && NodeOf(x.pred) == Word(FirstPredicate(rule))
    requires FactOf(y) in c && NodeOf(y.pred) == Word(SecondPredicate(rule, x))
    requires Yields(before, c) && RowConcludes(rule, FactOf(x), front, before)
    ensures var one := if Joined(rule, x, y) then [NewTriple(rule, x, y)] else [];
            Yields(before + one, c) && RowConcludes(rule, FactOf(x), front + [y], before + one)
  {
    var one := if Joined(rule, x, y) then [NewTriple(rule, x, y)] else [];
    JoinedIffFires(rule, x, y);
    NewTripleIsConclusion(rule, x, y);
    assert Covers(rule, c, c);
    forall b | States(front + [y], b) && Fires(rule, FactOf(x), b)
      ensures States(before + one, Conclusion(rule, FactOf(x), b))
    {
      StatesMore(front, [y], b);
      StatesMore(before, one, Conclusion(rule, FactOf(x), b));
      assert b == FactOf(y) ==> one[0] == NewTriple(rule, x, y);
    }
  }

  lemma NothingYields(rule: Rule, a: Fact, c: Facts)
    ensures Yields([], c) && RowConcludes(rule, a, [], [])
  {
  }

  lemma {:induction false} RowYields(rule: Rule, x: Triple, ys: seq<Triple>, c: Facts)
    requires Closed(c) && FactOf(x) in c && NodeOf(x.pred) == Word(FirstPredicate(rule))
    requires OfPredicate(SecondPredicate(rule, x), ys, c)
    ensures Yields(RowTriples(rule, x, ys), c) && RowConcludes(rule, FactOf(x), ys, RowTriples(rule, x, ys))
    decreases |ys|
  {
    hide Yields, RowConcludes, Joined, NewTriple, Closed, FactOf, NodeOf, FirstPredicate, SecondPredicate;
    if ys == [] {
      NothingYields(rule, FactOf(x), c);
    } else {
      var front, y := ys[..|ys| - 1], ys[|ys| - 1];
      RowYields(rule, x, front, c);
      assert ys == front + [y];
      PairYields(rule, x, front, y, RowTriples(rule, x, front), c);
    }
  }

  // ----- What one pass adds -----

  /** Conclusions of the facts of xs with the facts of g are stated. */
  ghost predicate Concludes(rule: Rule, xs: seq<Triple>, g: Facts, ts: seq<Triple>) {
    forall a, b :: States(xs, a) && b in g && Fires(rule, a, b) ==> States(ts, Conclusion(rule, a, b))
  }

  lemma ConcludesMore(rule: Rule, front: seq<Triple>, x: Triple, g: Facts, ts: seq<Triple>, us: seq<Triple>)
    requires Concludes(rule, front, g, ts)
    requires forall b :: b in g && Fires(rule, FactOf(x), b) ==> States(us, Conclusion(rule, FactOf(x), b))
    ensures Concludes(rule, front + [x], g, ts + us)
  {
    forall a, b | States(front + [x], a) && b in g && Fires(rule, a, b)
      ensures States(ts + us, Conclusion(rule, a, b))
    {
      StatesMore(front, [x], a);
      StatesMore(ts, us, Conclusion(rule, a, b));
    }
  }

  /** One more row, for which the facts of `from` have been read. */
  lemma OneRowAdds(rule: Rule, s0: State, x: Triple, ys: seq<Triple>, mid: Tally, end: Tally, c: Facts)
    requires Filed(s0) && FactsOf(s0) <= c && Filed(mid.state) && FactsOf(mid.state) <= c && Closed(c)
    requires FactOf(x) in c && NodeOf(x.pred) == Word(FirstPredicate(rule)) && JoinsOne(rule, s0, x, ys, mid, end)
    ensures end == AddAll(mid, RowTriples(rule, x, ys)) && Yields(RowTriples(rule, x, ys), c)
    ensures FactsOf(s0) <= FactsOf(mid.state) ==> forall b :: b in FactsOf(s0) && Fires(rule, FactOf(x), b) ==>
              States(RowTriples(rule, x, ys), Conclusion(rule, FactOf(x), b))
  {
    hide JoinRowTo, AddAll, RowTriples, Yields, States, Filed, Closed;
    var from := if IsUseRule(rule) then mid.state else s0;
    ListedFacts(from, SecondPredicate(rule, x), ys, c);
    RowAdds(mid, rule, x, ys);
    RowYields(rule, x, ys, c);
    forall b | FactsOf(s0) <= FactsOf(mid.state) && b in FactsOf(s0) && Fires(rule, FactOf(x), b)
      ensures States(RowTriples(rule, x, ys), Conclusion(rule, FactOf(x), b))
    {
      assert b in FactsOf(from) && b.p == Word(SecondPredicate(rule, x));
    }
  }

  lemma NoRowAdds(rule: Rule, s: State, c: Facts)
    ensures Tally(s, 0) == AddAll(Tally(s, 0), []) && Yields([], c) && Concludes(rule, [], FactsOf(s), [])
  {
  }

  lemma {:induction false} RowsAdd(rule: Rule, s0: State, xs: seq<Triple>, lists: seq<seq<Triple>>, tallies: seq<Tally>,
                                   k: nat, c: Facts) returns (ts: seq<Triple>)
    requires Filed(s0) && FactsOf(s0) <= c && Closed(c) && OfPredicate(FirstPredicate(rule), xs, c)
    requires JoinsRows(rule, s0, xs, lists, tallies) && tallies[0] == Tally(s0, 0) && k <= |xs|
    ensures tallies[k] == AddAll(Tally(s0, 0), ts) && Yields(ts, c)
    ensures Steady(s0, tallies[k].count, c) ==> Concludes(rule, xs[..k], FactsOf(s0), ts)
  {
    hide Filed, Closed, AddAll, Yields, Steady, Concludes, JoinsOne;
    if k == 0 {
      ts := [];
      NoRowAdds(rule, s0, c);
    } else {
      var before := RowsAdd(rule, s0, xs, lists, tallies, k - 1, c);
      assert JoinsAt(rule, s0, xs, lists, tallies, k - 1);
      assert xs[..k] == xs[..k - 1] + [xs[k - 1]];
      ts := NextRowAdds(rule, s0, xs[..k - 1], xs[k - 1], lists[k - 1], before, tallies[k - 1], tallies[k], c);
    }
  }

  lemma NextRowAdds(rule: Rule, s0: State, front: seq<Triple>, x: Triple, ys: seq<Triple>, before: seq<Triple>,
                    mid: Tally, end: Tally, c: Facts) returns (ts: seq<Triple>)
    requires Filed(s0) && FactsOf(s0) <= c && Closed(c)
    requires FactOf(x) in c && NodeOf(x.pred) == Word(FirstPredicate(rule)) && JoinsOne(rule, s0, x, ys, mid, end)
    requires mid == AddAll(Tally(s0, 0), before) && Yields(before, c)
    requires Steady(s0, mid.count, c) ==> Concludes(rule, front, FactsOf(s0), before)
    ensures end == AddAll(Tally(s0, 0), ts) && Yields(ts, c)
    ensures Steady(s0, end.count, c) ==> Concludes(rule, front + [x], FactsOf(s0), ts)
  {
    hide AddAll, JoinsOne, Concludes, FactOf, NodeOf, RowTriples, Filed, Closed, Orderly;
    AddAllFiled(Tally(s0, 0), before);
    AddAllFacts(Tally(s0, 0), before, c);
    OneRowAdds(rule, s0, x, ys, mid, end, c);
    var row := RowTriples(rule, x, ys);
    ts := before + row;
    AddAllMore(Tally(s0, 0), before, row);
    AddAllCounts(mid, row);
    if Steady(s0, end.count, c) {
      SteadyKeepsFacts(s0, before, c);
      ConcludesMore(rule, front, x, FactsOf(s0), before, row);
    }
  }

  /** All conclusions of two facts of g are stated. */
  ghost predicate ConcludesAll(rule: Rule, g: Facts, ts: seq<Triple>) {
    forall a, b :: a in g && b in g && Fires(rule, a, b) ==> States(ts, Conclusion(rule, a, b))
  }

  lemma ListedConclude(rule: Rule, xs: seq<Triple>, g: Facts, ts: seq<Triple>)
    requires Concludes(rule, xs, g, ts) && forall f :: f in g && f.p == Word(FirstPredicate(rule)) ==> States(xs, f)
    ensures ConcludesAll(rule, g, ts)
  {
    forall a, b | a in g && b in g && Fires(rule, a, b)
      ensures States(ts, Conclusion(rule, a, b))
    {
      assert a.p == Word(FirstPredicate(rule)) && States(xs, a);
    }
  }

  lemma PassAdds(rule: Rule, s: State, t: State, n: nat, c: Facts) returns (ts: seq<Triple>)
    requires Filed(s) && FactsOf(s) <= c && Closed(c) && Passes(rule, s, t, n)
    ensures Tally(t, n) == AddAll(Tally(s, 0), ts) && Yields(ts, c)
    ensures Steady(s, n, c) ==> ConcludesAll(rule, FactsOf(s), ts)
  {
    var xs, lists, tallies :| IsPass(rule, s, xs, lists, tallies, Tally(t, n));
    ListedFacts(s, FirstPredicate(rule), xs, c);
    ts := RowsAdd(rule, s, xs, lists, tallies, |xs|, c);
    assert xs[..|xs|] == xs;
    if Steady(s, n, c) {
      ListedConclude(rule, xs, FactsOf(s), ts);
    }
  }

  // ----- What one call adds -----

  /** The rules in the order of the passes. */
  function RuleOf(i: nat): Rule
    requires i < 6
  {
    if i == 0 then SubClassTransitivity
    else if i == 1 then TypePropagation
    else if i == 2 then SubPropertyTransitivity
    else if i == 3 then PropertyPropagation
    else if i == 4 then DomainRule
    else RangeRule
  }

  ghost predicate ConcludesFirst(k: nat, g: Facts, ts: seq<Triple>)
    requires k <= 6
  {
    forall i :: 0 <= i < k ==> ConcludesAll(RuleOf(i), g, ts)
  }

  lemma ConcludesStays(rule: Rule, g: Facts, h: Facts, ts: seq<Triple>, us: seq<Triple>)
    requires g <= h
    ensures ConcludesAll(rule, h, us) ==> ConcludesAll(rule, g, ts + us)
    ensures ConcludesAll(rule, g, ts) ==> ConcludesAll(rule, g, ts + us)
  {
    forall a, b | a in g && b in g && Fires(rule, a, b)
      ensures States(us, Conclusion(rule, a, b)) ==> States(ts + us, Conclusion(rule, a, b))
      ensures States(ts, Conclusion(rule, a, b)) ==> States(ts + us, Conclusion(rule, a, b))
    {
      StatesMore(ts, us, Conclusion(rule, a, b));
    }
  }

  lemma OnePassMore(k: nat, g: Facts, h: Facts, ts: seq<Triple>, us: seq<Triple>)
    requires 0 < k <= 6 && g <= h && ConcludesFirst(k - 1, g, ts) && ConcludesAll(RuleOf(k - 1), h, us)
    ensures ConcludesFirst(k, g, ts + us)
  {
    forall i | 0 <= i < k
      ensures ConcludesAll(RuleOf(i), g, ts + us)
    {
      ConcludesStays(RuleOf(i), g, h, ts, us);
    }
  }

  /** Additions of us follow those of ts. */
  lemma Followed(s: State, ts: seq<Triple>, us: seq<Triple>, t: State, m: nat, u: State, n: nat)
    requires Tally(t, m) == AddAll(Tally(s, 0), ts) && Tally(u, n) == AddAll(Tally(t, 0), us)
    ensures Tally(u, m + n) == AddAll(Tally(s, 0), ts + us)
  {
    AddAllMore(Tally(s, 0), ts, us);
    AddAllShift(t, m, us);
  }

  /** The first k passes have added ts, and come with that from s to t. */
  ghost predicate Added(k: nat, s: State, t: State, n: nat, ts: seq<Triple>, c: Facts)
    requires k <= 6
  {
    && Tally(t, n) == AddAll(Tally(s, 0), ts) && Yields(ts, c)
    && (Steady(s, n, c) ==> ConcludesFirst(k, FactsOf(s), ts))
  }

  lemma OnePassAdds(k: nat, s: State, mid: State, t: State, m: nat, n: nat, before: seq<Triple>, c: Facts)
    returns (ts: seq<Triple>)
    requires 0 < k <= 6 && Filed(s) && FactsOf(s) <= c && Closed(c)
    requires Added(k - 1, s, mid, m, before, c) && Passes(RuleOf(k - 1), mid, t, n)
    ensures Added(k, s, t, m + n, ts, c)
  {
    AddAllFiled(Tally(s, 0), before);
    AddAllFacts(Tally(s, 0), before, c);
    var pass := PassAdds(RuleOf(k - 1), mid, t, n, c);
    ts := before + pass;
    Followed(s, before, pass, mid, m, t, n);
    if Steady(s, m + n, c) {
      SteadyKeepsFacts(s, before, c);
      if Orderly(s, c) {
        AddAllInOrder(Tally(s, 0), before, c);
      }
      OnePassMore(k, FactsOf(s), FactsOf(mid), before, pass);
    }
  }

  lemma NothingAdded(s: State, c: Facts)
    ensures Added(0, s, s, 0, [], c)
  {
  }

  lemma CallAdds(s: State, s1: State, s2: State, s3: State, s4: State, s5: State, t: State,
                 n0: nat, n1: nat, n2: nat, n3: nat, n4: nat, n5: nat, n: nat, c: Facts)
    returns (ts: seq<Triple>)
    requires Filed(s) && FactsOf(s) <= c && Closed(c)
    requires IsCall(s, s1, s2, s3, s4, s5, t, n0, n1, n2, n3, n4, n5, n)
    ensures Added(6, s, t, n, ts, c)
  {
    hide AddAll, Yields, Steady, ConcludesFirst, Passes, FactsOf, Filed, Closed;
    assert Added(0, s, s, 0, [], c) by { NothingAdded(s, c); }
    ts := OnePassAdds(1, s, s, s1, 0, n0, [], c);
    ts := OnePassAdds(2, s, s1, s2, n0, n1, ts, c);
    ts := OnePassAdds(3, s, s2, s3, n0 + n1, n2, ts, c);
    ts := OnePassAdds(4, s, s3, s4, n0 + n1 + n2, n3, ts, c);
    ts := OnePassAdds(5, s, s4, s5, n0 + n1 + n2 + n3, n4, ts, c);
    ts := OnePassAdds(6, s, s5, t, n0 + n1 + n2 + n3 + n4, n5, ts, c);
  }

  lemma AllConcluded(rule: Rule, g: Facts, ts: seq<Triple>)
    requires ConcludesFirst(6, g, ts)
    ensures ConcludesAll(rule, g, ts)
  {
    match rule
    case SubClassTransitivity => assert rule == RuleOf(0);
    case TypePropagation => assert rule == RuleOf(1);
    case SubPropertyTransitivity => assert rule == RuleOf(2);
    case PropertyPropagation => assert rule == RuleOf(3);
    case DomainRule => assert rule == RuleOf(4);
    case RangeRule => assert rule == RuleOf(5);
  }

  lemma AllCovered(s: State, t: State, n: nat, ts: seq<Triple>, c: Facts)
    requires Added(6, s, t, n, ts, c) && Steady(s, n, c)
    ensures forall rule: Rule :: Covers(rule, FactsOf(s), FactsOf(t))
  {
    hide AddAll, Yields, Orderly;
    SteadyKeepsFacts(s, ts, c);
    forall rule: Rule
      ensures Covers(rule, FactsOf(s), FactsOf(t))
    {
      AllConcluded(rule, FactsOf(s), ts);
    }
  }

  /** A call adds facts of a closed set; when no fact is lost, it adds every conclusion of two facts at the start. */
  lemma InferAdds(s: State, t: State, count: nat, c: Facts) returns (ts: seq<Triple>)
    requires Filed(s) && Infers(s, t, count) && FactsOf(s) <= c && Closed(c)
    ensures Tally(t, count) == AddAll(Tally(s, 0), ts) && Yields(ts, c)
    ensures Steady(s, count, c) ==> forall rule: Rule :: Covers(rule, FactsOf(s), FactsOf(t))
  {
    hide AddAll, Yields, Steady, IsCall, Passes, Filed, Closed, FactsOf, Covers;
    var s1, s2, s3, s4, s5, n0: nat, n1: nat, n2: nat, n3: nat, n4: nat, n5: nat :|
      IsCall(s, s1, s2, s3, s4, s5, t, n0, n1, n2, n3, n4, n5, count);
    ts := CallAdds(s, s1, s2, s3, s4, s5, t, n0, n1, n2, n3, n4, n5, count, c);
    if Steady(s, count, c) {
      AllCovered(s, t, count, ts, c);
    }
  }
}

/**
 pkg/rdf/store.go: the triple store. Triples are stored by ID; three indexes list the IDs by subject, predicate and
 object. A query picks one index and filters what it lists.

 The hash that makes up an ID is taken to be injective on subject, predicate and object values, and index keys that Go
 builds by joining strings are tuples.
 */
module RdfStore {
  import opened Wrappers
  import opened Scans

  // ----- Data -----

  datatype Kind = Iri | Literal | BlankNode | OtherKind

  datatype Term = Term(kind: Kind, value: string, datatyp: string, language: string)

  datatype TripleId = HashOf(s: string, p: string, o: string) | Named(name: string)

  datatype Triple = Triple(id: TripleId, subj: Term, pred: Term, obj: Term, graph: string, inferred: bool)

  datatype Pattern = Pattern(subj: Option<Term>, pred: Option<Term>, obj: Option<Term>, graph: string,
                             inferred: Option<bool>, limit: int)

  const NO_ID := Named("")
  const ANY := Pattern(None, None, None, "", None, 0)

  datatype State = State(triples: map<TripleId, Triple>, subjects: set<(string, TripleId)>,
                         predicates: set<(string, TripleId)>, objects: set<(string, TripleId)>)

  const EMPTY := State(map[], {}, {}, {})

  function TermKey(t: Term): string {
    if t.language != "" then t.value + "@" + t.language else t.value
  }

  predicate TermsEqual(a: Term, b: Term) {
    a.kind == b.kind && a.value == b.value
  }

  function HashTriple(t: Triple): TripleId {
    HashOf(t.subj.value, t.pred.value, t.obj.value)
  }

  function Identified(t: Triple): Triple {
    if t.id == NO_ID then t.(id := HashTriple(t)) else t
  }

  predicate HasObjectKey(t: Term) {
    t.kind == Iri || t.kind == Literal
  }

  predicate Matches(t: Triple, p: Pattern) {
    && (p.subj.Some? ==> TermsEqual(t.subj, p.subj.value))
    && (p.pred.Some? ==> TermsEqual(t.pred, p.pred.value))
    && (p.obj.Some? ==> TermsEqual(t.obj, p.obj.value))
    && (p.graph != "" ==> t.graph == p.graph)
    && (p.inferred.Some? ==> t.inferred == p.inferred.value)
  }

  // ----- IRI terms -----

  predicate IsBracket(c: char) { c == '<' || c == '>' }

  function TrimLeft(v: string): string {
    if v != "" && IsBracket(v[0]) then TrimLeft(v[1..]) else v
  }

  function TrimRight(v: string): string {
    if v != "" && IsBracket(v[|v| - 1]) then TrimRight(v[..|v| - 1]) else v
  }

  function NewIri(v: string): Term {
    Term(Iri, TrimRight(TrimLeft(v)), "", "")
  }

  /** A term that NewIri could have made. */
  predicate IsPlainIri(t: Term) {
    t == NewIri(t.value)
  }

  lemma NewIriIsPlain(v: string)
    requires v != "" && !IsBracket(v[0]) && !IsBracket(v[|v| - 1])
    ensures NewIri(v).value == v && IsPlainIri(NewIri(v))
  {
  }

  // ----- Updates on states -----

  /** An upsert writes the record and its index entries; entries of a record it replaces stay behind. */
  function Put(s: State, t: Triple): State {
    State(s.triples[t.id := t],
          if t.subj.kind == Iri then s.subjects + {(t.subj.value, t.id)} else s.subjects,
          if t.pred.kind == Iri then s.predicates + {(t.pred.value, t.id)} else s.predicates,
          if HasObjectKey(t.obj) then s.objects + {(TermKey(t.obj), t.id)} else s.objects)
  }

  function Drop(s: State, id: TripleId): State {
    if id !in s.triples then s
    else
      var t := s.triples[id];
      State(s.triples - {id},
            if t.subj.kind == Iri then s.subjects - {(t.subj.value, id)} else s.subjects,
            if t.pred.kind == Iri then s.predicates - {(t.pred.value, id)} else s.predicates,
            if HasObjectKey(t.obj) then s.objects - {(TermKey(t.obj), id)} else s.objects)
  }

  /** Every record is stored under its own ID and listed by the indexes of its terms. */
  ghost predicate Filed(s: State) {
    forall id :: id in s.triples ==>
      var t := s.triples[id];
      && t.id == id
      && (t.subj.kind == Iri ==> (t.subj.value, id) in s.subjects)
      && (t.pred.kind == Iri ==> (t.pred.value, id) in s.predicates)
      && (HasObjectKey(t.obj) ==> (TermKey(t.obj), id) in s.objects)
  }

  /** Object entries of stored records are up to date. */
  ghost predicate ObjectsCurrent(s: State) {
    forall k, id :: (k, id) in s.objects && id in s.triples ==>
      HasObjectKey(s.triples[id].obj) && k == TermKey(s.triples[id].obj)
  }

  datatype Op = Upsert(triple: Triple) | Delete(id: TripleId)

  function Apply(s: State, op: Op): State {
    match op
    case Upsert(t) => Put(s, Identified(t))
    case Delete(id) => Drop(s, id)
  }

  function Run(ops: seq<Op>): State {
    if ops == [] then EMPTY else Apply(Run(ops[..|ops| - 1]), ops[|ops| - 1])
  }

  lemma ApplyKeepsFiled(s: State, op: Op)
    requires Filed(s)
    ensures Filed(Apply(s, op))
  {
  }

  lemma {:induction false} EveryRunFiled(ops: seq<Op>)
    ensures Filed(Run(ops))
    decreases |ops|
  {
    if ops != [] {
      EveryRunFiled(ops[..|ops| - 1]);
      ApplyKeepsFiled(Run(ops[..|ops| - 1]), ops[|ops| - 1]);
    }
  }

  /** Exactly when an update leaves no stale object entry of a stored record behind. */
  lemma ObjectsCurrentExactly(s: State, op: Op)
    requires Filed(s) && ObjectsCurrent(s)
    ensures ObjectsCurrent(Apply(s, op)) <==>
            (op.Upsert? ==>
               var t := Identified(op.triple);
               forall k :: (k, t.id) in s.objects ==> HasObjectKey(t.obj) && k == TermKey(t.obj))
  {
    if op.Upsert? {
      var t := Identified(op.triple);
      var s' := Apply(s, op);
      if k :| (k, t.id) in s.objects && !(HasObjectKey(t.obj) && k == TermKey(t.obj)) {
        assert (k, t.id) in s'.objects && s'.triples[t.id] == t;
      } else {
        forall k, id | (k, id) in s'.objects && id in s'.triples
          ensures HasObjectKey(s'.triples[id].obj) && k == TermKey(s'.triples[id].obj)
        {
        }
      }
    }
  }

  // ----- Queries -----

  predicate UsesSubjects(p: Pattern) { p.subj.Some? && p.subj.value.kind == Iri }

  predicate UsesPredicates(p: Pattern) { !UsesSubjects(p) && p.pred.Some? && p.pred.value.kind == Iri }

  predicate UsesObjects(p: Pattern) { !UsesSubjects(p) && !UsesPredicates(p) && p.obj.Some? }

  function IdsUnder(index: set<(string, TripleId)>, key: string): set<TripleId> {
    set e | e in index && e.0 == key :: e.1
  }

  /** IDs that the chosen index lists; without an index, all of them. */
  function Candidates(s: State, p: Pattern): set<TripleId> {
    if UsesSubjects(p) then IdsUnder(s.subjects, p.subj.value.value)
    else if UsesPredicates(p) then IdsUnder(s.predicates, p.pred.value.value)
    else if UsesObjects(p) then IdsUnder(s.objects, TermKey(p.obj.value))
    else s.triples.Keys
  }

  /** What a query finds when nothing cuts it short. */
  ghost function Answer(s: State, p: Pattern): set<TripleId> {
    set id | id in Candidates(s, p) && id in s.triples && Matches(s.triples[id], p)
  }

  /** What a scan of all records finds. */
  ghost function FullScan(s: State, p: Pattern): set<TripleId> {
    set id | id in s.triples && Matches(s.triples[id], p)
  }

  /** results holds the records of different IDs of ids: all of them, or the first `limit` that turned up. */
  ghost predicate Returns(s: State, ids: set<TripleId>, limit: int, results: seq<Triple>) {
    && (forall i :: 0 <= i < |results| ==>
         results[i].id in ids && results[i].id in s.triples && results[i] == s.triples[results[i].id])
    && (forall i, j :: 0 <= i < j < |results| ==> results[i].id != results[j].id)
    && |results| == (if 0 < limit < |ids| then limit else |ids|)
    && (limit <= 0 ==> forall id :: id in ids ==> exists i :: 0 <= i < |results| && results[i].id == id)
  }

  /** Main result: through the subject index, the predicate index or a scan, a query finds what a full scan finds, in
      every reachable store. */
  lemma IndexAgreesWithScan(s: State, p: Pattern)
    requires Filed(s) && !UsesObjects(p)
    ensures Answer(s, p) == FullScan(s, p)
  {
    forall id | id in FullScan(s, p)
      ensures id in Candidates(s, p)
    {
      var t := s.triples[id];
      if UsesSubjects(p) {
        assert (t.subj.value, id) in s.subjects;
      } else if UsesPredicates(p) {
        assert (t.pred.value, id) in s.predicates;
      }
    }
  }

  lemma TermKeyLanguage(a: Term, b: Term)
    requires a.value == b.value
    ensures TermKey(a) == TermKey(b) <==> a.language == b.language
  {
    if TermKey(a) == TermKey(b) && a.language != "" && b.language != "" {
      var n := |a.value| + 1;
      assert TermKey(a)[n..] == a.language && TermKey(b)[n..] == b.language;
    }
  }

  /** Main result: the object index keys contain the language tag but matching ignores it, and blank nodes have no key.
      A query through it never finds too much. It finds all a full scan finds if all of that has a key and the language
      of the pattern; and only then, unless stale entries of replaced records help out. */
  lemma ObjectIndexExactly(s: State, p: Pattern)
    requires Filed(s) && UsesObjects(p)
    ensures Answer(s, p) <= FullScan(s, p)
    ensures
      var plain := forall id :: id in FullScan(s, p) ==>
                     HasObjectKey(s.triples[id].obj) && s.triples[id].obj.language == p.obj.value.language;
      && (plain ==> Answer(s, p) == FullScan(s, p))
      && (ObjectsCurrent(s) && Answer(s, p) == FullScan(s, p) ==> plain)
  {
    forall id | id in FullScan(s, p)
      ensures HasObjectKey(s.triples[id].obj) && s.triples[id].obj.language == p.obj.value.language ==>
                id in Answer(s, p)
      ensures ObjectsCurrent(s) && id in Answer(s, p) ==>
                HasObjectKey(s.triples[id].obj) && s.triples[id].obj.language == p.obj.value.language
    {
      var t := s.triples[id];
      TermKeyLanguage(t.obj, p.obj.value);
      if HasObjectKey(t.obj) {
        assert (TermKey(t.obj), id) in s.objects;
      }
    }
  }

  /** The index does miss matches: a plain pattern does not find the tagged literal that it matches. */
  lemma TaggedLiteralMissed()
    ensures
      var bob := Triple(NO_ID, Term(Iri, "b", "", ""), Term(Iri, "name", "", ""), Term(Literal, "Bob", "", "en"),
                        "", false);
      var s := Run([Upsert(bob)]);
      var p := ANY.(obj := Some(Term(Literal, "Bob", "", "")));
      Answer(s, p) == {} && |FullScan(s, p)| == 1
  {
    var bob := Triple(NO_ID, Term(Iri, "b", "", ""), Term(Iri, "name", "", ""), Term(Literal, "Bob", "", "en"),
                      "", false);
    var ops := [Upsert(bob)];
    assert ops[..0] == [] && Run(ops) == Apply(EMPTY, ops[0]);
    var s := Run(ops);
    var p := ANY.(obj := Some(Term(Literal, "Bob", "", "")));
    var id := HashTriple(bob);
    assert FullScan(s, p) == {id};
    TermKeyLanguage(bob.obj, p.obj.value);
    assert IdsUnder(s.objects, TermKey(p.obj.value)) == {};
  }

  // ----- Updates and matches, spelled out -----

  /** An upsert stores the record as it is given and lists it under its terms: IRIs in all positions, and literals in
      the last one with their language tag behind an at sign. Other records and all entries stay. */
  lemma UpsertTripleExactly(s: State, t: Triple, key: string, id: TripleId)
    requires t.id != NO_ID
    ensures
      var u := Apply(s, Upsert(t));
      && u.triples.Keys == s.triples.Keys + {t.id} && u.triples[t.id] == t
      && (forall other :: other in s.triples && other != t.id ==> u.triples[other] == s.triples[other])
      && ((key, id) in u.subjects <==>
            (key, id) in s.subjects || (t.subj.kind == Iri && key == t.subj.value && id == t.id))
      && ((key, id) in u.predicates <==>
            (key, id) in s.predicates || (t.pred.kind == Iri && key == t.pred.value && id == t.id))
      && ((key, id) in u.objects <==>
            || (key, id) in s.objects
            || (&& (t.obj.kind == Iri || t.obj.kind == Literal) && id == t.id
                && key == t.obj.value + if t.obj.language == "" then "" else "@" + t.obj.language))
  {
    var tag := "@" + t.obj.language;
    assert t.obj.value + "@" + t.obj.language == t.obj.value + tag;
    assert t.obj.value + "" == t.obj.value;
  }

  /** Main result: a deletion takes away the record and what lists it under its terms, and nothing of other records. */
  lemma DeleteTripleExactly(s: State, id: TripleId, other: TripleId, key: string)
    ensures
      var u := Apply(s, Delete(id));
      && id !in u.triples
      && (other != id ==> (other in u.triples <==> other in s.triples))
      && (other != id && other in s.triples ==> u.triples[other] == s.triples[other])
      && (other != id ==> ((key, other) in u.subjects <==> (key, other) in s.subjects))
      && (other != id ==> ((key, other) in u.predicates <==> (key, other) in s.predicates))
      && (other != id ==> ((key, other) in u.objects <==> (key, other) in s.objects))
    ensures
      var u := Apply(s, Delete(id));
      id in s.triples ==>
        && (s.triples[id].subj.kind == Iri ==> (s.triples[id].subj.value, id) !in u.subjects)
        && (s.triples[id].pred.kind == Iri ==> (s.triples[id].pred.value, id) !in u.predicates)
        && (HasObjectKey(s.triples[id].obj) ==> (TermKey(s.triples[id].obj), id) !in u.objects)
  {
  }

  /** Queries find the other records as before. */
  lemma DeletedTripleIsGone(s: State, id: TripleId, p: Pattern, other: TripleId)
    ensures other in Answer(Apply(s, Delete(id)), p) <==> other != id && other in Answer(s, p)
  {
    if other != id {
      DeleteTripleExactly(s, id, other, if p.subj.Some? then p.subj.value.value else "");
      DeleteTripleExactly(s, id, other, if p.pred.Some? then p.pred.value.value else "");
      DeleteTripleExactly(s, id, other, if p.obj.Some? then TermKey(p.obj.value) else "");
    }
  }

  /** Main result: a scan finds the records whose terms are of the kind and value that the pattern gives, if it gives
      any, and likewise for the graph name and the mark. */
  lemma FullScanExactly(s: State, p: Pattern, id: TripleId)
    ensures id in FullScan(s, p) <==>
            && id in s.triples
            && (p.subj == None
                || (s.triples[id].subj.kind == p.subj.value.kind && s.triples[id].subj.value == p.subj.value.value))
            && (p.pred == None
                || (s.triples[id].pred.kind == p.pred.value.kind && s.triples[id].pred.value == p.pred.value.value))
            && (p.obj == None
                || (s.triples[id].obj.kind == p.obj.value.kind && s.triples[id].obj.value == p.obj.value.value))
            && (p.graph == "" || s.triples[id].graph == p.graph)
            && (p.inferred == None || s.triples[id].inferred == p.inferred.value)
  {
  }

  lemma CutShort(s: State, p: Pattern, found: seq<TripleId>, results: seq<Triple>)
    requires Filed(s) && p.limit > 0 && |results| == |found| == p.limit
    requires Distinct(found) && forall n :: 0 <= n < |found| ==>
               found[n] in Answer(s, p) && results[n] == s.triples[found[n]]
    ensures Returns(s, Answer(s, p), p.limit, results)
  {
    var listed := set n | 0 <= n < |found| :: found[n];
    ListingLength(found, listed);
    SubsetSize(listed, Answer(s, p));
  }

  lemma AllFound(s: State, p: Pattern, found: seq<TripleId>, results: seq<Triple>)
    requires Filed(s) && (p.limit > 0 ==> |results| < p.limit) && |results| == |found| && Lists(found, Answer(s, p))
    requires forall n :: 0 <= n < |found| ==> results[n] == s.triples[found[n]]
    ensures Returns(s, Answer(s, p), p.limit, results)
  {
    ListingLength(found, Answer(s, p));
    forall id | id in Answer(s, p)
      ensures exists i :: 0 <= i < |results| && results[i].id == id
    {
      var i :| 0 <= i < |found| && found[i] == id;
      assert results[i].id == id;
    }
  }

  // ----- The store -----

  class Store {
    var triples: map<TripleId, Triple>
    var subjects: set<(string, TripleId)>
    var predicates: set<(string, TripleId)>
    var objects: set<(string, TripleId)>

    function Now(): State
      reads this
    {
      State(triples, subjects, predicates, objects)
    }

    constructor ()
      ensures Now() == EMPTY
    {
      triples, subjects, predicates, objects := map[], {}, {}, {};
    }

    method UpsertTriple(triple: Triple)
      modifies this
      ensures Now() == Put(old(Now()), Identified(triple))
      ensures
        var id := if triple.id == Named("") then HashOf(triple.subj.value, triple.pred.value, triple.obj.value)
                  else triple.id;
        triples == old(triples)[id := triple.(id := id)]
    {
      var t := triple;
      if t.id == NO_ID {
        t := t.(id := HashTriple(t));
      }
      triples := triples[t.id := t];
      if t.subj.kind == Iri {
        subjects := subjects + {(t.subj.value, t.id)};
      }
      if t.pred.kind == Iri {
        predicates := predicates + {(t.pred.value, t.id)};
      }
      if t.obj.kind == Iri || t.obj.kind == Literal {
        objects := objects + {(TermKey(t.obj), t.id)};
      }
    }

    method DeleteTriple(id: TripleId) returns (found: bool)
      modifies this
      ensures found <==> id in old(triples)
      ensures Now() == Drop(old(Now()), id) && triples == old(triples) - {id}
    {
      if id !in triples {
        return false;
      }
      var t := triples[id];
      triples := triples - {id};
      if t.subj.kind == Iri {
        subjects := subjects - {(t.subj.value, id)};
      }
      if t.pred.kind == Iri {
        predicates := predicates - {(t.pred.value, id)};
      }
      if t.obj.kind == Iri || t.obj.kind == Literal {
        objects := objects - {(TermKey(t.obj), id)};
      }
      return true;
    }

    method Query(p: Pattern) returns (results: seq<Triple>)
      requires Filed(Now())
      ensures Returns(Now(), Answer(Now(), p), p.limit, results)
    {
      var ids := Listing(Candidates(Now(), p));
      results := [];
      ghost var found: seq<TripleId> := [];
      for i := 0 to |ids|
        invariant Lists(found, Answer(Now(), p) * (set n | 0 <= n < i :: ids[n]))
        invariant |results| == |found| && forall n :: 0 <= n < |found| ==> results[n] == triples[found[n]]
        invariant p.limit > 0 ==> |results| < p.limit
      {
        var id := ids[i];
        if id in triples && Matches(triples[id], p) {
          results := results + [triples[id]];
          found := found + [id];
        }
        if p.limit > 0 && |results| >= p.limit {
          CutShort(Now(), p, found, results);
          return;
        }
      }
      assert forall id :: id in Answer(Now(), p) ==> id in ids;
      AllFound(Now(), p, found, results);
    }

    method Count() returns (count: nat)
      ensures count == |triples|
    {
      return |triples|;
    }
  }
}

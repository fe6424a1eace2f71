/**
 pkg/rdf/store.go: import and export of whole N-Triples documents.
 */
module NTriplesDocuments {
  import opened Wrappers
  import opened Scans
  import opened LineOrder
  import opened RdfStore
  import opened Text
  import opened NTriples
  import opened NTriplesLines

  // ----- Import and export -----

  datatype ImportResult = Imported(count: nat) | Failed(count: nat, message: string) | ImportCrashed

  /** What one line does: nothing, store a triple, stop with an error, or crash. */
  datatype Step = Skip | Load(triple: Triple) | Fail(message: string) | Break

  function LineStep(line: string): Step {
    var l := TrimSpace(line);
    if l == "" || l[0] == '#' then Skip
    else
      match ParseLine(l)
      case Err(m) => Fail(m)
      case Crash => Break
      case Ok(None) => Break
      case Ok(Some(t)) => Load(t)
  }

  ghost function Steps(lines: seq<string>): (steps: seq<Step>)
    ensures |steps| == |lines| && forall i :: 0 <= i < |lines| ==> steps[i] == LineStep(lines[i])
  {
    seq(|lines|, i requires 0 <= i < |lines| => LineStep(lines[i]))
  }

  /** What these steps leave and return when they start in s with count triples imported before. */
  ghost function ImportAll(s: State, steps: seq<Step>, count: nat): (State, ImportResult)
    decreases |steps|
  {
    if steps == [] then (s, Imported(count))
    else
      match steps[0]
      case Skip => ImportAll(s, steps[1..], count)
      case Load(t) => ImportAll(Put(s, Identified(t)), steps[1..], count + 1)
      case Fail(m) => (s, Failed(count, m))
      case Break => (s, ImportCrashed)
  }

  ghost function ImportInto(s: State, data: string): (State, ImportResult) {
    ImportAll(s, Steps(Split(data, '\n')), 0)
  }

  method ImportNTriples(store: Store, data: string) returns (r: ImportResult)
    modifies store
    ensures (store.Now(), r) == ImportInto(old(store.Now()), data)
  {
    var lines := Split(data, '\n');
    ghost var steps := Steps(lines);
    var count := 0;
    assert steps[0..] == steps;
    for i := 0 to |lines|
      invariant ImportAll(old(store.Now()), steps, 0) == ImportAll(store.Now(), steps[i..], count)
    {
      assert steps[i..][0] == steps[i] && steps[i..][1..] == steps[i + 1..];
      match LineStep(lines[i]) {
        case Skip =>
        case Fail(m) => return Failed(count, m);
        case Break => return ImportCrashed;
        case Load(t) =>
          store.UpsertTriple(t);
          count := count + 1;
      }
    }
    return Imported(count);
  }

  ghost function Lines(triples: seq<Triple>): (lines: seq<string>)
    ensures |lines| == |triples|
  {
    seq(|triples|, i requires 0 <= i < |triples| => FormatTriple(triples[i]))
  }

  method FormatAll(triples: seq<Triple>) returns (lines: seq<string>)
    ensures lines == Lines(triples)
  {
    lines := [];
    for i := 0 to |triples|
      invariant |lines| == i && forall k :: 0 <= k < i ==> lines[k] == FormatTriple(triples[k])
    {
      lines := lines + [FormatTriple(triples[i])];
    }
  }

  /** text has one line for every stored triple, and the lines are sorted. */
  ghost predicate IsExport(s: State, text: string) {
    exists triples :: ExportedAs(s, triples, text)
  }

  ghost predicate ExportedAs(s: State, triples: seq<Triple>, text: string) {
    Returns(s, FullScan(s, ANY), 0, triples) && InOrder(Lines(triples)) && text == Join(Lines(triples), '\n')
  }

  lemma ReturnsRearranged(s: State, ids: set<TripleId>, ts: seq<Triple>, us: seq<Triple>, perm: seq<nat>)
    requires Returns(s, ids, 0, ts) && Rearranged(ts, us, perm)
    ensures Returns(s, ids, 0, us)
  {
    AtMostBelow(perm, |ts|);
    forall id | id in ids
      ensures exists i :: 0 <= i < |us| && us[i].id == id
    {
      var j: nat :| j < |ts| && ts[j].id == id;
      assert j in perm;
      var i :| 0 <= i < |perm| && perm[i] == j;
      assert us[i].id == id;
    }
  }

  method ExportNTriples(store: Store) returns (text: string)
    requires Filed(store.Now())
    ensures IsExport(store.Now(), text)
  {
    var found := store.Query(ANY);
    IndexAgreesWithScan(store.Now(), ANY);
    var lines := FormatAll(found);
    ghost var perm;
    lines, perm := SortLines(lines);
    ghost var triples := seq(|perm|, i requires 0 <= i < |perm| && perm[i] < |found| => found[perm[i]]);
    ReturnsRearranged(store.Now(), FullScan(store.Now(), ANY), found, triples, perm);
    assert lines == Lines(triples);
    text := Join(lines, '\n');
    assert ExportedAs(store.Now(), triples, text);
  }

  /** Two queries without a limit return the same records in two orders. */
  lemma ReturnedInTwoOrders(s: State, ids: set<TripleId>, ts: seq<Triple>, us: seq<Triple>) returns (perm: seq<nat>)
    requires Returns(s, ids, 0, ts) && Returns(s, ids, 0, us)
    ensures Rearranged(ts, us, perm)
  {
    hide Returns;
    perm := [];
    ReturnedOnce(s, ids, us);
    ReturnedOnce(s, ids, ts);
    for i := 0 to |us|
      invariant |perm| == i && Distinct(perm)
      invariant forall k :: 0 <= k < i ==> perm[k] < |ts| && us[k] == ts[perm[k]]
    {
      var j := ReturnedToo(s, ids, ts, us, i);
      perm := perm + [j];
    }
  }

  lemma ReturnedOnce(s: State, ids: set<TripleId>, us: seq<Triple>)
    requires Returns(s, ids, 0, us)
    ensures Distinct(us) && |us| == |ids|
  {
  }

  lemma ReturnedToo(s: State, ids: set<TripleId>, ts: seq<Triple>, us: seq<Triple>, i: nat) returns (j: nat)
    requires Returns(s, ids, 0, ts) && Returns(s, ids, 0, us) && i < |us|
    ensures j < |ts| && ts[j] == us[i]
  {
    j :| j < |ts| && ts[j].id == us[i].id;
  }

  lemma LinesRearranged(ts: seq<Triple>, us: seq<Triple>, perm: seq<nat>)
    requires Rearranged(ts, us, perm)
    ensures Rearranged(Lines(ts), Lines(us), perm)
  {
  }

  /** Main result: the export does not depend on the order in which the scan lists the triples. */
  lemma ExportIsUnique(s: State, text: string, other: string)
    requires IsExport(s, text) && IsExport(s, other)
    ensures text == other
  {
    var ts :| ExportedAs(s, ts, text);
    var us :| ExportedAs(s, us, other);
    var p := ReturnedInTwoOrders(s, FullScan(s, ANY), ts, us);
    var q := ReturnedInTwoOrders(s, FullScan(s, ANY), us, ts);
    LinesRearranged(ts, us, p);
    LinesRearranged(us, ts, q);
    SortedIsUnique(Lines(ts), Lines(us), p, q);
  }

  // ----- Round trip of a document -----

  ghost predicate OneLine(t: Term) {
    (t.kind == Iri ==> '\n' !in t.value) && '\n' !in t.datatyp
  }

  ghost predicate Exportable(t: Triple) {
    && t.id == HashTriple(t) && Sturdy(t.subj) && Sturdy(t.pred) && Sturdy(t.obj)
    && OneLine(t.subj) && OneLine(t.pred) && OneLine(t.obj)
  }

  function Stripped(t: Triple): Triple {
    t.(graph := "", inferred := false)
  }

  lemma {:induction false} EscapedHasNoNewline(v: string)
    ensures '\n' !in Escaped(v)
    decreases |v|
  {
    if v != "" {
      EscapedHasNoNewline(v[1..]);
    }
  }

  lemma TermHasNoNewline(t: Term)
    requires Sturdy(t) && OneLine(t)
    ensures '\n' !in FormatTerm(t)
  {
    EscapeIsCharwise(t.value);
    EscapedHasNoNewline(t.value);
    if t.kind == Literal && t.language != "" {
      assert '\n' !in t.language;
    }
  }

  lemma LineHasNoNewline(t: Triple)
    requires Exportable(t)
    ensures '\n' !in FormatTriple(t)
  {
    TermHasNoNewline(t.subj);
    TermHasNoNewline(t.pred);
    TermHasNoNewline(t.obj);
  }

  lemma LineIsStatement(t: Triple)
    requires Exportable(t)
    ensures
      var l := TrimSpace(FormatTriple(t));
      l == FormatTriple(t) && l != "" && l[0] in "<\""
  {
    hide TrimSpace, FormatTerm, Sturdy;
    BodyOf(t);
    NothingToTrim(FormatTriple(t));
  }

  ghost function Loaded(s: State, triples: seq<Triple>): State
    decreases |triples|
  {
    if triples == [] then s else Loaded(Put(s, triples[0]), triples[1..])
  }

  lemma LineLoads(t: Triple)
    requires Exportable(t)
    ensures LineStep(FormatTriple(t)) == Load(Stripped(t)) && Identified(Stripped(t)) == Stripped(t)
  {
    LineIsStatement(t);
    LineRoundTrip(t);
    assert t.(id := HashTriple(t), graph := "", inferred := false) == Stripped(t);
  }

  ghost function Loads(triples: seq<Triple>): (steps: seq<Step>)
    ensures |steps| == |triples| && forall i :: 0 <= i < |triples| ==> steps[i] == Load(triples[i])
  {
    seq(|triples|, i requires 0 <= i < |triples| => Load(triples[i]))
  }

  lemma {:induction false} LoadsImport(s: State, triples: seq<Triple>, count: nat)
    requires forall i :: 0 <= i < |triples| ==> Identified(triples[i]) == triples[i]
    ensures ImportAll(s, Loads(triples), count) == (Loaded(s, triples), Imported(count + |triples|))
    decreases |triples|
  {
    if triples != [] {
      assert Loads(triples)[1..] == Loads(triples[1..]);
      LoadsImport(Put(s, triples[0]), triples[1..], count + 1);
    }
  }

  lemma {:induction false} LoadedTriples(s: State, triples: seq<Triple>, id: TripleId)
    requires forall i, j :: 0 <= i < j < |triples| ==> triples[i].id != triples[j].id
    ensures id in Loaded(s, triples).triples <==>
              id in s.triples || exists i :: 0 <= i < |triples| && triples[i].id == id
    ensures forall i :: 0 <= i < |triples| && triples[i].id == id ==> Loaded(s, triples).triples[id] == triples[i]
    ensures id in s.triples && (forall i :: 0 <= i < |triples| ==> triples[i].id != id) ==>
              Loaded(s, triples).triples[id] == s.triples[id]
    decreases |triples|
  {
    if triples != [] {
      var rest := triples[1..];
      assert forall i :: 0 < i < |triples| ==> triples[i] == rest[i - 1];
      LoadedTriples(Put(s, triples[0]), rest, id);
    }
  }

  ghost function AllStripped(triples: seq<Triple>): (r: seq<Triple>)
    ensures |r| == |triples|
  {
    seq(|triples|, i requires 0 <= i < |triples| => Stripped(triples[i]))
  }

  lemma NoLineBreaks(triples: seq<Triple>)
    requires forall i :: 0 <= i < |triples| ==> Exportable(triples[i])
    ensures forall i :: 0 <= i < |triples| ==> '\n' !in Lines(triples)[i]
  {
    forall i | 0 <= i < |triples|
      ensures '\n' !in Lines(triples)[i]
    {
      LineHasNoNewline(triples[i]);
    }
  }

  lemma AllLinesLoad(triples: seq<Triple>)
    requires forall i :: 0 <= i < |triples| ==> Exportable(triples[i])
    ensures Steps(Lines(triples)) == Loads(AllStripped(triples))
    ensures forall i :: 0 <= i < |triples| ==> Identified(AllStripped(triples)[i]) == AllStripped(triples)[i]
  {
    forall i | 0 <= i < |triples|
      ensures Steps(Lines(triples))[i] == Load(AllStripped(triples)[i])
              && Identified(AllStripped(triples)[i]) == AllStripped(triples)[i]
    {
      LineLoads(triples[i]);
    }
  }

  lemma LinesOfDocument(triples: seq<Triple>)
    requires triples != [] && forall i :: 0 <= i < |triples| ==> Exportable(triples[i])
    ensures Split(Join(Lines(triples), '\n'), '\n') == Lines(triples)
  {
    NoLineBreaks(triples);
    SplitJoin(Lines(triples), '\n');
  }

  lemma StepsOfDocument(triples: seq<Triple>)
    requires triples != [] && forall i :: 0 <= i < |triples| ==> Exportable(triples[i])
    ensures Steps(Split(Join(Lines(triples), '\n'), '\n')) == Loads(AllStripped(triples))
    ensures forall i :: 0 <= i < |triples| ==> Identified(AllStripped(triples)[i]) == AllStripped(triples)[i]
  {
    LinesOfDocument(triples);
    AllLinesLoad(triples);
  }

  lemma ImportBySteps(s: State, text: string, steps: seq<Step>)
    requires Steps(Split(text, '\n')) == steps
    ensures ImportInto(s, text) == ImportAll(s, steps, 0)
  {
  }

  lemma ImportFollows(s: State, text: string, triples: seq<Triple>)
    requires Steps(Split(text, '\n')) == Loads(triples) && forall i :: 0 <= i < |triples| ==>
               Identified(triples[i]) == triples[i]
    ensures ImportInto(s, text) == (Loaded(s, triples), Imported(|triples|))
  {
    ImportBySteps(s, text, Loads(triples));
    LoadsImportTo(s, triples, ImportInto(s, text));
  }

  lemma LoadsImportTo(s: State, triples: seq<Triple>, end: (State, ImportResult))
    requires end == ImportAll(s, Loads(triples), 0) && forall i :: 0 <= i < |triples| ==>
               Identified(triples[i]) == triples[i]
    ensures end == (Loaded(s, triples), Imported(|triples|))
  {
    LoadsImport(s, triples, 0);
  }

  lemma DocumentImports(s: State, triples: seq<Triple>)
    requires forall i :: 0 <= i < |triples| ==> Exportable(triples[i])
    ensures ImportInto(s, Join(Lines(triples), '\n')) == (Loaded(s, AllStripped(triples)), Imported(|triples|))
  {
    if triples == [] {
      EmptyDocument(s);
    } else {
      StepsOfDocument(triples);
      ImportFollows(s, Join(Lines(triples), '\n'), AllStripped(triples));
    }
  }

  lemma EmptyDocument(s: State)
    ensures ImportInto(s, Join([], '\n')) == (s, Imported(0))
  {
    assert Split("", '\n') == [""] && LineStep("") == Skip;
    assert Steps([""]) == [Skip] && [Skip][1..] == [];
  }

  lemma LoadedAt(e: State, s: State, triples: seq<Triple>, id: TripleId)
    requires e.triples == map[] && Filed(s) && Returns(s, s.triples.Keys, 0, triples)
    ensures id in Loaded(e, AllStripped(triples)).triples <==> id in s.triples
    ensures id in s.triples ==> Loaded(e, AllStripped(triples)).triples[id] == Stripped(s.triples[id])
  {
    hide Loaded, HashTriple;
    var r := AllStripped(triples);
    assert forall i :: 0 <= i < |triples| ==> r[i].id == triples[i].id;
    LoadedTriples(e, r, id);
    if id in s.triples {
      var i :| 0 <= i < |triples| && triples[i].id == id;
      assert r[i] == Stripped(s.triples[id]);
    }
  }

  lemma LoadedIsStripped(e: State, s: State, triples: seq<Triple>)
    requires e.triples == map[] && Filed(s) && Returns(s, s.triples.Keys, 0, triples)
    ensures Loaded(e, AllStripped(triples)).triples == map id | id in s.triples :: Stripped(s.triples[id])
  {
    var t := Loaded(e, AllStripped(triples));
    forall id
      ensures id in t.triples <==> id in s.triples
      ensures id in s.triples ==> t.triples[id] == Stripped(s.triples[id])
    {
      LoadedAt(e, s, triples, id);
    }
  }

  lemma ImportOfLines(e: State, s: State, triples: seq<Triple>)
    requires e.triples == map[] && Filed(s) && forall id :: id in s.triples ==> Exportable(s.triples[id])
    requires Returns(s, s.triples.Keys, 0, triples)
    ensures
      var (t, r) := ImportInto(e, Join(Lines(triples), '\n'));
      && r == Imported(|s.triples|)
      && t.triples == map id | id in s.triples :: Stripped(s.triples[id])
  {
    DocumentImports(e, triples);
    LoadedIsStripped(e, s, triples);
  }

  /** Main result: importing what was exported, in whatever order the lines come, rebuilds the triples; only the graph
      names and the inferred marks are lost. */
  lemma ImportOfExport(e: State, s: State, text: string)
    requires e.triples == map[] && Filed(s) && forall id :: id in s.triples ==> Exportable(s.triples[id])
    requires IsExport(s, text)
    ensures
      var (t, r) := ImportInto(e, text);
      && r == Imported(|s.triples|)
      && t.triples == map id | id in s.triples :: Stripped(s.triples[id])
  {
    var triples :| ExportedAs(s, triples, text);
    assert FullScan(s, ANY) == s.triples.Keys;
    ImportOfLines(e, s, triples);
  }
}

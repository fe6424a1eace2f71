/**
 pkg/rdf/ntriples.go: exactly which lines make the reader slice past their end. Behind the closing quote of a literal it
 takes two bytes to look for a datatype, although only one may be left.
 */
module NTriplesCrashes {
  import opened RdfStore
  import opened Text
  import opened NTriples
  import opened NTriplesLines
  import opened NTriplesDocuments

  // ----- Tokens that are cut short -----

  /** A quote that no backslash precedes. */
  predicate Closes(h: string, k: int) {
    0 < k < |h| && h[k] == '"' && h[k - 1] != '\\'
  }

  /** A literal whose closing quote is followed by one more byte, which starts no language tag. */
  ghost predicate CutShort(h: string) {
    && |h| >= 3 && h[0] == '"'
    && Closes(h, |h| - 2) && (forall k :: 0 < k < |h| - 2 ==> !Closes(h, k))
    && h[|h| - 1] != '@' && OneByte(h[|h| - 1])
  }

  lemma {:induction false} QuoteEndExactly(h: string, j: nat)
    requires 0 < j <= |h|
    ensures
      var end := QuoteEnd(h, j);
      && (forall k :: j <= k < end - 1 ==> !Closes(h, k))
      && (end == |h| || (j < end && Closes(h, end - 1)))
    decreases |h| - j
  {
    if j < |h| && !Closes(h, j) {
      QuoteEndExactly(h, j + 1);
    }
  }

  lemma CutShortExactly(h: string)
    requires h != "" && h[0] != ' '
    ensures ScanToken(h) == OutOfRange <==> CutShort(h)
  {
    if h[0] == '"' {
      QuoteEndExactly(h, 1);
    }
  }

  // ----- Lines -----

  /** The text from where the scan starts its last token. */
  function FinalToken(s: string): string
    decreases |s|
  {
    var rest := SkipSpaces(s);
    if rest == "" then ""
    else
      match ScanToken(rest)
      case Token(end) =>
        var later := FinalToken(rest[end..]);
        if later == "" then rest else later
      case _ => rest
  }

  lemma {:induction false} TokensCrashExactly(s: string)
    ensures Tokenize(s) == Crashed <==> CutShort(FinalToken(s))
    decreases |s|
  {
    var rest := SkipSpaces(s);
    if rest != "" {
      CutShortExactly(rest);
      match ScanToken(rest)
      case Token(end) => TokensCrashExactly(rest[end..]);
      case _ =>
    }
  }

  lemma {:induction false} FinalTokenEnds(s: string)
    ensures
      var h := FinalToken(s);
      |h| <= |s| && h == s[|s| - |h|..]
    decreases |s|
  {
    hide SkipSpaces, ScanToken;
    var rest := SkipSpaces(s);
    SkipSpacesEnds(s);
    if rest != "" {
      match ScanToken(rest)
      case Token(end) => FinalTokenEnds(rest[end..]);
      case _ =>
    }
  }

  lemma {:induction false} SkipSpacesEnds(s: string)
    ensures SkipSpaces(s) == s[|s| - |SkipSpaces(s)|..]
    decreases |s|
  {
    if s != "" && s[0] == ' ' {
      SkipSpacesEnds(s[1..]);
    }
  }

  /** The line is a statement and body is its text between the ends. */
  predicate IsStatement(line: string, body: string) {
    var l := TrimSpace(line);
    l != "" && l[0] != '#' && HasSuffix(l, " .") && body == TrimSpace(l[..|l| - 2])
  }

  lemma TermsNeverCrash(r: Tokens)
    ensures ParseTerms(r) == Crash <==> r == Crashed
  {
  }

  lemma StatementCrashesExactly(line: string, body: string)
    requires IsStatement(line, body)
    ensures ParseLine(line) == Crash <==> CutShort(FinalToken(body))
  {
    TokensCrashExactly(body);
    TermsNeverCrash(Tokenize(body));
  }

  /** Main result: a line makes the reader fail exactly when it is a statement whose last token is cut short. */
  lemma LineCrashesExactly(line: string)
    ensures ParseLine(line) == Crash <==> exists body :: IsStatement(line, body) && CutShort(FinalToken(body))
  {
    var l := TrimSpace(line);
    if l != "" && l[0] != '#' && HasSuffix(l, " .") {
      StatementCrashesExactly(line, TrimSpace(l[..|l| - 2]));
    }
  }

  /** What a caller can look for: a statement whose last character but one is no quote is safe. */
  lemma NoQuoteNoCrash(line: string, body: string)
    requires IsStatement(line, body) && (|body| < 2 || body[|body| - 2] != '"')
    ensures ParseLine(line) != Crash
  {
    StatementCrashesExactly(line, body);
    FinalTokenEnds(body);
  }

  // ----- Documents -----

  lemma StepOfLine(line: string)
    ensures LineStep(line) == Break <==> ParseLine(line) == Crash
    ensures LineStep(line).Fail? <==> ParseLine(line).Err?
  {
    TrimTwice(line);
  }

  /** The step at i breaks and none before it fails. */
  ghost predicate FirstBreak(steps: seq<Step>, i: int) {
    0 <= i < |steps| && steps[i] == Break && forall k :: 0 <= k < i ==> !steps[k].Fail?
  }

  ghost predicate HasBreak(steps: seq<Step>) {
    exists i :: FirstBreak(steps, i)
  }

  lemma {:induction false} StepsCrashExactly(s: State, steps: seq<Step>, count: nat)
    ensures ImportAll(s, steps, count).1.ImportCrashed? <==> HasBreak(steps)
    decreases |steps|
  {
    if steps != [] {
      var rest := steps[1..];
      BreakBehind(steps);
      match steps[0]
      case Skip => StepsCrashExactly(s, rest, count);
      case Load(t) => StepsCrashExactly(Put(s, Identified(t)), rest, count + 1);
      case Fail(_) =>
      case Break =>
    }
  }

  lemma BreakBehind(steps: seq<Step>)
    requires steps != []
    ensures forall i :: FirstBreak(steps, i) ==> i == 0 || (!steps[0].Fail? && FirstBreak(steps[1..], i - 1))
    ensures forall i :: FirstBreak(steps[1..], i) && !steps[0].Fail? ==> FirstBreak(steps, i + 1)
    ensures FirstBreak(steps, 0) <==> steps[0] == Break
  {
  }

  /** Reading line i crashes and no line before it is refused. */
  ghost predicate FirstCrash(lines: seq<string>, i: int) {
    0 <= i < |lines| && ParseLine(lines[i]) == Crash && forall k :: 0 <= k < i ==> !ParseLine(lines[k]).Err?
  }

  lemma FirstBreakIsFirstCrash(lines: seq<string>, i: int)
    ensures FirstBreak(Steps(lines), i) <==> FirstCrash(lines, i)
  {
    forall k | 0 <= k < |lines|
      ensures Steps(lines)[k] == Break <==> ParseLine(lines[k]) == Crash
      ensures Steps(lines)[k].Fail? <==> ParseLine(lines[k]).Err?
    {
      StepOfLine(lines[k]);
    }
  }

  /** Reading some line crashes, and no line before it is refused. */
  ghost predicate HasCrash(lines: seq<string>) {
    exists i :: FirstCrash(lines, i)
  }

  lemma BreaksAreCrashes(lines: seq<string>)
    ensures HasBreak(Steps(lines)) <==> HasCrash(lines)
  {
    forall i
      ensures FirstBreak(Steps(lines), i) <==> FirstCrash(lines, i)
    {
      FirstBreakIsFirstCrash(lines, i);
    }
  }

  lemma CrashOfSteps(s: State, steps: seq<Step>, end: (State, ImportResult))
    requires end == ImportAll(s, steps, 0)
    ensures end.1.ImportCrashed? <==> HasBreak(steps)
  {
    StepsCrashExactly(s, steps, 0);
  }

  /** Main result: an import crashes exactly when some line crashes before any line is refused. */
  lemma ImportCrashesExactly(s: State, data: string)
    ensures ImportInto(s, data).1.ImportCrashed? <==> HasCrash(Split(data, '\n'))
  {
    CrashOfSteps(s, Steps(Split(data, '\n')), ImportInto(s, data));
    BreaksAreCrashes(Split(data, '\n'));
  }

  /** A document none of whose statements has a quote as the last character but one is safe to import. */
  lemma SafeDocument(s: State, data: string)
    requires forall line, body :: line in Split(data, '\n') && IsStatement(line, body) ==>
               |body| < 2 || body[|body| - 2] != '"'
    ensures !ImportInto(s, data).1.ImportCrashed?
  {
    var lines := Split(data, '\n');
    ImportCrashesExactly(s, data);
    forall i | 0 <= i < |lines|
      ensures ParseLine(lines[i]) != Crash
    {
      LineCrashesExactly(lines[i]);
      forall body | IsStatement(lines[i], body)
        ensures !CutShort(FinalToken(body))
      {
        FinalTokenEnds(body);
      }
    }
  }

  // ----- A family of lines -----

  lemma TwoTokensThen(f: string, g: string, h: string)
    requires f != "" && f[0] != ' ' && g != "" && g[0] != ' ' && h != "" && h[0] != ' '
    requires ScanToken(f + (" " + (g + (" " + h)))) == Token(|f|) && ScanToken(g + (" " + h)) == Token(|g|)
    requires ScanToken(h) == OutOfRange
    ensures Tokenize(f + (" " + (g + (" " + h)))) == Crashed
  {
    FirstToken(f, g + (" " + h));
    FirstToken(g, h);
    CrashingToken(h);
  }

  lemma CrashingToken(h: string)
    requires h != "" && h[0] != ' ' && ScanToken(h) == OutOfRange
    ensures Tokenize(h) == Crashed
  {
    assert SkipSpaces(h) == h;
  }

  lemma StrayToken(v: string, c: char)
    requires ClosesWell(v) && c != '@' && OneByte(c)
    ensures
      var h := "\"" + Escaped(v) + "\"" + [c];
      h[0] == '"' && h[|h| - 1] == c && ScanToken(h) == OutOfRange
  {
    ClosingQuote(v, [c], 1);
  }

  /** A family of such lines: a literal and one stray character. */
  lemma StrayCharacterCrashes(s: Term, p: Term, v: string, c: char)
    requires Sturdy(s) && Sturdy(p) && ClosesWell(v) && c != '@' && OneByte(c) && !IsSpace(c)
    ensures
      var h := "\"" + Escaped(v) + "\"" + [c];
      ParseLine(FormatTerm(s) + (" " + (FormatTerm(p) + (" " + h))) + " .") == Crash
  {
    var f, g, h := FormatTerm(s), FormatTerm(p), "\"" + Escaped(v) + "\"" + [c];
    FormatEnds(s);
    FormatEnds(p);
    StrayToken(v, c);
    SturdyToken(s, " " + (g + (" " + h)));
    SturdyToken(p, " " + h);
    TwoTokensThen(f, g, h);
    BodyEnds(f, g, h);
    DropDot(f + (" " + (g + (" " + h))));
  }
}

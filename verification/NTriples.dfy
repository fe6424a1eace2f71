/**
 pkg/rdf/ntriples.go: writing and reading single N-Triples terms and lines (section 2 of RDF 1.1 N-Triples).

 Strings are sequences of characters. Indexing past the end of a line is a crash.
 */
module NTriples {
  import opened RdfStore
  import opened Text

  datatype Outcome<+T> = Ok(value: T) | Err(message: string) | Crash

  // ----- Writing -----

  function EscapeLiteral(s: string): string {
    ReplaceAll(ReplaceAll(ReplaceAll(s, "\\", "\\\\"), "\"", "\\\""), "\n", "\\n")
  }

  function FormatTerm(t: Term): string {
    match t.kind
    case Iri => "<" + t.value + ">"
    case BlankNode => "_:" + t.value
    case Literal =>
      if t.language != "" then "\"" + EscapeLiteral(t.value) + "\"@" + t.language
      else if t.datatyp != "" then "\"" + EscapeLiteral(t.value) + "\"^^<" + t.datatyp + ">"
      else "\"" + EscapeLiteral(t.value) + "\""
    case OtherKind => "\"" + t.value + "\""
  }

  function FormatTriple(t: Triple): string {
    FormatTerm(t.subj) + " " + FormatTerm(t.pred) + " " + FormatTerm(t.obj) + " ."
  }

  // ----- Reading terms -----

  /** Starts with `<` and ends with `>`. */
  predicate Bracketed(s: string) {
    |s| >= 2 && s[0] == '<' && s[|s| - 1] == '>'
  }

  function ParseTerm(s: string): Outcome<Term> {
    if Bracketed(s) then Ok(NewIri(s[1..|s| - 1]))
    else if s != "" && s[0] == '"' then ParseLiteral(Content(s))
    else Err("unknown term format")
  }

  /** The text behind the opening quote, without a closing quote at its very end. */
  function Content(s: string): string
    requires s != ""
  {
    var rest := s[1..];
    if rest != "" && rest[|rest| - 1] == '"' then rest[..|rest| - 1] else rest
  }

  function ParseLiteral(content: string): Outcome<Term> {
    var at := Index(content, "\"@");
    if at > 0 then Ok(Term(Literal, content[..at], "", content[at + 2..]))
    else
      var caret := Index(content, "\"^^");
      if caret > 0 then
        var dt := content[caret + 3..];
        Ok(Term(Literal, content[..caret], if Bracketed(dt) then dt[1..|dt| - 1] else dt, ""))
      else Ok(Term(Literal, ReplaceAll(content, "\\\"", "\""), "", ""))
  }

  // ----- Escaping, character by character -----

  function EscapeChar(c: char): string {
    if c == '\\' then "\\\\" else if c == '"' then "\\\"" else if c == '\n' then "\\n" else [c]
  }

  function Escaped(s: string): string {
    if s == "" then "" else EscapeChar(s[0]) + Escaped(s[1..])
  }

  lemma EscapeOneChar(c: char)
    ensures EscapeLiteral([c]) == EscapeChar(c)
  {
    ReplaceCharHead(c, "", '\\', "\\\\");
    assert [c] + "" == [c];
    if c == '\\' {
      ReplaceCharAbsent("\\\\", '"', "\\\"");
      ReplaceCharAbsent("\\\\", '\n', "\\n");
    } else {
      ReplaceCharHead(c, "", '"', "\\\"");
      if c == '"' {
        ReplaceCharAbsent("\\\"", '\n', "\\n");
      } else {
        ReplaceCharHead(c, "", '\n', "\\n");
      }
    }
  }

  lemma EscapeConcat(a: string, b: string)
    ensures EscapeLiteral(a + b) == EscapeLiteral(a) + EscapeLiteral(b)
  {
    ReplaceCharConcat(a, b, '\\', "\\\\");
    var a1, b1 := ReplaceAll(a, "\\", "\\\\"), ReplaceAll(b, "\\", "\\\\");
    ReplaceCharConcat(a1, b1, '"', "\\\"");
    ReplaceCharConcat(ReplaceAll(a1, "\"", "\\\""), ReplaceAll(b1, "\"", "\\\""), '\n', "\\n");
  }

  lemma {:induction false} EscapeIsCharwise(s: string)
    ensures EscapeLiteral(s) == Escaped(s)
    decreases |s|
  {
    if s != "" {
      EscapeOneChar(s[0]);
      EscapeConcat([s[0]], s[1..]);
      assert [s[0]] + s[1..] == s;
      EscapeIsCharwise(s[1..]);
    }
  }

  // ----- When a term survives -----

  /** Nothing to escape. */
  predicate NoSpecials(s: string) {
    '"' !in s && '\\' !in s && '\n' !in s
  }

  predicate IsTagChar(c: char) {
    'a' <= c <= 'z' || 'A' <= c <= 'Z' || '0' <= c <= '9' || c == '-'
  }

  /** The characters of a language tag: ASCII letters, digits and the hyphen. */
  lemma TagCharExactly(c: char)
    ensures IsTagChar(c) <==>
            || c as int == 45 || 48 <= c as int <= 57 || 65 <= c as int <= 90 || 97 <= c as int <= 122
  {
  }

  predicate IsTag(s: string) {
    forall i :: 0 <= i < |s| ==> IsTagChar(s[i])
  }

  predicate Trimmed(v: string) {
    v == "" || (!IsBracket(v[0]) && !IsBracket(v[|v| - 1]))
  }

  /** What a term must look like to survive being written and read. */
  ghost predicate Survives(t: Term) {
    match t.kind
    case Iri => Trimmed(t.value) && t.datatyp == "" && t.language == ""
    case Literal =>
      if t.language != "" then
        t.datatyp == "" && t.value != "" && NoSpecials(t.value) && t.language[|t.language| - 1] != '"'
      else if t.datatyp != "" then t.value != "" && NoSpecials(t.value) && !Contains(t.datatyp, "\"@")
      else '\\' !in t.value && '\n' !in t.value && !Contains(t.value, "\"@") && !Contains(t.value, "\"^^")
    case BlankNode => false
    case OtherKind => false
  }

  // ----- Facts about escaped text -----

  function Count(s: string, c: char): nat {
    if s == "" then 0 else (if s[0] == c then 1 else 0) + Count(s[1..], c)
  }

  lemma {:induction false} CountConcat(a: string, b: string, c: char)
    ensures Count(a + b, c) == Count(a, c) + Count(b, c)
    decreases |a|
  {
    if a == "" {
      assert a + b == b;
    } else {
      assert (a + b)[1..] == a[1..] + b;
      CountConcat(a[1..], b, c);
    }
  }

  lemma {:induction false} CountAbsent(s: string, c: char)
    ensures Count(s, c) == 0 <==> c !in s
    decreases |s|
  {
    if s != "" {
      CountAbsent(s[1..], c);
      assert s == [s[0]] + s[1..];
    }
  }

  lemma {:induction false} EscapedLength(v: string)
    ensures |Escaped(v)| == |v| + Count(v, '\\') + Count(v, '"') + Count(v, '\n')
    decreases |v|
  {
    if v != "" {
      EscapedLength(v[1..]);
    }
  }

  /** Escaping changes a text exactly when there is something to escape. */
  lemma {:induction false} EscapedSame(v: string)
    ensures Escaped(v) == v <==> NoSpecials(v)
  {
    EscapedLength(v);
    CountAbsent(v, '\\');
    CountAbsent(v, '"');
    CountAbsent(v, '\n');
    if NoSpecials(v) {
      PlainStaysPlain(v);
    }
  }

  lemma {:induction false} PlainStaysPlain(v: string)
    requires NoSpecials(v)
    ensures Escaped(v) == v
    decreases |v|
  {
    if v != "" {
      PlainStaysPlain(v[1..]);
      assert v == [v[0]] + v[1..];
    }
  }

  /** Every quote in an escaped text stands behind a backslash. */
  lemma {:induction false} QuotesAreEscaped(v: string, k: nat)
    requires k < |Escaped(v)| && Escaped(v)[k] == '"'
    ensures k > 0 && Escaped(v)[k - 1] == '\\'
    decreases |v|
  {
    var e := EscapeChar(v[0]);
    assert Escaped(v) == e + Escaped(v[1..]);
    if k >= |e| {
      QuotesAreEscaped(v[1..], k - |e|);
    }
  }

  lemma {:induction false} LastEscaped(v: string)
    requires v != ""
    ensures Escaped(v) != ""
    ensures
      var last := Escaped(v)[|Escaped(v)| - 1];
      last == if v[|v| - 1] == '\n' then 'n' else v[|v| - 1]
    decreases |v|
  {
    if |v| > 1 {
      LastEscaped(v[1..]);
    } else {
      assert v[1..] == "";
    }
  }

  lemma {:induction false} PlainPrefix(v: string, p: string)
    requires NoSpecials(p) && HasPrefix(Escaped(v), p)
    ensures HasPrefix(v, p)
    decreases |p|
  {
    if p != "" {
      var e := EscapeChar(v[0]);
      assert Escaped(v)[0] == p[0];
      assert e == [v[0]];
      assert Escaped(v)[1..] == Escaped(v[1..]);
      assert Escaped(v)[..|p|] == [v[0]] + Escaped(v[1..])[..|p| - 1];
      PlainPrefix(v[1..], p[1..]);
      assert v[..|p|] == [v[0]] + v[1..][..|p| - 1];
    }
  }

  /** A quote followed by plain text p occurs in the escaped text exactly when it occurs in the text. */
  lemma {:induction false} QuoteThenPlain(v: string, p: string, k: nat)
    requires NoSpecials(p) && OccursAt(Escaped(v), "\"" + p, k)
    ensures Contains(v, "\"" + p)
    decreases |v|
  {
    var pat, e, rest := "\"" + p, EscapeChar(v[0]), Escaped(v[1..]);
    assert Escaped(v) == e + rest && v == [v[0]] + v[1..];
    if k >= |e| {
      OccursShift(e, rest, pat, k);
      QuoteThenPlain(v[1..], p, k - |e|);
      var j :| 0 <= j <= |v[1..]| && OccursAt(v[1..], pat, j);
      OccursShift([v[0]], v[1..], pat, j + 1);
      assert OccursAt(v, pat, j + 1);
    } else {
      QuoteAtHead(v, p, k);
    }
  }

  /** A quote in what the first character is escaped to follows a backslash. */
  lemma EscapedHead(v: string, k: nat)
    requires v != "" && k < |EscapeChar(v[0])| && Escaped(v)[k] == '"'
    ensures v[0] == '"' && k == 1
  {
  }

  lemma QuoteAtHead(v: string, p: string, k: nat)
    requires NoSpecials(p) && v != "" && k < |EscapeChar(v[0])| && OccursAt(Escaped(v), "\"" + p, k)
    ensures Contains(v, "\"" + p)
  {
    OccursFirst(Escaped(v), "\"" + p, k);
    EscapedHead(v, k);
    QuoteFirst(v, p);
  }

  lemma QuoteFirst(v: string, p: string)
    requires NoSpecials(p) && v != "" && v[0] == '"' && OccursAt(Escaped(v), "\"" + p, 1)
    ensures OccursAt(v, "\"" + p, 0)
  {
    var rest := Escaped(v[1..]);
    assert Escaped(v) == ['\\'] + (['"'] + rest);
    OccursShift(['\\'], ['"'] + rest, "\"" + p, 1);
    assert "\"" == ['"'];
    OccursAtHead('"', rest, p);
    PlainPrefix(v[1..], p);
    OccursAtHead('"', v[1..], p);
    assert v == ['"'] + v[1..];
  }

  lemma QuoteStays(v: string, p: string)
    requires NoSpecials(p) && Contains(v, "\"" + p)
    ensures Contains(Escaped(v), "\"" + p)
  {
    var pat := "\"" + p;
    var k :| 0 <= k <= |v| && OccursAt(v, pat, k);
    var a, b := v[..k], v[k + |pat|..];
    assert v == a + pat + b && pat == "\"" + p;
    EscapeIsCharwise(v);
    EscapeIsCharwise(a);
    EscapeIsCharwise(p);
    EscapeIsCharwise(b);
    EscapeOneChar('"');
    EscapeConcat(a + pat, b);
    EscapeConcat(a, pat);
    EscapeConcat("\"", p);
    PlainStaysPlain(p);
    assert Escaped(v) == Escaped(a) + ("\\\"" + p) + Escaped(b);
    OccursBehindBackslash(Escaped(a), p, Escaped(b));
  }

  lemma OccursBehindBackslash(a: string, p: string, b: string)
    ensures Contains(a + ("\\\"" + p) + b, "\"" + p)
  {
    var all, pat, at := a + ("\\\"" + p) + b, "\"" + p, |a| + 1;
    assert all[at..at + |pat|] == pat;
    assert OccursAt(all, pat, at);
  }

  // ----- Unescaping -----

  lemma {:induction false} UnescapeInverts(v: string)
    requires '\\' !in v && '\n' !in v
    ensures ReplaceAll(Escaped(v), "\\\"", "\"") == v
    decreases |v|
  {
    if v != "" {
      var e, rest := EscapeChar(v[0]), Escaped(v[1..]);
      var E := e + rest;
      UnescapeInverts(v[1..]);
      assert v == [v[0]] + v[1..];
      if v[0] == '"' {
        assert HasPrefix(E, "\\\"") && E[2..] == rest;
      } else {
        assert E[0] == v[0] && E[1..] == rest;
        PrefixFirst(E, "\\\"");
      }
    }
  }

  lemma {:induction false} EscapedCounts(v: string)
    ensures Count(Escaped(v), '\\') == 2 * Count(v, '\\') + Count(v, '"') + Count(v, '\n')
    ensures Count(Escaped(v), '"') == Count(v, '"')
    decreases |v|
  {
    if v != "" {
      EscapedCounts(v[1..]);
      CountConcat(EscapeChar(v[0]), Escaped(v[1..]), '\\');
      CountConcat(EscapeChar(v[0]), Escaped(v[1..]), '"');
      assert EscapeChar(v[0])[1..] == "" || EscapeChar(v[0])[1..][1..] == "";
    }
  }

  /** Unescaping removes at most one backslash for every quote. */
  lemma {:induction false} UnescapeKeepsBackslashes(s: string)
    ensures Count(ReplaceAll(s, "\\\"", "\""), '\\') + Count(s, '"') >= Count(s, '\\')
    decreases |s|
  {
    if s != "" {
      if HasPrefix(s, "\\\"") {
        assert s == "\\\"" + s[2..];
        UnescapeKeepsBackslashes(s[2..]);
        CountConcat("\\\"", s[2..], '\\');
        CountConcat("\\\"", s[2..], '"');
        CountConcat("\"", ReplaceAll(s[2..], "\\\"", "\""), '\\');
        assert "\\\""[1..] == "\"" && "\""[1..] == "";
      } else {
        UnescapeKeepsBackslashes(s[1..]);
        CountConcat([s[0]], ReplaceAll(s[1..], "\\\"", "\""), '\\');
      }
    }
  }

  lemma UnescapeExactly(v: string)
    ensures ReplaceAll(Escaped(v), "\\\"", "\"") == v <==> '\\' !in v && '\n' !in v
  {
    CountAbsent(v, '\\');
    CountAbsent(v, '\n');
    if '\\' !in v && '\n' !in v {
      UnescapeInverts(v);
    } else {
      EscapedCounts(v);
      UnescapeKeepsBackslashes(Escaped(v));
    }
  }

  // ----- Round trips of terms -----

  lemma {:induction false} TrimLeftExactly(v: string)
    ensures |TrimLeft(v)| <= |v| && (TrimLeft(v) != v ==> |TrimLeft(v)| < |v|)
    ensures TrimLeft(v) == v <==> v == "" || !IsBracket(v[0])
    decreases |v|
  {
    if v != "" {
      TrimLeftExactly(v[1..]);
    }
  }

  lemma {:induction false} TrimRightExactly(v: string)
    ensures |TrimRight(v)| <= |v| && (TrimRight(v) != v ==> |TrimRight(v)| < |v|)
    ensures TrimRight(v) == v <==> v == "" || !IsBracket(v[|v| - 1])
    decreases |v|
  {
    if v != "" {
      TrimRightExactly(v[..|v| - 1]);
    }
  }

  lemma IriExactly(v: string)
    ensures ParseTerm("<" + v + ">") == Ok(NewIri(v))
    ensures NewIri(v).value == v <==> Trimmed(v)
  {
    var s := "<" + v + ">";
    assert s[1..|s| - 1] == v;
    TrimLeftExactly(v);
    TrimRightExactly(TrimLeft(v));
  }

  /** Where an unescaped quote in front of plain text is found, the value ends in a backslash. */
  lemma CutAtQuote(v: string, at: int, pat: string)
    requires at > 0 && OccursAt(Escaped(v), pat, at) && pat != "" && pat[0] == '"'
    ensures Escaped(v)[..at] == v ==> Escaped(v)[|Escaped(v)| - 1] == '\\'
  {
    OccursFirst(Escaped(v), pat, at);
    QuotesAreEscaped(v, at);
    if Escaped(v)[..at] == v {
      assert v[at - 1] == '\\';
      LastEscaped(v);
    }
  }

  lemma ContainsExactly(v: string, p: string)
    requires NoSpecials(p)
    ensures Contains(Escaped(v), "\"" + p) <==> Contains(v, "\"" + p)
    ensures Contains(v, "\"" + p) <==> Index(Escaped(v), "\"" + p) > 0
  {
    var E, pat := Escaped(v), "\"" + p;
    if Contains(v, pat) {
      QuoteStays(v, p);
    }
    if Contains(E, pat) {
      var k :| 0 <= k <= |E| && OccursAt(E, pat, k);
      QuoteThenPlain(v, p, k);
    }
    var r := Index(E, pat);
    if r != -1 {
      assert OccursAt(E, pat, r);
      OccursFirst(E, pat, r);
      QuotesAreEscaped(v, r);
      assert Contains(E, pat);
    }
  }

  /** A quote in the escaped text comes from a quote in the text. */
  lemma {:induction false} QuoteComesFromValue(v: string, k: nat)
    requires k < |Escaped(v)| && Escaped(v)[k] == '"'
    ensures '"' in v
    decreases |v|
  {
    var e := EscapeChar(v[0]);
    assert Escaped(v) == e + Escaped(v[1..]) && v == [v[0]] + v[1..];
    if k >= |e| {
      QuoteComesFromValue(v[1..], k - |e|);
    }
  }

  lemma ClosedContent(content: string)
    ensures Content("\"" + content + "\"") == content
  {
    var s := "\"" + content + "\"";
    assert s[1..] == content + "\"" && (content + "\"")[..|content|] == content;
  }

  lemma OpenContent(content: string)
    requires content != "" && content[|content| - 1] != '"'
    ensures Content("\"" + content) == content
  {
    assert ("\"" + content)[1..] == content;
  }

  lemma PlainContent(v: string)
    ensures ParseTerm(FormatTerm(Term(Literal, v, "", ""))) == ParseLiteral(Escaped(v))
  {
    EscapeIsCharwise(v);
    ClosedContent(Escaped(v));
  }

  lemma CutTag(v: string, at: int)
    requires at > 0 && at == Index(Escaped(v), "\"@")
    ensures ParseLiteral(Escaped(v)) != Ok(Term(Literal, v, "", ""))
  {
    CutAtQuote(v, at, "\"@");
    LastOfCut(Escaped(v), "\"@", at);
  }

  lemma CutType(v: string, caret: int)
    requires Index(Escaped(v), "\"@") <= 0 && caret > 0 && caret == Index(Escaped(v), "\"^^")
    ensures ParseLiteral(Escaped(v)) != Ok(Term(Literal, v, "", ""))
  {
    CutAtQuote(v, caret, "\"^^");
    LastOfCut(Escaped(v), "\"^^", caret);
  }

  lemma PlainExactly(v: string)
    ensures ParseLiteral(Escaped(v)) == Ok(Term(Literal, v, "", "")) <==> Survives(Term(Literal, v, "", ""))
  {
    var at, caret := Index(Escaped(v), "\"@"), Index(Escaped(v), "\"^^");
    ContainsExactly(v, "@");
    ContainsExactly(v, "^^");
    assert "\"@" == "\"" + "@" && "\"^^" == "\"" + "^^";
    if at > 0 {
      CutTag(v, at);
    } else if caret > 0 {
      CutType(v, caret);
    } else {
      UnescapeExactly(v);
    }
  }

  lemma LastOfCut(E: string, pat: string, at: nat)
    requires OccursAt(E, pat, at) && pat != ""
    ensures
      var rest := E[at + |pat|..];
      && (rest == "" ==> E[|E| - 1] == pat[|pat| - 1])
      && (Bracketed(rest) ==> E[|E| - 1] == '>')
  {
    assert E[at..at + |pat|][|pat| - 1] == E[at + |pat| - 1];
  }

  lemma TaggedContent(v: string, dt: string, lang: string)
    requires lang != "" && lang[|lang| - 1] != '"'
    ensures ParseTerm(FormatTerm(Term(Literal, v, dt, lang))) == ParseLiteral(Escaped(v) + "\"@" + lang)
  {
    EscapeIsCharwise(v);
    var C := Escaped(v) + "\"@" + lang;
    assert C[|C| - 1] == lang[|lang| - 1];
    assert FormatTerm(Term(Literal, v, dt, lang)) == "\"" + C;
    OpenContent(C);
  }

  /** Where the first quote-and-at of an escaped value followed by a tag is. */
  lemma TagPosition(v: string, lang: string)
    ensures
      var E := Escaped(v);
      var at := Index(E + "\"@" + lang, "\"@");
      && 0 <= at <= |E| && (at == 0 <==> v == "")
      && (at < |E| ==> at + 2 <= |E| && '"' in v)
  {
    var E := Escaped(v);
    var C := E + "\"@" + lang;
    assert C[|E|..|E| + 2] == "\"@";
    assert OccursAt(C, "\"@", |E|);
    var at := Index(C, "\"@");
    assert C[at..at + 2][1] == C[at + 1];
    OccursFirst(C, "\"@", at);
    if at < |E| {
      assert C[at] == E[at];
      QuotesAreEscaped(v, at);
      QuoteComesFromValue(v, at);
    }
    if v != "" {
      LastEscaped(v);
    }
  }

  lemma TaggedExactly(v: string, dt: string, lang: string)
    requires lang != "" && lang[|lang| - 1] != '"'
    ensures
      var t := Term(Literal, v, dt, lang);
      ParseLiteral(Escaped(v) + "\"@" + lang) == Ok(t) <==> Survives(t)
  {
    hide Escaped, Index;
    var E := Escaped(v);
    var C := E + "\"@" + lang;
    TagPosition(v, lang);
    EscapedSame(v);
    SplitAtTag(E, lang, Index(C, "\"@"));
  }

  lemma SplitAtTag(e: string, lang: string, at: nat)
    requires at <= |e|
    ensures
      var content := e + "\"@" + lang;
      content[..at] == e[..at] && |content[at + 2..]| == |lang| + |e| - at
    ensures at == |e| ==> (e + "\"@" + lang)[at + 2..] == lang && e[..at] == e
  {
  }

  /** A tag that ends in a quote loses it. */
  lemma QuotedTagFails(v: string, dt: string, rest: string)
    ensures
      var t := Term(Literal, v, dt, rest + "\"");
      ParseTerm(FormatTerm(t)) != Ok(t)
  {
    EscapeIsCharwise(v);
    var C := Escaped(v) + "\"@" + rest;
    QuotedTagText(Escaped(v), rest);
    ClosedContent(C);
    QuotedTagLength(v, rest);
  }

  lemma QuotedTagText(e: string, rest: string)
    ensures "\"" + e + "\"@" + (rest + "\"") == "\"" + (e + "\"@" + rest) + "\""
  {
  }

  lemma QuotedTagLength(v: string, rest: string)
    ensures
      var C := Escaped(v) + "\"@" + rest;
      var at := Index(C, "\"@");
      0 <= at && |C[at + 2..]| != |rest| + 1
  {
    TagPosition(v, rest);
  }

  lemma TypedContent(v: string, dt: string)
    requires dt != ""
    ensures ParseTerm(FormatTerm(Term(Literal, v, dt, ""))) == ParseLiteral(Escaped(v) + "\"^^" + ("<" + dt + ">"))
  {
    EscapeIsCharwise(v);
    var C := Escaped(v) + "\"^^" + ("<" + dt + ">");
    Regroup(Escaped(v), dt);
    OpenContent(C);
  }

  lemma Regroup(content: string, dt: string)
    ensures "\"" + content + "\"^^<" + dt + ">" == "\"" + (content + "\"^^" + ("<" + dt + ">"))
  {
  }

  lemma TypePosition(v: string, rest: string)
    ensures
      var E := Escaped(v);
      var caret := Index(E + "\"^^" + rest, "\"^^");
      0 <= caret <= |E| && (caret == 0 <==> v == "") && (caret < |E| ==> '"' in v)
  {
    var E := Escaped(v);
    var C := E + "\"^^" + rest;
    assert C[|E|..|E| + 3] == "\"^^";
    assert OccursAt(C, "\"^^", |E|);
    var caret := Index(C, "\"^^");
    OccursFirst(C, "\"^^", caret);
    if caret < |E| {
      assert C[caret] == E[caret];
      QuotesAreEscaped(v, caret);
      QuoteComesFromValue(v, caret);
    }
    if v != "" {
      LastEscaped(v);
    }
  }

  /** A quote-and-at in a typed literal is in its value or in its datatype. */
  lemma TagInTyped(v: string, dt: string, at: nat)
    requires OccursAt(v + "\"^^" + ("<" + dt + ">"), "\"@", at)
    ensures '"' in v || (at >= |v| + 4 && OccursAt(dt, "\"@", at - |v| - 4))
  {
    var front := v + "\"^^<";
    var C := v + "\"^^" + ("<" + dt + ">");
    assert C[at..at + 2][1] == C[at + 1];
    OccursFirst(C, "\"@", at);
    assert forall i :: 0 <= i < |v| ==> C[i] == v[i];
    assert C[|v|] == '"' && C[|v| + 1] == '^' && C[|v| + 2] == '^' && C[|v| + 3] == '<';
    if at >= |front| {
      var k := at - |front|;
      assert forall i :: 0 <= i < |dt| ==> C[|front| + i] == dt[i];
      assert dt[k..k + 2] == C[at..at + 2];
    }
  }

  lemma TypedTagExactly(v: string, dt: string)
    requires NoSpecials(v)
    ensures
      var at := Index(v + "\"^^" + ("<" + dt + ">"), "\"@");
      at != 0 && (at > 0 <==> Contains(dt, "\"@"))
  {
    var front := v + "\"^^<";
    var C := v + "\"^^" + ("<" + dt + ">");
    var at := Index(C, "\"@");
    if at != -1 {
      TagInTyped(v, dt, at);
    }
    if Contains(dt, "\"@") {
      var k :| 0 <= k <= |dt| && OccursAt(dt, "\"@", k);
      assert C[|front| + k..|front| + k + 2] == dt[k..k + 2];
      assert OccursAt(C, "\"@", |front| + k);
    }
  }

  lemma CutAtType(E: string, dt: string, caret: nat)
    requires caret <= |E|
    ensures
      var C := E + "\"^^" + ("<" + dt + ">");
      var d := C[caret + 3..];
      && (caret == |E| ==> Bracketed(d) && d[1..|d| - 1] == dt && C[..caret] == E)
      && (caret < |E| ==> |d| > |dt| + 2)
  {
    var C := E + "\"^^" + ("<" + dt + ">");
    var d := C[caret + 3..];
    if caret == |E| {
        assert d == "<" + dt + ">";
    }
  }

  lemma TypedSurvives(v: string, dt: string)
    requires v != "" && NoSpecials(v) && !Contains(dt, "\"@")
    ensures ParseLiteral(v + "\"^^" + ("<" + dt + ">")) == Ok(Term(Literal, v, dt, ""))
  {
    var C := v + "\"^^" + ("<" + dt + ">");
    PlainStaysPlain(v);
    TypePosition(v, "<" + dt + ">");
    CutAtType(v, dt, |v|);
    TypedTagExactly(v, dt);
  }

  lemma TypedFails(v: string, dt: string)
    requires dt != "" && (v == "" || !NoSpecials(v) || Contains(dt, "\"@"))
    ensures ParseLiteral(Escaped(v) + "\"^^" + ("<" + dt + ">")) != Ok(Term(Literal, v, dt, ""))
  {
    var E := Escaped(v);
    var C := E + "\"^^" + ("<" + dt + ">");
    TypePosition(v, "<" + dt + ">");
    EscapedSame(v);
    CutAtType(E, dt, Index(C, "\"^^"));
    if NoSpecials(v) {
      TypedTagExactly(v, dt);
    }
  }

  lemma TypedExactly(v: string, dt: string)
    requires dt != ""
    ensures
      var t := Term(Literal, v, dt, "");
      ParseLiteral(Escaped(v) + "\"^^" + ("<" + dt + ">")) == Ok(t) <==> Survives(t)
  {
    if Survives(Term(Literal, v, dt, "")) {
      PlainStaysPlain(v);
      TypedSurvives(v, dt);
    } else {
      TypedFails(v, dt);
    }
  }

  /** The first characters tell which kind of term has been written. */
  lemma WrittenKindsDiffer(t: Term, u: Term)
    requires t.kind != u.kind && t.kind != OtherKind && u.kind != OtherKind
    ensures FormatTerm(t) != FormatTerm(u)
    ensures FormatTerm(t)[0] == (if t.kind == Iri then '<' else if t.kind == Literal then '"' else '_')
  {
    assert FormatTerm(t)[0] == (if t.kind == Iri then '<' else if t.kind == Literal then '"' else '_');
    assert FormatTerm(u)[0] == (if u.kind == Iri then '<' else if u.kind == Literal then '"' else '_');
  }

  /** The writer has a form for blank nodes, and the reader has none. */
  lemma BlankNodeIsRefused(t: Term)
    requires t.kind == BlankNode
    ensures FormatTerm(t)[..2] == "_:" && FormatTerm(t)[2..] == t.value && ParseTerm(FormatTerm(t)).Err?
  {
  }

  /** Main result: writing a term and reading it back gives the same term exactly when the term survives. */
  lemma TermExactly(t: Term)
    ensures ParseTerm(FormatTerm(t)) == Ok(t) <==> Survives(t)
  {
    match t.kind
    case Iri => IriExactly(t.value);
    case Literal =>
      var tag := t.language;
      if tag != "" && tag[|tag| - 1] == '"' {
        assert tag == tag[..|tag| - 1] + "\"";
        QuotedTagFails(t.value, t.datatyp, tag[..|tag| - 1]);
      } else if tag != "" {
        TaggedContent(t.value, t.datatyp, t.language);
        TaggedExactly(t.value, t.datatyp, t.language);
      } else if t.datatyp != "" {
        TypedContent(t.value, t.datatyp);
        TypedExactly(t.value, t.datatyp);
      } else {
        PlainContent(t.value);
        PlainExactly(t.value);
      }
    case BlankNode =>
    case OtherKind =>
  }
}

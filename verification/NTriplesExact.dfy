/**
 pkg/rdf/ntriples.go: which triples a written line gives back.

 The reader finds the end of a literal by the first quote that no backslash stands before. So a value that ends in a
 backslash swallows what follows it; and what it swallows never turns it into a text that is read as the same value.
 */
module NTriplesExact {
  import opened Wrappers
  import opened RdfStore
  import opened Text
  import opened NTriples
  import opened NTriplesLines

  // ----- What a cut or overlong literal is read as -----

  /** The text goes on like an escaped value. */
  predicate StartsEscaped(content: string, v: string) {
    Escaped(v) <= content
  }

  /** A value is no proper beginning of its escaped text that ends in front of a quote: there would be one quote
      more. */
  lemma NoQuoteBehindValue(v: string, content: string, k: nat)
    requires StartsEscaped(content, v) && k < |content| && content[..k] == v && content[k] == '"'
    ensures |Escaped(v)| <= k
  {
    var e := Escaped(v);
    if k < |e| {
      assert e[..k] == content[..k] && e[k] == content[k];
      OneQuoteMore(e, k);
      EscapedCounts(v);
    }
  }

  lemma OneQuoteMore(e: string, k: nat)
    requires k < |e| && e[k] == '"'
    ensures Count(e, '"') > Count(e[..k], '"')
  {
    assert e == e[..k] + e[k..] && e[k] in e[k..];
    CountConcat(e[..k], e[k..], '"');
    CountAbsent(e[k..], '"');
  }

  lemma {:induction false} UnescapeKeepsQuotes(s: string)
    ensures Count(ReplaceAll(s, "\\\"", "\""), '"') == Count(s, '"')
    decreases |s|
  {
    if s != "" {
      if HasPrefix(s, "\\\"") {
        assert s == "\\\"" + s[2..];
        UnescapeKeepsQuotes(s[2..]);
        CountConcat("\\\"", s[2..], '"');
        CountConcat("\"", ReplaceAll(s[2..], "\\\"", "\""), '"');
        assert "\\\""[1..] == "\"" && "\""[1..] == "";
      } else {
        UnescapeKeepsQuotes(s[1..]);
        CountConcat([s[0]], ReplaceAll(s[1..], "\\\"", "\""), '"');
      }
    }
  }

  /** A value with a backslash is not what unescaping makes of a text that starts with the escaped value: either there
      are more quotes, or a backslash too many stays. */
  lemma UnescapeDiffers(v: string, content: string)
    requires '\\' in v && StartsEscaped(content, v)
    ensures ReplaceAll(content, "\\\"", "\"") != v
  {
    var e, rest := Escaped(v), content[|Escaped(v)|..];
    assert content == e + rest;
    CountConcat(e, rest, '"');
    CountConcat(e, rest, '\\');
    EscapedCounts(v);
    UnescapeKeepsQuotes(content);
    UnescapeKeepsBackslashes(content);
    CountAbsent(v, '\\');
  }

  lemma EscapedIsLonger(v: string)
    ensures |Escaped(v)| >= |v| && ('\\' in v ==> |Escaped(v)| > |v|)
  {
    EscapedLength(v);
    CountAbsent(v, '\\');
  }

  /** A value with a backslash is not read from such a text, with whatever tag or type. */
  lemma BackslashIsNotRead(t: Term, content: string)
    requires t.kind == Literal && '\\' in t.value && StartsEscaped(content, t.value)
    ensures ParseLiteral(content) != Ok(t)
  {
    hide Escaped, IndexFrom, ReplaceAll;
    EscapedIsLonger(t.value);
    UnescapeDiffers(t.value, content);
    NotCutAt(t.value, content, "\"@", Index(content, "\"@"));
    NotCutAt(t.value, content, "\"^^", Index(content, "\"^^"));
  }

  lemma NotCutAt(v: string, content: string, pat: string, at: int)
    requires StartsEscaped(content, v) && pat != "" && pat[0] == '"' && at == Index(content, pat)
    ensures at > 0 ==> at < |content| && (content[..at] == v ==> |Escaped(v)| <= |v|)
  {
    if at > 0 {
      OccursFirst(content, pat, at);
      if content[..at] == v {
        NoQuoteBehindValue(v, content, at);
      }
    }
  }

  // ----- Tokens of literals -----

  /** The literal's first token reaches at least to the end of its closing quote, and to there exactly if that is
      recognised. */
  lemma {:induction false} QuoteEndReaches(v: string, tail: string, j: nat)
    requires 0 < j <= |Escaped(v)| + 1
    ensures QuoteEnd("\"" + Escaped(v) + "\"" + tail, j) >= |Escaped(v)| + 2
    decreases |Escaped(v)| - j + 1
  {
    var e := Escaped(v);
    var s := "\"" + e + "\"" + tail;
    if j <= |e| {
      assert s[j] == e[j - 1];
      if s[j] == '"' {
        QuotesAreEscaped(v, j - 1);
        assert s[j - 1] == e[j - 2];
      }
      QuoteEndReaches(v, tail, j + 1);
    }
  }

  lemma TokenReaches(s: string, end: nat)
    requires s != "" && s[0] == '"' && ScanToken(s) == Token(end)
    ensures end >= QuoteEnd(s, 1)
  {
    hide QuoteEnd, TagEnd, IndexFrom;
  }

  lemma LiteralRead(token: string)
    requires token != "" && token[0] == '"'
    ensures ParseTerm(token) == ParseLiteral(Content(token))
  {
  }

  /** When the closing quote is overlooked, the token goes on behind the escaped value. */
  lemma OverlookedIsNotRead(t: Term, tail: string, end: nat)
    requires t.kind == Literal && !ClosesWell(t.value)
    requires
      var s := "\"" + Escaped(t.value) + "\"" + tail;
      ScanToken(s) == Token(end)
    ensures
      var s := "\"" + Escaped(t.value) + "\"" + tail;
      end <= |s| && ParseTerm(s[..end]) != Ok(t)
  {
    hide ScanToken, QuoteEnd, ParseLiteral, Escaped;
    var s := "\"" + Escaped(t.value) + "\"" + tail;
    QuoteEndReaches(t.value, tail, 1);
    TokenReaches(s, end);
    LiteralRead(s[..end]);
    ContentGoesOn(t.value, s, end);
    BackslashIsNotRead(t, Content(s[..end]));
  }

  lemma ContentGoesOn(v: string, s: string, end: nat)
    requires "\"" + Escaped(v) + "\"" <= s && |Escaped(v)| + 2 <= end <= |s|
    ensures StartsEscaped(Content(s[..end]), v)
  {
    hide Escaped;
    var e := Escaped(v);
    assert s[..|e| + 2] == "\"" + e + "\"";
    assert s[..end][1..][..|e|] == e;
  }

  lemma OpenLiteral(content: string)
    requires content != "" && content[|content| - 1] != '"'
    ensures ParseTerm("\"" + content) == ParseLiteral(content)
  {
    OpenContent(content);
    LiteralRead("\"" + content);
  }

  /** The tag in a text that starts with the escaped value is the one behind it, if the value before it is right. */
  lemma TagBehindValue(t: Term, content: string, lang: string)
    requires t.kind == Literal && t.language != "" && content == Escaped(t.value) + "\"@" + lang
    requires ParseLiteral(content) == Ok(t)
    ensures t.language == lang
  {
    hide Escaped, IndexFrom, ReplaceAll;
    TagPosition(t.value, lang);
    SplitAtTag(Escaped(t.value), lang, Index(content, "\"@"));
    NotCutAt(t.value, content, "\"@", Index(content, "\"@"));
  }

  /** A tag that is no tag is cut: the token ends in a part of it that is one. */
  lemma CutTagIsNotRead(t: Term, lang: string)
    requires t.kind == Literal && !IsTag(t.language) && IsTag(lang)
    ensures ParseTerm("\"" + Escaped(t.value) + "\"@" + lang) != Ok(t)
  {
    hide Escaped, ParseLiteral, ParseTerm;
    var content := Escaped(t.value) + "\"@" + lang;
    assert "\"" + Escaped(t.value) + "\"@" + lang == "\"" + content;
    assert lang != "" ==> content[|content| - 1] == lang[|lang| - 1];
    OpenLiteral(content);
    if ParseLiteral(content) == Ok(t) {
      TagBehindValue(t, content, lang);
    }
  }

  lemma TypePosition(v: string, dt: string)
    ensures
      var content := Escaped(v) + "\"^^<" + dt + ">";
      && Index(content, "\"^^") <= |Escaped(v)| && content[|content| - 1] == '>'
      && content[|Escaped(v)| + 3..] == "<" + dt + ">"
  {
    var content := Escaped(v) + "\"^^<" + dt + ">";
    assert content[|Escaped(v)|..|Escaped(v)| + 3] == "\"^^";
    assert OccursAt(content, "\"^^", |Escaped(v)|);
  }

  lemma TypeBehindValue(t: Term, content: string, dt: string)
    requires t.kind == Literal && t.datatyp != "" && content == Escaped(t.value) + "\"^^<" + dt + ">"
    requires ParseLiteral(content) == Ok(t)
    ensures t.datatyp == dt
  {
    hide Escaped, IndexFrom, ReplaceAll;
    TypePosition(t.value, dt);
    NotCutAt(t.value, content, "\"^^", Index(content, "\"^^"));
    assert ("<" + dt + ">")[1..|dt| + 1] == dt;
  }

  lemma CutTypeIsNotRead(t: Term, dt: string)
    requires t.kind == Literal && t.datatyp != "" && t.datatyp != dt
    ensures ParseTerm("\"" + Escaped(t.value) + "\"^^<" + dt + ">") != Ok(t)
  {
    hide Escaped, ParseLiteral, ParseTerm;
    var content := Escaped(t.value) + "\"^^<" + dt + ">";
    assert "\"" + Escaped(t.value) + "\"^^<" + dt + ">" == "\"" + content;
    TypePosition(t.value, dt);
    OpenLiteral(content);
    if ParseLiteral(content) == Ok(t) {
      TypeBehindValue(t, content, dt);
    }
  }

  lemma {:induction false} TagRun(s: string, k: nat)
    requires k <= |s|
    ensures IsTag(s[k..TagEnd(s, k)])
    decreases |s| - k
  {
    if k < |s| && IsTagChar(s[k]) {
      TagRun(s, k + 1);
      assert s[k..TagEnd(s, k)] == [s[k]] + s[k + 1..TagEnd(s, k + 1)];
    }
  }

  /** Behind a recognised closing quote and an at sign the token takes in what is a tag. */
  lemma TagToken(v: string, tail: string) returns (lang: string)
    requires ClosesWell(v)
    ensures
      var s, token := "\"" + Escaped(v) + "\"@" + tail, "\"" + Escaped(v) + "\"@" + lang;
      ScanToken(s) == Token(|token|) && token <= s && IsTag(lang)
  {
    hide Escaped;
    var e := Escaped(v);
    var s := "\"" + e + "\"@" + tail;
    ClosingQuote(v, "@" + tail, 1);
    assert s == "\"" + e + "\"" + ("@" + tail) && s[|e| + 2] == '@';
    TagRun(s, |e| + 3);
    var end := TagEnd(s, |e| + 3);
    lang := s[|e| + 3..end];
    assert s[..|e| + 3] == "\"" + e + "\"@" && s[..end] == s[..|e| + 3] + lang;
  }

  /** Behind a recognised closing quote and a type the token ends with the first angle bracket. */
  lemma TypeTokenEnds(v: string, dt: string, tail: string)
    requires ClosesWell(v) && '>' !in dt
    ensures ScanToken("\"" + Escaped(v) + "\"^^<" + dt + ">" + tail) == Token(|Escaped(v)| + |dt| + 6)
  {
    hide Escaped;
    TypeText(Escaped(v), dt, tail);
    TypeTail(dt, tail);
    TypedToken(v, 3 + |dt|, "^^<" + dt + ">" + tail);
  }

  /** The part in front of the first c. */
  lemma Before(s: string, c: char) returns (front: string, rest: string)
    requires c in s
    ensures s == front + [c] + rest && c !in front
  {
    var i := IndexFrom(s, [c], 0);
    var k :| 0 <= k < |s| && s[k] == c;
    OccursChar(s, c, k);
    front, rest := s[..i], s[i + 1..];
    OccursChar(s, c, i);
    forall j | 0 <= j < i
      ensures s[j] != c
    {
      OccursChar(s, c, j);
    }
  }

  // ----- Exactly the sturdy terms are read back from a line -----

  lemma WholeToken(t: Term, post: string, end: nat)
    requires end == |FormatTerm(t)| && ParseTerm((FormatTerm(t) + post)[..end]) == Ok(t)
    ensures Survives(t)
  {
    hide FormatTerm, ParseTerm, Survives;
    assert (FormatTerm(t) + post)[..end] == FormatTerm(t);
    TermExactly(t);
  }

  lemma CutIri(v: string, post: string, end: nat)
    requires '>' in v && ScanToken("<" + v + ">" + post) == Token(end)
    ensures ParseTerm(("<" + v + ">" + post)[..end]).Ok? ==> ParseTerm(("<" + v + ">" + post)[..end]).value.value != v
  {
    hide ScanToken, ParseTerm;
    var front, rest := Before(v, '>');
    var s := "<" + v + ">" + post;
    assert s == "<" + front + ">" + (rest + ">" + post);
    IriToken(front, rest + ">" + post);
    assert s[..end] == "<" + front + ">";
    IriExactly(front);
    TrimLeftExactly(front);
    TrimRightExactly(TrimLeft(front));
  }

  lemma IriTokenIsSturdy(t: Term, post: string, end: nat)
    requires t.kind == Iri && ScanToken(FormatTerm(t) + post) == Token(end)
    requires ParseTerm((FormatTerm(t) + post)[..end]) == Ok(t)
    ensures Sturdy(t)
  {
    hide ScanToken, ParseTerm;
    if '>' in t.value {
      CutIri(t.value, post, end);
    } else {
      IriToken(t.value, post);
      WholeToken(t, post, end);
    }
  }

  lemma TaggedTokenIsSturdy(t: Term, post: string, end: nat)
    requires t.kind == Literal && t.language != "" && ClosesWell(t.value) && Follows(post)
    requires ScanToken(FormatTerm(t) + post) == Token(end) && ParseTerm((FormatTerm(t) + post)[..end]) == Ok(t)
    ensures Sturdy(t)
  {
    hide ScanToken, ParseTerm, Escaped, EscapeLiteral;
    EscapeIsCharwise(t.value);
    var e := Escaped(t.value);
    if IsTag(t.language) {
      TagText(e, t.language, post);
      TaggedToken(t.value, t.language, "@" + t.language + post);
      WholeToken(t, post, end);
    } else {
      assert FormatTerm(t) + post == "\"" + e + "\"@" + (t.language + post);
      var lang := TagToken(t.value, t.language + post);
      assert (FormatTerm(t) + post)[..end] == "\"" + e + "\"@" + lang;
      CutTagIsNotRead(t, lang);
    }
  }

  lemma TypedTokenIsSturdy(t: Term, post: string, end: nat)
    requires t.kind == Literal && t.language == "" && t.datatyp != "" && ClosesWell(t.value)
    requires ScanToken(FormatTerm(t) + post) == Token(end) && ParseTerm((FormatTerm(t) + post)[..end]) == Ok(t)
    ensures Sturdy(t)
  {
    hide ScanToken, ParseTerm, Escaped, EscapeLiteral;
    EscapeIsCharwise(t.value);
    var e := Escaped(t.value);
    if '>' in t.datatyp {
      var front, rest := Before(t.datatyp, '>');
      var s := FormatTerm(t) + post;
      assert s == "\"" + e + "\"^^<" + front + ">" + (rest + ">" + post);
      TypeTokenEnds(t.value, front, rest + ">" + post);
      assert s[..end] == "\"" + e + "\"^^<" + front + ">";
      CutTypeIsNotRead(t, front);
    } else {
      TypeTokenEnds(t.value, t.datatyp, post);
      WholeToken(t, post, end);
    }
  }

  lemma LiteralTokenIsSturdy(t: Term, post: string, end: nat)
    requires t.kind == Literal && Follows(post)
    requires ScanToken(FormatTerm(t) + post) == Token(end) && ParseTerm((FormatTerm(t) + post)[..end]) == Ok(t)
    ensures Sturdy(t)
  {
    hide ScanToken, ParseTerm;
    if !ClosesWell(t.value) {
      var tail := BehindQuote(t, post);
      OverlookedIsNotRead(t, tail, end);
    } else if t.language != "" {
      TaggedTokenIsSturdy(t, post, end);
    } else if t.datatyp != "" {
      TypedTokenIsSturdy(t, post, end);
    } else {
      EscapeIsCharwise(t.value);
      PlainToken(t.value, post);
      WholeToken(t, post, end);
    }
  }

  /** What follows the closing quote of a written literal. */
  lemma BehindQuote(t: Term, post: string) returns (tail: string)
    requires t.kind == Literal
    ensures FormatTerm(t) + post == "\"" + Escaped(t.value) + "\"" + tail
  {
    hide Escaped, EscapeLiteral;
    EscapeIsCharwise(t.value);
    var e := Escaped(t.value);
    if t.language != "" {
      tail := "@" + t.language + post;
      assert "\"" + e + "\"@" + t.language + post == "\"" + e + "\"" + tail;
    } else if t.datatyp != "" {
      tail := "^^<" + t.datatyp + ">" + post;
      TypeText(e, t.datatyp, post);
    } else {
      tail := post;
    }
  }

  lemma ReadKinds(token: string)
    ensures ParseTerm(token).Ok? ==> ParseTerm(token).value.kind == Iri || ParseTerm(token).value.kind == Literal
  {
  }

  /** If the token at the head of a written term is read as the term, the term is sturdy. */
  lemma TokenIsSturdy(t: Term, post: string, end: nat)
    requires Follows(post) && ScanToken(FormatTerm(t) + post) == Token(end)
    requires end <= |FormatTerm(t) + post| && ParseTerm((FormatTerm(t) + post)[..end]) == Ok(t)
    ensures Sturdy(t)
  {
    hide ScanToken, ParseTerm;
    ReadKinds((FormatTerm(t) + post)[..end]);
    if t.kind == Iri {
      IriTokenIsSturdy(t, post, end);
    } else {
      LiteralTokenIsSturdy(t, post, end);
    }
  }

  // ----- Lines -----

  lemma FirstOfTokens(s: string, tokens: seq<string>) returns (end: nat)
    requires s != "" && s[0] != ' ' && Tokenize(s) == Done(tokens) && tokens != []
    ensures end <= |s| && ScanToken(s) == Token(end) && tokens[0] == s[..end] && Tokenize(s[end..]) == Done(tokens[1..])
  {
    hide ScanToken;
    assert SkipSpaces(s) == s;
    end := ScanToken(s).end;
  }

  /** If the first token is read as the first term, it is the whole of it, and the others follow. */
  lemma FirstIsSturdy(t: Term, rest: string, tokens: seq<string>)
    requires rest != "" && Tokenize(FormatTerm(t) + (" " + rest)) == Done(tokens) && tokens != []
    requires ParseTerm(tokens[0]) == Ok(t)
    ensures Sturdy(t) && Tokenize(rest) == Done(tokens[1..])
  {
    hide ScanToken, ParseTerm, Sturdy, Tokenize;
    var f := FormatTerm(t);
    FormatStarts(t);
    var end := FirstOfTokens(f + (" " + rest), tokens);
    TokenIsSturdy(t, " " + rest, end);
    SturdyToken(t, " " + rest);
    assert (f + (" " + rest))[end..] == " " + rest;
    LeadingSpace(rest);
  }

  lemma FormatStarts(t: Term)
    ensures FormatTerm(t) != "" && FormatTerm(t)[0] in "<\"_"
  {
  }

  lemma {:induction false} TrimEndConcat(a: string, f: string)
    requires f != "" && !IsSpace(f[0])
    ensures TrimEnd(a + f) == a + TrimEnd(f)
    decreases |f|
  {
    if IsSpace(f[|f| - 1]) {
      assert (a + f)[..|a + f| - 1] == a + f[..|f| - 1];
      TrimEndConcat(a, f[..|f| - 1]);
    }
  }

  /** White space at the end of the last term, which only a tag or a label can have, is cut. */
  lemma LastIsSturdy(t: Term, tokens: seq<string>)
    requires Tokenize(TrimEnd(FormatTerm(t))) == Done(tokens) && tokens != [] && ParseTerm(tokens[0]) == Ok(t)
    ensures Sturdy(t)
  {
    hide ScanToken, ParseTerm, Sturdy, Tokenize;
    var f := FormatTerm(t);
    FormatStarts(t);
    TrimmedEnd(f);
    var end := FirstOfTokens(TrimEnd(f), tokens);
    if IsSpace(f[|f| - 1]) {
      ReadKinds(tokens[0]);
      SpaceAtEnd(t);
      CutTagAtEnd(t, TrimEnd(f), end);
    } else {
      assert f + "" == f == TrimEnd(f);
      TokenIsSturdy(t, "", end);
    }
  }

  lemma FormatLast(t: Term)
    requires t.kind == Iri || t.kind == Literal
    ensures
      var f := FormatTerm(t);
      if t.kind == Literal && t.language != "" then f[|f| - 1] == t.language[|t.language| - 1]
      else f[|f| - 1] == '>' || f[|f| - 1] == '"'
  {
    hide EscapeLiteral;
  }

  lemma SpaceAtEnd(t: Term)
    requires t.kind == Iri || t.kind == Literal
    requires IsSpace(FormatTerm(t)[|FormatTerm(t)| - 1])
    ensures t.kind == Literal && t.language != "" && !IsTag(t.language)
  {
    hide FormatTerm;
    FormatLast(t);
  }

  /** The text of a tagged literal without the white space at its end. */
  lemma TrimmedTag(t: Term) returns (tail: string)
    requires t.kind == Literal && t.language != ""
    ensures TrimEnd(FormatTerm(t)) == "\"" + Escaped(t.value) + "\"" + tail && tail != "" && tail[0] == '@'
  {
    hide Escaped, EscapeLiteral;
    EscapeIsCharwise(t.value);
    var e := Escaped(t.value);
    assert FormatTerm(t) == "\"" + e + "\"" + ("@" + t.language);
    TrimEndConcat("\"" + e + "\"", "@" + t.language);
    tail := TrimEnd("@" + t.language);
    TrimmedEnd("@" + t.language);
  }

  lemma CutTagAtEnd(t: Term, s: string, end: nat)
    requires t.kind == Literal && t.language != "" && !IsTag(t.language)
    requires s == TrimEnd(FormatTerm(t)) && s != "" && s[0] != ' ' && ScanToken(s) == Token(end)
    ensures end <= |s| && ParseTerm(s[..end]) != Ok(t)
  {
    hide ScanToken, ParseTerm, Escaped, FormatTerm, TrimEnd;
    var e := Escaped(t.value);
    var tail := TrimmedTag(t);
    if ClosesWell(t.value) {
      assert s == "\"" + e + "\"@" + tail[1..];
      var lang := TagToken(t.value, tail[1..]);
      assert s[..end] == "\"" + e + "\"@" + lang;
      CutTagIsNotRead(t, lang);
    } else {
      OverlookedIsNotRead(t, tail, end);
    }
  }

  lemma TrimmedStatement(line: string, body: string)
    requires line == body + " ." && body != "" && !IsSpace(body[0]) && body[0] != '#'
    ensures ParseLine(line) == ParseTerms(Tokenize(TrimEnd(body)))
  {
    hide Tokenize, ParseTerms;
    assert line[0] == body[0] && line[|line| - 1] == '.';
    NothingToTrim(line);
    CutDot(line, body);
  }

  lemma TrimmedBody(f: string, g: string, h: string)
    requires h != "" && !IsSpace(h[0])
    ensures TrimEnd(f + (" " + (g + (" " + h)))) == f + (" " + (g + (" " + TrimEnd(h))))
  {
    hide TrimEnd;
    InFrontOf(f, g, h);
    InFrontOf(f, g, TrimEnd(h));
    TrimEndConcat(f + " " + g + " ", h);
  }

  lemma InFrontOf(f: string, g: string, h: string)
    ensures f + (" " + (g + (" " + h))) == f + " " + g + " " + h
  {
  }

  lemma TermsRead(r: Tokens, s: Term, p: Term, o: Term, id: TripleId)
    requires ParseTerms(r) == Ok(Some(Triple(id, s, p, o, "", false)))
    ensures r.Done? && |r.tokens| >= 3
    ensures ParseTerm(r.tokens[0]) == Ok(s) && ParseTerm(r.tokens[1]) == Ok(p) && ParseTerm(r.tokens[2]) == Ok(o)
  {
    hide ParseTerm;
  }

  lemma ReadLineIsSturdy(t: Triple)
    requires ParseLine(FormatTriple(t)) == Ok(Some(t.(id := HashTriple(t), graph := "", inferred := false)))
    ensures Sturdy(t.subj) && Sturdy(t.pred) && Sturdy(t.obj)
  {
    hide ParseLine, ParseTerms, ParseTerm, FormatTerm, Tokenize, Sturdy;
    var f, g, h := FormatTerm(t.subj), FormatTerm(t.pred), FormatTerm(t.obj);
    FormatStarts(t.subj);
    FormatStarts(t.pred);
    FormatStarts(t.obj);
    Regrouped(f, g, h);
    TrimmedStatement(FormatTriple(t), f + (" " + (g + (" " + h))));
    TrimmedBody(f, g, h);
    TrimmedEnd(h);
    var last := TrimEnd(h);
    var r := Tokenize(f + (" " + (g + (" " + last))));
    TermsRead(r, t.subj, t.pred, t.obj, HashTriple(t));
    FirstIsSturdy(t.subj, g + (" " + last), r.tokens);
    FirstIsSturdy(t.pred, last, r.tokens[1..]);
    LastIsSturdy(t.obj, r.tokens[1..][1..]);
  }

  /** Main result: reading a written triple gives it back, with a generated ID, exactly when its three terms are
      sturdy. */
  lemma LineExactly(t: Triple)
    ensures ParseLine(FormatTriple(t)) == Ok(Some(t.(id := HashTriple(t), graph := "", inferred := false))) <==>
            Sturdy(t.subj) && Sturdy(t.pred) && Sturdy(t.obj)
  {
    hide ParseLine, FormatTriple, Sturdy, HashTriple;
    if ParseLine(FormatTriple(t)) == Ok(Some(t.(id := HashTriple(t), graph := "", inferred := false))) {
      ReadLineIsSturdy(t);
    }
    if Sturdy(t.subj) && Sturdy(t.pred) && Sturdy(t.obj) {
      LineRoundTrip(t);
    }
  }
}

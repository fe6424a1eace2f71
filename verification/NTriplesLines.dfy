/**
 pkg/rdf/ntriples.go: splitting an N-Triples line into tokens and reading it.
 */
module NTriplesLines {
  import opened Wrappers
  import opened RdfStore
  import opened Text
  import opened NTriples

  // ----- Tokens -----

  /** Where a token that starts a text ends; or that the scan stops for good; or that it indexes past the end. */
  datatype Scan = Token(end: nat) | Stop | OutOfRange

  function SkipSpaces(s: string): (r: string)
    ensures |r| <= |s| && (r != "" ==> r[0] != ' ')
  {
    if s != "" && s[0] == ' ' then SkipSpaces(s[1..]) else s
  }

  /** Behind the first quote at or after j that follows no backslash, or at the end. */
  function QuoteEnd(s: string, j: nat): (end: nat)
    requires 0 < j <= |s|
    ensures j <= end <= |s|
    decreases |s| - j
  {
    if j == |s| then j
    else if s[j] == '"' && s[j - 1] != '\\' then j + 1
    else QuoteEnd(s, j + 1)
  }

  function TagEnd(s: string, k: nat): (end: nat)
    requires k <= |s|
    ensures k <= end <= |s|
    decreases |s| - k
  {
    if k < |s| && IsTagChar(s[k]) then TagEnd(s, k + 1) else k
  }

  function WordEnd(s: string, j: nat): (end: nat)
    requires j <= |s|
    ensures j <= end <= |s| && (j < |s| && s[j] != ' ' ==> j < end)
    decreases |s| - j
  {
    if j < |s| && s[j] != ' ' then WordEnd(s, j + 1) else j
  }

  /** Go slices a line by bytes: a character that UTF-8 writes in one byte is too short for a slice of two. */
  predicate OneByte(c: char) {
    c < '\U{80}'
  }

  /** UTF-8 writes the first 128 code points in one byte. */
  lemma OneByteExactly(c: char)
    ensures OneByte(c) <==> c as int < 128
  {
  }

  function ScanToken(s: string): (r: Scan)
    requires s != "" && s[0] != ' '
    ensures r.Token? ==> 0 < r.end <= |s|
  {
    if s[0] == '<' then
      var j := Index(s, ">");
      if j < 0 then Stop else Token(j + 1)
    else if s[0] == '"' then
      var j := QuoteEnd(s, 1);
      if j < |s| && s[j] == '@' then Token(TagEnd(s, j + 1))
      else if j == |s| then Token(j)
      else if j + 1 == |s| then (if OneByte(s[j]) then OutOfRange else Token(j))
      else if s[j..j + 2] == "^^" then
        if j + 2 < |s| && s[j + 2] == '<' then
          var end := IndexFrom(s, ">", j + 2);
          if end >= 0 then Token(end + 1) else Token(|s|)
        else Token(|s|)
      else Token(j)
    else Token(WordEnd(s, 0))
  }

  datatype Tokens = Done(tokens: seq<string>) | Crashed

  function Prefixed(front: seq<string>, r: Tokens): Tokens {
    if r.Done? then Done(front + r.tokens) else Crashed
  }

  function Tokenize(s: string): Tokens
    decreases |s|
  {
    var rest := SkipSpaces(s);
    if rest == "" then Done([])
    else
      match ScanToken(rest)
      case Stop => Done([])
      case OutOfRange => Crashed
      case Token(end) => Prefixed([rest[..end]], Tokenize(rest[end..]))
  }

  method FindQuoteEnd(line: string, i: nat) returns (j: nat)
    requires i < |line|
    ensures j == i + QuoteEnd(line[i..], 1)
  {
    ghost var s := line[i..];
    j := i + 1;
    while j < |line|
      invariant i < j <= |line| && QuoteEnd(s, j - i) == QuoteEnd(s, 1)
    {
      assert s[j - i] == line[j] && s[j - i - 1] == line[j - 1];
      if line[j] == '"' && line[j - 1] != '\\' {
        return j + 1;
      }
      j := j + 1;
    }
  }

  method FindTagEnd(line: string, i: nat, start: nat) returns (k: nat)
    requires i <= start <= |line|
    ensures k == i + TagEnd(line[i..], start - i)
  {
    ghost var s := line[i..];
    k := start;
    while k < |line| && IsTagChar(line[k])
      invariant start <= k <= |line| && TagEnd(s, k - i) == TagEnd(s, start - i)
    {
      assert s[k - i] == line[k];
      k := k + 1;
    }
    assert k < |line| ==> s[k - i] == line[k];
  }

  method FindWordEnd(line: string, i: nat) returns (j: nat)
    requires i < |line|
    ensures j == i + WordEnd(line[i..], 0)
  {
    ghost var s := line[i..];
    j := i;
    while j < |line| && line[j] != ' '
      invariant i <= j <= |line| && WordEnd(s, j - i) == WordEnd(s, 0)
    {
      assert s[j - i] == line[j];
      j := j + 1;
    }
    assert j < |line| ==> s[j - i] == line[j];
  }

  /** The branches for one token; positions in the result count from i. */
  method ScanAt(line: string, i: nat) returns (r: Scan)
    requires i < |line| && line[i] != ' '
    ensures r == ScanToken(line[i..])
  {
    ghost var s := line[i..];
    assert s[0] == line[i];
    if line[i] == '<' {
      var j := Index(line[i..], ">");
      return if j < 0 then Stop else Token(j + 1);
    }
    if line[i] != '"' {
      var j := FindWordEnd(line, i);
      return Token(j - i);
    }
    var j := FindQuoteEnd(line, i);
    assert j < |line| ==> s[j - i] == line[j];
    if j < |line| && line[j] == '@' {
      var k := FindTagEnd(line, i, j + 1);
      return Token(k - i);
    }
    if j < |line| {
      if j + 1 == |line| {
        return if OneByte(line[j]) then OutOfRange else Token(j - i);
      }
      assert line[j..j + 2] == s[j - i..j - i + 2];
      if line[j..j + 2] == "^^" {
        var k := j + 2;
        assert k < |line| ==> s[k - i] == line[k];
        if k < |line| && line[k] == '<' {
          var end := IndexFrom(line[i..], ">", k - i);
          return if end >= 0 then Token(end + 1) else Token(|line| - i);
        }
        return Token(|line| - i);
      }
    }
    return Token(j - i);
  }

  method PassSpaces(line: string, start: nat) returns (i: nat)
    requires start <= |line|
    ensures start <= i <= |line| && line[i..] == SkipSpaces(line[start..]) && (i < |line| ==> line[i] != ' ')
    ensures Tokenize(line[i..]) == Tokenize(line[start..])
  {
    i := start;
    while i < |line| && line[i] == ' '
      invariant start <= i <= |line| && SkipSpaces(line[i..]) == SkipSpaces(line[start..])
    {
      assert line[i..][0] == line[i] && line[i..][1..] == line[i + 1..];
      i := i + 1;
    }
    assert i < |line| ==> line[i..][0] == line[i];
  }

  method ParseTokens(line: string) returns (r: Tokens)
    ensures r == Tokenize(line)
  {
    hide ScanToken;
    var tokens: seq<string> := [];
    var i := 0;
    assert line[0..] == line;
    while i < |line|
      invariant i <= |line| && Tokenize(line) == Prefixed(tokens, Tokenize(line[i..]))
      decreases |line| - i
    {
      i := PassSpaces(line, i);
      if i >= |line| {
        break;
      }
      assert line[i..][0] == line[i] && SkipSpaces(line[i..]) == line[i..];
      var scan := ScanAt(line, i);
      match scan {
        case Stop => break;
        case OutOfRange => return Crashed;
        case Token(end) =>
          assert line[i..][..end] == line[i..i + end] && line[i..][end..] == line[i + end..];
          PrefixedTwice(tokens, [line[i..i + end]], Tokenize(line[i + end..]));
          tokens := tokens + [line[i..i + end]];
          i := i + end;
      }
    }
    return Done(tokens);
  }

  lemma PrefixedTwice(a: seq<string>, b: seq<string>, r: Tokens)
    ensures Prefixed(a, Prefixed(b, r)) == Prefixed(a + b, r)
  {
    if r.Done? {
      assert a + (b + r.tokens) == a + b + r.tokens;
    }
  }

  // ----- Lines -----

  /** None for a blank line or a comment. */
  function ParseLine(line: string): Outcome<Option<Triple>> {
    var l := TrimSpace(line);
    if l == "" || l[0] == '#' then Ok(None) else ParseStatement(l)
  }

  function ParseStatement(l: string): Outcome<Option<Triple>> {
    if !HasSuffix(l, " .") then Err("line must end with ' .'") else ParseTerms(Tokenize(TrimSpace(l[..|l| - 2])))
  }

  function ParseTerms(r: Tokens): Outcome<Option<Triple>> {
    match r
    case Crashed => Crash
    case Done(tokens) => if |tokens| < 3 then Err("expected 3 tokens") else ParseTriple(tokens[0], tokens[1], tokens[2])
  }

  function ParseTriple(subj: string, pred: string, obj: string): Outcome<Option<Triple>> {
    match ParseTerm(subj)
    case Err(e) => Err(e)
    case Crash => Crash
    case Ok(s) =>
      match ParseTerm(pred)
      case Err(e) => Err(e)
      case Crash => Crash
      case Ok(p) =>
        match ParseTerm(obj)
        case Err(e) => Err(e)
        case Crash => Crash
        case Ok(o) => Ok(Some(Triple(HashOf(s.value, p.value, o.value), s, p, o, "", false)))
  }

  // ----- Round trip of a line -----

  /** A term that survives and has nothing in it that would end its token early. */
  ghost predicate Sturdy(t: Term) {
    && Survives(t)
    && (t.kind == Iri ==> '>' !in t.value)
    && (t.kind == Literal ==> IsTag(t.language) && '>' !in t.datatyp)
  }

  /** What can follow a token: nothing, or a space and more. */
  predicate Follows(post: string) {
    post == "" || (|post| >= 2 && post[0] == ' ')
  }

  lemma IriToken(v: string, post: string)
    requires '>' !in v
    ensures ScanToken("<" + v + ">" + post) == Token(|v| + 2)
  {
    var s := "<" + v + ">" + post;
    assert s[0] == '<' && s[|v| + 1] == '>';
    assert forall i :: 0 <= i < |v| ==> s[i + 1] == v[i];
    IndexOfChar(s, '>', 0, |v| + 1);
  }

  /** The closing quote of the written literal does not look like an escaped one. */
  predicate ClosesWell(v: string) {
    v == "" || v[|v| - 1] != '\\'
  }

  /** The closing quote of a written literal is found. */
  lemma {:induction false} ClosingQuote(v: string, post: string, j: nat)
    requires ClosesWell(v) && 0 < j <= |Escaped(v)| + 1
    ensures QuoteEnd("\"" + Escaped(v) + "\"" + post, j) == |Escaped(v)| + 2
    decreases |Escaped(v)| - j + 1
  {
    var E := Escaped(v);
    var s := "\"" + E + "\"" + post;
    if j <= |E| {
      assert s[j] == E[j - 1];
      if s[j] == '"' {
        QuotesAreEscaped(v, j - 1);
        assert s[j - 1] == E[j - 2];
      }
      ClosingQuote(v, post, j + 1);
    } else {
      assert s[j] == '"';
      if v != "" {
        LastEscaped(v);
        assert s[j - 1] == E[|E| - 1];
      }
    }
  }

  lemma {:induction false} WholeTag(s: string, k: nat, end: nat)
    requires k <= end <= |s| && (forall i :: k <= i < end ==> IsTagChar(s[i])) && (end < |s| ==> s[end] == ' ')
    ensures TagEnd(s, k) == end
    decreases end - k
  {
    if k < end {
      WholeTag(s, k + 1, end);
    }
  }

  lemma PlainScan(s: string, j: nat)
    requires s != "" && s[0] == '"' && QuoteEnd(s, 1) == j && (j == |s| || (j + 2 <= |s| && s[j] == ' '))
    ensures ScanToken(s) == Token(j)
  {
    if j < |s| {
      assert s[j..j + 2][0] == ' ';
    }
  }

  lemma TypeScan(s: string, j: nat, end: nat)
    requires s != "" && s[0] == '"' && QuoteEnd(s, 1) == j && j + 2 < end < |s|
    requires s[j] == '^' && s[j + 1] == '^' && s[j + 2] == '<' && IndexFrom(s, ">", j + 2) == end
    ensures ScanToken(s) == Token(end + 1)
  {
    assert s[j..j + 2] == "^^";
  }

  lemma PlainToken(v: string, post: string)
    requires ClosesWell(v) && Follows(post)
    ensures ScanToken("\"" + Escaped(v) + "\"" + post) == Token(|Escaped(v)| + 2)
  {
    ClosingQuote(v, post, 1);
    Quoted(Escaped(v), post);
    PlainScan("\"" + Escaped(v) + "\"" + post, |Escaped(v)| + 2);
  }

  /** From j on s reads like tail. */
  ghost predicate ReadsOn(s: string, j: nat, tail: string) {
    |s| == j + |tail| && forall k :: j <= k < |s| ==> s[k] == tail[k - j]
  }

  lemma Quoted(e: string, tail: string)
    ensures
      var s := "\"" + e + "\"" + tail;
      s[0] == '"' && ReadsOn(s, |e| + 2, tail)
  {
  }

  lemma TaggedScan(s: string, j: nat, lang: string, tail: string)
    requires s != "" && s[0] == '"' && QuoteEnd(s, 1) == j && ReadsOn(s, j, tail)
    requires |lang| < |tail| && tail[0] == '@' && forall k :: 1 <= k <= |lang| ==> IsTagChar(tail[k])
    requires |lang| + 1 < |tail| ==> tail[|lang| + 1] == ' '
    ensures ScanToken(s) == Token(j + 1 + |lang|)
  {
    assert s[j] == tail[0];
    WholeTag(s, j + 1, j + 1 + |lang|);
  }

  lemma TaggedToken(v: string, lang: string, tail: string)
    requires ClosesWell(v) && |lang| < |tail| && tail[0] == '@' && forall k :: 1 <= k <= |lang| ==> IsTagChar(tail[k])
    requires |lang| + 1 < |tail| ==> tail[|lang| + 1] == ' '
    ensures ScanToken("\"" + Escaped(v) + "\"" + tail) == Token(|Escaped(v)| + 3 + |lang|)
  {
    ClosingQuote(v, tail, 1);
    Quoted(Escaped(v), tail);
    TaggedScan("\"" + Escaped(v) + "\"" + tail, |Escaped(v)| + 2, lang, tail);
  }

  lemma TypedScan(s: string, j: nat, n: nat, tail: string)
    requires s != "" && s[0] == '"' && QuoteEnd(s, 1) == j && ReadsOn(s, j, tail)
    requires 2 < n < |tail| && tail[0] == '^' && tail[1] == '^' && tail[2] == '<' && tail[n] == '>'
    requires forall k :: 2 <= k < n ==> tail[k] != '>'
    ensures ScanToken(s) == Token(j + n + 1)
  {
    assert s[j] == tail[0] && s[j + 1] == tail[1] && s[j + 2] == tail[2] && s[j + n] == tail[n];
    IndexOfChar(s, '>', j + 2, j + n);
    TypeScan(s, j, j + n);
  }

  lemma TypedToken(v: string, n: nat, tail: string)
    requires ClosesWell(v) && 2 < n < |tail| && tail[0] == '^' && tail[1] == '^' && tail[2] == '<' && tail[n] == '>'
    requires forall k :: 2 <= k < n ==> tail[k] != '>'
    ensures ScanToken("\"" + Escaped(v) + "\"" + tail) == Token(|Escaped(v)| + 3 + n)
  {
    ClosingQuote(v, tail, 1);
    Quoted(Escaped(v), tail);
    TypedScan("\"" + Escaped(v) + "\"" + tail, |Escaped(v)| + 2, n, tail);
  }

  lemma TagText(e: string, lang: string, post: string)
    requires IsTag(lang) && Follows(post)
    ensures
      var tail := "@" + lang + post;
      && "\"" + e + "\"@" + lang + post == "\"" + e + "\"" + tail
      && tail[0] == '@' && (forall k :: 1 <= k <= |lang| ==> IsTagChar(tail[k]))
      && (|lang| + 1 < |tail| ==> tail[|lang| + 1] == ' ')
  {
    var tail := "@" + lang + post;
    assert forall k :: 1 <= k <= |lang| ==> tail[k] == lang[k - 1];
  }

  lemma TypeText(e: string, dt: string, post: string)
    ensures "\"" + e + "\"^^<" + dt + ">" + post == "\"" + e + "\"" + ("^^<" + dt + ">" + post)
  {
  }

  lemma TypeTail(dt: string, post: string)
    requires '>' !in dt
    ensures
      var tail, n := "^^<" + dt + ">" + post, 3 + |dt|;
      && n < |tail| && tail[0] == '^' && tail[1] == '^' && tail[2] == '<' && tail[n] == '>'
      && forall k :: 2 <= k < n ==> tail[k] != '>'
  {
    var tail := "^^<" + dt + ">" + post;
    assert forall k :: 3 <= k < 3 + |dt| ==> tail[k] == dt[k - 3];
  }

  lemma LiteralToken(t: Term, post: string)
    requires t.kind == Literal && Sturdy(t) && Follows(post)
    ensures ScanToken(FormatTerm(t) + post) == Token(|FormatTerm(t)|)
  {
    hide ScanToken, Escaped, EscapeLiteral;
    EscapeIsCharwise(t.value);
    if t.language != "" {
      TagText(Escaped(t.value), t.language, post);
      TaggedToken(t.value, t.language, "@" + t.language + post);
    } else if t.datatyp != "" {
      TypeText(Escaped(t.value), t.datatyp, post);
      TypeTail(t.datatyp, post);
      TypedToken(t.value, 3 + |t.datatyp|, "^^<" + t.datatyp + ">" + post);
    } else {
      PlainToken(t.value, post);
    }
  }

  lemma OneToken(s: string, end: nat)
    requires s != "" && s[0] != ' ' && ScanToken(s) == Token(end)
    ensures Tokenize(s) == Prefixed([s[..end]], Tokenize(s[end..]))
  {
    hide ScanToken;
    assert SkipSpaces(s) == s;
  }

  lemma FirstToken(f: string, rest: string)
    requires f != "" && f[0] != ' ' && ScanToken(f + (" " + rest)) == Token(|f|)
    ensures Tokenize(f + (" " + rest)) == Prefixed([f], Tokenize(rest))
  {
    hide ScanToken, Tokenize;
    var s := f + (" " + rest);
    OneToken(s, |f|);
    assert s[..|f|] == f && s[|f|..] == " " + rest;
    LeadingSpace(rest);
  }

  lemma LeadingSpace(rest: string)
    ensures Tokenize(" " + rest) == Tokenize(rest)
  {
    hide ScanToken;
    assert (" " + rest)[1..] == rest;
    assert SkipSpaces(" " + rest) == SkipSpaces(rest);
  }

  lemma ThreeTokens(f: string, g: string, h: string)
    requires f != "" && f[0] != ' ' && g != "" && g[0] != ' ' && h != "" && h[0] != ' '
    requires ScanToken(f + (" " + (g + (" " + h)))) == Token(|f|)
    requires ScanToken(g + (" " + h)) == Token(|g|) && ScanToken(h + "") == Token(|h|)
    ensures Tokenize(f + (" " + (g + (" " + h)))) == Done([f, g, h])
  {
    hide ScanToken, Tokenize;
    FirstToken(f, g + (" " + h));
    FirstToken(g, h);
    assert h + "" == h;
    LastToken(h);
    assert [f] + ([g] + [h]) == [f, g, h];
  }

  lemma LastToken(h: string)
    requires h != "" && h[0] != ' ' && ScanToken(h) == Token(|h|)
    ensures Tokenize(h) == Done([h])
  {
    hide ScanToken;
    OneToken(h, |h|);
    assert h[..|h|] == h && h[|h|..] == "" && Tokenize("") == Done([]);
  }

  /** A written term is one token, whatever follows it. */
  lemma SturdyToken(t: Term, post: string)
    requires Sturdy(t) && Follows(post)
    ensures ScanToken(FormatTerm(t) + post) == Token(|FormatTerm(t)|)
  {
    if t.kind == Literal {
      LiteralToken(t, post);
    } else {
      IriToken(t.value, post);
    }
  }

  /** f starts like a term and does not end in a space. */
  predicate LooksLikeTerm(f: string) {
    f != "" && f[0] in "<\"" && !IsSpace(f[|f| - 1])
  }

  lemma Ends(first: string, middle: string, last: string)
    requires first != "" && first[0] in "<\"" && last != "" && !IsSpace(last[|last| - 1])
    ensures LooksLikeTerm(first + middle + last)
  {
    var f := first + middle + last;
    assert f[0] == first[0] && f[|f| - 1] == last[|last| - 1];
  }

  lemma TagEnds(e: string, lang: string)
    requires lang != "" && IsTag(lang)
    ensures LooksLikeTerm("\"" + e + "\"@" + lang)
  {
    assert IsTagChar(lang[|lang| - 1]);
    Ends("\"" + e, "\"@", lang);
  }

  lemma TypeEnds(e: string, dt: string)
    ensures LooksLikeTerm("\"" + e + "\"^^<" + dt + ">")
  {
    Ends("\"" + e + "\"^^<", dt, ">");
  }

  lemma FormatEnds(t: Term)
    requires Sturdy(t)
    ensures LooksLikeTerm(FormatTerm(t))
  {
    if t.kind == Literal && t.language != "" {
      TagEnds(EscapeLiteral(t.value), t.language);
    } else if t.kind == Literal && t.datatyp != "" {
      TypeEnds(EscapeLiteral(t.value), t.datatyp);
    } else if t.kind == Literal {
      Ends("\"", EscapeLiteral(t.value), "\"");
    } else {
      Ends("<", t.value, ">");
    }
  }

  lemma EndsLike(front: string, end: string)
    requires end != ""
    ensures (front + end)[|front + end| - 1] == end[|end| - 1]
  {
  }

  lemma DropDot(body: string)
    requires LooksLikeTerm(body)
    ensures ParseLine(body + " .") == ParseTerms(Tokenize(body))
  {
    var line := body + " .";
    Statement(line, body);
    NothingToTrim(line);
  }

  lemma Statement(line: string, body: string)
    requires line == body + " ." && LooksLikeTerm(body)
    ensures ParseStatement(line) == ParseTerms(Tokenize(body))
    ensures line != "" && !IsSpace(line[0]) && line[0] != '#' && !IsSpace(line[|line| - 1])
  {
    CutDot(line, body);
    NothingToTrim(body);
  }

  lemma CutDot(line: string, body: string)
    requires line == body + " ."
    ensures HasSuffix(line, " .") && line[..|line| - 2] == body
  {
    assert line[|line| - 2..] == " .";
  }

  lemma TripleOfTerms(t: Triple)
    requires Sturdy(t.subj) && Sturdy(t.pred) && Sturdy(t.obj)
    ensures ParseTriple(FormatTerm(t.subj), FormatTerm(t.pred), FormatTerm(t.obj))
         == Ok(Some(t.(id := HashTriple(t), graph := "", inferred := false)))
  {
    TermExactly(t.subj);
    TermExactly(t.pred);
    TermExactly(t.obj);
  }

  lemma BodyEnds(f: string, g: string, h: string)
    requires LooksLikeTerm(f) && h != "" && !IsSpace(h[|h| - 1])
    ensures LooksLikeTerm(f + (" " + (g + (" " + h))))
  {
    var body := f + (" " + (g + (" " + h)));
    assert body[0] == f[0];
    EndsLike(" ", h);
    EndsLike(g, " " + h);
    EndsLike(" ", g + (" " + h));
    EndsLike(f, " " + (g + (" " + h)));
  }

  lemma Regrouped(f: string, g: string, h: string)
    ensures f + " " + g + " " + h + " ." == f + (" " + (g + (" " + h))) + " ."
  {
    assert f + " " + g + " " + h == f + (" " + (g + (" " + h)));
  }

  lemma BodyOf(t: Triple)
    requires Sturdy(t.subj) && Sturdy(t.pred) && Sturdy(t.obj)
    ensures
      var body := FormatTerm(t.subj) + (" " + (FormatTerm(t.pred) + (" " + FormatTerm(t.obj))));
      LooksLikeTerm(body) && FormatTriple(t) == body + " ."
  {
    FormatEnds(t.subj);
    FormatEnds(t.obj);
    BodyEnds(FormatTerm(t.subj), FormatTerm(t.pred), FormatTerm(t.obj));
    Regrouped(FormatTerm(t.subj), FormatTerm(t.pred), FormatTerm(t.obj));
  }

  lemma TokensOf(t: Triple)
    requires Sturdy(t.subj) && Sturdy(t.pred) && Sturdy(t.obj)
    ensures
      var f, g, h := FormatTerm(t.subj), FormatTerm(t.pred), FormatTerm(t.obj);
      Tokenize(f + (" " + (g + (" " + h)))) == Done([f, g, h])
  {
    var f, g, h := FormatTerm(t.subj), FormatTerm(t.pred), FormatTerm(t.obj);
    FormatEnds(t.subj);
    FormatEnds(t.pred);
    FormatEnds(t.obj);
    SturdyToken(t.subj, " " + (g + (" " + h)));
    SturdyToken(t.pred, " " + h);
    SturdyToken(t.obj, "");
    ThreeTokens(f, g, h);
  }

  /** Main result: reading a written triple gives it back, with a generated ID. */
  lemma LineRoundTrip(t: Triple)
    requires Sturdy(t.subj) && Sturdy(t.pred) && Sturdy(t.obj)
    ensures ParseLine(FormatTriple(t)) == Ok(Some(t.(id := HashTriple(t), graph := "", inferred := false)))
  {
    BodyOf(t);
    TokensOf(t);
    DropDot(FormatTerm(t.subj) + (" " + (FormatTerm(t.pred) + (" " + FormatTerm(t.obj)))));
    TripleOfTerms(t);
  }
}

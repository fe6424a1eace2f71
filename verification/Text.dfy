/** The string functions of Go's strings package that the N-Triples reader and writer use. */
module Text {

  /** pat stands at index k of s. */
  predicate OccursAt(s: string, pat: string, k: int) {
    0 <= k && k + |pat| <= |s| && s[k..k + |pat|] == pat
  }

  predicate Contains(s: string, pat: string) {
    exists k :: 0 <= k <= |s| && OccursAt(s, pat, k)
  }

  lemma OccursShift(a: string, b: string, pat: string, k: nat)
    requires k >= |a|
    ensures OccursAt(a + b, pat, k) <==> OccursAt(b, pat, k - |a|)
  {
    if k + |pat| <= |a + b| {
      assert (a + b)[k..k + |pat|] == b[k - |a|..k - |a| + |pat|];
    }
  }

  /** Index of the first occurrence at or behind i, or -1. */
  function IndexFrom(s: string, pat: string, i: nat): (r: int)
    ensures r == -1 ==> forall k :: i <= k ==> !OccursAt(s, pat, k)
    ensures r != -1 ==> i <= r && OccursAt(s, pat, r) && forall k :: i <= k < r ==> !OccursAt(s, pat, k)
    decreases |s| - i
  {
    if i + |pat| > |s| then -1
    else if s[i..i + |pat|] == pat then i
    else IndexFrom(s, pat, i + 1)
  }

  lemma OccursChar(s: string, c: char, k: int)
    ensures OccursAt(s, [c], k) <==> 0 <= k < |s| && s[k] == c
  {
    if 0 <= k < |s| {
      assert s[k..k + 1] == [s[k]];
    }
  }

  lemma IndexOfChar(s: string, c: char, i: nat, n: nat)
    requires i <= n < |s| && s[n] == c && forall k :: i <= k < n ==> s[k] != c
    ensures IndexFrom(s, [c], i) == n
  {
    OccursChar(s, c, n);
    OccursChar(s, c, IndexFrom(s, [c], i));
  }

  function Index(s: string, pat: string): int {
    IndexFrom(s, pat, 0)
  }

  predicate HasPrefix(s: string, pre: string) {
    |pre| <= |s| && s[..|pre|] == pre
  }

  predicate HasSuffix(s: string, suf: string) {
    |suf| <= |s| && s[|s| - |suf|..] == suf
  }

  function ReplaceAll(s: string, pat: string, with: string): string
    requires pat != ""
    decreases |s|
  {
    if s == "" then ""
    else if HasPrefix(s, pat) then with + ReplaceAll(s[|pat|..], pat, with)
    else [s[0]] + ReplaceAll(s[1..], pat, with)
  }

  lemma PrefixFirst(s: string, pre: string)
    requires pre != ""
    ensures HasPrefix(s, pre) ==> s[0] == pre[0]
  {
    if HasPrefix(s, pre) {
      assert s[..|pre|][0] == s[0];
    }
  }

  lemma OccursFirst(s: string, pat: string, k: int)
    requires OccursAt(s, pat, k) && pat != ""
    ensures k < |s| && s[k] == pat[0]
  {
    assert s[k..k + |pat|][0] == s[k];
  }

  lemma OccursAtHead(c: char, s: string, p: string)
    ensures OccursAt([c] + s, [c] + p, 0) <==> HasPrefix(s, p)
  {
    if |p| <= |s| {
      assert ([c] + s)[0..1 + |p|] == [c] + s[..|p|];
      assert ([c] + p)[1..] == p && ([c] + s[..|p|])[1..] == s[..|p|];
    }
  }

  predicate IsSpace(c: char) {
    c in "\t\n\r \U{0B}\U{0C}\U{85}\U{A0}\U{1680}\U{2028}\U{2029}\U{202F}\U{205F}\U{3000}"
    || '\U{2000}' <= c <= '\U{200A}'
  }

  /** The code points with the White_Space property of Unicode. */
  lemma SpaceExactly(c: char)
    ensures IsSpace(c) <==>
            var n := c as int;
            || 9 <= n <= 13 || n == 32 || n == 133 || n == 160 || n == 5760 || 8192 <= n <= 8202
            || n == 8232 || n == 8233 || n == 8239 || n == 8287 || n == 12288
  {
  }

  function TrimStart(s: string): string {
    if s != "" && IsSpace(s[0]) then TrimStart(s[1..]) else s
  }

  function TrimEnd(s: string): string {
    if s != "" && IsSpace(s[|s| - 1]) then TrimEnd(s[..|s| - 1]) else s
  }

  function TrimSpace(s: string): string {
    TrimEnd(TrimStart(s))
  }

  lemma NothingToTrim(s: string)
    requires s != "" && !IsSpace(s[0]) && !IsSpace(s[|s| - 1])
    ensures TrimSpace(s) == s
  {
  }

  lemma {:induction false} TrimmedStart(s: string)
    ensures TrimStart(s) != "" ==> !IsSpace(TrimStart(s)[0])
    decreases |s|
  {
    if s != "" && IsSpace(s[0]) {
      TrimmedStart(s[1..]);
    }
  }

  lemma {:induction false} TrimmedEnd(s: string)
    requires s != "" && !IsSpace(s[0])
    ensures TrimEnd(s) != "" && TrimEnd(s)[0] == s[0] && !IsSpace(TrimEnd(s)[|TrimEnd(s)| - 1])
    decreases |s|
  {
    if IsSpace(s[|s| - 1]) {
      TrimmedEnd(s[..|s| - 1]);
    }
  }

  lemma TrimTwice(s: string)
    ensures TrimSpace(TrimSpace(s)) == TrimSpace(s)
  {
    TrimmedStart(s);
    if TrimStart(s) != "" {
      TrimmedEnd(TrimStart(s));
      NothingToTrim(TrimSpace(s));
    }
  }

  // ----- Lines -----

  function Split(s: string, sep: char): (parts: seq<string>)
    ensures parts != []
  {
    if s == "" then [""]
    else if s[0] == sep then [""] + Split(s[1..], sep)
    else
      var rest := Split(s[1..], sep);
      [[s[0]] + rest[0]] + rest[1..]
  }

  function Join(parts: seq<string>, sep: char): string {
    if parts == [] then ""
    else if |parts| == 1 then parts[0]
    else parts[0] + [sep] + Join(parts[1..], sep)
  }

  lemma {:induction false} SplitFirst(a: string, s: string, sep: char)
    requires sep !in a
    ensures Split(a + [sep] + s, sep) == [a] + Split(s, sep)
    decreases |a|
  {
    var all := a + [sep] + s;
    if a == "" {
      assert all[1..] == s;
    } else {
      SplitFirst(a[1..], s, sep);
      assert all[1..] == a[1..] + [sep] + s;
      assert [a[0]] + a[1..] == a;
    }
  }

  lemma {:induction false} SplitWhole(a: string, sep: char)
    requires sep !in a
    ensures Split(a, sep) == [a]
    decreases |a|
  {
    if a != "" {
      SplitWhole(a[1..], sep);
      assert [a[0]] + a[1..] == a;
    }
  }

  lemma {:induction false} SplitJoin(parts: seq<string>, sep: char)
    requires parts != [] && forall i :: 0 <= i < |parts| ==> sep !in parts[i]
    ensures Split(Join(parts, sep), sep) == parts
    decreases |parts|
  {
    if |parts| == 1 {
      SplitWhole(parts[0], sep);
    } else {
      SplitJoin(parts[1..], sep);
      SplitFirst(parts[0], Join(parts[1..], sep), sep);
    }
  }

  // ----- Replacing -----

  lemma ReplaceCharHead(c: char, s: string, x: char, with: string)
    ensures ReplaceAll([c] + s, [x], with) == (if c == x then with else [c]) + ReplaceAll(s, [x], with)
  {
    var t := [c] + s;
    assert t[1..] == s && (HasPrefix(t, [x]) <==> c == x);
  }

  lemma {:induction false} ReplaceCharConcat(a: string, b: string, x: char, with: string)
    ensures ReplaceAll(a + b, [x], with) == ReplaceAll(a, [x], with) + ReplaceAll(b, [x], with)
    decreases |a|
  {
    if a == "" {
      assert a + b == b;
    } else {
      assert a + b == [a[0]] + (a[1..] + b) && a == [a[0]] + a[1..];
      ReplaceCharHead(a[0], a[1..] + b, x, with);
      ReplaceCharHead(a[0], a[1..], x, with);
      ReplaceCharConcat(a[1..], b, x, with);
    }
  }

  lemma {:induction false} ReplaceCharAbsent(a: string, x: char, with: string)
    requires x !in a
    ensures ReplaceAll(a, [x], with) == a
    decreases |a|
  {
    if a != "" {
      ReplaceCharAbsent(a[1..], x, with);
      ReplaceCharHead(a[0], a[1..], x, with);
      assert [a[0]] + a[1..] == a;
    }
  }
}

/**
 pkg/store/fuzzy.go: the two-row edit distance and the fuzzy token filter built on it.

 The dynamic program is proved to compute Distance, the textbook recursion on last symbols. Distance itself is
 proved to be the length of the shortest script of single-symbol edits at arbitrary positions, and a metric.
 Go indexes strings by byte, so a text is a sequence of bytes.
 */
module EditDistance {
  import opened MachineInts
  import opened Scans

  type ByteString = seq<uint8>

  // ----- The recursive reference -----

  function Min3(a: int, b: int, c: int): (m: int)
    ensures m <= a && m <= b && m <= c
    ensures m == a || m == b || m == c
  {
    if a < b && a < c then a
    else if b < c then b
    else c
  }

  function Init(s: ByteString): ByteString
    requires s != []
  {
    s[..|s| - 1]
  }

  function Last(s: ByteString): uint8
    requires s != []
  {
    s[|s| - 1]
  }

  function Mismatch(x: uint8, y: uint8): nat {
    if x == y then 0 else 1
  }

  function Distance(a: ByteString, b: ByteString): nat
    decreases |a| + |b|
  {
    if a == [] then |b|
    else if b == [] then |a|
    else Min3(Distance(a, Init(b)) + 1,
              Distance(Init(a), b) + 1,
              Distance(Init(a), Init(b)) + Mismatch(Last(a), Last(b)))
  }

  // ----- The two-row dynamic program -----

  /** One step of the recursion, with the distances passed by name. */
  lemma DistanceStep(a: ByteString, b: ByteString, d: nat, left: nat, up: nat, diagonal: nat)
    requires a != [] && b != [] && d == Distance(a, b)
    requires left == Distance(a, Init(b)) && up == Distance(Init(a), b) && diagonal == Distance(Init(a), Init(b))
    ensures d == Min3(left + 1, up + 1, diagonal + Mismatch(Last(a), Last(b)))
  {
  }

  /** Row i of the table, seen through prefixes: extending both prefixes by one symbol is one step of Distance. */
  lemma PrefixStep(a: ByteString, b: ByteString, i: nat, j: nat)
    requires 0 < i <= |a| && 0 < j <= |b|
    ensures Distance(a[..i], b[..j]) ==
            Min3(Distance(a[..i], b[..j - 1]) + 1,
                 Distance(a[..i - 1], b[..j]) + 1,
                 Distance(a[..i - 1], b[..j - 1]) + Mismatch(a[i - 1], b[j - 1]))
  {
    var p, q := a[..i], b[..j];
    assert Init(p) == a[..i - 1] && Init(q) == b[..j - 1];
    DistanceStep(p, q, Distance(p, q), Distance(p, Init(q)), Distance(Init(p), q), Distance(Init(p), Init(q)));
  }

  /** Row i of the distance table of a and b, up to column n. */
  ghost predicate IsRow(row: seq<nat>, n: nat, a: ByteString, i: nat, b: ByteString) {
    n <= |row| && n <= |b| + 1 && i <= |a| && forall k: nat :: k < n ==> row[k] == Distance(a[..i], b[..k])
  }

  lemma FirstRow(row: seq<nat>, a: ByteString, b: ByteString)
    requires |row| == |b| + 1 && forall k: nat :: k <= |b| ==> row[k] == k
    ensures IsRow(row, |b| + 1, a, 0, b)
  {
  }

  lemma RowGrows(above: seq<nat>, row: seq<nat>, j: nat, a: ByteString, i: nat, b: ByteString)
    requires 0 < i && 0 < j <= |b| && |row| == |above| == |b| + 1
    requires IsRow(above, |b| + 1, a, i - 1, b) && IsRow(row, j, a, i, b)
    requires row[j] == Min3(row[j - 1] + 1, above[j] + 1, above[j - 1] + Mismatch(a[i - 1], b[j - 1]))
    ensures IsRow(row, j + 1, a, i, b)
  {
    hide Distance, Mismatch;
    PrefixStep(a, b, i, j);
  }

  method Levenshtein(a: ByteString, b: ByteString) returns (d: nat)
    ensures d == Distance(a, b)
  {
    if |a| == 0 {
      return |b|;
    }
    if |b| == 0 {
      return |a|;
    }
    var prev := new nat[|b| + 1];
    var curr := new nat[|b| + 1];
    for j := 0 to |b| + 1
      invariant forall k :: 0 <= k < j ==> prev[k] == k
    {
      prev[j] := j;
    }
    FirstRow(prev[..], a, b);
    for i := 1 to |a| + 1
      invariant prev != curr && prev.Length == curr.Length == |b| + 1
      invariant fresh(prev) && fresh(curr)
      invariant IsRow(prev[..], |b| + 1, a, i - 1, b)
    {
      curr[0] := i;
      ghost var above := prev[..];
      for j := 1 to |b| + 1
        invariant prev[..] == above
        invariant IsRow(curr[..], j, a, i, b)
      {
        var cost := 1;
        if a[i - 1] == b[j - 1] {
          cost := 0;
        }
        ghost var before := curr[..];
        curr[j] := Min3(curr[j - 1] + 1, prev[j] + 1, prev[j - 1] + cost);
        assert IsRow(curr[..], j, a, i, b) by {
          assert forall k: nat :: k < j ==> curr[..][k] == before[k];
        }
        RowGrows(above, curr[..], j, a, i, b);
      }
      prev, curr := curr, prev;
    }
    assert a[..|a|] == a && b[..|b|] == b;
    return prev[|b|];
  }

  // ----- A metric -----

  lemma {:induction false} ZeroIffEqual(a: ByteString, b: ByteString)
    ensures Distance(a, b) == 0 <==> a == b
    decreases |a| + |b|
  {
    if a != [] && b != [] {
      ZeroIffEqual(Init(a), Init(b));
      assert a == Init(a) + [Last(a)] && b == Init(b) + [Last(b)];
    }
  }

  lemma {:induction false} Symmetric(a: ByteString, b: ByteString)
    ensures Distance(a, b) == Distance(b, a)
    decreases |a| + |b|
  {
    if a != [] && b != [] {
      Symmetric(a, Init(b));
      Symmetric(Init(a), b);
      Symmetric(Init(a), Init(b));
    }
  }

  /** Dropping or adding a last symbol changes the distance by at most one. */
  lemma OneLonger(a: ByteString, b: ByteString)
    requires a != []
    ensures Distance(a, b) <= Distance(Init(a), b) + 1
  {
  }

  lemma {:induction false} LengthGap(a: ByteString, b: ByteString)
    ensures Distance(a, b) >= |a| - |b| && Distance(a, b) >= |b| - |a|
    decreases |a| + |b|
  {
    if a != [] && b != [] {
      LengthGap(a, Init(b));
      LengthGap(Init(a), b);
      LengthGap(Init(a), Init(b));
    }
  }

  lemma {:induction false} TriangleInequality(a: ByteString, b: ByteString, c: ByteString)
    ensures Distance(a, c) <= Distance(a, b) + Distance(b, c)
    decreases |a| + |b| + |c|
  {
    if a == [] {
      LengthGap(b, c);
    } else if c == [] {
      LengthGap(a, b);
    } else if b == [] {
      assert Distance(a, c) <= |a| + |c| by { AtMostBothLengths(a, c); }
    } else {
      if Distance(a, b) == Distance(Init(a), b) + 1 {
        TriangleInequality(Init(a), b, c);
      } else if Distance(b, c) == Distance(b, Init(c)) + 1 {
        TriangleInequality(a, b, Init(c));
      } else if Distance(a, b) == Distance(a, Init(b)) + 1 {
        TriangleInequality(a, Init(b), c);
        TriangleInequality(a, Init(b), Init(c));
      } else {
        TriangleInequality(Init(a), Init(b), c);
        TriangleInequality(Init(a), Init(b), Init(c));
      }
    }
  }

  lemma {:induction false} AtMostBothLengths(a: ByteString, b: ByteString)
    ensures Distance(a, b) <= |a| + |b|
    decreases |a|
  {
    if a != [] {
      AtMostBothLengths(Init(a), b);
    }
  }

  // ----- Edit scripts -----

  /** One edit anywhere in the text. */
  datatype Edit = Insert(at: nat, c: uint8) | Delete(at: nat) | Substitute(at: nat, c: uint8)

  predicate Applicable(e: Edit, s: ByteString) {
    if e.Insert? then e.at <= |s| else e.at < |s|
  }

  function Apply(e: Edit, s: ByteString): ByteString
    requires Applicable(e, s)
  {
    match e
    case Insert(at, c) => s[..at] + [c] + s[at..]
    case Delete(at) => s[..at] + s[at + 1..]
    case Substitute(at, c) => s[..at] + [c] + s[at + 1..]
  }

  /** The edits of script, applied one after the other, turn s into t. */
  ghost predicate Rewrites(script: seq<Edit>, s: ByteString, t: ByteString) {
    if script == [] then s == t
    else Applicable(script[0], s) && Rewrites(script[1..], Apply(script[0], s), t)
  }

  lemma {:induction false} CommonSuffix(a: ByteString, b: ByteString, x: ByteString)
    ensures Distance(a + x, b + x) <= Distance(a, b)
    decreases |x|
  {
    if x == [] {
      assert a + x == a && b + x == b;
    } else {
      assert Init(a + x) == a + Init(x) && Init(b + x) == b + Init(x);
      CommonSuffix(a, b, Init(x));
    }
  }

  lemma ReplaceLast(p: ByteString, c: uint8, d: uint8)
    ensures Distance(p + [c], p + [d]) <= 1
  {
    ZeroIffEqual(p, p);
    assert Init(p + [c]) == p && Init(p + [d]) == p;
  }

  lemma DropLast(p: ByteString, c: uint8)
    ensures Distance(p + [c], p) <= 1 && Distance(p, p + [c]) <= 1
  {
    ZeroIffEqual(p, p);
    assert Init(p + [c]) == p;
    OneLonger(p + [c], p);
    Symmetric(p, p + [c]);
  }

  lemma Ends(p: ByteString, x: ByteString)
    requires |x| <= 1
    ensures p + x == if x == [] then p else p + [x[0]]
  {
  }

  /** Replacing a stretch of at most one symbol by a stretch of at most one symbol costs at most one. */
  lemma OneStretch(p: ByteString, x: ByteString, y: ByteString, q: ByteString)
    requires |x| <= 1 && |y| <= 1
    ensures Distance(p + x + q, p + y + q) <= 1
  {
    Ends(p, x);
    Ends(p, y);
    if x == [] && y == [] {
      ZeroIffEqual(p, p);
    } else if x == [] {
      DropLast(p, y[0]);
    } else if y == [] {
      DropLast(p, x[0]);
    } else {
      ReplaceLast(p, x[0], y[0]);
    }
    CommonSuffix(p + x, p + y, q);
  }

  lemma CutAt(s: ByteString, at: nat)
    requires at < |s|
    ensures s == s[..at] + [s[at]] + s[at + 1..]
  {
  }

  lemma NothingBetween(p: ByteString, q: ByteString)
    ensures p + q == p + [] + q
  {
  }

  lemma OneEdit(e: Edit, s: ByteString)
    requires Applicable(e, s)
    ensures Distance(s, Apply(e, s)) <= 1
  {
    var p := s[..e.at];
    match e
    case Insert(at, c) =>
      OneStretch(p, [], [c], s[at..]);
      NothingBetween(p, s[at..]);
      assert s == p + s[at..];
    case Delete(at) =>
      OneStretch(p, [s[at]], [], s[at + 1..]);
      CutAt(s, at);
      NothingBetween(p, s[at + 1..]);
    case Substitute(at, c) =>
      OneStretch(p, [s[at]], [c], s[at + 1..]);
      CutAt(s, at);
  }

  lemma {:induction false} NoScriptIsShorter(script: seq<Edit>, s: ByteString, t: ByteString)
    requires Rewrites(script, s, t)
    ensures Distance(s, t) <= |script|
    decreases |script|
  {
    if script == [] {
      ZeroIffEqual(s, t);
    } else {
      var u := Apply(script[0], s);
      OneEdit(script[0], s);
      NoScriptIsShorter(script[1..], u, t);
      TriangleInequality(s, u, t);
    }
  }

  lemma {:induction false} AppendEdit(script: seq<Edit>, s: ByteString, t: ByteString, e: Edit)
    requires Rewrites(script, s, t) && Applicable(e, t)
    ensures Rewrites(script + [e], s, Apply(e, t))
    decreases |script|
  {
    if script == [] {
      assert script + [e] == [e];
    } else {
      AppendEdit(script[1..], Apply(script[0], s), t, e);
      assert (script + [e])[1..] == script[1..] + [e];
    }
  }

  lemma ApplyBefore(e: Edit, s: ByteString, x: ByteString)
    requires Applicable(e, s)
    ensures Apply(e, s + x) == Apply(e, s) + x
  {
    var all := s + x;
    assert all[..e.at] == s[..e.at];
    if e.Insert? {
      assert all[e.at..] == s[e.at..] + x;
    } else {
      assert all[e.at + 1..] == s[e.at + 1..] + x;
    }
  }

  /** A script works unchanged when both texts get the same suffix. */
  lemma {:induction false} SuffixUntouched(script: seq<Edit>, s: ByteString, t: ByteString, x: ByteString)
    requires Rewrites(script, s, t)
    ensures Rewrites(script, s + x, t + x)
    decreases |script|
  {
    if script != [] {
      var e := script[0];
      ApplyBefore(e, s, x);
      SuffixUntouched(script[1..], Apply(e, s), t, x);
    }
  }

  /** Some script of n edits turns s into t. */
  ghost predicate WithinEdits(s: ByteString, t: ByteString, n: nat) {
    exists script :: Rewrites(script, s, t) && |script| == n
  }

  /** Editing the texts without their last symbols, then once at the end. */
  lemma EditAtEnd(n: nat, a: ByteString, b: ByteString, x: ByteString, e: Edit, t: ByteString)
    requires WithinEdits(a, b, n) && Applicable(e, b + x) && Apply(e, b + x) == t
    ensures WithinEdits(a + x, t, n + 1)
  {
    var head :| Rewrites(head, a, b) && |head| == n;
    SuffixUntouched(head, a, b, x);
    AppendEdit(head, a + x, b + x, e);
    assert |head + [e]| == n + 1;
  }

  lemma Reassemble(s: ByteString)
    requires s != []
    ensures Init(s) + [Last(s)] == s
  {
  }

  lemma InsertLast(s: ByteString, c: uint8)
    ensures Apply(Insert(|s|, c), s) == s + [c]
  {
  }

  lemma SubstituteLast(s: ByteString, c: uint8, d: uint8)
    ensures Apply(Substitute(|s|, d), s + [c]) == s + [d]
  {
  }

  lemma LastEditIsInsert(a: ByteString, b: ByteString, n: nat)
    requires b != [] && WithinEdits(a, Init(b), n)
    ensures WithinEdits(a, b, n + 1)
  {
    InsertLast(Init(b), Last(b));
    Reassemble(b);
    assert a + [] == a && Init(b) + [] == Init(b);
    EditAtEnd(n, a, Init(b), [], Insert(|b| - 1, Last(b)), b);
  }

  lemma LastEditIsDelete(a: ByteString, b: ByteString, n: nat)
    requires a != [] && WithinEdits(Init(a), b, n)
    ensures WithinEdits(a, b, n + 1)
  {
    Reassemble(a);
    assert Apply(Delete(|b|), b + [Last(a)]) == b;
    EditAtEnd(n, Init(a), b, [Last(a)], Delete(|b|), b);
  }

  lemma LastEditIsSubstitute(a: ByteString, b: ByteString, n: nat)
    requires a != [] && b != [] && WithinEdits(Init(a), Init(b), n)
    ensures WithinEdits(a, b, n + Mismatch(Last(a), Last(b)))
  {
    var x := [Last(a)];
    Reassemble(a);
    Reassemble(b);
    if Last(a) == Last(b) {
      var head :| Rewrites(head, Init(a), Init(b)) && |head| == n;
      SuffixUntouched(head, Init(a), Init(b), x);
    } else {
      SubstituteLast(Init(b), Last(a), Last(b));
      EditAtEnd(n, Init(a), Init(b), x, Substitute(|b| - 1, Last(b)), b);
    }
  }

  lemma {:induction false} ScriptOfDistance(a: ByteString, b: ByteString)
    ensures WithinEdits(a, b, Distance(a, b))
    decreases |a| + |b|
  {
    if a == [] && b == [] {
      assert Rewrites([], a, b);
    } else if b != [] && Distance(a, b) == Distance(a, Init(b)) + 1 {
      ScriptOfDistance(a, Init(b));
      LastEditIsInsert(a, b, Distance(a, Init(b)));
    } else if a != [] && Distance(a, b) == Distance(Init(a), b) + 1 {
      ScriptOfDistance(Init(a), b);
      LastEditIsDelete(a, b, Distance(Init(a), b));
    } else {
      ScriptOfDistance(Init(a), Init(b));
      LastEditIsSubstitute(a, b, Distance(Init(a), Init(b)));
    }
  }

  /** Main result: the distance is the length of the shortest edit script. */
  lemma ShortestScript(a: ByteString, b: ByteString)
    ensures WithinEdits(a, b, Distance(a, b))
    ensures forall script :: Rewrites(script, a, b) ==> Distance(a, b) <= |script|
  {
    ScriptOfDistance(a, b);
    forall script | Rewrites(script, a, b)
      ensures Distance(a, b) <= |script|
    {
      NoScriptIsShorter(script, a, b);
    }
  }

  // ----- Fuzzy matching -----

  /** c occurs in candidates at index i and nowhere before. */
  ghost predicate FirstAt(candidates: seq<ByteString>, i: nat, c: ByteString) {
    i < |candidates| && candidates[i] == c && c !in candidates[..i]
  }

  /** matches lists pairwise different candidates in the order of their first occurrences. */
  ghost predicate InFirstOccurrenceOrder(candidates: seq<ByteString>, matches: seq<ByteString>) {
    forall i, j, p, q ::
      0 <= i < j < |matches| && FirstAt(candidates, p, matches[i]) && FirstAt(candidates, q, matches[j]) ==> p < q
  }

  lemma LaterCandidate(candidates: seq<ByteString>, n: nat, matches: seq<ByteString>)
    requires n < |candidates| && candidates[n] !in candidates[..n]
    requires InFirstOccurrenceOrder(candidates, matches) && forall c :: c in matches ==> c in candidates[..n]
    ensures InFirstOccurrenceOrder(candidates, matches + [candidates[n]])
  {
    forall i, j, p: nat, q: nat | 0 <= i < j <= |matches| && FirstAt(candidates, p, matches[i])
                        && FirstAt(candidates, q, (matches + [candidates[n]])[j])
      ensures p < q
    {
      if j == |matches| {
        assert matches[i] in candidates[..n];
        assert q == n && p < n;
      }
    }
  }

  method FuzzyMatch(query: ByteString, candidates: seq<ByteString>, maxDist: int) returns (matches: seq<ByteString>)
    ensures forall c :: c in matches <==> c in candidates && Distance(query, c) <= maxDist
    ensures Distinct(matches) && InFirstOccurrenceOrder(candidates, matches)
  {
    matches := [];
    var seen: set<ByteString> := {};
    for n := 0 to |candidates|
      invariant forall c :: c in seen <==> c in matches
      invariant forall c :: c in matches <==> c in candidates[..n] && Distance(query, c) <= maxDist
      invariant Distinct(matches) && InFirstOccurrenceOrder(candidates, matches)
    {
      var c := candidates[n];
      if c in seen {
        continue;
      }
      var d := Levenshtein(query, c);
      if d <= maxDist {
        LaterCandidate(candidates, n, matches);
        matches := matches + [c];
        seen := seen + {c};
      }
    }
  }
}

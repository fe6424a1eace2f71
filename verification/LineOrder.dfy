/**
 The order in which lines are exported: sort.Strings compares texts byte by byte, which for UTF-8 is the order of their
 code points.
 */
module LineOrder {
  import opened Scans

  /** a comes before b, or they are equal. */
  predicate Before(a: string, b: string) {
    a == "" || (b != "" && (a[0] < b[0] || (a[0] == b[0] && Before(a[1..], b[1..]))))
  }

  lemma {:induction false} Total(a: string, b: string)
    ensures Before(a, b) || Before(b, a)
  {
    if a != "" && b != "" {
      Total(a[1..], b[1..]);
    }
  }

  lemma {:induction false} Antisymmetric(a: string, b: string)
    requires Before(a, b) && Before(b, a)
    ensures a == b
  {
    if a != "" && b != "" {
      Antisymmetric(a[1..], b[1..]);
      assert a == [a[0]] + a[1..] && b == [b[0]] + b[1..];
    }
  }

  lemma {:induction false} Transitive(a: string, b: string, c: string)
    requires Before(a, b) && Before(b, c)
    ensures Before(a, c)
  {
    if a != "" && a[0] == b[0] == c[0] {
      Transitive(a[1..], b[1..], c[1..]);
    }
  }

  /** Behind a common beginning the shorter text comes first, or else the one whose next code point is smaller. */
  lemma {:induction false} FirstDifference(a: string, b: string, k: nat)
    requires k <= |a| && k <= |b| && a[..k] == b[..k]
    ensures k == |a| ==> Before(a, b)
    ensures k == |a| < |b| ==> !Before(b, a)
    ensures k < |a| && k < |b| && a[k] as int < b[k] as int ==> Before(a, b) && !Before(b, a)
  {
    if k > 0 {
      assert a[0] == a[..k][0] == b[..k][0] == b[0];
      assert a[1..][..k - 1] == a[..k][1..] == b[..k][1..] == b[1..][..k - 1];
      FirstDifference(a[1..], b[1..], k - 1);
    }
  }

  ghost predicate InOrder(lines: seq<string>) {
    forall i, j :: 0 <= i < j < |lines| ==> Before(lines[i], lines[j])
  }

  lemma InsertInOrder(lines: seq<string>, i: nat, x: string)
    requires InOrder(lines) && i <= |lines|
    requires forall k :: 0 <= k < i ==> Before(lines[k], x)
    requires i < |lines| ==> Before(x, lines[i])
    ensures InOrder(lines[..i] + [x] + lines[i..])
  {
    var q := lines[..i] + [x] + lines[i..];
    assert forall k :: 0 <= k < |q| ==> q[k] == if k < i then lines[k] else if k == i then x else lines[k - 1];
    forall k | i < k < |lines|
      ensures Before(x, lines[k])
    {
      Transitive(x, lines[i], lines[k]);
    }
  }

  method SortLines(lines: seq<string>) returns (sorted: seq<string>, ghost perm: seq<nat>)
    ensures Rearranged(lines, sorted, perm) && InOrder(sorted)
  {
    sorted, perm := [], [];
    for n := 0 to |lines|
      invariant Rearranged(lines[..n], sorted, perm) && InOrder(sorted)
    {
      var x := lines[n];
      var i := 0;
      while i < |sorted| && Before(sorted[i], x)
        invariant 0 <= i <= |sorted|
        invariant forall k :: 0 <= k < i ==> Before(sorted[k], x)
      {
        i := i + 1;
      }
      if i < |sorted| {
        Total(sorted[i], x);
      }
      assert lines[..n + 1] == lines[..n] + [x];
      InsertRearranged(lines[..n], x, sorted, perm, i);
      InsertInOrder(sorted, i, x);
      sorted, perm := sorted[..i] + [x] + sorted[i..], perm[..i] + [n] + perm[i..];
    }
    assert lines[..|lines|] == lines;
  }

  /** Line k of a sorted rearrangement cannot come before line k of the original, if that is sorted too. */
  lemma NoEarlier(xs: seq<string>, ys: seq<string>, perm: seq<nat>, k: nat)
    requires InOrder(xs) && InOrder(ys) && Rearranged(xs, ys, perm) && k < |xs|
    ensures Before(xs[k], ys[k])
  {
    if !Before(xs[k], ys[k]) {
      forall i | 0 <= i <= k
        ensures perm[i] < k
      {
        if perm[i] >= k {
          BeforeItself(ys[k]);
          BeforeItself(xs[k]);
          Transitive(xs[k], xs[perm[i]], ys[k]);
        }
      }
      AtMostBelow(perm[..k + 1], k);
      assert false;
    }
  }

  lemma BeforeItself(a: string)
    ensures Before(a, a)
  {
    Total(a, a);
  }

  /** Main result: there is only one way to sort lines. */
  lemma SortedIsUnique(xs: seq<string>, ys: seq<string>, p: seq<nat>, q: seq<nat>)
    requires InOrder(xs) && InOrder(ys) && Rearranged(xs, ys, p) && Rearranged(ys, xs, q)
    ensures xs == ys
  {
    forall k | 0 <= k < |xs|
      ensures xs[k] == ys[k]
    {
      NoEarlier(xs, ys, p, k);
      NoEarlier(ys, xs, q, k);
      Antisymmetric(xs[k], ys[k]);
    }
  }
}

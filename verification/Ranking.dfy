/**
 Ranked results: the sort-and-cut that ends every search in pkg/index and in pkg/store/memory.go. Hits with equal scores
 may come in any order.
 */
module Ranking {
  import opened Scans

  datatype Hit = Hit(id: string, score: real)

  ghost predicate Descending(r: seq<Hit>) {
    forall i, j :: 0 <= i < j < |r| ==> r[i].score >= r[j].score
  }

  /** r ranks k hits of all, or all of them if there are fewer, and leaves out none with a higher score. */
  ghost predicate IsTopK(all: set<Hit>, k: nat, r: seq<Hit>) {
    && Distinct(r) && Descending(r)
    && (forall i :: 0 <= i < |r| ==> r[i] in all)
    && |r| == (if |all| < k then |all| else k)
    && forall h, i :: h in all && h !in r && 0 <= i < |r| ==> h.score <= r[i].score
  }

  /** r is what a cut leaves of the hits when they are sorted. A hit that is listed twice counts twice. */
  ghost predicate Ranks(hits: seq<Hit>, k: nat, r: seq<Hit>) {
    exists sorted, perm :: Rearranged(hits, sorted, perm) && Descending(sorted)
                           && r == if |sorted| > k then sorted[..k] else sorted
  }

  method Sort(hits: seq<Hit>) returns (r: seq<Hit>, ghost perm: seq<nat>)
    ensures Rearranged(hits, r, perm) && Descending(r)
  {
    r, perm := [], [];
    for n := 0 to |hits|
      invariant Rearranged(hits[..n], r, perm) && Descending(r)
    {
      var h := hits[n];
      var i := 0;
      while i < |r| && r[i].score >= h.score
        invariant 0 <= i <= |r|
        invariant forall k :: 0 <= k < i ==> r[k].score >= h.score
      {
        i := i + 1;
      }
      assert hits[..n + 1] == hits[..n] + [h];
      InsertRearranged(hits[..n], h, r, perm, i);
      InsertSorted(r, i, h);
      r, perm := r[..i] + [h] + r[i..], perm[..i] + [n] + perm[i..];
    }
    assert hits[..|hits|] == hits;
  }

  lemma InsertSorted(r: seq<Hit>, i: nat, h: Hit)
    requires Descending(r) && i <= |r|
    requires forall k :: 0 <= k < i ==> r[k].score >= h.score
    requires i < |r| ==> r[i].score < h.score
    ensures Descending(r[..i] + [h] + r[i..])
  {
    var q := r[..i] + [h] + r[i..];
    assert forall k :: i <= k < |r| ==> r[k].score < h.score;
    assert forall k :: 0 <= k < |q| ==> q[k] == if k < i then r[k] else if k == i then h else r[k - 1];
  }

  lemma CutIsTopK(all: set<Hit>, sorted: seq<Hit>, k: nat)
    requires Lists(sorted, all) && Descending(sorted)
    ensures IsTopK(all, k, if |sorted| > k then sorted[..k] else sorted)
  {
    ListingLength(sorted, all);
    var r := if |sorted| > k then sorted[..k] else sorted;
    forall h, i | h in all && h !in r && 0 <= i < |r|
      ensures h.score <= r[i].score
    {
      var j :| 0 <= j < |sorted| && sorted[j] == h;
      assert forall n :: 0 <= n < |r| ==> r[n] == sorted[n] && r[n] in r;
    }
  }

  /** When no hit is listed twice, a ranking of the list is one of the set. */
  lemma RanksIsTopK(hits: seq<Hit>, k: nat, r: seq<Hit>)
    requires Distinct(hits) && Ranks(hits, k, r)
    ensures IsTopK((set h | h in hits), k, r)
  {
    var sorted, perm :| Rearranged(hits, sorted, perm) && Descending(sorted)
                        && r == if |sorted| > k then sorted[..k] else sorted;
    RearrangedLists(hits, sorted, perm);
    CutIsTopK((set h | h in hits), sorted, k);
  }

  method SortAndCut(hits: seq<Hit>, topK: nat) returns (r: seq<Hit>)
    ensures Ranks(hits, topK, r)
    ensures Distinct(hits) ==> IsTopK((set h | h in hits), topK, r)
  {
    ghost var perm;
    r, perm := Sort(hits);
    if |r| > topK {
      r := r[..topK];
    }
    if Distinct(hits) {
      RanksIsTopK(hits, topK, r);
    }
  }

  // ----- The scores are determined -----

  ghost function Elements(r: seq<Hit>, n: nat): (s: set<Hit>)
    requires n <= |r|
  {
    set i | 0 <= i < n :: r[i]
  }

  lemma {:induction false} ElementCount(r: seq<Hit>, n: nat)
    requires n <= |r|
    ensures |Elements(r, n)| <= n
    ensures Distinct(r) ==> |Elements(r, n)| == n
  {
    if n > 0 {
      ElementCount(r, n - 1);
      assert Elements(r, n) == Elements(r, n - 1) + {r[n - 1]};
    } else {
      assert Elements(r, n) == {};
    }
  }

  /** Two rankings of the same hits cannot differ first at i with the higher score in r. */
  lemma NoHigher(all: set<Hit>, k: nat, r: seq<Hit>, q: seq<Hit>, i: nat)
    requires IsTopK(all, k, r) && IsTopK(all, k, q) && i < |r|
    ensures r[i].score <= q[i].score
  {
    if r[i].score > q[i].score {
      var high := Elements(r, i + 1);
      forall h | h in high
        ensures h in Elements(q, i)
      {
        assert h.score >= r[i].score && h in all;
        assert h in q;
        var j :| 0 <= j < |q| && q[j] == h;
      }
      ElementCount(r, i + 1);
      ElementCount(q, i);
      SubsetSize(high, Elements(q, i));
    }
  }

  /** Main result: all rankings of the same hits show the same scores. */
  lemma SameScores(all: set<Hit>, k: nat, r: seq<Hit>, q: seq<Hit>)
    requires IsTopK(all, k, r) && IsTopK(all, k, q)
    ensures |r| == |q| && forall i :: 0 <= i < |r| ==> r[i].score == q[i].score
  {
    forall i | 0 <= i < |r|
      ensures r[i].score == q[i].score
    {
      NoHigher(all, k, r, q, i);
      NoHigher(all, k, q, r, i);
    }
  }

  ghost function Positive(all: set<Hit>): set<Hit> {
    set h | h in all && h.score > 0.0
  }

  /** Number of leading hits with a positive score. */
  function PositiveCount(r: seq<Hit>): (n: nat)
    ensures n <= |r| && forall i :: 0 <= i < n ==> r[i].score > 0.0
    ensures n < |r| ==> r[n].score <= 0.0
  {
    if r == [] || r[0].score <= 0.0 then 0 else 1 + PositiveCount(r[1..])
  }

  lemma FullRankingListsAll(all: set<Hit>, k: nat, r: seq<Hit>)
    requires IsTopK(all, k, r) && |r| == |all|
    ensures forall h :: h in all ==> h in r
  {
    ElementCount(r, |r|);
    assert Elements(r, |r|) <= all;
    SubsetSize(Elements(r, |r|), all);
    assert forall h :: h in Elements(r, |r|) ==> h in r;
  }

  lemma PositivePrefix(r: seq<Hit>)
    requires Descending(r)
    ensures forall h :: h in r[..PositiveCount(r)] <==> h in r && h.score > 0.0
  {
    var n := PositiveCount(r);
    assert forall i :: n <= i < |r| ==> r[i].score <= r[n].score;
    assert forall i :: 0 <= i < n ==> r[..n][i] == r[i];
    forall h | h in r && h.score > 0.0
      ensures h in r[..n]
    {
      var i :| 0 <= i < |r| && r[i] == h;
      assert r[..n][i] == h;
    }
  }

  lemma PositiveSize(all: set<Hit>, k: nat, r: seq<Hit>)
    requires IsTopK(all, k, r)
    ensures PositiveCount(r) == if |Positive(all)| < k then |Positive(all)| else k
  {
    var n, positives := PositiveCount(r), Positive(all);
    PositivePrefix(r);
    ElementCount(r, n);
    assert forall h :: h in Elements(r, n) <==> h in r[..n];
    assert Elements(r, n) <= positives;
    SubsetSize(Elements(r, n), positives);
    if forall h :: h in positives ==> h in r {
      assert positives == Elements(r, n);
    } else {
      var h :| h in positives && h !in r;
      if |r| == |all| {
        FullRankingListsAll(all, k, r);
      }
    }
  }

  /** Ranking first and dropping non-positive scores afterwards is a ranking of the positive hits. */
  lemma PositivesOfTopK(all: set<Hit>, k: nat, r: seq<Hit>)
    requires IsTopK(all, k, r)
    ensures IsTopK(Positive(all), k, r[..PositiveCount(r)])
    ensures forall h :: h in r[..PositiveCount(r)] <==> h in r && h.score > 0.0
  {
    PositivePrefix(r);
    PositiveSize(all, k, r);
  }
}

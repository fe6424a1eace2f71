/**
 Iteration over the contents of a set or a map. A Badger prefix scan runs in key order and a Go map range in random
 order; a listing fixes no order, so whatever is proved about a loop over it holds for every order.
 */
module Scans {

  ghost predicate Distinct<T>(q: seq<T>) {
    forall i, j :: 0 <= i < j < |q| ==> q[i] != q[j]
  }

  ghost predicate Lists<T>(q: seq<T>, s: set<T>) {
    Distinct(q) && (forall i :: 0 <= i < |q| ==> q[i] in s) && (forall x :: x in s ==> x in q)
  }

  method Listing<T(==)>(s: set<T>) returns (q: seq<T>)
    ensures Lists(q, s)
  {
    q := [];
    var rest := s;
    while rest != {}
      invariant rest <= s && Lists(q, s - rest)
      decreases rest
    {
      var x :| x in rest;
      q := q + [x];
      rest := rest - {x};
    }
  }

  lemma {:induction false} ListingLength<T>(q: seq<T>, s: set<T>)
    requires Lists(q, s)
    ensures |q| == |s|
    decreases |q|
  {
    if q == [] {
      assert s == {};
    } else {
      var last := q[|q| - 1];
      var front := q[..|q| - 1];
      forall x | x in s - {last}
        ensures x in front
      {
        var i :| 0 <= i < |q| && q[i] == x;
        assert front[i] == x;
      }
      ListingLength(front, s - {last});
    }
  }

  lemma SubsetSize<T>(a: set<T>, b: set<T>)
    requires a <= b
    ensures |a| <= |b|
    ensures |a| == |b| ==> a == b
  {
    assert b == a + (b - a);
    assert |b| == |a| + |b - a|;
  }

  /** Visiting one more key of a map. */
  lemma OneFewerLeft<K, V>(m: map<K, V>, rest: set<K>, key: K)
    requires key in rest && key in m
    ensures m - (rest - {key}) == (m - rest)[key := m[key]]
  {
  }

  /** An injective function keeps the size of a set. */
  lemma {:induction false} ImageSize<A, B>(a: set<A>, f: A -> B, b: set<B>)
    requires b == set x | x in a :: f(x)
    requires forall x, y :: x in a && y in a && f(x) == f(y) ==> x == y
    ensures |b| == |a|
    decreases a
  {
    if a == {} {
      assert b == {};
    } else {
      var x :| x in a;
      var rest := set y | y in a - {x} :: f(y);
      ImageSize(a - {x}, f, rest);
      assert f(x) !in rest;
      assert b == rest + {f(x)};
    }
  }

  // ----- Rearranging a sequence -----

  /** ys holds what xs holds in another order: perm says in which. */
  ghost predicate Rearranged<T>(xs: seq<T>, ys: seq<T>, perm: seq<nat>) {
    && |ys| == |xs| == |perm| && Distinct(perm)
    && forall i :: 0 <= i < |perm| ==> perm[i] < |xs| && ys[i] == xs[perm[i]]
  }

  /** Inserting one more element into a rearranged sequence, at any place. */
  lemma InsertRearranged<T>(xs: seq<T>, x: T, ys: seq<T>, perm: seq<nat>, i: nat)
    requires Rearranged(xs, ys, perm) && i <= |ys|
    ensures Rearranged(xs + [x], ys[..i] + [x] + ys[i..], perm[..i] + [|xs|] + perm[i..])
  {
    var zs, more := ys[..i] + [x] + ys[i..], perm[..i] + [|xs|] + perm[i..];
    forall k | 0 <= k < |more|
      ensures more[k] == if k < i then perm[k] else if k == i then |xs| else perm[k - 1]
      ensures more[k] < |xs| + 1 && zs[k] == (xs + [x])[more[k]]
    {
    }
  }

  ghost function Below(n: nat): (below: set<nat>)
    ensures |below| == n && forall i: nat :: i in below <==> i < n
  {
    if n == 0 then {} else Below(n - 1) + {n - 1}
  }

  /** Distinct numbers below n are at most n. */
  lemma AtMostBelow(perm: seq<nat>, n: nat)
    requires Distinct(perm) && forall i :: 0 <= i < |perm| ==> perm[i] < n
    ensures |perm| <= n
    ensures |perm| == n ==> forall j: nat :: j < n ==> j in perm
  {
    var listed := set i | 0 <= i < |perm| :: perm[i];
    ListingLength(perm, listed);
    SubsetSize(listed, Below(n));
  }

  lemma RearrangedLists<T>(xs: seq<T>, ys: seq<T>, perm: seq<nat>)
    requires Distinct(xs) && Rearranged(xs, ys, perm)
    ensures Lists(ys, set x | x in xs)
  {
    AtMostBelow(perm, |xs|);
    forall x | x in xs
      ensures x in ys
    {
      var j: nat :| j < |xs| && xs[j] == x;
      assert j in perm;
      var i :| 0 <= i < |perm| && perm[i] == j;
      assert ys[i] == x;
    }
  }
}

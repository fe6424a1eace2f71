/**
 Numbered groups of IDs: the groups of pkg/index/ivf.go and the buckets of one hash table of pkg/index/lsh.go. The home
 of an ID is the group its vector belongs to.
 */
module IdGroups {
  import opened Scans

  type Groups = map<nat, seq<string>>

  function Members(groups: Groups, c: nat): seq<string> {
    if c in groups then groups[c] else []
  }

  /** Every ID is in the list of its home, once, and in no other list; the lists hold nothing else. */
  ghost predicate Partition(groups: Groups, homes: map<string, nat>) {
    && (forall c: nat :: Distinct(Members(groups, c)))
    && (forall c: nat, id :: id in Members(groups, c) <==> id in homes && homes[id] == c)
  }

  function Appended(groups: Groups, c: nat, id: string): Groups {
    groups[c := Members(groups, c) + [id]]
  }

  lemma MembersAppended(groups: Groups, c: nat, id: string, d: nat)
    ensures Members(Appended(groups, c, id), d) == Members(groups, d) + if d == c then [id] else []
  {
  }

  lemma AppendDistinct<T>(xs: seq<T>, ys: seq<T>)
    requires Distinct(xs) && Distinct(ys) && forall x :: x in xs ==> x !in ys
    ensures Distinct(xs + ys)
  {
    var all := xs + ys;
    forall i, j | 0 <= i < j < |all|
      ensures all[i] != all[j]
    {
      if i < |xs| <= j {
        assert all[i] in xs && all[j] == ys[j - |xs|];
      }
    }
  }

  lemma FreshKeepsPartition(groups: Groups, homes: map<string, nat>, c: nat, id: string)
    requires Partition(groups, homes) && id !in homes
    ensures Partition(Appended(groups, c, id), homes[id := c])
  {
    forall d: nat
      ensures Distinct(Members(Appended(groups, c, id), d))
      ensures forall x :: x in Members(Appended(groups, c, id), d) <==> x in homes[id := c] && homes[id := c][x] == d
    {
      MembersAppended(groups, c, id, d);
      assert Distinct(Members(groups, d)) && id !in Members(groups, d);
      AppendDistinct(Members(groups, d), if d == c then [id] else []);
    }
  }

  lemma ReuseBreaksPartition(groups: Groups, homes: map<string, nat>, c: nat, id: string)
    requires Partition(groups, homes) && id in homes
    ensures !Partition(Appended(groups, c, id), homes[id := c])
  {
    var before, after := Members(groups, homes[id]), Members(Appended(groups, c, id), homes[id]);
    MembersAppended(groups, c, id, homes[id]);
    assert id in before;
    var i :| 0 <= i < |before| && before[i] == id;
    assert after[i] == id;
    if homes[id] == c {
      assert after[i] == after[|before|];
      assert !Distinct(after);
    } else {
      assert id in Members(Appended(groups, c, id), homes[id]) && homes[id := c][id] != homes[id];
    }
  }

  /** Main result: an insert keeps every ID in its one place exactly when the ID is new. */
  lemma InsertPartitionsExactly(groups: Groups, homes: map<string, nat>, c: nat, id: string)
    requires Partition(groups, homes)
    ensures Partition(Appended(groups, c, id), homes[id := c]) <==> id !in homes
  {
    if id in homes {
      ReuseBreaksPartition(groups, homes, c, id);
    } else {
      FreshKeepsPartition(groups, homes, c, id);
    }
  }

  lemma InsertIntoPartition(groups: Groups, homes: map<string, nat>, c: nat, id: string)
    ensures Partition(groups, homes) ==> (Partition(Appended(groups, c, id), homes[id := c]) <==> id !in homes)
  {
    if Partition(groups, homes) {
      InsertPartitionsExactly(groups, homes, c, id);
    }
  }

  // ----- Removal -----

  /** The list without the first occurrence of id. */
  function RemoveFirst(ids: seq<string>, id: string): seq<string> {
    if ids == [] then []
    else if ids[0] == id then ids[1..]
    else [ids[0]] + RemoveFirst(ids[1..], id)
  }

  lemma {:induction false} RemoveFirstOfDistinct(ids: seq<string>, id: string)
    requires Distinct(ids)
    ensures Distinct(RemoveFirst(ids, id))
    ensures forall x :: x in RemoveFirst(ids, id) <==> x in ids && x != id
    decreases |ids|
  {
    if ids != [] {
      var tail := ids[1..];
      assert ids == [ids[0]] + tail;
      assert forall i :: 0 <= i < |tail| ==> tail[i] == ids[i + 1];
      assert ids[0] !in tail;
      if ids[0] != id {
        RemoveFirstOfDistinct(tail, id);
        AppendDistinct([ids[0]], RemoveFirst(tail, id));
      }
    }
  }

  lemma {:induction false} RemoveFirstKeepsOthers(ids: seq<string>, id: string, x: string)
    requires x in ids && x != id
    ensures x in RemoveFirst(ids, id)
  {
    if ids[0] != id && x != ids[0] {
      RemoveFirstKeepsOthers(ids[1..], id, x);
    }
  }

  /** The groups with the first occurrence of id taken out of every list but the excepted ones. */
  function RemovedExcept(groups: Groups, excepted: set<nat>, id: string): Groups {
    map c | c in groups :: if c in excepted then groups[c] else RemoveFirst(groups[c], id)
  }

  lemma MembersRemoved(groups: Groups, id: string, c: nat)
    requires Distinct(Members(groups, c))
    ensures Distinct(Members(RemovedExcept(groups, {}, id), c))
    ensures forall x :: x in Members(RemovedExcept(groups, {}, id), c) <==> x in Members(groups, c) && x != id
  {
    RemoveFirstOfDistinct(Members(groups, c), id);
    assert Members(RemovedExcept(groups, {}, id), c) == RemoveFirst(Members(groups, c), id);
  }

  lemma RemoveKeepsPartition(groups: Groups, homes: map<string, nat>, id: string)
    requires Partition(groups, homes)
    ensures Partition(RemovedExcept(groups, {}, id), homes - {id})
  {
    forall c: nat
      ensures Distinct(Members(RemovedExcept(groups, {}, id), c))
    {
      MembersRemoved(groups, id, c);
    }
    forall c: nat, x
      ensures x in Members(RemovedExcept(groups, {}, id), c) <==> x in homes - {id} && (homes - {id})[x] == c
    {
      MembersRemoved(groups, id, c);
    }
  }

  lemma {:induction false} RemoveFirstAfter(prefix: seq<string>, ids: seq<string>, id: string)
    requires id !in prefix
    ensures RemoveFirst(prefix + ids, id) == prefix + RemoveFirst(ids, id)
  {
    if prefix == [] {
      assert prefix + ids == ids;
    } else {
      assert (prefix + ids)[1..] == prefix[1..] + ids;
      assert prefix == [prefix[0]] + prefix[1..];
      RemoveFirstAfter(prefix[1..], ids, id);
    }
  }

  method CutOut(ids: seq<string>, id: string) returns (r: seq<string>)
    ensures r == RemoveFirst(ids, id)
  {
    for i := 0 to |ids|
      invariant id !in ids[..i]
    {
      if ids[i] == id {
        RemoveFirstAfter(ids[..i], ids[i..], id);
        assert ids[..i] + ids[i..] == ids && ids[i..][1..] == ids[i + 1..];
        return ids[..i] + ids[i + 1..];
      }
      assert ids[..i + 1] == ids[..i] + [ids[i]];
    }
    RemoveFirstAfter(ids, [], id);
    assert ids + [] == ids && ids[..|ids|] == ids;
    return ids;
  }

  // ----- The order of the clusters -----

  ghost predicate InOrder(scores: seq<real>, order: seq<nat>) {
    && (forall k :: 0 <= k < |order| ==> order[k] < |scores|)
    && forall j, k :: 0 <= j < k < |order| ==> scores[order[j]] <= scores[order[k]]
  }

  lemma InsertInOrder(scores: seq<real>, order: seq<nat>, i: nat, c: nat)
    requires InOrder(scores, order) && i <= |order| && c < |scores|
    requires forall k :: 0 <= k < i ==> scores[order[k]] <= scores[c]
    requires i < |order| ==> scores[order[i]] > scores[c]
    ensures InOrder(scores, order[..i] + [c] + order[i..])
  {
    var q := order[..i] + [c] + order[i..];
    assert forall k :: 0 <= k < |q| ==> q[k] == if k < i then order[k] else if k == i then c else order[k - 1];
  }

  lemma InsertNew(order: seq<nat>, i: nat, c: nat)
    requires Distinct(order) && i <= |order| && c !in order
    ensures
      var q := order[..i] + [c] + order[i..];
      Distinct(q) && forall d: nat :: d in q <==> d == c || d in order
  {
    var q := order[..i] + [c] + order[i..];
    assert q[i] == c && order == order[..i] + order[i..];
    assert forall k :: 0 <= k < |q| ==> q[k] == if k < i then order[k] else if k == i then c else order[k - 1];
  }

  /** The numbers of the scores in ascending order of score. */
  method Ascending(scores: seq<real>) returns (order: seq<nat>)
    ensures Distinct(order) && |order| == |scores|
    ensures forall d: nat :: d in order <==> d < |scores|
    ensures InOrder(scores, order)
  {
    order := [];
    for c := 0 to |scores|
      invariant |order| == c && Distinct(order)
      invariant forall d: nat :: d in order <==> d < c
      invariant InOrder(scores, order)
    {
      var i := 0;
      while i < |order| && scores[order[i]] <= scores[c]
        invariant 0 <= i <= |order|
        invariant forall k :: 0 <= k < i ==> scores[order[k]] <= scores[c]
      {
        i := i + 1;
      }
      InsertInOrder(scores, order, i, c);
      InsertNew(order, i, c);
      order := order[..i] + [c] + order[i..];
    }
  }

  /** cs are the n numbers with the least scores, least first; all numbers if there are fewer. */
  ghost predicate LeastFirst(scores: seq<real>, n: nat, cs: seq<nat>) {
    && Distinct(cs) && |cs| == (if |scores| < n then |scores| else n)
    && (forall i :: 0 <= i < |cs| ==> cs[i] < |scores|)
    && (forall i, j :: 0 <= i < j < |cs| ==> scores[cs[i]] <= scores[cs[j]])
    && forall c: nat :: c < |scores| && c !in cs ==> n < |scores| && forall i :: 0 <= i < |cs| ==>
         scores[cs[i]] <= scores[c]
  }

  lemma FrontIsLeast(scores: seq<real>, order: seq<nat>, k: nat, c: nat)
    requires InOrder(scores, order) && k <= |order| && c in order && c !in order[..k]
    ensures k < |order| && forall i :: 0 <= i < k ==> scores[order[i]] <= scores[c]
  {
    var j :| 0 <= j < |order| && order[j] == c;
    assert forall i :: 0 <= i < k ==> order[..k][i] == order[i];
  }

  method TakeLeast(scores: seq<real>, n: nat) returns (cs: seq<nat>)
    ensures LeastFirst(scores, n, cs)
  {
    var order := Ascending(scores);
    cs := order[..if n > |order| then |order| else n];
    forall c: nat | c < |scores| && c !in cs
      ensures n < |scores| && forall i :: 0 <= i < |cs| ==> scores[cs[i]] <= scores[c]
    {
      FrontIsLeast(scores, order, |cs|, c);
    }
  }
}

/**
 Paths and distances in a finite directed graph given as a set of links. The graph traversals are specified in these
 terms.
 */
module Reachability {

  type Graph = set<(string, string)>

  ghost predicate IsPath(links: Graph, p: seq<string>) {
    p != [] && forall i :: 0 <= i < |p| - 1 ==> (p[i], p[i + 1]) in links
  }

  ghost predicate Connects(links: Graph, p: seq<string>, a: string, b: string) {
    IsPath(links, p) && p[0] == a && p[|p| - 1] == b
  }

  /** b is at most d links away from a. */
  ghost predicate Within(links: Graph, a: string, d: nat, b: string) {
    if d == 0 then a == b
    else Within(links, a, d - 1, b) || exists c :: Within(links, a, d - 1, c) && (c, b) in links
  }

  ghost predicate Reachable(links: Graph, a: string, b: string) {
    exists d :: Within(links, a, d, b)
  }

  lemma {:induction false} WithinMonotone(links: Graph, a: string, d: nat, e: nat, b: string)
    requires d <= e && Within(links, a, d, b)
    ensures Within(links, a, e, b)
    decreases e
  {
    if d < e {
      WithinMonotone(links, a, d, e - 1, b);
    }
  }

  lemma {:induction false} PathGivesWithin(links: Graph, p: seq<string>)
    requires IsPath(links, p)
    ensures Within(links, p[0], |p| - 1, p[|p| - 1])
    decreases |p|
  {
    if |p| > 1 {
      PathGivesWithin(links, p[..|p| - 1]);
    }
  }

  lemma {:induction false} WithinGivesPath(links: Graph, a: string, d: nat, b: string) returns (p: seq<string>)
    requires Within(links, a, d, b)
    ensures Connects(links, p, a, b) && |p| <= d + 1
  {
    if d == 0 {
      p := [a];
    } else if Within(links, a, d - 1, b) {
      p := WithinGivesPath(links, a, d - 1, b);
    } else {
      var c :| Within(links, a, d - 1, c) && (c, b) in links;
      var q := WithinGivesPath(links, a, d - 1, c);
      p := q + [b];
    }
  }

  /** Distances are lengths of shortest paths. */
  lemma WithinIffShortPath(links: Graph, a: string, d: nat, b: string)
    ensures Within(links, a, d, b) <==> exists p :: Connects(links, p, a, b) && |p| <= d + 1
  {
    if Within(links, a, d, b) {
      var p := WithinGivesPath(links, a, d, b);
    }
    if p :| Connects(links, p, a, b) && |p| <= d + 1 {
      PathGivesWithin(links, p);
      WithinMonotone(links, a, |p| - 1, d, b);
    }
  }

  /** A set that contains a and is closed under links contains everything reachable from a. */
  lemma {:induction false} ClosedContainsWithin(links: Graph, a: string, d: nat, b: string, closed: set<string>)
    requires a in closed && forall x, y :: x in closed && (x, y) in links ==> y in closed
    requires Within(links, a, d, b)
    ensures b in closed
  {
    if d > 0 {
      if Within(links, a, d - 1, b) {
        ClosedContainsWithin(links, a, d - 1, b, closed);
      } else {
        var c :| Within(links, a, d - 1, c) && (c, b) in links;
        ClosedContainsWithin(links, a, d - 1, c, closed);
      }
    }
  }

  /** Once a step adds nothing, no later step does. */
  lemma {:induction false} Saturated(links: Graph, a: string, d: nat, e: nat, b: string)
    requires d <= e && Within(links, a, e, b)
    requires forall c :: Within(links, a, d + 1, c) ==> Within(links, a, d, c)
    ensures Within(links, a, d, b)
    decreases e
  {
    if d < e {
      if Within(links, a, e - 1, b) {
        Saturated(links, a, d, e - 1, b);
      } else {
        var c :| Within(links, a, e - 1, c) && (c, b) in links;
        Saturated(links, a, d, e - 1, c);
        assert Within(links, a, d + 1, b);
      }
    }
  }
}

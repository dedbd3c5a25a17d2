/** Reachability along a successor function, and what a closed set says about it. */
module Reachability {
  type Graph = string -> set<string>

  ghost predicate IsPath(succ: Graph, p: seq<string>) {
    p != [] && forall i :: 0 < i < |p| ==> p[i] in succ(p[i - 1])
  }

  ghost predicate Reachable(succ: Graph, roots: set<string>, x: string) {
    exists p :: IsPath(succ, p) && p[0] in roots && p[|p| - 1] == x
  }

  lemma {:induction false} RootIsReachable(succ: Graph, roots: set<string>, x: string)
    requires x in roots
    ensures Reachable(succ, roots, x)
  {
    assert IsPath(succ, [x]);
  }

  lemma {:induction false} SuccessorIsReachable(succ: Graph, roots: set<string>, x: string, y: string)
    requires Reachable(succ, roots, x) && y in succ(x)
    ensures Reachable(succ, roots, y)
  {
    var p :| IsPath(succ, p) && p[0] in roots && p[|p| - 1] == x;
    assert IsPath(succ, p + [y]) && (p + [y])[0] in roots && (p + [y])[|p|] == y;
  }

  ghost predicate Closed(succ: Graph, s: set<string>) {
    forall x :: x in s ==> succ(x) <= s
  }

  lemma {:induction false} PathStaysInside(succ: Graph, s: set<string>, p: seq<string>)
    requires Closed(succ, s) && IsPath(succ, p) && p[0] in s
    ensures p[|p| - 1] in s
  {
    if |p| > 1 {
      var init := p[..|p| - 1];
      assert IsPath(succ, init);
      PathStaysInside(succ, s, init);
      assert p[|p| - 1] in succ(init[|init| - 1]);
    }
  }

  /** A closed set with the roots holds everything reachable from them: the reachable set is the least one. */
  lemma {:induction false} ReachableIsLeast(succ: Graph, roots: set<string>, s: set<string>, x: string)
    requires Closed(succ, s) && roots <= s && Reachable(succ, roots, x)
    ensures x in s
  {
    var p :| IsPath(succ, p) && p[0] in roots && p[|p| - 1] == x;
    PathStaysInside(succ, s, p);
  }
}

/**
 Graphs as vertex-adjacency maps, walks along their edges, and the
 reachability relation they induce. This is the specification side of the
 island partition: an island is a set of vertices that is exactly what can
 be reached from any one of its members.
 */
module Reachability {

  /** Each key is a vertex index; its value is the set of its neighbours. */
  type Graph = map<int, set<int>>

  /** Every edge is recorded in both directions, and every neighbour is itself a vertex. */
  ghost predicate Symmetric(g: Graph)
  {
    forall v, w {:trigger w in g[v]} :: v in g && w in g[v] ==> w in g && v in g[w]
  }

  /** A non-empty sequence of vertices, each one a neighbour of the one before it. */
  ghost predicate IsWalk(g: Graph, p: seq<int>)
  {
    |p| > 0 && forall k :: 0 <= k < |p| - 1 ==> p[k] in g && p[k + 1] in g[p[k]]
  }

  /** Some walk starts at u and ends at v. */
  ghost predicate Reachable(g: Graph, u: int, v: int)
  {
    exists p :: IsWalk(g, p) && p[0] == u && p[|p| - 1] == v
  }

  /** No edge leaves s. */
  ghost predicate ClosedUnder(g: Graph, s: set<int>)
  {
    forall v, w {:trigger w in g[v]} :: v in s && v in g && w in g[v] ==> w in s
  }

  /** From any member of s, exactly the members of s can be reached. */
  ghost predicate IsComponent(g: Graph, s: set<int>)
  {
    forall u, v {:trigger Reachable(g, u, v)} :: u in s ==> (v in s <==> Reachable(g, u, v))
  }

  /** A non-empty set has a member (the solver is not told so without a case split). */
  lemma NonEmptyHasMember(s: set<int>)
    requires s != {}
    ensures exists x :: x in s
  {
    if forall x :: x !in s {
      assert false;
    }
  }

  /** A non-empty map has a key. */
  lemma NonEmptyHasKey(m: Graph)
    requires m != map[]
    ensures exists x :: x in m
  {
    if forall x :: x !in m {
      assert false;
    }
  }

  lemma ReachableRefl(g: Graph, u: int)
    ensures Reachable(g, u, u)
  {
    assert IsWalk(g, [u]);
  }

  /** A walk can be extended by one edge at its end. */
  lemma ReachableStep(g: Graph, u: int, v: int, w: int)
    requires Reachable(g, u, v) && v in g && w in g[v]
    ensures Reachable(g, u, w)
  {
    var p :| IsWalk(g, p) && p[0] == u && p[|p| - 1] == v;
    var q := p + [w];
    forall k | 0 <= k < |q| - 1
      ensures q[k] in g && q[k + 1] in g[q[k]]
    {
      if k < |p| - 1 {
        assert q[k] == p[k] && q[k + 1] == p[k + 1];
      } else {
        assert q[k] == v && q[k + 1] == w;
      }
    }
    assert IsWalk(g, q) && q[0] == u && q[|q| - 1] == w;
  }

  /** In a symmetric graph a walk can be read backwards. */
  lemma ReachableSymmetric(g: Graph, u: int, v: int)
    requires Symmetric(g) && Reachable(g, u, v)
    ensures Reachable(g, v, u)
  {
    var p :| IsWalk(g, p) && p[0] == u && p[|p| - 1] == v;
    var r := seq(|p|, k requires 0 <= k < |p| => p[|p| - 1 - k]);
    forall k | 0 <= k < |r| - 1
      ensures r[k] in g && r[k + 1] in g[r[k]]
    {
      var m := |p| - 2 - k;
      assert p[m] in g && p[m + 1] in g[p[m]];
      assert r[k] == p[m + 1] && r[k + 1] == p[m];
    }
    assert IsWalk(g, r) && r[0] == v && r[|r| - 1] == u;
  }

  /** Two walks that meet can be joined. */
  lemma ReachableTransitive(g: Graph, u: int, v: int, w: int)
    requires Reachable(g, u, v) && Reachable(g, v, w)
    ensures Reachable(g, u, w)
  {
    var p :| IsWalk(g, p) && p[0] == u && p[|p| - 1] == v;
    var q :| IsWalk(g, q) && q[0] == v && q[|q| - 1] == w;
    var r := p + q[1..];
    forall k | 0 <= k < |r| - 1
      ensures r[k] in g && r[k + 1] in g[r[k]]
    {
      if k < |p| - 1 {
        assert r[k] == p[k] && r[k + 1] == p[k + 1];
      } else {
        var m := k - (|p| - 1);
        assert r[k] == q[m] && r[k + 1] == q[m + 1];
      }
    }
    assert r[|r| - 1] == w by {
      if |q| == 1 { assert r == p; } else { assert r[|r| - 1] == q[|q| - 1]; }
    }
    assert IsWalk(g, r) && r[0] == u;
  }

  lemma {:induction false} WalkStaysInClosed(g: Graph, s: set<int>, p: seq<int>, k: nat)
    requires ClosedUnder(g, s) && IsWalk(g, p) && p[0] in s && k < |p|
    ensures p[k] in s
  {
    if k > 0 {
      WalkStaysInClosed(g, s, p, k - 1);
      var v, w := p[k - 1], p[k];
      assert v in s && v in g && w in g[v];
    }
  }

  /** A set no edge leaves holds everything reachable from its members. */
  lemma ClosedContainsReachable(g: Graph, s: set<int>, u: int, v: int)
    requires ClosedUnder(g, s) && u in s && Reachable(g, u, v)
    ensures v in s
  {
    var p :| IsWalk(g, p) && p[0] == u && p[|p| - 1] == v;
    WalkStaysInClosed(g, s, p, |p| - 1);
  }

  /** A vertex without neighbours reaches only itself. */
  lemma IsolatedReachesOnlyItself(g: Graph, v: int, w: int)
    requires v in g && g[v] == {} && Reachable(g, v, w)
    ensures w == v
  {
    ClosedContainsReachable(g, {v}, v, w);
  }
}

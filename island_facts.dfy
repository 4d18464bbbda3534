/**
 Consequences of the island partition's specification. Every lemma here is
 about any list of islands that satisfies IsIslandPartition, so it holds of
 whatever FindIslands returns, whichever seeds it happened to pick.
 */
module IslandFacts {
  import opened Reachability
  import opened UniformTextures

  /** Every vertex lies in exactly one island. */
  lemma EveryVertexInExactlyOneIsland(g: Graph, parts: seq<set<int>>, v: int)
    requires IsIslandPartition(g, parts) && v in g
    ensures exists j :: 0 <= j < |parts| && v in parts[j]
    ensures forall j, k :: 0 <= j < |parts| && 0 <= k < |parts| && v in parts[j] && v in parts[k] ==> j == k
  {
    InUnionOf(parts, v);
  }

  /** Vertices joined by a walk land in the same island. */
  lemma ConnectedSameIsland(g: Graph, parts: seq<set<int>>, u: int, v: int)
    requires Symmetric(g) && IsIslandPartition(g, parts) && Reachable(g, u, v)
    ensures forall j :: 0 <= j < |parts| ==> (u in parts[j] <==> v in parts[j])
  {
    ReachableSymmetric(g, u, v);
    forall j | 0 <= j < |parts|
      ensures u in parts[j] <==> v in parts[j]
    {
      assert IsComponent(g, parts[j]);
    }
  }

  /** A walk can be extended along any mesh edge, in either direction. */
  lemma AlongEdge(n: nat, edges: seq<Edge>, k: int, u: int, a: int, b: int)
    requires ValidEdges(n, edges) && 0 <= k < |edges| && Joins(edges[k], a, b)
    requires Reachable(AdjacencyOf(n, edges), u, a)
    ensures Reachable(AdjacencyOf(n, edges), u, b)
  {
    var g := AdjacencyOf(n, edges);
    assert HasEdge(edges, a, b);
    ReachableStep(g, u, a, b);
  }

  /** Both endpoints of every mesh edge land in the same island. */
  lemma EdgeEndpointsShareIsland(n: nat, edges: seq<Edge>, parts: seq<set<int>>, k: int)
    requires ValidEdges(n, edges) && IsIslandPartition(AdjacencyOf(n, edges), parts)
    requires 0 <= k < |edges|
    ensures forall j :: 0 <= j < |parts| ==> (edges[k].0 in parts[j] <==> edges[k].1 in parts[j])
  {
    var g := AdjacencyOf(n, edges);
    var (a, b) := edges[k];
    ReachableRefl(g, a);
    AlongEdge(n, edges, k, a, a, b);
    ConnectedSameIsland(g, parts, a, b);
  }

  /** A vertex with no incident edge is an island on its own. */
  lemma IsolatedVertexIsSingleton(g: Graph, parts: seq<set<int>>, v: int)
    requires IsIslandPartition(g, parts) && v in g && g[v] == {}
    ensures forall j :: 0 <= j < |parts| && v in parts[j] ==> parts[j] == {v}
  {
    forall j, w | 0 <= j < |parts| && v in parts[j] && w in parts[j]
      ensures w == v
    {
      assert IsComponent(g, parts[j]);
      IsolatedReachesOnlyItself(g, v, w);
    }
  }

  /** Disjoint islands of one vertex each cover as many vertices as there are islands. */
  lemma {:induction false} SingletonPartsCount(parts: seq<set<int>>)
    requires PairwiseDisjoint(parts)
    requires forall j :: 0 <= j < |parts| ==> |parts[j]| == 1
    ensures |UnionOf(parts)| == |parts|
  {
    if parts != [] {
      var init, last := parts[..|parts| - 1], parts[|parts| - 1];
      SingletonPartsCount(init);
      forall v | v in UnionOf(init)
        ensures v !in last
      {
        InUnionOf(init, v);
      }
    }
  }

  /** A mesh without edges splits into one singleton island per vertex. */
  lemma NoEdgesAllSingletons(n: nat, parts: seq<set<int>>)
    requires IsIslandPartition(AdjacencyOf(n, []), parts)
    ensures |parts| == n
    ensures forall j :: 0 <= j < |parts| ==> |parts[j]| == 1
  {
    var g := AdjacencyOf(n, []);
    forall j | 0 <= j < |parts|
      ensures |parts[j]| == 1
    {
      NonEmptyHasMember(parts[j]);
      var v :| v in parts[j];
      assert v in g;
      assert g[v] == {};
      IsolatedVertexIsSingleton(g, parts, v);
    }
    SingletonPartsCount(parts);
  }

  /** The island that holds a member of a set is that set, when the set is an island. */
  lemma IslandFoundIn(g: Graph, p1: seq<set<int>>, p2: seq<set<int>>, j: int)
    requires IsIslandPartition(g, p1) && IsIslandPartition(g, p2) && 0 <= j < |p1|
    ensures p1[j] in p2
  {
    NonEmptyHasMember(p1[j]);
    var u :| u in p1[j];
    InUnionOf(p2, u);
    var k :| 0 <= k < |p2| && u in p2[k];
    var a, b := p1[j], p2[k];
    assert IsComponent(g, a) && IsComponent(g, b);
    forall v
      ensures v in a <==> v in b
    {
      assert v in a <==> Reachable(g, u, v);
      assert v in b <==> Reachable(g, u, v);
    }
    assert a == b;
  }

  /**
   The islands are determined by the mesh: two results of the partition hold
   the same islands, whatever seeds were picked and in whatever order.
   */
  lemma IslandsUniqueUpToOrder(g: Graph, p1: seq<set<int>>, p2: seq<set<int>>)
    requires IsIslandPartition(g, p1) && IsIslandPartition(g, p2)
    ensures (set s | s in p1) == (set s | s in p2)
  {
    forall s | s in p1
      ensures s in p2
    {
      var j :| 0 <= j < |p1| && p1[j] == s;
      IslandFoundIn(g, p1, p2, j);
    }
    forall s | s in p2
      ensures s in p1
    {
      var k :| 0 <= k < |p2| && p2[k] == s;
      IslandFoundIn(g, p2, p1, k);
    }
  }

  /** Two places of a partition hold different islands. */
  lemma DistinctIslands(g: Graph, parts: seq<set<int>>, j: int, k: int)
    requires IsIslandPartition(g, parts) && 0 <= j < |parts| && 0 <= k < |parts| && j != k
    ensures parts[j] != parts[k]
  {
    NonEmptyHasMember(parts[j]);
    var v :| v in parts[j];
    if j < k {
      assert parts[j] !! parts[k];
    } else {
      assert parts[k] !! parts[j];
    }
  }

  /** Two partitions of the same graph, both in seed order, agree on their first j islands. */
  lemma {:induction false} SeedOrderedPrefixesAgree(g: Graph, p1: seq<set<int>>, p2: seq<set<int>>, j: nat)
    requires IsIslandPartition(g, p1) && IsIslandPartition(g, p2)
    requires InSeedOrder(p1) && InSeedOrder(p2)
    requires j <= |p1| && j <= |p2|
    ensures forall i :: 0 <= i < j ==> p1[i] == p2[i]
  {
    if j > 0 {
      var i := j - 1;
      SeedOrderedPrefixesAgree(g, p1, p2, i);
      IslandFoundIn(g, p1, p2, i);
      var k :| 0 <= k < |p2| && p2[k] == p1[i];
      if k < i {
        assert p1[k] == p2[k];
        DistinctIslands(g, p1, k, i);
      } else if k > i {
        IslandFoundIn(g, p2, p1, i);
        var l :| 0 <= l < |p1| && p1[l] == p2[i];
        if l < i {
          assert p2[l] == p1[l];
          DistinctIslands(g, p2, l, i);
        } else if l == i {
          DistinctIslands(g, p2, i, k);
        } else {
          // the seed of p1[i] would lie below that of p1[l] == p2[i], which lies below that of p2[k] == p1[i]
          assert false;
        }
      }
    }
  }

  /**
   The island list is determined by the mesh: two partitions of the same
   graph that both list their islands by increasing smallest vertex, as
   SplitIslands does, are the same list.
   */
  lemma IslandsInSeedOrderUnique(g: Graph, p1: seq<set<int>>, p2: seq<set<int>>)
    requires IsIslandPartition(g, p1) && IsIslandPartition(g, p2)
    requires InSeedOrder(p1) && InSeedOrder(p2)
    ensures p1 == p2
  {
    if |p1| < |p2| {
      SeedOrderedPrefixesAgree(g, p1, p2, |p1|);
      IslandFoundIn(g, p2, p1, |p1|);
      assert false;
    } else if |p2| < |p1| {
      SeedOrderedPrefixesAgree(g, p1, p2, |p2|);
      IslandFoundIn(g, p1, p2, |p2|);
      assert false;
    } else {
      SeedOrderedPrefixesAgree(g, p1, p2, |p1|);
    }
  }

  /** When one vertex reaches every vertex, the whole mesh is one island. */
  lemma ConnectedMeshOneIsland(g: Graph, parts: seq<set<int>>, u: int)
    requires IsIslandPartition(g, parts) && u in g
    requires forall v :: v in g ==> Reachable(g, u, v)
    ensures parts == [g.Keys]
  {
    InUnionOf(parts, u);
    var j :| 0 <= j < |parts| && u in parts[j];
    assert IsComponent(g, parts[j]);
    forall v | v in g
      ensures v in parts[j]
    {
      assert Reachable(g, u, v);
    }
    assert parts[j] == g.Keys;
    if |parts| > 1 {
      assert false;
    }
  }

  /** The twelve edges of a cube whose bottom face is 0-1-2-3 and top face 4-5-6-7. */
  function CubeEdges(): (edges: seq<Edge>)
    ensures ValidEdges(8, edges)
  {
    [(0, 1), (1, 2), (2, 3), (3, 0),
     (4, 5), (5, 6), (6, 7), (7, 4),
     (0, 4), (1, 5), (2, 6), (3, 7)]
  }

  /** Every vertex of a walk can be reached from its first vertex. */
  lemma WalkPrefixReachable(g: Graph, p: seq<int>, k: int)
    requires IsWalk(g, p) && 0 <= k < |p|
    ensures Reachable(g, p[0], p[k])
  {
    var q := p[..k + 1];
    forall i | 0 <= i < |q| - 1
      ensures q[i] in g && q[i + 1] in g[q[i]]
    {
      assert q[i] == p[i] && q[i + 1] == p[i + 1];
    }
    assert IsWalk(g, q) && q[0] == p[0] && q[|q| - 1] == p[k];
  }

  /** The path 0-1-2-3-7-6-5-4 is a walk in any graph holding its seven edges. */
  lemma ChainIsWalk(g: Graph)
    requires 0 in g && 1 in g && 2 in g && 3 in g && 7 in g && 6 in g && 5 in g
    requires 1 in g[0] && 2 in g[1] && 3 in g[2] && 7 in g[3] && 6 in g[7] && 5 in g[6] && 4 in g[5]
    ensures IsWalk(g, [0, 1, 2, 3, 7, 6, 5, 4])
  {
    var p := [0, 1, 2, 3, 7, 6, 5, 4];
    forall k | 0 <= k < |p| - 1
      ensures p[k] in g && p[k + 1] in g[p[k]]
    {
      if k == 0 { } else if k == 1 { } else if k == 2 { } else if k == 3 { }
      else if k == 4 { } else if k == 5 { } else { }
    }
  }

  /** In a graph on the vertices 0 to 7 holding the walk 0-1-2-3-7-6-5-4, vertex 0 reaches every vertex. */
  lemma ChainReachesAll(g: Graph)
    requires forall v :: v in g <==> 0 <= v < 8
    requires 1 in g[0] && 2 in g[1] && 3 in g[2] && 7 in g[3] && 6 in g[7] && 5 in g[6] && 4 in g[5]
    ensures forall v :: v in g ==> Reachable(g, 0, v)
  {
    var p := [0, 1, 2, 3, 7, 6, 5, 4];
    ChainIsWalk(g);
    forall k | 0 <= k < |p|
      ensures Reachable(g, 0, p[k])
    {
      WalkPrefixReachable(g, p, k);
    }
    forall v | v in g
      ensures Reachable(g, 0, v)
    {
      assert v == p[if v < 4 then v else 11 - v];
    }
  }

  /** Every vertex of the cube can be reached from vertex 0. */
  lemma CubeConnected()
    ensures forall v :: v in AdjacencyOf(8, CubeEdges()) ==> Reachable(AdjacencyOf(8, CubeEdges()), 0, v)
  {
    var edges := CubeEdges();
    assert Joins(edges[0], 0, 1) && Joins(edges[1], 1, 2) && Joins(edges[2], 2, 3) && Joins(edges[11], 3, 7);
    assert Joins(edges[6], 7, 6) && Joins(edges[5], 6, 5) && Joins(edges[4], 5, 4);
    assert HasEdge(edges, 0, 1) && HasEdge(edges, 1, 2) && HasEdge(edges, 2, 3) && HasEdge(edges, 3, 7);
    assert HasEdge(edges, 7, 6) && HasEdge(edges, 6, 5) && HasEdge(edges, 5, 4);
    ChainReachesAll(AdjacencyOf(8, edges));
  }

  /** A cube (8 vertices, 12 edges) is a single island holding all 8 vertices. */
  lemma CubeIsOneIsland(parts: seq<set<int>>)
    requires IsIslandPartition(AdjacencyOf(8, CubeEdges()), parts)
    ensures parts == [Vertices(8)]
  {
    CubeConnected();
    ConnectedMeshOneIsland(AdjacencyOf(8, CubeEdges()), parts, 0);
  }
}

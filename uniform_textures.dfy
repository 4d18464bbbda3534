/**
 The island partition that the "make uniform for visible islands" operator
 runs before it unwraps anything: build the vertex adjacency map of the mesh
 from its edge list, then split the vertices into connected islands by
 expanding a frontier from the smallest vertex still in the map, removing
 each expanded vertex from the map, until the map is empty.
 */
module UniformTextures {
  import opened Reachability

  /** A mesh edge, as the indices of its two vertices. */
  type Edge = (int, int)

  /** The vertex indices of a mesh with n vertices. */
  function Vertices(n: nat): (vs: set<int>)
    ensures forall v :: v in vs <==> 0 <= v < n
    ensures |vs| == n
  {
    if n == 0 then {} else Vertices(n - 1) + {n - 1}
  }

  /** Every edge joins two vertices of the mesh (the host mesh guarantees this). */
  predicate ValidEdges(n: nat, edges: seq<Edge>)
  {
    forall k :: 0 <= k < |edges| ==> 0 <= edges[k].0 < n && 0 <= edges[k].1 < n
  }

  /** Edge e joins v and w, in either direction. */
  predicate Joins(e: Edge, v: int, w: int)
  {
    e == (v, w) || e == (w, v)
  }

  /** Some edge of the list joins v and w. */
  ghost predicate HasEdge(edges: seq<Edge>, v: int, w: int)
  {
    exists k :: 0 <= k < |edges| && Joins(edges[k], v, w)
  }

  /** The neighbours of v: the other endpoint of every edge at v. */
  function Neighbours(edges: seq<Edge>, v: int): set<int>
  {
    (set k | 0 <= k < |edges| && edges[k].0 == v :: edges[k].1)
    + (set k | 0 <= k < |edges| && edges[k].1 == v :: edges[k].0)
  }

  /** The adjacency map of the mesh: one key per vertex, mapped to its neighbours. */
  function AdjacencyOf(n: nat, edges: seq<Edge>): (g: Graph)
    requires ValidEdges(n, edges)
    ensures g.Keys == Vertices(n)
    ensures forall v, w :: v in g ==> (w in g[v] <==> HasEdge(edges, v, w))
    ensures Symmetric(g)
  {
    var g := map v | v in Vertices(n) :: Neighbours(edges, v);
    assert forall v, w :: v in g ==> (w in g[v] <==> HasEdge(edges, v, w)) by {
      forall v, w | v in g
        ensures w in g[v] <==> HasEdge(edges, v, w)
      {
        if w in g[v] {
          var k :| 0 <= k < |edges| && ((edges[k].0 == v && edges[k].1 == w) || (edges[k].1 == v && edges[k].0 == w));
          assert Joins(edges[k], v, w);
        }
        if HasEdge(edges, v, w) {
          var k :| 0 <= k < |edges| && Joins(edges[k], v, w);
          if edges[k] == (v, w) {
            assert w in (set j | 0 <= j < |edges| && edges[j].0 == v :: edges[j].1);
          } else {
            assert w in (set j | 0 <= j < |edges| && edges[j].1 == v :: edges[j].0);
          }
        }
      }
    }
    g
  }

  lemma HasEdgeExtend(edges: seq<Edge>, k: int, v: int, w: int)
    requires 0 <= k < |edges|
    ensures HasEdge(edges[..k + 1], v, w) <==> HasEdge(edges[..k], v, w) || Joins(edges[k], v, w)
  {
    if HasEdge(edges[..k + 1], v, w) {
      var j :| 0 <= j < k + 1 && Joins(edges[..k + 1][j], v, w);
      if j < k {
        assert edges[..k][j] == edges[j];
      }
    }
    if HasEdge(edges[..k], v, w) {
      var j :| 0 <= j < k && Joins(edges[..k][j], v, w);
      assert edges[..k + 1][j] == edges[j];
    }
    if Joins(edges[k], v, w) {
      assert edges[..k + 1][k] == edges[k];
    }
  }

  /** paths has a key for every vertex, mapped to exactly the vertices some edge joins it to. */
  ghost predicate Describes(paths: Graph, n: nat, edges: seq<Edge>)
  {
    && paths.Keys == Vertices(n)
    && forall v, w :: v in paths ==> (w in paths[v] <==> HasEdge(edges, v, w))
  }

  /** Adding edge k in both directions extends the description from the first k edges to k + 1. */
  lemma AddEdge(paths: Graph, n: nat, edges: seq<Edge>, k: int)
    requires ValidEdges(n, edges) && 0 <= k < |edges| && Describes(paths, n, edges[..k])
    ensures
      var (a, b) := edges[k];
      var added := paths[a := paths[a] + {b}];
      Describes(added[b := added[b] + {a}], n, edges[..k + 1])
  {
    var (a, b) := edges[k];
    var added := paths[a := paths[a] + {b}];
    var both := added[b := added[b] + {a}];
    forall v, w | v in both
      ensures w in both[v] <==> HasEdge(edges[..k + 1], v, w)
    {
      HasEdgeExtend(edges, k, v, w);
    }
  }

  /** The adjacency map is determined by its description. */
  lemma DescribedIsAdjacency(paths: Graph, n: nat, edges: seq<Edge>)
    requires ValidEdges(n, edges) && Describes(paths, n, edges)
    ensures paths == AdjacencyOf(n, edges)
  {
    SameNeighbours(paths, AdjacencyOf(n, edges));
  }

  /** Two adjacency maps with the same vertices and the same neighbours are equal. */
  lemma SameNeighbours(a: Graph, b: Graph)
    requires a.Keys == b.Keys
    requires forall v, w :: v in a ==> (w in a[v] <==> w in b[v])
    ensures a == b
  {
    forall v | v in a
      ensures a[v] == b[v]
    {
      assert forall w :: w in a[v] <==> w in b[v];
    }
  }

  /**
   Lines 55-58: start with an empty neighbour set for every vertex, then add
   each edge in both directions.
   */
  method BuildAdjacency(n: nat, edges: seq<Edge>) returns (paths: Graph)
    requires ValidEdges(n, edges)
    ensures paths.Keys == Vertices(n)
    ensures forall k :: 0 <= k < |edges| ==> edges[k].1 in paths[edges[k].0] && edges[k].0 in paths[edges[k].1]
    ensures forall v, w :: v in paths && w in paths[v] ==> HasEdge(edges, v, w)
    ensures paths == AdjacencyOf(n, edges)
  {
    paths := map v | v in Vertices(n) :: {};
    for k := 0 to |edges|
      invariant Describes(paths, n, edges[..k])
    {
      AddEdge(paths, n, edges, k);
      var (a, b) := edges[k];
      paths := paths[a := paths[a] + {b}];
      paths := paths[b := paths[b] + {a}];
    }
    assert edges[..|edges|] == edges;
    DescribedIsAdjacency(paths, n, edges);
    forall k | 0 <= k < |edges|
      ensures edges[k].1 in paths[edges[k].0] && edges[k].0 in paths[edges[k].1]
    {
      assert Joins(edges[k], edges[k].0, edges[k].1);
      assert Joins(edges[k], edges[k].1, edges[k].0);
    }
  }

  /** All the vertices the islands hold, together. */
  function UnionOf(parts: seq<set<int>>): (u: set<int>)
    ensures forall j :: 0 <= j < |parts| ==> parts[j] <= u
  {
    if parts == [] then {} else UnionOf(parts[..|parts| - 1]) + parts[|parts| - 1]
  }

  /**
   Every vertex of the union lies in one of the islands. (Kept out of UnionOf's
   own contract so that the solver does not chain it with "islands are non-empty".)
   */
  lemma {:induction false} InUnionOf(parts: seq<set<int>>, v: int)
    requires v in UnionOf(parts)
    ensures exists j :: 0 <= j < |parts| && v in parts[j]
  {
    var init := parts[..|parts| - 1];
    if v !in parts[|parts| - 1] {
      InUnionOf(init, v);
      var j :| 0 <= j < |init| && v in init[j];
      assert parts[j] == init[j];
    }
  }

  /** No vertex lies in two islands. */
  ghost predicate PairwiseDisjoint(parts: seq<set<int>>)
  {
    forall j, k :: 0 <= j < k < |parts| ==> parts[j] !! parts[k]
  }

  /** parts splits the vertices of g into its connected islands. */
  ghost predicate IsIslandPartition(g: Graph, parts: seq<set<int>>)
  {
    && (forall j :: 0 <= j < |parts| ==> parts[j] != {})
    && PairwiseDisjoint(parts)
    && UnionOf(parts) == g.Keys
    && (forall j :: 0 <= j < |parts| ==> IsComponent(g, parts[j]))
  }

  /** Removing a non-empty set of keys shrinks a map. */
  lemma RemovingKeysShrinks(m: Graph, s: set<int>, m': Graph)
    requires s != {} && s <= m.Keys && m'.Keys == m.Keys - s
    ensures |m'| < |m|
  {
    assert m.Keys * s == s && m.Keys + s == m.Keys;
    assert |m.Keys - s| == |m.Keys| - |s|;
  }

  /** Disjoint non-empty islands are no more numerous than the vertices they cover. */
  lemma {:induction false} PartCountBound(parts: seq<set<int>>)
    requires forall j :: 0 <= j < |parts| ==> parts[j] != {}
    requires PairwiseDisjoint(parts)
    ensures |parts| <= |UnionOf(parts)|
  {
    if parts != [] {
      var init, last := parts[..|parts| - 1], parts[|parts| - 1];
      PartCountBound(init);
      forall v | v in UnionOf(init)
        ensures v !in last
      {
        InUnionOf(init, v);
      }
      assert |UnionOf(parts)| == |UnionOf(init)| + |last|;
    }
  }

  /** m is the smallest member of s. */
  predicate IsLeast(s: set<int>, m: int)
  {
    m in s && forall x :: x in s ==> m <= x
  }

  /** Every non-empty set of vertex indices has a smallest member. */
  lemma {:induction false} HasLeast(s: set<int>)
    requires s != {}
    ensures exists m :: IsLeast(s, m)
    decreases |s|
  {
    NonEmptyHasMember(s);
    var x :| x in s;
    var rest := s - {x};
    assert forall z :: z in s ==> z == x || z in rest;
    if rest == {} {
      assert IsLeast(s, x);
    } else {
      HasLeast(rest);
      var y :| IsLeast(rest, y);
      if x < y {
        assert IsLeast(s, x);
      } else {
        assert IsLeast(s, y);
      }
    }
  }

  /** The smallest member of a non-empty set (0 for the empty set, where it is never used). */
  ghost function Least(s: set<int>): (m: int)
    ensures s != {} ==> IsLeast(s, m)
  {
    if s == {} then 0 else HasLeast(s); var m :| IsLeast(s, m); m
  }

  /** A set has only one smallest member. */
  lemma LeastIs(s: set<int>, m: int)
    requires IsLeast(s, m)
    ensures Least(s) == m
  {
    assert Least(s) <= m && m <= Least(s);
  }

  /** Islands are listed by increasing smallest vertex. */
  ghost predicate InSeedOrder(parts: seq<set<int>>)
  {
    forall j, k :: 0 <= j < k < |parts| ==> Least(parts[j]) < Least(parts[k])
  }

  /** The map still to be split: entries of the graph, and no edge leads out of it. */
  ghost predicate Remaining(graph: Graph, paths: Graph)
  {
    && paths.Keys <= graph.Keys
    && (forall v :: v in paths ==> paths[v] == graph[v])
    && (forall v, w {:trigger w in graph[v]} :: v in paths && w in graph[v] ==> w in paths)
  }

  /** The islands found so far split the vertices already removed from the map. */
  ghost predicate IslandsSoFar(graph: Graph, done: set<int>, lparts: seq<set<int>>)
  {
    && (forall j :: 0 <= j < |lparts| ==> lparts[j] != {} && IsComponent(graph, lparts[j]))
    && PairwiseDisjoint(lparts)
    && UnionOf(lparts) == done
  }

  /** The islands found so far are in seed order, and every vertex still in the map lies above their seeds. */
  ghost predicate SeedsSoFar(paths: Graph, lparts: seq<set<int>>)
  {
    && InSeedOrder(lparts)
    && (forall j, v :: 0 <= j < |lparts| && v in paths ==> Least(lparts[j]) < v)
  }

  /**
   An island grown from the smallest key of the map has that key as its
   smallest vertex, so it comes after every earlier island and below every
   vertex left in the map.
   */
  lemma SeedOrderStep(before: Graph, paths: Graph, lparts: seq<set<int>>, lpart: set<int>, i: int)
    requires SeedsSoFar(before, lparts) && IsLeast(before.Keys, i)
    requires i in lpart && lpart <= before.Keys && paths.Keys <= before.Keys && i !in paths
    ensures SeedsSoFar(paths, lparts + [lpart])
  {
    LeastIs(lpart, i);
    var parts := lparts + [lpart];
    forall j, k | 0 <= j < k < |parts|
      ensures Least(parts[j]) < Least(parts[k])
    {
      if k == |lparts| {
        assert Least(lparts[j]) < i;
      } else {
        assert parts[j] == lparts[j] && parts[k] == lparts[k];
      }
    }
    forall j, v | 0 <= j < |parts| && v in paths
      ensures Least(parts[j]) < v
    {
      if j < |lparts| {
        assert parts[j] == lparts[j];
      } else {
        assert v in before.Keys;
      }
    }
  }

  /**
   The state of the inner loop while the island of seed i grows; before is the
   map as it was when the island was started.
   */
  ghost predicate Growing(graph: Graph, before: Graph, paths: Graph, i: int, lpart: set<int>, cur: set<int>)
  {
    && paths.Keys <= before.Keys <= graph.Keys
    && (forall v :: v in paths ==> paths[v] == graph[v])
    && i in lpart && cur <= lpart && lpart <= before.Keys
    // every vertex removed for this island is in it, with all its neighbours
    && before.Keys - paths.Keys <= lpart
    && (forall v, w {:trigger w in graph[v]} :: v in before && v !in paths && w in graph[v] ==> w in lpart)
    // members not yet expanded are on the frontier
    && (forall v :: v in lpart && v in paths ==> v in cur)
    && (forall v :: v in lpart ==> Reachable(graph, i, v))
  }

  lemma StartIsland(graph: Graph, paths: Graph, i: int)
    requires Remaining(graph, paths) && i in paths
    ensures Growing(graph, paths, paths, i, {i}, {i})
  {
    assert paths.Keys <= graph.Keys;
    ReachableRefl(graph, i);
  }

  /** One pass of the inner loop keeps its invariant and removes keys from the map. */
  lemma GrowStep(graph: Graph, before: Graph, paths: Graph, i: int, lpart: set<int>, cur: set<int>,
                 eligible: set<int>, next: set<int>)
    requires Remaining(graph, before) && Growing(graph, before, paths, i, lpart, cur)
    requires eligible == (set sc | sc in cur && sc in paths) && eligible != {}
    requires next == (set sc, ve | sc in eligible && ve in paths[sc] :: ve)
    ensures Growing(graph, before, paths - eligible, i, lpart + next, next)
    ensures |paths - eligible| < |paths|
  {
    forall ve | ve in next
      ensures Reachable(graph, i, ve)
    {
      var sc :| sc in eligible && ve in paths[sc];
      ReachableStep(graph, i, sc, ve);
    }
    RemovingKeysShrinks(paths, eligible, paths - eligible);
  }

  /**
   When no frontier vertex is left in the map, the island is exactly what was
   removed from the map for it, and it is a connected component.
   */
  lemma IslandIsComponent(graph: Graph, before: Graph, paths: Graph, i: int, lpart: set<int>, cur: set<int>)
    requires Symmetric(graph) && Growing(graph, before, paths, i, lpart, cur)
    requires forall v :: v in cur ==> v !in paths
    ensures lpart == before.Keys - paths.Keys
    ensures ClosedUnder(graph, lpart) && IsComponent(graph, lpart)
  {
    forall v | v in lpart
      ensures v in before && v !in paths
    {
      assert v in paths ==> v in cur;
    }
    assert ClosedUnder(graph, lpart);
    forall u, v | u in lpart
      ensures v in lpart <==> Reachable(graph, u, v)
    {
      if v in lpart {
        ReachableSymmetric(graph, i, u);
        ReachableTransitive(graph, u, i, v);
      }
      if Reachable(graph, u, v) {
        ClosedContainsReachable(graph, lpart, u, v);
      }
    }
  }

  /** Taking a closed island out of a closed map leaves a closed map. */
  lemma RestStaysClosed(graph: Graph, before: Graph, paths: Graph, lpart: set<int>)
    requires Symmetric(graph) && Remaining(graph, before)
    requires paths.Keys <= before.Keys && lpart == before.Keys - paths.Keys
    requires forall v :: v in paths ==> paths[v] == graph[v]
    requires ClosedUnder(graph, lpart)
    ensures Remaining(graph, paths)
  {
    forall v, w | v in paths && w in graph[v]
      ensures w in paths
    {
      assert v in graph[w];
    }
  }

  /** Appending an island disjoint from the earlier ones keeps them a partition of what was removed. */
  lemma AppendIsland(graph: Graph, done: set<int>, lparts: seq<set<int>>, lpart: set<int>)
    requires IslandsSoFar(graph, done, lparts)
    requires lpart != {} && IsComponent(graph, lpart) && lpart !! done
    ensures IslandsSoFar(graph, done + lpart, lparts + [lpart])
  {
    var parts := lparts + [lpart];
    assert parts[..|lparts|] == lparts;
    forall j, k | 0 <= j < k < |parts|
      ensures parts[j] !! parts[k]
    {
      if k == |lparts| {
        assert parts[j] <= UnionOf(lparts);
      }
    }
  }

  /** The island joins the removed vertices, disjoint from those removed before it. */
  lemma RemovedGrows(all: set<int>, before: set<int>, after: set<int>, lpart: set<int>)
    requires after <= before <= all && lpart == before - after
    ensures (all - before) + lpart == all - after && lpart !! (all - before)
  {
  }

  /**
   At the end of the inner loop the island joins the list, and the map left
   over is still closed and strictly smaller than before the island.
   */
  lemma CloseIsland(graph: Graph, before: Graph, paths: Graph, i: int, lpart: set<int>, cur: set<int>,
                    lparts: seq<set<int>>)
    requires Symmetric(graph) && Remaining(graph, before)
    requires IslandsSoFar(graph, graph.Keys - before.Keys, lparts)
    requires Growing(graph, before, paths, i, lpart, cur)
    requires forall v :: v in cur ==> v !in paths
    ensures Remaining(graph, paths)
    ensures IslandsSoFar(graph, graph.Keys - paths.Keys, lparts + [lpart])
    ensures |paths| < |before|
  {
    IslandIsComponent(graph, before, paths, i, lpart, cur);
    RestStaysClosed(graph, before, paths, lpart);
    AppendIsland(graph, graph.Keys - before.Keys, lparts, lpart);
    RemovedGrows(graph.Keys, before.Keys, paths.Keys, lpart);
    RemovingKeysShrinks(before, lpart, paths);
  }

  /**
   Lines 59-74: take the first remaining key of the map as the seed of a new
   island (the map keeps insertion order, its keys went in by increasing
   vertex index and removals keep the order of the rest, so the first key is
   the smallest one); grow the island by the neighbours of every frontier
   vertex still in the map, remove those vertices from the map, and close the
   island when no frontier vertex is left in the map; stop when the map is
   empty.
   */
  method SplitIslands(graph: Graph) returns (lparts: seq<set<int>>)
    requires Symmetric(graph)
    ensures forall j :: 0 <= j < |lparts| ==> lparts[j] != {}
    ensures PairwiseDisjoint(lparts)
    ensures UnionOf(lparts) == graph.Keys
    ensures forall j :: 0 <= j < |lparts| ==> IsComponent(graph, lparts[j])
    ensures InSeedOrder(lparts)
    ensures |lparts| <= |graph|
  {
    var paths := graph;
    lparts := [];
    while paths != map[]
      invariant Remaining(graph, paths)
      invariant IslandsSoFar(graph, graph.Keys - paths.Keys, lparts)
      invariant SeedsSoFar(paths, lparts)
      decreases |paths|
    {
      NonEmptyHasKey(paths);
      HasLeast(paths.Keys);
      var i :| IsLeast(paths.Keys, i);
      ghost var before := paths;
      var lpart := {i};
      var cur := {i};
      StartIsland(graph, paths, i);
      while true
        invariant Growing(graph, before, paths, i, lpart, cur)
        decreases |paths|
      {
        var eligible := set sc | sc in cur && sc in paths;
        if eligible == {} {
          break;
        }
        var next := set sc, ve | sc in eligible && ve in paths[sc] :: ve;
        GrowStep(graph, before, paths, i, lpart, cur, eligible, next);
        cur := next;
        lpart := lpart + cur;
        paths := paths - eligible;
      }
      CloseIsland(graph, before, paths, i, lpart, cur, lparts);
      SeedOrderStep(before, paths, lparts, lpart, i);
      lparts := lparts + [lpart];
    }
    PartCountBound(lparts);
  }

  /**
   Lines 55-74: the islands of the mesh with n vertices and the given edges,
   listed by increasing smallest vertex; this determines the list
   (see IslandFacts.IslandsInSeedOrderUnique).
   */
  method FindIslands(n: nat, edges: seq<Edge>) returns (lparts: seq<set<int>>)
    requires ValidEdges(n, edges)
    ensures IsIslandPartition(AdjacencyOf(n, edges), lparts)
    ensures InSeedOrder(lparts)
    ensures |lparts| <= n
  {
    var paths := BuildAdjacency(n, edges);
    lparts := SplitIslands(paths);
  }
}

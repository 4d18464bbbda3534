# Island partition of the "make uniform" mesh operator

The operator `MakeUniformAll` (file `uniform_textures.py`) makes UV texel
density uniform across the visible islands of a mesh. Before it touches any
UV data, its `execute` method splits the vertices of the mesh into islands:
sets of vertices joined by chains of edges. That split is the one
self-contained algorithm in the repository, and it is what this project
models and proves correct:

1. Lines 55-58 build `paths`. It maps every vertex index to the set of its
   neighbours, and each edge is recorded in both directions.
2. Lines 59-74 repeat until `paths` is empty:
   - take the first remaining key `i` as the seed;
   - grow a frontier `cur` from it;
   - on each pass:
     - collect the frontier vertices still in `paths` (`eligible`);
     - replace the frontier by their neighbours and add those to the island `lpart`;
     - pop the eligible vertices from `paths`;
   - when no frontier vertex is left in `paths`, append the island to `lparts`.

The code works by changing state step by step, so it is modelled with Dafny
methods and loops:

- `UniformTextures.BuildAdjacency` is lines 55-58.
- `UniformTextures.SplitIslands` is lines 59-74, with the same two nested loops.
- `UniformTextures.FindIslands` is the whole of lines 55-74.

Each method is proved against a specification on values:

- `UniformTextures.AdjacencyOf` is the adjacency map as a function.
- `Reachability.Reachable` is reachability by walks.
- `Reachability.IsComponent`: a set is exactly what can be reached from any one of its members.
- `UniformTextures.IsIslandPartition`: non-empty, pairwise disjoint islands that cover every vertex, each one a component.

The lemmas in module `IslandFacts` derive the promised consequences from that
specification:

- every vertex lies in exactly one island;
- connected vertices share an island;
- an isolated vertex is an island on its own;
- a mesh without edges gives one singleton island per vertex;
- a cube is one island;
- the list of islands is determined by the mesh.

Files:
- `reachability.dfy`: graphs as adjacency maps, walks, reachability, closed sets and components.
- `uniform_textures.dfy`: the model of lines 55-74, with its loop invariants and step lemmas.
- `island_facts.dfy`: the properties of every island partition, and so of every result of `FindIslands`.

Two facts about the code shape the model:

- The seed is `next(iter(paths.keys()))`, the first key of a dictionary.
  Dictionaries keep insertion order. Line 55 inserts the keys by increasing
  vertex index, and `pop` keeps the rest in order. So the seed is always the
  smallest remaining vertex, and the model chooses it that way. The islands
  therefore come out by increasing smallest vertex, and the list is fully
  determined (`IslandFacts.IslandsInSeedOrderUnique`). That the islands as a
  set do not depend on the seeds is proved too (`IslandFacts.IslandsUniqueUpToOrder`).
- Lines 55-58 read every vertex and every edge, hidden or not; the `hide`
  test comes only at line 82, after the partition. The model partitions all
  vertices likewise.

## Model

| member | source | states |
|---|---|---|
| `UniformTextures.Vertices` | uniform_textures.py:55 | the key set of `paths` is exactly the vertex indices 0..n-1, n of them |
| `UniformTextures.AdjacencyOf` | uniform_textures.py:55-58 | the adjacency map has one key per vertex; w is a neighbour of v exactly when some edge joins them, in either direction; so it is symmetric |
| `UniformTextures.HasEdgeExtend` | uniform_textures.py:56-58 | after one more edge, two vertices are joined exactly when an earlier edge or the new edge joins them |
| `UniformTextures.AddEdge` | uniform_textures.py:57-58 | adding edge k in both directions turns a map that records the first k edges into one that records the first k+1 |
| `UniformTextures.DescribedIsAdjacency` | uniform_textures.py:55-58 | a map with one key per vertex that records exactly the edges is the adjacency map |
| `UniformTextures.BuildAdjacency` | uniform_textures.py:55-58 | the loop over the edges yields a map with one key per vertex; both endpoints of every edge are recorded as each other's neighbours; every recorded neighbour comes from an edge; the result equals `AdjacencyOf` |
| `UniformTextures.UnionOf` | uniform_textures.py:74 | every island appended to `lparts` is contained in the union of the list |
| `UniformTextures.InUnionOf` | uniform_textures.py:74 | every vertex of the union lies in some island of the list |
| `UniformTextures.HasLeast` | uniform_textures.py:62 | every non-empty set of remaining keys has a smallest member, so the first key exists and is that member |
| `UniformTextures.Least` | uniform_textures.py:62 | the seed value is the smallest member of a non-empty set |
| `UniformTextures.LeastIs` | uniform_textures.py:62 | a set has only one smallest member |
| `UniformTextures.RemovingKeysShrinks` | uniform_textures.py:73 | popping a non-empty set of keys strictly shrinks `paths`, which makes both loops terminate |
| `UniformTextures.PartCountBound` | uniform_textures.py:59-74 | non-empty, pairwise disjoint islands are no more numerous than the vertices they cover |
| `UniformTextures.SeedOrderStep` | uniform_textures.py:62-74 | an island grown from the smallest remaining key has that key as its smallest vertex; it comes after every earlier island in seed order and lies below every vertex still in `paths` |
| `UniformTextures.StartIsland` | uniform_textures.py:62-66 | a fresh island `{i}` with frontier `{i}` satisfies the inner loop's invariant: every member is reachable from the seed, and every unexpanded member is on the frontier |
| `UniformTextures.GrowStep` | uniform_textures.py:67-73 | one pass of the inner loop keeps that invariant: the new frontier is the neighbours of the eligible vertices, all of them reachable from the seed; the eligible vertices leave `paths`, which strictly shrinks |
| `UniformTextures.IslandIsComponent` | uniform_textures.py:67-70 | when no frontier vertex is left in `paths`, the island is exactly the vertices removed for it; it is closed under adjacency and is exactly the set reachable from any of its members |
| `UniformTextures.RestStaysClosed` | uniform_textures.py:73 | removing a closed island from a map that no edge leaves gives a map that no edge leaves |
| `UniformTextures.AppendIsland` | uniform_textures.py:74 | appending a new non-empty component, disjoint from what was removed before, keeps `lparts` a partition of everything removed so far |
| `UniformTextures.CloseIsland` | uniform_textures.py:69-74 | at the end of the inner loop: the rest of `paths` is still closed; `lparts` plus the island splits all removed vertices; `paths` shrank |
| `UniformTextures.SplitIslands` | uniform_textures.py:59-74 | given a symmetric adjacency map, the loops end with every island non-empty, pairwise disjoint, covering every vertex and exactly a connected component; islands come by increasing seed; there are at most as many islands as vertices |
| `UniformTextures.FindIslands` | uniform_textures.py:55-74 | on any edge list, the result is an island partition of the mesh's adjacency map, in seed order, with at most n islands |
| `Reachability.NonEmptyHasKey` | uniform_textures.py:60-64 | a non-empty map has a key, so line 62 finds a seed whenever the map is not empty |
| `Reachability.ReachableRefl` | uniform_textures.py:65 | the seed reaches itself |
| `Reachability.ReachableStep` | uniform_textures.py:71-72 | a neighbour of a vertex reachable from the seed is reachable from the seed |
| `Reachability.ReachableSymmetric` | uniform_textures.py:57-58 | since every edge is recorded in both directions, reachability is symmetric |
| `Reachability.ReachableTransitive` | uniform_textures.py:67-72 | walks compose |
| `Reachability.WalkStaysInClosed` | uniform_textures.py:67-70 | a walk that starts in a set no edge leaves stays in it |
| `Reachability.ClosedContainsReachable` | uniform_textures.py:67-70 | a set no edge leaves contains everything reachable from its members, so the finished island misses no vertex |
| `Reachability.IsolatedReachesOnlyItself` | uniform_textures.py:65-70 | a vertex without neighbours reaches only itself |
| `IslandFacts.EveryVertexInExactlyOneIsland` | uniform_textures.py:59-74 | every vertex lies in some island and in no two |
| `IslandFacts.ConnectedSameIsland` | uniform_textures.py:65-72 | two vertices joined by a walk lie in the same islands |
| `IslandFacts.AlongEdge` | uniform_textures.py:56-58 | a walk in the adjacency map extends along any mesh edge, in either direction |
| `IslandFacts.EdgeEndpointsShareIsland` | uniform_textures.py:56-58 | both endpoints of every mesh edge lie in the same island |
| `IslandFacts.IsolatedVertexIsSingleton` | uniform_textures.py:65-70 | the island of a vertex without neighbours is that vertex alone |
| `IslandFacts.SingletonPartsCount` | uniform_textures.py:74 | disjoint one-vertex islands cover as many vertices as there are islands |
| `IslandFacts.NoEdgesAllSingletons` | uniform_textures.py:55-74 | a mesh with n vertices and no edges gives exactly n islands of one vertex each |
| `IslandFacts.IslandFoundIn` | uniform_textures.py:59-74 | every island of one partition of a graph is an island of any other partition of it |
| `IslandFacts.IslandsUniqueUpToOrder` | uniform_textures.py:59-74 | two partitions of the same graph hold the same set of islands, whatever seeds were picked |
| `IslandFacts.DistinctIslands` | uniform_textures.py:74 | two places of a partition never hold the same island |
| `IslandFacts.SeedOrderedPrefixesAgree` | uniform_textures.py:62-74 | two seed-ordered partitions of one graph agree island by island on their common length |
| `IslandFacts.IslandsInSeedOrderUnique` | uniform_textures.py:62-74 | two seed-ordered partitions of one graph are the same list, so re-running the loop on the same mesh gives the same `lparts` |
| `IslandFacts.ConnectedMeshOneIsland` | uniform_textures.py:59-74 | when one vertex reaches every vertex, `lparts` is a single island holding every vertex |
| `IslandFacts.WalkPrefixReachable` | uniform_textures.py:71-72 | every vertex along a walk is reachable from its first vertex |
| `IslandFacts.ChainIsWalk` | uniform_textures.py:71-72 | the path 0-1-2-3-7-6-5-4 is a walk in any graph that holds its seven edges |
| `IslandFacts.ChainReachesAll` | uniform_textures.py:71-72 | in a graph on vertices 0..7 that holds that path, vertex 0 reaches every vertex |
| `IslandFacts.CubeConnected` | uniform_textures.py:55-58 | in the adjacency map of a cube (8 vertices, 12 edges) vertex 0 reaches every vertex |
| `IslandFacts.CubeIsOneIsland` | uniform_textures.py:55-74 | a cube gives exactly one island, holding all 8 vertices |

## Left out

- Everything after line 74 is host-application calls:
  - selecting each island and its linked faces;
  - the quad / non-quad unwrap branches;
  - measuring 3D edge lengths;
  - scaling the UV layer.
  These are operator dispatch on state the script does not own. They are not part of this model.
- The `MakeUniform` operator for selected faces, `poll`, the panel and registration are UI glue with no algorithm of their own.
- The mesh reaches the model as a vertex count and an edge list; `bpy.context.object` and `mesh.data` are not modelled.
- BuildAdjacency: assumes every edge endpoint is a vertex index of the mesh (`ValidEdges`). The host mesh guarantees this; otherwise line 57 would raise `KeyError`. That error path is not modelled.
- SplitIslands: `for key in eligible: paths.pop(key)` is one removal of the whole `eligible` set. Nothing reads `paths` between the pops, so the removal order cannot be observed.
- SplitIslands: the dictionary's insertion order is modelled only through its consequence, that the first key is the smallest remaining vertex. The key order itself is not represented.
- SplitIslands: requires a symmetric map. This is what lines 55-58 build, and `FindIslands` passes it on.

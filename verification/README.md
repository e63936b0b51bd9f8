# GraphApp: random graph builder and input check, in Dafny

GraphApp is a small desktop tool. The user types a vertex count and an edge
count. The tool checks the pair, builds a random connected graph with that
many edges (self-loops allowed), draws it on a circle and reports how many
self-loops it has. This project models the logic behind that:

- `adjacency_map.dfy` (module `AdjacencyMap`): the adjacency map
  `map<int, seq<int>>` from each vertex to its neighbour list in insertion
  order. It defines the invariant of a built graph: keys exactly `0..n-1`,
  entries in range, no duplicate neighbour, plain edges stored both ways.
  It also defines the plain-edge count and connectivity through tree parents.
- `graph_visualizer.dfy` (module `GraphVisualizer`): `generateRandomGraph`
  as imperative methods, one per phase: empty lists, the two fixed
  topologies, the random spanning tree, and the resampling loop whose body
  is `TrySample`. It also holds `countLoops`, and `displayEdges`/`drawLoop`
  as a method that emits draw commands (`Segment`, `Loop`) without
  coordinates.
- `graph_app.dfy` (module `GraphApp`): the validation chain of the
  "generate" button as a pure function, the int-overflow finding, and the
  end-to-end lemmas linking an accepted pair to what the builder needs.

The random source is a parameter. A tree parent is any value below the
vertex (nondeterministic choice `:|`). The resampling loop reads a finite
sequence `samples` of `(from, to)` draws and reports how many it `drawn`.

The two fixed topologies, (2,2) and (2,3), store the edge 0–1 only in
vertex 0's list. The symmetry invariant is therefore stated for the random
path only. The button handler singles out (1,1) (GraphApp.java:89-93), and
its log line says a loop is drawn. `generateRandomGraph` has no (1,1)
branch (GraphVisualizer.java:157-169), so (1,1) takes the random path: the
tree adds nothing and only the sample (0,0) is accepted
(`SingleVertexGraph`).

## Model

| member | source | states |
|---|---|---|
| `GraphVisualizer.EmptyGraph` | src/main/java/org/example/GraphVisualizer.java:152-155 | the map's keys are exactly 0..numNodes-1 and every list is empty |
| `GraphVisualizer.GenerateRandomGraph` | src/main/java/org/example/GraphVisualizer.java:148-207 | the builder's result satisfies `Generated`: keys 0..n-1, entries in range, no duplicates; (2,2) gives exactly 0→[0,1], 1→[]; (2,3) gives exactly 0→[0,1], 1→[1]; otherwise it returns, as a ghost result, the spanning tree it built first (well-formed, n-1 plain edges, every vertex with a parent, no loop); the graph keeps every entry of that tree and every other entry is a drawn sample or its reverse (`Sampled`), so the result is the tree plus accepted draws; the graph is symmetric, every vertex has a tree parent, its edge count (plain + loops) lies between n-1 and max(numEdges, n-1) and is max(numEdges, n-1) unless the sample stream ran out, its loops are at most the edges beyond the tree, every sample it used is refused by the final graph, and when the stream holds every in-range pair and numEdges ≤ n(n-1)/2 + n the edge count is exactly max(numEdges, n-1) |
| `GraphVisualizer.NoDrawKeepsTree` | src/main/java/org/example/GraphVisualizer.java:183-203 | on the random path, a builder that drew no sample has exactly the tree's entries: the resampling loop adds only what it draws |
| `GraphVisualizer.AddSpanningTree` | src/main/java/org/example/GraphVisualizer.java:171-181 | after the tree phase every vertex i ≥ 1 lists a parent below it, the graph keeps the invariant, edgesAdded == n-1, there are n-1 plain edges and no loop |
| `GraphVisualizer.TrySample` | src/main/java/org/example/GraphVisualizer.java:185-202 | a sample is accepted iff its loop (from == to) or its edge (neither direction) is absent; a rejected sample leaves the map unchanged; an accepted one adds the loop or the edge in both directions, raises the edge count by exactly 1 (the loop count by 1 iff from == to) and keeps the invariant; either way the same sample is refused by the new graph, and every entry of the new graph is an old entry or (from, to) or (to, from) |
| `GraphVisualizer.AddRandomEdges` | src/main/java/org/example/GraphVisualizer.java:183-205 | the loop keeps the invariant and every earlier entry; edgesAdded stays equal to plain edges + loops and never passes numEdges; it stops at numEdges (or when the samples run out); loopsCount equals the loops it added, which is at most the edges it added; every entry it adds is a drawn sample or its reverse (`Sampled`), every sample it drew is refused by the final graph, and a stream holding every in-range pair brings edgesAdded to exactly max(edgesAdded0, numEdges) whenever that fits in n(n-1)/2 + n |
| `GraphVisualizer.DrawNext` | src/main/java/org/example/GraphVisualizer.java:184-202 | one pass of the loop on samples[drawn]: it keeps the invariant and the entries of graph0, adds at most one edge (a loop exactly when the sample is a loop), keeps the drawn prefix including this sample refused, and keeps every new entry traceable to a drawn sample |
| `GraphVisualizer.SampledGrows` | src/main/java/org/example/GraphVisualizer.java:188-201 | a step that adds only the entries of sample m extends `Sampled`, the fact that every new entry is a drawn sample, from the first m samples to the first m+1 |
| `GraphVisualizer.RefusedPrefixGrows` | src/main/java/org/example/GraphVisualizer.java:188-201 | the acceptance test only ever looks for entries, and the loop only ever adds them: a sample refused once is refused by every later graph, so the refused prefix of the stream grows by the sample just tried |
| `GraphVisualizer.ExhaustedStreamReachesTarget` | src/main/java/org/example/GraphVisualizer.java:184-203 | if every in-range pair has been drawn and every drawn sample is refused, the graph holds every loop and every edge, so its edge count equals any target up to n(n-1)/2 + n that it had not passed |
| `GraphVisualizer.FreeSlotExists` | src/main/java/org/example/GraphVisualizer.java:184-203 | while the edge count is below n(n-1)/2 + n, some in-range sample is acceptable, so each draw is accepted with positive probability |
| `GraphVisualizer.SingleVertexGraph` | src/main/java/org/example/GraphVisualizer.java:176-203 | the request (1,1) on the random path can only end as 0→[0] |
| `GraphVisualizer.CountLoops` | src/main/java/org/example/GraphVisualizer.java:209-221 | countLoops sums, over the vertices, the entries equal to the vertex; the count is 0 exactly when no vertex lists itself |
| `GraphVisualizer.Occurrences` | src/main/java/org/example/GraphVisualizer.java:212-216 | the per-vertex filter of countLoops: the number of entries equal to x, at most the list's length, and 0 exactly when x is not listed |
| `GraphVisualizer.AcceptableOneLookup` | src/main/java/org/example/GraphVisualizer.java:189-201 | the builder's acceptance test (`Acceptable`: a loop if absent, an edge if absent in both directions), on a well-formed graph, holds iff to is not in from's list, and gives the same answer for (to, from): the second direction check never changes the outcome |
| `GraphVisualizer.CountLoopsAppend` | src/main/java/org/example/GraphVisualizer.java:209-221 | appending y to x's list raises countLoops by 1 exactly when y == x |
| `GraphVisualizer.LoopsAtMostVertices` | src/main/java/org/example/GraphVisualizer.java:209-221 | with no duplicate entries, countLoops is at most the number of vertices |
| `GraphVisualizer.DisplayEdges` | src/main/java/org/example/GraphVisualizer.java:62-92 | the commands emitted while visiting every vertex with one shared loopCounts map are exactly `Commands(graph, n)`: per vertex, a segment per non-self entry and a loop at the first self entry only |
| `GraphVisualizer.DrawNeighbors` | src/main/java/org/example/GraphVisualizer.java:71-88 | walking one vertex's list emits exactly that vertex's commands: a segment per entry other than the vertex, one loop at its first self entry; the new loopCounts is the old one with the vertex set to 1 if it lists itself, and unchanged otherwise |
| `GraphVisualizer.VisitNeighbor` | src/main/java/org/example/GraphVisualizer.java:75-116 | one entry, with drawLoop inlined: an entry other than the vertex gives one segment and leaves loopCounts alone; a self entry gives a loop and sets the vertex's count to 1 if it had no count, and nothing otherwise |
| `GraphVisualizer.SegmentsMatchEntries` | src/main/java/org/example/GraphVisualizer.java:67-87 | the segment (u, v), u ≠ v, is drawn as many times as v occurs in u's list (its multiplicity in the list's multiset) |
| `GraphVisualizer.LoopDrawnOnce` | src/main/java/org/example/GraphVisualizer.java:75-80 | a vertex gets exactly one loop drawn if it lists itself (however often) and none otherwise |
| `GraphVisualizer.MutualEdgeDrawnTwice` | src/main/java/org/example/GraphVisualizer.java:81-87 | in a well-formed (random-path) graph each plain edge is drawn twice, once as (u, v) and once as (v, u) |
| `GraphVisualizer.LoopDrawsMatchCount` | src/main/java/org/example/GraphVisualizer.java:48-54 | with no duplicate entries, the number of loops drawn equals the loop count shown in the label |
| `GraphVisualizer.DisplayGraph` | src/main/java/org/example/GraphVisualizer.java:25-60 | the graph it builds and the spanning tree under it (ghost results) carry every promise of `GenerateRandomGraph`; the commands are exactly `Commands` of that graph and the label's count is `CountLoops` of it; the reported loop count equals the loops drawn and is at most n; (2,2) draws [Loop 0, Segment 0→1] with count 1; (2,3) draws [Loop 0, Segment 0→1, Loop 1] with count 2; a spanning-tree-only request (n, n-1) reports 0 loops |
| `AdjacencyMap.AddLoopKeepsWellformed` | src/main/java/org/example/GraphVisualizer.java:189-194 | adding a self-loop to a vertex that has none keeps the invariant, keeps every entry and leaves the plain-edge count unchanged |
| `AdjacencyMap.AddPlainKeepsWellformed` | src/main/java/org/example/GraphVisualizer.java:196-201 | adding an edge between non-adjacent vertices in both directions keeps the invariant (symmetric, no duplicates), keeps every entry and adds exactly one plain edge |
| `AdjacencyMap.PlainEdgeCountIsPairs` | src/main/java/org/example/GraphVisualizer.java:178-199 | the plain-edge count equals the number of distinct pairs u < v with v in u's list, that is, the unordered plain edges |
| `AdjacencyMap.WalkToRoot` | src/main/java/org/example/GraphVisualizer.java:176-181 | following tree parents, every vertex reaches vertex 0 through plain edges |
| `AdjacencyMap.Connected` | src/main/java/org/example/GraphVisualizer.java:175-181 | a symmetric graph with tree parents is connected: any two vertices are joined by a walk over plain edges |
| `GraphApp.Validate` | src/main/java/org/example/GraphApp.java:75-110 | non-positive vertices or negative edges give the "invalid number" alert; otherwise too few edges for a tree give "not enough edges"; (1,1), (2,2), (2,3) bypass the upper bound; any other pair above n(n-1)/2 gives "too many edges"; the pair is accepted iff it passes all checks |
| `GraphApp.HandleInput` | src/main/java/org/example/GraphApp.java:69-141 | a field that is not a Java int gives the "invalid number" alert; two ints are decided by `Validate`, the exact bound, that is the corrected check of the GraphApp.java:106 finding (the handler as written rejects (46342, 46341), see `ValidateAsWritten`) |
| `GraphApp.ValidateAsWritten` | src/main/java/org/example/GraphApp.java:75-110 | the same chain with the upper bound computed in 32-bit int arithmetic; it accepts only the pair itself and rejects exactly the non-positive / negative inputs as invalid |
| `GraphApp.Wrap32` | src/main/java/org/example/GraphApp.java:106 | Java int multiplication: the result is an int congruent to the exact product modulo 2^32, equal to it when it fits, and never above a non-negative exact value |
| `GraphApp.JavaHalf` | src/main/java/org/example/GraphApp.java:106 | Java int division by 2, truncating toward zero: exact halving for non-negative values, rounding up toward 0 for negative ones |
| `GraphApp.MaxSimpleEdgesAsWritten` | src/main/java/org/example/GraphApp.java:106 | the bound `numNodes * (numNodes - 1) / 2` as Java computes it: always an int, equal to n(n-1)/2 for 1 ≤ n ≤ 46341, never above n(n-1)/2 for any int n ≥ 1 |
| `GraphApp.OverflowRejectsSpanningTree` | src/main/java/org/example/GraphApp.java:106 | (46342, 46341) is accepted by the exact check and rejected as "too many edges" by the 32-bit one |
| `GraphApp.AsWrittenExactWithoutOverflow` | src/main/java/org/example/GraphApp.java:106-110 | up to 46341 vertices the 32-bit check decides every pair as the exact one does |
| `GraphApp.AsWrittenNeverAdmitsMore` | src/main/java/org/example/GraphApp.java:106-110 | the 32-bit check never accepts a pair the exact check rejects |
| `GraphApp.AcceptedMeetsBuilderNeeds` | src/main/java/org/example/GraphApp.java:75-110 | every accepted pair has numNodes ≥ 1 and numEdges ≥ numNodes-1; apart from the three special pairs numEdges ≤ n(n-1)/2; outside the fixed topologies numEdges ≤ n(n-1)/2 + n |
| `GraphApp.AcceptedRequestNeverStalls` | src/main/java/org/example/GraphVisualizer.java:184-203 | for an accepted pair on the random path, while edges are missing there is always an acceptable sample |
| `GraphApp.OnGenerate` | src/main/java/org/example/GraphApp.java:68-142 | the handler's verdict is `HandleInput`'s; a rejected input draws nothing; for an accepted one the built graph and its spanning tree (ghost results) carry every promise of `GenerateRandomGraph`, the commands are exactly `Commands` of it, the reported count is its `CountLoops`, equals the loops drawn and is at most numNodes, and on the random path a stream holding every in-range pair yields exactly numEdges edges |

## Findings

| source | as written | input that shows it | evidently intended | confidence | as-written member | corrected member |
|---|---|---|---|---|---|---|
| src/main/java/org/example/GraphApp.java:106 | `numNodes * (numNodes - 1) / 2` is computed in 32-bit `int`; for numNodes ≥ 46342 the product wraps | (46342, 46341): the product 2147534622 wraps to -2147432674, the bound becomes -1073716337, and a plain spanning-tree request is rejected as "too many edges" | the exact bound n(n-1)/2, which accepts the request | high; not executed, follows from Java's `int` semantics | `GraphApp.ValidateAsWritten`, `GraphApp.OverflowRejectsSpanningTree` | `GraphApp.Validate` (used by `HandleInput`, `OnGenerate` and the end-to-end lemmas) |

## Left out

- JavaFX windows, scenes, panes, labels and alert dialogs (`start`, `updateGraphWindow` with its lazily created stage, `showAlert`): user-interface plumbing. An alert is modelled as the `Alert` verdict.
- Floating-point geometry: the circular layout with `cos`/`sin`, the arrowhead trigonometry of `addArrow`, and the control points of the loop curve. Draw commands carry vertex numbers only.
- `java.util.Random`: a tree parent is any value below the vertex, and the resampling loop reads a finite stream of draws. `FreeSlotExists` proves that an acceptable draw always exists below the target.
- GraphVisualizer.GenerateRandomGraph: that the Java resampling loop ends with probability 1 is not proved. What is proved is that every draw it used is refused by the result, and that it reaches max(numEdges, n-1) edges once the stream has offered every in-range pair.
- GraphVisualizer.AddRandomEdges: likewise, probability-1 termination of the Java loop is not proved; its completion is proved for any stream that offers every in-range pair.
- `Integer.parseInt` and `NumberFormatException`: library parsing. A field's result is `Number(value)` with a 32-bit value, or `NotANumber`. Text that is not a number, or a number outside the int range, is `NotANumber`, since both throw the same exception.
- Log4j logging, the `System.nanoTime` timing and its label, and the unused list of vertex names: they do not affect the graph.
- `HashMap` iteration order: `DisplayEdges` visits keys in ascending order. The counting properties (`SegmentsMatchEntries`, `LoopDrawnOnce`, `MutualEdgeDrawnTwice`, `LoopDrawsMatchCount`) do not depend on that order. The exact (2,2) and (2,3) drawings in `DisplayGraph` do: they assume key 0 is visited before key 1, which is what `HashMap` does for small integer keys.
- Java `int` overflow of the builder's counters: `edgesAdded` is n-1 after the tree phase and never exceeds max(numEdges, n-1) in the resampling loop (`AddRandomEdges`), and `loopsCount` never exceeds the edges added there; all of these bounds are Java ints, so the counters cannot wrap. The overflow that matters, in the validation bound, is the finding above.
- GraphVisualizer.GenerateRandomGraph: requires numNodes ≥ 1 unless numEdges ≤ 0. With no vertices and a positive edge target, the Java code throws `IllegalArgumentException` from `random.nextInt(0)` (GraphVisualizer.java:185). That error path is not modelled. The handler rejects such input first (GraphApp.java:75), so it never arises through the application.

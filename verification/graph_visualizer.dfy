/**
  The random graph builder and the renderer's choice of what to draw.

  The builder fills an adjacency map in place: an empty list per vertex, two
  fixed topologies returned early, then a random spanning tree, then random
  (from, to) samples until the requested number of edges is reached. The
  random source is a parameter: the spanning tree takes any parent below the
  vertex (nondeterministic choice), and the resampling loop consumes a finite
  stream of samples, one pair of draws per iteration.
 */
module GraphVisualizer {
  import opened AdjacencyMap

  function Max(a: int, b: int): int
  {
    if a < b then b else a
  }

  // ---------------------------------------------------------------------------
  // Counting self-loops and edges

  /** The number of times x occurs in s. */
  function Occurrences(s: seq<int>, x: int): (r: nat)
    ensures r == 0 <==> x !in s
    ensures r <= |s|
  {
    if s == [] then 0
    else
      var init, y := s[..|s| - 1], s[|s| - 1];
      assert s == init + [y];
      Occurrences(init, x) + (if y == x then 1 else 0)
  }

  /** The number of adjacency entries equal to their own key, over the vertices below n. */
  function CountLoops(g: Graph, n: int): (r: nat)
    requires Covers(g, n)
    ensures r == 0 <==> forall u :: 0 <= u < n ==> u !in g[u]
    decreases n
  {
    if n <= 0 then 0 else CountLoops(g, n - 1) + Occurrences(g[n - 1], n - 1)
  }

  /** Plain edges plus self-loops: what the builder's edgesAdded counter counts. */
  function EdgeCount(g: Graph, n: int): nat
    requires Covers(g, n)
  {
    PlainEdgeCount(g, n) + CountLoops(g, n)
  }

  /** The number of edges of a spanning tree on n vertices. */
  function TreeEdges(n: int): nat
  {
    if n >= 1 then n - 1 else 0
  }

  /** Appending y to x's list adds one self-loop exactly when y is x. */
  lemma {:induction false} CountLoopsAppend(g: Graph, x: int, y: int, k: int)
    requires x in g && Covers(g, k)
    ensures Covers(g[x := g[x] + [y]], k)
    ensures CountLoops(g[x := g[x] + [y]], k)
            == CountLoops(g, k) + (if 0 <= x < k && y == x then 1 else 0)
    decreases k
  {
    if k > 0 {
      CountLoopsAppend(g, x, y, k - 1);
      if x == k - 1 {
        assert (g[x] + [y])[..|g[x]|] == g[x];
      }
    }
  }

  lemma {:induction false} DistinctOccurrences(s: seq<int>, x: int)
    requires Distinct(s)
    ensures Occurrences(s, x) == if x in s then 1 else 0
    decreases |s|
  {
    if s != [] {
      var init := s[..|s| - 1];
      assert s == init + [s[|s| - 1]];
      DistinctOccurrences(init, x);
    }
  }

  /** With no duplicate entries, a vertex has at most one self-loop, so there are at most n of them. */
  lemma {:induction false} LoopsAtMostVertices(g: Graph, n: int)
    requires Covers(g, n) && NoDuplicates(g)
    ensures CountLoops(g, n) <= Max(n, 0)
    decreases n
  {
    if n > 0 {
      LoopsAtMostVertices(g, n - 1);
      DistinctOccurrences(g[n - 1], n - 1);
    }
  }

  // ---------------------------------------------------------------------------
  // The builder, phase by phase

  ghost predicate SamplesInRange(samples: seq<(int, int)>, n: int)
  {
    forall k :: 0 <= k < |samples| ==> 0 <= samples[k].0 < n && 0 <= samples[k].1 < n
  }

  /** Every vertex 0..numNodes-1 gets an empty neighbour list. */
  method EmptyGraph(numNodes: int) returns (graph: Graph)
    ensures HasVertices(graph, numNodes)
    ensures forall u :: u in graph ==> graph[u] == []
  {
    graph := map[];
    var i := 0;
    while i < numNodes
      invariant 0 <= i && (i <= numNodes || i == 0)
      invariant forall u :: u in graph <==> 0 <= u < i
      invariant forall u :: u in graph ==> graph[u] == []
    {
      graph := graph[i := []];
      i := i + 1;
    }
  }

  /**
    The spanning-tree phase: each vertex i >= 1 takes a parent below it and
    the edge is stored in both directions, one edge per vertex.
   */
  method AddSpanningTree(graph0: Graph, numNodes: int) returns (graph: Graph, edgesAdded: int)
    requires HasVertices(graph0, numNodes)
    requires forall u :: u in graph0 ==> graph0[u] == []
    ensures Wellformed(graph, numNodes) && HasTreeParents(graph, numNodes)
    ensures edgesAdded == TreeEdges(numNodes)
    ensures PlainEdgeCount(graph, numNodes) == edgesAdded && CountLoops(graph, numNodes) == 0
  {
    graph := graph0;
    edgesAdded := 0;
    EmptyCounts(graph, numNodes);
    var i := 1;
    while i < numNodes
      invariant 1 <= i && (i <= numNodes || numNodes < 1)
      invariant Wellformed(graph, numNodes)
      invariant forall u, v :: u in graph && v in graph[u] ==> v < i
      invariant forall u :: i <= u < numNodes ==> graph[u] == []
      invariant HasTreeParents(graph, i)
      invariant edgesAdded == i - 1 == PlainEdgeCount(graph, numNodes)
      invariant CountLoops(graph, numNodes) == 0
    {
      var parent :| 0 <= parent < i;
      var next := AddPlain(graph, i, parent);
      TreeStep(graph, next, numNodes, i, parent);
      graph := next;
      edgesAdded := edgesAdded + 1;
      i := i + 1;
    }
  }

  /** One step of the tree phase: vertex i takes parent, and the loop's invariant moves on to i + 1. */
  lemma TreeStep(g: Graph, h: Graph, n: int, i: int, parent: int)
    requires 1 <= i < n && 0 <= parent < i && Wellformed(g, n) && HasTreeParents(g, i)
    requires h == AddPlain(g, i, parent)
    requires forall u, v :: u in g && v in g[u] ==> v < i
    requires forall u :: i <= u < n ==> g[u] == []
    requires PlainEdgeCount(g, n) == i - 1 && CountLoops(g, n) == 0
    ensures Wellformed(h, n) && HasTreeParents(h, i + 1)
    ensures forall u, v :: u in h && v in h[u] ==> v < i + 1
    ensures forall u :: i + 1 <= u < n ==> h[u] == []
    ensures PlainEdgeCount(h, n) == i && CountLoops(h, n) == 0
  {
    assert i !in g[parent];
    AddPlainKeepsWellformed(g, n, i, parent);
    AddPlainKeepsLoops(g, n, i, parent);
    AddPlainEntries(g, i, parent);
    TreeParentsGrow(g, h, i, parent);
  }

  /** A graph that keeps every entry of g and gives i a parent below it has tree parents up to i + 1. */
  lemma TreeParentsGrow(g: Graph, h: Graph, i: int, parent: int)
    requires HasTreeParents(g, i) && Extends(g, h)
    requires i in h && 0 <= parent < i && parent in h[i]
    ensures HasTreeParents(h, i + 1)
  {
    forall j | 1 <= j < i + 1
      ensures j in h && exists p :: 0 <= p < j && p in h[j]
    {
      if j < i {
        var p :| 0 <= p < j && p in g[j];
        assert p in h[j];
      }
    }
  }

  /**
    On a well-formed graph the builder's test reduces to one lookup: a
    sample is taken iff to is not yet listed by from, and the test gives the
    same answer for (to, from).
   */
  lemma AcceptableOneLookup(g: Graph, n: int, from: int, to: int)
    requires Wellformed(g, n) && 0 <= from < n && 0 <= to < n
    ensures Acceptable(g, from, to) <==> to !in g[from]
    ensures Acceptable(g, from, to) <==> Acceptable(g, to, from)
  {
  }

  lemma AddPlainKeepsLoops(g: Graph, n: int, u: int, v: int)
    requires u in g && v in g && u != v && Covers(g, n)
    ensures Covers(AddPlain(g, u, v), n) && CountLoops(AddPlain(g, u, v), n) == CountLoops(g, n)
  {
    CountLoopsAppend(g, u, v, n);
    CountLoopsAppend(g[u := g[u] + [v]], v, u, n);
  }

  /**
    Whether the builder takes the sample (from, to): a self-loop only if the
    vertex has none, a plain edge only if neither direction is present.
   */
  predicate Acceptable(g: Graph, from: int, to: int)
    requires from in g && to in g
  {
    if from == to then to !in g[from] else to !in g[from] && from !in g[to]
  }

  /** The builder would not take the sample (from, to) on g: its loop or its edge is already there. */
  ghost predicate Refused(g: Graph, from: int, to: int)
  {
    from in g && to in g && !Acceptable(g, from, to)
  }

  /** Every entry of h is an entry of g, or the entry (from, to) or (to, from). */
  ghost predicate AddsOnly(g: Graph, h: Graph, from: int, to: int)
  {
    forall u, v :: u in h && v in h[u] ==> (u in g && v in g[u]) || (u == from && v == to) || (u == to && v == from)
  }

  /**
    One iteration of the resampling loop on the drawn pair (from, to). A
    rejected sample changes nothing; an accepted one adds exactly one edge,
    made of the pair itself, and keeps the invariant.
   */
  method TrySample(graph: Graph, numNodes: int, from: int, to: int) returns (next: Graph, accepted: bool)
    requires Wellformed(graph, numNodes) && 0 <= from < numNodes && 0 <= to < numNodes
    ensures accepted == Acceptable(graph, from, to)
    ensures !accepted ==> next == graph
    ensures accepted ==> next == if from == to then AddLoop(graph, from) else AddPlain(graph, from, to)
    ensures Wellformed(next, numNodes) && Extends(graph, next)
    ensures Refused(next, from, to) && AddsOnly(graph, next, from, to)
    ensures EdgeCount(next, numNodes) == EdgeCount(graph, numNodes) + (if accepted then 1 else 0)
    ensures CountLoops(next, numNodes)
            == CountLoops(graph, numNodes) + (if accepted && from == to then 1 else 0)
  {
    next, accepted := graph, false;
    if from == to {
      if to !in graph[from] {
        AddLoopKeepsWellformed(graph, numNodes, from);
        CountLoopsAppend(graph, from, to, numNodes);
        next := graph[from := graph[from] + [to]];
        accepted := true;
      }
    } else {
      if to !in graph[from] && from !in graph[to] {
        AddPlainKeepsWellformed(graph, numNodes, from, to);
        AddPlainKeepsLoops(graph, numNodes, from, to);
        AddPlainEntries(graph, from, to);
        next := graph[from := graph[from] + [to]];
        next := next[to := next[to] + [from]];
        accepted := true;
      }
    }
  }

  /**
    Entries are only ever added, so a sample once refused stays refused: when
    g grows into h, which refuses sample m, the refused prefix grows by one.
   */
  lemma RefusedPrefixGrows(g: Graph, h: Graph, n: int, samples: seq<(int, int)>, m: int)
    requires 0 <= m < |samples| && Extends(g, h) && HasVertices(g, n) && HasVertices(h, n)
    requires forall k :: 0 <= k < m ==> Refused(g, samples[k].0, samples[k].1)
    requires Refused(h, samples[m].0, samples[m].1)
    ensures forall k :: 0 <= k < m + 1 ==> Refused(h, samples[k].0, samples[k].1)
  {
    forall k | 0 <= k < m
      ensures Refused(h, samples[k].0, samples[k].1)
    {
      var from, to := samples[k].0, samples[k].1;
      assert Refused(g, from, to);
      if to in g[from] {
        assert to in h[from];
      } else {
        assert from in h[to];
      }
    }
  }

  /** The entries (u, v), v in u's list, that g has and g0 does not. */
  ghost function NewEntries(g0: Graph, g: Graph): set<(int, int)>
  {
    set u, v | u in g && v in g[u] && !(u in g0 && v in g0[u]) :: (u, v)
  }

  /** The first m samples, each in its own direction and reversed. */
  ghost function DrawnPairs(samples: seq<(int, int)>, m: int): set<(int, int)>
    requires 0 <= m <= |samples|
  {
    (set k | 0 <= k < m :: samples[k]) + (set k | 0 <= k < m :: (samples[k].1, samples[k].0))
  }

  /**
    Every entry of g that g0 does not have comes from one of the first m
    samples, in its own direction or reversed: the loop adds nothing that
    was not drawn.
   */
  ghost predicate Sampled(g0: Graph, g: Graph, samples: seq<(int, int)>, m: int)
    requires 0 <= m <= |samples|
  {
    NewEntries(g0, g) <= DrawnPairs(samples, m)
  }

  /** A step that adds only sample m extends the sampled prefix by that sample. */
  lemma SampledGrows(g0: Graph, g: Graph, h: Graph, samples: seq<(int, int)>, m: int)
    requires 0 <= m < |samples| && Sampled(g0, g, samples, m)
    requires AddsOnly(g, h, samples[m].0, samples[m].1)
    ensures Sampled(g0, h, samples, m + 1)
  {
    forall e | e in NewEntries(g0, h)
      ensures e in DrawnPairs(samples, m + 1)
    {
      var u, v := e.0, e.1;
      if u in g && v in g[u] {
        assert e in NewEntries(g0, g);
        var k :| 0 <= k < m && (samples[k] == e || (samples[k].1, samples[k].0) == e);
        assert 0 <= k < m + 1;
      } else if samples[m] == e {
        assert e in (set k | 0 <= k < m + 1 :: samples[k]);
      } else {
        assert e == (samples[m].1, samples[m].0);
        assert e in (set k | 0 <= k < m + 1 :: (samples[k].1, samples[k].0));
      }
    }
  }

  /** Every in-range pair (from, to) occurs somewhere in the stream. */
  ghost predicate AllPairsDrawn(samples: seq<(int, int)>, n: int)
  {
    forall f, t :: 0 <= f < n && 0 <= t < n ==> (f, t) in samples
  }

  /**
    If every in-range pair was drawn and every drawn sample is refused, no
    sample is acceptable any more, so the graph is saturated (see
    FreeSlotExists) and has reached any target up to Capacity(n).
   */
  lemma ExhaustedStreamReachesTarget(g: Graph, n: int, target: int, samples: seq<(int, int)>)
    requires 1 <= n && Wellformed(g, n) && EdgeCount(g, n) <= target <= Capacity(n)
    requires AllPairsDrawn(samples, n)
    requires forall k :: 0 <= k < |samples| ==> Refused(g, samples[k].0, samples[k].1)
    ensures EdgeCount(g, n) == target
  {
    forall f, t | 0 <= f < n && 0 <= t < n
      ensures !Acceptable(g, f, t)
    {
      assert (f, t) in samples;
      var k :| 0 <= k < |samples| && samples[k] == (f, t);
      assert Refused(g, samples[k].0, samples[k].1);
    }
    SaturatedCount(g, n, n);
    CapacityIsSlots(n);
  }

  /**
    One pass of the resampling loop: draws samples[drawn] and tries it. The
    drawn prefix stays refused and stays the only source of new entries.
   */
  method DrawNext(graph0: Graph, graph: Graph, numNodes: int, samples: seq<(int, int)>, drawn: int)
    returns (next: Graph, accepted: bool, loop: bool)
    requires Wellformed(graph, numNodes) && SamplesInRange(samples, numNodes) && 0 <= drawn < |samples|
    requires HasVertices(graph0, numNodes) && Extends(graph0, graph)
    requires forall k :: 0 <= k < drawn ==> Refused(graph, samples[k].0, samples[k].1)
    requires Sampled(graph0, graph, samples, drawn)
    ensures loop == (samples[drawn].0 == samples[drawn].1)
    ensures Wellformed(next, numNodes) && Extends(graph0, next)
    ensures forall k :: 0 <= k < drawn + 1 ==> Refused(next, samples[k].0, samples[k].1)
    ensures Sampled(graph0, next, samples, drawn + 1)
    ensures EdgeCount(next, numNodes) == EdgeCount(graph, numNodes) + (if accepted then 1 else 0)
    ensures CountLoops(next, numNodes) == CountLoops(graph, numNodes) + (if accepted && loop then 1 else 0)
  {
    var from, to := samples[drawn].0, samples[drawn].1;
    loop := from == to;
    next, accepted := TrySample(graph, numNodes, from, to);
    RefusedPrefixGrows(graph, next, numNodes, samples, drawn);
    SampledGrows(graph0, graph, next, samples, drawn);
  }

  /**
    The resampling phase: samples are drawn until the edge count reaches
    numEdges. Here the stream of samples is finite, so the loop also ends
    when it is used up (drawn == |samples|). Every drawn sample is refused by
    the final graph, so a stream holding every in-range pair reaches the
    target.
   */
  method AddRandomEdges(graph0: Graph, numNodes: int, numEdges: int, edgesAdded0: int,
                        samples: seq<(int, int)>)
    returns (graph: Graph, edgesAdded: int, loopsCount: int, drawn: nat)
    requires Wellformed(graph0, numNodes) && SamplesInRange(samples, numNodes)
    requires edgesAdded0 == EdgeCount(graph0, numNodes)
    ensures Wellformed(graph, numNodes) && Extends(graph0, graph)
    ensures edgesAdded == EdgeCount(graph, numNodes)
    ensures edgesAdded0 <= edgesAdded <= Max(edgesAdded0, numEdges)
    ensures edgesAdded == Max(edgesAdded0, numEdges) || drawn == |samples|
    ensures drawn <= |samples|
    ensures loopsCount == CountLoops(graph, numNodes) - CountLoops(graph0, numNodes)
    ensures 0 <= loopsCount <= edgesAdded - edgesAdded0
    ensures forall k :: 0 <= k < drawn ==> Refused(graph, samples[k].0, samples[k].1)
    ensures Sampled(graph0, graph, samples, drawn)
    ensures 1 <= numNodes && AllPairsDrawn(samples, numNodes) && Max(edgesAdded0, numEdges) <= Capacity(numNodes)
            ==> edgesAdded == Max(edgesAdded0, numEdges)
  {
    graph, edgesAdded, loopsCount, drawn := graph0, edgesAdded0, 0, 0;
    while edgesAdded < numEdges && drawn < |samples|
      invariant 0 <= drawn <= |samples|
      invariant Wellformed(graph, numNodes) && Extends(graph0, graph)
      invariant edgesAdded == EdgeCount(graph, numNodes)
      invariant edgesAdded0 <= edgesAdded <= Max(edgesAdded0, numEdges)
      invariant loopsCount == CountLoops(graph, numNodes) - CountLoops(graph0, numNodes)
      invariant 0 <= loopsCount <= edgesAdded - edgesAdded0
      invariant forall k :: 0 <= k < drawn ==> Refused(graph, samples[k].0, samples[k].1)
      invariant Sampled(graph0, graph, samples, drawn)
      decreases |samples| - drawn
    {
      var accepted, loop;
      graph, accepted, loop := DrawNext(graph0, graph, numNodes, samples, drawn);
      drawn := drawn + 1;
      if accepted {
        edgesAdded := edgesAdded + 1;
        if loop {
          loopsCount := loopsCount + 1;
        }
      }
    }
    if 1 <= numNodes && AllPairsDrawn(samples, numNodes) && Max(edgesAdded0, numEdges) <= Capacity(numNodes)
       && drawn == |samples|
    {
      ExhaustedStreamReachesTarget(graph, numNodes, Max(edgesAdded0, numEdges), samples);
    }
  }

  /** The pairs that the builder answers with a fixed topology instead of the random one. */
  predicate FixedTopology(numNodes: int, numEdges: int)
  {
    numNodes == 2 && (numEdges == 2 || numEdges == 3)
  }

  /**
    What the builder promises about the graph it returns after using the
    first `drawn` samples of the stream: vertices 0..numNodes-1 with in-range,
    duplicate-free neighbour lists; the two fixed drawings for (2, 2) and
    (2, 3); otherwise a symmetric graph made of the spanning tree `tree`
    (numNodes - 1 plain edges, every vertex with a parent, no loop) and of
    drawn samples only, with between numNodes - 1 and max(numNodes - 1,
    numEdges) edges, at most one loop per added edge, every drawn sample
    refused by the result, and the target reached whenever the stream holds
    every in-range pair and the target fits.
   */
  ghost predicate Generated(graph: Graph, tree: Graph, numNodes: int, numEdges: int,
                            samples: seq<(int, int)>, drawn: int)
  {
    && 0 <= drawn <= |samples|
    && HasVertices(graph, numNodes) && EntriesInRange(graph, numNodes) && NoDuplicates(graph)
    && (numNodes == 2 && numEdges == 2 ==> graph == map[0 := [0, 1], 1 := []])
    && (numNodes == 2 && numEdges == 3 ==> graph == map[0 := [0, 1], 1 := [1]])
    && (!FixedTopology(numNodes, numEdges) ==>
          && Wellformed(tree, numNodes) && HasTreeParents(tree, numNodes)
          && EdgeCount(tree, numNodes) == TreeEdges(numNodes) && CountLoops(tree, numNodes) == 0
          && Extends(tree, graph) && Sampled(tree, graph, samples, drawn)
          && Symmetric(graph)
          && HasTreeParents(graph, numNodes)
          && TreeEdges(numNodes) <= EdgeCount(graph, numNodes) <= Max(TreeEdges(numNodes), numEdges)
          && (EdgeCount(graph, numNodes) == Max(TreeEdges(numNodes), numEdges) || drawn == |samples|)
          && CountLoops(graph, numNodes) <= EdgeCount(graph, numNodes) - TreeEdges(numNodes)
          && (forall k :: 0 <= k < drawn ==> Refused(graph, samples[k].0, samples[k].1))
          && (AllPairsDrawn(samples, numNodes) && numEdges <= Capacity(numNodes)
              ==> EdgeCount(graph, numNodes) == Max(TreeEdges(numNodes), numEdges)))
  }

  /**
    The whole builder. The random parents are chosen nondeterministically;
    `samples` is the stream of (from, to) draws of the resampling loop and
    `drawn` how many of them it used. It asks the random source for a number
    below numNodes only when numNodes >= 1 or no edge is requested.
   */
  method GenerateRandomGraph(numNodes: int, numEdges: int, samples: seq<(int, int)>)
    returns (graph: Graph, drawn: nat, ghost tree: Graph)
    requires numNodes >= 1 || numEdges <= 0
    requires SamplesInRange(samples, numNodes)
    ensures Generated(graph, tree, numNodes, numEdges, samples, drawn)
  {
    graph := EmptyGraph(numNodes);
    drawn, tree := 0, graph;

    if numNodes == 2 && numEdges == 2 {
      graph := graph[0 := graph[0] + [0]];
      graph := graph[0 := graph[0] + [1]];
      FixedTopologyShape(graph, []);
      return;
    }

    if numNodes == 2 && numEdges == 3 {
      graph := graph[0 := graph[0] + [0]];
      graph := graph[1 := graph[1] + [1]];
      graph := graph[0 := graph[0] + [1]];
      FixedTopologyShape(graph, [1]);
      return;
    }

    var edgesAdded, loopsCount;
    graph, edgesAdded := AddSpanningTree(graph, numNodes);
    tree := graph;
    graph, edgesAdded, loopsCount, drawn := AddRandomEdges(graph, numNodes, numEdges, edgesAdded, samples);
    TreeParentsKept(tree, graph, numNodes);
  }

  /**
    On the random path, a builder that drew no sample returns the tree's
    entries and nothing more: whatever the loop adds comes from the stream.
   */
  lemma NoDrawKeepsTree(graph: Graph, tree: Graph, numNodes: int, numEdges: int, samples: seq<(int, int)>)
    requires Generated(graph, tree, numNodes, numEdges, samples, 0) && !FixedTopology(numNodes, numEdges)
    ensures forall u, v :: (u in graph && v in graph[u]) <==> (u in tree && v in tree[u])
  {
    forall u, v | u in graph && v in graph[u]
      ensures u in tree && v in tree[u]
    {
      assert (u, v) !in DrawnPairs(samples, 0);
    }
  }

  lemma TreeParentsKept(g: Graph, h: Graph, k: int)
    requires HasTreeParents(g, k) && Extends(g, h)
    ensures HasTreeParents(h, k)
  {
    forall i | 1 <= i < k
      ensures i in h && exists p :: 0 <= p < i && p in h[i]
    {
      var p :| 0 <= p < i && p in g[i];
      assert p in h[i];
    }
  }

  /** Both fixed topologies: vertex 0 lists itself and 1, vertex 1 lists `second` ([] or [1]). */
  lemma FixedTopologyShape(g: Graph, second: seq<int>)
    requires HasVertices(g, 2) && g[0] == [0, 1] && g[1] == second && (second == [] || second == [1])
    ensures g == map[0 := [0, 1], 1 := second]
    ensures EntriesInRange(g, 2) && NoDuplicates(g)
  {
    var m: Graph := map[0 := [0, 1], 1 := second];
    assert forall u :: u in g <==> u in m;
  }

  /** Empty lists hold no plain edge and no loop. */
  lemma {:induction false} EmptyCounts(g: Graph, k: int)
    requires Covers(g, k) && forall u :: 0 <= u < k ==> g[u] == []
    ensures PlainEdgeCount(g, k) == 0 && CountLoops(g, k) == 0
    decreases k
  {
    if k > 0 {
      EmptyCounts(g, k - 1);
    }
  }

  // ---------------------------------------------------------------------------
  // The resampling loop can always make progress

  /** The most edges the general path can hold: every unordered pair once, plus one loop per vertex. */
  function Capacity(n: int): int
  {
    n * (n - 1) / 2 + n
  }

  /** The slots of the vertices below k: vertex u can hold its loop and the edges to u+1..n-1. */
  function Slots(n: int, k: int): int
    decreases k
  {
    if k <= 0 then 0 else Slots(n, k - 1) + (n - (k - 1))
  }

  lemma {:induction false} SlotsClosedForm(n: int, k: nat)
    ensures 2 * Slots(n, k) == 2 * k * n - k * (k - 1)
  {
    if k > 0 {
      SlotsClosedForm(n, k - 1);
      assert 2 * (k - 1) * n - (k - 1) * (k - 2) + 2 * (n - (k - 1)) == 2 * k * n - k * (k - 1);
    }
  }

  lemma CapacityIsSlots(n: nat)
    ensures Slots(n, n) == Capacity(n)
  {
    SlotsClosedForm(n, n);
    assert 2 * n * n - n * (n - 1) == n * (n - 1) + 2 * n;
  }

  lemma {:induction false} UpperEntriesAtLeastSet(s: seq<int>, u: int)
    ensures UpperEntries(s, u) >= |set v | v in s && v > u|
    decreases |s|
  {
    if s != [] {
      var init, y := s[..|s| - 1], s[|s| - 1];
      UpperEntriesAtLeastSet(init, u);
      assert s == init + [y];
      var before := set v | v in init && v > u;
      var after := set v | v in s && v > u;
      if y > u {
        assert after == before + {y};
      } else {
        assert after == before;
      }
    }
  }

  /** The vertices strictly between u and n. */
  function Between(u: int, n: int): (r: set<int>)
    ensures forall v :: v in r <==> u < v < n
    decreases n - u
  {
    if n <= u + 1 then {} else Between(u, n - 1) + {n - 1}
  }

  lemma {:induction false} BetweenSize(u: int, n: int)
    requires u < n
    ensures |Between(u, n)| == n - 1 - u
    decreases n - u
  {
    if u < n - 1 {
      BetweenSize(u, n - 1);
    }
  }

  /** A list that holds every vertex above u and below n has at least n-1-u upper entries. */
  lemma UpperEntriesFull(s: seq<int>, u: int, n: int)
    requires forall v :: u < v < n ==> v in s
    ensures UpperEntries(s, u) >= n - 1 - u
  {
    if u < n {
      var above := set v | v in s && v > u;
      assert Between(u, n) <= above;
      UpperEntriesAtLeastSet(s, u);
      BetweenSize(u, n);
      SubsetSize(Between(u, n), above);
    }
  }

  lemma SubsetSize(a: set<int>, b: set<int>)
    requires a <= b
    ensures |a| <= |b|
  {
    assert b == a + (b - a);
  }

  /** When no sample is acceptable, the vertices below k fill all of their slots. */
  lemma {:induction false} SaturatedCount(g: Graph, n: int, k: int)
    requires Wellformed(g, n) && 0 <= k <= n
    requires forall f, t :: 0 <= f < n && 0 <= t < n ==> !Acceptable(g, f, t)
    ensures EdgeCount(g, k) >= Slots(n, k)
    decreases k
  {
    if k > 0 {
      SaturatedCount(g, n, k - 1);
      var u := k - 1;
      assert !Acceptable(g, u, u);
      DistinctOccurrences(g[u], u);
      forall v | u < v < n
        ensures v in g[u]
      {
        assert !Acceptable(g, u, v);
      }
      UpperEntriesFull(g[u], u, n);
    }
  }

  /**
    While the builder's edge count is below Capacity(n), some in-range
    sample is acceptable: each draw of the resampling loop is accepted with
    positive probability, so the loop never gets stuck for good.
   */
  lemma FreeSlotExists(g: Graph, n: int) returns (from: int, to: int)
    requires 1 <= n && Wellformed(g, n) && EdgeCount(g, n) < Capacity(n)
    ensures 0 <= from < n && 0 <= to < n && Acceptable(g, from, to)
  {
    if forall f, t :: 0 <= f < n && 0 <= t < n ==> !Acceptable(g, f, t) {
      SaturatedCount(g, n, n);
      CapacityIsSlots(n);
      assert false;
    }
    from, to :| 0 <= from < n && 0 <= to < n && Acceptable(g, from, to);
  }

  /** With one vertex and one edge the general path can only end with the single self-loop. */
  lemma SingleVertexGraph(g: Graph)
    requires Wellformed(g, 1) && EdgeCount(g, 1) == 1
    ensures g == map[0 := [0]]
  {
    var s := g[0];
    forall i | 0 <= i < |s|
      ensures s[i] == 0
    {
      assert s[i] in g[0];
    }
    ConstantList(s, 0);
    DistinctOccurrences(s, 0);
    assert |s| == 1;
    assert s == [0];
    var m: Graph := map[0 := [0]];
    assert forall u :: u in g <==> u in m;
  }

  /** A list holding only x holds x |s| times and nothing above x. */
  lemma {:induction false} ConstantList(s: seq<int>, x: int)
    requires forall i :: 0 <= i < |s| ==> s[i] == x
    ensures Occurrences(s, x) == |s| && UpperEntries(s, x) == 0
    decreases |s|
  {
    if s != [] {
      var init := s[..|s| - 1];
      ConstantList(init, x);
      assert s == init + [x];
    }
  }

  // ---------------------------------------------------------------------------
  // What displayEdges draws

  /** A draw command, with the coordinates abstracted away. */
  datatype Draw = Segment(from: int, to: int) | Loop(vertex: int)

  /**
    The commands emitted for vertex u's list s, in order: a segment per
    entry other than u, and a loop for the first entry equal to u only.
   */
  function VertexCommands(u: int, s: seq<int>): seq<Draw>
  {
    if s == [] then []
    else
      var init, v := s[..|s| - 1], s[|s| - 1];
      VertexCommands(u, init) + (if v != u then [Segment(u, v)] else if u in init then [] else [Loop(u)])
  }

  lemma VertexCommandsSnoc(u: int, pre: seq<int>, v: int)
    ensures VertexCommands(u, pre + [v])
            == VertexCommands(u, pre) + (if v != u then [Segment(u, v)] else if u in pre then [] else [Loop(u)])
  {
    assert (pre + [v])[..|pre|] == pre;
  }

  /** The commands emitted for the vertices below k, visited in ascending order. */
  function Commands(g: Graph, k: int): seq<Draw>
    requires Covers(g, k)
    decreases k
  {
    if k <= 0 then [] else Commands(g, k - 1) + VertexCommands(k - 1, g[k - 1])
  }

  /** The number of loop commands among cmds. */
  function LoopDraws(cmds: seq<Draw>): nat
  {
    if cmds == [] then 0 else LoopDraws(cmds[..|cmds| - 1]) + (if cmds[|cmds| - 1].Loop? then 1 else 0)
  }

  /**
    displayEdges: visits every vertex in turn and draws its neighbour list;
    loopCounts, shared by all vertices, records the vertices whose loop is
    drawn.
   */
  method DisplayEdges(graph: Graph, numNodes: int) returns (cmds: seq<Draw>)
    requires HasVertices(graph, numNodes)
    ensures cmds == Commands(graph, numNodes)
  {
    var loopCounts: map<int, int> := map[];
    cmds := [];
    var node := 0;
    while node < numNodes
      invariant 0 <= node && (node <= numNodes || node == 0)
      invariant cmds == Commands(graph, node)
      invariant forall w :: w in loopCounts ==> w < node
    {
      var drawnHere;
      drawnHere, loopCounts := DrawNeighbors(node, graph[node], loopCounts);
      cmds := cmds + drawnHere;
      node := node + 1;
    }
  }

  /**
    The inner walk of displayEdges over one vertex's list, with drawLoop
    inlined: a segment for each entry other than the vertex, a loop for a
    self entry only while the vertex's loopCounts entry is still 0.
   */
  method DrawNeighbors(node: int, neighbors: seq<int>, loopCounts0: map<int, int>)
    returns (cmds: seq<Draw>, loopCounts: map<int, int>)
    requires node !in loopCounts0
    ensures cmds == VertexCommands(node, neighbors)
    ensures loopCounts == if node in neighbors then loopCounts0[node := 1] else loopCounts0
  {
    cmds, loopCounts := [], loopCounts0;
    var j := 0;
    ghost var seen := false;
    while j < |neighbors|
      invariant 0 <= j <= |neighbors|
      invariant cmds == VertexCommands(node, neighbors[..j])
      invariant seen <==> node in neighbors[..j]
      invariant loopCounts == if seen then loopCounts0[node := 1] else loopCounts0
    {
      var neighbor := neighbors[j];
      assert neighbors[..j + 1] == neighbors[..j] + [neighbor];
      VertexCommandsSnoc(node, neighbors[..j], neighbor);
      var step;
      step, loopCounts := VisitNeighbor(node, neighbor, loopCounts);
      cmds := cmds + step;
      seen := seen || node == neighbor;
      j := j + 1;
    }
    assert neighbors[..j] == neighbors;
  }

  /**
    The body of the inner forEach of displayEdges for one entry, with
    drawLoop inlined: a segment for an entry other than the vertex; for a
    self entry, a loop only if the vertex's loopCounts entry is still 0,
    which then becomes 1.
   */
  method VisitNeighbor(node: int, neighbor: int, loopCounts0: map<int, int>)
    returns (cmds: seq<Draw>, loopCounts: map<int, int>)
    requires node in loopCounts0 ==> loopCounts0[node] == 1
    ensures node != neighbor ==> cmds == [Segment(node, neighbor)] && loopCounts == loopCounts0
    ensures node == neighbor && node !in loopCounts0 ==> cmds == [Loop(node)] && loopCounts == loopCounts0[node := 1]
    ensures node == neighbor && node in loopCounts0 ==> cmds == [] && loopCounts == loopCounts0
  {
    cmds, loopCounts := [], loopCounts0;
    if node == neighbor {
      var loopIndex0 := if node in loopCounts then loopCounts[node] else 0;
      if loopIndex0 == 0 {
        // drawLoop: reads the same entry again, unchanged since the test
        var loopIndex := loopIndex0;
        cmds := [Loop(node)];
        loopCounts := loopCounts[node := loopIndex + 1];
        loopCounts := loopCounts[node := 1];
      }
    } else {
      cmds := [Segment(node, neighbor)];
    }
  }

  function Count(cmds: seq<Draw>, c: Draw): nat
  {
    if cmds == [] then 0 else Count(cmds[..|cmds| - 1], c) + (if cmds[|cmds| - 1] == c then 1 else 0)
  }

  lemma {:induction false} CountConcat(a: seq<Draw>, b: seq<Draw>, c: Draw)
    ensures Count(a + b, c) == Count(a, c) + Count(b, c)
    decreases |b|
  {
    if b != [] {
      var init := b[..|b| - 1];
      assert (a + b)[..|a + b| - 1] == a + init;
      assert (a + b)[|a + b| - 1] == b[|b| - 1];
      CountConcat(a, init, c);
    } else {
      assert a + b == a;
    }
  }

  lemma {:induction false} VertexSegments(w: int, s: seq<int>, u: int, v: int)
    requires u != v
    ensures Count(VertexCommands(w, s), Segment(u, v)) == if w == u then Occurrences(s, v) else 0
    decreases |s|
  {
    if s != [] {
      var init, y := s[..|s| - 1], s[|s| - 1];
      var tail := if y != w then [Segment(w, y)] else if w in init then [] else [Loop(w)];
      var before := VertexCommands(w, init);
      assert VertexCommands(w, s) == before + tail;
      assert Count(before, Segment(u, v)) == if w == u then Occurrences(init, v) else 0 by {
        VertexSegments(w, init, u, v);
      }
      assert Count(tail, Segment(u, v)) == (if w == u && y == v then 1 else 0) by {
        if tail != [] {
          assert tail[..0] == [];
        }
      }
      CountConcat(before, tail, Segment(u, v));
    }
  }

  lemma {:induction false} VertexLoops(w: int, s: seq<int>, u: int)
    ensures Count(VertexCommands(w, s), Loop(u)) == if w == u && u in s then 1 else 0
    decreases |s|
  {
    if s != [] {
      var init, y := s[..|s| - 1], s[|s| - 1];
      var tail := if y != w then [Segment(w, y)] else if w in init then [] else [Loop(w)];
      var before := VertexCommands(w, init);
      assert VertexCommands(w, s) == before + tail;
      assert Count(before, Loop(u)) == if w == u && u in init then 1 else 0 by {
        VertexLoops(w, init, u);
      }
      assert Count(tail, Loop(u)) == (if w == u && y == u && u !in init then 1 else 0) by {
        if tail != [] {
          assert tail[..0] == [];
        }
      }
      assert u in s <==> u in init || y == u by {
        assert s == init + [y];
      }
      CountConcat(before, tail, Loop(u));
    }
  }

  lemma {:induction false} OccurrencesIsMultiset(s: seq<int>, x: int)
    ensures Occurrences(s, x) == multiset(s)[x]
    decreases |s|
  {
    if s != [] {
      var init := s[..|s| - 1];
      OccurrencesIsMultiset(init, x);
      assert s == init + [s[|s| - 1]];
    }
  }

  lemma {:induction false} SegmentsByOccurrences(g: Graph, k: int, u: int, v: int)
    requires Covers(g, k) && u != v
    ensures Count(Commands(g, k), Segment(u, v)) == if 0 <= u < k then Occurrences(g[u], v) else 0
    decreases k
  {
    if k > 0 {
      SegmentsByOccurrences(g, k - 1, u, v);
      VertexSegments(k - 1, g[k - 1], u, v);
      CountConcat(Commands(g, k - 1), VertexCommands(k - 1, g[k - 1]), Segment(u, v));
    }
  }

  /** One segment (u, v) is drawn per entry v != u of u's list. */
  lemma SegmentsMatchEntries(g: Graph, k: int, u: int, v: int)
    requires Covers(g, k) && u != v
    ensures Count(Commands(g, k), Segment(u, v)) == if 0 <= u < k then multiset(g[u])[v] else 0
  {
    SegmentsByOccurrences(g, k, u, v);
    if 0 <= u < k {
      OccurrencesIsMultiset(g[u], v);
    }
  }

  /** A vertex gets one loop drawn if it lists itself, however often, and none otherwise. */
  lemma {:induction false} LoopDrawnOnce(g: Graph, k: int, u: int)
    requires Covers(g, k)
    ensures Count(Commands(g, k), Loop(u)) == if 0 <= u < k && u in g[u] then 1 else 0
    decreases k
  {
    if k > 0 {
      var before, row := Commands(g, k - 1), VertexCommands(k - 1, g[k - 1]);
      assert Commands(g, k) == before + row;
      LoopDrawnOnce(g, k - 1, u);
      VertexLoops(k - 1, g[k - 1], u);
      CountConcat(before, row, Loop(u));
    }
  }

  /** A plain edge of a well-formed graph is drawn twice, once from each end. */
  lemma MutualEdgeDrawnTwice(g: Graph, n: int, u: int, v: int)
    requires Wellformed(g, n) && u in g && v in g[u] && u != v
    ensures Count(Commands(g, n), Segment(u, v)) == 1
    ensures Count(Commands(g, n), Segment(v, u)) == 1
  {
    SegmentsByOccurrences(g, n, u, v);
    SegmentsByOccurrences(g, n, v, u);
    DistinctOccurrences(g[u], v);
    DistinctOccurrences(g[v], u);
  }

  lemma {:induction false} LoopDrawsConcat(a: seq<Draw>, b: seq<Draw>)
    ensures LoopDraws(a + b) == LoopDraws(a) + LoopDraws(b)
    decreases |b|
  {
    if b != [] {
      var init := b[..|b| - 1];
      assert (a + b)[..|a + b| - 1] == a + init;
      assert (a + b)[|a + b| - 1] == b[|b| - 1];
      LoopDrawsConcat(a, init);
      assert LoopDraws(a + b) == LoopDraws(a + init) + (if b[|b| - 1].Loop? then 1 else 0);
    } else {
      assert a + b == a;
    }
  }

  lemma {:induction false} VertexLoopDraws(w: int, s: seq<int>)
    ensures LoopDraws(VertexCommands(w, s)) == if w in s then 1 else 0
    decreases |s|
  {
    if s != [] {
      var init, y := s[..|s| - 1], s[|s| - 1];
      var tail := if y != w then [Segment(w, y)] else if w in init then [] else [Loop(w)];
      var before := VertexCommands(w, init);
      assert VertexCommands(w, s) == before + tail;
      assert LoopDraws(before) == if w in init then 1 else 0 by {
        VertexLoopDraws(w, init);
      }
      assert LoopDraws(tail) == (if y == w && w !in init then 1 else 0) by {
        if tail != [] {
          assert tail[..0] == [];
        }
      }
      assert w in s <==> w in init || y == w by {
        assert s == init + [y];
      }
      LoopDrawsConcat(before, tail);
    }
  }

  /**
    With no duplicate entries, the number of loops drawn equals the loop
    count reported beside the drawing.
   */
  lemma {:induction false} LoopDrawsMatchCount(g: Graph, k: int)
    requires Covers(g, k) && NoDuplicates(g)
    ensures LoopDraws(Commands(g, k)) == CountLoops(g, k)
    decreases k
  {
    if k > 0 {
      var u := k - 1;
      assert Commands(g, k) == Commands(g, u) + VertexCommands(u, g[u]);
      assert CountLoops(g, k) == CountLoops(g, u) + Occurrences(g[u], u);
      LoopDrawsMatchCount(g, u);
      VertexLoopDraws(u, g[u]);
      DistinctOccurrences(g[u], u);
      LoopDrawsConcat(Commands(g, u), VertexCommands(u, g[u]));
    }
  }

  /**
    displayGraph: builds the graph, draws its edges and loops, and returns
    the loop count shown in the label.
   */
  method DisplayGraph(numNodes: int, numEdges: int, samples: seq<(int, int)>)
    returns (cmds: seq<Draw>, loopCount: nat, ghost graph: Graph, ghost drawn: nat, ghost tree: Graph)
    requires numNodes >= 1 || numEdges <= 0
    requires SamplesInRange(samples, numNodes)
    ensures Generated(graph, tree, numNodes, numEdges, samples, drawn)
    ensures cmds == Commands(graph, numNodes) && loopCount == CountLoops(graph, numNodes)
    ensures LoopDraws(cmds) == loopCount <= Max(numNodes, 0)
    ensures numNodes == 2 && numEdges == 2 ==> cmds == [Loop(0), Segment(0, 1)] && loopCount == 1
    ensures numNodes == 2 && numEdges == 3 ==> cmds == [Loop(0), Segment(0, 1), Loop(1)] && loopCount == 2
    ensures numNodes == numEdges + 1 ==> loopCount == 0
  {
    var built, used;
    built, used, tree := GenerateRandomGraph(numNodes, numEdges, samples);
    graph, drawn := built, used;
    cmds := DisplayEdges(built, numNodes);
    loopCount := CountLoops(built, numNodes);
    LoopDrawsMatchCount(graph, numNodes);
    LoopsAtMostVertices(graph, numNodes);
    if FixedTopology(numNodes, numEdges) {
      FixedTopologyDrawings();
    }
  }

  /** The drawings of the two fixed topologies, command by command. */
  lemma FixedTopologyDrawings()
    ensures Commands(map[0 := [0, 1], 1 := []], 2) == [Loop(0), Segment(0, 1)]
    ensures Commands(map[0 := [0, 1], 1 := [1]], 2) == [Loop(0), Segment(0, 1), Loop(1)]
  {
    assert VertexCommands(0, [0]) == [Loop(0)];
    assert [0, 1][..1] == [0];
    assert VertexCommands(0, [0, 1]) == [Loop(0), Segment(0, 1)];
    assert VertexCommands(1, [1]) == [Loop(1)];
  }
}

/**
  The adjacency map that the graph generator builds and the renderer walks:
  every vertex index maps to its neighbour list, in insertion order. A vertex
  listed as its own neighbour is a self-loop; a plain (undirected) edge
  {u, v} is stored as v in u's list and u in v's list.
 */
module AdjacencyMap {

  type Graph = map<int, seq<int>>

  /** The keys are exactly the vertices 0..n-1. */
  ghost predicate HasVertices(g: Graph, n: int)
  {
    forall u :: u in g <==> 0 <= u < n
  }

  /** Every vertex below k has a neighbour list. */
  ghost predicate Covers(g: Graph, k: int)
  {
    forall u :: 0 <= u < k ==> u in g
  }

  ghost predicate Distinct(s: seq<int>)
  {
    forall i, j :: 0 <= i < j < |s| ==> s[i] != s[j]
  }

  /** No neighbour appears twice in one list. */
  ghost predicate NoDuplicates(g: Graph)
  {
    forall u :: u in g ==> Distinct(g[u])
  }

  ghost predicate EntriesInRange(g: Graph, n: int)
  {
    forall u, v :: u in g && v in g[u] ==> 0 <= v < n
  }

  /** Every plain entry is stored in both directions. */
  ghost predicate Symmetric(g: Graph)
  {
    forall u, v :: u in g && v in g[u] && u != v ==> v in g && u in g[v]
  }

  /** The invariant of a graph built by the general path of the generator. */
  ghost predicate Wellformed(g: Graph, n: int)
  {
    HasVertices(g, n) && EntriesInRange(g, n) && NoDuplicates(g) && Symmetric(g)
  }

  /** h keeps every entry of g (the generator only ever appends). */
  ghost predicate Extends(g: Graph, h: Graph)
  {
    forall u, v :: u in g && v in g[u] ==> u in h && v in h[u]
  }

  /** Every vertex 1 <= i < k lists some parent p < i: what the spanning-tree phase leaves behind. */
  ghost predicate HasTreeParents(g: Graph, k: int)
  {
    forall i :: 1 <= i < k ==> i in g && exists p :: 0 <= p < i && p in g[i]
  }

  /** Adds a self-loop at u. */
  function AddLoop(g: Graph, u: int): Graph
    requires u in g
  {
    g[u := g[u] + [u]]
  }

  /** Adds the plain edge {u, v}: v is appended to u's list, then u to v's list. */
  function AddPlain(g: Graph, u: int, v: int): Graph
    requires u in g && v in g && u != v
  {
    var g1 := g[u := g[u] + [v]];
    g1[v := g1[v] + [u]]
  }

  /** AddPlain adds the entries v to u's list and u to v's list, and touches no other list. */
  lemma AddPlainEntries(g: Graph, u: int, v: int)
    requires u in g && v in g && u != v
    ensures u in AddPlain(g, u, v) && v in AddPlain(g, u, v)
    ensures v in AddPlain(g, u, v)[u] && u in AddPlain(g, u, v)[v]
    ensures forall w :: w in AddPlain(g, u, v) <==> w in g
    ensures forall w :: w in g && w != u && w != v ==> AddPlain(g, u, v)[w] == g[w]
    ensures forall w, x :: w in AddPlain(g, u, v) && x in AddPlain(g, u, v)[w] ==>
              x in g[w] || (w == u && x == v) || (w == v && x == u)
  {
  }

  // ---------------------------------------------------------------------------
  // Counting plain edges

  /** The entries of s greater than u. */
  function UpperEntries(s: seq<int>, u: int): nat
  {
    if s == [] then 0 else UpperEntries(s[..|s| - 1], u) + (if s[|s| - 1] > u then 1 else 0)
  }

  /**
    The number of plain edges among the vertices below k: each edge {u, v}
    with u < v is counted at its smaller end, as the entry v of u's list.
   */
  function PlainEdgeCount(g: Graph, k: int): nat
    requires Covers(g, k)
    decreases k
  {
    if k <= 0 then 0 else PlainEdgeCount(g, k - 1) + UpperEntries(g[k - 1], k - 1)
  }

  lemma UpperEntriesAppend(s: seq<int>, u: int, y: int)
    ensures UpperEntries(s + [y], u) == UpperEntries(s, u) + (if y > u then 1 else 0)
  {
    assert (s + [y])[..|s|] == s;
  }

  /** Appending y to x's list adds one plain edge exactly when y lies above x. */
  lemma {:induction false} PlainEdgeCountAppend(g: Graph, x: int, y: int, k: int)
    requires x in g && Covers(g, k)
    ensures Covers(g[x := g[x] + [y]], k)
    ensures PlainEdgeCount(g[x := g[x] + [y]], k)
            == PlainEdgeCount(g, k) + (if 0 <= x < k && y > x then 1 else 0)
    decreases k
  {
    if k > 0 {
      PlainEdgeCountAppend(g, x, y, k - 1);
      if x == k - 1 {
        UpperEntriesAppend(g[x], x, y);
      }
    }
  }

  /** The plain edges among the vertices below k, each as the pair (smaller end, larger end). */
  ghost function EdgePairs(g: Graph, k: int): set<(int, int)>
    requires Covers(g, k)
  {
    set u, v | 0 <= u < k && v in g[u] && u < v :: (u, v)
  }

  /** The pairs (u, v) with v an entry of s above u. */
  ghost function RowPairs(s: seq<int>, u: int): set<(int, int)>
  {
    set v | v in s && u < v :: (u, v)
  }

  lemma {:induction false} RowPairsSize(s: seq<int>, u: int)
    requires Distinct(s)
    ensures |RowPairs(s, u)| == UpperEntries(s, u)
    decreases |s|
  {
    if s != [] {
      var init, y := s[..|s| - 1], s[|s| - 1];
      assert s == init + [y];
      assert forall x :: x in s <==> x in init || x == y;
      assert Distinct(init) by {
        forall i, j | 0 <= i < j < |init|
          ensures init[i] != init[j]
        {
          assert init[i] == s[i] && init[j] == s[j];
        }
      }
      RowPairsSize(init, u);
      if y > u {
        assert y !in init by {
          forall i | 0 <= i < |init|
            ensures init[i] != y
          {
            assert init[i] == s[i];
          }
        }
        assert RowPairs(s, u) == RowPairs(init, u) + {(u, y)};
      } else {
        assert RowPairs(s, u) == RowPairs(init, u);
      }
    }
  }

  /**
    With no duplicate entries, PlainEdgeCount is the number of distinct
    pairs u < v with v in u's list: in a symmetric graph, the number of
    unordered plain edges.
   */
  lemma {:induction false} PlainEdgeCountIsPairs(g: Graph, k: int)
    requires Covers(g, k) && NoDuplicates(g)
    ensures PlainEdgeCount(g, k) == |EdgePairs(g, k)|
    decreases k
  {
    if k > 0 {
      var u := k - 1;
      PlainEdgeCountIsPairs(g, u);
      RowPairsSize(g[u], u);
      var before, row := EdgePairs(g, u), RowPairs(g[u], u);
      assert EdgePairs(g, k) == before + row;
      assert before * row == {};
    } else {
      assert EdgePairs(g, k) == {};
    }
  }

  // ---------------------------------------------------------------------------
  // Appending keeps the invariant

  lemma DistinctAppend(s: seq<int>, y: int)
    requires Distinct(s) && y !in s
    ensures Distinct(s + [y])
  {
    forall i, j | 0 <= i < j < |s + [y]|
      ensures (s + [y])[i] != (s + [y])[j]
    {
      if j == |s| {
        assert (s + [y])[i] == s[i];
      }
    }
  }

  /** A new self-loop keeps the invariant, keeps every entry and adds no plain edge. */
  lemma AddLoopKeepsWellformed(g: Graph, n: int, u: int)
    requires Wellformed(g, n) && 0 <= u < n && u !in g[u]
    ensures Wellformed(AddLoop(g, u), n) && Extends(g, AddLoop(g, u))
    ensures PlainEdgeCount(AddLoop(g, u), n) == PlainEdgeCount(g, n)
  {
    var h := AddLoop(g, u);
    DistinctAppend(g[u], u);
    assert forall w, v :: w in h && v in h[w] ==> v in g[w] || (w == u && v == u);
    PlainEdgeCountAppend(g, u, u, n);
  }

  /**
    A new plain edge {u, v} between vertices not yet adjacent keeps the
    invariant, keeps every entry and adds exactly one plain edge.
   */
  lemma AddPlainKeepsWellformed(g: Graph, n: int, u: int, v: int)
    requires Wellformed(g, n) && 0 <= u < n && 0 <= v < n && u != v
    requires v !in g[u] && u !in g[v]
    ensures Wellformed(AddPlain(g, u, v), n) && Extends(g, AddPlain(g, u, v))
    ensures PlainEdgeCount(AddPlain(g, u, v), n) == PlainEdgeCount(g, n) + 1
  {
    var g1 := g[u := g[u] + [v]];
    var h := AddPlain(g, u, v);
    AddPlainEntries(g, u, v);
    assert h[u] == g[u] + [v] && h[v] == g[v] + [u];
    assert Extends(g, h);
    assert NoDuplicates(h) by {
      DistinctAppend(g[u], v);
      DistinctAppend(g[v], u);
    }
    assert Symmetric(h) by {
      forall w, x | w in h && x in h[w] && w != x
        ensures x in h && w in h[x]
      {
        if x in g[w] {
          assert w in g[x];
        }
      }
    }
    assert g1[v] == g[v];
    PlainEdgeCountAppend(g, u, v, n);
    PlainEdgeCountAppend(g1, v, u, n);
  }

  // ---------------------------------------------------------------------------
  // Connectivity through plain edges

  /** A walk that follows plain entries of g, one vertex to the next. */
  ghost predicate IsWalk(g: Graph, path: seq<int>)
  {
    |path| >= 1 &&
    forall k :: 0 <= k < |path| - 1 ==>
      path[k] in g && path[k + 1] in g[path[k]] && path[k + 1] != path[k]
  }

  function Reverse(s: seq<int>): (r: seq<int>)
    ensures |r| == |s| && forall k :: 0 <= k < |s| ==> r[k] == s[|s| - 1 - k]
  {
    if s == [] then [] else Reverse(s[1..]) + [s[0]]
  }

  /** Every vertex below n reaches vertex 0 by following tree parents. */
  lemma {:induction false} WalkToRoot(g: Graph, n: int, v: int) returns (path: seq<int>)
    requires HasTreeParents(g, n) && 0 <= v < n
    ensures IsWalk(g, path) && path[0] == v && path[|path| - 1] == 0
    ensures forall k :: 0 <= k < |path| ==> 0 <= path[k] <= v
    decreases v
  {
    if v == 0 {
      path := [0];
    } else {
      var p :| 0 <= p < v && p in g[v];
      var rest := WalkToRoot(g, n, p);
      path := [v] + rest;
      forall k | 0 <= k < |path| - 1
        ensures path[k] in g && path[k + 1] in g[path[k]] && path[k + 1] != path[k]
      {
        if k > 0 {
          assert path[k] == rest[k - 1] && path[k + 1] == rest[k];
        }
      }
    }
  }

  /** In a symmetric graph a walk can be followed backwards. */
  lemma ReverseWalk(g: Graph, path: seq<int>)
    requires Symmetric(g) && IsWalk(g, path)
    ensures IsWalk(g, Reverse(path))
  {
    var r := Reverse(path);
    var m := |path|;
    forall k | 0 <= k < m - 1
      ensures r[k] in g && r[k + 1] in g[r[k]] && r[k + 1] != r[k]
    {
      var j := m - 2 - k;
      assert r[k] == path[j + 1] && r[k + 1] == path[j];
    }
  }

  /**
    A symmetric graph with tree parents is connected: any two vertices are
    joined by a walk over plain edges (through vertex 0).
   */
  lemma Connected(g: Graph, n: int, u: int, v: int) returns (path: seq<int>)
    requires Symmetric(g) && HasTreeParents(g, n) && 0 <= u < n && 0 <= v < n
    ensures IsWalk(g, path) && path[0] == u && path[|path| - 1] == v
  {
    var up := WalkToRoot(g, n, u);
    var down := WalkToRoot(g, n, v);
    ReverseWalk(g, down);
    var back := Reverse(down);
    assert back[0] == 0 && back[|back| - 1] == v;
    path := up + back[1..];
    forall k | 0 <= k < |path| - 1
      ensures path[k] in g && path[k + 1] in g[path[k]] && path[k + 1] != path[k]
    {
      if k < |up| - 1 {
        assert path[k] == up[k] && path[k + 1] == up[k + 1];
      } else {
        var j := k - (|up| - 1);
        assert path[k] == back[j] && path[k + 1] == back[j + 1];
      }
    }
    if |back| == 1 {
      assert path == up;
    } else {
      assert path[|path| - 1] == back[|back| - 1];
    }
  }
}

/**
  The input check of the "generate" button: the two numbers typed into the
  form are either accepted and passed on to the graph builder, or rejected
  with an alert. The checks run in a fixed order and the first that fails
  decides the alert.
 */
module GraphApp {
  import opened AdjacencyMap
  import opened GraphVisualizer

  /** The reason an alert gives. */
  datatype Rejection = InvalidNumber | NotEnoughEdges | TooManyEdges

  datatype Verdict = Generate(numNodes: int, numEdges: int) | Alert(reason: Rejection)

  const INT_MIN: int := -0x8000_0000
  const INT_MAX: int := 0x7fff_ffff

  predicate IsInt32(x: int)
  {
    INT_MIN <= x <= INT_MAX
  }

  /** The values of a Java int. */
  type Int32 = x: int | IsInt32(x)

  /**
    What parsing one text field yields: an int, or a format error. Text that
    is not a number, or a number outside the int range, is a format error.
   */
  datatype Parsed = Number(value: Int32) | NotANumber

  /** The three pairs accepted without the upper bound on the edge count. */
  predicate IsSpecialPair(numNodes: int, numEdges: int)
  {
    (numNodes == 1 && numEdges == 1) || (numNodes == 2 && numEdges == 2) || (numNodes == 2 && numEdges == 3)
  }

  /** The simple-graph maximum n(n-1)/2, in exact arithmetic. */
  function MaxSimpleEdges(n: int): int
  {
    n * (n - 1) / 2
  }

  /** The chain of checks, with the upper bound on the edge count given as a value. */
  function Decide(numNodes: int, numEdges: int, upper: int): Verdict
  {
    if numNodes <= 0 || numEdges < 0 then Alert(InvalidNumber)
    else if numEdges < numNodes - 1 then Alert(NotEnoughEdges)
    else if numNodes == 1 && numEdges == 1 then Generate(numNodes, numEdges)
    else if numNodes == 2 && numEdges == 2 then Generate(numNodes, numEdges)
    else if numNodes == 2 && numEdges == 3 then Generate(numNodes, numEdges)
    else if numEdges > upper then Alert(TooManyEdges)
    else Generate(numNodes, numEdges)
  }

  /**
    The validation of a (numNodes, numEdges) request, with the upper bound
    computed exactly. Each alert is characterised on its own, and so is the
    set of accepted pairs.
   */
  function Validate(numNodes: int, numEdges: int): (v: Verdict)
    ensures v == Alert(InvalidNumber) <==> numNodes <= 0 || numEdges < 0
    ensures v == Alert(NotEnoughEdges) <==> numNodes >= 1 && 0 <= numEdges < numNodes - 1
    ensures v == Alert(TooManyEdges) <==>
              numNodes >= 1 && numEdges >= numNodes - 1 && !IsSpecialPair(numNodes, numEdges)
              && numEdges > MaxSimpleEdges(numNodes)
    ensures v.Generate? <==>
              numNodes >= 1 && numEdges >= numNodes - 1
              && (IsSpecialPair(numNodes, numEdges) || numEdges <= MaxSimpleEdges(numNodes))
    ensures v.Generate? ==> v == Generate(numNodes, numEdges)
  {
    Decide(numNodes, numEdges, MaxSimpleEdges(numNodes))
  }

  /** The handler: a field that does not parse as an int gives the same alert as a non-positive count. */
  function HandleInput(nodes: Parsed, edges: Parsed): (v: Verdict)
    ensures nodes.NotANumber? || edges.NotANumber? ==> v == Alert(InvalidNumber)
    ensures nodes.Number? && edges.Number? ==> v == Validate(nodes.value, edges.value)
  {
    match (nodes, edges)
    case (Number(n), Number(m)) => Validate(n, m)
    case _ => Alert(InvalidNumber)
  }

  // ---------------------------------------------------------------------------
  // The upper bound as Java computes it

  /** Java int arithmetic: the exact result wrapped to 32-bit two's complement. */
  function Wrap32(x: int): (r: int)
    ensures IsInt32(r) && (x - r) % 0x1_0000_0000 == 0
    ensures IsInt32(x) ==> r == x
    ensures x >= 0 ==> r <= x
  {
    var y := x % 0x1_0000_0000;
    if y > INT_MAX then y - 0x1_0000_0000 else y
  }

  /** Java int division by 2, which truncates toward zero. */
  function JavaHalf(x: int): (r: int)
    ensures x >= 0 ==> r == x / 2
    ensures x < 0 ==> x / 2 <= r <= 0 && 2 * r - x in {0, 1}
  {
    if x >= 0 then x / 2 else -((-x) / 2)
  }

  /**
    numNodes * (numNodes - 1) / 2 evaluated in Java int arithmetic: an int,
    exact up to 46341 vertices, and never above the exact bound.
   */
  function MaxSimpleEdgesAsWritten(n: int): (r: int)
    ensures IsInt32(r)
    ensures 1 <= n <= 46341 ==> r == MaxSimpleEdges(n)
    ensures 1 <= n && IsInt32(n) ==> r <= MaxSimpleEdges(n)
  {
    ProductBounds(n);
    JavaHalf(Wrap32(n * Wrap32(n - 1)))
  }

  lemma ProductBounds(n: int)
    ensures n * (n - 1) >= 0
    ensures 0 <= n <= 46341 ==> n * (n - 1) <= 46341 * 46340
  {
    if n >= 1 {
      MulMono(0, 0, n, n - 1);
      if n <= 46341 {
        MulMono(n, n - 1, 46341, 46340);
      }
    } else {
      MulMono(0, 0, -n, 1 - n);
      assert n * (n - 1) == (-n) * (1 - n);
    }
  }

  /** The validation exactly as written, with the upper bound computed in 32-bit arithmetic. */
  function ValidateAsWritten(numNodes: int, numEdges: int): (v: Verdict)
    requires IsInt32(numNodes) && IsInt32(numEdges)
    ensures v.Generate? ==> v == Generate(numNodes, numEdges)
    ensures v == Alert(InvalidNumber) <==> numNodes <= 0 || numEdges < 0
  {
    Decide(numNodes, numEdges, MaxSimpleEdgesAsWritten(numNodes))
  }

  /**
    46342 vertices with 46341 edges is a spanning-tree request well under
    the maximum, yet 46342 * 46341 overflows an int and the wrapped bound is
    negative, so the check as written rejects it.
   */
  lemma OverflowRejectsSpanningTree()
    ensures Validate(46342, 46341) == Generate(46342, 46341)
    ensures ValidateAsWritten(46342, 46341) == Alert(TooManyEdges)
  {
    assert 46342 * 46341 == 2147534622;
    assert Wrap32(2147534622) == -2147432674;
    assert MaxSimpleEdgesAsWritten(46342) == -1073716337;
  }

  lemma MulMono(a: int, b: int, c: int, d: int)
    requires 0 <= a <= c && 0 <= b <= d
    ensures a * b <= c * d
  {
    assert a * b <= c * b;
  }

  /** Up to 46341 vertices the product fits in an int and the check as written is the exact one. */
  lemma AsWrittenExactWithoutOverflow(numNodes: int, numEdges: int)
    requires IsInt32(numNodes) && IsInt32(numEdges) && numNodes <= 46341
    ensures ValidateAsWritten(numNodes, numEdges) == Validate(numNodes, numEdges)
  {
  }

  /** The overflow only ever makes the bound smaller: the check as written never accepts a pair the exact one rejects. */
  lemma AsWrittenNeverAdmitsMore(numNodes: int, numEdges: int)
    requires IsInt32(numNodes) && IsInt32(numEdges)
    ensures ValidateAsWritten(numNodes, numEdges).Generate? ==> Validate(numNodes, numEdges).Generate?
  {
  }

  // ---------------------------------------------------------------------------
  // From the check to the builder

  /**
    Every accepted pair meets what the builder needs: at least one vertex,
    enough edges for the spanning tree, and, outside the fixed topologies, no
    more edges than the random path can place.
   */
  lemma AcceptedMeetsBuilderNeeds(numNodes: int, numEdges: int)
    requires Validate(numNodes, numEdges).Generate?
    ensures numNodes >= 1 && TreeEdges(numNodes) <= numEdges
    ensures !IsSpecialPair(numNodes, numEdges) ==> numEdges <= MaxSimpleEdges(numNodes)
    ensures !FixedTopology(numNodes, numEdges) ==> numEdges <= Capacity(numNodes)
  {
    assert numNodes * (numNodes - 1) >= 0 by {
      MulMono(0, 0, numNodes, numNodes - 1);
    }
  }

  /**
    For an accepted pair that takes the random path, the resampling loop
    always has an acceptable sample while edges are missing.
   */
  lemma AcceptedRequestNeverStalls(numNodes: int, numEdges: int, g: Graph) returns (from: int, to: int)
    requires Validate(numNodes, numEdges).Generate? && !FixedTopology(numNodes, numEdges)
    requires Wellformed(g, numNodes) && EdgeCount(g, numNodes) < numEdges
    ensures 0 <= from < numNodes && 0 <= to < numNodes && Acceptable(g, from, to)
  {
    AcceptedMeetsBuilderNeeds(numNodes, numEdges);
    from, to := FreeSlotExists(g, numNodes);
  }

  /**
    The button handler without its window plumbing: validate the input and,
    if it is accepted, build and draw the graph. A rejected input draws
    nothing; an accepted one draws exactly the graph the builder returned,
    which on the random path has exactly numEdges edges once the stream of
    samples has offered every in-range pair.
   */
  method OnGenerate(nodes: Parsed, edges: Parsed, samples: seq<(int, int)>)
    returns (verdict: Verdict, cmds: seq<Draw>, loopCount: nat,
             ghost graph: Graph, ghost drawn: nat, ghost tree: Graph)
    requires nodes.Number? ==> SamplesInRange(samples, nodes.value)
    ensures verdict == HandleInput(nodes, edges)
    ensures verdict.Alert? ==> cmds == [] && loopCount == 0
    ensures verdict.Generate? ==>
              && Generated(graph, tree, verdict.numNodes, verdict.numEdges, samples, drawn)
              && cmds == Commands(graph, verdict.numNodes)
              && loopCount == CountLoops(graph, verdict.numNodes)
              && LoopDraws(cmds) == loopCount <= verdict.numNodes
              && (!FixedTopology(verdict.numNodes, verdict.numEdges) && AllPairsDrawn(samples, verdict.numNodes)
                  ==> EdgeCount(graph, verdict.numNodes) == verdict.numEdges)
  {
    verdict := HandleInput(nodes, edges);
    cmds, loopCount, graph, drawn, tree := [], 0, map[], 0, map[];
    if verdict.Generate? {
      AcceptedMeetsBuilderNeeds(verdict.numNodes, verdict.numEdges);
      cmds, loopCount, graph, drawn, tree := DisplayGraph(verdict.numNodes, verdict.numEdges, samples);
    }
  }
}

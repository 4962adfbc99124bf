/**
 * The check behind Lemma 2.4: on the lattice points of [-10, 10]^2, every
 * pair at Manhattan distance 1, 2 or 3 is joined by an edge of length
 * 1 + sqrt2, 2 + sqrt2 or 3 + sqrt2; Dijkstra's search from the origin
 * then gives each node a distance, which must be within 1 + sqrt2 times
 * the Euclidean distance of the node from the origin.
 */
module Lemma24 {
  import opened ExactNumber
  import opened Geometry
  import opened Wrappers
  import opened ShortestPaths
  import opened Dilation

  /** The nodes are the points (i, j) with -10 <= i, j <= 10. */
  predicate InGrid(p: Point)
  {
    -10 <= p.x <= 10 && -10 <= p.y <= 10
  }

  /** The 21 * 21 nodes, listed by i first and then by j. */
  function Nodes(): seq<Point>
  {
    seq(441, k requires 0 <= k < 441 => Point(k / 21 - 10, k % 21 - 10))
  }

  /** The nodes are exactly the points of the square. */
  lemma NodesMembers(p: Point)
    ensures p in Nodes() <==> InGrid(p)
  {
    if InGrid(p) {
      var k := (p.x + 10) * 21 + (p.y + 10);
      assert k / 21 == p.x + 10 && k % 21 == p.y + 10;
      assert Nodes()[k] == p;
    }
  }

  /** The edge length of a pair at Manhattan distance 1, 2 or 3; there is no edge otherwise. */
  function LatticeWeight(p: Point, q: Point): Option<Num>
  {
    var d := Manhattan(p, q);
    if d == 1 then Some(Num(1, 1))
    else if d == 2 then Some(Num(2, 1))
    else if d == 3 then Some(Num(3, 1))
    else None
  }

  /** The adjacency list of p when the candidates are qs, in the order of qs. */
  function LatticeNeighbours(p: Point, qs: seq<Point>): seq<(Point, Num)>
  {
    if qs == [] then []
    else
      var q := qs[|qs| - 1];
      LatticeNeighbours(p, qs[..|qs| - 1]) + (match LatticeWeight(p, q) case Some(w) => [(q, w)] case None => [])
  }

  lemma {:induction false} LatticeNeighboursMembers(p: Point, qs: seq<Point>, q: Point, w: Num)
    ensures (q, w) in LatticeNeighbours(p, qs) <==> q in qs && LatticeWeight(p, q) == Some(w)
    decreases |qs|
  {
    if qs != [] {
      var front := qs[..|qs| - 1];
      LatticeNeighboursMembers(p, front, q, w);
      assert qs == front + [qs[|qs| - 1]];
    }
  }

  /** The graph the script builds: one adjacency list per node. */
  function LatticeGraph(): Adjacency
  {
    map p | p in Nodes() :: LatticeNeighbours(p, Nodes())
  }

  /**
   * The graph holds an edge from p to q of length w exactly when both are
   * nodes and w is 1 + sqrt2, 2 + sqrt2 or 3 + sqrt2 according as q is at
   * Manhattan distance 1, 2 or 3 from p.
   */
  lemma LatticeEdges(p: Point, q: Point, w: Num)
    ensures p in LatticeGraph() <==> InGrid(p)
    ensures p in LatticeGraph() ==>
      ((q, w) in LatticeGraph()[p] <==>
        InGrid(q) &&
        ((Manhattan(p, q) == 1 && w == Num(1, 1)) ||
         (Manhattan(p, q) == 2 && w == Num(2, 1)) ||
         (Manhattan(p, q) == 3 && w == Num(3, 1))))
  {
    NodesMembers(p);
    NodesMembers(q);
    LatticeNeighboursMembers(p, Nodes(), q, w);
  }

  /** Every edge length is positive in both parts, and every listed neighbour is a node. */
  lemma LatticeWellFormed()
    ensures NonnegWeights(LatticeGraph())
    ensures forall p, k :: p in LatticeGraph() && 0 <= k < |LatticeGraph()[p]| ==> LatticeGraph()[p][k].0 in LatticeGraph()
  {
    var graph: Adjacency := LatticeGraph();
    forall p: Point, k: int | p in graph && 0 <= k < |graph[p]|
      ensures Nonneg(graph[p][k].1) && graph[p][k].0 in graph
    {
      var e: (Point, Num) := graph[p][k];
      assert e in graph[p];
      LatticeEdges(p, e.0, e.1);
      LatticeEdges(e.0, e.0, e.1);
    }
  }

  /** The nested loops that fill the adjacency lists, as the script runs them. */
  method BuildLatticeGraph(nodes: seq<Point>) returns (graph: Adjacency)
    ensures forall p :: p in graph <==> p in nodes
    ensures forall p :: p in graph ==> graph[p] == LatticeNeighbours(p, nodes)
  {
    graph := map[];
    for i := 0 to |nodes|
      invariant forall p :: p in graph <==> p in nodes[..i]
      invariant forall p :: p in graph ==> graph[p] == LatticeNeighbours(p, nodes)
    {
      var p := nodes[i];
      graph := graph[p := []];
      assert nodes[..i + 1] == nodes[..i] + [p];
      for j := 0 to |nodes|
        invariant forall r :: r in graph <==> r in nodes[..i + 1]
        invariant graph[p] == LatticeNeighbours(p, nodes[..j])
        invariant forall r :: r in graph && r != p ==> graph[r] == LatticeNeighbours(r, nodes)
      {
        var q := nodes[j];
        var d := Manhattan(p, q);
        if d == 1 {
          graph := graph[p := graph[p] + [(q, Num(1, 1))]];
        } else if d == 2 {
          graph := graph[p := graph[p] + [(q, Num(2, 1))]];
        } else if d == 3 {
          graph := graph[p := graph[p] + [(q, Num(3, 1))]];
        }
        assert nodes[..j + 1][..j] == nodes[..j];
      }
      assert nodes[..|nodes|] == nodes;
    }
    assert nodes[..|nodes|] == nodes;
  }

  /** Built from the nodes of the square, the graph is LatticeGraph(). */
  lemma BuiltIsLattice(graph: Adjacency)
    requires forall p :: p in graph <==> p in Nodes()
    requires forall p :: p in graph ==> graph[p] == LatticeNeighbours(p, Nodes())
    ensures graph == LatticeGraph()
  {
  }

  /** Lemma 2.4 on the square: every node is reached from the origin within dilation 1 + sqrt2. */
  ghost predicate LemmaHolds()
  {
    forall p2 :: InGrid(p2) ==> GoodRoute(LatticeGraph(), ORIGIN, p2)
  }

  /** What a complete search from the origin on the lattice graph establishes. */
  ghost predicate SearchedAll(distances: map<Point, Num>, order: seq<Point>)
  {
    var graph := LatticeGraph();
    NonnegWeights(graph) && Recorded(distances, order) && Shortest(graph, ORIGIN, distances) &&
    (forall i :: 0 <= i < |order| ==> Reached(graph, ORIGIN, distances, order, i)) &&
    (forall p :: p in distances ==> Nonneg(distances[p])) &&
    ORIGIN in distances && Closed(graph, distances)
  }

  /** After a complete search, the test on a node decides whether a good route reaches it. */
  lemma SearchMeans(distances: map<Point, Num>, order: seq<Point>, q: Point)
    requires SearchedAll(distances, order)
    ensures Passes(distances, ORIGIN, q) <==> GoodRoute(LatticeGraph(), ORIGIN, q)
    ensures q !in distances ==> Unreachable(LatticeGraph(), ORIGIN, q)
  {
    var graph := LatticeGraph();
    if Passes(distances, ORIGIN, q) {
      Accepted(graph, ORIGIN, distances, order, q);
    } else if q in distances {
      Rejected(graph, ORIGIN, distances, q);
    } else {
      NotReached(graph, ORIGIN, distances, q);
    }
  }

  /** When every node passes the test, the lemma holds. */
  lemma AllPassed(distances: map<Point, Num>, order: seq<Point>)
    requires SearchedAll(distances, order)
    requires forall k :: 0 <= k < |Nodes()| ==> Passes(distances, ORIGIN, Nodes()[k])
    ensures LemmaHolds()
  {
    forall p2 | InGrid(p2) ensures GoodRoute(LatticeGraph(), ORIGIN, p2) {
      NodesMembers(p2);
      var k :| 0 <= k < |Nodes()| && Nodes()[k] == p2;
      SearchMeans(distances, order, p2);
    }
  }

  /** The search on the lattice graph never meets a point without an adjacency list. */
  lemma NoneMissing(graph: Adjacency, distances: map<Point, Num>, order: seq<Point>)
    requires graph == LatticeGraph() && Recorded(distances, order) && |order| > 0
    requires Reached(graph, ORIGIN, distances, order, |order| - 1)
    ensures order[|order| - 1] in graph
  {
    NodesMembers(ORIGIN);
    assert ORIGIN in graph;
    LatticeWellFormed();
    var w, ws :| WalkFrom(graph, ORIGIN, w, ws) && w[|w| - 1] == order[|order| - 1] && Total(ws) == distances[order[|order| - 1]];
    ReachedListed(graph, ORIGIN, w, ws);
  }

  /** The final loop over the nodes: the first node that fails the test, or is missing, ends it. */
  method CheckNodes(distances: map<Point, Num>, nodes: seq<Point>) returns (v: Verdict)
    ensures v.Verified? || v.Unreached? || v.DilationExceeded?
    ensures v.Verified? <==> forall k :: 0 <= k < |nodes| ==> Passes(distances, ORIGIN, nodes[k])
    ensures !v.Verified? ==> v.p1 == ORIGIN && v.p2 in nodes && !Passes(distances, ORIGIN, v.p2)
    ensures !v.Verified? ==>
      exists k :: 0 <= k < |nodes| && nodes[k] == v.p2 && forall j :: 0 <= j < k ==> Passes(distances, ORIGIN, nodes[j])
    ensures v.Unreached? <==> !v.Verified? && v.p2 !in distances
  {
    for k := 0 to |nodes|
      invariant forall j :: 0 <= j < k ==> Passes(distances, ORIGIN, nodes[j])
    {
      v := CheckPoint(distances, ORIGIN, nodes[k]);
      if !v.Verified? {
        return;
      }
    }
    v := Verified;
  }

  /**
   * The script: build the graph, search it from the origin, test every
   * node. It succeeds exactly when the lemma holds on the square; otherwise
   * it names a node that no route reaches within dilation 1 + sqrt2.
   */
  method CheckLemma24() returns (v: Verdict)
    ensures v.Verified? || v.Unreached? || v.DilationExceeded?
    ensures v.Verified? <==> LemmaHolds()
    ensures !v.Verified? ==> v.p1 == ORIGIN && InGrid(v.p2) && !GoodRoute(LatticeGraph(), ORIGIN, v.p2)
    ensures v.Unreached? ==> Unreachable(LatticeGraph(), ORIGIN, v.p2)
  {
    var nodes := Nodes();
    var graph := BuildLatticeGraph(nodes);
    BuiltIsLattice(graph);
    LatticeWellFormed();
    var distances, order, missing := Dijkstra(graph, ORIGIN, 0, None);
    if missing.Some? {
      NoneMissing(graph, distances, order);
      assert false;
    }
    assert SearchedAll(distances, order);
    v := CheckNodes(distances, nodes);
    if v.Verified? {
      AllPassed(distances, order);
    } else {
      SearchMeans(distances, order, v.p2);
      NodesMembers(v.p2);
    }
  }
}

/**
 * The dilation test of the companion checks and what its two answers mean
 * for the walks of a graph, given what Dijkstra's search guarantees.
 */
module Dilation {
  import opened ExactNumber
  import opened Geometry
  import opened Wrappers
  import opened ShortestPaths
  import opened Traversal

  /** How a check ends: with success, or with the error it raises. */
  datatype Verdict =
    | Verified
    | LongEdge(a: Point, b: Point)            // an edge is neither a unit nor a diagonal step
    | NoAdjacency(p: Point)                   // a recorded point has no adjacency list
    | Unreached(p1: Point, p2: Point)         // p2 was never recorded from p1
    | DilationExceeded(p1: Point, p2: Point)  // the recorded distance is too long

  /** Some walk from p1 to p2 is within dilation 1 + sqrt2. */
  ghost predicate GoodRoute(graph: Adjacency, p1: Point, p2: Point)
  {
    exists w, ws :: WalkFrom(graph, p1, w, ws) && w[|w| - 1] == p2 && WithinDilation(Total(ws), DistSquared(p1, p2))
  }

  /** No walk from p1 ends at p2. */
  ghost predicate Unreachable(graph: Adjacency, p1: Point, p2: Point)
  {
    forall w, ws :: WalkFrom(graph, p1, w, ws) ==> w[|w| - 1] != p2
  }

  lemma {:induction false} TotalNonneg(ws: seq<Num>)
    requires forall i :: 0 <= i < |ws| ==> Nonneg(ws[i])
    ensures Nonneg(Total(ws))
    decreases |ws|
  {
    if ws != [] {
      TotalNonneg(ws[..|ws| - 1]);
    }
  }

  /** A recorded distance that passes the test is the length of a good walk. */
  lemma Accepted(graph: Adjacency, p1: Point, distances: map<Point, Num>, order: seq<Point>, p2: Point)
    requires Recorded(distances, order) && p2 in distances
    requires forall i :: 0 <= i < |order| ==> Reached(graph, p1, distances, order, i)
    requires WithinDilation(distances[p2], DistSquared(p1, p2))
    ensures GoodRoute(graph, p1, p2)
  {
    var i :| 0 <= i < |order| && order[i] == p2;
    assert Reached(graph, p1, distances, order, i);
  }

  /** A shortest distance that fails the test leaves no good walk. */
  lemma Rejected(graph: Adjacency, p1: Point, distances: map<Point, Num>, p2: Point)
    requires NonnegWeights(graph) && Shortest(graph, p1, distances)
    requires p2 in distances && Nonneg(distances[p2])
    requires !WithinDilation(distances[p2], DistSquared(p1, p2))
    ensures !GoodRoute(graph, p1, p2)
  {
    forall w, ws | WalkFrom(graph, p1, w, ws) && w[|w| - 1] == p2
      ensures !WithinDilation(Total(ws), DistSquared(p1, p2))
    {
      WalkWeightsNonneg(graph, w, ws);
      TotalNonneg(ws);
      if WithinDilation(Total(ws), DistSquared(p1, p2)) {
        ShrinkWithin(distances[p2], Total(ws), DistSquared(p1, p2));
      }
    }
  }

  lemma {:induction false} WalkStaysInside(graph: Adjacency, distances: map<Point, Num>, w: seq<Point>, ws: seq<Num>, n: nat)
    requires Closed(graph, distances) && Walk(graph, w, ws) && w[0] in distances && n < |w|
    ensures w[n] in distances
    decreases n
  {
    if n > 0 {
      WalkStaysInside(graph, distances, w, ws, n - 1);
      var u := w[n - 1];
      var k :| 0 <= k < |graph[u]| && graph[u][k] == (w[n], ws[n - 1]);
    }
  }

  /** When the search closed off the recorded set, a point outside it is out of reach. */
  lemma NotReached(graph: Adjacency, p1: Point, distances: map<Point, Num>, p2: Point)
    requires Closed(graph, distances) && p1 in distances && p2 !in distances
    ensures Unreachable(graph, p1, p2)
  {
    forall w, ws | WalkFrom(graph, p1, w, ws) ensures w[|w| - 1] != p2 {
      WalkStaysInside(graph, distances, w, ws, |w| - 1);
    }
  }

  /**
   * When every listed neighbour has an adjacency list of its own, every
   * point a walk from a listed source reaches has one too.
   */
  lemma ReachedListed(graph: Adjacency, p1: Point, w: seq<Point>, ws: seq<Num>)
    requires p1 in graph && WalkFrom(graph, p1, w, ws)
    requires forall p, k :: p in graph && 0 <= k < |graph[p]| ==> graph[p][k].0 in graph
    ensures w[|w| - 1] in graph
  {
    if |ws| > 0 {
      var u := w[|ws| - 1];
      var k :| 0 <= k < |graph[u]| && graph[u][k] == (w[|ws|], ws[|ws| - 1]);
    }
  }

  /**
   * The test of the checks, in exact arithmetic: the recorded distance d
   * squared is compared with (1 + sqrt2)^2 times the squared Euclidean
   * distance ds.
   */
  method PassesTest(d: Num, ds: int) returns (ok: bool)
    ensures ok <==> WithinDilation(d, ds)
  {
    var square := Pow(d, 2);
    var dilation := Pow(DIL, 2);
    BoundValue(ds);
    ok := LessEq(square, Mul(dilation, Int(ds)));
  }

  /** q was recorded from p1 at a distance that passes the dilation test. */
  predicate Passes(distances: map<Point, Num>, p1: Point, q: Point)
  {
    q in distances && WithinDilation(distances[q], DistSquared(p1, q))
  }

  /**
   * The body of the final loops of the checks for one point p2: the lookup
   * of its distance, which fails when p2 was never recorded, then the test.
   */
  method CheckPoint(distances: map<Point, Num>, p1: Point, p2: Point) returns (v: Verdict)
    ensures v.Verified? || v.Unreached? || v.DilationExceeded?
    ensures v.Verified? <==> Passes(distances, p1, p2)
    ensures v.Unreached? <==> p2 !in distances
    ensures !v.Verified? ==> v.p1 == p1 && v.p2 == p2
  {
    if p2 !in distances {
      return Unreached(p1, p2);
    }
    var ok := PassesTest(distances[p2], DistSquared(p1, p2));
    if !ok {
      return DilationExceeded(p1, p2);
    }
    v := Verified;
  }
}

/**
 * The check of Proposition 2.1: a periodic degree-three graph, completed by
 * every choice of vertical or horizontal segments at four places, has a
 * path of dilation at most 1 + sqrt2 between every point p1 of a
 * fundamental domain and every p2 within distance sqrt5 of it.
 *
 * The graph is a set of directed pairs; its adjacency lists weigh each
 * pair by its Manhattan length (1 or sqrt2), and a Dijkstra search from
 * each p1, stopped once the 21 points around p1 are recorded, gives the
 * distances the dilation test compares.
 */
module Proposition21 {
  import opened ExactNumber
  import opened Geometry
  import opened Wrappers
  import opened Traversal
  import opened ShortestPaths
  import opened Periodic
  import opened Dilation

  // ---------------------------------------------------------------------------
  // From the set of pairs to weighted adjacency lists

  /** The points that occur in a pair. */
  function Endpoints(config: set<Edge>): set<Point>
  {
    (set e | e in config :: e.0) + (set e | e in config :: e.1)
  }

  /** a and b are joined by a pair of either orientation. */
  predicate Adjacent(config: set<Edge>, a: Point, b: Point)
  {
    (a, b) in config || (b, a) in config
  }

  /** The weight given to a pair: 1 at Manhattan length 1, sqrt2 at Manhattan length 2, none otherwise. */
  function StepWeight(a: Point, b: Point): Option<Num>
  {
    if Manhattan(a, b) == 1 then Some(Num(1, 0))
    else if Manhattan(a, b) == 2 then Some(Num(0, 1))
    else None
  }

  /** On a king move the weight is the exact length of the move. */
  lemma StepWeightOfKingMove(a: Point, b: Point)
    requires IsStep(a, b)
    ensures StepWeight(a, b) == Some(StepNorm(a, b))
  {
  }

  /** b is listed in adj. */
  ghost predicate Listed(adj: seq<(Point, Num)>, b: Point)
  {
    exists k :: 0 <= k < |adj| && adj[k].0 == b
  }

  /** adj lists each point of ns, and only those, with its weight from a. */
  ghost predicate Lists(a: Point, ns: set<Point>, adj: seq<(Point, Num)>)
  {
    (forall k :: 0 <= k < |adj| ==> adj[k].0 in ns && StepWeight(a, adj[k].0) == Some(adj[k].1)) &&
    (forall b :: b in ns ==> Listed(adj, b))
  }

  /** graph holds the weighted adjacency lists of the pairs of config. */
  ghost predicate AdjacencyOf(config: set<Edge>, graph: Adjacency)
  {
    graph.Keys == Endpoints(config) &&
    (forall a, k :: a in graph && 0 <= k < |graph[a]| ==>
       Adjacent(config, a, graph[a][k].0) && StepWeight(a, graph[a][k].0) == Some(graph[a][k].1)) &&
    (forall a, b :: a in graph && Adjacent(config, a, b) ==> Listed(graph[a], b))
  }

  /** Each neighbour set holds the points joined to its key by the pairs of done. */
  ghost predicate Joined(nbrs: map<Point, set<Point>>, done: set<Edge>)
  {
    forall a, b :: a in nbrs ==> (b in nbrs[a] <==> Adjacent(done, a, b))
  }

  /** The bookkeeping of a loop that moves the elements of a set one at a time. */
  lemma MoveOne<T>(done: set<T>, rest: set<T>, all: set<T>, x: T)
    requires done + rest == all && x in rest
    ensures (done + {x}) + (rest - {x}) == all && |rest - {x}| < |rest|
  {
  }

  lemma EndpointsStep(done: set<Edge>, e: Edge)
    ensures Endpoints(done + {e}) == Endpoints(done) + {e.0, e.1}
  {
  }

  lemma EndpointsOfMember(config: set<Edge>, e: Edge)
    requires e in config
    ensures e.0 in Endpoints(config) && e.1 in Endpoints(config)
  {
    assert e.0 in (set e | e in config :: e.0);
    assert e.1 in (set e | e in config :: e.1);
  }

  /**
   * The first two loops of verify_shortest_paths: every endpoint gets an
   * empty neighbour set, then each pair adds each end to the other's set.
   */
  method CollectNeighbours(config: set<Edge>) returns (nodes: set<Point>, nbrs: map<Point, set<Point>>)
    ensures nodes == Endpoints(config) && nbrs.Keys == nodes
    ensures Joined(nbrs, config)
  {
    nodes, nbrs := ListEndpoints(config);
    forall e | e in config ensures e.0 in nbrs && e.1 in nbrs {
      EndpointsOfMember(config, e);
    }
    nbrs := JoinNeighbours(config, nbrs);
  }

  /** Each pair, taken in an unspecified order, enters both ends with empty neighbour sets. */
  method ListEndpoints(config: set<Edge>) returns (nodes: set<Point>, nbrs: map<Point, set<Point>>)
    ensures nodes == Endpoints(config) && nbrs.Keys == nodes
    ensures forall a :: a in nbrs ==> nbrs[a] == {}
  {
    nodes, nbrs := {}, map[];
    var rest := config;
    ghost var done := {};
    while rest != {}
      invariant done + rest == config
      invariant nodes == Endpoints(done) && nbrs.Keys == nodes
      invariant forall a :: a in nbrs ==> nbrs[a] == {}
      decreases |rest|
    {
      var e :| e in rest;
      MoveOne(done, rest, config, e);
      nodes, nbrs := EnterPair(nodes, nbrs, e, done);
      rest, done := rest - {e}, done + {e};
    }
  }

  /** The body of the listing loop: both ends of e enter with empty neighbour sets. */
  method EnterPair(nodes: set<Point>, nbrs: map<Point, set<Point>>, e: Edge, ghost done: set<Edge>)
    returns (nodes': set<Point>, nbrs': map<Point, set<Point>>)
    requires nodes == Endpoints(done) && nbrs.Keys == nodes
    requires forall a :: a in nbrs ==> nbrs[a] == {}
    ensures nodes' == Endpoints(done + {e}) && nbrs'.Keys == nodes'
    ensures forall a :: a in nbrs' ==> nbrs'[a] == {}
  {
    EndpointsStep(done, e);
    nodes' := nodes + {e.0, e.1};
    nbrs' := nbrs[e.0 := {}][e.1 := {}];
  }

  /** Each pair, taken in an unspecified order, adds each end to the other's neighbours. */
  method JoinNeighbours(config: set<Edge>, empty: map<Point, set<Point>>) returns (nbrs: map<Point, set<Point>>)
    requires forall e :: e in config ==> e.0 in empty && e.1 in empty
    requires forall a :: a in empty ==> empty[a] == {}
    ensures nbrs.Keys == empty.Keys && Joined(nbrs, config)
  {
    nbrs := empty;
    var rest := config;
    ghost var done: set<Edge> := {};
    while rest != {}
      invariant done + rest == config
      invariant nbrs.Keys == empty.Keys && Joined(nbrs, done)
      decreases |rest|
    {
      var e :| e in rest;
      MoveOne(done, rest, config, e);
      nbrs := JoinPair(nbrs, e, done);
      rest, done := rest - {e}, done + {e};
    }
  }

  /** The body of the joining loop: b becomes a neighbour of a, and a of b. */
  method JoinPair(nbrs: map<Point, set<Point>>, e: Edge, ghost done: set<Edge>) returns (nbrs': map<Point, set<Point>>)
    requires e.0 in nbrs && e.1 in nbrs && Joined(nbrs, done)
    ensures nbrs'.Keys == nbrs.Keys && Joined(nbrs', done + {e})
  {
    nbrs' := nbrs[e.0 := nbrs[e.0] + {e.1}];
    nbrs' := nbrs'[e.1 := nbrs'[e.1] + {e.0}];
  }

  lemma ListedGrows(adj: seq<(Point, Num)>, x: (Point, Num), b: Point)
    requires Listed(adj, b)
    ensures Listed(adj + [x], b)
  {
    var k :| 0 <= k < |adj| && adj[k].0 == b;
    assert (adj + [x])[k] == adj[k];
  }

  /**
   * The weighing loop for one point a: each neighbour is appended with its
   * weight, in an unspecified order; a neighbour at another Manhattan
   * length stops everything (the source raises ValueError).
   */
  method WeighOne(a: Point, ns: set<Point>) returns (adj: seq<(Point, Num)>, bad: Option<Point>)
    ensures bad.None? ==> Lists(a, ns, adj)
    ensures bad.Some? ==> bad.value in ns && StepWeight(a, bad.value).None?
  {
    adj, bad := [], None;
    var todo := ns;
    ghost var done := {};
    while todo != {}
      invariant done + todo == ns
      invariant forall k :: 0 <= k < |adj| ==> adj[k].0 in ns && StepWeight(a, adj[k].0) == Some(adj[k].1)
      invariant forall b :: b in done ==> Listed(adj, b)
      decreases |todo|
    {
      var b :| b in todo;
      MoveOne(done, todo, ns, b);
      var w := StepWeight(a, b);
      if w.None? {
        return adj, Some(b);
      }
      forall c | c in done ensures Listed(adj + [(b, w.value)], c) {
        ListedGrows(adj, (b, w.value), c);
      }
      assert (adj + [(b, w.value)])[|adj|].0 == b;
      adj := adj + [(b, w.value)];
      todo, done := todo - {b}, done + {b};
    }
  }

  /** The weighing loop over all points, in an unspecified order. */
  method WeighNeighbours(nodes: set<Point>, nbrs: map<Point, set<Point>>) returns (graph: Adjacency, long: Option<Edge>)
    requires nbrs.Keys == nodes
    ensures long.None? ==> graph.Keys == nodes && forall a :: a in graph ==> Lists(a, nbrs[a], graph[a])
    ensures long.Some? ==> long.value.0 in nbrs && long.value.1 in nbrs[long.value.0] &&
                           StepWeight(long.value.0, long.value.1).None?
  {
    graph, long := map a | a in nodes :: [], None;
    var todo := nodes;
    ghost var done := {};
    while todo != {}
      invariant done + todo == nodes && graph.Keys == nodes
      invariant forall a :: a in done ==> Lists(a, nbrs[a], graph[a])
      decreases |todo|
    {
      var a :| a in todo;
      MoveOne(done, todo, nodes, a);
      var adj, bad := WeighOne(a, nbrs[a]);
      if bad.Some? {
        return graph, Some((a, bad.value));
      }
      graph := graph[a := adj];
      todo, done := todo - {a}, done + {a};
    }
  }

  /**
   * The adjacency lists of verify_shortest_paths: every endpoint is listed
   * with its neighbours weighted 1 or sqrt2, or a pair of another Manhattan
   * length is reported.
   */
  method BuildAdjacency(config: set<Edge>) returns (graph: Adjacency, long: Option<Edge>)
    ensures long.None? ==> AdjacencyOf(config, graph)
    ensures long.None? ==> forall a, b :: (a, b) in config ==> Manhattan(a, b) == 1 || Manhattan(a, b) == 2
    ensures long.Some? ==> Adjacent(config, long.value.0, long.value.1) &&
                           Manhattan(long.value.0, long.value.1) != 1 && Manhattan(long.value.0, long.value.1) != 2
  {
    var nodes, nbrs := CollectNeighbours(config);
    graph, long := WeighNeighbours(nodes, nbrs);
    if long.None? {
      ListsAdjacency(config, nbrs, graph);
      forall a, b | (a, b) in config ensures Manhattan(a, b) == 1 || Manhattan(a, b) == 2 {
        EndpointsOfMember(config, (a, b));
        assert Adjacent(config, a, b) && Listed(graph[a], b);
        var k :| 0 <= k < |graph[a]| && graph[a][k].0 == b;
      }
    }
  }

  lemma ListsAdjacency(config: set<Edge>, nbrs: map<Point, set<Point>>, graph: Adjacency)
    requires nbrs.Keys == Endpoints(config) && Joined(nbrs, config)
    requires graph.Keys == nbrs.Keys && forall a :: a in graph ==> Lists(a, nbrs[a], graph[a])
    ensures AdjacencyOf(config, graph)
  {
  }

  /** Every weight of the lists is 1 or sqrt2, so none is negative. */
  lemma AdjacencyNonneg(config: set<Edge>, graph: Adjacency)
    requires AdjacencyOf(config, graph)
    ensures NonnegWeights(graph)
  {
  }

  // ---------------------------------------------------------------------------
  // Paths along the pairs of a configuration

  /** w follows pairs of config, and ws[i] is the weight of its i-th step. */
  ghost predicate PathIn(config: set<Edge>, w: seq<Point>, ws: seq<Num>)
  {
    |w| == |ws| + 1 &&
    forall i :: 0 <= i < |ws| ==> Adjacent(config, w[i], w[i + 1]) && StepWeight(w[i], w[i + 1]) == Some(ws[i])
  }

  /** Some path of config from p1 to p2 is within dilation 1 + sqrt2. */
  ghost predicate Spanned(config: set<Edge>, p1: Point, p2: Point)
  {
    exists w, ws :: PathIn(config, w, ws) && w[0] == p1 && w[|w| - 1] == p2 &&
      WithinDilation(Total(ws), DistSquared(p1, p2))
  }

  /** No path of config leads from p1 to p2. */
  ghost predicate Disconnected(config: set<Edge>, p1: Point, p2: Point)
  {
    forall w, ws :: PathIn(config, w, ws) && w[0] == p1 ==> w[|w| - 1] != p2
  }

  /** The walks of the adjacency lists are exactly the weighted paths along the pairs. */
  lemma WalksArePaths(config: set<Edge>, graph: Adjacency, w: seq<Point>, ws: seq<Num>)
    requires AdjacencyOf(config, graph)
    ensures Walk(graph, w, ws) <==> PathIn(config, w, ws)
  {
    if PathIn(config, w, ws) {
      forall i | 0 <= i < |ws| ensures w[i] in graph && (w[i + 1], ws[i]) in graph[w[i]] {
        if (w[i], w[i + 1]) in config {
          EndpointsOfMember(config, (w[i], w[i + 1]));
        } else {
          EndpointsOfMember(config, (w[i + 1], w[i]));
        }
        assert Listed(graph[w[i]], w[i + 1]);
        var k :| 0 <= k < |graph[w[i]]| && graph[w[i]][k].0 == w[i + 1];
        assert graph[w[i]][k] == (w[i + 1], ws[i]);
      }
    }
    if Walk(graph, w, ws) {
      forall i | 0 <= i < |ws| ensures Adjacent(config, w[i], w[i + 1]) && StepWeight(w[i], w[i + 1]) == Some(ws[i]) {
        var k :| 0 <= k < |graph[w[i]]| && graph[w[i]][k] == (w[i + 1], ws[i]);
      }
    }
  }

  lemma RouteIsSpan(config: set<Edge>, graph: Adjacency, p1: Point, p2: Point)
    requires AdjacencyOf(config, graph)
    ensures GoodRoute(graph, p1, p2) <==> Spanned(config, p1, p2)
  {
    if GoodRoute(graph, p1, p2) {
      var w, ws :| WalkFrom(graph, p1, w, ws) && w[|w| - 1] == p2 && WithinDilation(Total(ws), DistSquared(p1, p2));
      WalksArePaths(config, graph, w, ws);
      assert PathIn(config, w, ws) && w[0] == p1;
    }
    if Spanned(config, p1, p2) {
      var w, ws :| PathIn(config, w, ws) && w[0] == p1 && w[|w| - 1] == p2 && WithinDilation(Total(ws), DistSquared(p1, p2));
      WalksArePaths(config, graph, w, ws);
      assert WalkFrom(graph, p1, w, ws);
    }
  }

  lemma UnreachableDisconnected(config: set<Edge>, graph: Adjacency, p1: Point, p2: Point)
    requires AdjacencyOf(config, graph) && Unreachable(graph, p1, p2)
    ensures Disconnected(config, p1, p2)
  {
    forall w, ws | PathIn(config, w, ws) && w[0] == p1 ensures w[|w| - 1] != p2 {
      WalksArePaths(config, graph, w, ws);
      assert WalkFrom(graph, p1, w, ws);
    }
  }

  // ---------------------------------------------------------------------------
  // The 21 points around p1

  /** The offsets (dx, dy) with dx^2 + dy^2 <= 5, in the order the final check visits them. */
  const AROUND: seq<Point> := [
    Point(-2, -1), Point(-2, 0), Point(-2, 1),
    Point(-1, -2), Point(-1, -1), Point(-1, 0), Point(-1, 1), Point(-1, 2),
    Point(0, -2), Point(0, -1), Point(0, 0), Point(0, 1), Point(0, 2),
    Point(1, -2), Point(1, -1), Point(1, 0), Point(1, 1), Point(1, 2),
    Point(2, -1), Point(2, 0), Point(2, 1)
  ]

  /** A point within distance sqrt5 differs by at most 2 in each coordinate. */
  lemma CloseBounds(p1: Point, p: Point)
    requires DistSquared(p1, p) <= 5
    ensures -2 <= p.x - p1.x <= 2 && -2 <= p.y - p1.y <= 2
  {
  }

  /** Every point within distance sqrt5 of p1 is p1 moved by one of the 21 offsets. */
  lemma CloseOffsets(p1: Point, p: Point)
    requires DistSquared(p1, p) <= 5
    ensures Vec(p1, p) in AROUND
  {
    var v := Vec(p1, p);
    CloseBounds(p1, p);
    assert DistSquared(p1, p) == v.x * v.x + v.y * v.y;
    if v.x == -2 || v.x == 2 {
      assert v.y == -1 || v.y == 0 || v.y == 1;
    }
  }

  /** The points p1 moved by the offsets of offs. */
  function Moved(p1: Point, offs: seq<Point>): set<Point>
  {
    set o | o in offs :: Translate(p1, o)
  }

  lemma {:induction false} MovedSize(p1: Point, offs: seq<Point>)
    ensures |Moved(p1, offs)| <= |offs|
    decreases |offs|
  {
    if offs != [] {
      MovedSize(p1, offs[1..]);
      assert Moved(p1, offs) == Moved(p1, offs[1..]) + {Translate(p1, offs[0])};
    }
  }

  lemma SubsetSize<T>(a: set<T>, b: set<T>)
    requires a <= b
    ensures |a| <= |b|
  {
    assert b == a + (b - a);
  }

  /**
   * The search from p1 stops after 21 close points: then every point
   * within distance sqrt5 of p1 has been recorded.
   */
  lemma AllCloseRecorded(p1: Point, distances: map<Point, Num>)
    requires |CloseRecorded(p1, 5, distances)| >= 21
    ensures forall p :: DistSquared(p1, p) <= 5 ==> p in distances
  {
    forall p | DistSquared(p1, p) <= 5 ensures p in distances {
      if p !in distances {
        var around := Moved(p1, AROUND);
        CloseOffsets(p1, p);
        assert Translate(p1, Vec(p1, p)) == p;
        forall q | q in CloseRecorded(p1, 5, distances) ensures q in around - {p} {
          CloseOffsets(p1, q);
          assert Translate(p1, Vec(p1, q)) == q;
        }
        SubsetSize(CloseRecorded(p1, 5, distances), around - {p});
        MovedSize(p1, AROUND);
      }
    }
  }

  // ---------------------------------------------------------------------------
  // The search from each p1 and the final check

  /** The last point of a nonempty walk is a listed neighbour, so it has a list of its own. */
  lemma LastStepListed(config: set<Edge>, graph: Adjacency, w: seq<Point>, ws: seq<Num>)
    requires AdjacencyOf(config, graph) && Walk(graph, w, ws) && |ws| > 0
    ensures w[|w| - 1] in graph
  {
    var u := w[|ws| - 1];
    var k :| 0 <= k < |graph[u]| && graph[u][k] == (w[|ws|], ws[|ws| - 1]);
    assert Adjacent(config, u, w[|ws|]);
  }

  /** The walk from p1 to a point without a list is empty: that point is p1, which no pair touches. */
  lemma UnlistedIsSource(config: set<Edge>, graph: Adjacency, p1: Point, w: seq<Point>, ws: seq<Num>)
    requires AdjacencyOf(config, graph) && WalkFrom(graph, p1, w, ws) && w[|w| - 1] !in graph
    ensures w[|w| - 1] == p1 && p1 !in Endpoints(config)
  {
    if |ws| > 0 {
      LastStepListed(config, graph, w, ws);
      assert false;
    }
  }

  /** q comes before p in the order of the final double loop (x first, then y). */
  predicate Before(q: Point, p: Point)
  {
    q.x < p.x || (q.x == p.x && q.y < p.y)
  }

  /** Every point close to p1 that the final loop visits before p2 passes. */
  ghost predicate PassedBefore(distances: map<Point, Num>, p1: Point, p2: Point)
  {
    forall q :: DistSquared(p1, q) <= 5 && Before(q, p2) ==> Passes(distances, p1, q)
  }

  /** The points close to p1 in column x with row in [lo, hi) pass. */
  ghost predicate ColumnPassed(distances: map<Point, Num>, p1: Point, x: int, lo: int, hi: int)
  {
    forall q :: DistSquared(p1, q) <= 5 && q.x == x && lo <= q.y < hi ==> Passes(distances, p1, q)
  }

  /** The close points before column x, and before row y in column x, are exactly those visited before (x, y). */
  lemma PassedUpTo(distances: map<Point, Num>, p1: Point, x: int, y: int)
    requires forall q :: DistSquared(p1, q) <= 5 && p1.x - 2 <= q.x < x ==> Passes(distances, p1, q)
    requires ColumnPassed(distances, p1, x, p1.y - 2, y)
    ensures PassedBefore(distances, p1, Point(x, y))
  {
    forall q | DistSquared(p1, q) <= 5 && Before(q, Point(x, y)) ensures Passes(distances, p1, q) {
      CloseBounds(p1, q);
    }
  }

  /** The body of the inner loop, for the point p1 + (dx, dy). */
  method CheckStep(distances: map<Point, Num>, p1: Point, dx: int, dy: int) returns (v: Verdict)
    requires forall q :: DistSquared(p1, q) <= 5 && p1.x - 2 <= q.x < p1.x + dx ==> Passes(distances, p1, q)
    requires ColumnPassed(distances, p1, p1.x + dx, p1.y - 2, p1.y + dy)
    ensures v.Verified? || v.Unreached? || v.DilationExceeded?
    ensures v.Verified? ==> ColumnPassed(distances, p1, p1.x + dx, p1.y - 2, p1.y + dy + 1)
    ensures !v.Verified? ==> v.p1 == p1 && DistSquared(p1, v.p2) <= 5 && PassedBefore(distances, p1, v.p2)
    ensures v.Unreached? ==> v.p2 !in distances
    ensures v.DilationExceeded? ==> !Passes(distances, p1, v.p2)
  {
    var p2 := Point(p1.x + dx, p1.y + dy);
    v := Verified;
    if DistSquared(p1, p2) <= 5 {
      v := CheckPoint(distances, p1, p2);
      if !v.Verified? {
        PassedUpTo(distances, p1, p1.x + dx, p1.y + dy);
        return;
      }
    }
    forall q | DistSquared(p1, q) <= 5 && q.x == p1.x + dx && p1.y - 2 <= q.y < p1.y + dy + 1
      ensures Passes(distances, p1, q)
    {
      if q.y == p1.y + dy {
        assert q == p2;
      }
    }
  }

  /** One run of the inner loop: the points p1 + (dx, dy) for dy from -2 to 2. */
  method CheckColumn(distances: map<Point, Num>, p1: Point, dx: int) returns (v: Verdict)
    requires forall q :: DistSquared(p1, q) <= 5 && p1.x - 2 <= q.x < p1.x + dx ==> Passes(distances, p1, q)
    ensures v.Verified? || v.Unreached? || v.DilationExceeded?
    ensures v.Verified? ==> forall q :: DistSquared(p1, q) <= 5 && q.x == p1.x + dx ==> Passes(distances, p1, q)
    ensures !v.Verified? ==> v.p1 == p1 && DistSquared(p1, v.p2) <= 5 && PassedBefore(distances, p1, v.p2)
    ensures v.Unreached? ==> v.p2 !in distances
    ensures v.DilationExceeded? ==> !Passes(distances, p1, v.p2)
  {
    for dy := -2 to 3
      invariant ColumnPassed(distances, p1, p1.x + dx, p1.y - 2, p1.y + dy)
    {
      v := CheckStep(distances, p1, dx, dy);
      if !v.Verified? {
        return;
      }
    }
    forall q | DistSquared(p1, q) <= 5 && q.x == p1.x + dx ensures Passes(distances, p1, q) {
      CloseBounds(p1, q);
    }
    v := Verified;
  }

  /**
   * The final double loop of the check from p1: every point within distance
   * sqrt5 of p1 must be recorded and pass the dilation test; the first one
   * that does not, in the order of the loop, is reported.
   */
  method CheckAround(distances: map<Point, Num>, p1: Point) returns (v: Verdict)
    ensures v.Verified? || v.Unreached? || v.DilationExceeded?
    ensures v.Verified? <==> forall p2 :: DistSquared(p1, p2) <= 5 ==> Passes(distances, p1, p2)
    ensures !v.Verified? ==> v.p1 == p1 && DistSquared(p1, v.p2) <= 5 && PassedBefore(distances, p1, v.p2)
    ensures v.Unreached? ==> v.p2 !in distances
    ensures v.DilationExceeded? ==> !Passes(distances, p1, v.p2)
  {
    for dx := -2 to 3
      invariant forall q :: DistSquared(p1, q) <= 5 && p1.x - 2 <= q.x < p1.x + dx ==> Passes(distances, p1, q)
    {
      v := CheckColumn(distances, p1, dx);
      if !v.Verified? {
        return;
      }
    }
    forall q | DistSquared(p1, q) <= 5 ensures p1.x - 2 <= q.x < p1.x + 3 {
      CloseBounds(p1, q);
    }
    v := Verified;
  }

  /** The facts about a finished search from p1 that give the checks their meaning. */
  ghost predicate Searched(graph: Adjacency, p1: Point, distances: map<Point, Num>, order: seq<Point>)
  {
    NonnegWeights(graph) && Recorded(distances, order) && Shortest(graph, p1, distances) &&
    (forall i :: 0 <= i < |order| ==> Reached(graph, p1, distances, order, i)) &&
    (forall p :: p in distances ==> Nonneg(distances[p])) &&
    p1 in distances &&
    (Closed(graph, distances) || forall p :: DistSquared(p1, p) <= 5 ==> p in distances)
  }

  /**
   * What the outcome of the test for a close point means for the walks of
   * the graph: passing gives a good route, failing rules every one out, and
   * a point left unrecorded is out of reach.
   */
  lemma PassesMeans(graph: Adjacency, p1: Point, distances: map<Point, Num>, order: seq<Point>, q: Point)
    requires Searched(graph, p1, distances, order) && DistSquared(p1, q) <= 5
    ensures Passes(distances, p1, q) <==> GoodRoute(graph, p1, q)
    ensures q !in distances ==> Unreachable(graph, p1, q)
  {
    if Passes(distances, p1, q) {
      Accepted(graph, p1, distances, order, q);
    } else if q in distances {
      Rejected(graph, p1, distances, q);
    } else {
      NotReached(graph, p1, distances, q);
    }
  }

  /**
   * What each outcome of the check of config from the points p1s says: on
   * success every p2 within distance sqrt5 of every p1 is joined to it by a
   * path within dilation 1 + sqrt2; each error names a pair that is too
   * long, a p1 that no pair touches, or a p1 and p2 that no path joins or
   * no path joins well enough.
   */
  ghost predicate Outcome(config: set<Edge>, p1s: seq<Point>, v: Verdict)
  {
    (v.Verified? ==> forall n, p2 :: 0 <= n < |p1s| && DistSquared(p1s[n], p2) <= 5 ==> Spanned(config, p1s[n], p2)) &&
    (v.LongEdge? ==> Adjacent(config, v.a, v.b) && Manhattan(v.a, v.b) != 1 && Manhattan(v.a, v.b) != 2) &&
    (v.NoAdjacency? ==> v.p in p1s && v.p !in Endpoints(config)) &&
    (v.Unreached? ==> v.p1 in p1s && DistSquared(v.p1, v.p2) <= 5 && Disconnected(config, v.p1, v.p2)) &&
    (v.DilationExceeded? ==> v.p1 in p1s && DistSquared(v.p1, v.p2) <= 5 && !Spanned(config, v.p1, v.p2))
  }

  /**
   * verify_shortest_paths(config, p1s): builds the weighted adjacency lists,
   * then for each p1 runs the search until 21 points within distance sqrt5
   * are recorded and checks those points.
   */
  method VerifyShortestPaths(config: set<Edge>, p1s: seq<Point>) returns (v: Verdict)
    ensures Outcome(config, p1s, v)
  {
    var graph, long := BuildAdjacency(config);
    if long.Some? {
      return LongEdge(long.value.0, long.value.1);
    }
    AdjacencyNonneg(config, graph);
    for n := 0 to |p1s|
      invariant forall m, p2 :: 0 <= m < n && DistSquared(p1s[m], p2) <= 5 ==> Spanned(config, p1s[m], p2)
    {
      var p1 := p1s[n];
      var distances, order, missing := Dijkstra(graph, p1, 5, Some(21));
      if missing.Some? {
        assert Reached(graph, p1, distances, order, |order| - 1);
        ghost var w, ws :| WalkFrom(graph, p1, w, ws) && w[|w| - 1] == order[|order| - 1] &&
          Total(ws) == distances[order[|order| - 1]];
        UnlistedIsSource(config, graph, p1, w, ws);
        return NoAdjacency(missing.value);
      }
      if !Closed(graph, distances) {
        AllCloseRecorded(p1, distances);
      }
      assert Searched(graph, p1, distances, order);
      v := CheckAround(distances, p1);
      if !v.Verified? {
        PassesMeans(graph, p1, distances, order, v.p2);
        if v.Unreached? {
          UnreachableDisconnected(config, graph, p1, v.p2);
        } else {
          RouteIsSpan(config, graph, p1, v.p2);
        }
        return;
      }
      forall p2 | DistSquared(p1, p2) <= 5 ensures Spanned(config, p1, p2) {
        PassesMeans(graph, p1, distances, order, p2);
        RouteIsSpan(config, graph, p1, p2);
      }
    }
    v := Verified;
  }

  // ---------------------------------------------------------------------------
  // The configuration of Proposition 2.1 and the sixteen completions

  /** The three paths copied over the whole plane. */
  const BASE_PATHS: seq<seq<Point>> := [
    [Point(0, 0), Point(1, 1), Point(1, 2), Point(2, 2), Point(3, 3), Point(3, 2), Point(4, 2), Point(4, 1), Point(5, 1)],
    [Point(1, 1), Point(2, 1), Point(2, 2)],
    [Point(1, -1), Point(2, 0), Point(3, 1), Point(4, 2)]
  ]

  /** The shift i V1 + j V2 is (2i + 5j, -2i). */
  const V1: Point := Point(2, -2)
  const V2: Point := Point(5, 0)
  /** The shifts of the initial configuration run over -RANGE <= i, j <= RANGE. */
  const RANGE: int := 4

  /** The points of the fundamental domain tried as p1. */
  const P1S: seq<Point> := [
    Point(1, -1), Point(2, -1), Point(3, -1), Point(1, 0), Point(2, 0),
    Point(3, 0), Point(4, 0), Point(2, 1), Point(3, 1), Point(3, 2)
  ]

  /** The four places where two vertical or two horizontal segments complete the graph. */
  const CHOICES: seq<Point> := [Point(0, 3), Point(2, 1), Point(4, -1), Point(-1, -1)]

  /** The pairs of the initial configuration: the base paths shifted by i V1 + j V2, -4 <= i, j <= 4. */
  function InitialEdges(): set<Edge>
  {
    GridPairs(BASE_PATHS, V1, V2, -RANGE, RANGE + 1, RANGE + 1)
  }

  /** initial_config(). */
  method InitialConfig() returns (edges: set<Edge>)
    ensures edges == InitialEdges()
  {
    edges := PeriodicEdges(BASE_PATHS, V1, V2, -RANGE, RANGE);
  }

  /** The initial configuration holds exactly the copies of the base steps, in both orientations. */
  lemma InitialCharacterised()
    ensures forall e :: e in InitialEdges() <==> CopiedPair(BASE_PATHS, V1, V2, -RANGE, RANGE, e)
    ensures Symmetric(InitialEdges())
  {
    PeriodicCharacterised(BASE_PATHS, V1, V2, -RANGE, RANGE);
  }

  /** The two segments placed at p: the horizontal pair or the vertical pair of the unit square below p. */
  function ChoiceEdges(p: Point, horizontal: bool): seq<Edge>
  {
    if horizontal then [(p, Point(p.x + 1, p.y)), (Point(p.x, p.y - 1), Point(p.x + 1, p.y - 1))]
    else [(p, Point(p.x, p.y - 1)), (Point(p.x + 1, p.y), Point(p.x + 1, p.y - 1))]
  }

  function Pow2(i: nat): (r: nat)
    ensures r >= 1
  {
    if i == 0 then 1 else 2 * Pow2(i - 1)
  }

  /** Bit i of mask, the test mask & (1 << i). */
  predicate Bit(mask: nat, i: nat)
  {
    (mask / Pow2(i)) % 2 == 1
  }

  /** The segments chosen by mask at the first n places, in order. */
  function MaskEdges(mask: nat, n: nat): seq<Edge>
    requires n <= |CHOICES|
  {
    if n == 0 then [] else MaskEdges(mask, n - 1) + ChoiceEdges(CHOICES[n - 1], Bit(mask, n - 1))
  }

  lemma {:induction false} MaskEdgesShape(mask: nat, n: nat)
    requires n <= |CHOICES|
    ensures |MaskEdges(mask, n)| == 2 * n
    ensures forall k :: 0 <= k < 2 * n ==> MaskEdges(mask, n)[k] == ChoiceEdges(CHOICES[k / 2], Bit(mask, k / 2))[k % 2]
  {
    if n > 0 {
      MaskEdgesShape(mask, n - 1);
      var front, last := MaskEdges(mask, n - 1), ChoiceEdges(CHOICES[n - 1], Bit(mask, n - 1));
      forall k | 2 * (n - 1) <= k < 2 * n
        ensures MaskEdges(mask, n)[k] == ChoiceEdges(CHOICES[k / 2], Bit(mask, k / 2))[k % 2]
      {
        assert k / 2 == n - 1;
        assert MaskEdges(mask, n)[k] == last[k - 2 * (n - 1)];
      }
    }
  }

  /** The loop that builds new_edges for one mask. */
  method NewEdges(mask: nat) returns (news: seq<Edge>)
    ensures news == MaskEdges(mask, |CHOICES|)
  {
    news := [];
    var bit := 1;
    for i := 0 to |CHOICES|
      invariant bit == Pow2(i)
      invariant news == MaskEdges(mask, i)
    {
      var p := CHOICES[i];
      if (mask / bit) % 2 == 1 {
        news := news + [(p, Point(p.x + 1, p.y)), (Point(p.x, p.y - 1), Point(p.x + 1, p.y - 1))];
      } else {
        news := news + [(p, Point(p.x, p.y - 1)), (Point(p.x + 1, p.y), Point(p.x + 1, p.y - 1))];
      }
      bit := 2 * bit;
    }
  }

  /** mask places horizontal segments exactly where horizontal says so. */
  predicate Chooses(mask: nat, horizontal: seq<bool>)
    requires |horizontal| == |CHOICES|
  {
    forall i :: 0 <= i < |CHOICES| ==> Bit(mask, i) == horizontal[i]
  }

  /** Every way of choosing horizontal or vertical segments at the four places is the choice of some mask below 16. */
  lemma MasksCoverChoices(horizontal: seq<bool>)
    requires |horizontal| == |CHOICES|
    ensures exists mask: nat :: mask < Pow2(|CHOICES|) && Chooses(mask, horizontal)
  {
    var b0 := if horizontal[0] then 1 else 0;
    var b1 := if horizontal[1] then 1 else 0;
    var b2 := if horizontal[2] then 1 else 0;
    var b3 := if horizontal[3] then 1 else 0;
    var mask := b0 + 2 * b1 + 4 * b2 + 8 * b3;
    assert Pow2(4) == 16 && Pow2(3) == 8 && Pow2(2) == 4 && Pow2(1) == 2 && Pow2(0) == 1;
    assert Bit(mask, 0) == horizontal[0];
    assert Bit(mask, 1) == horizontal[1];
    assert Bit(mask, 2) == horizontal[2];
    assert Bit(mask, 3) == horizontal[3];
    assert Chooses(mask, horizontal);
  }

  /** Both orientations of each pair of news. */
  function Both(news: seq<Edge>): set<Edge>
  {
    if news == [] then {} else Both(news[..|news| - 1]) + {news[|news| - 1], Reverse(news[|news| - 1])}
  }

  lemma {:induction false} BothMembers(news: seq<Edge>, e: Edge)
    ensures e in Both(news) <==> exists k :: 0 <= k < |news| && (e == news[k] || e == Reverse(news[k]))
    decreases |news|
  {
    if news != [] {
      var front := news[..|news| - 1];
      BothMembers(front, e);
      if e in Both(front) {
        var k :| 0 <= k < |front| && (e == front[k] || e == Reverse(front[k]));
        assert news[k] == front[k];
      }
      if exists k :: 0 <= k < |news| && (e == news[k] || e == Reverse(news[k])) {
        var k :| 0 <= k < |news| && (e == news[k] || e == Reverse(news[k]));
        if k < |front| {
          assert front[k] == news[k];
        }
      }
    }
  }

  /** The loop `edges.add((a, b)); edges.add((b, a))` over news. */
  method AddBoth(edges: set<Edge>, news: seq<Edge>) returns (edges': set<Edge>)
    ensures edges' == edges + Both(news)
  {
    edges' := edges;
    for k := 0 to |news|
      invariant edges' == edges + Both(news[..k])
    {
      var (a, b) := news[k];
      edges' := edges' + {(a, b)};
      edges' := edges' + {(b, a)};
      assert news[..k + 1][..k] == news[..k];
    }
    assert news[..|news|] == news;
  }

  /** No pair of news is a loop, and no two of them are the same segment. */
  predicate Separate(news: seq<Edge>)
  {
    (forall k :: 0 <= k < |news| ==> news[k].0 != news[k].1) &&
    (forall k, l :: 0 <= k < l < |news| ==> news[k] != news[l] && news[k] != Reverse(news[l]))
  }

  /**
   * The loop `edges.remove((a, b)); edges.remove((b, a))` over news; ok is
   * false where a removal of an absent pair raises KeyError.
   */
  method RemoveBoth(edges: set<Edge>, news: seq<Edge>) returns (edges': set<Edge>, ok: bool)
    ensures ok ==> edges' == edges - Both(news)
    ensures Both(news) <= edges && Separate(news) ==> ok
  {
    edges', ok := edges, true;
    ghost var intact := Both(news) <= edges && Separate(news);
    if intact {
      forall l | 0 <= l < |news| ensures news[l] in edges && Reverse(news[l]) in edges {
        BothMembers(news, news[l]);
        BothMembers(news, Reverse(news[l]));
      }
    }
    for k := 0 to |news|
      invariant edges' == edges - Both(news[..k])
      invariant intact ==> forall l :: k <= l < |news| ==> news[l] in edges' && Reverse(news[l]) in edges'
    {
      var (a, b) := news[k];
      if (a, b) !in edges' {
        return edges', false;
      }
      edges' := edges' - {(a, b)};
      if (b, a) !in edges' {
        return edges', false;
      }
      edges' := edges' - {(b, a)};
      assert news[..k + 1][..k] == news[..k];
    }
    assert news[..|news|] == news;
  }

  // ---------------------------------------------------------------------------
  // The chosen segments are never pairs of the initial configuration

  /** The class of a point modulo the shifts i V1 + j V2: the parity of y and x + y modulo 5. */
  function Class(p: Point): (int, int)
  {
    (p.y % 2, (p.x + p.y) % 5)
  }

  /** A directed pair up to the shifts: the class of its start and its vector. */
  function Signature(e: Edge): ((int, int), Point)
  {
    (Class(e.0), Vec(e.0, e.1))
  }

  /** The signatures of the chosen segments, in both orientations. */
  const CHOICE_SIGNATURES: set<((int, int), Point)> := {
    ((1, 3), Point(1, 0)), ((0, 2), Point(1, 0)), ((1, 4), Point(-1, 0)), ((0, 3), Point(-1, 0)),
    ((1, 3), Point(0, -1)), ((1, 4), Point(0, -1)), ((0, 2), Point(0, 1)), ((0, 3), Point(0, 1))
  }

  /** A shift i V1 + j V2 keeps the signature of a pair. */
  lemma ShiftedSignature(e: Edge, i: int, j: int)
    ensures Signature((Translate(e.0, Shift(V1, V2, i, j)), Translate(e.1, Shift(V1, V2, i, j)))) == Signature(e)
  {
    assert Shift(V1, V2, i, j) == Point(2 * i + 5 * j, -2 * i);
    assert (e.0.y - 2 * i) % 2 == e.0.y % 2;
    assert (e.0.x + 2 * i + 5 * j + e.0.y - 2 * i) % 5 == (e.0.x + e.0.y) % 5;
  }

  /** No step of a base path has the signature of a chosen segment, in either orientation. */
  lemma BaseStepsAvoidChoices(m: int, k: int)
    requires 0 <= m < |BASE_PATHS| && 0 <= k < |BASE_PATHS[m]| - 1
    ensures Signature((BASE_PATHS[m][k], BASE_PATHS[m][k + 1])) !in CHOICE_SIGNATURES
    ensures Signature((BASE_PATHS[m][k + 1], BASE_PATHS[m][k])) !in CHOICE_SIGNATURES
  {
    assert m == 0 || m == 1 || m == 2;
    if m == 0 {
      FirstPathAvoidsChoices(k);
    } else if m == 1 {
      assert k == 0 || k == 1;
    } else {
      assert k == 0 || k == 1 || k == 2;
    }
  }

  /** The steps of the first base path, one at a time. */
  lemma FirstPathAvoidsChoices(k: int)
    requires 0 <= k < |BASE_PATHS[0]| - 1
    ensures Signature((BASE_PATHS[0][k], BASE_PATHS[0][k + 1])) !in CHOICE_SIGNATURES
    ensures Signature((BASE_PATHS[0][k + 1], BASE_PATHS[0][k])) !in CHOICE_SIGNATURES
  {
    var a, b := BASE_PATHS[0][k], BASE_PATHS[0][k + 1];
    if k == 0 {
      assert a == Point(0, 0) && b == Point(1, 1);
      assert Class(a) == (0, 0) && Class(b) == (1, 2);
    } else if k == 1 {
      assert a == Point(1, 1) && b == Point(1, 2);
      assert Class(a) == (1, 2) && Class(b) == (0, 3);
    } else if k == 2 {
      assert a == Point(1, 2) && b == Point(2, 2);
      assert Class(a) == (0, 3) && Class(b) == (0, 4);
    } else if k == 3 {
      assert a == Point(2, 2) && b == Point(3, 3);
      assert Class(a) == (0, 4) && Class(b) == (1, 1);
    }
  }

  /** A pair with the signature of a chosen segment is not copied into the initial configuration. */
  lemma NotCopied(e: Edge)
    requires Signature(e) in CHOICE_SIGNATURES
    ensures !CopiedPair(BASE_PATHS, V1, V2, -RANGE, RANGE, e)
  {
    if CopiedPair(BASE_PATHS, V1, V2, -RANGE, RANGE, e) {
      var i, j, m, k :| -RANGE <= i <= RANGE && -RANGE <= j <= RANGE && 0 <= m < |BASE_PATHS| && 0 <= k < |BASE_PATHS[m]| - 1 &&
        IsCopy(BASE_PATHS[m], Shift(V1, V2, i, j), k, e);
      ShiftedSignature((BASE_PATHS[m][k], BASE_PATHS[m][k + 1]), i, j);
      ShiftedSignature((BASE_PATHS[m][k + 1], BASE_PATHS[m][k]), i, j);
      BaseStepsAvoidChoices(m, k);
      assert false;
    }
  }

  /** The four choice places are the same point modulo the shifts. */
  lemma ChoiceClass(i: int)
    requires 0 <= i < |CHOICES|
    ensures Class(CHOICES[i]) == (1, 3)
  {
    assert i == 0 || i == 1 || i == 2 || i == 3;
  }

  /** The segments placed at a point of the class of the choice places have the choice signatures. */
  lemma SegmentSignatures(p: Point, horizontal: bool, t: int)
    requires Class(p) == (1, 3) && 0 <= t < 2
    ensures Signature(ChoiceEdges(p, horizontal)[t]) in CHOICE_SIGNATURES
    ensures Signature(Reverse(ChoiceEdges(p, horizontal)[t])) in CHOICE_SIGNATURES
  {
    assert (p.x + 1 + p.y) % 5 == 4 && (p.y - 1) % 2 == 0;
    assert (p.x + p.y - 1) % 5 == 2 && (p.x + 1 + p.y - 1) % 5 == 3;
  }

  /** Every chosen segment, in either orientation, has one of the choice signatures. */
  lemma ChoiceEdgeSignatures(mask: nat, e: Edge)
    requires e in Both(MaskEdges(mask, |CHOICES|))
    ensures Signature(e) in CHOICE_SIGNATURES
  {
    var news := MaskEdges(mask, |CHOICES|);
    BothMembers(news, e);
    MaskEdgesShape(mask, |CHOICES|);
    var k :| 0 <= k < |news| && (e == news[k] || e == Reverse(news[k]));
    var i := k / 2;
    ChoiceClass(i);
    SegmentSignatures(CHOICES[i], Bit(mask, i), k % 2);
  }

  /** Two different choice places are at least 2 apart in x or in y. */
  lemma PlacesApart(i: int, j: int)
    requires 0 <= i < |CHOICES| && 0 <= j < |CHOICES| && i != j
    ensures Abs(CHOICES[i].x - CHOICES[j].x) >= 2 || Abs(CHOICES[i].y - CHOICES[j].y) >= 2
  {
    assert i == 0 || i == 1 || i == 2 || i == 3;
    assert j == 0 || j == 1 || j == 2 || j == 3;
  }

  /** Segments placed at places that far apart share no endpoint. */
  lemma SegmentsApart(p: Point, q: Point, h: bool, g: bool, t: int, u: int)
    requires Abs(p.x - q.x) >= 2 || Abs(p.y - q.y) >= 2
    requires 0 <= t < 2 && 0 <= u < 2
    ensures ChoiceEdges(p, h)[t] != ChoiceEdges(q, g)[u] && ChoiceEdges(p, h)[t] != Reverse(ChoiceEdges(q, g)[u])
  {
  }

  /** The chosen segments are pairwise different and none is a loop. */
  lemma MaskEdgesSeparate(mask: nat)
    ensures Separate(MaskEdges(mask, |CHOICES|))
  {
    var news := MaskEdges(mask, |CHOICES|);
    MaskEdgesShape(mask, |CHOICES|);
    forall k, l | 0 <= k < l < |news| ensures news[k] != news[l] && news[k] != Reverse(news[l]) {
      if k / 2 != l / 2 {
        PlacesApart(k / 2, l / 2);
        SegmentsApart(CHOICES[k / 2], CHOICES[l / 2], Bit(mask, k / 2), Bit(mask, l / 2), k % 2, l % 2);
      }
    }
  }

  /** The pairs of the case tried for mask: the initial configuration with the chosen segments. */
  function CaseEdges(mask: nat): set<Edge>
  {
    InitialEdges() + Both(MaskEdges(mask, |CHOICES|))
  }

  /** Removing the chosen segments again gives back the initial configuration. */
  lemma CaseRestored(mask: nat)
    ensures CaseEdges(mask) - Both(MaskEdges(mask, |CHOICES|)) == InitialEdges()
  {
    PeriodicCharacterised(BASE_PATHS, V1, V2, -RANGE, RANGE);
    forall e | e in Both(MaskEdges(mask, |CHOICES|)) ensures e !in InitialEdges() {
      ChoiceEdgeSignatures(mask, e);
      NotCopied(e);
    }
  }

  lemma VerifiedUpTo(mask: nat)
    requires forall m: nat :: m < mask ==> Outcome(CaseEdges(m), P1S, Verified)
    requires Outcome(CaseEdges(mask), P1S, Verified)
    ensures forall m: nat :: m < mask + 1 ==> Outcome(CaseEdges(m), P1S, Verified)
  {
  }

  /**
   * exhaustive(): for each of the 16 masks the chosen segments are added
   * to the initial configuration, the configuration is checked from every
   * point of P1S, and the segments are removed again.  The first failing
   * check ends the run.
   */
  method Exhaustive() returns (v: Verdict, failed: nat)
    ensures v.Verified? ==> forall m: nat :: m < Pow2(|CHOICES|) ==> Outcome(CaseEdges(m), P1S, Verified)
    ensures !v.Verified? ==> failed < Pow2(|CHOICES|) && Outcome(CaseEdges(failed), P1S, v)
    ensures !v.Verified? ==> forall m: nat :: m < failed ==> Outcome(CaseEdges(m), P1S, Verified)
  {
    var edges := InitialConfig();
    var cases := Pow2(|CHOICES|);
    assert cases == 16;
    for mask := 0 to cases
      invariant edges == InitialEdges()
      invariant forall m: nat :: m < mask ==> Outcome(CaseEdges(m), P1S, Verified)
    {
      var news := NewEdges(mask);
      edges := AddBoth(edges, news);
      assert edges == CaseEdges(mask);
      v := VerifyShortestPaths(edges, P1S);
      if !v.Verified? {
        return v, mask;
      }
      VerifiedUpTo(mask);
      var ok;
      MaskEdgesSeparate(mask);
      edges, ok := RemoveBoth(edges, news);
      assert ok;
      CaseRestored(mask);
    }
    v, failed := Verified, cases;
  }
}

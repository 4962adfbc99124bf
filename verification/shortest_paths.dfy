/**
 * Dijkstra's algorithm with exact lengths in Z[sqrt2], as the companion
 * checks run it: a priority queue of (distance, point) entries ordered as
 * Python orders tuples, a dictionary filled at the first pop of each point,
 * and the neighbours of a newly recorded point pushed unless already
 * recorded. The queue is a sequence with extract-min.
 *
 * The loop is proved to keep the classical invariant, from which the two
 * facts the checks rely on follow: every recorded distance is the length of
 * a walk from the source, and no walk from the source is shorter.
 */
module ShortestPaths {
  import opened ExactNumber
  import opened Geometry
  import opened Wrappers

  /** Adjacency lists: for each point, its neighbours with the exact edge lengths. */
  type Adjacency = map<Point, seq<(Point, Num)>>

  /** A queue entry: a tentative distance and the point it reaches. */
  type Entry = (Num, Point)

  // ---------------------------------------------------------------------------
  // The queue order

  /** Python's order on coordinate pairs. */
  predicate PointLess(p: Point, q: Point) { p.x < q.x || (p.x == q.x && p.y < q.y) }

  /** Python's order on (distance, point) tuples: the distance first, then the point. */
  predicate EntryLess(e: Entry, f: Entry)
  {
    if e.0 == f.0 then PointLess(e.1, f.1) else Less(e.0, f.0)
  }

  lemma EntryLessIrreflexive(e: Entry)
    ensures !EntryLess(e, e)
  {
    LessIrreflexive(e.0);
  }

  lemma EntryLessTransitive(e: Entry, f: Entry, g: Entry)
    requires EntryLess(e, f) && EntryLess(f, g)
    ensures EntryLess(e, g)
  {
    if e.0 != f.0 && f.0 != g.0 {
      LessTransitive(e.0, f.0, g.0);
      LessIrreflexive(e.0);
    }
  }

  /** An entry no other entry precedes has the least distance. */
  lemma FirstHasLeastDistance(e: Entry, f: Entry)
    requires !EntryLess(f, e)
    ensures LessEq(e.0, f.0)
  {
    LessTrichotomy(e.0, f.0);
  }

  /** The index of the entry the priority queue hands out next. */
  method ExtractMin(pq: seq<Entry>) returns (k: nat)
    requires |pq| > 0
    ensures k < |pq| && forall j :: 0 <= j < |pq| ==> !EntryLess(pq[j], pq[k])
  {
    k := 0;
    EntryLessIrreflexive(pq[0]);
    for j := 1 to |pq|
      invariant k < j
      invariant forall i :: 0 <= i < j ==> !EntryLess(pq[i], pq[k])
    {
      if EntryLess(pq[j], pq[k]) {
        forall i | 0 <= i < j + 1 ensures !EntryLess(pq[i], pq[j]) {
          if i == j {
            EntryLessIrreflexive(pq[j]);
          } else if EntryLess(pq[i], pq[j]) {
            EntryLessTransitive(pq[i], pq[j], pq[k]);
          }
        }
        k := j;
      }
    }
  }

  // ---------------------------------------------------------------------------
  // Walks

  /** w is a walk along the adjacency lists whose i-th step has length ws[i]. */
  ghost predicate Walk(graph: Adjacency, w: seq<Point>, ws: seq<Num>)
  {
    |w| == |ws| + 1 &&
    forall i :: 0 <= i < |ws| ==> w[i] in graph && (w[i + 1], ws[i]) in graph[w[i]]
  }

  ghost predicate WalkFrom(graph: Adjacency, source: Point, w: seq<Point>, ws: seq<Num>)
  {
    Walk(graph, w, ws) && w[0] == source
  }

  /** The length of a walk: the sum of its step lengths. */
  function Total(ws: seq<Num>): Num
  {
    if ws == [] then ZERO else Add(Total(ws[..|ws| - 1]), ws[|ws| - 1])
  }

  /** Every edge length is a number with nonnegative parts, as 1, sqrt2, 1 + sqrt2, ... are. */
  ghost predicate NonnegWeights(graph: Adjacency)
  {
    forall p, k :: p in graph && 0 <= k < |graph[p]| ==> Nonneg(graph[p][k].1)
  }

  lemma {:induction false} TotalPrefix(ws: seq<Num>, m: nat, n: nat)
    requires m <= n <= |ws| && forall i :: 0 <= i < |ws| ==> Nonneg(ws[i])
    ensures LessEq(Total(ws[..m]), Total(ws[..n]))
    decreases n
  {
    if m < n {
      TotalPrefix(ws, m, n - 1);
      assert ws[..n][..n - 1] == ws[..n - 1];
      AddNonnegGrows(Total(ws[..n - 1]), ws[n - 1]);
      LessEqTransitive(Total(ws[..m]), Total(ws[..n - 1]), Total(ws[..n]));
    }
  }

  lemma WalkWeightsNonneg(graph: Adjacency, w: seq<Point>, ws: seq<Num>)
    requires NonnegWeights(graph) && Walk(graph, w, ws)
    ensures forall i :: 0 <= i < |ws| ==> Nonneg(ws[i])
  {
    forall i | 0 <= i < |ws| ensures Nonneg(ws[i]) {
      var k :| 0 <= k < |graph[w[i]]| && graph[w[i]][k] == (w[i + 1], ws[i]);
    }
  }

  // ---------------------------------------------------------------------------
  // The loop invariant

  /** order lists the keys of distances, each once, in the order they were recorded. */
  ghost predicate Recorded(distances: map<Point, Num>, order: seq<Point>)
  {
    (forall i :: 0 <= i < |order| ==> order[i] in distances) &&
    (forall p :: p in distances ==> p in order) &&
    (forall i, j :: 0 <= i < j < |order| ==> order[i] != order[j])
  }

  /** Recorded distances never decrease in the order they were recorded. */
  ghost predicate Sorted(distances: map<Point, Num>, order: seq<Point>)
    requires Recorded(distances, order)
  {
    forall i, j :: 0 <= i < j < |order| ==> LessEq(distances[order[i]], distances[order[j]])
  }

  /** Before the first pop the queue holds the source alone; after it the source is recorded at 0. */
  ghost predicate Started(source: Point, distances: map<Point, Num>, order: seq<Point>, pq: seq<Entry>)
  {
    (|order| == 0 ==> pq == [(ZERO, source)]) &&
    (|order| > 0 ==> order[0] == source && source in distances && distances[source] == ZERO)
  }

  /** Every queued distance is at least the last recorded one. */
  ghost predicate Above(distances: map<Point, Num>, order: seq<Point>, pq: seq<Entry>)
    requires Recorded(distances, order)
  {
    |order| > 0 ==> forall e :: e in pq ==> LessEq(distances[order[|order| - 1]], e.0)
  }

  ghost predicate Expanded(graph: Adjacency, distances: map<Point, Num>)
  {
    forall p :: p in distances ==> p in graph
  }

  /**
   * Every edge out of a recorded point is relaxed: its end is recorded no
   * further than through it, or the entry through it is still queued.
   */
  ghost predicate Relaxed(graph: Adjacency, distances: map<Point, Num>, pq: seq<Entry>)
    requires Expanded(graph, distances)
  {
    forall u, k :: u in distances && 0 <= k < |graph[u]| ==>
      (graph[u][k].0 in distances && LessEq(distances[graph[u][k].0], Add(distances[u], graph[u][k].1))) ||
      (Add(distances[u], graph[u][k].1), graph[u][k].0) in pq
  }

  /** The entry (d, q) comes from the edge k of the point recorded j-th. */
  ghost predicate Through(graph: Adjacency, distances: map<Point, Num>, order: seq<Point>, j: int, k: int, d: Num, q: Point)
    requires Recorded(distances, order)
  {
    0 <= j < |order| && order[j] in graph && 0 <= k < |graph[order[j]]| &&
    graph[order[j]][k].0 == q && d == Add(distances[order[j]], graph[order[j]][k].1)
  }

  /** Each point after the source was recorded through an edge from a point recorded before it. */
  ghost predicate Realized(graph: Adjacency, distances: map<Point, Num>, order: seq<Point>)
    requires Recorded(distances, order)
  {
    forall i :: 0 < i < |order| ==> RealizedAt(graph, distances, order, i)
  }

  /** The point recorded i-th was recorded through an edge from a point recorded before it. */
  ghost predicate RealizedAt(graph: Adjacency, distances: map<Point, Num>, order: seq<Point>, i: int)
    requires Recorded(distances, order) && 0 <= i < |order|
  {
    exists j, k :: 0 <= j < i && Through(graph, distances, order, j, k, distances[order[i]], order[i])
  }

  /** Once the source is recorded, each queued entry comes through an edge from a recorded point. */
  ghost predicate Sourced(graph: Adjacency, distances: map<Point, Num>, order: seq<Point>, pq: seq<Entry>)
    requires Recorded(distances, order)
  {
    |order| > 0 ==> forall e :: e in pq ==> exists j, k :: Through(graph, distances, order, j, k, e.0, e.1)
  }

  ghost predicate NonnegDistances(distances: map<Point, Num>, pq: seq<Entry>)
  {
    (forall p :: p in distances ==> Nonneg(distances[p])) && (forall e :: e in pq ==> Nonneg(e.0))
  }

  /** The recorded points within squared distance close of the source. */
  function CloseRecorded(source: Point, close: int, distances: map<Point, Num>): set<Point>
  {
    set p | p in distances && DistSquared(source, p) <= close
  }

  /** The part of the invariant that bounds the recorded distances from below. */
  ghost predicate Settled(graph: Adjacency, source: Point, distances: map<Point, Num>, order: seq<Point>, pq: seq<Entry>)
  {
    Recorded(distances, order) && Sorted(distances, order) && Started(source, distances, order, pq) &&
    Above(distances, order, pq) && Expanded(graph, distances) && Relaxed(graph, distances, pq)
  }

  ghost predicate Inv(graph: Adjacency, source: Point, distances: map<Point, Num>, order: seq<Point>, pq: seq<Entry>)
  {
    Settled(graph, source, distances, order, pq) &&
    Realized(graph, distances, order) && Sourced(graph, distances, order, pq) && NonnegDistances(distances, pq)
  }

  /** The recorded points form a closed set: every neighbour of one is recorded too. */
  ghost predicate Closed(graph: Adjacency, distances: map<Point, Num>)
  {
    forall u, k :: u in distances && u in graph && 0 <= k < |graph[u]| ==> graph[u][k].0 in distances
  }

  // ---------------------------------------------------------------------------
  // The pushes after a point is recorded

  /** The entries pushed for the neighbours of a point recorded at distance d. */
  function Pushes(d: Num, adj: seq<(Point, Num)>, distances: map<Point, Num>): seq<Entry>
  {
    if adj == [] then []
    else
      var (q, w) := adj[|adj| - 1];
      Pushes(d, adj[..|adj| - 1], distances) + (if q in distances then [] else [(Add(d, w), q)])
  }

  lemma {:induction false} PushesMembers(d: Num, adj: seq<(Point, Num)>, distances: map<Point, Num>, e: Entry)
    ensures e in Pushes(d, adj, distances) <==>
      exists k :: 0 <= k < |adj| && adj[k].0 !in distances && e == (Add(d, adj[k].1), adj[k].0)
    decreases |adj|
  {
    if adj != [] {
      var n := |adj| - 1;
      PushesMembers(d, adj[..n], distances, e);
      if e in Pushes(d, adj[..n], distances) {
        var k :| 0 <= k < n && adj[..n][k].0 !in distances && e == (Add(d, adj[..n][k].1), adj[..n][k].0);
        assert adj[k] == adj[..n][k];
      }
      if k :| 0 <= k < |adj| && adj[k].0 !in distances && e == (Add(d, adj[k].1), adj[k].0) {
        if k < n {
          assert adj[..n][k] == adj[k];
        }
      }
    }
  }

  /** The loop over the neighbours of a newly recorded point. */
  method Relax(pq: seq<Entry>, d: Num, adj: seq<(Point, Num)>, distances: map<Point, Num>) returns (pq': seq<Entry>)
    ensures pq' == pq + Pushes(d, adj, distances)
  {
    pq' := pq;
    for i := 0 to |adj|
      invariant pq' == pq + Pushes(d, adj[..i], distances)
    {
      var (q, w) := adj[i];
      assert adj[..i + 1][..i] == adj[..i];
      if q !in distances {
        pq' := pq' + [(Add(d, w), q)];
      }
    }
    assert adj[..|adj|] == adj;
  }

  // ---------------------------------------------------------------------------
  // One pop of the queue

  /** The queue once its entry k is handed out. */
  function Without(pq: seq<Entry>, k: nat): seq<Entry>
    requires k < |pq|
  {
    pq[..k] + pq[k + 1..]
  }

  lemma WithoutMembers(pq: seq<Entry>, k: nat, x: Entry)
    requires k < |pq|
    ensures x in Without(pq, k) ==> x in pq
    ensures x in pq && x != pq[k] ==> x in Without(pq, k)
  {
    if x in pq && x != pq[k] {
      var i :| 0 <= i < |pq| && pq[i] == x;
      if i < k {
        assert Without(pq, k)[i] == x;
      } else {
        assert Without(pq, k)[i - 1] == x;
      }
    }
  }

  /** A recorded distance is at most the last recorded one. */
  lemma AtMostLast(distances: map<Point, Num>, order: seq<Point>, p: Point)
    requires Recorded(distances, order) && Sorted(distances, order) && p in distances
    ensures |order| > 0 && LessEq(distances[p], distances[order[|order| - 1]])
  {
    var i :| 0 <= i < |order| && order[i] == p;
    if i < |order| - 1 {
      assert LessEq(distances[order[i]], distances[order[|order| - 1]]);
    }
  }

  /** The entry handed out has the least distance of the queue. */
  lemma LeastOfQueue(pq: seq<Entry>, k: nat, f: Entry)
    requires k < |pq| && (forall j :: 0 <= j < |pq| ==> !EntryLess(pq[j], pq[k])) && f in pq
    ensures LessEq(pq[k].0, f.0)
  {
    var j :| 0 <= j < |pq| && pq[j] == f;
    FirstHasLeastDistance(pq[k], f);
  }

  /** Popping an entry whose point is already recorded keeps the invariant. */
  lemma PopRecorded(graph: Adjacency, source: Point, distances: map<Point, Num>, order: seq<Point>, pq: seq<Entry>, k: nat)
    requires Inv(graph, source, distances, order, pq) && k < |pq| && pq[k].1 in distances
    ensures Inv(graph, source, distances, order, Without(pq, k))
  {
    var rest := Without(pq, k);
    forall x | x in rest ensures x in pq {
      WithoutMembers(pq, k, x);
    }
    forall u, j | u in distances && 0 <= j < |graph[u]|
      ensures (graph[u][j].0 in distances && LessEq(distances[graph[u][j].0], Add(distances[u], graph[u][j].1))) ||
              (Add(distances[u], graph[u][j].1), graph[u][j].0) in rest
    {
      var x := (Add(distances[u], graph[u][j].1), graph[u][j].0);
      WithoutMembers(pq, k, x);
      if x == pq[k] && !(graph[u][j].0 in distances && LessEq(distances[graph[u][j].0], x.0)) {
        AtMostLast(distances, order, pq[k].1);
        LessEqTransitive(distances[pq[k].1], distances[order[|order| - 1]], pq[k].0);
      }
    }
  }

  /** Recording a new point keeps the bookkeeping of the dictionary. */
  lemma RecordKeeps(distances: map<Point, Num>, order: seq<Point>, p: Point, d: Num)
    requires Recorded(distances, order) && p !in distances
    ensures Recorded(distances[p := d], order + [p])
  {
    var order' := order + [p];
    forall i | 0 <= i < |order'| ensures order'[i] in distances[p := d] {
      if i < |order| {
        assert order'[i] == order[i];
      }
    }
  }

  lemma RecordSorted(distances: map<Point, Num>, order: seq<Point>, pq: seq<Entry>, k: nat)
    requires Recorded(distances, order) && Sorted(distances, order) && Above(distances, order, pq)
    requires k < |pq| && pq[k].1 !in distances
    ensures Recorded(distances[pq[k].1 := pq[k].0], order + [pq[k].1])
    ensures Sorted(distances[pq[k].1 := pq[k].0], order + [pq[k].1])
  {
    var (d, p) := pq[k];
    var distances', order' := distances[p := d], order + [p];
    RecordKeeps(distances, order, p, d);
    forall i, j | 0 <= i < j < |order'| ensures LessEq(distances'[order'[i]], distances'[order'[j]]) {
      assert order'[i] == order[i] && order[i] != p;
      if j < |order| {
        assert order'[j] == order[j] && order[j] != p;
        assert LessEq(distances[order[i]], distances[order[j]]);
      } else {
        AtMostLast(distances, order, order[i]);
        assert LessEq(distances[order[|order| - 1]], d);
        LessEqTransitive(distances[order[i]], distances[order[|order| - 1]], d);
      }
    }
  }

  lemma RecordStarted(source: Point, distances: map<Point, Num>, order: seq<Point>, pq: seq<Entry>, k: nat, pq': seq<Entry>)
    requires Recorded(distances, order) && Started(source, distances, order, pq) && k < |pq| && pq[k].1 !in distances
    ensures Started(source, distances[pq[k].1 := pq[k].0], order + [pq[k].1], pq')
  {
  }

  /** A witness edge stays a witness once another point is recorded. */
  lemma ThroughGrows(graph: Adjacency, distances: map<Point, Num>, order: seq<Point>, p: Point, d: Num,
                     j: int, k: int, x: Num, q: Point)
    requires Recorded(distances, order) && p !in distances && Through(graph, distances, order, j, k, x, q)
    ensures Recorded(distances[p := d], order + [p]) && Through(graph, distances[p := d], order + [p], j, k, x, q)
  {
    RecordKeeps(distances, order, p, d);
    assert (order + [p])[j] == order[j];
  }

  lemma RecordRealized(graph: Adjacency, source: Point, distances: map<Point, Num>, order: seq<Point>, pq: seq<Entry>, k: nat)
    requires Recorded(distances, order) && Realized(graph, distances, order) && Sourced(graph, distances, order, pq)
    requires Started(source, distances, order, pq) && k < |pq| && pq[k].1 !in distances
    ensures Recorded(distances[pq[k].1 := pq[k].0], order + [pq[k].1])
    ensures Realized(graph, distances[pq[k].1 := pq[k].0], order + [pq[k].1])
  {
    var (d, p) := pq[k];
    var distances', order' := distances[p := d], order + [p];
    RecordKeeps(distances, order, p, d);
    forall i | 0 < i < |order'| ensures RealizedAt(graph, distances', order', i) {
      if i < |order| {
        RealizedEarlier(graph, distances, order, p, d, distances', order', i);
      } else {
        RealizedLast(graph, distances, order, pq, k, distances', order');
      }
    }
  }

  lemma RealizedEarlier(graph: Adjacency, distances: map<Point, Num>, order: seq<Point>, p: Point, d: Num,
                        distances': map<Point, Num>, order': seq<Point>, i: int)
    requires Recorded(distances, order) && Realized(graph, distances, order) && p !in distances && 0 < i < |order|
    requires distances' == distances[p := d] && order' == order + [p] && Recorded(distances', order')
    ensures RealizedAt(graph, distances', order', i)
  {
    assert RealizedAt(graph, distances, order, i);
    var j, m :| 0 <= j < i && Through(graph, distances, order, j, m, distances[order[i]], order[i]);
    assert order'[i] == order[i] && order[i] != p;
    ThroughGrows(graph, distances, order, p, d, j, m, distances[order[i]], order[i]);
  }

  lemma RealizedLast(graph: Adjacency, distances: map<Point, Num>, order: seq<Point>, pq: seq<Entry>, k: nat,
                     distances': map<Point, Num>, order': seq<Point>)
    requires Recorded(distances, order) && Sourced(graph, distances, order, pq) && |order| > 0
    requires k < |pq| && pq[k].1 !in distances
    requires distances' == distances[pq[k].1 := pq[k].0] && order' == order + [pq[k].1] && Recorded(distances', order')
    ensures RealizedAt(graph, distances', order', |order|)
  {
    assert pq[k] in pq;
    var j, m :| Through(graph, distances, order, j, m, pq[k].0, pq[k].1);
    ThroughGrows(graph, distances, order, pq[k].1, pq[k].0, j, m, pq[k].0, pq[k].1);
    assert order'[|order|] == pq[k].1 && distances'[order'[|order|]] == pq[k].0;
    assert 0 <= j < |order| && Through(graph, distances', order', j, m, distances'[order'[|order|]], order'[|order|]);
  }

  /** After recording p at d and pushing its neighbours, every queued distance is at least d. */
  lemma RecordAbove(graph: Adjacency, distances: map<Point, Num>, order: seq<Point>, pq: seq<Entry>, k: nat, pq': seq<Entry>)
    requires Recorded(distances, order) && NonnegWeights(graph)
    requires k < |pq| && (forall j :: 0 <= j < |pq| ==> !EntryLess(pq[j], pq[k]))
    requires pq[k].1 !in distances && pq[k].1 in graph
    requires pq' == Without(pq, k) + Pushes(pq[k].0, graph[pq[k].1], distances[pq[k].1 := pq[k].0])
    ensures Recorded(distances[pq[k].1 := pq[k].0], order + [pq[k].1])
    ensures Above(distances[pq[k].1 := pq[k].0], order + [pq[k].1], pq')
  {
    var (d, p) := pq[k];
    var distances', order' := distances[p := d], order + [p];
    RecordKeeps(distances, order, p, d);
    forall f | f in pq' ensures LessEq(d, f.0) {
      var rest := Without(pq, k);
      if f in rest {
        WithoutMembers(pq, k, f);
        LeastOfQueue(pq, k, f);
      } else {
        assert f in Pushes(d, graph[p], distances');
        PushesMembers(d, graph[p], distances', f);
        var m :| 0 <= m < |graph[p]| && graph[p][m].0 !in distances' && f == (Add(d, graph[p][m].1), graph[p][m].0);
        AddNonnegGrows(d, graph[p][m].1);
      }
    }
    assert order'[|order'| - 1] == p;
  }

  /** Recording p at d and pushing its neighbours keeps every edge relaxed. */
  lemma RecordRelaxed(graph: Adjacency, distances: map<Point, Num>, order: seq<Point>, pq: seq<Entry>, k: nat, pq': seq<Entry>)
    requires Recorded(distances, order) && Sorted(distances, order) && Above(distances, order, pq)
    requires Expanded(graph, distances) && Relaxed(graph, distances, pq) && NonnegWeights(graph)
    requires k < |pq| && pq[k].1 !in distances && pq[k].1 in graph
    requires pq' == Without(pq, k) + Pushes(pq[k].0, graph[pq[k].1], distances[pq[k].1 := pq[k].0])
    ensures Expanded(graph, distances[pq[k].1 := pq[k].0])
    ensures Relaxed(graph, distances[pq[k].1 := pq[k].0], pq')
  {
    var (d, p) := pq[k];
    var distances' := distances[p := d];
    forall u, j | u in distances' && 0 <= j < |graph[u]|
      ensures (graph[u][j].0 in distances' && LessEq(distances'[graph[u][j].0], Add(distances'[u], graph[u][j].1))) ||
              (Add(distances'[u], graph[u][j].1), graph[u][j].0) in pq'
    {
      var (q, w) := graph[u][j];
      if u == p {
        RelaxedFromNew(graph, distances, order, pq, k, pq', j);
      } else {
        var x := (Add(distances[u], w), q);
        WithoutMembers(pq, k, x);
        if !(q in distances && LessEq(distances[q], x.0)) && x != pq[k] {
          assert x in Without(pq, k);
        }
      }
    }
  }

  lemma RelaxedFromNew(graph: Adjacency, distances: map<Point, Num>, order: seq<Point>, pq: seq<Entry>, k: nat, pq': seq<Entry>, j: int)
    requires Recorded(distances, order) && Sorted(distances, order) && Above(distances, order, pq) && NonnegWeights(graph)
    requires k < |pq| && pq[k].1 !in distances && pq[k].1 in graph && 0 <= j < |graph[pq[k].1]|
    requires pq' == Without(pq, k) + Pushes(pq[k].0, graph[pq[k].1], distances[pq[k].1 := pq[k].0])
    ensures var (d, p, q, w) := (pq[k].0, pq[k].1, graph[pq[k].1][j].0, graph[pq[k].1][j].1);
      (q in distances[p := d] && LessEq(distances[p := d][q], Add(d, w))) || (Add(d, w), q) in pq'
  {
    var (d, p) := pq[k];
    var (q, w) := graph[p][j];
    var distances' := distances[p := d];
    AddNonnegGrows(d, w);
    if q in distances {
      AtMostLast(distances, order, q);
      assert pq[k] in pq;
      LessEqTransitive(distances[q], distances[order[|order| - 1]], d);
      LessEqTransitive(distances[q], d, Add(d, w));
    } else if q != p {
      PushesMembers(d, graph[p], distances', (Add(d, w), q));
    }
  }

  lemma RecordSourced(graph: Adjacency, source: Point, distances: map<Point, Num>, order: seq<Point>, pq: seq<Entry>, k: nat, pq': seq<Entry>)
    requires Recorded(distances, order) && Started(source, distances, order, pq) && Sourced(graph, distances, order, pq)
    requires k < |pq| && pq[k].1 !in distances && pq[k].1 in graph
    requires pq' == Without(pq, k) + Pushes(pq[k].0, graph[pq[k].1], distances[pq[k].1 := pq[k].0])
    ensures Recorded(distances[pq[k].1 := pq[k].0], order + [pq[k].1])
    ensures Sourced(graph, distances[pq[k].1 := pq[k].0], order + [pq[k].1], pq')
  {
    var (d, p) := pq[k];
    var distances', order' := distances[p := d], order + [p];
    RecordKeeps(distances, order, p, d);
    forall f | f in pq' ensures exists j, m :: Through(graph, distances', order', j, m, f.0, f.1) {
      if f in Without(pq, k) {
        WithoutMembers(pq, k, f);
        assert |order| > 0;
        var j, m :| Through(graph, distances, order, j, m, f.0, f.1);
        ThroughGrows(graph, distances, order, p, d, j, m, f.0, f.1);
      } else {
        PushesMembers(d, graph[p], distances', f);
        var m :| 0 <= m < |graph[p]| && graph[p][m].0 !in distances' && f == (Add(d, graph[p][m].1), graph[p][m].0);
        assert order'[|order|] == p;
        assert Through(graph, distances', order', |order|, m, f.0, f.1);
      }
    }
  }

  lemma RecordNonneg(graph: Adjacency, distances: map<Point, Num>, pq: seq<Entry>, k: nat, pq': seq<Entry>)
    requires NonnegDistances(distances, pq) && NonnegWeights(graph)
    requires k < |pq| && pq[k].1 in graph
    requires pq' == Without(pq, k) + Pushes(pq[k].0, graph[pq[k].1], distances[pq[k].1 := pq[k].0])
    ensures NonnegDistances(distances[pq[k].1 := pq[k].0], pq')
  {
    var (d, p) := pq[k];
    assert pq[k] in pq;
    forall f | f in pq' ensures Nonneg(f.0) {
      if f in Without(pq, k) {
        WithoutMembers(pq, k, f);
      } else {
        PushesMembers(d, graph[p], distances[p := d], f);
      }
    }
  }

  /** Popping a new point, recording it and pushing its neighbours keeps the invariant. */
  lemma PopNew(graph: Adjacency, source: Point, distances: map<Point, Num>, order: seq<Point>, pq: seq<Entry>, k: nat, pq': seq<Entry>)
    requires Inv(graph, source, distances, order, pq) && NonnegWeights(graph)
    requires k < |pq| && (forall j :: 0 <= j < |pq| ==> !EntryLess(pq[j], pq[k]))
    requires pq[k].1 !in distances && pq[k].1 in graph
    requires pq' == Without(pq, k) + Pushes(pq[k].0, graph[pq[k].1], distances[pq[k].1 := pq[k].0])
    ensures Inv(graph, source, distances[pq[k].1 := pq[k].0], order + [pq[k].1], pq')
  {
    RecordSorted(distances, order, pq, k);
    RecordStarted(source, distances, order, pq, k, pq');
    RecordAbove(graph, distances, order, pq, k, pq');
    RecordRelaxed(graph, distances, order, pq, k, pq');
    RecordRealized(graph, source, distances, order, pq, k);
    RecordSourced(graph, source, distances, order, pq, k, pq');
    RecordNonneg(graph, distances, pq, k, pq');
  }

  lemma InitInv(graph: Adjacency, source: Point)
    ensures Inv(graph, source, map[], [], [(ZERO, source)])
  {
  }

  /** Recording p adds it to the close points exactly when it is close. */
  lemma CloseRecordedStep(source: Point, close: int, distances: map<Point, Num>, p: Point, d: Num)
    requires p !in distances
    ensures |CloseRecorded(source, close, distances[p := d])| ==
      |CloseRecorded(source, close, distances)| + (if DistSquared(source, p) <= close then 1 else 0)
  {
    if DistSquared(source, p) <= close {
      assert CloseRecorded(source, close, distances[p := d]) == CloseRecorded(source, close, distances) + {p};
    } else {
      assert CloseRecorded(source, close, distances[p := d]) == CloseRecorded(source, close, distances);
    }
  }

  // ---------------------------------------------------------------------------
  // What the invariant gives

  /** With an empty queue, every neighbour of a recorded point is recorded. */
  lemma EmptyQueueClosed(graph: Adjacency, source: Point, distances: map<Point, Num>, order: seq<Point>)
    requires Inv(graph, source, distances, order, [])
    ensures Closed(graph, distances)
  {
  }

  /** A recorded distance is the length of a walk from the source. */
  lemma {:induction false} WalkTo(graph: Adjacency, source: Point, distances: map<Point, Num>, order: seq<Point>, i: nat)
    returns (w: seq<Point>, ws: seq<Num>)
    requires Recorded(distances, order) && Realized(graph, distances, order) && i < |order|
    requires order[0] == source && distances[source] == ZERO
    ensures WalkFrom(graph, source, w, ws) && w[|w| - 1] == order[i] && Total(ws) == distances[order[i]]
    decreases i
  {
    if i == 0 {
      w, ws := [source], [];
    } else {
      assert RealizedAt(graph, distances, order, i);
      var j, k :| 0 <= j < i && Through(graph, distances, order, j, k, distances[order[i]], order[i]);
      var w', ws' := WalkTo(graph, source, distances, order, j);
      var step := graph[order[j]][k];
      w, ws := w' + [order[i]], ws' + [step.1];
      assert ws[..|ws| - 1] == ws';
      forall m | 0 <= m < |ws| ensures w[m] in graph && (w[m + 1], ws[m]) in graph[w[m]] {
        if m < |ws'| {
          assert w[m] == w'[m] && w[m + 1] == w'[m + 1] && ws[m] == ws'[m];
        } else {
          assert w[m] == order[j] && (w[m + 1], ws[m]) == graph[order[j]][k];
        }
      }
    }
  }

  /** Along a walk from the source through recorded points, recorded distances are at most the prefix lengths. */
  lemma {:induction false} PrefixBound(graph: Adjacency, source: Point, distances: map<Point, Num>, order: seq<Point>,
                                       pq: seq<Entry>, w: seq<Point>, ws: seq<Num>, n: nat)
    requires Settled(graph, source, distances, order, pq) && WalkFrom(graph, source, w, ws) && n < |w|
    requires forall i :: 0 <= i <= n ==> w[i] in distances
    ensures LessEq(distances[w[n]], Total(ws[..n]))
    decreases n
  {
    if n == 0 {
      assert ws[..0] == [];
      assert source in order;
    } else {
      PrefixBound(graph, source, distances, order, pq, w, ws, n - 1);
      StepBound(graph, source, distances, order, pq, w, ws, n - 1);
      TotalStep(ws, n);
      ChainStep(distances[w[n - 1]], distances[w[n]], Total(ws[..n - 1]), ws[n - 1]);
    }
  }

  lemma TotalStep(ws: seq<Num>, n: nat)
    requires 0 < n <= |ws|
    ensures Total(ws[..n]) == Add(Total(ws[..n - 1]), ws[n - 1])
  {
    assert ws[..n][..n - 1] == ws[..n - 1];
  }

  /** If a <= t and b <= a + x then b <= t + x. */
  lemma ChainStep(a: Num, b: Num, t: Num, x: Num)
    requires LessEq(a, t) && LessEq(b, Add(a, x))
    ensures LessEq(b, Add(t, x))
  {
    LessEqAddLeft(x, a, t);
    assert Add(x, a) == Add(a, x) && Add(x, t) == Add(t, x);
    LessEqTransitive(b, Add(a, x), Add(t, x));
  }

  /** One step of a walk between recorded points: the relaxed edge bounds the second distance. */
  lemma StepBound(graph: Adjacency, source: Point, distances: map<Point, Num>, order: seq<Point>,
                  pq: seq<Entry>, w: seq<Point>, ws: seq<Num>, m: nat)
    requires Settled(graph, source, distances, order, pq) && Walk(graph, w, ws) && m < |ws|
    requires w[m] in distances && w[m + 1] in distances
    ensures LessEq(distances[w[m + 1]], Add(distances[w[m]], ws[m]))
  {
    var k :| 0 <= k < |graph[w[m]]| && graph[w[m]][k] == (w[m + 1], ws[m]);
    var x := (Add(distances[w[m]], ws[m]), w[m + 1]);
    if !LessEq(distances[w[m + 1]], x.0) {
      assert x in pq;
      AtMostLast(distances, order, w[m + 1]);
      LessEqTransitive(distances[w[m + 1]], distances[order[|order| - 1]], x.0);
    }
  }

  /** Dijkstra's guarantee: no walk from the source reaches a recorded point more cheaply. */
  lemma Optimal(graph: Adjacency, source: Point, distances: map<Point, Num>, order: seq<Point>,
                pq: seq<Entry>, w: seq<Point>, ws: seq<Num>)
    requires Settled(graph, source, distances, order, pq) && NonnegWeights(graph)
    requires WalkFrom(graph, source, w, ws) && w[|w| - 1] in distances
    ensures LessEq(distances[w[|w| - 1]], Total(ws))
  {
    WalkWeightsNonneg(graph, w, ws);
    assert ws[..|ws|] == ws;
    AtMostLast(distances, order, w[|w| - 1]);
    if forall i :: 0 <= i < |w| ==> w[i] in distances {
      PrefixBound(graph, source, distances, order, pq, w, ws, |w| - 1);
    } else {
      var m := FirstUnrecorded(distances, w);
      assert m > 0 by { assert source in order; }
      PrefixBound(graph, source, distances, order, pq, w, ws, m - 1);
      var k :| 0 <= k < |graph[w[m - 1]]| && graph[w[m - 1]][k] == (w[m], ws[m - 1]);
      var x := (Add(distances[w[m - 1]], ws[m - 1]), w[m]);
      assert x in pq;
      var last := distances[order[|order| - 1]];
      LessEqTransitive(distances[w[|w| - 1]], last, x.0);
      TotalStep(ws, m);
      ChainStep(distances[w[m - 1]], distances[w[|w| - 1]], Total(ws[..m - 1]), ws[m - 1]);
      TotalPrefix(ws, m, |ws|);
      LessEqTransitive(distances[w[|w| - 1]], Total(ws[..m]), Total(ws));
    }
  }

  /** The first point of w that is not recorded. */
  lemma FirstUnrecorded(distances: map<Point, Num>, w: seq<Point>) returns (m: nat)
    requires exists i :: 0 <= i < |w| && w[i] !in distances
    ensures m < |w| && w[m] !in distances && forall i :: 0 <= i < m ==> w[i] in distances
  {
    m := 0;
    while w[m] in distances
      invariant m < |w| && forall i :: 0 <= i < m ==> w[i] in distances
      decreases |w| - m
    {
      m := m + 1;
    }
  }

  // ---------------------------------------------------------------------------
  // The algorithm

  /**
   * Dijkstra's loop from source. With a limit, the loop also stops once
   * that many recorded points lie within squared distance close of the
   * source. Popping a new point records it; one without adjacency list is a
   * missing key, which ends the run.
   */
  method Dijkstra(graph: Adjacency, source: Point, close: int, limit: Option<nat>)
    returns (distances: map<Point, Num>, order: seq<Point>, missing: Option<Point>)
    requires NonnegWeights(graph)
    ensures Recorded(distances, order) && Sorted(distances, order)
    ensures limit != Some(0) ==> |order| > 0
    ensures |order| > 0 ==> order[0] == source && distances[source] == ZERO
    ensures forall p :: p in distances ==> Nonneg(distances[p])
    ensures missing.Some? ==> |order| > 0 && missing.value == order[|order| - 1] && missing.value !in graph
    ensures forall i :: 0 <= i < |order| && (missing.None? || i < |order| - 1) ==> order[i] in graph
    ensures forall i :: 0 <= i < |order| ==> Reached(graph, source, distances, order, i)
    ensures missing.None? ==> Shortest(graph, source, distances)
    ensures missing.None? ==>
      Closed(graph, distances) || (limit.Some? && |CloseRecorded(source, close, distances)| >= limit.value)
  {
    distances, order, missing := map[], [], None;
    var pq: seq<Entry> := [(ZERO, source)];
    var count := 0;
    InitInv(graph, source);
    while pq != [] && (limit.None? || count < limit.value)
      invariant Inv(graph, source, distances, order, pq)
      invariant count == |CloseRecorded(source, close, distances)|
      invariant limit != Some(0) && pq == [] ==> |order| > 0
      decreases graph.Keys - distances.Keys, |pq|
    {
      var k := ExtractMin(pq);
      var (d, p) := pq[k];
      if p in distances {
        PopRecorded(graph, source, distances, order, pq, k);
        assert |Without(pq, k)| < |pq|;
        pq := Without(pq, k);
        continue;
      }
      CloseRecordedStep(source, close, distances, p, d);
      if DistSquared(source, p) <= close {
        count := count + 1;
      }
      if p !in graph {
        RecordSorted(distances, order, pq, k);
        RecordRealized(graph, source, distances, order, pq, k);
        RecordStarted(source, distances, order, pq, k, []);
        distances, order, missing := distances[p := d], order + [p], Some(p);
        ReachedAll(graph, source, distances, order);
        return;
      }
      var pq' := Relax(Without(pq, k), d, graph[p], distances[p := d]);
      PopNew(graph, source, distances, order, pq, k, pq');
      UnrecordedShrink(graph, distances, p, d);
      distances, order, pq := distances[p := d], order + [p], pq';
    }
    Conclude(graph, source, distances, order, pq);
  }

  /** Recording a point with an adjacency list leaves fewer such points unrecorded. */
  lemma UnrecordedShrink(graph: Adjacency, distances: map<Point, Num>, p: Point, d: Num)
    requires p in graph && p !in distances
    ensures graph.Keys - distances[p := d].Keys < graph.Keys - distances.Keys
  {
    assert p in graph.Keys - distances.Keys;
  }

  /** What the invariant gives when the loop stops. */
  lemma Conclude(graph: Adjacency, source: Point, distances: map<Point, Num>, order: seq<Point>, pq: seq<Entry>)
    requires Inv(graph, source, distances, order, pq) && NonnegWeights(graph)
    ensures forall i :: 0 <= i < |order| ==> Reached(graph, source, distances, order, i)
    ensures Shortest(graph, source, distances)
    ensures pq == [] ==> Closed(graph, distances)
  {
    ReachedAll(graph, source, distances, order);
    forall w, ws | WalkFrom(graph, source, w, ws) && w[|w| - 1] in distances
      ensures LessEq(distances[w[|w| - 1]], Total(ws))
    {
      Optimal(graph, source, distances, order, pq, w, ws);
    }
    if pq == [] {
      EmptyQueueClosed(graph, source, distances, order);
    }
  }

  /** The point recorded i-th is reached by a walk from the source whose length is its distance. */
  ghost predicate Reached(graph: Adjacency, source: Point, distances: map<Point, Num>, order: seq<Point>, i: int)
    requires Recorded(distances, order) && 0 <= i < |order|
  {
    exists w, ws :: WalkFrom(graph, source, w, ws) && w[|w| - 1] == order[i] && Total(ws) == distances[order[i]]
  }

  /** No walk from the source reaches a recorded point in less than its distance. */
  ghost predicate Shortest(graph: Adjacency, source: Point, distances: map<Point, Num>)
  {
    forall w, ws :: WalkFrom(graph, source, w, ws) && w[|w| - 1] in distances ==> LessEq(distances[w[|w| - 1]], Total(ws))
  }

  lemma ReachedAll(graph: Adjacency, source: Point, distances: map<Point, Num>, order: seq<Point>)
    requires Recorded(distances, order) && Realized(graph, distances, order)
    requires |order| > 0 ==> order[0] == source && distances[source] == ZERO
    ensures forall i :: 0 <= i < |order| ==> Reached(graph, source, distances, order, i)
  {
    forall i | 0 <= i < |order| ensures Reached(graph, source, distances, order, i) {
      var w, ws := WalkTo(graph, source, distances, order, i);
    }
  }
}

/**
 * The mutable state of the branch-and-bound search: the edge set, the
 * forbidden pairs, the degree table and the touched points, with the two
 * deduction rules applied when an edge is inserted (the crossing diagonal of
 * a new diagonal becomes forbidden; a vertex reaching degree 3 forbids every
 * still-free pair at it) and the undo record that reverses an insertion.
 *
 * Each state-changing operation is specified by a function on a `Graph`
 * value that follows the source's loop step by step; the lemmas below prove
 * what the search relies on about those functions.
 */
module GraphState {
  import opened ExactNumber
  import opened Geometry

  datatype Graph = Graph(edges: set<Edge>, forbidden: set<Edge>, deg: map<Point, int>, points: set<Point>)

  /** What an insertion changed, in the order it changed it. */
  datatype Undo = Undo(addedEdges: seq<Edge>, addedPoints: seq<Point>, newForbidden: seq<Edge>)

  /** A missing key reads as degree 0. */
  function DegOf(deg: map<Point, int>, p: Point): int { if p in deg then deg[p] else 0 }

  function Increment(deg: map<Point, int>, p: Point): map<Point, int> { deg[p := DegOf(deg, p) + 1] }

  function Decrement(deg: map<Point, int>, p: Point): map<Point, int> { deg[p := DegOf(deg, p) - 1] }

  /** Both orientations of every pair are present together. */
  ghost predicate Symmetric(s: set<Edge>) { forall a, b :: (a, b) in s ==> (b, a) in s }

  function Elems<T>(s: seq<T>): set<T> { set x | x in s }

  /** Both orientations of the listed pairs. */
  function Doubled(es: seq<Edge>): set<Edge> { Elems(es) + (set e | e in es :: Reverse(e)) }

  /** Number of endpoint slots of the listed pairs occupied by p. */
  function Count(es: seq<Edge>, p: Point): nat
  {
    if |es| == 0 then 0
    else Count(es[..|es| - 1], p) + (if es[|es| - 1].0 == p then 1 else 0) + (if es[|es| - 1].1 == p then 1 else 0)
  }

  /** Number of consecutive pairs of a path. */
  function PairCount(path: seq<Point>): nat { if |path| == 0 then 0 else |path| - 1 }

  /** The graph prove starts from: no pairs, no degrees, no points. */
  const EMPTY := Graph({}, {}, map[], {})

  /** Two states that agree on everything the search observes (a key with value 0 reads as absent). */
  ghost predicate Agree(g: Graph, h: Graph)
  {
    g.edges == h.edges && g.forbidden == h.forbidden && g.points == h.points &&
    forall p :: DegOf(g.deg, p) == DegOf(h.deg, p)
  }

  // ---------------------------------------------------------------------------
  // can_add_path

  /**
   * How much the degree of p would grow from the first n pairs of the path:
   * every pair not already an edge counts once for each endpoint equal to p.
   */
  function Tally(edges: set<Edge>, path: seq<Point>, n: nat, p: Point): nat
    requires n <= PairCount(path)
  {
    if n == 0 then 0
    else
      var step := if (path[n - 1], path[n]) in edges then 0
                  else (if path[n - 1] == p then 1 else 0) + (if path[n] == p then 1 else 0);
      Tally(edges, path, n - 1, p) + step
  }

  /**
   * The path may be added: none of its pairs is forbidden and no point it
   * touches would end above degree 3.
   */
  predicate CanAddPathSpec(g: Graph, path: seq<Point>)
  {
    (forall i :: 0 <= i < PairCount(path) ==> (path[i], path[i + 1]) !in g.forbidden) &&
    (forall i :: 0 <= i < |path| ==>
      Tally(g.edges, path, PairCount(path), path[i]) > 0 ==>
        DegOf(g.deg, path[i]) + Tally(g.edges, path, PairCount(path), path[i]) <= 3)
  }

  lemma {:induction false} TallyMonotone(edges: set<Edge>, path: seq<Point>, m: nat, n: nat, p: Point)
    requires m <= n <= PairCount(path)
    ensures Tally(edges, path, m, p) <= Tally(edges, path, n, p)
    decreases n
  {
    if m < n {
      TallyMonotone(edges, path, m, n - 1, p);
    }
  }

  /** Only points of the path are tallied. */
  lemma {:induction false} TallyOnPath(edges: set<Edge>, path: seq<Point>, n: nat, p: Point)
    requires n <= PairCount(path)
    requires Tally(edges, path, n, p) > 0
    ensures p in path
    decreases n
  {
    if Tally(edges, path, n - 1, p) > 0 {
      TallyOnPath(edges, path, n - 1, p);
    }
  }

  // ---------------------------------------------------------------------------
  // add_edge

  /** Forbid (c, d) and (d, c) unless (c, d) is already an edge or forbidden. */
  function ForbidIfFree(g: Graph, c: Point, d: Point): (Graph, seq<Edge>)
  {
    if (c, d) !in g.edges && (c, d) !in g.forbidden then
      (g.(forbidden := g.forbidden + {(c, d), (d, c)}), [(c, d), (d, c)])
    else
      (g, [])
  }

  /** The saturation loop at p over the first k directions. */
  function Saturate(g: Graph, p: Point, k: nat): (Graph, seq<Edge>)
    requires k <= 8
  {
    if k == 0 then (g, [])
    else
      var (g1, nf1) := Saturate(g, p, k - 1);
      var (g2, nf2) := ForbidIfFree(g1, p, Translate(p, DIRECTIONS[k - 1].0));
      (g2, nf1 + nf2)
  }

  /** The other diagonal of the unit square that the diagonal (a, b) spans. */
  function CrossingDiagonal(a: Point, b: Point): Edge
  {
    var v := Vec(a, b);
    (Translate(a, Point(v.x, 0)), Translate(a, Point(0, v.y)))
  }

  /** The state after the degree and edge updates of add_edge, before any deduction. */
  function InsertEdge(g: Graph, a: Point, b: Point): Graph
  {
    g.(deg := Increment(Increment(g.deg, a), b), edges := g.edges + {(a, b), (b, a)})
  }

  /** The crossing-diagonal rule. */
  function ForbidCrossing(g: Graph, a: Point, b: Point): (Graph, seq<Edge>)
  {
    if Manhattan(a, b) == 2 then ForbidIfFree(g, CrossingDiagonal(a, b).0, CrossingDiagonal(a, b).1)
    else (g, [])
  }

  /** The degree-3 rule at p. */
  function SaturateIfFull(g: Graph, p: Point): (Graph, seq<Edge>)
  {
    if DegOf(g.deg, p) == 3 then Saturate(g, p, 8) else (g, [])
  }

  /** add_edge: insert both orientations, then apply the two deduction rules; returns the new forbidden pairs. */
  function AddEdgeSpec(g: Graph, a: Point, b: Point): (Graph, seq<Edge>)
  {
    var g1 := InsertEdge(g, a, b);
    var (g2, nf1) := ForbidCrossing(g1, a, b);
    var (g3, nf2) := SaturateIfFull(g2, a);
    var (g4, nf3) := SaturateIfFull(g3, b);
    (g4, nf1 + nf2 + nf3)
  }

  // ---------------------------------------------------------------------------
  // add_path and remove_path

  function AddPoint(g: Graph, p: Point): (Graph, seq<Point>)
  {
    if p in g.points then (g, []) else (g.(points := g.points + {p}), [p])
  }

  /** One iteration of add_path's loop, on the pair (a, b). */
  function AddPair(g: Graph, a: Point, b: Point): (Graph, Undo)
  {
    var (g2, u) := AddPairEdge(g, a, b);
    var (g3, pa) := AddPoint(g2, a);
    var (g4, pb) := AddPoint(g3, b);
    (g4, u.(addedPoints := pa + pb))
  }

  /** The edge part of one add_path iteration: add_edge unless (a, b) is already an edge. */
  function AddPairEdge(g: Graph, a: Point, b: Point): (Graph, Undo)
  {
    if (a, b) !in g.edges then
      var (g2, nf) := AddEdgeSpec(g, a, b);
      (g2, Undo([(a, b)], [], nf))
    else (g, Undo([], [], []))
  }

  function Append(u: Undo, w: Undo): Undo
  {
    Undo(u.addedEdges + w.addedEdges, u.addedPoints + w.addedPoints, u.newForbidden + w.newForbidden)
  }

  /** add_path over the first n pairs of the path. */
  function AddPathPrefix(g: Graph, path: seq<Point>, n: nat): (Graph, Undo)
    requires n <= PairCount(path)
  {
    if n == 0 then (g, Undo([], [], []))
    else Extend(AddPathPrefix(g, path, n - 1), path[n - 1], path[n])
  }

  /** Run one more iteration of add_path on a state and extend its record. */
  function Extend(r: (Graph, Undo), a: Point, b: Point): (Graph, Undo)
  {
    (AddPair(r.0, a, b).0, Append(r.1, AddPair(r.0, a, b).1))
  }

  function AddPathSpec(g: Graph, path: seq<Point>): (Graph, Undo)
  {
    AddPathPrefix(g, path, PairCount(path))
  }

  /** The first n iterations of remove_path's loop over the added edges. */
  function RemoveEdgesPrefix(g: Graph, es: seq<Edge>, n: nat): Graph
    requires n <= |es|
  {
    if n == 0 then g
    else
      var g1 := RemoveEdgesPrefix(g, es, n - 1);
      var (a, b) := es[n - 1];
      g1.(deg := Decrement(Decrement(g1.deg, a), b), edges := g1.edges - {(a, b), (b, a)})
  }

  /** remove_path: drop the added edges (both orientations, degrees down), then the added points and forbidden pairs. */
  function RemoveSpec(g: Graph, u: Undo): Graph
  {
    var g1 := RemoveEdgesPrefix(g, u.addedEdges, |u.addedEdges|);
    g1.(points := g1.points - Elems(u.addedPoints), forbidden := g1.forbidden - Elems(u.newForbidden))
  }

  // ---------------------------------------------------------------------------
  // Effects of one insertion

  /** What ForbidIfFree changes: only forbidden pairs, all fresh, and both orientations. */
  ghost predicate ForbidsFresh(g: Graph, g2: Graph, nf: seq<Edge>)
  {
    g2.edges == g.edges && g2.deg == g.deg && g2.points == g.points &&
    g2.forbidden == g.forbidden + Elems(nf) && Elems(nf) !! g.forbidden &&
    (forall a, b :: (a, b) in Elems(nf) ==> (b, a) in Elems(nf))
  }

  lemma ForbidIfFreeEffect(g: Graph, c: Point, d: Point)
    requires Symmetric(g.forbidden)
    ensures ForbidsFresh(g, ForbidIfFree(g, c, d).0, ForbidIfFree(g, c, d).1)
  {
    var (g2, nf) := ForbidIfFree(g, c, d);
    if (c, d) !in g.edges && (c, d) !in g.forbidden {
      assert Elems(nf) == {(c, d), (d, c)};
    } else {
      assert Elems(nf) == {};
    }
  }

  lemma ForbidsFreeTransitive(g: Graph, g2: Graph, nf: seq<Edge>, g3: Graph, nf2: seq<Edge>)
    requires ForbidsFresh(g, g2, nf) && ForbidsFresh(g2, g3, nf2)
    ensures ForbidsFresh(g, g3, nf + nf2)
  {
    assert Elems(nf + nf2) == Elems(nf) + Elems(nf2);
  }

  lemma ForbidsFreshSymmetric(g: Graph, g2: Graph, nf: seq<Edge>)
    requires ForbidsFresh(g, g2, nf) && Symmetric(g.forbidden)
    ensures Symmetric(g2.forbidden)
  {
  }

  lemma {:induction false} SaturateEffect(g: Graph, p: Point, k: nat)
    requires k <= 8 && Symmetric(g.forbidden)
    ensures ForbidsFresh(g, Saturate(g, p, k).0, Saturate(g, p, k).1)
    decreases k
  {
    if k == 0 {
      assert Elems<Edge>([]) == {};
    } else {
      SaturateEffect(g, p, k - 1);
      var (g1, nf1) := Saturate(g, p, k - 1);
      ForbidsFreshSymmetric(g, g1, nf1);
      ForbidIfFreeEffect(g1, p, Translate(p, DIRECTIONS[k - 1].0));
      var (g2, nf2) := ForbidIfFree(g1, p, Translate(p, DIRECTIONS[k - 1].0));
      ForbidsFreeTransitive(g, g1, nf1, g2, nf2);
    }
  }

  lemma SaturateIfFullEffect(g: Graph, p: Point)
    requires Symmetric(g.forbidden)
    ensures ForbidsFresh(g, SaturateIfFull(g, p).0, SaturateIfFull(g, p).1)
  {
    if DegOf(g.deg, p) == 3 {
      SaturateEffect(g, p, 8);
    } else {
      assert Elems<Edge>([]) == {};
    }
  }

  lemma ForbidCrossingEffect(g: Graph, a: Point, b: Point)
    requires Symmetric(g.forbidden)
    ensures ForbidsFresh(g, ForbidCrossing(g, a, b).0, ForbidCrossing(g, a, b).1)
  {
    if Manhattan(a, b) == 2 {
      ForbidIfFreeEffect(g, CrossingDiagonal(a, b).0, CrossingDiagonal(a, b).1);
    } else {
      assert Elems<Edge>([]) == {};
    }
  }

  /**
   * add_edge inserts exactly (a, b) and (b, a), raises the two degrees, and
   * only adds fresh forbidden pairs, in both orientations.
   */
  lemma AddEdgeEffect(g: Graph, a: Point, b: Point)
    requires Symmetric(g.forbidden)
    ensures var (g2, nf) := AddEdgeSpec(g, a, b);
      g2.edges == g.edges + {(a, b), (b, a)} &&
      g2.deg == Increment(Increment(g.deg, a), b) &&
      g2.points == g.points &&
      g2.forbidden == g.forbidden + Elems(nf) && Elems(nf) !! g.forbidden &&
      Symmetric(g2.forbidden)
  {
    var g1 := InsertEdge(g, a, b);
    ForbidCrossingEffect(g1, a, b);
    var (g2, nf1) := ForbidCrossing(g1, a, b);
    ForbidsFreshSymmetric(g1, g2, nf1);
    SaturateIfFullEffect(g2, a);
    var (g3, nf2) := SaturateIfFull(g2, a);
    ForbidsFreeTransitive(g1, g2, nf1, g3, nf2);
    ForbidsFreshSymmetric(g1, g3, nf1 + nf2);
    SaturateIfFullEffect(g3, b);
    var (g4, nf3) := SaturateIfFull(g3, b);
    ForbidsFreeTransitive(g1, g3, nf1 + nf2, g4, nf3);
    ForbidsFreshSymmetric(g1, g4, nf1 + nf2 + nf3);
  }

  // ---------------------------------------------------------------------------
  // Effects of add_path

  /**
   * What the additions recorded in u did to g: the recorded edges (both
   * orientations), forbidden pairs and points are exactly the new ones, the
   * degree of every point grew by its number of endpoint slots among the
   * recorded edges, and degree keys were only added.
   */
  ghost predicate Recorded(g: Graph, gn: Graph, u: Undo)
  {
    gn.edges == g.edges + Doubled(u.addedEdges) && Doubled(u.addedEdges) !! g.edges &&
    gn.forbidden == g.forbidden + Elems(u.newForbidden) && Elems(u.newForbidden) !! g.forbidden &&
    gn.points == g.points + Elems(u.addedPoints) && Elems(u.addedPoints) !! g.points &&
    (forall p :: DegOf(gn.deg, p) == DegOf(g.deg, p) + Count(u.addedEdges, p)) &&
    (forall i :: 0 <= i < |u.addedEdges| ==> u.addedEdges[i].0 in gn.deg && u.addedEdges[i].1 in gn.deg) &&
    g.deg.Keys <= gn.deg.Keys
  }

  lemma IncrementDegOf(deg: map<Point, int>, a: Point, p: Point)
    ensures DegOf(Increment(deg, a), p) == DegOf(deg, p) + (if a == p then 1 else 0)
  {
  }

  lemma DecrementDegOf(deg: map<Point, int>, a: Point, p: Point)
    ensures DegOf(Decrement(deg, a), p) == DegOf(deg, p) - (if a == p then 1 else 0)
  {
  }

  lemma {:induction false} CountAppend(es: seq<Edge>, fs: seq<Edge>, p: Point)
    ensures Count(es + fs, p) == Count(es, p) + Count(fs, p)
    decreases |fs|
  {
    if |fs| == 0 {
      assert es + fs == es;
    } else {
      var last := fs[|fs| - 1];
      assert (es + fs)[..|es + fs| - 1] == es + fs[..|fs| - 1];
      CountAppend(es, fs[..|fs| - 1], p);
    }
  }

  lemma DoubledAppend(es: seq<Edge>, fs: seq<Edge>)
    ensures Doubled(es + fs) == Doubled(es) + Doubled(fs)
  {
    assert Elems(es + fs) == Elems(es) + Elems(fs);
  }

  lemma DoubledSingle(e: Edge)
    ensures Doubled([e]) == {e, Reverse(e)}
  {
    assert Elems([e]) == {e};
  }

  lemma DoubledSymmetric(es: seq<Edge>)
    ensures Symmetric(Doubled(es))
  {
  }

  lemma AddPointEffect(g: Graph, p: Point)
    ensures var (g2, ps) := AddPoint(g, p);
      g2.edges == g.edges && g2.forbidden == g.forbidden && g2.deg == g.deg &&
      g2.points == g.points + Elems(ps) && Elems(ps) !! g.points && p in g2.points
  {
    var (g2, ps) := AddPoint(g, p);
    if p in g.points {
      assert Elems(ps) == {};
    } else {
      assert Elems(ps) == {p};
    }
  }

  lemma AddPairEdges(g: Graph, a: Point, b: Point)
    ensures AddPair(g, a, b).1.addedEdges == if (a, b) in g.edges then [] else [(a, b)]
  {
  }

  lemma SymmetricUnion(s: set<Edge>, t: set<Edge>)
    requires Symmetric(s) && Symmetric(t)
    ensures Symmetric(s + t)
  {
  }

  lemma AddPairEdgeEffect(g: Graph, a: Point, b: Point)
    requires Symmetric(g.edges) && Symmetric(g.forbidden)
    ensures Recorded(g, AddPairEdge(g, a, b).0, AddPairEdge(g, a, b).1)
    ensures Symmetric(AddPairEdge(g, a, b).0.forbidden)
    ensures AddPairEdge(g, a, b).1.addedPoints == []
    ensures AddPairEdge(g, a, b).1.addedEdges == if (a, b) in g.edges then [] else [(a, b)]
  {
    assert Elems<Point>([]) == {};
    if (a, b) !in g.edges {
      AddEdgeEffect(g, a, b);
      var (g2, nf) := AddEdgeSpec(g, a, b);
      var ae := [(a, b)];
      DoubledSingle((a, b));
      forall p ensures DegOf(g2.deg, p) == DegOf(g.deg, p) + Count(ae, p) {
        IncrementDegOf(g.deg, a, p);
        IncrementDegOf(Increment(g.deg, a), b, p);
        assert ae[..0] == [];
      }
    } else {
      assert Elems<Edge>([]) == {};
      assert Doubled([]) == {};
    }
  }

  lemma AddPointsRecorded(g: Graph, g1: Graph, u: Undo, a: Point, b: Point)
    requires Recorded(g, g1, u) && u.addedPoints == []
    ensures var (g3, pa) := AddPoint(g1, a);
      var (g4, pb) := AddPoint(g3, b);
      Recorded(g, g4, u.(addedPoints := pa + pb)) && g4.edges == g1.edges && g4.forbidden == g1.forbidden
  {
    AddPointEffect(g1, a);
    var (g3, pa) := AddPoint(g1, a);
    AddPointEffect(g3, b);
    var (g4, pb) := AddPoint(g3, b);
    assert Elems(pa + pb) == Elems(pa) + Elems(pb);
  }

  /** One iteration of add_path records exactly what it changes. */
  lemma AddPairEffect(g: Graph, a: Point, b: Point)
    requires Symmetric(g.edges) && Symmetric(g.forbidden)
    ensures Recorded(g, AddPair(g, a, b).0, AddPair(g, a, b).1)
    ensures Symmetric(AddPair(g, a, b).0.edges) && Symmetric(AddPair(g, a, b).0.forbidden)
    ensures AddPair(g, a, b).1.addedEdges == if (a, b) in g.edges then [] else [(a, b)]
  {
    AddPairEdgeEffect(g, a, b);
    var (g1, u) := AddPairEdge(g, a, b);
    DoubledSymmetric(u.addedEdges);
    SymmetricUnion(g.edges, Doubled(u.addedEdges));
    AddPointsRecorded(g, g1, u, a, b);
  }

  lemma RecordedNothing(g: Graph)
    ensures Recorded(g, g, Undo([], [], []))
  {
    assert Elems<Point>([]) == {};
    assert Elems<Edge>([]) == {};
    assert Doubled([]) == {};
  }

  lemma RecordedCompose(g: Graph, g1: Graph, u1: Undo, g2: Graph, u2: Undo)
    requires Recorded(g, g1, u1) && Recorded(g1, g2, u2)
    ensures Recorded(g, g2, Append(u1, u2))
  {
    DoubledAppend(u1.addedEdges, u2.addedEdges);
    assert Elems(u1.newForbidden + u2.newForbidden) == Elems(u1.newForbidden) + Elems(u2.newForbidden);
    assert Elems(u1.addedPoints + u2.addedPoints) == Elems(u1.addedPoints) + Elems(u2.addedPoints);
    forall p ensures DegOf(g2.deg, p) == DegOf(g.deg, p) + Count(u1.addedEdges + u2.addedEdges, p) {
      CountAppend(u1.addedEdges, u2.addedEdges, p);
    }
    var es := u1.addedEdges + u2.addedEdges;
    forall i | 0 <= i < |es| ensures es[i].0 in g2.deg && es[i].1 in g2.deg {
      if i >= |u1.addedEdges| {
        assert es[i] == u2.addedEdges[i - |u1.addedEdges|];
      }
    }
  }

  /** add_path records exactly what it changes, and keeps both pair sets symmetric. */
  lemma {:induction false} AddPathPrefixEffect(g: Graph, path: seq<Point>, n: nat)
    requires n <= PairCount(path)
    requires Symmetric(g.edges) && Symmetric(g.forbidden)
    ensures Recorded(g, AddPathPrefix(g, path, n).0, AddPathPrefix(g, path, n).1)
    ensures Symmetric(AddPathPrefix(g, path, n).0.edges) && Symmetric(AddPathPrefix(g, path, n).0.forbidden)
    decreases n
  {
    if n == 0 {
      RecordedNothing(g);
    } else {
      AddPathPrefixEffect(g, path, n - 1);
      ExtendEffect(g, AddPathPrefix(g, path, n - 1), path[n - 1], path[n]);
    }
  }

  lemma ExtendEffect(g: Graph, r: (Graph, Undo), a: Point, b: Point)
    requires Recorded(g, r.0, r.1) && Symmetric(r.0.edges) && Symmetric(r.0.forbidden)
    ensures Recorded(g, Extend(r, a, b).0, Extend(r, a, b).1)
    ensures Symmetric(Extend(r, a, b).0.edges) && Symmetric(Extend(r, a, b).0.forbidden)
  {
    AddPairEffect(r.0, a, b);
    RecordedCompose(g, r.0, r.1, AddPair(r.0, a, b).0, AddPair(r.0, a, b).1);
  }

  /** add_path keeps both pair sets symmetric and only grows them. */
  lemma AddPathGrows(g: Graph, path: seq<Point>, n: nat)
    requires n <= PairCount(path)
    requires Symmetric(g.edges) && Symmetric(g.forbidden)
    ensures var h := AddPathPrefix(g, path, n).0;
      Symmetric(h.edges) && Symmetric(h.forbidden) && g.edges <= h.edges && g.forbidden <= h.forbidden
  {
    AddPathPrefixEffect(g, path, n);
  }

  // ---------------------------------------------------------------------------
  // remove_path undoes add_path

  lemma {:induction false} RemoveEdgesPrefixEffect(h: Graph, es: seq<Edge>, n: nat)
    requires n <= |es|
    ensures var r := RemoveEdgesPrefix(h, es, n);
      r.edges == h.edges - Doubled(es[..n]) && r.forbidden == h.forbidden && r.points == h.points &&
      forall p :: DegOf(r.deg, p) == DegOf(h.deg, p) - Count(es[..n], p)
    decreases n
  {
    if n == 0 {
      assert Doubled([]) == {};
    } else {
      RemoveEdgesPrefixEffect(h, es, n - 1);
      var r1 := RemoveEdgesPrefix(h, es, n - 1);
      var (a, b) := es[n - 1];
      assert es[..n] == es[..n - 1] + [es[n - 1]];
      DoubledAppend(es[..n - 1], [es[n - 1]]);
      DoubledSingle(es[n - 1]);
      var r := RemoveEdgesPrefix(h, es, n);
      forall p ensures DegOf(r.deg, p) == DegOf(h.deg, p) - Count(es[..n], p) {
        DecrementDegOf(r1.deg, a, p);
        DecrementDegOf(Decrement(r1.deg, a), b, p);
        assert es[..n][..n - 1] == es[..n - 1];
      }
    }
  }

  /**
   * Removing what add_path recorded, from any state that agrees with the
   * state add_path produced, gives back a state that agrees with the one
   * before add_path.
   */
  lemma UndoRestores(g: Graph, path: seq<Point>, h: Graph)
    requires Symmetric(g.edges) && Symmetric(g.forbidden)
    requires Agree(h, AddPathSpec(g, path).0)
    ensures Agree(RemoveSpec(h, AddPathSpec(g, path).1), g)
  {
    var (gn, u) := AddPathSpec(g, path);
    AddPathPrefixEffect(g, path, PairCount(path));
    RemoveEdgesPrefixEffect(h, u.addedEdges, |u.addedEdges|);
    assert u.addedEdges[..|u.addedEdges|] == u.addedEdges;
  }

  /** remove_path keeps every degree key when every endpoint it lowers has one. */
  lemma {:induction false} RemoveKeepsKeys(h: Graph, es: seq<Edge>, n: nat)
    requires n <= |es|
    requires forall i :: 0 <= i < |es| ==> es[i].0 in h.deg && es[i].1 in h.deg
    ensures RemoveEdgesPrefix(h, es, n).deg.Keys == h.deg.Keys
    decreases n
  {
    if n > 0 {
      RemoveKeepsKeys(h, es, n - 1);
      assert es[n - 1].0 in h.deg && es[n - 1].1 in h.deg;
    }
  }

  /** The special case of the state add_path itself produced. */
  lemma AddThenRemove(g: Graph, path: seq<Point>)
    requires Symmetric(g.edges) && Symmetric(g.forbidden)
    ensures Agree(RemoveSpec(AddPathSpec(g, path).0, AddPathSpec(g, path).1), g)
  {
    UndoRestores(g, path, AddPathSpec(g, path).0);
  }

  // ---------------------------------------------------------------------------
  // What can_add_path guarantees

  lemma CountSingle(e: Edge, p: Point)
    ensures Count([e], p) == (if e.0 == p then 1 else 0) + (if e.1 == p then 1 else 0)
  {
    assert [e][..0] == [];
  }

  /** add_edge only ever adds to the edge set. */
  lemma AddEdgeEdges(g: Graph, a: Point, b: Point)
    ensures AddEdgeSpec(g, a, b).0.edges == g.edges + {(a, b), (b, a)}
  {
    var g1 := InsertEdge(g, a, b);
    var g2 := ForbidCrossing(g1, a, b).0;
    var g3 := SaturateIfFull(g2, a).0;
    if DegOf(g2.deg, a) == 3 {
      SaturateCovers(g2, a, 8);
    }
    if DegOf(g3.deg, b) == 3 {
      SaturateCovers(g3, b, 8);
    }
  }

  lemma {:induction false} EdgesGrow(g: Graph, path: seq<Point>, n: nat)
    requires n <= PairCount(path)
    ensures g.edges <= AddPathPrefix(g, path, n).0.edges
    decreases n
  {
    if n > 0 {
      EdgesGrow(g, path, n - 1);
      var r := AddPathPrefix(g, path, n - 1);
      AddPairGrows(r.0, path[n - 1], path[n]);
    }
  }

  lemma AddPairGrows(g: Graph, a: Point, b: Point)
    ensures g.edges <= AddPair(g, a, b).0.edges
  {
    if (a, b) !in g.edges {
      AddEdgeEdges(g, a, b);
    }
  }

  /** The pairs one more add_path iteration records. */
  lemma ExtendAddedEdges(g: Graph, path: seq<Point>, n: nat)
    requires 0 < n <= PairCount(path)
    ensures var r := AddPathPrefix(g, path, n - 1);
      AddPathPrefix(g, path, n).1.addedEdges ==
        r.1.addedEdges + (if (path[n - 1], path[n]) in r.0.edges then [] else [(path[n - 1], path[n])])
  {
    AddPairEdges(AddPathPrefix(g, path, n - 1).0, path[n - 1], path[n]);
  }

  lemma TallyStep(edges: set<Edge>, path: seq<Point>, n: nat, p: Point)
    requires 0 < n <= PairCount(path)
    ensures Tally(edges, path, n, p) ==
      Tally(edges, path, n - 1, p) + (if (path[n - 1], path[n]) in edges then 0 else Count([(path[n - 1], path[n])], p))
  {
    CountSingle((path[n - 1], path[n]), p);
  }

  lemma {:induction false} CountBelowTally(g: Graph, path: seq<Point>, n: nat, p: Point)
    requires n <= PairCount(path)
    ensures Count(AddPathPrefix(g, path, n).1.addedEdges, p) <= Tally(g.edges, path, n, p)
    decreases n
  {
    if n == 0 {
      assert AddPathPrefix(g, path, 0).1.addedEdges == [];
    } else {
      CountBelowTally(g, path, n - 1, p);
      var r := AddPathPrefix(g, path, n - 1);
      var e := (path[n - 1], path[n]);
      ExtendAddedEdges(g, path, n);
      TallyStep(g.edges, path, n, p);
      if e in r.0.edges {
        assert AddPathPrefix(g, path, n).1.addedEdges == r.1.addedEdges;
      } else {
        EdgesGrow(g, path, n - 1);
        assert e !in g.edges;
        assert Tally(g.edges, path, n, p) == Tally(g.edges, path, n - 1, p) + Count([e], p);
        var full := AddPathPrefix(g, path, n).1.addedEdges;
        assert full == r.1.addedEdges + [e];
        CountAppend(r.1.addedEdges, [e], p);
        assert Count(full, p) == Count(r.1.addedEdges, p) + Count([e], p);
      }
    }
  }

  /**
   * After adding a path that can_add_path accepts, every degree is either
   * unchanged or at most 3, and never grows by more than the tally.
   */
  lemma DegreeBound(g: Graph, path: seq<Point>)
    requires Symmetric(g.edges) && Symmetric(g.forbidden)
    requires CanAddPathSpec(g, path)
    ensures forall p :: DegOf(AddPathSpec(g, path).0.deg, p) <= DegOf(g.deg, p) + Tally(g.edges, path, PairCount(path), p)
    ensures forall p :: DegOf(AddPathSpec(g, path).0.deg, p) == DegOf(g.deg, p) || DegOf(AddPathSpec(g, path).0.deg, p) <= 3
  {
    var n := PairCount(path);
    AddPathPrefixEffect(g, path, n);
    forall p ensures DegOf(AddPathSpec(g, path).0.deg, p) <= DegOf(g.deg, p) + Tally(g.edges, path, n, p) {
      CountBelowTally(g, path, n, p);
    }
    forall p | DegOf(AddPathSpec(g, path).0.deg, p) != DegOf(g.deg, p)
      ensures DegOf(AddPathSpec(g, path).0.deg, p) <= 3
    {
      CountBelowTally(g, path, n, p);
      TallyOnPath(g.edges, path, n, p);
      var i :| 0 <= i < |path| && path[i] == p;
    }
  }

  // ---------------------------------------------------------------------------
  // The deduction rules

  /** Every pair at p is decided: an edge or forbidden. */
  ghost predicate Saturated(g: Graph, p: Point)
  {
    forall k :: 0 <= k < 8 ==> (p, Translate(p, DIRECTIONS[k].0)) in g.edges + g.forbidden
  }

  /** Every vertex of degree exactly 3 is saturated. */
  ghost predicate Closed(g: Graph)
  {
    forall p :: DegOf(g.deg, p) == 3 ==> Saturated(g, p)
  }

  lemma SaturatedGrows(g: Graph, h: Graph, p: Point)
    requires Saturated(g, p) && g.edges <= h.edges && g.forbidden <= h.forbidden
    ensures Saturated(h, p)
  {
  }

  lemma ForbidIfFreeCovers(g: Graph, c: Point, d: Point)
    ensures var h := ForbidIfFree(g, c, d).0;
      (c, d) in h.edges + h.forbidden && h.edges == g.edges && g.forbidden <= h.forbidden && h.deg == g.deg
  {
  }

  lemma {:induction false} SaturateCovers(g: Graph, p: Point, k: nat)
    requires k <= 8
    ensures var h := Saturate(g, p, k).0;
      h.edges == g.edges && g.forbidden <= h.forbidden && h.deg == g.deg &&
      forall j :: 0 <= j < k ==> (p, Translate(p, DIRECTIONS[j].0)) in h.edges + h.forbidden
    decreases k
  {
    if k > 0 {
      SaturateCovers(g, p, k - 1);
      var g1 := Saturate(g, p, k - 1).0;
      ForbidIfFreeCovers(g1, p, Translate(p, DIRECTIONS[k - 1].0));
    }
  }

  lemma SaturateIfFullCovers(g: Graph, p: Point)
    requires DegOf(g.deg, p) == 3
    ensures Saturated(SaturateIfFull(g, p).0, p)
  {
    SaturateCovers(g, p, 8);
  }

  /** add_edge keeps every degree-3 vertex saturated. */
  lemma AddEdgeClosed(g: Graph, a: Point, b: Point)
    requires Symmetric(g.forbidden) && Closed(g)
    ensures Closed(AddEdgeSpec(g, a, b).0)
  {
    var g1 := InsertEdge(g, a, b);
    ForbidCrossingEffect(g1, a, b);
    var (g2, nf1) := ForbidCrossing(g1, a, b);
    ForbidsFreshSymmetric(g1, g2, nf1);
    SaturateIfFullEffect(g2, a);
    var (g3, nf2) := SaturateIfFull(g2, a);
    ForbidsFreshSymmetric(g2, g3, nf2);
    SaturateIfFullEffect(g3, b);
    var (g4, nf3) := SaturateIfFull(g3, b);
    assert AddEdgeSpec(g, a, b).0 == g4;
    forall p | DegOf(g4.deg, p) == 3 ensures Saturated(g4, p) {
      IncrementDegOf(g.deg, a, p);
      IncrementDegOf(Increment(g.deg, a), b, p);
      if p == b {
        SaturateIfFullCovers(g3, b);
      } else if p == a {
        SaturateIfFullCovers(g2, a);
        SaturatedGrows(g3, g4, a);
      } else {
        SaturatedGrows(g, g4, p);
      }
    }
  }

  /**
   * The crossing-diagonal rule: once a diagonal (a, b) is added, the other
   * diagonal of its unit square is an edge or forbidden.
   */
  lemma CrossingDecided(g: Graph, a: Point, b: Point)
    requires Symmetric(g.forbidden) && Manhattan(a, b) == 2
    ensures CrossingDiagonal(a, b) in AddEdgeSpec(g, a, b).0.edges + AddEdgeSpec(g, a, b).0.forbidden
  {
    var g1 := InsertEdge(g, a, b);
    ForbidCrossingEffect(g1, a, b);
    var (g2, nf1) := ForbidCrossing(g1, a, b);
    ForbidsFreshSymmetric(g1, g2, nf1);
    SaturateIfFullEffect(g2, a);
    var (g3, nf2) := SaturateIfFull(g2, a);
    ForbidsFreshSymmetric(g2, g3, nf2);
    SaturateIfFullEffect(g3, b);
  }

  lemma AddPairClosed(g: Graph, a: Point, b: Point)
    requires Symmetric(g.edges) && Symmetric(g.forbidden) && Closed(g)
    ensures Closed(AddPair(g, a, b).0)
  {
    if (a, b) !in g.edges {
      AddEdgeClosed(g, a, b);
    }
  }

  /** add_path keeps every degree-3 vertex saturated. */
  lemma {:induction false} AddPathClosed(g: Graph, path: seq<Point>, n: nat)
    requires n <= PairCount(path)
    requires Symmetric(g.edges) && Symmetric(g.forbidden) && Closed(g)
    ensures Closed(AddPathPrefix(g, path, n).0)
    decreases n
  {
    if n > 0 {
      AddPathClosed(g, path, n - 1);
      AddPathGrows(g, path, n - 1);
      AddPairClosed(AddPathPrefix(g, path, n - 1).0, path[n - 1], path[n]);
      AddPathStep(g, path, n);
    }
  }

  /** One more iteration of add_path adds the next pair to the state. */
  lemma AddPathStep(g: Graph, path: seq<Point>, n: nat)
    requires 0 < n <= PairCount(path)
    ensures AddPathPrefix(g, path, n).0 == AddPair(AddPathPrefix(g, path, n - 1).0, path[n - 1], path[n]).0
  {
  }

  /** Closedness only depends on what agreeing states share. */
  lemma AgreeClosed(g: Graph, h: Graph)
    requires Agree(g, h) && Closed(h)
    ensures Closed(g)
  {
  }

  // ---------------------------------------------------------------------------
  // The degree table counts the edges

  /** The points joined to p. */
  function Neighbours(edges: set<Edge>, p: Point): set<Point>
  {
    set e | e in edges && e.0 == p :: e.1
  }

  /** Every degree entry is the number of edges at its point. */
  ghost predicate DegreesExact(g: Graph)
  {
    forall p :: DegOf(g.deg, p) == |Neighbours(g.edges, p)|
  }

  /** No point has degree above 3. */
  ghost predicate DegreesBounded(g: Graph)
  {
    forall p :: DegOf(g.deg, p) <= 3
  }

  /** No step of the path stays in place. */
  predicate NoLoops(path: seq<Point>)
  {
    forall i, j :: 0 <= i < |path| && 0 <= j < |path| && j == i + 1 ==> path[i] != path[j]
  }

  lemma NeighboursMembers(edges: set<Edge>, p: Point, q: Point)
    ensures q in Neighbours(edges, p) <==> (p, q) in edges
  {
    if (p, q) in edges {
      var e := (p, q);
      assert e in edges && e.0 == p;
    }
  }

  /** Inserting a fresh edge (a, b) adds one neighbour at a and at b, and none elsewhere. */
  lemma NeighboursInsert(edges: set<Edge>, a: Point, b: Point, p: Point)
    requires Symmetric(edges) && (a, b) !in edges && a != b
    ensures |Neighbours(edges + {(a, b), (b, a)}, p)| == |Neighbours(edges, p)| + (if p == a || p == b then 1 else 0)
  {
    var n, n2 := Neighbours(edges, p), Neighbours(edges + {(a, b), (b, a)}, p);
    if p == a {
      NeighboursGain(edges, a, b);
    } else if p == b {
      assert (b, a) !in edges;
      assert edges + {(a, b), (b, a)} == edges + {(b, a), (a, b)};
      NeighboursGain(edges, b, a);
    } else {
      forall q ensures q in n2 <==> q in n {
        NeighboursMembers(edges, p, q);
        NeighboursMembers(edges + {(a, b), (b, a)}, p, q);
      }
      assert n2 == n;
    }
  }

  /** At a, inserting the fresh edge (a, b) adds exactly the neighbour b. */
  lemma NeighboursGain(edges: set<Edge>, a: Point, b: Point)
    requires (a, b) !in edges && a != b
    ensures Neighbours(edges + {(a, b), (b, a)}, a) == Neighbours(edges, a) + {b}
    ensures b !in Neighbours(edges, a)
  {
    forall q ensures q in Neighbours(edges + {(a, b), (b, a)}, a) <==> q in Neighbours(edges, a) + {b} {
      NeighboursMembers(edges, a, q);
      NeighboursMembers(edges + {(a, b), (b, a)}, a, q);
    }
    NeighboursMembers(edges, a, b);
  }

  /** The empty graph satisfies both halves of the degree invariant. */
  lemma EmptyDegrees()
    ensures DegreesExact(EMPTY) && DegreesBounded(EMPTY)
  {
    forall p ensures DegOf(EMPTY.deg, p) == |Neighbours(EMPTY.edges, p)| {
      assert Neighbours(EMPTY.edges, p) == {};
    }
  }

  /** One iteration of add_path keeps every degree equal to the number of edges at its point. */
  lemma AddPairExact(g: Graph, a: Point, b: Point)
    requires Symmetric(g.edges) && Symmetric(g.forbidden) && a != b
    requires DegreesExact(g)
    ensures DegreesExact(AddPair(g, a, b).0)
  {
    AddPairEffect(g, a, b);
    var (h, u) := AddPair(g, a, b);
    if (a, b) in g.edges {
      assert Doubled([]) == {};
      forall p ensures DegOf(h.deg, p) == |Neighbours(h.edges, p)| {
        assert Count([], p) == 0;
      }
    } else {
      DoubledSingle((a, b));
      forall p ensures DegOf(h.deg, p) == |Neighbours(h.edges, p)| {
        CountSingle((a, b), p);
        NeighboursInsert(g.edges, a, b, p);
      }
    }
  }

  lemma {:induction false} AddPathPrefixExact(g: Graph, path: seq<Point>, n: nat)
    requires n <= PairCount(path)
    requires Symmetric(g.edges) && Symmetric(g.forbidden) && NoLoops(path)
    requires DegreesExact(g)
    ensures DegreesExact(AddPathPrefix(g, path, n).0)
    decreases n
  {
    if n > 0 {
      AddPathPrefixExact(g, path, n - 1);
      AddPathGrows(g, path, n - 1);
      AddPairExact(AddPathPrefix(g, path, n - 1).0, path[n - 1], path[n]);
    }
  }

  /**
   * add_path on a path can_add_path accepts keeps the degree invariant: each
   * degree is the number of edges at its point and is at most 3.
   */
  lemma AddPathDegrees(g: Graph, path: seq<Point>)
    requires Symmetric(g.edges) && Symmetric(g.forbidden) && NoLoops(path)
    requires DegreesExact(g) && DegreesBounded(g)
    requires CanAddPathSpec(g, path)
    ensures DegreesExact(AddPathSpec(g, path).0) && DegreesBounded(AddPathSpec(g, path).0)
  {
    AddPathPrefixExact(g, path, PairCount(path));
    DegreeBound(g, path);
  }

  /** remove_path after add_path gives the degree invariant back. */
  lemma RemoveDegrees(g: Graph, path: seq<Point>, h: Graph)
    requires Symmetric(g.edges) && Symmetric(g.forbidden)
    requires DegreesExact(g) && DegreesBounded(g)
    requires Agree(h, AddPathSpec(g, path).0)
    ensures DegreesExact(RemoveSpec(h, AddPathSpec(g, path).1)) && DegreesBounded(RemoveSpec(h, AddPathSpec(g, path).1))
  {
    UndoRestores(g, path, h);
  }
}

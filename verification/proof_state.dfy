/**
 * The global state of one proof run, as a mutable object: the current edge
 * set, forbidden pairs, degrees and touched points, the pairs already known
 * to be joined by a short enough path, the branch counter, the forbidden
 * patterns, the ordered list of pairs to branch on, the statement being
 * proved and the log of notifications sent to the interface.
 *
 * The graph-changing methods are proved equal to the functions of
 * GraphState, whose lemmas carry the properties.
 */
module ProofState {
  import opened ExactNumber
  import opened Geometry
  import opened Wrappers
  import opened GraphState

  /**
   * A statement to prove: either that no locally optimal graph contains
   * the configuration path (u, v absent), or that it contains a path from u
   * to v shorter than the given length.
   */
  datatype ToProve = ToProve(
    u: Option<Point>,
    v: Option<Point>,
    lengthOfPath: Option<Num>,
    name: string,
    pathOfConfig: seq<Point>,
    edgesToConsider: seq<Edge>,
    tot: int,
    knownLemmas: seq<ToProve>)

  /** The notifications the search sends, without the graph snapshots they carry. */
  datatype Event =
    | Start(name: string)
    | ShortcutFound(path: seq<Point>)
    | PatternFound(pattern: seq<Edge>)
    | Branch(counter: nat)
    | ImpossibleToJoin(p: Point, q: Point)
    | UniquePath(path: seq<Point>)
    | End(name: string)
    | Finished

  class State {
    var edges: set<Edge>
    var forbidden: set<Edge>
    var deg: map<Point, int>
    var points: set<Point>
    var knownSatisfaction: set<Edge>
    var progressCounter: nat
    var patterns: seq<seq<Edge>>
    var edgesToConsider: seq<Edge>
    var toProve: ToProve
    var events: seq<Event>

    function Snapshot(): Graph
      reads this
    {
      Graph(edges, forbidden, deg, points)
    }

    /** Both pair sets are symmetric and every vertex of degree 3 is saturated. */
    ghost predicate Valid()
      reads this
    {
      Symmetric(edges) && Symmetric(forbidden) && Symmetric(knownSatisfaction) && Closed(Snapshot())
    }

    constructor (t: ToProve)
      ensures Snapshot() == Graph({}, {}, map[], {})
      ensures knownSatisfaction == {} && progressCounter == 0 && patterns == []
      ensures edgesToConsider == t.edgesToConsider && toProve == t && events == []
      ensures Valid()
    {
      edges, forbidden, deg, points := {}, {}, map[], {};
      knownSatisfaction, progressCounter, patterns := {}, 0, [];
      edgesToConsider, toProve, events := t.edgesToConsider, t, [];
    }

    method Notify(e: Event)
      modifies this`events
      ensures events == old(events) + [e]
    {
      events := events + [e];
    }

    /**
     * can_add_path: the path has no forbidden pair and adding it keeps every
     * touched degree at most 3.
     */
    method CanAddPath(path: seq<Point>) returns (ok: bool)
      ensures ok == CanAddPathSpec(Snapshot(), path)
    {
      var increment: map<Point, int> := map[];
      var i := 0;
      while i < PairCount(path)
        invariant 0 <= i <= PairCount(path)
        invariant forall p :: DegOf(increment, p) == Tally(edges, path, i, p)
        invariant forall k :: 0 <= k < i ==> (path[k], path[k + 1]) !in forbidden
        invariant forall p :: Tally(edges, path, i, p) > 0 ==> DegOf(deg, p) + Tally(edges, path, i, p) <= 3
      {
        var a, b := path[i], path[i + 1];
        if (a, b) in forbidden {
          return false;
        }
        if (a, b) !in edges {
          // the two-element loop over the endpoints a and b, unrolled
          increment := Increment(increment, a);
          if DegOf(increment, a) + DegOf(deg, a) > 3 {
            RejectedByDegree(path, i, a, true);
            return false;
          }
          increment := Increment(increment, b);
          if DegOf(increment, b) + DegOf(deg, b) > 3 {
            RejectedByDegree(path, i, b, false);
            return false;
          }
        }
        i := i + 1;
      }
      return true;
    }

    /** A point of the pair (path[i], path[i + 1]) whose partial tally already overflows rejects the whole path. */
    lemma RejectedByDegree(path: seq<Point>, i: nat, p: Point, first: bool)
      requires i < PairCount(path) && p == (if first then path[i] else path[i + 1])
      requires (path[i], path[i + 1]) !in edges
      requires DegOf(deg, p) + Tally(edges, path, i, p) + (if first then 1 else (if path[i] == p then 2 else 1)) > 3
      ensures !CanAddPathSpec(Snapshot(), path)
    {
      TallyMonotone(edges, path, i + 1, PairCount(path), p);
      var j := if first then i else i + 1;
      assert path[j] == p;
    }

    /** The loop over the eight directions at p when p has degree 3. */
    method SaturateAt(p: Point) returns (newForbidden: seq<Edge>)
      modifies this`forbidden
      ensures (Snapshot(), newForbidden) == Saturate(old(Snapshot()), p, 8)
    {
      ghost var g0 := Snapshot();
      newForbidden := [];
      for k := 0 to 8
        invariant (Snapshot(), newForbidden) == Saturate(g0, p, k)
      {
        var c := Translate(p, DIRECTIONS[k].0);
        ghost var before, nf0 := Snapshot(), newForbidden;
        if (p, c) !in edges && (p, c) !in forbidden {
          forbidden := forbidden + {(p, c), (c, p)};
          newForbidden := newForbidden + [(p, c), (c, p)];
        } else {
          assert newForbidden == nf0 + [];
        }
        assert (Snapshot(), newForbidden) == (ForbidIfFree(before, p, c).0, nf0 + ForbidIfFree(before, p, c).1);
      }
    }

    /**
     * add_edge: raise both degrees, insert both orientations, forbid the
     * crossing diagonal of a diagonal, and saturate an endpoint that reached
     * degree 3; returns the new forbidden pairs.
     */
    method AddEdge(a: Point, b: Point) returns (newForbidden: seq<Edge>)
      modifies this`deg, this`edges, this`forbidden
      ensures (Snapshot(), newForbidden) == AddEdgeSpec(old(Snapshot()), a, b)
    {
      // the two-element loop over the endpoints a and b, unrolled
      deg := Increment(deg, a);
      deg := Increment(deg, b);
      edges := edges + {(a, b), (b, a)};
      ghost var g1 := Snapshot();
      newForbidden := [];
      if Manhattan(a, b) == 2 {
        var v := Vec(a, b);
        var c := Translate(a, Point(v.x, 0));
        var d := Translate(a, Point(0, v.y));
        if (c, d) !in edges && (c, d) !in forbidden {
          forbidden := forbidden + {(c, d), (d, c)};
          newForbidden := [(c, d), (d, c)];
        }
      }
      assert (Snapshot(), newForbidden) == ForbidCrossing(g1, a, b);
      ghost var g2, nf1 := Snapshot(), newForbidden;
      var nf := SaturateIfDegreeThree(a);
      newForbidden := newForbidden + nf;
      ghost var g3, nf2 := Snapshot(), newForbidden;
      nf := SaturateIfDegreeThree(b);
      newForbidden := newForbidden + nf;
      assert (Snapshot(), newForbidden) == (SaturateIfFull(g3, b).0, nf1 + SaturateIfFull(g2, a).1 + SaturateIfFull(g3, b).1);
    }

    /** The degree-3 rule at one endpoint. */
    method SaturateIfDegreeThree(p: Point) returns (newForbidden: seq<Edge>)
      modifies this`forbidden
      ensures (Snapshot(), newForbidden) == SaturateIfFull(old(Snapshot()), p)
    {
      if DegOf(deg, p) == 3 {
        newForbidden := SaturateAt(p);
      } else {
        newForbidden := [];
      }
    }

    /** add_path: returns what it added, for remove_path. */
    method AddPath(path: seq<Point>) returns (undo: Undo)
      modifies this`deg, this`edges, this`forbidden, this`points
      ensures (Snapshot(), undo) == AddPathSpec(old(Snapshot()), path)
    {
      ghost var g0 := Snapshot();
      undo := Undo([], [], []);
      var i := 0;
      while i < PairCount(path)
        invariant 0 <= i <= PairCount(path)
        invariant (Snapshot(), undo) == AddPathPrefix(g0, path, i)
      {
        var step := AddPair(path[i], path[i + 1]);
        undo := Append(undo, step);
        i := i + 1;
      }
    }

    /** One iteration of add_path's loop. */
    method AddPair(a: Point, b: Point) returns (step: Undo)
      modifies this`deg, this`edges, this`forbidden, this`points
      ensures (Snapshot(), step) == GraphState.AddPair(old(Snapshot()), a, b)
    {
      step := Undo([], [], []);
      if (a, b) !in edges {
        var nf := AddEdge(a, b);
        step := Undo([(a, b)], [], nf);
      }
      ghost var g2 := Snapshot();
      assert (g2, step) == AddPairEdge(old(Snapshot()), a, b);
      // the two-element loop over the endpoints a and b, unrolled
      var pa := AddPoint(a);
      ghost var g3 := Snapshot();
      var pb := AddPoint(b);
      step := step.(addedPoints := pa + pb);
      assert (g3, pa) == GraphState.AddPoint(g2, a);
    }

    method AddPoint(p: Point) returns (added: seq<Point>)
      modifies this`points
      ensures (Snapshot(), added) == GraphState.AddPoint(old(Snapshot()), p)
    {
      added := [];
      if p !in points {
        added := [p];
        points := points + {p};
      }
    }

    /**
     * remove_path: lower the degrees and drop both orientations of every
     * added edge, then drop the added points and forbidden pairs. Every
     * endpoint must have a degree entry, as a missing one is a key error.
     */
    method RemovePath(undo: Undo)
      requires forall i :: 0 <= i < |undo.addedEdges| ==> undo.addedEdges[i].0 in deg && undo.addedEdges[i].1 in deg
      modifies this`deg, this`edges, this`forbidden, this`points
      ensures Snapshot() == RemoveSpec(old(Snapshot()), undo)
    {
      var es := undo.addedEdges;
      for i := 0 to |es|
        invariant Snapshot() == RemoveEdgesPrefix(old(Snapshot()), es, i)
        invariant forall j :: 0 <= j < |es| ==> es[j].0 in deg && es[j].1 in deg
      {
        var (a, b) := es[i];
        deg := deg[a := deg[a] - 1];
        deg := deg[b := deg[b] - 1];
        edges := edges - {(a, b), (b, a)};
      }
      points := points - Elems(undo.addedPoints);
      forbidden := forbidden - Elems(undo.newForbidden);
    }
  }
}

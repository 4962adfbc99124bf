/**
 * The exploration of the proof (Algorithm 2 of the article): expand adds a
 * path, looks for a shortcut or a forbidden pattern, examines the pairs of
 * nearby points, and either stops the branch (contradiction), deduces a
 * unique path, or branches over the five short paths of the first pair not
 * yet known to be joined; then it undoes its own changes. prove sets up the
 * state for one statement and runs expand on its configuration.
 *
 * The recursion has no bound in the source; here it carries a fuel count,
 * and running out of fuel is an outcome of its own. The source's
 * exceptions are outcomes too: like an exception they skip the undo of
 * every call they pass through.
 */
module Exploration {
  import opened ExactNumber
  import opened Geometry
  import opened Wrappers
  import opened GraphState
  import opened ProofState
  import opened Traversal
  import opened PathSearch
  import opened Patterns

  /** How a call of expand ends. */
  datatype Outcome =
    | Completed      // returned normally, its changes undone
    | NoLengthGiven  // u and v are given but the length to beat is not
    | NotUnitVector  // the branching pair is not one axial step apart
    | ListTooShort   // every pair of the branching list is already joined
    | OutOfFuel      // the recursion went deeper than the fuel allows

  // ---------------------------------------------------------------------------
  // Recent points

  /** The endpoints of a list of edges. */
  function EdgeEnds(es: seq<Edge>): set<Point>
  {
    if |es| == 0 then {} else EdgeEnds(es[..|es| - 1]) + {es[|es| - 1].0, es[|es| - 1].1}
  }

  /** A point is recent exactly when it is an endpoint of one of the edges. */
  lemma {:induction false} EdgeEndsMembers(es: seq<Edge>, p: Point)
    ensures p in EdgeEnds(es) <==> exists i :: 0 <= i < |es| && (es[i].0 == p || es[i].1 == p)
    decreases |es|
  {
    if |es| > 0 {
      var init := es[..|es| - 1];
      EdgeEndsMembers(init, p);
      if p in EdgeEnds(init) {
        var i :| 0 <= i < |init| && (init[i].0 == p || init[i].1 == p);
        assert es[i] == init[i];
      }
      if i :| 0 <= i < |es| && (es[i].0 == p || es[i].1 == p) {
        if i < |es| - 1 {
          assert init[i] == es[i];
        }
      }
    }
  }

  /** The loop collecting the endpoints of the edges added by add_path. */
  method RecentPoints(addedEdges: seq<Edge>) returns (recent: set<Point>)
    ensures recent == EdgeEnds(addedEdges)
  {
    recent := {};
    for i := 0 to |addedEdges|
      invariant recent == EdgeEnds(addedEdges[..i])
    {
      var (a, b) := addedEdges[i];
      assert addedEdges[..i + 1][..i] == addedEdges[..i];
      recent := recent + {a, b};
    }
    assert addedEdges[..|addedEdges|] == addedEdges;
  }

  // ---------------------------------------------------------------------------
  // The pairs to examine

  /** Within Manhattan distance d of a point of s. */
  ghost predicate CloseTo(p: Point, s: set<Point>, d: int)
  {
    exists r :: r in s && Manhattan(p, r) <= d
  }

  /** An offset (dx, dy) with |dx|, |dy| <= 2 and 1 <= |dx| + |dy| <= 3. */
  predicate IsOffset(v: Point)
  {
    -2 <= v.x <= 2 && -2 <= v.y <= 2 && 1 <= Abs(v.x) + Abs(v.y) <= 3
  }

  /**
   * A pair the search examines: p is a touched point near the recent
   * points, q is at a small offset from p and near the recent points too.
   */
  ghost predicate Considered(points: set<Point>, recent: set<Point>, p: Point, q: Point)
  {
    p in points && CloseTo(p, recent, 3) && IsOffset(Vec(p, q)) && CloseTo(q, recent, 2)
  }

  /** The pair is listed in one of its two orientations. */
  predicate Covered(couples: seq<Edge>, p: Point, q: Point)
  {
    (p, q) in couples || (q, p) in couples
  }

  /** No pair is listed after its own mirror image. */
  predicate NoMirrors(couples: seq<Edge>)
  {
    forall i, j :: 0 <= i < j < |couples| ==> couples[j] != Reverse(couples[i])
  }

  /**
   * The list of couples: every pair considered is listed in one
   * orientation, only considered pairs are listed, and no pair comes after
   * its mirror image.
   */
  method ListOfCouples(points: set<Point>, recent: set<Point>) returns (couples: seq<Edge>)
    ensures NoMirrors(couples)
    ensures forall e :: e in couples ==> Considered(points, recent, e.0, e.1)
    ensures forall p, q :: Considered(points, recent, p, q) ==> Covered(couples, p, q)
  {
    couples := [];
    var rest, done := points, {};
    while rest != {}
      invariant rest == points - done && done <= points
      invariant NoMirrors(couples)
      invariant forall e :: e in couples ==> Considered(points, recent, e.0, e.1)
      invariant forall p, q :: p in done && Considered(points, recent, p, q) ==> Covered(couples, p, q)
      decreases |rest|
    {
      var p :| p in rest;
      var close := IsCloseTo(p, recent, 3);
      if close {
        var extra := CouplesAt(points, recent, p, couples);
        couples := couples + extra;
      }
      rest, done := rest - {p}, done + {p};
    }
  }

  /** The two loops over the offsets for one first point p, appending to couples. */
  method CouplesAt(points: set<Point>, recent: set<Point>, p: Point, couples: seq<Edge>) returns (extra: seq<Edge>)
    requires p in points && CloseTo(p, recent, 3) && NoMirrors(couples)
    ensures NoMirrors(couples + extra)
    ensures forall e :: e in extra ==> Considered(points, recent, e.0, e.1)
    ensures forall q :: Considered(points, recent, p, q) ==> Covered(couples + extra, p, q)
  {
    extra := [];
    for dx := -2 to 3
      invariant NoMirrors(couples + extra)
      invariant forall e :: e in extra ==> Considered(points, recent, e.0, e.1)
      invariant forall q :: Considered(points, recent, p, q) && Vec(p, q).x < dx ==> Covered(couples + extra, p, q)
    {
      for dy := -2 to 3
        invariant NoMirrors(couples + extra)
        invariant forall e :: e in extra ==> Considered(points, recent, e.0, e.1)
        invariant forall q :: Considered(points, recent, p, q) && (Vec(p, q).x < dx || (Vec(p, q).x == dx && Vec(p, q).y < dy)) ==>
          Covered(couples + extra, p, q)
      {
        var q := Translate(p, Point(dx, dy));
        assert Vec(p, q) == Point(dx, dy);
        if 1 <= Abs(dx) + Abs(dy) <= 3 {
          var close := IsCloseTo(q, recent, 2);
          if close && (q, p) !in couples + extra {
            AppendUnmirrored(couples + extra, (p, q));
            assert couples + (extra + [(p, q)]) == couples + extra + [(p, q)];
            extra := extra + [(p, q)];
          }
        }
      }
    }
  }

  /** Appending a pair whose mirror is not listed keeps the list free of mirrors. */
  lemma AppendUnmirrored(couples: seq<Edge>, e: Edge)
    requires NoMirrors(couples) && Reverse(e) !in couples
    ensures NoMirrors(couples + [e])
  {
    forall i, j | 0 <= i < j < |couples + [e]| ensures (couples + [e])[j] != Reverse((couples + [e])[i]) {
      if j == |couples| {
        assert (couples + [e])[i] == couples[i] && couples[i] in couples;
      }
    }
  }

  // ---------------------------------------------------------------------------
  // Examining the pairs

  /** What the examination of the couples concludes. */
  datatype Verdict =
    | Contradiction(p: Point, q: Point)   // no path can join p and q
    | Deduction(path: seq<Point>)        // the first pair with exactly one possible path, and that path
    | Undecided                          // every open pair has at least two possible paths

  /** The deduced path, if any. */
  function Unique(verdict: Verdict): Option<seq<Point>>
  {
    if verdict.Deduction? then Some(verdict.path) else None
  }

  /** With a limit of 2, find_paths finds nothing, or one path, exactly when the full listing does. */
  lemma CapTwo(s: seq<seq<Point>>)
    ensures |Cap(AtMost(2), s)| == 0 <==> s == []
    ensures |Cap(AtMost(2), s)| == 1 <==> |s| == 1
    ensures |Cap(AtMost(2), s)| == 1 ==> Cap(AtMost(2), s) == s
  {
  }

  /** The pair is known, or it has no good path yet but some possible path. */
  ghost predicate Open(edges: set<Edge>, g: Graph, known: set<Edge>, e: Edge)
  {
    e in known || (!ExistsGoodPath(edges, e.0, e.1) && AllPaths(g, e.0, e.1) != [])
  }

  /** The pair is known, or it has at least two possible paths. */
  ghost predicate Branching(g: Graph, known: set<Edge>, e: Edge)
  {
    e in known || |AllPaths(g, e.0, e.1)| >= 2
  }

  /** The pair has no good path and path is its only possible path. */
  ghost predicate Forced(edges: set<Edge>, g: Graph, e: Edge, path: seq<Point>)
  {
    !ExistsGoodPath(edges, e.0, e.1) && AllPaths(g, e.0, e.1) == [path]
  }

  /**
   * What the loop over the couples knows about the first n of them: each is
   * open, each is branching while no pair has been forced, and the deduced
   * path is forced for the couple at index first, which was not known before
   * the loop and comes after branching couples only: it is the first couple
   * with exactly one possible path.
   */
  ghost predicate Examined(edges: set<Edge>, g: Graph, known0: set<Edge>, known: set<Edge>, couples: seq<Edge>, n: int,
                           unique: Option<seq<Point>>, first: int)
  {
    0 <= n <= |couples| &&
    (forall k :: 0 <= k < n ==> Open(edges, g, known, couples[k])) &&
    (unique.None? ==> forall k :: 0 <= k < n ==> Branching(g, known, couples[k])) &&
    (unique.Some? ==> FirstForced(edges, g, known0, known, couples, n, first, unique.value))
  }

  /** Among the first n couples, couples[i] was unknown before the loop and is forced to path, and every couple before it branches. */
  ghost predicate FirstForced(edges: set<Edge>, g: Graph, known0: set<Edge>, known: set<Edge>, couples: seq<Edge>, n: int,
                              i: int, path: seq<Point>)
  {
    0 <= i < n <= |couples| && couples[i] !in known0 && Forced(edges, g, couples[i], path) &&
    forall k :: 0 <= k < i ==> Branching(g, known, couples[k])
  }

  lemma ExaminedGrow(edges: set<Edge>, g: Graph, known0: set<Edge>, known: set<Edge>, known2: set<Edge>,
                     couples: seq<Edge>, n: int, unique: Option<seq<Point>>, first: int)
    requires Examined(edges, g, known0, known, couples, n, unique, first) && known <= known2
    ensures Examined(edges, g, known0, known2, couples, n, unique, first)
  {
  }

  lemma ExaminedStep(edges: set<Edge>, g: Graph, known0: set<Edge>, known: set<Edge>,
                     couples: seq<Edge>, n: int, unique: Option<seq<Point>>, first: int,
                     unique2: Option<seq<Point>>, first2: int)
    requires Examined(edges, g, known0, known, couples, n, unique, first) && n < |couples|
    requires Open(edges, g, known, couples[n])
    requires unique2.None? ==> unique.None? && Branching(g, known, couples[n])
    requires unique2.Some? ==>
      (unique2 == unique && first2 == first) ||
      (unique.None? && first2 == n && couples[n] !in known0 && Forced(edges, g, couples[n], unique2.value))
    ensures Examined(edges, g, known0, known, couples, n + 1, unique2, first2)
  {
  }

  lemma Singleton<T>(s: seq<T>)
    requires |s| == 1
    ensures s == [s[0]]
  {
  }

  /** Every pair recorded as known has a good path in one orientation. */
  ghost predicate Justified(edges: set<Edge>, es: seq<Edge>)
  {
    forall e :: e in es ==> Joined(edges, e)
  }

  /** A good path of existing edges joins the two ends of the pair, in one orientation or the other. */
  ghost predicate Joined(edges: set<Edge>, e: Edge)
  {
    (exists w :: GoodPath(edges, e.0, e.1, w)) || (exists w :: GoodPath(edges, e.1, e.0, w))
  }

  /**
   * The loop over the couples: a known pair is skipped, a pair with a good
   * path becomes known (both orientations), a pair with no possible path is
   * a contradiction that ends the loop, and the first pair with exactly one
   * possible path gives the deduction.
   */
  method Classify(st: State, couples: seq<Edge>) returns (verdict: Verdict, newKnown: seq<Edge>, ghost first: int)
    requires Symmetric(st.knownSatisfaction)
    modifies st`knownSatisfaction, st`events
    ensures st.knownSatisfaction == old(st.knownSatisfaction) + Elems(newKnown)
    ensures Elems(newKnown) !! old(st.knownSatisfaction) && Symmetric(st.knownSatisfaction)
    ensures Justified(st.edges, newKnown)
    ensures verdict.Contradiction? ==>
      (verdict.p, verdict.q) in couples && (verdict.p, verdict.q) !in st.knownSatisfaction &&
      Unjoinable(st.edges, st.Snapshot(), verdict.p, verdict.q) &&
      st.events == old(st.events) + [ImpossibleToJoin(verdict.p, verdict.q)]
    ensures verdict.Contradiction? ==>
      0 <= first < |couples| && couples[first] == (verdict.p, verdict.q) &&
      forall k :: 0 <= k < first ==> Open(st.edges, st.Snapshot(), st.knownSatisfaction, couples[k])
    ensures !verdict.Contradiction? ==>
      st.events == old(st.events) &&
      Examined(st.edges, st.Snapshot(), old(st.knownSatisfaction), st.knownSatisfaction, couples, |couples|, Unique(verdict), first)
  {
    ghost var g := st.Snapshot();
    ghost var known0 := st.knownSatisfaction;
    newKnown := [];
    var unique: Option<seq<Point>> := None;
    first := 0;
    for i := 0 to |couples|
      invariant st.Snapshot() == g
      invariant st.knownSatisfaction == known0 + Elems(newKnown)
      invariant Elems(newKnown) !! known0 && Symmetric(st.knownSatisfaction)
      invariant Justified(st.edges, newKnown)
      invariant st.events == old(st.events)
      invariant Examined(st.edges, g, known0, st.knownSatisfaction, couples, i, unique, first)
    {
      var contradiction;
      contradiction, newKnown, unique, first := Consider(st, g, known0, couples, i, newKnown, unique, first);
      if contradiction {
        assert couples[i] in couples;
        return Contradiction(couples[i].0, couples[i].1), newKnown, i;
      }
    }
    match unique
    case Some(path) => verdict := Deduction(path);
    case None => verdict := Undecided;
  }

  /**
   * One turn of the loop over the couples, on couples[i]: skip it if known,
   * record it as known if it has a good path, and otherwise weigh its
   * possible paths. A contradiction is notified and changes nothing else.
   */
  method Consider(st: State, ghost g: Graph, ghost known0: set<Edge>, couples: seq<Edge>, i: int,
                  newKnown: seq<Edge>, unique: Option<seq<Point>>, ghost first: int)
    returns (contradiction: bool, newKnown2: seq<Edge>, unique2: Option<seq<Point>>, ghost first2: int)
    requires 0 <= i < |couples| && st.Snapshot() == g
    requires st.knownSatisfaction == known0 + Elems(newKnown)
    requires Elems(newKnown) !! known0 && Symmetric(st.knownSatisfaction)
    requires Justified(st.edges, newKnown)
    requires Examined(st.edges, g, known0, st.knownSatisfaction, couples, i, unique, first)
    modifies st`knownSatisfaction, st`events
    ensures st.Snapshot() == g
    ensures st.knownSatisfaction == known0 + Elems(newKnown2)
    ensures Elems(newKnown2) !! known0 && Symmetric(st.knownSatisfaction)
    ensures Justified(st.edges, newKnown2)
    ensures contradiction ==>
      couples[i] !in st.knownSatisfaction && Unjoinable(st.edges, g, couples[i].0, couples[i].1) &&
      st.events == old(st.events) + [ImpossibleToJoin(couples[i].0, couples[i].1)]
    ensures contradiction ==> newKnown2 == newKnown
    ensures !contradiction ==> st.events == old(st.events)
    ensures !contradiction ==> Examined(st.edges, g, known0, st.knownSatisfaction, couples, i + 1, unique2, first2)
  {
    var (p, q) := couples[i];
    assert couples[i] == (p, q);
    newKnown2, unique2, first2 := newKnown, unique, first;
    if (p, q) in st.knownSatisfaction {
      ExaminedStep(st.edges, g, known0, st.knownSatisfaction, couples, i, unique, first, unique, first);
      return false, newKnown2, unique2, first2;
    }
    if ExistsGoodPath(st.edges, p, q) {
      KnowStep(st.edges, g, known0, st.knownSatisfaction, newKnown, couples, i, unique, first, p, q);
      st.knownSatisfaction := st.knownSatisfaction + {(p, q), (q, p)};
      newKnown2 := newKnown + [(p, q), (q, p)];
      return false, newKnown2, unique2, first2;
    }
    contradiction, unique2, first2 := WeighPair(st, g, i, p, q, unique, first);
    if contradiction {
      st.Notify(ImpossibleToJoin(p, q));
    } else {
      ExaminedStep(st.edges, g, known0, st.knownSatisfaction, couples, i, unique, first, unique2, first2);
    }
  }

  /**
   * The pair (p, q) is unknown and has no good path: count its possible
   * paths up to 2. None is a contradiction; one gives the
   * deduction unless an earlier pair already did; two or more leave it open.
   */
  method WeighPair(st: State, ghost g: Graph, ghost n: int,
                   p: Point, q: Point, unique: Option<seq<Point>>, ghost first: int)
    returns (contradiction: bool, unique2: Option<seq<Point>>, ghost first2: int)
    requires st.Snapshot() == g && !ExistsGoodPath(st.edges, p, q)
    ensures contradiction ==> Unjoinable(st.edges, g, p, q)
    ensures !contradiction ==> AllPaths(g, p, q) != []
    ensures !contradiction && unique2.None? ==> unique.None? && |AllPaths(g, p, q)| >= 2
    ensures !contradiction && unique2.Some? ==>
      (unique2 == unique && first2 == first) ||
      (unique.None? && first2 == n && AllPaths(g, p, q) == [unique2.value])
  {
    var validPaths := FindPaths(st, p, q, AtMost(2));
    CapTwo(AllPaths(g, p, q));
    if |validPaths| == 0 {
      NoWayToJoin(st.edges, g, p, q);
      return true, unique, first;
    }
    contradiction := false;
    if unique.None? && |validPaths| == 1 {
      Singleton(validPaths);
      unique2, first2 := Some(validPaths[0]), n;
    } else {
      unique2, first2 := unique, first;
    }
  }

  /**
   * No path of existing edges joins p to q within the dilation bound, and
   * no path that may still be added does either.
   */
  ghost predicate Unjoinable(edges: set<Edge>, g: Graph, p: Point, q: Point)
  {
    (forall w :: !GoodPath(edges, p, q, w)) && (forall r :: !Candidate(g, p, q, r))
  }

  lemma NoWayToJoin(edges: set<Edge>, g: Graph, p: Point, q: Point)
    requires !ExistsGoodPath(edges, p, q) && AllPaths(g, p, q) == []
    ensures Unjoinable(edges, g, p, q)
  {
    ExistsGoodPathCorrect(edges, p, q);
    NothingListed(g, p, q);
  }

  lemma JustifiedAppend(edges: set<Edge>, newKnown: seq<Edge>, p: Point, q: Point)
    requires Justified(edges, newKnown) && ExistsGoodPath(edges, p, q)
    ensures Justified(edges, newKnown + [(p, q), (q, p)])
  {
    BothJoined(edges, p, q);
    forall e | e in newKnown + [(p, q), (q, p)] ensures Joined(edges, e) {
      if e != (p, q) && e != (q, p) {
        assert e in newKnown;
      }
    }
  }

  /** A good path from p to q joins the pair in both orientations. */
  lemma BothJoined(edges: set<Edge>, p: Point, q: Point)
    requires ExistsGoodPath(edges, p, q)
    ensures Joined(edges, (p, q)) && Joined(edges, (q, p))
  {
    ExistsGoodPathCorrect(edges, p, q);
    var w :| GoodPath(edges, p, q, w);
    assert GoodPath(edges, (p, q).0, (p, q).1, w);
    assert GoodPath(edges, (q, p).1, (q, p).0, w);
  }

  /** The couple at index i has a good path: recording it as known keeps every fact the loop carries. */
  lemma KnowStep(edges: set<Edge>, g: Graph, known0: set<Edge>, known: set<Edge>, newKnown: seq<Edge>,
                 couples: seq<Edge>, i: int, unique: Option<seq<Point>>, first: int, p: Point, q: Point)
    requires known == known0 + Elems(newKnown) && Elems(newKnown) !! known0 && Symmetric(known)
    requires Justified(edges, newKnown) && Examined(edges, g, known0, known, couples, i, unique, first)
    requires i < |couples| && couples[i] == (p, q) && (p, q) !in known && ExistsGoodPath(edges, p, q)
    ensures known + {(p, q), (q, p)} == known0 + Elems(newKnown + [(p, q), (q, p)])
    ensures Elems(newKnown + [(p, q), (q, p)]) !! known0
    ensures Symmetric(known + {(p, q), (q, p)})
    ensures Justified(edges, newKnown + [(p, q), (q, p)])
    ensures Examined(edges, g, known0, known + {(p, q), (q, p)}, couples, i + 1, unique, first)
  {
    KnowPair(known, known0, newKnown, p, q);
    JustifiedAppend(edges, newKnown, p, q);
    ExaminedGrow(edges, g, known0, known, known + {(p, q), (q, p)}, couples, i, unique, first);
    ExaminedStep(edges, g, known0, known + {(p, q), (q, p)}, couples, i, unique, first, unique, first);
  }

  /** Recording a pair as known, in both orientations. */
  lemma KnowPair(known: set<Edge>, known0: set<Edge>, newKnown: seq<Edge>, p: Point, q: Point)
    requires known == known0 + Elems(newKnown) && Elems(newKnown) !! known0 && Symmetric(known)
    requires (p, q) !in known
    ensures known + {(p, q), (q, p)} == known0 + Elems(newKnown + [(p, q), (q, p)])
    ensures Elems(newKnown + [(p, q), (q, p)]) !! known0
    ensures Symmetric(known + {(p, q), (q, p)})
  {
    assert Elems(newKnown + [(p, q), (q, p)]) == Elems(newKnown) + {(p, q), (q, p)};
  }

  // ---------------------------------------------------------------------------
  // expand

  /** The statement names u and v but not the length to beat, which find_shortcut cannot compare with. */
  predicate LengthMissing(t: ToProve)
  {
    t.u.Some? && t.v.Some? && t.lengthOfPath.None?
  }

  /** The shortcut expand looks for: only when the statement names u, v and the length. */
  function ShortcutQuery(edges: set<Edge>, t: ToProve): Option<seq<Point>>
  {
    if t.u.Some? && t.v.Some? && t.lengthOfPath.Some? then FindShortcut(edges, t.u.value, t.v.value, t.lengthOfPath.value)
    else None
  }

  /** Some pattern of the list can be placed on some recent point. */
  ghost predicate PatternPresent(edges: set<Edge>, patterns: seq<seq<Edge>>, recent: set<Point>)
  {
    exists p :: p in recent && !NoneDetectable(edges, patterns, p)
  }

  /**
   * The first notification of a call of expand, for the edges just after
   * add_path: the shortcut when there is one, else a copy of a forbidden
   * pattern on a recent point when there is one, else a new branch with the
   * counter raised by one.
   */
  ghost predicate Opens(edges: set<Edge>, t: ToProve, patterns: seq<seq<Edge>>, recent: set<Point>, counter: nat, e: Event)
  {
    var s := ShortcutQuery(edges, t);
    if s.Some? then e == ShortcutFound(s.value)
    else if PatternPresent(edges, patterns, recent) then
      e.PatternFound? && exists p, j :: p in recent && 0 <= j < |patterns| && Occurrence(edges, patterns[j], p, e.pattern)
    else e == Branch(counter + 1)
  }

  /** The notifications expand itself sends. */
  predicate SearchEvent(e: Event)
  {
    e.ShortcutFound? || e.PatternFound? || e.Branch? || e.ImpossibleToJoin? || e.UniquePath?
  }

  /** The log only grew, by notifications of the search. */
  ghost predicate Appended(before: seq<Event>, after: seq<Event>)
  {
    before <= after && forall k :: |before| <= k < |after| ==> SearchEvent(after[k])
  }

  lemma AppendedTransitive(a: seq<Event>, b: seq<Event>, c: seq<Event>)
    requires Appended(a, b) && Appended(b, c)
    ensures Appended(a, c)
  {
    forall k | |a| <= k < |c| ensures SearchEvent(c[k]) {
      if k < |b| {
        assert c[k] == b[k];
      }
    }
  }

  /**
   * expand(gamma): add gamma, examine the new state, and undo the addition
   * when the examination completes. With no fuel left nothing happens.
   */
  method Expand(st: State, gamma: seq<Point>, fuel: nat) returns (outcome: Outcome)
    requires st.Valid()
    modifies st`edges, st`forbidden, st`deg, st`points, st`knownSatisfaction, st`progressCounter, st`events
    decreases fuel, 5
    ensures st.Valid() && old(st.deg).Keys <= st.deg.Keys
    ensures Appended(old(st.events), st.events) && old(st.progressCounter) <= st.progressCounter
    ensures fuel == 0 ==> outcome == OutOfFuel && st.Snapshot() == old(st.Snapshot()) && st.events == old(st.events)
    ensures outcome == NoLengthGiven <==> fuel > 0 && LengthMissing(st.toProve)
    ensures fuel > 0 && !LengthMissing(st.toProve) ==>
      |st.events| > |old(st.events)| &&
      Opens(AddPathSpec(old(st.Snapshot()), gamma).0.edges, st.toProve, st.patterns,
            EdgeEnds(AddPathSpec(old(st.Snapshot()), gamma).1.addedEdges), old(st.progressCounter), st.events[|old(st.events)|])
    ensures outcome == Completed ==>
      Agree(st.Snapshot(), old(st.Snapshot())) && st.knownSatisfaction == old(st.knownSatisfaction)
  {
    if fuel == 0 {
      return OutOfFuel;
    }
    ghost var g0 := st.Snapshot();
    var undo := st.AddPath(gamma);
    AddPathPrefixEffect(g0, gamma, PairCount(gamma));
    AddPathClosed(g0, gamma, PairCount(gamma));
    var recent := RecentPoints(undo.addedEdges);
    var newKnown;
    outcome, newKnown := Examine(st, recent, fuel);
    if outcome != Completed {
      return;
    }
    Restore(st, undo, newKnown, g0, gamma, old(st.knownSatisfaction));
  }

  /**
   * The end of a completed expand: remove_path undoes what add_path did, and
   * the pairs recorded as known in this branch are forgotten.
   */
  method Restore(st: State, undo: Undo, newKnown: seq<Edge>, ghost g0: Graph, ghost gamma: seq<Point>, ghost known0: set<Edge>)
    requires Symmetric(g0.edges) && Symmetric(g0.forbidden) && Closed(g0)
    requires undo == AddPathSpec(g0, gamma).1 && Agree(st.Snapshot(), AddPathSpec(g0, gamma).0)
    requires forall i :: 0 <= i < |undo.addedEdges| ==> undo.addedEdges[i].0 in st.deg && undo.addedEdges[i].1 in st.deg
    requires st.knownSatisfaction == known0 + Elems(newKnown) && Elems(newKnown) !! known0
    modifies st`edges, st`forbidden, st`deg, st`points, st`knownSatisfaction
    ensures Agree(st.Snapshot(), g0) && Closed(st.Snapshot()) && st.knownSatisfaction == known0
    ensures st.deg.Keys == old(st.deg).Keys
  {
    UndoRestores(g0, gamma, st.Snapshot());
    RemoveKeepsKeys(st.Snapshot(), undo.addedEdges, |undo.addedEdges|);
    st.RemovePath(undo);
    st.knownSatisfaction := st.knownSatisfaction - Elems(newKnown);
    AgreeClosed(st.Snapshot(), g0);
  }

  /**
   * The body of expand between add_path and remove_path: the shortcut test,
   * the pattern test, and otherwise a new branch whose couples are examined.
   * A contradiction ends the branch; a deduction expands the unique path;
   * otherwise the search branches.
   */
  method Examine(st: State, recent: set<Point>, fuel: nat) returns (outcome: Outcome, newKnown: seq<Edge>)
    requires fuel > 0 && st.Valid()
    modifies st`edges, st`forbidden, st`deg, st`points, st`knownSatisfaction, st`progressCounter, st`events
    decreases fuel, 4
    ensures st.Valid() && old(st.deg).Keys <= st.deg.Keys
    ensures Appended(old(st.events), st.events) && old(st.progressCounter) <= st.progressCounter
    ensures outcome == NoLengthGiven <==> LengthMissing(st.toProve)
    ensures LengthMissing(st.toProve) ==> st.events == old(st.events)
    ensures !LengthMissing(st.toProve) ==>
      |st.events| > |old(st.events)| &&
      Opens(old(st.edges), st.toProve, st.patterns, recent, old(st.progressCounter), st.events[|old(st.events)|])
    ensures (!LengthMissing(st.toProve) &&
      (ShortcutQuery(old(st.edges), st.toProve).Some? || PatternPresent(old(st.edges), st.patterns, recent))) ==>
      outcome == Completed && |st.events| == |old(st.events)| + 1 &&
      st.Snapshot() == old(st.Snapshot()) && st.knownSatisfaction == old(st.knownSatisfaction)
    ensures outcome == Completed ==>
      Agree(st.Snapshot(), old(st.Snapshot())) &&
      st.knownSatisfaction == old(st.knownSatisfaction) + Elems(newKnown) && Elems(newKnown) !! old(st.knownSatisfaction)
  {
    newKnown := [];
    var t := st.toProve;
    var shortcut: Option<seq<Point>> := None;
    if t.u.Some? && t.v.Some? {
      if t.lengthOfPath.None? {
        return NoLengthGiven, [];
      }
      shortcut := FindShortcut(st.edges, t.u.value, t.v.value, t.lengthOfPath.value);
    }
    if shortcut.Some? {
      st.Notify(ShortcutFound(shortcut.value));
      return Completed, [];
    }
    var pattern := PatternCreatedByRecentAdd(st, recent);
    if pattern.Some? {
      st.Notify(PatternFound(pattern.value));
      return Completed, [];
    }
    outcome, newKnown := Investigate(st, recent, fuel);
  }

  /**
   * A new branch: raise the counter and notify it, list and examine the
   * couples, then stop on a contradiction, expand a deduced path, or branch.
   */
  method Investigate(st: State, recent: set<Point>, fuel: nat) returns (outcome: Outcome, newKnown: seq<Edge>)
    requires fuel > 0 && st.Valid() && !LengthMissing(st.toProve)
    modifies st`edges, st`forbidden, st`deg, st`points, st`knownSatisfaction, st`progressCounter, st`events
    decreases fuel, 3
    ensures st.Valid() && old(st.deg).Keys <= st.deg.Keys
    ensures Appended(old(st.events), st.events) && old(st.progressCounter) < st.progressCounter
    ensures |st.events| > |old(st.events)| && st.events[|old(st.events)|] == Branch(old(st.progressCounter) + 1)
    ensures outcome != NoLengthGiven
    ensures outcome == Completed ==>
      Agree(st.Snapshot(), old(st.Snapshot())) &&
      st.knownSatisfaction == old(st.knownSatisfaction) + Elems(newKnown) && Elems(newKnown) !! old(st.knownSatisfaction)
  {
    st.progressCounter := st.progressCounter + 1;
    st.Notify(Branch(st.progressCounter));
    ghost var events1 := st.events;
    var verdict;
    ghost var couples, first;
    verdict, newKnown, couples, first := Judge(st, recent);
    ghost var events2 := st.events;
    outcome := Follow(st, verdict, fuel);
    AppendedTransitive(events1, events2, st.events);
    AppendedTransitive(old(st.events), events1, st.events);
  }

  /**
   * What the branch does with the verdict: a contradiction ends it, a
   * deduction is notified and its unique path expanded, and otherwise the
   * search branches.
   */
  method Follow(st: State, verdict: Verdict, fuel: nat) returns (outcome: Outcome)
    requires fuel > 0 && st.Valid() && !LengthMissing(st.toProve)
    modifies st`edges, st`forbidden, st`deg, st`points, st`knownSatisfaction, st`progressCounter, st`events
    decreases fuel, 2
    ensures st.Valid() && old(st.deg).Keys <= st.deg.Keys
    ensures Appended(old(st.events), st.events) && old(st.progressCounter) <= st.progressCounter
    ensures outcome != NoLengthGiven
    ensures verdict.Contradiction? ==>
      outcome == Completed && st.Snapshot() == old(st.Snapshot()) && st.events == old(st.events)
    ensures verdict.Deduction? ==>
      |st.events| > |old(st.events)| && st.events[|old(st.events)|] == UniquePath(verdict.path)
    ensures outcome == Completed ==>
      Agree(st.Snapshot(), old(st.Snapshot())) && st.knownSatisfaction == old(st.knownSatisfaction)
  {
    match verdict
    case Contradiction(p, q) =>
      outcome := Completed;
    case Deduction(path) =>
      st.Notify(UniquePath(path));
      ghost var events1 := st.events;
      outcome := Expand(st, path, fuel - 1);
      AppendedTransitive(old(st.events), events1, st.events);
    case Undecided =>
      outcome := BranchOver(st, fuel);
  }

  /**
   * The couples near the recently added points, classified. The list of
   * couples and the index of the pair the verdict comes from are returned
   * as ghosts, so that what the classification proves about them carries
   * over to the branch.
   */
  method Judge(st: State, recent: set<Point>)
    returns (verdict: Verdict, newKnown: seq<Edge>, ghost couples: seq<Edge>, ghost first: int)
    requires Symmetric(st.knownSatisfaction)
    modifies st`knownSatisfaction, st`events
    ensures forall e :: e in couples ==> Considered(st.points, recent, e.0, e.1)
    ensures forall p, q :: Considered(st.points, recent, p, q) ==> Covered(couples, p, q)
    ensures st.knownSatisfaction == old(st.knownSatisfaction) + Elems(newKnown)
    ensures Elems(newKnown) !! old(st.knownSatisfaction) && Symmetric(st.knownSatisfaction)
    ensures Justified(st.edges, newKnown)
    ensures verdict.Contradiction? ==>
      Considered(st.points, recent, verdict.p, verdict.q) &&
      (verdict.p, verdict.q) !in st.knownSatisfaction &&
      Unjoinable(st.edges, st.Snapshot(), verdict.p, verdict.q) &&
      st.events == old(st.events) + [ImpossibleToJoin(verdict.p, verdict.q)]
    ensures verdict.Contradiction? ==>
      0 <= first < |couples| && couples[first] == (verdict.p, verdict.q) &&
      forall k :: 0 <= k < first ==> Open(st.edges, st.Snapshot(), st.knownSatisfaction, couples[k])
    ensures verdict.Deduction? ==>
      exists e: Edge :: Considered(st.points, recent, e.0, e.1) && e !in old(st.knownSatisfaction) &&
        Forced(st.edges, st.Snapshot(), e, verdict.path)
    ensures !verdict.Contradiction? ==>
      st.events == old(st.events) &&
      Examined(st.edges, st.Snapshot(), old(st.knownSatisfaction), st.knownSatisfaction, couples, |couples|, Unique(verdict), first)
  {
    var listed := ListOfCouples(st.points, recent);
    couples := listed;
    verdict, newKnown, first := Classify(st, listed);
    if verdict.Deduction? {
      assert couples[first] in couples;
    }
  }

  /** The first pair of the list not known to be joined is at index i. */
  ghost predicate FirstOpenAt(es: seq<Edge>, known: set<Edge>, i: int)
  {
    0 <= i < |es| && es[i] !in known && forall k :: 0 <= k < i ==> es[k] in known
  }

  /**
   * The branching: the first pair of the list not known to be joined is
   * explored along each of its five short paths; when every pair is known
   * the list was too short.
   */
  method BranchOver(st: State, fuel: nat) returns (outcome: Outcome)
    requires fuel > 0 && st.Valid()
    modifies st`edges, st`forbidden, st`deg, st`points, st`knownSatisfaction, st`progressCounter, st`events
    decreases fuel, 1
    ensures st.Valid() && old(st.deg).Keys <= st.deg.Keys
    ensures Appended(old(st.events), st.events) && old(st.progressCounter) <= st.progressCounter
    ensures !LengthMissing(st.toProve) ==> outcome != NoLengthGiven
    ensures outcome == Completed ==>
      Agree(st.Snapshot(), old(st.Snapshot())) && st.knownSatisfaction == old(st.knownSatisfaction)
    ensures (forall k :: 0 <= k < |st.edgesToConsider| ==> st.edgesToConsider[k] in old(st.knownSatisfaction)) ==>
      outcome == ListTooShort && st.Snapshot() == old(st.Snapshot()) && st.events == old(st.events)
    ensures forall i :: (FirstOpenAt(st.edgesToConsider, old(st.knownSatisfaction), i) &&
      Vec(st.edgesToConsider[i].0, st.edgesToConsider[i].1) !in RIGHT_UP_LEFT_DOWN) ==>
      outcome == NotUnitVector && st.Snapshot() == old(st.Snapshot()) && st.events == old(st.events)
  {
    var i := 0;
    while i < |st.edgesToConsider|
      invariant 0 <= i <= |st.edgesToConsider|
      invariant forall k :: 0 <= k < i ==> st.edgesToConsider[k] in st.knownSatisfaction
    {
      var (p, q) := st.edgesToConsider[i];
      if (p, q) !in st.knownSatisfaction {
        var paths := TheFiveShortPaths(p, q);
        if paths.None? {
          return NotUnitVector;
        }
        outcome := TryPaths(st, paths.value, fuel);
        return;
      }
      i := i + 1;
    }
    return ListTooShort;
  }

  /** The loop over the five short paths: each one that can be added is expanded. */
  method TryPaths(st: State, paths: seq<seq<Point>>, fuel: nat) returns (outcome: Outcome)
    requires fuel > 0 && st.Valid()
    modifies st`edges, st`forbidden, st`deg, st`points, st`knownSatisfaction, st`progressCounter, st`events
    decreases fuel, 0
    ensures st.Valid() && old(st.deg).Keys <= st.deg.Keys
    ensures Appended(old(st.events), st.events) && old(st.progressCounter) <= st.progressCounter
    ensures !LengthMissing(st.toProve) ==> outcome != NoLengthGiven
    ensures outcome == Completed ==>
      Agree(st.Snapshot(), old(st.Snapshot())) && st.knownSatisfaction == old(st.knownSatisfaction)
  {
    ghost var g0 := st.Snapshot();
    for j := 0 to |paths|
      invariant st.Valid() && old(st.deg).Keys <= st.deg.Keys
      invariant Appended(old(st.events), st.events) && old(st.progressCounter) <= st.progressCounter
      invariant Agree(st.Snapshot(), g0) && st.knownSatisfaction == old(st.knownSatisfaction)
    {
      var ok := st.CanAddPath(paths[j]);
      if ok {
        ghost var events0 := st.events;
        outcome := Expand(st, paths[j], fuel - 1);
        AppendedTransitive(old(st.events), events0, st.events);
        if outcome != Completed {
          return;
        }
      }
    }
    return Completed;
  }

  // ---------------------------------------------------------------------------
  // prove

  /** The consecutive pairs of a path, as path_to_list_of_edges lists them. */
  function PathEdges(path: seq<Point>): seq<Edge>
  {
    seq(PairCount(path), i requires 0 <= i < PairCount(path) => (path[i], path[i + 1]))
  }

  /** The base patterns: the pair list of each known lemma's configuration, in order. */
  function LemmaPatterns(lemmas: seq<ToProve>): seq<seq<Edge>>
  {
    if |lemmas| == 0 then [] else LemmaPatterns(lemmas[..|lemmas| - 1]) + [PathEdges(lemmas[|lemmas| - 1].pathOfConfig)]
  }

  /** The list of base patterns prove passes to initialize_patterns. */
  method BasePatterns(lemmas: seq<ToProve>) returns (initial: seq<seq<Edge>>)
    ensures initial == LemmaPatterns(lemmas)
  {
    initial := [];
    for i := 0 to |lemmas|
      invariant initial == LemmaPatterns(lemmas[..i])
    {
      var es := PathToListOfEdges(lemmas[i].pathOfConfig);
      assert es == PathEdges(lemmas[i].pathOfConfig);
      assert lemmas[..i + 1][..i] == lemmas[..i];
      initial := initial + [es];
    }
    assert lemmas[..|lemmas|] == lemmas;
  }

  /**
   * prove: a fresh empty state, the patterns of the known lemmas under the
   * eight symmetries, the start notification, the expansion of the
   * configuration path, and on completion the end and finished notifications.
   * A completed run has undone everything it added.
   */
  method Prove(t: ToProve, fuel: nat) returns (st: State, outcome: Outcome)
    ensures st.toProve == t && st.edgesToConsider == t.edgesToConsider && st.Valid()
    ensures st.patterns == Images(LemmaPatterns(t.knownLemmas))
    ensures |st.events| >= 1 && st.events[0] == Start(t.name)
    ensures outcome == NoLengthGiven <==> fuel > 0 && LengthMissing(t)
    ensures fuel > 0 && !LengthMissing(t) ==>
      |st.events| >= 2 &&
      Opens(AddPathSpec(EMPTY, t.pathOfConfig).0.edges, t, st.patterns,
            EdgeEnds(AddPathSpec(EMPTY, t.pathOfConfig).1.addedEdges), 0, st.events[1])
    ensures outcome == Completed ==>
      |st.events| >= 3 && st.events[|st.events| - 2..] == [End(t.name), Finished] &&
      Agree(st.Snapshot(), EMPTY) && st.knownSatisfaction == {}
    ensures outcome != Completed ==> forall k :: 1 <= k < |st.events| ==> SearchEvent(st.events[k])
  {
    var initial := BasePatterns(t.knownLemmas);
    st := new State(t);
    InitializePatterns(st, initial);
    st.Notify(Start(t.name));
    outcome := Expand(st, t.pathOfConfig, fuel);
    if outcome == Completed {
      st.Notify(End(t.name));
      st.Notify(Finished);
    }
  }
}

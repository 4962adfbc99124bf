/**
 * Lattice points, vectors, the distances used for pruning, the eight king
 * moves with their exact norms, and the small list helpers of the search.
 */
module Geometry {
  import opened ExactNumber
  import opened Wrappers

  /** A lattice point, also used for a lattice vector. */
  datatype Point = Point(x: int, y: int)

  /** An oriented pair of points; the graph stores both orientations. */
  type Edge = (Point, Point)

  const ORIGIN: Point := Point(0, 0)

  function Translate(p: Point, v: Point): Point { Point(p.x + v.x, p.y + v.y) }

  /** The vector from p to q. */
  function Vec(p: Point, q: Point): Point { Point(q.x - p.x, q.y - p.y) }

  function DistSquared(p: Point, q: Point): int
  {
    (p.x - q.x) * (p.x - q.x) + (p.y - q.y) * (p.y - q.y)
  }

  function Min(m: int, n: int): int { if m <= n then m else n }

  function Max(m: int, n: int): int { if m <= n then n else m }

  function Manhattan(p: Point, q: Point): nat
  {
    var v := Vec(p, q);
    Abs(v.x) + Abs(v.y)
  }

  /** The number of king moves from p to q, priced exactly: (M - m) + m sqrt2. */
  function ManhattanWithDiagonals(p: Point, q: Point): Num
  {
    var v := Vec(p, q);
    var m := Min(Abs(v.x), Abs(v.y));
    var big := Max(Abs(v.x), Abs(v.y));
    Num(big - m, m)
  }

  function Reverse(e: Edge): Edge { (e.1, e.0) }

  // ---------------------------------------------------------------------------
  // King moves

  /** q is one king move away from p. */
  predicate IsStep(p: Point, q: Point)
  {
    p != q && Abs(q.x - p.x) <= 1 && Abs(q.y - p.y) <= 1
  }

  predicate IsDiagonal(v: Point) { v.x != 0 && v.y != 0 }

  /** The exact length of one king move: sqrt2 for a diagonal, 1 otherwise. */
  function StepNorm(p: Point, q: Point): Num
  {
    if IsDiagonal(Vec(p, q)) then Num(0, 1) else Num(1, 0)
  }

  /** The eight directions with their norms, in the order the nested loops produce them. */
  const DIRECTIONS: seq<(Point, Num)> := [
    (Point(-1, -1), Num(0, 1)), (Point(-1, 0), Num(1, 0)), (Point(-1, 1), Num(0, 1)),
    (Point(0, -1), Num(1, 0)),                             (Point(0, 1), Num(1, 0)),
    (Point(1, -1), Num(0, 1)),  (Point(1, 0), Num(1, 0)),  (Point(1, 1), Num(0, 1))
  ]

  /** Position in DIRECTIONS of the offset (i, j), for i, j in {-1, 0, 1}. */
  function Slot(i: int, j: int): int
  {
    var k := 3 * (i + 1) + (j + 1);
    if k <= 4 then k else k - 1
  }

  /** The nested loops over {-1, 0, 1}^2 that build the direction table. */
  method BuildDirections() returns (directions: seq<(Point, Num)>)
    ensures directions == DIRECTIONS
  {
    directions := [];
    var i := -1;
    while i <= 1
      invariant -1 <= i <= 2
      invariant directions == DIRECTIONS[..Slot(i, -1)]
    {
      var j := -1;
      while j <= 1
        invariant -1 <= j <= 2
        invariant directions == DIRECTIONS[..Slot(i, j)]
      {
        if (i, j) != (0, 0) {
          var norm := if i != 0 && j != 0 then Num(0, 1) else Num(1, 0);
          directions := directions + [(Point(i, j), norm)];
        }
        j := j + 1;
      }
      i := i + 1;
    }
  }

  /** The table holds exactly the eight nonzero offsets of {-1, 0, 1}^2, each once, with its norm. */
  lemma DirectionsAreKingMoves()
    ensures |DIRECTIONS| == 8
    ensures forall k :: 0 <= k < 8 ==>
      var (d, norm) := DIRECTIONS[k];
      d != ORIGIN && Abs(d.x) <= 1 && Abs(d.y) <= 1 &&
      norm == (if IsDiagonal(d) then Num(0, 1) else Num(1, 0))
    ensures forall k, l :: 0 <= k < l < 8 ==> DIRECTIONS[k].0 != DIRECTIONS[l].0
    ensures forall i, j :: -1 <= i <= 1 && -1 <= j <= 1 && (i, j) != (0, 0) ==>
      DIRECTIONS[Slot(i, j)].0 == Point(i, j)
  {
  }

  /** Moving by a table direction is a king move priced by its norm. */
  lemma DirectionStep(u: Point, k: int)
    requires 0 <= k < 8
    ensures IsStep(u, Translate(u, DIRECTIONS[k].0))
    ensures StepNorm(u, Translate(u, DIRECTIONS[k].0)) == DIRECTIONS[k].1
  {
  }

  /** Every table norm is 1 or sqrt2: two nonnegative parts summing to 1. */
  lemma DirectionNorm(k: int)
    requires 0 <= k < 8
    ensures DIRECTIONS[k].1 == Num(1, 0) || DIRECTIONS[k].1 == Num(0, 1)
  {
  }

  /** Walk lengths have nonnegative parts. */
  lemma {:induction false} WalkLengthNonneg(w: seq<Point>)
    ensures Nonneg(WalkLength(w))
    decreases |w|
  {
    if |w| > 1 {
      WalkLengthNonneg(w[1..]);
    }
  }

  /** Every king move from u is the move by some table direction. */
  lemma StepIsDirection(u: Point, v: Point) returns (k: int)
    requires IsStep(u, v)
    ensures 0 <= k < 8 && Translate(u, DIRECTIONS[k].0) == v
  {
    var d := Vec(u, v);
    k := Slot(d.x, d.y);
  }

  // ---------------------------------------------------------------------------
  // Walks and the admissible lower bound

  /** A nonempty sequence of points, each a king move from the previous one. */
  predicate IsWalk(w: seq<Point>)
  {
    |w| >= 1 && forall i :: 0 <= i < |w| - 1 ==> StepAt(w, i)
  }

  /** The i-th move of w is a king move. */
  predicate StepAt(w: seq<Point>, i: int)
    requires 0 <= i < |w| - 1
  {
    IsStep(w[i], w[i + 1])
  }

  /** The exact Euclidean length of a walk of king moves. */
  function WalkLength(w: seq<Point>): Num
    decreases |w|
  {
    if |w| <= 1 then ZERO else Add(StepNorm(w[0], w[1]), WalkLength(w[1..]))
  }

  /** Appending a king move adds its norm to the length of a walk. */
  lemma {:induction false} WalkLengthSnoc(path: seq<Point>, v: Point)
    requires |path| >= 1
    ensures WalkLength(path + [v]) == Add(WalkLength(path), StepNorm(path[|path| - 1], v))
    decreases |path|
  {
    if |path| == 1 {
      SnocBase(path[0], v);
      assert path == [path[0]];
    } else {
      var t := path[1..];
      assert t[|t| - 1] == path[|path| - 1];
      WalkLengthSnoc(t, v);
      SnocStep(path, v);
    }
  }

  lemma SnocBase(a: Point, v: Point)
    ensures WalkLength([a] + [v]) == Add(WalkLength([a]), StepNorm(a, v))
  {
    assert [a] + [v] == [a, v];
    assert [a, v][1..] == [v];
  }

  lemma SnocStep(path: seq<Point>, v: Point)
    requires |path| >= 2
    ensures WalkLength(path + [v]) == Add(StepNorm(path[0], path[1]), WalkLength(path[1..] + [v]))
  {
    assert (path + [v])[1..] == path[1..] + [v];
  }

  /** Facts about the shape of the bound: (M - m, m) with 0 <= m <= M, symmetric, zero only at p = q. */
  lemma ManhattanWithDiagonalsShape(p: Point, q: Point)
    ensures var r := ManhattanWithDiagonals(p, q);
      r.a >= 0 && r.b >= 0 && r.b == Min(Abs(q.x - p.x), Abs(q.y - p.y)) &&
      r.a + r.b == Max(Abs(q.x - p.x), Abs(q.y - p.y))
    ensures ManhattanWithDiagonals(p, q) == ManhattanWithDiagonals(q, p)
    ensures ManhattanWithDiagonals(p, q) == ZERO <==> p == q
  {
  }

  /** One king move changes the bound by at most the move's own norm. */
  lemma ManhattanWithDiagonalsStep(u: Point, v: Point, q: Point)
    requires IsStep(u, v)
    ensures LessEq(ManhattanWithDiagonals(u, q), Add(StepNorm(u, v), ManhattanWithDiagonals(v, q)))
  {
    var w, w2 := Vec(u, q), Vec(v, q);
    BoundStep(Abs(w.x), Abs(w.y), Abs(w2.x), Abs(w2.y), IsDiagonal(Vec(u, v)));
  }

  /** The arithmetic core of ManhattanWithDiagonalsStep, on absolute coordinates. */
  lemma BoundStep(x: nat, y: nat, x2: nat, y2: nat, diagonal: bool)
    requires Abs(x - x2) <= 1 && Abs(y - y2) <= 1
    requires !diagonal ==> Abs(x - x2) + Abs(y - y2) <= 1
    ensures var big, m := Max(x, y), Min(x, y);
      var big2, m2 := Max(x2, y2), Min(x2, y2);
      LessEq(Num(big - m, m), Add(if diagonal then Num(0, 1) else Num(1, 0), Num(big2 - m2, m2)))
  {
  }

  /**
   * Admissibility of the pruning bound: every direction move costs at least
   * the decrease of the bound it achieves.
   */
  lemma Admissible(u: Point, q: Point, k: int)
    requires 0 <= k < 8
    ensures LessEq(ManhattanWithDiagonals(u, q),
                   Add(DIRECTIONS[k].1, ManhattanWithDiagonals(Translate(u, DIRECTIONS[k].0), q)))
  {
    DirectionStep(u, k);
    ManhattanWithDiagonalsStep(u, Translate(u, DIRECTIONS[k].0), q);
  }

  /** The bound never exceeds the length of a walk between the two points. */
  lemma {:induction false} WalkLengthAtLeastBound(w: seq<Point>)
    requires IsWalk(w)
    ensures LessEq(ManhattanWithDiagonals(w[0], w[|w| - 1]), WalkLength(w))
    decreases |w|
  {
    if |w| == 1 {
      ManhattanWithDiagonalsShape(w[0], w[0]);
    } else {
      var rest := w[1..];
      assert IsWalk(rest) by {
        forall i | 0 <= i < |rest| - 1 ensures StepAt(rest, i) {
          assert StepAt(w, i + 1);
        }
      }
      WalkLengthAtLeastBound(rest);
      var q := w[|w| - 1];
      assert rest[|rest| - 1] == q;
      var n := StepNorm(w[0], w[1]);
      assert StepAt(w, 0);
      ManhattanWithDiagonalsStep(w[0], w[1], q);
      assert LessEq(Add(n, ManhattanWithDiagonals(w[1], q)), Add(n, WalkLength(rest))) by {
        LessAddCompatible(ManhattanWithDiagonals(w[1], q), WalkLength(rest), n);
        assert Add(ManhattanWithDiagonals(w[1], q), n) == Add(n, ManhattanWithDiagonals(w[1], q));
        assert Add(WalkLength(rest), n) == Add(n, WalkLength(rest));
      }
      LessEqTransitive(ManhattanWithDiagonals(w[0], q), Add(n, ManhattanWithDiagonals(w[1], q)), WalkLength(w));
    }
  }

  // ---------------------------------------------------------------------------
  // Loop-and-append helpers

  /** True iff p is within Manhattan distance d of some point of the set. */
  method IsCloseTo(p: Point, points: set<Point>, d: int) returns (close: bool)
    ensures close <==> exists q :: q in points && Manhattan(p, q) <= d
  {
    var rest := points;
    while rest != {}
      invariant rest <= points
      invariant forall q :: q in points - rest ==> Manhattan(p, q) > d
      decreases rest
    {
      var q :| q in rest;
      if Manhattan(p, q) <= d {
        return true;
      }
      rest := rest - {q};
    }
    return false;
  }

  /** The consecutive pairs (path[i], path[i+1]) of a path. */
  method PathToListOfEdges(path: seq<Point>) returns (edges: seq<Edge>)
    ensures |edges| == if |path| == 0 then 0 else |path| - 1
    ensures forall i :: 0 <= i < |edges| ==> edges[i] == (path[i], path[i + 1])
  {
    edges := [];
    var i := 0;
    while i < |path| - 1
      invariant 0 <= i <= if |path| == 0 then 0 else |path| - 1
      invariant |edges| == i
      invariant forall k :: 0 <= k < i ==> edges[k] == (path[k], path[k + 1])
    {
      edges := edges + [(path[i], path[i + 1])];
      i := i + 1;
    }
  }

  const RIGHT_UP_LEFT_DOWN: seq<Point> := [Point(1, 0), Point(0, 1), Point(-1, 0), Point(0, -1)]

  /** The points one king move from both p and q (every king move from p is a table direction). */
  function CommonNeighbours(p: Point, q: Point): set<Point>
  {
    set k | 0 <= k < 8 && IsStep(Translate(p, DIRECTIONS[k].0), q) :: Translate(p, DIRECTIONS[k].0)
  }

  /** The five paths from p to q of length at most 1 + sqrt2, in the order they are listed. */
  function FivePaths(p: Point, q: Point): seq<seq<Point>>
  {
    var v := Vec(p, q);
    [[p, q], [p, Translate(p, RotateLeft(v)), q], [p, Translate(p, RotateRight(v)), q],
     [p, Translate(q, RotateLeft(v)), q], [p, Translate(q, RotateRight(v)), q]]
  }

  /**
   * For p and q one axial step apart: the direct edge first, then the four
   * two-step walks p, r, q.  None when Vec(p, q) is not a unit axial vector
   * (the source's list lookup fails there).
   */
  method TheFiveShortPaths(p: Point, q: Point) returns (paths: Option<seq<seq<Point>>>)
    ensures paths.None? <==> Vec(p, q) !in RIGHT_UP_LEFT_DOWN
    ensures paths.Some? ==> paths.value == FivePaths(p, q)
  {
    var v := Vec(p, q);
    var i := 0;
    while i < 4 && RIGHT_UP_LEFT_DOWN[i] != v
      invariant 0 <= i <= 4
      invariant forall k :: 0 <= k < i ==> RIGHT_UP_LEFT_DOWN[k] != v
    {
      i := i + 1;
    }
    if i == 4 {
      return None;
    }
    var rotatedLeft := RIGHT_UP_LEFT_DOWN[(i + 1) % 4];
    var rotatedRight := RIGHT_UP_LEFT_DOWN[(i + 3) % 4];
    RotationsInTable(i);
    var ls := [[p, q]];
    var ends := [p, q];
    var turns := [rotatedLeft, rotatedRight];
    for a := 0 to 2
      invariant |ls| == 1 + 2 * a
      invariant ls[0] == [p, q]
      invariant forall k :: 1 <= k < |ls| ==> ls[k] == [p, Translate(ends[(k - 1) / 2], turns[(k - 1) % 2]), q]
    {
      for b := 0 to 2
        invariant |ls| == 1 + 2 * a + b
        invariant ls[0] == [p, q]
        invariant forall k :: 1 <= k < |ls| ==> ls[k] == [p, Translate(ends[(k - 1) / 2], turns[(k - 1) % 2]), q]
      {
        ls := ls + [[p, Translate(ends[a], turns[b]), q]];
      }
    }
    return Some(ls);
  }

  /** The unit axial vectors are exactly the entries of the lookup table. */
  lemma UnitAxialInTable(v: Point)
    ensures IsUnitAxial(v) <==> v in RIGHT_UP_LEFT_DOWN
  {
  }

  /**
   * The five paths are the direct edge, of length 1, and the four detours
   * through the distinct common king neighbours of p and q, of length 1 + sqrt2.
   */
  lemma FivePathsAreShortest(p: Point, q: Point)
    requires IsUnitAxial(Vec(p, q))
    ensures var ps := FivePaths(p, q);
      |ps| == 5 && ps[0] == [p, q] &&
      (forall k :: 1 <= k < 5 ==> |ps[k]| == 3 && ps[k][0] == p && ps[k][2] == q) &&
      (forall k, l :: 1 <= k < l < 5 ==> ps[k][1] != ps[l][1]) &&
      (set k | 1 <= k < 5 :: ps[k][1]) == CommonNeighbours(p, q)
    ensures WalkLength(FivePaths(p, q)[0]) == ONE
    ensures forall k :: 1 <= k < 5 ==> WalkLength(FivePaths(p, q)[k]) == DIL
  {
    var v := Vec(p, q);
    var m1, m2, m3, m4 := Translate(p, RotateLeft(v)), Translate(p, RotateRight(v)),
      Translate(q, RotateLeft(v)), Translate(q, RotateRight(v));
    var ls := FivePaths(p, q);
    FivePathsShape(p, q, m1, m2, m3, m4, ls);
    FivePathsCoverNeighbours(p, q, m1, m2, m3, m4, ls);
    DetourLengths(p, q);
    assert ls[1] == [p, m1, q] && ls[2] == [p, m2, q] && ls[3] == [p, m3, q] && ls[4] == [p, m4, q];
    assert IsDetourMid(p, q, m1) && IsDetourMid(p, q, m2) && IsDetourMid(p, q, m3) && IsDetourMid(p, q, m4);
  }

  /** One of the four unit axial vectors, the entries of RIGHT_UP_LEFT_DOWN. */
  predicate IsUnitAxial(v: Point)
  {
    v == Point(1, 0) || v == Point(0, 1) || v == Point(-1, 0) || v == Point(0, -1)
  }

  function RotateLeft(v: Point): Point { Point(-v.y, v.x) }

  function RotateRight(v: Point): Point { Point(v.y, -v.x) }

  /** The index arithmetic on the table is a quarter turn either way. */
  lemma RotationsInTable(i: int)
    requires 0 <= i < 4
    ensures RIGHT_UP_LEFT_DOWN[(i + 1) % 4] == RotateLeft(RIGHT_UP_LEFT_DOWN[i])
    ensures RIGHT_UP_LEFT_DOWN[(i + 3) % 4] == RotateRight(RIGHT_UP_LEFT_DOWN[i])
    ensures IsUnitAxial(RIGHT_UP_LEFT_DOWN[i])
  {
  }

  /** The four two-step paths have distinct midpoints. */
  lemma FivePathsShape(p: Point, q: Point, m1: Point, m2: Point, m3: Point, m4: Point,
                       ls: seq<seq<Point>>)
    requires IsUnitAxial(Vec(p, q))
    requires m1 == Translate(p, RotateLeft(Vec(p, q))) && m2 == Translate(p, RotateRight(Vec(p, q)))
    requires m3 == Translate(q, RotateLeft(Vec(p, q))) && m4 == Translate(q, RotateRight(Vec(p, q)))
    requires ls == [[p, q], [p, m1, q], [p, m2, q], [p, m3, q], [p, m4, q]]
    ensures forall k :: 1 <= k < 5 ==> |ls[k]| == 3 && ls[k][0] == p && ls[k][2] == q
    ensures forall k, l :: 1 <= k < l < 5 ==> ls[k][1] != ls[l][1]
  {
    UnitNeighbours(p, q);
  }

  /** The midpoints of the two-step paths are exactly the common king neighbours of p and q. */
  lemma FivePathsCoverNeighbours(p: Point, q: Point, m1: Point, m2: Point, m3: Point, m4: Point,
                                 ls: seq<seq<Point>>)
    requires IsUnitAxial(Vec(p, q))
    requires m1 == Translate(p, RotateLeft(Vec(p, q))) && m2 == Translate(p, RotateRight(Vec(p, q)))
    requires m3 == Translate(q, RotateLeft(Vec(p, q))) && m4 == Translate(q, RotateRight(Vec(p, q)))
    requires ls == [[p, q], [p, m1, q], [p, m2, q], [p, m3, q], [p, m4, q]]
    ensures (set k | 1 <= k < 5 :: ls[k][1]) == CommonNeighbours(p, q)
  {
    UnitNeighbours(p, q);
    var mids := set k | 1 <= k < 5 :: ls[k][1];
    assert ls[1][1] == m1 && ls[2][1] == m2 && ls[3][1] == m3 && ls[4][1] == m4;
    assert m1 in mids && m2 in mids && m3 in mids && m4 in mids;
    forall k | 1 <= k < 5 ensures ls[k][1] in {m1, m2, m3, m4} {
      assert k == 1 || k == 2 || k == 3 || k == 4;
    }
    assert mids == {m1, m2, m3, m4};
  }

  /** The direct edge has length 1 and each detour 1 + sqrt2, the dilation bound. */
  lemma DetourLengths(p: Point, q: Point)
    requires IsUnitAxial(Vec(p, q))
    ensures WalkLength([p, q]) == ONE
    ensures forall m :: IsDetourMid(p, q, m) ==> WalkLength([p, m, q]) == DIL
  {
    DirectEdge(p, q);
    forall m | IsDetourMid(p, q, m) ensures WalkLength([p, m, q]) == DIL {
      DetourLength(p, m, q);
    }
  }

  /** m is one of the four candidate midpoints between p and q. */
  predicate IsDetourMid(p: Point, q: Point, m: Point)
  {
    var v := Vec(p, q);
    m == Translate(p, RotateLeft(v)) || m == Translate(p, RotateRight(v)) ||
    m == Translate(q, RotateLeft(v)) || m == Translate(q, RotateRight(v))
  }

  lemma DetourLength(p: Point, m: Point, q: Point)
    requires IsUnitAxial(Vec(p, q)) && IsDetourMid(p, q, m)
    ensures WalkLength([p, m, q]) == DIL
  {
    RotationSteps(p, q);
    UnitDetour(p, m, q);
  }

  /** The four candidate midpoints are king moves away from both ends. */
  lemma RotationSteps(p: Point, q: Point)
    requires IsUnitAxial(Vec(p, q))
    ensures var v := Vec(p, q);
      var m1, m2, m3, m4 := Translate(p, RotateLeft(v)), Translate(p, RotateRight(v)),
        Translate(q, RotateLeft(v)), Translate(q, RotateRight(v));
      IsStep(p, m1) && IsStep(m1, q) && IsStep(p, m2) && IsStep(m2, q) &&
      IsStep(p, m3) && IsStep(m3, q) && IsStep(p, m4) && IsStep(m4, q)
  {
    var v := Vec(p, q);
    if v == Point(1, 0) {
    } else if v == Point(0, 1) {
    } else if v == Point(-1, 0) {
    } else {
    }
  }

  lemma DirectEdge(p: Point, q: Point)
    requires IsUnitAxial(Vec(p, q))
    ensures WalkLength([p, q]) == ONE
  {
    assert [p, q][1..] == [q];
    assert WalkLength([q]) == ZERO;
  }

  /** A detour p, m, q through a common neighbour of a unit axial edge is a walk of length 1 + sqrt2. */
  lemma UnitDetour(p: Point, m: Point, q: Point)
    requires IsUnitAxial(Vec(p, q))
    requires IsStep(p, m) && IsStep(m, q)
    ensures WalkLength([p, m, q]) == DIL
  {
    var w := [p, m, q];
    assert w[1..] == [m, q];
    assert w[1..][1..] == [q];
    OneDiagonal(Vec(p, m), Vec(m, q), Vec(p, q));
    assert WalkLength([q]) == ZERO;
    assert WalkLength([m, q]) == StepNorm(m, q);
    assert WalkLength(w) == Add(StepNorm(p, m), WalkLength([m, q]));
  }

  /** Two king moves adding up to a unit axial vector: exactly one of them is diagonal. */
  lemma OneDiagonal(d1: Point, d2: Point, v: Point)
    requires d1 != ORIGIN && d2 != ORIGIN
    requires -1 <= d1.x <= 1 && -1 <= d1.y <= 1 && -1 <= d2.x <= 1 && -1 <= d2.y <= 1
    requires d1.x + d2.x == v.x && d1.y + d2.y == v.y
    requires IsUnitAxial(v)
    ensures IsDiagonal(d1) != IsDiagonal(d2)
  {
  }

  /** The common king neighbours of the ends of a unit axial edge are four distinct points. */
  lemma UnitNeighbours(p: Point, q: Point)
    requires IsUnitAxial(Vec(p, q))
    ensures var v := Vec(p, q);
      var m1, m2, m3, m4 := Translate(p, RotateLeft(v)), Translate(p, RotateRight(v)),
        Translate(q, RotateLeft(v)), Translate(q, RotateRight(v));
      CommonNeighbours(p, q) == {m1, m2, m3, m4} &&
      m1 != m2 && m1 != m3 && m1 != m4 && m2 != m3 && m2 != m4 && m3 != m4
  {
    var v := Vec(p, q);
    var m1, m2, m3, m4 := Translate(p, RotateLeft(v)), Translate(p, RotateRight(v)),
      Translate(q, RotateLeft(v)), Translate(q, RotateRight(v));
    var mids := {m1, m2, m3, m4};
    RotationSteps(p, q);
    forall k | 0 <= k < 8 && IsStep(Translate(p, DIRECTIONS[k].0), q)
      ensures Translate(p, DIRECTIONS[k].0) in mids
    {
      DirectionStep(p, k);
      NeighbourIsMid(p, q, Translate(p, DIRECTIONS[k].0));
    }
    forall m | m in mids ensures m in CommonNeighbours(p, q) {
      var k := StepIsDirection(p, m);
    }
  }

  /** A common king neighbour of the ends of a unit axial edge is one of the four midpoints. */
  lemma NeighbourIsMid(p: Point, q: Point, r: Point)
    requires IsUnitAxial(Vec(p, q)) && IsStep(p, r) && IsStep(r, q)
    ensures IsDetourMid(p, q, r)
  {
    var v := Vec(p, q);
    if v == Point(1, 0) {
    } else if v == Point(0, 1) {
    } else if v == Point(-1, 0) {
    } else {
    }
  }
}

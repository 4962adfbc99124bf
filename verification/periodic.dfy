/**
 * The periodic edge sets of the companion checks: a few paths copied by
 * every shift i v1 + j v2 with i and j in a range, both orientations of
 * every consecutive pair inserted into one set of directed pairs.
 */
module Periodic {
  import opened Geometry

  ghost predicate Symmetric(s: set<Edge>) { forall a, b :: (a, b) in s ==> (b, a) in s }

  /** e is the k-th consecutive pair of path shifted by s, in either orientation. */
  predicate IsCopy(path: seq<Point>, s: Point, k: int, e: Edge)
    requires 0 <= k < |path| - 1
  {
    e == (Translate(path[k], s), Translate(path[k + 1], s)) || e == (Translate(path[k + 1], s), Translate(path[k], s))
  }

  /** Both orientations of the consecutive pairs of path, shifted by s. */
  function PathPairs(path: seq<Point>, s: Point): set<Edge>
  {
    if |path| < 2 then {}
    else
      var a, b := Translate(path[|path| - 2], s), Translate(path[|path| - 1], s);
      PathPairs(path[..|path| - 1], s) + {(a, b), (b, a)}
  }

  lemma {:induction false} PathPairsMembers(path: seq<Point>, s: Point, e: Edge)
    ensures e in PathPairs(path, s) <==> exists k :: 0 <= k < |path| - 1 && IsCopy(path, s, k, e)
    decreases |path|
  {
    if |path| >= 2 {
      var front := path[..|path| - 1];
      PathPairsMembers(front, s, e);
      forall k | 0 <= k < |front| - 1 ensures IsCopy(front, s, k, e) == IsCopy(path, s, k, e) {
        assert front[k] == path[k] && front[k + 1] == path[k + 1];
      }
      if e !in PathPairs(front, s) && e in PathPairs(path, s) {
        assert IsCopy(path, s, |path| - 2, e);
      }
    }
  }

  lemma {:induction false} PathPairsSymmetric(path: seq<Point>, s: Point)
    ensures Symmetric(PathPairs(path, s))
    decreases |path|
  {
    if |path| >= 2 {
      PathPairsSymmetric(path[..|path| - 1], s);
    }
  }

  /**
   * add_path(path, shift, edges): each shifted consecutive pair is inserted
   * in both orientations, and nothing is removed.
   */
  method AddPath(edges: set<Edge>, path: seq<Point>, shift: Point) returns (edges': set<Edge>)
    ensures edges' == edges + PathPairs(path, shift)
  {
    edges' := edges;
    if |path| < 2 {
      return;
    }
    for i := 0 to |path| - 1
      invariant edges' == edges + PathPairs(path[..i + 1], shift)
    {
      var a, b := Translate(path[i], shift), Translate(path[i + 1], shift);
      if (a, b) !in edges' {
        edges' := edges' + {(a, b)};
      }
      if (b, a) !in edges' {
        edges' := edges' + {(b, a)};
      }
      assert path[..i + 2][..i + 1] == path[..i + 1];
    }
    assert path[..|path|] == path;
  }

  /** The shift i v1 + j v2. */
  function Shift(v1: Point, v2: Point, i: int, j: int): Point
  {
    Point(i * v1.x + j * v2.x, i * v1.y + j * v2.y)
  }

  /** The pairs of the first n paths, all shifted by s. */
  function ShiftPairs(paths: seq<seq<Point>>, s: Point, n: nat): set<Edge>
    requires n <= |paths|
  {
    if n == 0 then {} else ShiftPairs(paths, s, n - 1) + PathPairs(paths[n - 1], s)
  }

  lemma {:induction false} ShiftPairsMembers(paths: seq<seq<Point>>, s: Point, n: nat, e: Edge)
    requires n <= |paths|
    ensures e in ShiftPairs(paths, s, n) <==> exists m :: 0 <= m < n && e in PathPairs(paths[m], s)
  {
    if n > 0 {
      ShiftPairsMembers(paths, s, n - 1, e);
    }
  }

  /** The pairs of all paths shifted by i v1 + j v2 for lo <= j < hi. */
  function RowPairs(paths: seq<seq<Point>>, v1: Point, v2: Point, i: int, lo: int, hi: int): set<Edge>
    decreases hi - lo
  {
    if hi <= lo then {} else RowPairs(paths, v1, v2, i, lo, hi - 1) + ShiftPairs(paths, Shift(v1, v2, i, hi - 1), |paths|)
  }

  lemma {:induction false} RowPairsMembers(paths: seq<seq<Point>>, v1: Point, v2: Point, i: int, lo: int, hi: int, e: Edge)
    ensures e in RowPairs(paths, v1, v2, i, lo, hi) <==>
      exists j :: lo <= j < hi && e in ShiftPairs(paths, Shift(v1, v2, i, j), |paths|)
    decreases hi - lo
  {
    if hi > lo {
      RowPairsMembers(paths, v1, v2, i, lo, hi - 1, e);
    }
  }

  /** The pairs of all paths shifted by i v1 + j v2 for lo <= i < hi and lo <= j < top. */
  function GridPairs(paths: seq<seq<Point>>, v1: Point, v2: Point, lo: int, hi: int, top: int): set<Edge>
    decreases hi - lo
  {
    if hi <= lo then {} else GridPairs(paths, v1, v2, lo, hi - 1, top) + RowPairs(paths, v1, v2, hi - 1, lo, top)
  }

  lemma {:induction false} GridPairsMembers(paths: seq<seq<Point>>, v1: Point, v2: Point, lo: int, hi: int, top: int, e: Edge)
    ensures e in GridPairs(paths, v1, v2, lo, hi, top) <==>
      exists i :: lo <= i < hi && e in RowPairs(paths, v1, v2, i, lo, top)
    decreases hi - lo
  {
    if hi > lo {
      GridPairsMembers(paths, v1, v2, lo, hi - 1, top, e);
      assert GridPairs(paths, v1, v2, lo, hi, top) == GridPairs(paths, v1, v2, lo, hi - 1, top) + RowPairs(paths, v1, v2, hi - 1, lo, top);
    }
  }

  /** Adds every path shifted by s; the innermost loop body of the builders. */
  method AddShifted(edges: set<Edge>, paths: seq<seq<Point>>, s: Point) returns (edges': set<Edge>)
    ensures edges' == edges + ShiftPairs(paths, s, |paths|)
  {
    edges' := edges;
    for n := 0 to |paths|
      invariant edges' == edges + ShiftPairs(paths, s, n)
    {
      edges' := AddPath(edges', paths[n], s);
    }
  }

  /** Adds every path shifted by i v1 + j v2 for lo <= j <= hi. */
  method AddRow(edges: set<Edge>, paths: seq<seq<Point>>, v1: Point, v2: Point, i: int, lo: int, hi: int)
    returns (edges': set<Edge>)
    requires lo <= hi + 1
    ensures edges' == edges + RowPairs(paths, v1, v2, i, lo, hi + 1)
  {
    edges' := edges;
    for j := lo to hi + 1
      invariant edges' == edges + RowPairs(paths, v1, v2, i, lo, j)
    {
      edges' := AddShifted(edges', paths, Shift(v1, v2, i, j));
    }
  }

  /**
   * The nested loops of the configuration builders: for i and j from lo to
   * hi, every path is added with shift i v1 + j v2.
   */
  method PeriodicEdges(paths: seq<seq<Point>>, v1: Point, v2: Point, lo: int, hi: int) returns (edges: set<Edge>)
    requires lo <= hi + 1
    ensures edges == GridPairs(paths, v1, v2, lo, hi + 1, hi + 1)
    ensures forall e :: e in edges <==> CopiedPair(paths, v1, v2, lo, hi, e)
    ensures Symmetric(edges)
  {
    edges := {};
    for i := lo to hi + 1
      invariant edges == GridPairs(paths, v1, v2, lo, i, hi + 1)
    {
      edges := AddRow(edges, paths, v1, v2, i, lo, hi);
    }
    PeriodicCharacterised(paths, v1, v2, lo, hi);
  }

  /**
   * A pair is copied when it is a consecutive pair of one of the paths, in
   * either orientation, shifted by i v1 + j v2 for i and j in [lo, hi].
   */
  ghost predicate CopiedPair(paths: seq<seq<Point>>, v1: Point, v2: Point, lo: int, hi: int, e: Edge)
  {
    exists i, j, m, k :: lo <= i <= hi && lo <= j <= hi && 0 <= m < |paths| && 0 <= k < |paths[m]| - 1 &&
      IsCopy(paths[m], Shift(v1, v2, i, j), k, e)
  }

  /** The periodic set holds exactly the copied pairs, and is symmetric. */
  lemma PeriodicCharacterised(paths: seq<seq<Point>>, v1: Point, v2: Point, lo: int, hi: int)
    ensures forall e :: e in GridPairs(paths, v1, v2, lo, hi + 1, hi + 1) <==> CopiedPair(paths, v1, v2, lo, hi, e)
    ensures Symmetric(GridPairs(paths, v1, v2, lo, hi + 1, hi + 1))
  {
    var grid := GridPairs(paths, v1, v2, lo, hi + 1, hi + 1);
    forall e ensures e in grid <==> CopiedPair(paths, v1, v2, lo, hi, e) {
      if CopiedPair(paths, v1, v2, lo, hi, e) { CopiedPairIn(paths, v1, v2, lo, hi, e); }
      if e in grid {
        GridPairsMembers(paths, v1, v2, lo, hi + 1, hi + 1, e);
        var i :| lo <= i <= hi && e in RowPairs(paths, v1, v2, i, lo, hi + 1);
        RowPairsMembers(paths, v1, v2, i, lo, hi + 1, e);
        var j :| lo <= j <= hi && e in ShiftPairs(paths, Shift(v1, v2, i, j), |paths|);
        ShiftPairsMembers(paths, Shift(v1, v2, i, j), |paths|, e);
        var m :| 0 <= m < |paths| && e in PathPairs(paths[m], Shift(v1, v2, i, j));
        PathPairsMembers(paths[m], Shift(v1, v2, i, j), e);
      }
    }
    forall a, b | (a, b) in grid ensures (b, a) in grid {
      var i, j, m, k :| lo <= i <= hi && lo <= j <= hi && 0 <= m < |paths| && 0 <= k < |paths[m]| - 1 &&
        IsCopy(paths[m], Shift(v1, v2, i, j), k, (a, b));
      assert IsCopy(paths[m], Shift(v1, v2, i, j), k, (b, a));
      CopiedPairIn(paths, v1, v2, lo, hi, (b, a));
    }
  }

  /** Every copied pair is in the periodic set. */
  lemma CopiedPairIn(paths: seq<seq<Point>>, v1: Point, v2: Point, lo: int, hi: int, e: Edge)
    requires CopiedPair(paths, v1, v2, lo, hi, e)
    ensures e in GridPairs(paths, v1, v2, lo, hi + 1, hi + 1)
  {
    var i, j, m, k :| lo <= i <= hi && lo <= j <= hi && 0 <= m < |paths| && 0 <= k < |paths[m]| - 1 &&
      IsCopy(paths[m], Shift(v1, v2, i, j), k, e);
    PathPairsMembers(paths[m], Shift(v1, v2, i, j), e);
    ShiftPairsMembers(paths, Shift(v1, v2, i, j), |paths|, e);
    RowPairsMembers(paths, v1, v2, i, lo, hi + 1, e);
    GridPairsMembers(paths, v1, v2, lo, hi + 1, hi + 1, e);
  }
}

/**
 * The check of the three locally optimal examples of Figure 2: each is a
 * periodic set of pairs, and the check of Proposition 2.1 is run on it
 * from every point of a window that represents each point of the plane up
 * to the periods.
 */
module Figure2 {
  import opened Geometry
  import opened Periodic
  import opened Dilation
  import opened Proposition21

  /** The window of candidate points is the square [-SIDE, SIDE]^2. */
  const SIDE: int := 10

  /** The shifts of each example run over -RANGE <= i, j <= RANGE. */
  const RANGE: int := 3

  function Dot(p: Point, v: Point): int { p.x * v.x + p.y * v.y }

  /**
   * The test of fundamental_parallelogram: p lies in the window and its
   * scalar product with each of v1 and v2 is at least 0 and below the
   * squared length of that vector.
   */
  predicate InWindow(v1: Point, v2: Point, p: Point)
  {
    -SIDE <= p.x <= SIDE && -SIDE <= p.y <= SIDE &&
    0 <= Dot(p, v1) < Dot(v1, v1) && 0 <= Dot(p, v2) < Dot(v2, v2)
  }

  /** points holds exactly the candidate points of v1 and v2. */
  ghost predicate Window(v1: Point, v2: Point, points: seq<Point>)
  {
    forall p :: p in points <==> InWindow(v1, v2, p)
  }

  /** The points (x, y) of the window with -SIDE <= y < hi that pass the test, by increasing y. */
  function Column(v1: Point, v2: Point, x: int, hi: int): seq<Point>
    decreases hi + SIDE
  {
    if hi <= -SIDE then []
    else Column(v1, v2, x, hi - 1) + (if InWindow(v1, v2, Point(x, hi - 1)) then [Point(x, hi - 1)] else [])
  }

  /** The points of the window with x < hi that pass the test, column by column. */
  function Columns(v1: Point, v2: Point, hi: int): seq<Point>
    decreases hi + SIDE
  {
    if hi <= -SIDE then [] else Columns(v1, v2, hi - 1) + Column(v1, v2, hi - 1, SIDE + 1)
  }

  /** Strictly increasing in the order x first, then y. */
  predicate Increasing(ps: seq<Point>)
  {
    forall i, j :: 0 <= i < j < |ps| ==> Before(ps[i], ps[j])
  }

  lemma {:induction false} ColumnMembers(v1: Point, v2: Point, x: int, hi: int, p: Point)
    ensures p in Column(v1, v2, x, hi) <==> InWindow(v1, v2, p) && p.x == x && p.y < hi
    decreases hi + SIDE
  {
    if hi > -SIDE {
      ColumnMembers(v1, v2, x, hi - 1, p);
    }
  }

  /** Two increasing runs, the first wholly before the second, make one. */
  lemma JoinIncreasing(front: seq<Point>, back: seq<Point>)
    requires Increasing(front) && Increasing(back)
    requires forall i, j :: 0 <= i < |front| && 0 <= j < |back| ==> Before(front[i], back[j])
    ensures Increasing(front + back)
  {
    var joined := front + back;
    forall i, j | 0 <= i < j < |joined| ensures Before(joined[i], joined[j]) {
      if j < |front| {
        assert joined[i] == front[i] && joined[j] == front[j];
      } else if i < |front| {
        assert joined[i] == front[i] && joined[j] == back[j - |front|];
      } else {
        assert joined[i] == back[i - |front|] && joined[j] == back[j - |front|];
      }
    }
  }

  lemma {:induction false} ColumnIncreasing(v1: Point, v2: Point, x: int, hi: int)
    ensures Increasing(Column(v1, v2, x, hi))
    decreases hi + SIDE
  {
    if hi > -SIDE {
      ColumnIncreasing(v1, v2, x, hi - 1);
      var front := Column(v1, v2, x, hi - 1);
      var last := if InWindow(v1, v2, Point(x, hi - 1)) then [Point(x, hi - 1)] else [];
      forall i, j | 0 <= i < |front| && 0 <= j < |last| ensures Before(front[i], last[j]) {
        ColumnMembers(v1, v2, x, hi - 1, front[i]);
      }
      JoinIncreasing(front, last);
    }
  }

  lemma {:induction false} ColumnsMembers(v1: Point, v2: Point, hi: int, p: Point)
    ensures p in Columns(v1, v2, hi) <==> InWindow(v1, v2, p) && p.x < hi
    decreases hi + SIDE
  {
    if hi > -SIDE {
      ColumnsMembers(v1, v2, hi - 1, p);
      ColumnMembers(v1, v2, hi - 1, SIDE + 1, p);
    }
  }

  lemma {:induction false} ColumnsIncreasing(v1: Point, v2: Point, hi: int)
    ensures Increasing(Columns(v1, v2, hi))
    decreases hi + SIDE
  {
    if hi > -SIDE {
      ColumnsIncreasing(v1, v2, hi - 1);
      ColumnIncreasing(v1, v2, hi - 1, SIDE + 1);
      var front, last := Columns(v1, v2, hi - 1), Column(v1, v2, hi - 1, SIDE + 1);
      forall i, j | 0 <= i < |front| && 0 <= j < |last| ensures Before(front[i], last[j]) {
        ColumnsMembers(v1, v2, hi - 1, front[i]);
        ColumnMembers(v1, v2, hi - 1, SIDE + 1, last[j]);
      }
      JoinIncreasing(front, last);
    }
  }

  /** The window of v1 and v2: its members and their order. */
  lemma WindowCharacterised(v1: Point, v2: Point)
    ensures forall p :: p in Columns(v1, v2, SIDE + 1) <==> InWindow(v1, v2, p)
    ensures Increasing(Columns(v1, v2, SIDE + 1))
  {
    forall p ensures p in Columns(v1, v2, SIDE + 1) <==> InWindow(v1, v2, p) {
      ColumnsMembers(v1, v2, SIDE + 1, p);
    }
    ColumnsIncreasing(v1, v2, SIDE + 1);
  }

  /** The origin is a candidate point whenever both periods are nonzero. */
  lemma OriginInWindow(v1: Point, v2: Point)
    requires v1 != ORIGIN && v2 != ORIGIN
    ensures InWindow(v1, v2, ORIGIN)
  {
    assert Dot(v1, v1) > 0 by {
      if v1.x != 0 { assert v1.x * v1.x > 0; } else { assert v1.y * v1.y > 0; }
    }
    assert Dot(v2, v2) > 0 by {
      if v2.x != 0 { assert v2.x * v2.x > 0; } else { assert v2.y * v2.y > 0; }
    }
  }

  /** fundamental_parallelogram(v1, v2): the double loop over the window. */
  method FundamentalParallelogram(v1: Point, v2: Point) returns (points: seq<Point>)
    ensures points == Columns(v1, v2, SIDE + 1)
    ensures Window(v1, v2, points)
    ensures Increasing(points)
  {
    var lengthSquared1 := v1.x * v1.x + v1.y * v1.y;
    var lengthSquared2 := v2.x * v2.x + v2.y * v2.y;
    points := [];
    for x := -SIDE to SIDE + 1
      invariant points == Columns(v1, v2, x)
    {
      for y := -SIDE to SIDE + 1
        invariant points == Columns(v1, v2, x) + Column(v1, v2, x, y)
      {
        var scalarProduct1 := x * v1.x + y * v1.y;
        var scalarProduct2 := x * v2.x + y * v2.y;
        if 0 <= scalarProduct1 && 0 <= scalarProduct2 && scalarProduct1 < lengthSquared1 && scalarProduct2 < lengthSquared2 {
          points := points + [Point(x, y)];
        }
      }
    }
    WindowCharacterised(v1, v2);
  }

  /** One example of Figure 2: its paths and its two periods. */
  datatype Example = Example(paths: seq<seq<Point>>, v1: Point, v2: Point)

  const FIRST: Example := Example(
    [
      [Point(0, 1), Point(1, 0), Point(2, 0), Point(3, 0), Point(4, 0), Point(4, 1), Point(5, 1), Point(4, 2), Point(3, 3)],
      [Point(2, 0), Point(2, 1), Point(1, 2), Point(1, 1)],
      [Point(1, 2), Point(2, 2), Point(1, 3)],
      [Point(2, 1), Point(3, 1), Point(4, 0)],
      [Point(3, 1), Point(3, 2)],
      [Point(2, 2), Point(3, 2), Point(4, 2)]
    ],
    Point(4, 0), Point(2, -3))

  const SECOND: Example := Example(
    [
      [Point(0, 0), Point(1, 0), Point(1, -1), Point(2, -1), Point(2, -2), Point(3, -2), Point(3, -3), Point(4, -3)],
      [Point(4, -3), Point(4, -4), Point(5, -3), Point(6, -2), Point(7, -1)],
      [Point(1, -1), Point(2, 0), Point(2, 1), Point(1, 1)],
      [Point(3, -3), Point(4, -2), Point(4, -1), Point(4, 0), Point(3, -1), Point(2, -2)],
      [Point(6, -2), Point(5, -2), Point(5, -1), Point(6, 0)],
      [Point(4, -2), Point(5, -2)],
      [Point(4, -1), Point(5, -1)],
      [Point(4, 0), Point(5, 1)],
      [Point(2, 0), Point(3, 0)],
      [Point(2, 1), Point(3, 1)],
      [Point(3, -1), Point(3, 0), Point(3, 1), Point(4, 2)]
    ],
    Point(3, 2), Point(4, -4))

  const THIRD: Example := Example(
    [
      [Point(0, 0), Point(1, 1), Point(2, 2), Point(3, 3), Point(3, 2), Point(4, 2), Point(4, 1), Point(5, 1),
       Point(5, 0), Point(6, 1), Point(6, 0), Point(7, 0)],
      [Point(2, 2), Point(2, 1), Point(2, 0), Point(3, 0), Point(3, -1), Point(4, 0), Point(4, -1), Point(5, -1), Point(5, -2)],
      [Point(4, -1), Point(4, -2)],
      [Point(2, -2), Point(3, -1)],
      [Point(1, -1), Point(2, 0)],
      [Point(5, -1), Point(5, 0)],
      [Point(3, 1), Point(4, 2)],
      [Point(4, 0), Point(5, 1)],
      [Point(2, 1), Point(3, 1), Point(3, 0)]
    ],
    Point(2, 3), Point(4, -3))

  /** The pairs of an example: its paths shifted by i v1 + j v2 for -RANGE <= i, j <= RANGE. */
  function ExampleEdges(ex: Example): set<Edge>
  {
    GridPairs(ex.paths, ex.v1, ex.v2, -RANGE, RANGE + 1, RANGE + 1)
  }

  /** The body shared by first_config, second_config and third_config. */
  method BuildExample(ex: Example) returns (edges: set<Edge>, points: seq<Point>)
    ensures edges == ExampleEdges(ex)
    ensures forall e :: e in edges <==> CopiedPair(ex.paths, ex.v1, ex.v2, -RANGE, RANGE, e)
    ensures Symmetric(edges)
    ensures Window(ex.v1, ex.v2, points)
  {
    edges := PeriodicEdges(ex.paths, ex.v1, ex.v2, -RANGE, RANGE);
    points := FundamentalParallelogram(ex.v1, ex.v2);
  }

  /** first_config(). */
  method FirstConfig() returns (edges: set<Edge>, points: seq<Point>)
    ensures edges == ExampleEdges(FIRST)
    ensures Window(FIRST.v1, FIRST.v2, points)
  {
    edges, points := BuildExample(FIRST);
  }

  /** second_config(). */
  method SecondConfig() returns (edges: set<Edge>, points: seq<Point>)
    ensures edges == ExampleEdges(SECOND)
    ensures Window(SECOND.v1, SECOND.v2, points)
  {
    edges, points := BuildExample(SECOND);
  }

  /** third_config(). */
  method ThirdConfig() returns (edges: set<Edge>, points: seq<Point>)
    ensures edges == ExampleEdges(THIRD)
    ensures Window(THIRD.v1, THIRD.v2, points)
  {
    edges, points := BuildExample(THIRD);
  }

  /** Every candidate point of the example is joined well to every point within distance sqrt5. */
  ghost predicate ExampleChecked(ex: Example)
  {
    forall p1, p2 :: InWindow(ex.v1, ex.v2, p1) && DistSquared(p1, p2) <= 5 ==> Spanned(ExampleEdges(ex), p1, p2)
  }

  /** The configuration and the candidate points built for an example. */
  ghost predicate Built(ex: Example, config: set<Edge>, points: seq<Point>)
  {
    config == ExampleEdges(ex) && Window(ex.v1, ex.v2, points)
  }

  /** A successful check of the example from its window. */
  lemma WindowChecked(ex: Example, config: set<Edge>, points: seq<Point>)
    requires Built(ex, config, points)
    requires Outcome(config, points, Verified)
    ensures ExampleChecked(ex)
  {
    forall p1, p2 | InWindow(ex.v1, ex.v2, p1) && DistSquared(p1, p2) <= 5 ensures Spanned(ExampleEdges(ex), p1, p2) {
      var n :| 0 <= n < |points| && points[n] == p1;
    }
  }

  /** The check of ex from the window points ended with v. */
  ghost predicate Ended(ex: Example, points: seq<Point>, v: Verdict)
  {
    Window(ex.v1, ex.v2, points) && Outcome(ExampleEdges(ex), points, v)
  }

  /** One pass of the main loop: the example is built, then checked from its window. */
  method CheckExample(ex: Example) returns (v: Verdict, points: seq<Point>)
    ensures v.Verified? ==> ExampleChecked(ex)
    ensures !v.Verified? ==> Ended(ex, points, v)
  {
    var config;
    config, points := BuildExample(ex);
    v := VerifyShortestPaths(config, points);
    if v.Verified? {
      WindowChecked(ex, config, points);
    }
  }

  /** The examples in the order of the figure. */
  const EXAMPLES: seq<Example> := [FIRST, SECOND, THIRD]

  /**
   * The main loop: the examples are built and checked in turn; the first
   * failing check ends the run with the index of its example.
   */
  method CheckExamples(examples: seq<Example>) returns (v: Verdict, failed: nat, points: seq<Point>)
    ensures v.Verified? ==> forall k :: 0 <= k < |examples| ==> ExampleChecked(examples[k])
    ensures !v.Verified? ==> failed < |examples| && Ended(examples[failed], points, v)
    ensures !v.Verified? ==> forall k :: 0 <= k < failed ==> ExampleChecked(examples[k])
  {
    for i := 0 to |examples|
      invariant forall k :: 0 <= k < i ==> ExampleChecked(examples[k])
    {
      v, points := CheckExample(examples[i]);
      if !v.Verified? {
        return v, i, points;
      }
    }
    v, failed, points := Verified, 0, [];
  }

  /** The script run on the three examples of Figure 2. */
  method CheckFigure2() returns (v: Verdict, failed: nat, points: seq<Point>)
    ensures v.Verified? ==> forall k :: 0 <= k < |EXAMPLES| ==> ExampleChecked(EXAMPLES[k])
    ensures !v.Verified? ==> failed < |EXAMPLES| && Ended(EXAMPLES[failed], points, v)
    ensures !v.Verified? ==> forall k :: 0 <= k < failed ==> ExampleChecked(EXAMPLES[k])
  {
    v, failed, points := CheckExamples(EXAMPLES);
  }
}

/**
 * The three depth-first searches over king moves: the test that two points
 * are already joined by a short enough path of existing edges, the search
 * for a provable shortcut, and the enumeration of candidate paths that may
 * still be added. Each search prunes with the admissible bound
 * ManhattanWithDiagonals, and is proved equal to an existence statement
 * (or, for the enumeration, to an exact listing) over walks.
 */
module Traversal {
  import opened ExactNumber
  import opened Geometry
  import opened Wrappers

  /**
   * DIL^2 |pq|^2 for a squared distance d, the largest allowed squared
   * length, in its evaluated form 3d + 2d sqrt2 (BoundValue).
   */
  function Bound(d: int): Num { Num(3 * d, 2 * d) }

  /** The bound is the product the searches compute, (1 + sqrt2)^2 * d. */
  lemma BoundValue(d: int)
    ensures Bound(d) == Mul(Power(DIL, 2), Int(d))
  {
    DilatedValue(d);
  }

  /** The pruning test: a length whose square exceeds the bound. */
  predicate TooLong(s: Num, d: int) { Greater(Power(s, 2), Bound(d)) }

  /** The acceptance test: a length whose square is within the bound. */
  predicate WithinDilation(s: Num, d: int) { LessEq(Power(s, 2), Bound(d)) }

  lemma NotTooLong(s: Num, d: int)
    ensures !TooLong(s, d) <==> WithinDilation(s, d)
  {
    LessTrichotomy(Power(s, 2), Bound(d));
  }

  /** A branch that survives pruning has at most 6d unit parts, which bounds the depth of the search. */
  lemma KeptBound(lg: Num, q: Point, u: Point, d: nat)
    requires Nonneg(lg) && !TooLong(Add(lg, ManhattanWithDiagonals(q, u)), d)
    ensures lg.a + lg.b <= 6 * d
  {
    var s := Add(lg, ManhattanWithDiagonals(q, u));
    ManhattanWithDiagonalsShape(q, u);
    NotTooLong(s, d);
    SquareBoundParts(s, Power(s, 2), d);
  }

  lemma DistSquaredNonneg(p: Point, q: Point)
    ensures DistSquared(p, q) >= 0
  {
    SquareMonotone(0, Abs(p.x - q.x));
    SquareMonotone(0, Abs(p.y - q.y));
    AbsSquare(p.x - q.x);
    AbsSquare(p.y - q.y);
  }

  /** Every pair of consecutive points of w is in the set. */
  ghost predicate InEdges(edges: set<Edge>, w: seq<Point>)
  {
    forall i :: 0 <= i < |w| - 1 ==> (w[i], w[i + 1]) in edges
  }

  /** w never goes straight back to the point it came from. */
  ghost predicate NonBacktracking(w: seq<Point>)
  {
    forall i :: 0 <= i < |w| - 2 ==> w[i + 2] != w[i]
  }

  // ---------------------------------------------------------------------------
  // exists_good_path

  /**
   * The search from u with length lg already travelled, arriving from
   * previous: at q it reports whether lg is within the dilation bound,
   * otherwise it prunes or tries the eight directions in order.
   */
  function Dfs(edges: set<Edge>, q: Point, d: nat, u: Point, lg: Num, previous: Option<Point>): bool
    requires Nonneg(lg)
    decreases 6 * d - (lg.a + lg.b), 1, 0
  {
    if u == q then WithinDilation(lg, d)
    else if TooLong(Add(lg, ManhattanWithDiagonals(q, u)), d) then false
    else
      KeptBound(lg, q, u, d);
      DfsDirs(edges, q, d, u, lg, previous, 0)
  }

  /** The directions k .. 7 of the loop in Dfs. */
  function DfsDirs(edges: set<Edge>, q: Point, d: nat, u: Point, lg: Num, previous: Option<Point>, k: nat): bool
    requires Nonneg(lg) && lg.a + lg.b <= 6 * d && k <= 8
    decreases 6 * d - (lg.a + lg.b), 0, 8 - k
  {
    if k == 8 then false
    else
      var v := Translate(u, DIRECTIONS[k].0);
      DirectionNorm(k);
      (previous != Some(v) && (u, v) in edges && Dfs(edges, q, d, v, Add(lg, DIRECTIONS[k].1), Some(u)))
      || DfsDirs(edges, q, d, u, lg, previous, k + 1)
  }

  /** exists_good_path(p, q) over the edge set. */
  function ExistsGoodPath(edges: set<Edge>, p: Point, q: Point): bool
  {
    DistSquaredNonneg(p, q);
    Dfs(edges, q, DistSquared(p, q), p, ZERO, None)
  }

  /**
   * A walk the search from u can follow: over existing edges, without going
   * back, not starting back to previous, and short enough once added to lg.
   */
  ghost predicate GoodWalk(edges: set<Edge>, q: Point, d: int, u: Point, lg: Num, previous: Option<Point>, w: seq<Point>)
  {
    IsWalk(w) && w[0] == u && w[|w| - 1] == q && InEdges(edges, w) && NonBacktracking(w) &&
    (|w| >= 2 ==> previous != Some(w[1])) && WithinDilation(Add(lg, WalkLength(w)), d)
  }

  /**
   * A path of existing edges from p to q, without going back, of length at
   * most DIL |pq|: a good walk from p with nothing travelled yet.
   */
  ghost predicate GoodPath(edges: set<Edge>, p: Point, q: Point, w: seq<Point>)
  {
    GoodWalk(edges, q, DistSquared(p, q), p, ZERO, None, w)
  }

  /** exists_good_path answers exactly whether such a path exists. */
  lemma ExistsGoodPathCorrect(edges: set<Edge>, p: Point, q: Point)
    ensures ExistsGoodPath(edges, p, q) <==> exists w :: GoodPath(edges, p, q, w)
  {
    if ExistsGoodPath(edges, p, q) {
      var w := FoundPath(edges, p, q);
    }
    if w :| GoodPath(edges, p, q, w) {
      PathFound(edges, p, q, w);
    }
  }

  lemma FoundPath(edges: set<Edge>, p: Point, q: Point) returns (w: seq<Point>)
    requires ExistsGoodPath(edges, p, q)
    ensures GoodPath(edges, p, q, w)
  {
    DistSquaredNonneg(p, q);
    w := DfsSound(edges, q, DistSquared(p, q), p, ZERO, None);
  }

  lemma PathFound(edges: set<Edge>, p: Point, q: Point, w: seq<Point>)
    requires GoodPath(edges, p, q, w)
    ensures ExistsGoodPath(edges, p, q)
  {
    DistSquaredNonneg(p, q);
    DfsComplete(edges, q, DistSquared(p, q), p, ZERO, None, w);
  }

  /** Soundness: a successful search has followed a good walk. */
  lemma {:induction false} DfsSound(edges: set<Edge>, q: Point, d: nat, u: Point, lg: Num, previous: Option<Point>)
    returns (w: seq<Point>)
    requires Nonneg(lg) && Dfs(edges, q, d, u, lg, previous)
    ensures GoodWalk(edges, q, d, u, lg, previous, w)
    decreases 6 * d - (lg.a + lg.b), 1, 0
  {
    if u == q {
      w := [u];
      assert WalkLength(w) == ZERO;
      assert Add(lg, ZERO) == lg;
    } else {
      KeptBound(lg, q, u, d);
      w := DfsDirsSound(edges, q, d, u, lg, previous, 0);
    }
  }

  lemma {:induction false} DfsDirsSound(edges: set<Edge>, q: Point, d: nat, u: Point, lg: Num, previous: Option<Point>, k: nat)
    returns (w: seq<Point>)
    requires Nonneg(lg) && lg.a + lg.b <= 6 * d && k <= 8
    requires DfsDirs(edges, q, d, u, lg, previous, k)
    ensures GoodWalk(edges, q, d, u, lg, previous, w)
    decreases 6 * d - (lg.a + lg.b), 0, 8 - k
  {
    var v := Translate(u, DIRECTIONS[k].0);
    var norm := DIRECTIONS[k].1;
    DirectionNorm(k);
    if previous != Some(v) && (u, v) in edges && Dfs(edges, q, d, v, Add(lg, norm), Some(u)) {
      var rest := DfsSound(edges, q, d, v, Add(lg, norm), Some(u));
      DirectionStep(u, k);
      w := ConsGoodWalk(edges, q, d, u, lg, previous, v, norm, rest);
    } else {
      w := DfsDirsSound(edges, q, d, u, lg, previous, k + 1);
    }
  }

  /** One successful step of the search in front of a good walk of the child. */
  lemma ConsGoodWalk(edges: set<Edge>, q: Point, d: int, u: Point, lg: Num, previous: Option<Point>,
                     v: Point, norm: Num, rest: seq<Point>) returns (w: seq<Point>)
    requires IsStep(u, v) && StepNorm(u, v) == norm && previous != Some(v) && (u, v) in edges
    requires GoodWalk(edges, q, d, v, Add(lg, norm), Some(u), rest)
    ensures w == [u] + rest && GoodWalk(edges, q, d, u, lg, previous, w)
  {
    w := [u] + rest;
    assert w[1..] == rest;
    ConsWalk(u, rest);
    assert Add(lg, WalkLength(w)) == Add(Add(lg, norm), WalkLength(rest));
    assert InEdges(edges, w) by {
      forall i | 0 <= i < |w| - 1 ensures (w[i], w[i + 1]) in edges {
        if i > 0 {
          assert (rest[i - 1], rest[i]) in edges;
        }
      }
    }
    assert NonBacktracking(w) by {
      forall i | 0 <= i < |w| - 2 ensures w[i + 2] != w[i] {
        if i > 0 {
          assert rest[i + 1] != rest[i - 1];
        }
      }
    }
  }

  /** Putting u in front of a walk that starts one king move away. */
  lemma ConsWalk(u: Point, rest: seq<Point>)
    requires IsWalk(rest) && IsStep(u, rest[0])
    ensures IsWalk([u] + rest)
    ensures WalkLength([u] + rest) == Add(StepNorm(u, rest[0]), WalkLength(rest))
  {
    var w := [u] + rest;
    assert w[1..] == rest;
    forall i | 0 <= i < |w| - 1 ensures StepAt(w, i) {
      if i > 0 {
        assert StepAt(rest, i - 1);
      }
    }
  }

  /** The walk without its first point, when it has a second one. */
  lemma TailWalk(w: seq<Point>)
    requires IsWalk(w) && |w| >= 2
    ensures IsWalk(w[1..]) && IsStep(w[0], w[1])
    ensures WalkLength(w) == Add(StepNorm(w[0], w[1]), WalkLength(w[1..]))
  {
    var rest := w[1..];
    forall i | 0 <= i < |rest| - 1 ensures StepAt(rest, i) {
      assert StepAt(w, i + 1);
    }
    assert StepAt(w, 0);
  }

  /** Completeness: the search finds every good walk (in the sense that it succeeds). */
  lemma {:induction false} DfsComplete(edges: set<Edge>, q: Point, d: nat, u: Point, lg: Num, previous: Option<Point>, w: seq<Point>)
    requires Nonneg(lg) && GoodWalk(edges, q, d, u, lg, previous, w)
    ensures Dfs(edges, q, d, u, lg, previous)
    decreases |w|, 9
  {
    var total := Add(lg, WalkLength(w));
    WalkLengthNonneg(w);
    if u == q {
      GrowWithin(lg, WalkLength(w), d);
    } else {
      WalkLengthAtLeastBound(w);
      ManhattanWithDiagonalsShape(u, q);
      LessEqAddLeft(lg, ManhattanWithDiagonals(q, u), WalkLength(w));
      ShrinkWithin(Add(lg, ManhattanWithDiagonals(q, u)), total, d);
      NotTooLong(Add(lg, ManhattanWithDiagonals(q, u)), d);
      KeptBound(lg, q, u, d);
      TailWalk(w);
      var k := StepIsDirection(u, w[1]);
      DfsDirsComplete(edges, q, d, u, lg, previous, 0, k, w);
    }
  }

  lemma {:induction false} DfsDirsComplete(edges: set<Edge>, q: Point, d: nat, u: Point, lg: Num, previous: Option<Point>,
                                           k: nat, target: nat, w: seq<Point>)
    requires Nonneg(lg) && lg.a + lg.b <= 6 * d && k <= target < 8
    requires GoodWalk(edges, q, d, u, lg, previous, w) && |w| >= 2
    requires w[1] == Translate(u, DIRECTIONS[target].0)
    ensures DfsDirs(edges, q, d, u, lg, previous, k)
    decreases |w|, 8 - k
  {
    DirectionNorm(k);
    if k < target {
      DfsDirsComplete(edges, q, d, u, lg, previous, k + 1, target, w);
    } else {
      var v := w[1];
      var norm := DIRECTIONS[k].1;
      var rest := w[1..];
      TailWalk(w);
      DirectionStep(u, k);
      assert Add(Add(lg, norm), WalkLength(rest)) == Add(lg, WalkLength(w));
      assert InEdges(edges, w) && (w[0], w[1]) in edges;
      assert InEdges(edges, rest) by {
        forall i | 0 <= i < |rest| - 1 ensures (rest[i], rest[i + 1]) in edges {
          assert (w[i + 1], w[i + 2]) in edges;
        }
      }
      assert NonBacktracking(rest) by {
        forall i | 0 <= i < |rest| - 2 ensures rest[i + 2] != rest[i] {
          assert w[i + 3] != w[i + 1];
        }
      }
      if |rest| >= 2 {
        assert w[2] != w[0];
      }
      DfsComplete(edges, q, d, v, Add(lg, norm), Some(u), rest);
    }
  }

  /** A prefix of an acceptable length is acceptable. */
  lemma GrowWithin(lg: Num, extra: Num, d: int)
    requires Nonneg(lg) && Nonneg(extra) && WithinDilation(Add(lg, extra), d)
    ensures WithinDilation(lg, d)
  {
    AddNonnegGrows(lg, extra);
    ShrinkWithin(lg, Add(lg, extra), d);
  }

  /** Within the bound is closed downwards on nonnegative lengths. */
  lemma ShrinkWithin(s: Num, t: Num, d: int)
    requires Nonneg(s) && Nonneg(t) && LessEq(s, t) && WithinDilation(t, d)
    ensures WithinDilation(s, d)
  {
    SquareMonotoneNonneg(s, t);
    LessEqTransitive(Power(s, 2), Power(t, 2), Bound(d));
  }

  // ---------------------------------------------------------------------------
  // find_shortcut

  /**
   * What a step from u to v is known to cost: its own length over an
   * existing edge, and DIL times its length otherwise, since any two points
   * at distance at most sqrt5 are joined by a path of local dilation DIL.
   */
  function InferredNorm(edges: set<Edge>, u: Point, v: Point): Num
  {
    if (u, v) in edges then StepNorm(u, v) else Mul(StepNorm(u, v), DIL)
  }

  /** The inferred cost of a walk, step by step. */
  function Cost(edges: set<Edge>, w: seq<Point>): Num
    decreases |w|
  {
    if |w| <= 1 then ZERO else Add(InferredNorm(edges, w[0], w[1]), Cost(edges, w[1..]))
  }

  /** An inferred step has nonnegative parts summing to at least 1 and is never shorter than the step. */
  lemma InferredNormShape(edges: set<Edge>, u: Point, v: Point)
    ensures Nonneg(InferredNorm(edges, u, v))
    ensures InferredNorm(edges, u, v).a + InferredNorm(edges, u, v).b >= 1
    ensures LessEq(StepNorm(u, v), InferredNorm(edges, u, v))
  {
    var n := StepNorm(u, v);
    if (u, v) !in edges {
      assert Sub(Mul(n, DIL), n) == Num(2 * n.b, n.a);
    }
  }

  /** The inferred cost of a walk is nonnegative and bounds its length from above. */
  lemma {:induction false} CostAtLeastLength(edges: set<Edge>, w: seq<Point>)
    ensures Nonneg(Cost(edges, w))
    ensures LessEq(WalkLength(w), Cost(edges, w))
    decreases |w|
  {
    if |w| > 1 {
      CostAtLeastLength(edges, w[1..]);
      InferredNormShape(edges, w[0], w[1]);
      AddMonotone(StepNorm(w[0], w[1]), InferredNorm(edges, w[0], w[1]), WalkLength(w[1..]), Cost(edges, w[1..]));
    }
  }

  /** A branch that survives the pruning of find_shortcut has fewer unit parts than c allows. */
  lemma ShortcutBound(lg: Num, q: Point, u: Point, c: Num)
    requires Nonneg(lg) && !GreaterEq(Add(lg, ManhattanWithDiagonals(q, u)), c)
    ensures lg.a + lg.b < c.a + 2 * Abs(c.b)
  {
    var s := Add(lg, ManhattanWithDiagonals(q, u));
    ManhattanWithDiagonalsShape(q, u);
    LessTrichotomy(s, c);
    PartsBelowBound(s, c);
  }

  /**
   * The search of find_shortcut from u with inferred length lg: at q with
   * lg < c it returns [q]; it prunes once lg plus the bound reaches c; else
   * it tries the eight directions, pricing a step by InferredNorm. The child
   * is called with its own position as prev, so the test v != prev never
   * excludes a direction.
   */
  function Fs(edges: set<Edge>, q: Point, c: Num, u: Point, lg: Num, prev: Option<Point>): Option<seq<Point>>
    requires Nonneg(lg)
    decreases c.a + 2 * Abs(c.b) - (lg.a + lg.b), 1, 0
  {
    if u == q && Less(lg, c) then Some([q])
    else if GreaterEq(Add(lg, ManhattanWithDiagonals(q, u)), c) then None
    else
      ShortcutBound(lg, q, u, c);
      FsDirs(edges, q, c, u, lg, prev, 0)
  }

  /** The directions k .. 7 of the loop in Fs. */
  function FsDirs(edges: set<Edge>, q: Point, c: Num, u: Point, lg: Num, prev: Option<Point>, k: nat): Option<seq<Point>>
    requires Nonneg(lg) && lg.a + lg.b < c.a + 2 * Abs(c.b) && k <= 8
    decreases c.a + 2 * Abs(c.b) - (lg.a + lg.b), 0, 8 - k
  {
    if k == 8 then None
    else
      var v := Translate(u, DIRECTIONS[k].0);
      var norm := if (u, v) !in edges then Mul(DIRECTIONS[k].1, DIL) else DIRECTIONS[k].1;
      DirectionStep(u, k);
      InferredNormShape(edges, u, v);
      if prev != Some(v) then
        match Fs(edges, q, c, v, Add(lg, norm), Some(v))
        case Some(shortcut) => Some([u] + shortcut)
        case None => FsDirs(edges, q, c, u, lg, prev, k + 1)
      else FsDirs(edges, q, c, u, lg, prev, k + 1)
  }

  /** find_shortcut(p, q, c) over the edge set. */
  function FindShortcut(edges: set<Edge>, p: Point, q: Point, c: Num): Option<seq<Point>>
  {
    Fs(edges, q, c, p, ZERO, None)
  }

  /** A walk from u to q whose inferred cost, added to lg, stays below c. */
  ghost predicate Shortcut(edges: set<Edge>, q: Point, c: Num, u: Point, lg: Num, w: seq<Point>)
  {
    IsWalk(w) && w[0] == u && w[|w| - 1] == q && Less(Add(lg, Cost(edges, w)), c)
  }

  /**
   * find_shortcut returns a path exactly when some walk from p to q has an
   * inferred cost below c, and what it returns is such a walk.
   */
  lemma FindShortcutCorrect(edges: set<Edge>, p: Point, q: Point, c: Num)
    ensures FindShortcut(edges, p, q, c).Some? ==> Shortcut(edges, q, c, p, ZERO, FindShortcut(edges, p, q, c).value)
    ensures FindShortcut(edges, p, q, c).Some? <==> exists w :: Shortcut(edges, q, c, p, ZERO, w)
  {
    if FindShortcut(edges, p, q, c).Some? {
      FsSound(edges, q, c, p, ZERO, None);
    }
    if w :| Shortcut(edges, q, c, p, ZERO, w) {
      FsComplete(edges, q, c, p, ZERO, None, w);
    }
  }

  lemma {:induction false} FsSound(edges: set<Edge>, q: Point, c: Num, u: Point, lg: Num, prev: Option<Point>)
    requires Nonneg(lg) && Fs(edges, q, c, u, lg, prev).Some?
    ensures Shortcut(edges, q, c, u, lg, Fs(edges, q, c, u, lg, prev).value)
    decreases c.a + 2 * Abs(c.b) - (lg.a + lg.b), 1, 0
  {
    if u == q && Less(lg, c) {
      assert Add(lg, Cost(edges, [q])) == lg;
    } else {
      ShortcutBound(lg, q, u, c);
      FsDirsSound(edges, q, c, u, lg, prev, 0);
    }
  }

  lemma {:induction false} FsDirsSound(edges: set<Edge>, q: Point, c: Num, u: Point, lg: Num, prev: Option<Point>, k: nat)
    requires Nonneg(lg) && lg.a + lg.b < c.a + 2 * Abs(c.b) && k <= 8
    requires FsDirs(edges, q, c, u, lg, prev, k).Some?
    ensures Shortcut(edges, q, c, u, lg, FsDirs(edges, q, c, u, lg, prev, k).value)
    decreases c.a + 2 * Abs(c.b) - (lg.a + lg.b), 0, 8 - k
  {
    var v := Translate(u, DIRECTIONS[k].0);
    DirectionStep(u, k);
    InferredNormShape(edges, u, v);
    var norm := InferredNorm(edges, u, v);
    if prev != Some(v) && Fs(edges, q, c, v, Add(lg, norm), Some(v)).Some? {
      var rest := Fs(edges, q, c, v, Add(lg, norm), Some(v)).value;
      FsSound(edges, q, c, v, Add(lg, norm), Some(v));
      ConsShortcut(edges, q, c, u, lg, v, rest);
    } else {
      FsDirsSound(edges, q, c, u, lg, prev, k + 1);
    }
  }

  /** One step of the search in front of a shortcut found by the child. */
  lemma ConsShortcut(edges: set<Edge>, q: Point, c: Num, u: Point, lg: Num, v: Point, rest: seq<Point>)
    requires IsStep(u, v) && Shortcut(edges, q, c, v, Add(lg, InferredNorm(edges, u, v)), rest)
    ensures Shortcut(edges, q, c, u, lg, [u] + rest)
  {
    var w := [u] + rest;
    assert w[1..] == rest;
    ConsWalk(u, rest);
    assert Add(lg, Cost(edges, w)) == Add(Add(lg, InferredNorm(edges, u, v)), Cost(edges, rest));
  }

  /**
   * Completeness: from a point reached with prev absent or equal to the
   * point itself (as every call of the search is), any walk to q of inferred
   * cost below c makes the search succeed.
   */
  lemma {:induction false} FsComplete(edges: set<Edge>, q: Point, c: Num, u: Point, lg: Num, prev: Option<Point>, w: seq<Point>)
    requires Nonneg(lg) && (prev == None || prev == Some(u)) && Shortcut(edges, q, c, u, lg, w)
    ensures Fs(edges, q, c, u, lg, prev).Some?
    decreases |w|, 9
  {
    var total := Add(lg, Cost(edges, w));
    CostAtLeastLength(edges, w);
    AddNonnegGrows(lg, Cost(edges, w));
    LessLessEqTransitive(lg, total, c);
    if u != q {
      var s := Add(lg, ManhattanWithDiagonals(q, u));
      WalkLengthAtLeastBound(w);
      ManhattanWithDiagonalsShape(u, q);
      LessEqTransitive(ManhattanWithDiagonals(q, u), WalkLength(w), Cost(edges, w));
      LessEqAddLeft(lg, ManhattanWithDiagonals(q, u), Cost(edges, w));
      LessLessEqTransitive(s, total, c);
      LessTrichotomy(s, c);
      ShortcutBound(lg, q, u, c);
      TailWalk(w);
      var k := StepIsDirection(u, w[1]);
      FsDirsComplete(edges, q, c, u, lg, prev, 0, k, w);
    }
  }

  lemma {:induction false} FsDirsComplete(edges: set<Edge>, q: Point, c: Num, u: Point, lg: Num, prev: Option<Point>,
                                          k: nat, target: nat, w: seq<Point>)
    requires Nonneg(lg) && lg.a + lg.b < c.a + 2 * Abs(c.b) && k <= target < 8
    requires (prev == None || prev == Some(u)) && Shortcut(edges, q, c, u, lg, w) && |w| >= 2
    requires w[1] == Translate(u, DIRECTIONS[target].0)
    ensures FsDirs(edges, q, c, u, lg, prev, k).Some?
    decreases |w|, 8 - k
  {
    var v := Translate(u, DIRECTIONS[k].0);
    DirectionStep(u, k);
    InferredNormShape(edges, u, v);
    var norm := InferredNorm(edges, u, v);
    if k == target {
      var rest := w[1..];
      TailWalk(w);
      assert Add(Add(lg, norm), Cost(edges, rest)) == Add(lg, Cost(edges, w));
      FsComplete(edges, q, c, v, Add(lg, norm), Some(v), rest);
    } else if Fs(edges, q, c, v, Add(lg, norm), Some(v)).None? {
      FsDirsComplete(edges, q, c, u, lg, prev, k + 1, target, w);
    }
  }
}

/**
 * Forbidden patterns: the configurations of the lemmas already proved,
 * taken under the eight symmetries of the square lattice, and their
 * detection, up to translation, in the current edge set.
 *
 * The numpy rotation and flip matrices are explicit integer 2x2 matrices.
 */
module Patterns {
  import opened Geometry
  import opened Wrappers
  import opened ProofState

  /** The integer matrix (a b; c d), acting on column vectors. */
  datatype Matrix = Matrix(a: int, b: int, c: int, d: int)

  /** mat.dot(p). */
  function Apply(m: Matrix, p: Point): Point
  {
    Point(m.a * p.x + m.b * p.y, m.c * p.x + m.d * p.y)
  }

  /**
   * all_transfo, written out: the rotations R^0 .. R^3 by a quarter turn
   * counter-clockwise, then R^0 F .. R^3 F with F the reflection x -> -x.
   */
  function AllTransforms(): (ts: seq<Matrix>)
    ensures |ts| == 8
  {
    [Matrix(1, 0, 0, 1), Matrix(0, -1, 1, 0), Matrix(-1, 0, 0, -1), Matrix(0, 1, -1, 0),
     Matrix(-1, 0, 0, 1), Matrix(0, -1, -1, 0), Matrix(1, 0, 0, -1), Matrix(0, 1, 1, 0)]
  }

  /**
   * The list is the one numpy builds: the first transform is the identity,
   * each rotation is the previous one followed by the quarter turn R, and
   * the last four are the rotations applied after F.
   */
  lemma TransformsArePowersOfRotation(p: Point)
    ensures Apply(AllTransforms()[0], p) == p
    ensures forall i :: 0 <= i < 3 ==> Apply(AllTransforms()[i + 1], p) == Apply(Matrix(0, -1, 1, 0), Apply(AllTransforms()[i], p))
    ensures forall i :: 0 <= i < 4 ==> Apply(AllTransforms()[4 + i], p) == Apply(AllTransforms()[i], Apply(Matrix(-1, 0, 0, 1), p))
  {
  }

  /** A symmetry of the square lattice: a signed permutation matrix. */
  predicate IsSquareSymmetry(m: Matrix)
  {
    (m.b == 0 && m.c == 0 && (m.a == 1 || m.a == -1) && (m.d == 1 || m.d == -1)) ||
    (m.a == 0 && m.d == 0 && (m.b == 1 || m.b == -1) && (m.c == 1 || m.c == -1))
  }

  /** The transforms are the eight symmetries of the square, each once. */
  lemma TransformsAreTheSquareSymmetries()
    ensures forall i :: 0 <= i < 8 ==> IsSquareSymmetry(AllTransforms()[i])
    ensures forall m :: IsSquareSymmetry(m) ==> m in AllTransforms()
    ensures forall i, j :: 0 <= i < j < 8 ==> AllTransforms()[i] != AllTransforms()[j]
  {
  }

  /** A symmetry of the square keeps squared distances, so a transformed pattern keeps its shape. */
  lemma SymmetryIsometry(m: Matrix, p: Point, q: Point)
    requires IsSquareSymmetry(m)
    ensures DistSquared(Apply(m, p), Apply(m, q)) == DistSquared(p, q)
  {
    var u, v := Apply(m, p), Apply(m, q);
    if m.b == 0 {
      SignedDifference(m.a, p.x, q.x);
      SignedDifference(m.d, p.y, q.y);
      assert u.x - v.x == m.a * (p.x - q.x) && u.y - v.y == m.d * (p.y - q.y);
    } else {
      SignedDifference(m.b, p.y, q.y);
      SignedDifference(m.c, p.x, q.x);
      assert u.x - v.x == m.b * (p.y - q.y) && u.y - v.y == m.c * (p.x - q.x);
    }
  }

  lemma SignedDifference(s: int, x: int, y: int)
    requires s == 1 || s == -1
    ensures s * x + 0 - (s * y + 0) == s * (x - y)
    ensures (s * (x - y)) * (s * (x - y)) == (x - y) * (x - y)
  {
    if s == 1 {
    } else {
      assert s * (x - y) == y - x;
    }
  }

  // ---------------------------------------------------------------------------
  // initialize_patterns

  function TransformEdge(m: Matrix, e: Edge): Edge { (Apply(m, e.0), Apply(m, e.1)) }

  function TransformPattern(m: Matrix, pattern: seq<Edge>): seq<Edge>
  {
    seq(|pattern|, i requires 0 <= i < |pattern| => TransformEdge(m, pattern[i]))
  }

  /** The first count entries of the list of images: image n is base n / 8 under transform n % 8. */
  function ImagesPrefix(initial: seq<seq<Edge>>, count: nat): seq<seq<Edge>>
    requires count <= 8 * |initial|
  {
    seq(count, n requires 0 <= n < count => TransformPattern(AllTransforms()[n % 8], initial[n / 8]))
  }

  function Images(initial: seq<seq<Edge>>): seq<seq<Edge>>
  {
    ImagesPrefix(initial, 8 * |initial|)
  }

  /**
   * initialize_patterns: the list of patterns becomes, base pattern by
   * base pattern, its images under the eight transforms.
   */
  method InitializePatterns(st: State, initial: seq<seq<Edge>>)
    modifies st`patterns
    ensures st.patterns == Images(initial)
  {
    var transforms := AllTransforms();
    st.patterns := [];
    for i := 0 to |initial|
      invariant st.patterns == ImagesPrefix(initial, 8 * i)
    {
      for j := 0 to 8
        invariant st.patterns == ImagesPrefix(initial, 8 * i + j)
      {
        var transformed := [];
        for k := 0 to |initial[i]|
          invariant transformed == TransformPattern(transforms[j], initial[i][..k])
        {
          transformed := transformed + [TransformEdge(transforms[j], initial[i][k])];
        }
        assert initial[i][..|initial[i]|] == initial[i];
        ImagesPrefixStep(initial, i, j);
        st.patterns := st.patterns + [transformed];
      }
    }
  }

  lemma ImagesPrefixStep(initial: seq<seq<Edge>>, i: nat, j: nat)
    requires i < |initial| && j < 8
    ensures ImagesPrefix(initial, 8 * i + j + 1) ==
      ImagesPrefix(initial, 8 * i + j) + [TransformPattern(AllTransforms()[j], initial[i])]
  {
    var n := 8 * i + j;
    assert n / 8 == i && n % 8 == j;
  }

  /**
   * Eight images per base pattern, each with the base's edge count, the
   * first being the base itself.
   */
  lemma ImagesShape(initial: seq<seq<Edge>>)
    ensures |Images(initial)| == 8 * |initial|
    ensures forall i, j :: 0 <= i < |initial| && 0 <= j < 8 ==>
      Images(initial)[8 * i + j] == TransformPattern(AllTransforms()[j], initial[i]) &&
      |Images(initial)[8 * i + j]| == |initial[i]|
    ensures forall i :: 0 <= i < |initial| ==> Images(initial)[8 * i] == initial[i]
  {
    forall i, j | 0 <= i < |initial| && 0 <= j < 8
      ensures Images(initial)[8 * i + j] == TransformPattern(AllTransforms()[j], initial[i])
    {
      var n := 8 * i + j;
      assert n / 8 == i && n % 8 == j;
    }
    forall i | 0 <= i < |initial| ensures Images(initial)[8 * i] == initial[i] {
      assert Images(initial)[8 * i + 0] == TransformPattern(AllTransforms()[0], initial[i]);
      IdentityPattern(initial[i]);
    }
  }

  lemma IdentityPattern(pattern: seq<Edge>)
    ensures TransformPattern(AllTransforms()[0], pattern) == pattern
  {
    forall i | 0 <= i < |pattern| ensures TransformEdge(AllTransforms()[0], pattern[i]) == pattern[i] {
      TransformsArePowersOfRotation(pattern[i].0);
      TransformsArePowersOfRotation(pattern[i].1);
    }
  }

  // ---------------------------------------------------------------------------
  // detect_pattern and pattern_created_by_recent_add

  /** The endpoints of the edges of a pattern. */
  function PatternPoints(pattern: seq<Edge>): set<Point>
  {
    (set e | e in pattern :: e.0) + (set e | e in pattern :: e.1)
  }

  function TranslateEdge(e: Edge, v: Point): Edge { (Translate(e.0, v), Translate(e.1, v)) }

  function TranslatePattern(pattern: seq<Edge>, v: Point): seq<Edge>
  {
    seq(|pattern|, i requires 0 <= i < |pattern| => TranslateEdge(pattern[i], v))
  }

  /** The pattern, translated by v, lies in the edge set. */
  predicate PresentAt(edges: set<Edge>, pattern: seq<Edge>, v: Point)
  {
    forall i :: 0 <= i < |pattern| ==> TranslateEdge(pattern[i], v) in edges
  }

  /** Some point of the pattern can be placed on p so that the pattern lies in the edge set. */
  ghost predicate Detectable(edges: set<Edge>, pattern: seq<Edge>, p: Point)
  {
    exists x :: x in PatternPoints(pattern) && PresentAt(edges, pattern, Vec(x, p))
  }

  /** The loop collecting the points of a pattern. */
  method PointsOfPattern(pattern: seq<Edge>) returns (pts: set<Point>)
    ensures pts == PatternPoints(pattern)
  {
    pts := {};
    for i := 0 to |pattern|
      invariant pts == PatternPoints(pattern[..i])
    {
      pts := pts + {pattern[i].0, pattern[i].1};
      assert pattern[..i + 1] == pattern[..i] + [pattern[i]];
    }
    assert pattern[..|pattern|] == pattern;
  }

  /** The inner loop of detect_pattern: does every translated edge exist? */
  method IsPresentAt(st: State, pattern: seq<Edge>, v: Point) returns (ok: bool)
    ensures ok == PresentAt(st.edges, pattern, v)
  {
    for i := 0 to |pattern|
      invariant forall k :: 0 <= k < i ==> TranslateEdge(pattern[k], v) in st.edges
    {
      var (a, b) := pattern[i];
      if (Translate(a, v), Translate(b, v)) !in st.edges {
        return false;
      }
    }
    return true;
  }

  /**
   * detect_pattern: a point of the pattern that, placed on p, makes the
   * whole pattern present; none exactly when no point does. The points are
   * tried in an unspecified order.
   */
  method DetectPattern(st: State, p: Point, pattern: seq<Edge>) returns (r: Option<Point>)
    ensures r.Some? ==> r.value in PatternPoints(pattern) && PresentAt(st.edges, pattern, Vec(r.value, p))
    ensures r.None? <==> !Detectable(st.edges, pattern, p)
  {
    var pointsOfPattern := PointsOfPattern(pattern);
    var rest := pointsOfPattern;
    while rest != {}
      invariant rest <= pointsOfPattern
      invariant forall x :: x in pointsOfPattern - rest ==> !PresentAt(st.edges, pattern, Vec(x, p))
      decreases |rest|
    {
      var x :| x in rest;
      var v := Vec(x, p);
      var curOk := IsPresentAt(st, pattern, v);
      if curOk {
        return Some(x);
      }
      rest := rest - {x};
    }
    return None;
  }

  /** The loop building the translated copy of a pattern. */
  method TranslatedCopy(pattern: seq<Edge>, v: Point) returns (copy: seq<Edge>)
    ensures copy == TranslatePattern(pattern, v)
  {
    copy := [];
    for i := 0 to |pattern|
      invariant copy == TranslatePattern(pattern[..i], v)
    {
      var (a, b) := pattern[i];
      copy := copy + [(Translate(a, v), Translate(b, v))];
    }
    assert pattern[..|pattern|] == pattern;
  }

  /** copy is the pattern placed with one of its points on p, and it lies in the edge set. */
  ghost predicate Occurrence(edges: set<Edge>, pattern: seq<Edge>, p: Point, copy: seq<Edge>)
  {
    exists x :: x in PatternPoints(pattern) && PresentAt(edges, pattern, Vec(x, p)) &&
      copy == TranslatePattern(pattern, Vec(x, p))
  }

  /**
   * pattern_created_by_recent_add: a copy of one of the patterns, found
   * through a recent point; none exactly when no pattern can be placed on
   * any recent point. Recent points are tried in an unspecified order.
   */
  method PatternCreatedByRecentAdd(st: State, recentPoints: set<Point>) returns (r: Option<seq<Edge>>)
    ensures r.Some? ==>
      (exists p, j :: p in recentPoints && 0 <= j < |st.patterns| && Occurrence(st.edges, st.patterns[j], p, r.value))
    ensures r.None? <==> forall p :: p in recentPoints ==> NoneDetectable(st.edges, st.patterns, p)
  {
    var rest, done := recentPoints, {};
    while rest != {}
      invariant rest == recentPoints - done && done <= recentPoints
      invariant forall p :: p in done ==> NoneDetectable(st.edges, st.patterns, p)
      decreases |rest|
    {
      var p :| p in rest;
      r := PatternAt(st, p);
      if r.Some? {
        return r;
      }
      rest, done := rest - {p}, done + {p};
    }
    return None;
  }

  /** The first pattern of the list that can be placed on p, as the copy found in the graph. */
  method PatternAt(st: State, p: Point) returns (r: Option<seq<Edge>>)
    ensures r.Some? ==> exists j :: 0 <= j < |st.patterns| && Occurrence(st.edges, st.patterns[j], p, r.value) &&
                                    forall k :: 0 <= k < j ==> !Detectable(st.edges, st.patterns[k], p)
    ensures r.None? <==> NoneDetectable(st.edges, st.patterns, p)
  {
    for j := 0 to |st.patterns|
      invariant forall k :: 0 <= k < j ==> !Detectable(st.edges, st.patterns[k], p)
    {
      var attachingPoint := DetectPattern(st, p, st.patterns[j]);
      if attachingPoint.Some? {
        var copy := TranslatedCopy(st.patterns[j], Vec(attachingPoint.value, p));
        assert Occurrence(st.edges, st.patterns[j], p, copy);
        return Some(copy);
      }
    }
    return None;
  }

  /** No pattern of the list can be placed on p. */
  ghost predicate NoneDetectable(edges: set<Edge>, patterns: seq<seq<Edge>>, p: Point)
  {
    forall j :: 0 <= j < |patterns| ==> !Detectable(edges, patterns[j], p)
  }

  /**
   * A copy found by detection lies in the edge set, has the pattern's edge
   * count and passes through the point it was found at.
   */
  lemma OccurrenceShape(edges: set<Edge>, pattern: seq<Edge>, p: Point, copy: seq<Edge>)
    requires Occurrence(edges, pattern, p, copy)
    ensures |copy| == |pattern| && forall e :: e in copy ==> e in edges
    ensures |pattern| > 0 ==> p in PatternPoints(copy)
  {
    var x :| x in PatternPoints(pattern) && PresentAt(edges, pattern, Vec(x, p)) &&
      copy == TranslatePattern(pattern, Vec(x, p));
    var v := Vec(x, p);
    if |pattern| > 0 {
      var i :| 0 <= i < |pattern| && (pattern[i].0 == x || pattern[i].1 == x);
      assert copy[i] == TranslateEdge(pattern[i], v);
      assert Translate(x, v) == p;
    }
  }
}

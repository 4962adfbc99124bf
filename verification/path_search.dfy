/**
 * find_paths: the enumeration of the paths from p to q that could still be
 * added to the graph. The search is a recursive method that appends to a
 * shared list and may stop early at a limit; it is proved equal to a cap of
 * the listing Found, and Found is characterised exactly: it lists, each
 * once, the candidate paths none of whose proper prefixes is a candidate
 * ending at q.
 */
module PathSearch {
  import opened ExactNumber
  import opened Geometry
  import opened GraphState
  import opened ProofState
  import opened Traversal

  /** max_nb_paths: no limit (infinity), or a count at which the search stops. */
  datatype Limit = Unbounded | AtMost(n: nat)

  /** With count paths found the search goes on (a limit of 0 is never reached). */
  predicate Open(limit: Limit, count: nat)
  {
    !(limit.AtMost? && limit.n > 0 && count >= limit.n)
  }

  /** The first limit.n elements once the limit is reached, all of them otherwise. */
  function Cap(limit: Limit, s: seq<seq<Point>>): seq<seq<Point>>
  {
    if Open(limit, |s|) then s else s[..limit.n]
  }

  /** The search may step from u to v: it does not go back, and the pair is not forbidden. */
  predicate Allowed(g: Graph, path: seq<Point>, u: Point, v: Point)
    requires |path| >= 1
  {
    (|path| == 1 || v != path[|path| - 2]) && (u, v) !in g.forbidden
  }

  /**
   * Everything the unlimited search appends, in order, from u reached by
   * path with length lg: the path itself when it ends at q, is short enough
   * and may be added (and then nothing beyond it); nothing when pruned;
   * otherwise the findings of the allowed directions in order.
   */
  function Found(g: Graph, q: Point, d: nat, u: Point, lg: Num, path: seq<Point>): seq<seq<Point>>
    requires Nonneg(lg) && |path| >= 1
    decreases 6 * d - (lg.a + lg.b), 1, 0
  {
    if u == q && WithinDilation(lg, d) && CanAddPathSpec(g, path) then [path]
    else if TooLong(Add(lg, ManhattanWithDiagonals(q, u)), d) then []
    else
      KeptBound(lg, q, u, d);
      FoundDirs(g, q, d, u, lg, path, 0)
  }

  /** The directions k .. 7 of the loop in Found. */
  function FoundDirs(g: Graph, q: Point, d: nat, u: Point, lg: Num, path: seq<Point>, k: nat): seq<seq<Point>>
    requires Nonneg(lg) && lg.a + lg.b <= 6 * d && |path| >= 1 && k <= 8
    decreases 6 * d - (lg.a + lg.b), 0, 8 - k
  {
    if k == 8 then []
    else
      var v := Translate(u, DIRECTIONS[k].0);
      DirectionNorm(k);
      (if Allowed(g, path, u, v) then Found(g, q, d, v, Add(lg, DIRECTIONS[k].1), path + [v]) else [])
      + FoundDirs(g, q, d, u, lg, path, k + 1)
  }

  /** What the step in direction k contributes to FoundDirs. */
  function Child(g: Graph, q: Point, d: nat, u: Point, lg: Num, path: seq<Point>, k: nat): seq<seq<Point>>
    requires Nonneg(lg) && lg.a + lg.b <= 6 * d && |path| >= 1 && k < 8
  {
    var v := Translate(u, DIRECTIONS[k].0);
    DirectionNorm(k);
    if Allowed(g, path, u, v) then Found(g, q, d, v, Add(lg, DIRECTIONS[k].1), path + [v]) else []
  }

  /** All the paths find_paths(p, q) lists when nothing stops it. */
  function AllPaths(g: Graph, p: Point, q: Point): seq<seq<Point>>
  {
    DistSquaredNonneg(p, q);
    Found(g, q, DistSquared(p, q), p, ZERO, [p])
  }

  /**
   * find_paths(p, q, max_nb_paths): the paths of AllPaths up to the limit,
   * each a candidate, and at most the limit of them.
   */
  method FindPaths(st: State, p: Point, q: Point, limit: Limit) returns (paths: seq<seq<Point>>)
    ensures paths == Cap(limit, AllPaths(st.Snapshot(), p, q))
    ensures limit.AtMost? && limit.n > 0 ==> |paths| <= limit.n
    ensures forall r :: r in paths ==> Candidate(st.Snapshot(), p, q, r)
  {
    DistSquaredNonneg(p, q);
    var stop;
    paths, stop := Search(st, q, DistSquared(p, q), limit, p, ZERO, [p], []);
    assert [] + AllPaths(st.Snapshot(), p, q) == AllPaths(st.Snapshot(), p, q);
    CapCandidates(st.Snapshot(), p, q, limit);
    CapBound(limit, AllPaths(st.Snapshot(), p, q));
  }

  /**
   * The inner DFS of find_paths: appends to acc what it finds from u, and
   * reports whether the limit was reached.
   */
  method Search(st: State, q: Point, d: nat, limit: Limit, u: Point, lg: Num, path: seq<Point>, acc: seq<seq<Point>>)
    returns (paths: seq<seq<Point>>, stop: bool)
    requires Nonneg(lg) && |path| >= 1 && Open(limit, |acc|)
    ensures paths == Cap(limit, acc + Found(st.Snapshot(), q, d, u, lg, path))
    ensures stop <==> !Open(limit, |acc + Found(st.Snapshot(), q, d, u, lg, path)|)
    decreases 6 * d - (lg.a + lg.b), 1, 0
  {
    FoundUnfold(st.Snapshot(), q, d, u, lg, path);
    if u == q && WithinDilation(lg, d) {
      var ok := st.CanAddPath(path);
      if ok {
        paths := acc + [path];
        CapAppend(limit, acc, path);
        return paths, limit.AtMost? && |paths| == limit.n;
      }
    }
    if TooLong(Add(lg, ManhattanWithDiagonals(q, u)), d) {
      CapOpen(limit, acc, []);
      return acc, false;
    }
    paths, stop := SearchDirections(st, q, d, limit, u, lg, path, acc);
  }

  /** The loop over the eight directions in the inner DFS of find_paths. */
  method SearchDirections(st: State, q: Point, d: nat, limit: Limit, u: Point, lg: Num, path: seq<Point>, acc: seq<seq<Point>>)
    returns (paths: seq<seq<Point>>, stop: bool)
    requires Nonneg(lg) && lg.a + lg.b <= 6 * d && |path| >= 1 && Open(limit, |acc|)
    ensures paths == Cap(limit, acc + FoundDirs(st.Snapshot(), q, d, u, lg, path, 0))
    ensures stop <==> !Open(limit, |acc + FoundDirs(st.Snapshot(), q, d, u, lg, path, 0)|)
    decreases 6 * d - (lg.a + lg.b), 0, 1
  {
    ghost var g := st.Snapshot();
    paths := acc;
    for k := 0 to 8
      invariant acc + FoundDirs(g, q, d, u, lg, path, 0) == paths + FoundDirs(g, q, d, u, lg, path, k)
      invariant Open(limit, |paths|)
    {
      FoundDirsSplit(g, q, d, u, lg, path, k);
      ghost var before := paths;
      ghost var child := Child(g, q, d, u, lg, path, k);
      ghost var rest := FoundDirs(g, q, d, u, lg, path, k + 1);
      Regroup(acc + FoundDirs(g, q, d, u, lg, path, 0), before, child, rest);
      var childStop;
      paths, childStop := SearchDirection(st, q, d, limit, u, lg, path, k, paths);
      if childStop {
        CapExtend(limit, before + child, rest);
        return paths, true;
      }
      CapOpen(limit, before, child);
    }
    CapOpen(limit, paths, []);
    stop := false;
  }

  /** One turn of the direction loop: the step in direction k, when allowed, and the search beyond it. */
  method SearchDirection(st: State, q: Point, d: nat, limit: Limit, u: Point, lg: Num, path: seq<Point>, k: nat, acc: seq<seq<Point>>)
    returns (paths: seq<seq<Point>>, stop: bool)
    requires Nonneg(lg) && lg.a + lg.b <= 6 * d && |path| >= 1 && k < 8 && Open(limit, |acc|)
    ensures paths == Cap(limit, acc + Child(st.Snapshot(), q, d, u, lg, path, k))
    ensures stop <==> !Open(limit, |acc + Child(st.Snapshot(), q, d, u, lg, path, k)|)
    decreases 6 * d - (lg.a + lg.b), 0, 0
  {
    var v := Translate(u, DIRECTIONS[k].0);
    var norm := DIRECTIONS[k].1;
    DirectionNorm(k);
    if (|path| == 1 || v != path[|path| - 2]) && (u, v) !in st.forbidden {
      paths, stop := Search(st, q, d, limit, v, Add(lg, norm), path + [v], acc);
    } else {
      CapOpen(limit, acc, []);
      paths, stop := acc, false;
    }
  }

  /** Appending one path while the search is open: nothing is cut, and the search stops exactly at the limit. */
  lemma CapAppend(limit: Limit, acc: seq<seq<Point>>, path: seq<Point>)
    requires Open(limit, |acc|)
    ensures Cap(limit, acc + [path]) == acc + [path]
    ensures !Open(limit, |acc + [path]|) <==> limit.AtMost? && |acc + [path]| == limit.n
  {
  }

  /** While the search stays open nothing is cut. */
  lemma CapOpen(limit: Limit, s: seq<seq<Point>>, t: seq<seq<Point>>)
    requires Open(limit, |s + t|)
    ensures Cap(limit, s + t) == s + t
    ensures t == [] ==> s + t == s
  {
  }

  /** Moving one block of the listing across the accumulator. */
  lemma Regroup(whole: seq<seq<Point>>, before: seq<seq<Point>>, child: seq<seq<Point>>, rest: seq<seq<Point>>)
    requires whole == before + (child + rest)
    ensures whole == (before + child) + rest
  {
  }

  /** Every path of a cap of the listing is a candidate, and the cap respects the limit. */
  lemma CapCandidates(g: Graph, p: Point, q: Point, limit: Limit)
    ensures forall r :: r in Cap(limit, AllPaths(g, p, q)) ==> Candidate(g, p, q, r)
  {
    forall r | r in Cap(limit, AllPaths(g, p, q)) ensures Candidate(g, p, q, r) {
      CapSubset(limit, AllPaths(g, p, q), r);
      AllPathsSound(g, p, q, r);
    }
  }

  /** A reached limit bounds the count. */
  lemma CapBound(limit: Limit, s: seq<seq<Point>>)
    ensures limit.AtMost? && limit.n > 0 ==> |Cap(limit, s)| <= limit.n
  {
  }

  /** A cap keeps only elements of the listing. */
  lemma CapSubset(limit: Limit, s: seq<seq<Point>>, r: seq<Point>)
    requires r in Cap(limit, s)
    ensures r in s
  {
    if !Open(limit, |s|) {
      var i :| 0 <= i < limit.n && s[..limit.n][i] == r;
      assert s[i] == r;
    }
  }

  /** Once the limit is reached, what follows does not change the cap. */
  lemma CapExtend(limit: Limit, s: seq<seq<Point>>, t: seq<seq<Point>>)
    requires !Open(limit, |s|)
    ensures Cap(limit, s + t) == Cap(limit, s) && !Open(limit, |s + t|)
  {
    assert (s + t)[..limit.n] == s[..limit.n];
  }

  // ---------------------------------------------------------------------------
  // What Found lists

  /** No pair of a walk is forbidden. */
  ghost predicate NoForbiddenStep(g: Graph, w: seq<Point>)
  {
    forall i :: 0 <= i < |w| - 1 ==> (w[i], w[i + 1]) !in g.forbidden
  }

  /**
   * A path find_paths may return: a walk of king moves from p to q that
   * never goes straight back, has length at most DIL |pq| and can be added.
   */
  ghost predicate Candidate(g: Graph, p: Point, q: Point, r: seq<Point>)
  {
    IsWalk(r) && r[0] == p && r[|r| - 1] == q && NonBacktracking(r) &&
    WithinDilation(WalkLength(r), DistSquared(p, q)) && CanAddPathSpec(g, r)
  }

  /** The prefix r[..i + 1] is itself accepted: it ends at q, is short enough and can be added. */
  ghost predicate AcceptedPrefix(g: Graph, q: Point, d: int, r: seq<Point>, i: int)
    requires 0 <= i < |r|
  {
    r[i] == q && WithinDilation(WalkLength(r[..i + 1]), d) && CanAddPathSpec(g, r[..i + 1])
  }

  /** No proper prefix of r is accepted, so the search reaches r. */
  ghost predicate Minimal(g: Graph, q: Point, d: int, r: seq<Point>)
  {
    forall i :: 0 <= i < |r| - 1 ==> !AcceptedPrefix(g, q, d, r, i)
  }

  /** Each element listed once. */
  ghost predicate Distinct(s: seq<seq<Point>>)
  {
    forall i, j :: 0 <= i < j < |s| ==> s[i] != s[j]
  }

  /**
   * Without a limit, find_paths lists each path once, and lists exactly the
   * candidates with no accepted proper prefix.
   */
  lemma AllPathsCharacterised(g: Graph, p: Point, q: Point)
    ensures Distinct(AllPaths(g, p, q))
    ensures forall r :: r in AllPaths(g, p, q) <==> Candidate(g, p, q, r) && Minimal(g, q, DistSquared(p, q), r)
  {
    DistSquaredNonneg(p, q);
    FoundDistinct(g, q, DistSquared(p, q), p, ZERO, [p]);
    forall r | r in AllPaths(g, p, q) ensures Candidate(g, p, q, r) && Minimal(g, q, DistSquared(p, q), r) {
      AllPathsSound(g, p, q, r);
    }
    forall r | Candidate(g, p, q, r) && Minimal(g, q, DistSquared(p, q), r) ensures r in AllPaths(g, p, q) {
      AllPathsComplete(g, p, q, r);
    }
  }

  /** The search starts from the one-point trail [p]. */
  lemma StartTrail(g: Graph, q: Point, d: int, p: Point)
    ensures Trail(g, q, d, p, ZERO, [p])
  {
    assert WalkLength([p]) == ZERO;
  }

  lemma AllPathsSound(g: Graph, p: Point, q: Point, r: seq<Point>)
    requires r in AllPaths(g, p, q)
    ensures Candidate(g, p, q, r) && Minimal(g, q, DistSquared(p, q), r)
  {
    DistSquaredNonneg(p, q);
    var d: nat := DistSquared(p, q);
    StartTrail(g, q, d, p);
    FoundSound(g, q, d, p, ZERO, [p], r);
    FoundExtends(g, q, d, p, ZERO, [p], r);
    StartSlices(r);
  }

  lemma AllPathsComplete(g: Graph, p: Point, q: Point, r: seq<Point>)
    requires Candidate(g, p, q, r) && Minimal(g, q, DistSquared(p, q), r)
    ensures r in AllPaths(g, p, q)
  {
    DistSquaredNonneg(p, q);
    var d: nat := DistSquared(p, q);
    StartTrail(g, q, d, p);
    StartSlices(r);
    AddZeroLeft(WalkLength(r));
    FoundComplete(g, q, d, p, ZERO, [p], r);
  }

  /** The shortest accepted prefix of a candidate is a candidate with no accepted proper prefix. */
  lemma ShortestAcceptedPrefix(g: Graph, p: Point, q: Point, r: seq<Point>) returns (s: seq<Point>)
    requires Candidate(g, p, q, r)
    ensures Candidate(g, p, q, s) && Minimal(g, q, DistSquared(p, q), s)
  {
    var i := FirstAccepted(g, q, DistSquared(p, q), r);
    s := r[..i + 1];
    PrefixCandidate(g, p, q, r, i);
  }

  /** A candidate is accepted at its last point, so some point is accepted first. */
  lemma FirstAccepted(g: Graph, q: Point, d: int, r: seq<Point>) returns (i: nat)
    requires |r| >= 1 && r[|r| - 1] == q && WithinDilation(WalkLength(r), d) && CanAddPathSpec(g, r)
    ensures i < |r| && AcceptedPrefix(g, q, d, r, i)
    ensures forall j :: 0 <= j < i ==> !AcceptedPrefix(g, q, d, r, j)
  {
    LastAccepted(g, q, d, r);
    i := 0;
    while !AcceptedPrefix(g, q, d, r, i)
      invariant i <= |r| - 1
      invariant forall j :: 0 <= j < i ==> !AcceptedPrefix(g, q, d, r, j)
      decreases |r| - i
    {
      assert i != |r| - 1;
      i := i + 1;
    }
  }

  lemma LastAccepted(g: Graph, q: Point, d: int, r: seq<Point>)
    requires |r| >= 1 && r[|r| - 1] == q && WithinDilation(WalkLength(r), d) && CanAddPathSpec(g, r)
    ensures AcceptedPrefix(g, q, d, r, |r| - 1)
  {
    var s := r[..(|r| - 1) + 1];
    assert s == r;
    assert CanAddPathSpec(g, s) && WithinDilation(WalkLength(s), d);
  }

  /** The prefix up to the first accepted point is a candidate with no accepted proper prefix. */
  lemma PrefixCandidate(g: Graph, p: Point, q: Point, r: seq<Point>, i: nat)
    requires Candidate(g, p, q, r) && i < |r| && AcceptedPrefix(g, q, DistSquared(p, q), r, i)
    requires forall j :: 0 <= j < i ==> !AcceptedPrefix(g, q, DistSquared(p, q), r, j)
    ensures Candidate(g, p, q, r[..i + 1]) && Minimal(g, q, DistSquared(p, q), r[..i + 1])
  {
    PrefixIsCandidate(g, p, q, r, i);
    PrefixMinimal(g, q, DistSquared(p, q), r, i);
  }

  lemma PrefixIsCandidate(g: Graph, p: Point, q: Point, r: seq<Point>, i: nat)
    requires Candidate(g, p, q, r) && i < |r| && AcceptedPrefix(g, q, DistSquared(p, q), r, i)
    ensures Candidate(g, p, q, r[..i + 1])
  {
    var s := r[..i + 1];
    PrefixWalk(r, i + 1);
    assert s[0] == p && s[|s| - 1] == q;
    assert WithinDilation(WalkLength(s), DistSquared(p, q)) && CanAddPathSpec(g, s);
  }

  lemma PrefixMinimal(g: Graph, q: Point, d: int, r: seq<Point>, i: nat)
    requires i < |r|
    requires forall j :: 0 <= j < i ==> !AcceptedPrefix(g, q, d, r, j)
    ensures Minimal(g, q, d, r[..i + 1])
  {
    var s := r[..i + 1];
    forall j | 0 <= j < |s| - 1 ensures !AcceptedPrefix(g, q, d, s, j) {
      assert s[..j + 1] == r[..j + 1];
      SamePrefixAccepted(g, q, d, r, s, j);
    }
  }

  lemma SamePrefixAccepted(g: Graph, q: Point, d: int, r: seq<Point>, s: seq<Point>, j: nat)
    requires j < |r| && j < |s| && s[..j + 1] == r[..j + 1]
    ensures AcceptedPrefix(g, q, d, s, j) == AcceptedPrefix(g, q, d, r, j)
  {
    assert s[j] == s[..j + 1][j] == r[..j + 1][j] == r[j];
  }

  /** A prefix of a walk that never goes straight back is such a walk. */
  lemma PrefixWalk(w: seq<Point>, n: nat)
    requires IsWalk(w) && NonBacktracking(w) && 1 <= n <= |w|
    ensures IsWalk(w[..n]) && NonBacktracking(w[..n])
  {
    var s := w[..n];
    forall i | 0 <= i < |s| - 1 ensures StepAt(s, i) {
      assert StepAt(w, i);
    }
  }

  /** When find_paths lists nothing, no path at all can be added between p and q within the bound. */
  lemma NothingListed(g: Graph, p: Point, q: Point)
    requires AllPaths(g, p, q) == []
    ensures forall r :: !Candidate(g, p, q, r)
  {
    forall r | Candidate(g, p, q, r) ensures false {
      var s := ShortestAcceptedPrefix(g, p, q, r);
      AllPathsComplete(g, p, q, s);
    }
  }

  lemma StartSlices(r: seq<Point>)
    requires |r| >= 1
    ensures r[..1] == [r[0]] && r[0..] == r
  {
  }

  /** What the search knows about the path it is extending. */
  ghost predicate Trail(g: Graph, q: Point, d: int, u: Point, lg: Num, path: seq<Point>)
  {
    IsWalk(path) && path[|path| - 1] == u && NonBacktracking(path) && lg == WalkLength(path) &&
    Minimal(g, q, d, path)
  }

  /** r is a walk to q within the bound that can be added, with no accepted proper prefix. */
  ghost predicate Listed(g: Graph, q: Point, d: int, r: seq<Point>)
  {
    IsWalk(r) && r[|r| - 1] == q && NonBacktracking(r) &&
    WithinDilation(WalkLength(r), d) && CanAddPathSpec(g, r) && Minimal(g, q, d, r)
  }

  /** Found, one level unfolded. */
  lemma FoundUnfold(g: Graph, q: Point, d: nat, u: Point, lg: Num, path: seq<Point>)
    requires Nonneg(lg) && |path| >= 1
    ensures u == q && WithinDilation(lg, d) && CanAddPathSpec(g, path) ==> Found(g, q, d, u, lg, path) == [path]
    ensures !(u == q && WithinDilation(lg, d) && CanAddPathSpec(g, path)) && TooLong(Add(lg, ManhattanWithDiagonals(q, u)), d)
      ==> Found(g, q, d, u, lg, path) == []
    ensures !(u == q && WithinDilation(lg, d) && CanAddPathSpec(g, path)) && !TooLong(Add(lg, ManhattanWithDiagonals(q, u)), d)
      ==> lg.a + lg.b <= 6 * d && Found(g, q, d, u, lg, path) == FoundDirs(g, q, d, u, lg, path, 0)
  {
    if !TooLong(Add(lg, ManhattanWithDiagonals(q, u)), d) {
      KeptBound(lg, q, u, d);
    }
  }

  /** Every listed path is a candidate extending the trail, with no accepted proper prefix. */
  lemma {:induction false} FoundSound(g: Graph, q: Point, d: nat, u: Point, lg: Num, path: seq<Point>, r: seq<Point>)
    requires Nonneg(lg) && Trail(g, q, d, u, lg, path) && r in Found(g, q, d, u, lg, path)
    ensures Listed(g, q, d, r)
    decreases 6 * d - (lg.a + lg.b), 1, 0
  {
    FoundUnfold(g, q, d, u, lg, path);
    if u == q && WithinDilation(lg, d) && CanAddPathSpec(g, path) {
      AcceptedListed(g, q, d, u, lg, path);
      InSingleton(r, path);
    } else {
      FoundDirsSound(g, q, d, u, lg, path, 0, r);
    }
  }

  lemma {:induction false} FoundDirsSound(g: Graph, q: Point, d: nat, u: Point, lg: Num, path: seq<Point>, k: nat, r: seq<Point>)
    requires Nonneg(lg) && lg.a + lg.b <= 6 * d && k <= 8 && |path| >= 1
    requires Trail(g, q, d, u, lg, path) && r in FoundDirs(g, q, d, u, lg, path, k)
    requires !(u == q && WithinDilation(lg, d) && CanAddPathSpec(g, path))
    ensures Listed(g, q, d, r)
    decreases 6 * d - (lg.a + lg.b), 0, 8 - k
  {
    var v := Translate(u, DIRECTIONS[k].0);
    var norm := DIRECTIONS[k].1;
    FoundDirsSplit(g, q, d, u, lg, path, k);
    if Allowed(g, path, u, v) && r in Found(g, q, d, v, Add(lg, norm), path + [v]) {
      DirectionStep(u, k);
      ExtendTrail(g, q, d, u, lg, path, v, norm);
      FoundSound(g, q, d, v, Add(lg, norm), path + [v], r);
    } else {
      FoundDirsSound(g, q, d, u, lg, path, k + 1, r);
    }
  }

  lemma InSingleton(r: seq<Point>, path: seq<Point>)
    requires r in [path]
    ensures r == path
  {
  }

  /** An accepted trail is listed. */
  lemma AcceptedListed(g: Graph, q: Point, d: nat, u: Point, lg: Num, path: seq<Point>)
    requires Trail(g, q, d, u, lg, path) && u == q && WithinDilation(lg, d) && CanAddPathSpec(g, path)
    ensures Listed(g, q, d, path)
  {
  }

  /** One allowed step extends the trail, as the path it leaves was not accepted. */
  lemma ExtendTrail(g: Graph, q: Point, d: int, u: Point, lg: Num, path: seq<Point>, v: Point, norm: Num)
    requires Trail(g, q, d, u, lg, path) && Allowed(g, path, u, v)
    requires IsStep(u, v) && StepNorm(u, v) == norm
    requires !(u == q && WithinDilation(lg, d) && CanAddPathSpec(g, path))
    ensures Trail(g, q, d, v, Add(lg, norm), path + [v])
  {
    var w := path + [v];
    assert w[..|path|] == path;
    SnocWalk(path, v);
    assert NonBacktracking(w) by {
      forall i | 0 <= i < |w| - 2 ensures w[i + 2] != w[i] {
        if i + 2 < |path| {
          assert path[i + 2] != path[i];
        }
      }
    }
    assert Minimal(g, q, d, w) by {
      forall i | 0 <= i < |w| - 1 ensures !AcceptedPrefix(g, q, d, w, i) {
        assert w[..i + 1] == path[..i + 1];
        if i < |path| - 1 {
          assert !AcceptedPrefix(g, q, d, path, i);
        } else {
          assert path[..i + 1] == path;
        }
      }
    }
  }

  /** Appending one king move to a walk. */
  lemma SnocWalk(path: seq<Point>, v: Point)
    requires IsWalk(path) && IsStep(path[|path| - 1], v)
    ensures IsWalk(path + [v])
    ensures WalkLength(path + [v]) == Add(WalkLength(path), StepNorm(path[|path| - 1], v))
  {
    var w := path + [v];
    forall i | 0 <= i < |w| - 1 ensures StepAt(w, i) {
      if i < |path| - 1 {
        assert StepAt(path, i);
      }
    }
    WalkLengthSnoc(path, v);
  }

  /** The remainder of a walk from point n - 1 is one king move followed by the remainder from point n. */
  lemma RemainderStep(r: seq<Point>, n: nat)
    requires IsWalk(r) && 1 <= n < |r|
    ensures IsWalk(r[n - 1..]) && IsWalk(r[n..]) && IsStep(r[n - 1], r[n])
    ensures WalkLength(r[n - 1..]) == Add(StepNorm(r[n - 1], r[n]), WalkLength(r[n..]))
  {
    var rest := r[n - 1..];
    SuffixWalk(r, n - 1);
    assert rest[0] == r[n - 1] && rest[1] == r[n];
    assert rest[1..] == r[n..];
    TailWalk(rest);
  }

  /** The suffix of a walk from point m is a walk. */
  lemma SuffixWalk(w: seq<Point>, m: nat)
    requires IsWalk(w) && m < |w|
    ensures IsWalk(w[m..])
  {
    var s := w[m..];
    forall i | 0 <= i < |s| - 1 ensures StepAt(s, i) {
      assert StepAt(w, m + i);
    }
  }

  /**
   * r continues path to q, never goes straight back, can be added, has no
   * accepted proper prefix, and its remainder from the end of path, added
   * to lg, is within the bound.
   */
  ghost predicate Reaches(g: Graph, q: Point, d: int, lg: Num, path: seq<Point>, r: seq<Point>)
  {
    |path| >= 1 && IsWalk(r) && |r| >= |path| && r[..|path|] == path && r[|r| - 1] == q && NonBacktracking(r) &&
    WithinDilation(Add(lg, WalkLength(r[|path| - 1..])), d) && CanAddPathSpec(g, r) && Minimal(g, q, d, r)
  }

  /** Every candidate the search can reach from the trail is listed. */
  lemma {:induction false} FoundComplete(g: Graph, q: Point, d: nat, u: Point, lg: Num, path: seq<Point>, r: seq<Point>)
    requires Nonneg(lg) && Trail(g, q, d, u, lg, path) && Reaches(g, q, d, lg, path, r)
    ensures r in Found(g, q, d, u, lg, path)
    decreases |r| - |path|, 9
  {
    FoundUnfold(g, q, d, u, lg, path);
    if u == q && WithinDilation(lg, d) && CanAddPathSpec(g, path) {
      AcceptedIsWhole(g, q, d, u, lg, path, r);
    } else {
      ReachesNotPruned(g, q, d, u, lg, path, r);
      LongerThanTrail(g, q, d, u, lg, path, r);
      RemainderStep(r, |path|);
      var k := StepIsDirection(u, r[|path|]);
      FoundDirsComplete(g, q, d, u, lg, path, 0, k, r);
    }
  }

  /** Once the trail is accepted, the only reachable candidate is the trail itself. */
  lemma AcceptedIsWhole(g: Graph, q: Point, d: nat, u: Point, lg: Num, path: seq<Point>, r: seq<Point>)
    requires Trail(g, q, d, u, lg, path) && Reaches(g, q, d, lg, path, r)
    requires u == q && WithinDilation(lg, d) && CanAddPathSpec(g, path)
    ensures r in [path]
  {
    TrailPrefixAccepted(g, q, d, u, lg, path, r);
    assert r == r[..|path|];
  }

  /** An accepted trail is an accepted prefix of every longer candidate continuing it. */
  lemma TrailPrefixAccepted(g: Graph, q: Point, d: nat, u: Point, lg: Num, path: seq<Point>, r: seq<Point>)
    requires Trail(g, q, d, u, lg, path) && |path| >= 1 && |r| >= |path| && r[..|path|] == path
    requires u == q && WithinDilation(lg, d) && CanAddPathSpec(g, path)
    ensures |r| > |path| ==> AcceptedPrefix(g, q, d, r, |path| - 1)
  {
    assert r[..|path| - 1 + 1] == path;
  }

  /** While the trail is not accepted, a reachable candidate goes beyond it. */
  lemma LongerThanTrail(g: Graph, q: Point, d: nat, u: Point, lg: Num, path: seq<Point>, r: seq<Point>)
    requires Trail(g, q, d, u, lg, path) && Reaches(g, q, d, lg, path, r)
    requires !(u == q && WithinDilation(lg, d) && CanAddPathSpec(g, path))
    ensures |r| > |path|
  {
    if |r| == |path| {
      assert r == r[..|path|];
      assert r[|path| - 1..] == [u];
      assert WalkLength([u]) == ZERO;
      AddZeroLeft(lg);
    }
  }

  /** A reachable candidate survives the pruning test at the end of the trail. */
  lemma ReachesNotPruned(g: Graph, q: Point, d: nat, u: Point, lg: Num, path: seq<Point>, r: seq<Point>)
    requires Nonneg(lg) && Trail(g, q, d, u, lg, path) && Reaches(g, q, d, lg, path, r)
    ensures !TooLong(Add(lg, ManhattanWithDiagonals(q, u)), d) && lg.a + lg.b <= 6 * d
  {
    var rest := r[|path| - 1..];
    SuffixWalk(r, |path| - 1);
    WalkLengthNonneg(rest);
    assert rest[0] == u && rest[|rest| - 1] == q;
    WalkLengthAtLeastBound(rest);
    ManhattanWithDiagonalsShape(u, q);
    LessEqAddLeft(lg, ManhattanWithDiagonals(q, u), WalkLength(rest));
    ManhattanWithDiagonalsShape(q, u);
    ShrinkWithin(Add(lg, ManhattanWithDiagonals(q, u)), Add(lg, WalkLength(rest)), d);
    NotTooLong(Add(lg, ManhattanWithDiagonals(q, u)), d);
    KeptBound(lg, q, u, d);
  }

  /** Following the candidate one more step keeps it reachable. */
  lemma ReachesStep(g: Graph, q: Point, d: int, lg: Num, path: seq<Point>, r: seq<Point>, k: nat)
    requires Reaches(g, q, d, lg, path, r) && |r| > |path| && k < 8
    requires r[|path|] == Translate(path[|path| - 1], DIRECTIONS[k].0)
    ensures Reaches(g, q, d, Add(lg, DIRECTIONS[k].1), path + [r[|path|]], r)
  {
    var u, v := path[|path| - 1], r[|path|];
    assert r[|path| - 1] == u;
    DirectionStep(u, k);
    RemainderStep(r, |path|);
    AddAssociative(lg, DIRECTIONS[k].1, WalkLength(r[|path|..]));
    assert r[..|path| + 1] == path + [v];
  }

  lemma {:induction false} FoundDirsComplete(g: Graph, q: Point, d: nat, u: Point, lg: Num, path: seq<Point>,
                                             k: nat, target: nat, r: seq<Point>)
    requires Nonneg(lg) && lg.a + lg.b <= 6 * d && k <= target < 8 && Trail(g, q, d, u, lg, path)
    requires Reaches(g, q, d, lg, path, r) && |r| > |path|
    requires !(u == q && WithinDilation(lg, d) && CanAddPathSpec(g, path))
    requires r[|path|] == Translate(u, DIRECTIONS[target].0)
    ensures r in FoundDirs(g, q, d, u, lg, path, k)
    decreases |r| - |path|, 8 - k
  {
    var v := Translate(u, DIRECTIONS[k].0);
    var norm := DIRECTIONS[k].1;
    FoundDirsSplit(g, q, d, u, lg, path, k);
    if k < target {
      FoundDirsComplete(g, q, d, u, lg, path, k + 1, target, r);
    } else {
      ChildAllowed(g, path, u, r);
      DirectionStep(u, k);
      ExtendTrail(g, q, d, u, lg, path, v, norm);
      ReachesStep(g, q, d, lg, path, r, k);
      FoundComplete(g, q, d, v, Add(lg, norm), path + [v], r);
    }
  }

  /** The next point of a candidate extending the path is an allowed step. */
  lemma ChildAllowed(g: Graph, path: seq<Point>, u: Point, r: seq<Point>)
    requires |path| >= 1 && |r| > |path| && r[..|path|] == path && path[|path| - 1] == u
    requires NonBacktracking(r) && CanAddPathSpec(g, r)
    ensures Allowed(g, path, u, r[|path|])
  {
    assert r[|path| - 1] == u;
    if |path| >= 2 {
      assert r[|path|] != r[|path| - 2];
      assert r[|path| - 2] == path[|path| - 2];
    }
    assert (r[|path| - 1], r[|path|]) !in g.forbidden;
  }

  /**
   * The points the search may step to from u by the directions k .. 7:
   * every path listed by FoundDirs continues the path with one of them.
   */
  function NextPoints(u: Point, k: nat): set<Point>
    requires k <= 8
  {
    set j | k <= j < 8 :: Translate(u, DIRECTIONS[j].0)
  }

  /** Listings extend the path, and those of the directions continue it with one of the next points. */
  lemma {:induction false} FoundExtends(g: Graph, q: Point, d: nat, u: Point, lg: Num, path: seq<Point>, r: seq<Point>)
    requires Nonneg(lg) && |path| >= 1 && r in Found(g, q, d, u, lg, path)
    ensures |r| >= |path| && r[..|path|] == path
    decreases 6 * d - (lg.a + lg.b), 1, 0
  {
    if u == q && WithinDilation(lg, d) && CanAddPathSpec(g, path) {
    } else if !TooLong(Add(lg, ManhattanWithDiagonals(q, u)), d) {
      KeptBound(lg, q, u, d);
      FoundDirsExtends(g, q, d, u, lg, path, 0, r);
    }
  }

  lemma {:induction false} FoundDirsExtends(g: Graph, q: Point, d: nat, u: Point, lg: Num, path: seq<Point>, k: nat, r: seq<Point>)
    requires Nonneg(lg) && lg.a + lg.b <= 6 * d && k <= 8 && |path| >= 1
    requires r in FoundDirs(g, q, d, u, lg, path, k)
    ensures |r| > |path| && r[..|path|] == path && r[|path|] in NextPoints(u, k)
    decreases 6 * d - (lg.a + lg.b), 0, 8 - k
  {
    var v := Translate(u, DIRECTIONS[k].0);
    var norm := DIRECTIONS[k].1;
    DirectionNorm(k);
    var child := if Allowed(g, path, u, v) then Found(g, q, d, v, Add(lg, norm), path + [v]) else [];
    assert FoundDirs(g, q, d, u, lg, path, k) == child + FoundDirs(g, q, d, u, lg, path, k + 1);
    if r in child {
      FoundExtends(g, q, d, v, Add(lg, norm), path + [v], r);
      assert r[..|path|] == (r[..|path| + 1])[..|path|];
      assert r[|path|] == v;
    } else {
      FoundDirsExtends(g, q, d, u, lg, path, k + 1, r);
    }
  }

  /** Found lists no path twice. */
  lemma {:induction false} FoundDistinct(g: Graph, q: Point, d: nat, u: Point, lg: Num, path: seq<Point>)
    requires Nonneg(lg) && |path| >= 1
    ensures Distinct(Found(g, q, d, u, lg, path))
    decreases 6 * d - (lg.a + lg.b), 1, 0
  {
    if u == q && WithinDilation(lg, d) && CanAddPathSpec(g, path) {
    } else if !TooLong(Add(lg, ManhattanWithDiagonals(q, u)), d) {
      KeptBound(lg, q, u, d);
      FoundDirsDistinct(g, q, d, u, lg, path, 0);
    }
  }

  lemma {:induction false} FoundDirsDistinct(g: Graph, q: Point, d: nat, u: Point, lg: Num, path: seq<Point>, k: nat)
    requires Nonneg(lg) && lg.a + lg.b <= 6 * d && k <= 8 && |path| >= 1
    ensures Distinct(FoundDirs(g, q, d, u, lg, path, k))
    decreases 6 * d - (lg.a + lg.b), 0, 8 - k
  {
    if k < 8 {
      var v := Translate(u, DIRECTIONS[k].0);
      DirectionNorm(k);
      var lg2 := Add(lg, DIRECTIONS[k].1);
      var child := if Allowed(g, path, u, v) then Found(g, q, d, v, lg2, path + [v]) else [];
      var others := FoundDirs(g, q, d, u, lg, path, k + 1);
      FoundDirsSplit(g, q, d, u, lg, path, k);
      if Allowed(g, path, u, v) {
        FoundDistinct(g, q, d, v, lg2, path + [v]);
        ChildHeads(g, q, d, v, lg2, path);
      }
      FoundDirsDistinct(g, q, d, u, lg, path, k + 1);
      OthersHeads(g, q, d, u, lg, path, k);
      DistinctConcat(child, others, |path|, v);
    }
  }

  lemma FoundDirsSplit(g: Graph, q: Point, d: nat, u: Point, lg: Num, path: seq<Point>, k: nat)
    requires Nonneg(lg) && lg.a + lg.b <= 6 * d && k < 8 && |path| >= 1
    ensures FoundDirs(g, q, d, u, lg, path, k) == Child(g, q, d, u, lg, path, k) + FoundDirs(g, q, d, u, lg, path, k + 1)
  {
    DirectionNorm(k);
  }

  lemma ChildHeads(g: Graph, q: Point, d: nat, v: Point, lg: Num, path: seq<Point>)
    requires Nonneg(lg) && |path| >= 1
    ensures forall r :: r in Found(g, q, d, v, lg, path + [v]) ==> |r| > |path| && r[|path|] == v
  {
    forall r | r in Found(g, q, d, v, lg, path + [v]) ensures |r| > |path| && r[|path|] == v {
      FoundExtends(g, q, d, v, lg, path + [v], r);
      assert r[..|path| + 1][|path|] == v;
    }
  }

  lemma OthersHeads(g: Graph, q: Point, d: nat, u: Point, lg: Num, path: seq<Point>, k: nat)
    requires Nonneg(lg) && lg.a + lg.b <= 6 * d && k < 8 && |path| >= 1
    ensures forall r :: r in FoundDirs(g, q, d, u, lg, path, k + 1) ==>
      |r| > |path| && r[|path|] != Translate(u, DIRECTIONS[k].0)
  {
    forall r | r in FoundDirs(g, q, d, u, lg, path, k + 1)
      ensures |r| > |path| && r[|path|] != Translate(u, DIRECTIONS[k].0)
    {
      FoundDirsExtends(g, q, d, u, lg, path, k + 1, r);
      NotANextPoint(u, k);
    }
  }

  /** The direction k leads to none of the points of the later directions. */
  lemma NotANextPoint(u: Point, k: nat)
    requires k < 8
    ensures Translate(u, DIRECTIONS[k].0) !in NextPoints(u, k + 1)
  {
    DirectionsAreKingMoves();
    forall j | k + 1 <= j < 8 ensures Translate(u, DIRECTIONS[j].0) != Translate(u, DIRECTIONS[k].0) {
      assert DIRECTIONS[k].0 != DIRECTIONS[j].0;
    }
  }

  /** Two listings without repetition whose paths differ at position m are listed together without repetition. */
  lemma DistinctConcat(a: seq<seq<Point>>, b: seq<seq<Point>>, m: nat, v: Point)
    requires Distinct(a) && Distinct(b)
    requires forall r :: r in a ==> |r| > m && r[m] == v
    requires forall r :: r in b ==> |r| > m && r[m] != v
    ensures Distinct(a + b)
  {
    var s := a + b;
    forall i, j | 0 <= i < j < |s| ensures s[i] != s[j] {
      if i < |a| && j >= |a| {
        assert s[i] in a && s[j] in b;
      } else if i >= |a| {
        assert s[i] == b[i - |a|] && s[j] == b[j - |a|];
      }
    }
  }
}

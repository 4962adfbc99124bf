# Degree-three spanners of the square lattice, in Dafny

The repository checks the computer-assisted steps of a paper on geometric
graphs of maximum degree 3 on the square lattice: graphs whose every pair of
vertices at distance at most sqrt5 is joined by a path at most DIL = 1 + sqrt2
times longer than the segment between them (local dilation DIL).

Its core is a branch-and-bound search (`proof.py`). It grows a set of edges
path by path, keeping:

- the forbidden pairs: the crossing diagonal of every diagonal edge, and every
  free pair at a vertex of degree 3;
- the degree table and the touched points.

It looks for a shortcut, for one of the forbidden patterns, or for a pair of
nearby points with no possible path (a contradiction) or exactly one (a
deduction). Otherwise it branches over the five short paths of a unit
segment, and undoes each addition when the branch is finished.

Three companion scripts run Dijkstra's algorithm with exact lengths:

- `proposition_2_1.py` on a periodic configuration, in 16 variants;
- `figure_2.py` on three periodic examples;
- `lemma_2_4.py` on a weighted lattice graph.

All lengths are exact numbers a + b sqrt2 (`util.py`).

The model has one module per file:

| module | models |
|---|---|
| `Wrappers` | the `Option` type, for `None` results |
| `ExactNumber` | `SquareRootNumber`: the ring Z[sqrt2], the positivity test, its order |
| `Geometry` | points and the helpers of `util.py` |
| `Traversal` | `exists_good_path` and `find_shortcut`, as recursive functions proved equal to their declarative meaning |
| `GraphState` | the search state as a value. `can_add_path`, `add_edge`, `add_path` and `remove_path` are functions that follow the source loop by loop, with the add/undo round trip, the degree-3 saturation invariant and the degree table's count of edges (at most 3) proved |
| `ProofState` | the module globals of `proof.py` as a class `State`, whose methods update its fields and are proved equal to the `GraphState` functions |
| `PathSearch` | `find_paths`: a recursive method with early stop, proved equal to a capped listing that is characterised exactly |
| `Patterns` | the eight symmetries, `initialize_patterns`, `detect_pattern`, `pattern_created_by_recent_add` |
| `Exploration` | `expand` and `prove` |
| `Periodic` | the periodic edge sets of the companion scripts |
| `ShortestPaths` | Dijkstra's algorithm with its invariant, so that the recorded distances are walk lengths and are shortest |
| `Dilation` | the final dilation test and what its answers mean |
| `Proposition21`, `Figure2`, `Lemma24` | the three scripts |

In the scripts, Python exceptions become verdicts. An exception raised in the
exploration becomes an `Outcome` that, like the exception, skips the undo of
every call it passes through.

## Model

| member | source | states |
|---|---|---|
| ExactNumber.Pow | util.py:30-34 | the repeated multiplication computes the n-th power of x |
| ExactNumber.PowerAdd | util.py:30-34 | x^(m+n) = x^m * x^n |
| ExactNumber.PowerTwo | util.py:30-34 | x^2 is x * x |
| ExactNumber.NormMultiplicative | util.py:25-28 | the product is that of Z[sqrt2]: the norm a^2 - 2b^2 of a product is the product of the norms |
| ExactNumber.MulCommutative | util.py:25-28 | multiplication is commutative |
| ExactNumber.MulAssociative | util.py:25-28 | multiplication is associative |
| ExactNumber.MulDistributesOverAdd | util.py:19-28 | multiplication distributes over addition |
| ExactNumber.MulOneIdentity | util.py:25-31 | 1 + 0 sqrt2 is the unit of the product |
| ExactNumber.AddAssociative | util.py:19-20 | addition is associative |
| ExactNumber.AddZeroLeft | util.py:19-20 | zero is neutral for addition on both sides |
| ExactNumber.ThreeBeatsTwoSqrtTwo | util.py:36-47 | arithmetic helper for the bound on the pruned search: the sign test finds 3d - 2d sqrt2 positive for d > 0, that is 2 sqrt2 < 3 |
| ExactNumber.NoSquareIsTwiceSquare | util.py:36-47 | a^2 = 2b^2 only for a = b = 0 (sqrt2 is irrational), so the sign test by squares never meets a tie |
| ExactNumber.PositiveByNorm | util.py:36-47 | is_positive holds exactly when the rational part dominates and is positive, or the root part dominates and is positive |
| ExactNumber.Trichotomy | util.py:36-47 | exactly one of x, -x is positive unless x is zero, and zero is not positive |
| ExactNumber.PositiveAdd | util.py:36-47 | the sum of two positive numbers is positive |
| ExactNumber.PositiveMul | util.py:25-47 | the product of two positive numbers is positive |
| ExactNumber.LessIrreflexive | util.py:55-56 | no number is less than itself |
| ExactNumber.LessTransitive | util.py:55-56 | < is transitive |
| ExactNumber.LessTrichotomy | util.py:55-59 | < is total: exactly one of x < y, x == y, x > y |
| ExactNumber.LessEqTransitive | util.py:61-62 | <= is transitive |
| ExactNumber.LessLessEqTransitive | util.py:55-62 | mixing < and <= in a chain gives < |
| ExactNumber.LessAddCompatible | util.py:19-56 | adding the same number to both sides keeps < in both directions |
| ExactNumber.LessMulPositive | util.py:25-56 | multiplying both sides by a positive number keeps < |
| ExactNumber.IntOrder | util.py:55-56 | on integers (no sqrt2 part) < is the integer order |
| ExactNumber.SquareStrictlyIncreasing | util.py:25-56 | squaring is strictly increasing on nonnegative numbers |
| ExactNumber.SquareReflectsOrder | util.py:25-62 | for nonnegative x and y, x^2 <= y^2 exactly when x <= y, which is why the dilation tests compare squares |
| ExactNumber.DilationSquared | proof.py:12 | DIL^2 = 3 + 2 sqrt2 |
| ExactNumber.AddMonotone | util.py:19-62 | addition is monotone in both arguments for <= |
| Geometry.BuildDirections | util.py:72-80 | the two nested loops produce exactly the table of eight directions with their norms |
| Geometry.DirectionsAreKingMoves | util.py:72-80 | the eight directions are distinct, nonzero king moves with norm sqrt2 exactly for diagonals, and every king move is among them |
| Geometry.DirectionStep | util.py:72-80 | each direction is a step of the lattice whose length is its listed norm |
| Geometry.StepIsDirection | util.py:72-80 | every step of the lattice is one of the eight directions |
| Geometry.ManhattanWithDiagonalsShape | util.py:113-121 | both parts are nonnegative, the sqrt2 part is the smaller coordinate difference, the parts sum to the larger one; the value is symmetric and is zero only for p = q |
| Geometry.ManhattanWithDiagonalsStep | util.py:113-121 | one step changes the bound by at most that step's length |
| Geometry.Admissible | util.py:113-121 | the same for each of the eight directions: the bound is consistent, the property the pruning of the searches uses |
| Geometry.WalkLengthAtLeastBound | util.py:113-121 | no walk from p to q is shorter than the bound, so pruning on it never loses a path |
| Geometry.IsCloseTo | util.py:124-133 | true exactly when some point of the set is within Manhattan distance d |
| Geometry.PathToListOfEdges | util.py:136-145 | l - 1 edges for a path of l >= 1 points (none for the empty path), the i-th joining points i and i + 1 |
| Geometry.TheFiveShortPaths | util.py:148-165 | fails (the index error) exactly when q - p is not a unit axial vector; otherwise returns the five paths |
| Geometry.FivePathsAreShortest | util.py:148-165 | the direct edge of length 1, then four paths through distinct midpoints of length 1 + sqrt2, and these midpoints are exactly the common lattice neighbours of p and q |
| Geometry.RotationsInTable | util.py:154-158 | indices i + 1 and i + 3 modulo 4 of the table are the left and right rotations of entry i |
| Geometry.UnitAxialInTable | util.py:154-156 | a vector is a unit axial vector exactly when it is in RIGHT_UP_LEFT_DOWN |
| Geometry.RotationSteps | util.py:154-165 | each midpoint of the four detours is one step from both ends |
| Geometry.UnitNeighbours | util.py:154-165 | the four midpoints are distinct and are exactly the common lattice neighbours of p and q |
| Geometry.FivePathsShape | util.py:160-165 | the four detours run from p to q through pairwise distinct midpoints |
| Geometry.FivePathsCoverNeighbours | util.py:160-165 | the detours' midpoints are the common neighbours of p and q |
| Traversal.BoundValue | proof.py:57 | the bound compared with is DIL^2 times the squared distance |
| Traversal.NotTooLong | proof.py:57-60 | the pruning test is exactly the negation of the acceptance test |
| Traversal.ExistsGoodPathCorrect | proof.py:43-71 | true exactly when a walk from p to q of existing edges, never going straight back, has length at most DIL times the distance pq |
| Traversal.FoundPath | proof.py:43-71 | a true answer yields such a walk |
| Traversal.PathFound | proof.py:43-71 | such a walk makes the answer true |
| Traversal.DfsSound | proof.py:50-69 | whenever the inner search from u succeeds, a good walk from u exists |
| Traversal.DfsComplete | proof.py:50-69 | whenever a good walk from u exists, the inner search from u succeeds, pruning included |
| Traversal.DfsDirsSound | proof.py:63-69 | the loop over directions k..7 succeeds only through a good walk |
| Traversal.DfsDirsComplete | proof.py:63-69 | a good walk whose first step is direction k or later makes the loop from k succeed |
| Traversal.InferredNormShape | proof.py:137-140 | an inferred step cost is nonnegative, at least 1 in its parts, and never below the step's length |
| Traversal.CostAtLeastLength | proof.py:137-140 | the inferred cost of a walk is at least its length |
| Traversal.FindShortcutCorrect | proof.py:117-147 | returns a path exactly when some walk from p to q has inferred cost below c, and the path returned is such a walk |
| Traversal.FsSound | proof.py:129-146 | every path the inner search returns is a walk to q whose cost keeps the total below c |
| Traversal.FsComplete | proof.py:129-146 | when such a walk exists, the inner search returns a path |
| Traversal.ShortcutBound | proof.py:134 | a branch that survives the pruning has a bounded length, so the search ends |
| GraphState.TallyOnPath | proof.py:25-39 | only points of the path get a degree increment |
| GraphState.TallyMonotone | proof.py:25-39 | the increments only grow along the path |
| GraphState.ForbidIfFreeEffect | proof.py:179-181 | forbidding a free pair changes only the forbidden set, adds fresh pairs only, both orientations |
| GraphState.ForbidIfFreeCovers | proof.py:179-190 | after the call the pair is an edge or forbidden, and nothing is removed |
| GraphState.ForbidCrossingEffect | proof.py:174-181 | the crossing-diagonal rule forbids fresh pairs only, both orientations |
| GraphState.CrossingDecided | proof.py:174-181 | after a diagonal edge is added, its crossing diagonal is an edge or forbidden |
| GraphState.SaturateEffect | proof.py:184-190 | the saturation loop forbids fresh pairs only, both orientations |
| GraphState.SaturateCovers | proof.py:184-190 | after the loop every pair at p is an edge or forbidden, and edges and degrees are unchanged |
| GraphState.SaturateIfFullCovers | proof.py:184-190 | a vertex of degree 3 is saturated afterwards |
| GraphState.SaturateIfFullEffect | proof.py:184-190 | the degree-3 rule forbids fresh pairs only, both orientations |
| GraphState.SaturatedGrows | proof.py:184-190 | a saturated vertex stays saturated when edges and forbidden pairs only grow |
| GraphState.AddEdgeEdges | proof.py:170 | add_edge inserts both orientations of the edge |
| GraphState.AddEdgeEffect | proof.py:160-192 | add_edge inserts both orientations, raises both degrees by one, keeps the points, and records exactly the fresh forbidden pairs, keeping the forbidden set symmetric |
| GraphState.AddEdgeClosed | proof.py:160-192 | add_edge keeps every vertex of degree 3 saturated |
| GraphState.AddPointEffect | proof.py:206-209 | a point is recorded exactly when it was new |
| GraphState.AddPairEffect | proof.py:199-209 | one step of add_path is described exactly by its undo record and keeps both sets symmetric |
| GraphState.AddPairClosed | proof.py:199-209 | one step of add_path keeps every vertex of degree 3 saturated |
| GraphState.ExtendEffect | proof.py:199-209 | a step appended to a described run keeps the undo record exact and both sets symmetric |
| GraphState.DoubledSymmetric | proof.py:218-221 | an edge list taken in both orientations is symmetric |
| GraphState.AddPathPrefixEffect | proof.py:194-211 | after any number of steps, the undo record lists exactly the new edges (once each), points and forbidden pairs, and the degrees grew by the endpoint counts of the new edges |
| GraphState.RecordedCompose | proof.py:194-211 | undo records of consecutive steps concatenate |
| GraphState.AddPathGrows | proof.py:150-211 | add_path only adds edges and forbidden pairs, and keeps both sets symmetric |
| GraphState.EdgesGrow | proof.py:198-209 | the edge set only grows along add_path |
| GraphState.AddPathClosed | proof.py:150-211 | add_path keeps every vertex of degree 3 saturated |
| GraphState.EmptyDegrees | proof.py:433 | the empty start state has every degree equal to its number of edges, and at most 3 |
| GraphState.NeighboursInsert | proof.py:165-168 | inserting a fresh edge in both orientations adds one neighbour at each of its ends and none elsewhere |
| GraphState.NeighboursGain | proof.py:165-168 | at one end of a fresh edge, the new neighbour set is the old one plus the other end, which was not in it |
| GraphState.AddPairExact | proof.py:160-170 | one iteration of add_path keeps every degree equal to the number of edges at the point |
| GraphState.AddPathPrefixExact | proof.py:150-211 | any number of iterations of add_path on a path whose consecutive points differ (as on every path the search builds) keeps every degree equal to the number of edges at the point |
| GraphState.AddPathDegrees | proof.py:18-40 | a path whose consecutive points differ, accepted by can_add_path and added by add_path, keeps every degree exact and at most 3 |
| GraphState.RemoveDegrees | proof.py:214-224 | remove_path after add_path gives back degrees that are exact and at most 3 |
| GraphState.DegreeBound | proof.py:18-40 | after can_add_path accepted a path, add_path leaves every degree that changed at most 3 |
| GraphState.CountBelowTally | proof.py:25-39 | the degree gain add_path causes is at most the increment can_add_path counted |
| GraphState.RemoveEdgesPrefixEffect | proof.py:218-222 | removing the recorded edges deletes both orientations and lowers each degree by the endpoint count |
| GraphState.RemoveKeepsKeys | proof.py:218-221 | removal never drops a degree entry |
| GraphState.UndoRestores | proof.py:214-224 | remove_path with the record of add_path gives back the state before add_path (a degree entry of 0 reads as absent) |
| GraphState.AddThenRemove | proof.py:150-224 | add_path followed by remove_path of its record is the identity on the observable state |
| GraphState.AgreeClosed | proof.py:214-224 | the saturation invariant survives the restoration |
| ProofState.State.constructor | proof.py:427-445 | the state prove starts from: everything empty, counter 0 |
| ProofState.State.CanAddPath | proof.py:18-40 | the loop answers whether no pair is forbidden and every touched degree stays at most 3 |
| ProofState.State.RejectedByDegree | proof.py:35-39 | an endpoint overflowing at the current pair rejects the whole path |
| ProofState.State.SaturateAt | proof.py:184-190 | the loop over the eight directions, as the saturation function |
| ProofState.State.SaturateIfDegreeThree | proof.py:184-190 | the degree-3 rule at one endpoint |
| ProofState.State.AddEdge | proof.py:160-192 | add_edge changes the state as AddEdgeSpec and returns its new forbidden pairs |
| ProofState.State.AddPair | proof.py:199-209 | one iteration of add_path's loop |
| ProofState.State.AddPoint | proof.py:206-209 | a point is added and recorded when new |
| ProofState.State.AddPath | proof.py:150-211 | add_path changes the state as AddPathSpec and returns its undo record |
| ProofState.State.RemovePath | proof.py:214-224 | remove_path changes the state as RemoveSpec |
| PathSearch.FindPaths | proof.py:74-114 | the result is the full listing cut at the limit: at most max_nb_paths paths, each a possible path from p to q |
| PathSearch.Search | proof.py:87-111 | the recursive search appends the listing from u, cut at the limit, and reports the stop exactly when the limit is reached |
| PathSearch.SearchDirections | proof.py:105-110 | the loop over the eight directions, the same for directions 0..7 |
| PathSearch.SearchDirection | proof.py:106-110 | one direction of the loop, the same for that direction |
| PathSearch.AllPathsCharacterised | proof.py:74-114 | without a limit each path is listed once, and the listed paths are exactly the possible paths none of whose proper prefixes is already accepted |
| PathSearch.AllPathsSound | proof.py:97-99 | every listed path can be added, ends at q, never goes straight back, and is within dilation |
| PathSearch.AllPathsComplete | proof.py:97-111 | every such path with no accepted proper prefix is listed |
| PathSearch.ShortestAcceptedPrefix | proof.py:97-99 | every possible path has a prefix that is listed, so an empty listing means no possible path at all |
| PathSearch.NothingListed | proof.py:384-388 | when nothing is listed, no path can join p and q |
| PathSearch.FoundSound | proof.py:87-111 | each path the inner search lists from a trail is accepted and extends it |
| PathSearch.FoundComplete | proof.py:87-111 | each accepted extension reachable from the trail is listed |
| PathSearch.FoundDistinct | proof.py:87-111 | the inner search never lists a path twice |
| PathSearch.FoundExtends | proof.py:87-111 | everything listed from a trail begins with that trail |
| Patterns.TransformsArePowersOfRotation | proof.py:288-292 | the eight matrices are rotation^i, then rotation^i composed with the flip, i = 0..3 |
| Patterns.TransformsAreTheSquareSymmetries | proof.py:288-292 | they are exactly the eight distinct symmetries of the square |
| Patterns.SymmetryIsometry | proof.py:298-302 | each transform preserves distances |
| Patterns.InitializePatterns | proof.py:278-304 | the list becomes the images of the patterns under the eight transforms |
| Patterns.ImagesShape | proof.py:294-304 | eight images per pattern, in order, each the same size as its pattern, the identity image first |
| Patterns.IdentityPattern | proof.py:288-304 | the first transform leaves a pattern unchanged |
| Patterns.PointsOfPattern | proof.py:238-240 | the endpoints of the pattern's edges |
| Patterns.IsPresentAt | proof.py:245-249 | true exactly when every edge of the pattern, translated by v, is an edge |
| Patterns.DetectPattern | proof.py:230-254 | returns a point of the pattern whose translation onto p puts the whole pattern in the edges; returns none exactly when no point of the pattern can be put there |
| Patterns.TranslatedCopy | proof.py:269-273 | the pattern translated edge by edge |
| Patterns.PatternAt | proof.py:266-274 | the loop over the patterns at one point: a copy at p of the first pattern in list order that can be placed there (no earlier one can), or none exactly when none can be placed there |
| Patterns.PatternCreatedByRecentAdd | proof.py:257-275 | returns a present copy of a pattern placed on a recent point, or none exactly when no pattern can be placed on any recent point |
| Patterns.OccurrenceShape | proof.py:257-275 | a returned copy has the pattern's size, lies in the edges and contains the recent point |
| Exploration.EdgeEndsMembers | proof.py:321-324 | the recent points are exactly the endpoints of the added edges |
| Exploration.RecentPoints | proof.py:321-324 | the loop collects those endpoints |
| Exploration.ListOfCouples | proof.py:343-365 | every pair examined is listed in one orientation, only such pairs are listed, and no pair follows its mirror image |
| Exploration.CouplesAt | proof.py:358-365 | the same for the pairs starting at one point |
| Exploration.CapTwo | proof.py:382-391 | with a limit of 2, find_paths finds nothing, or one path, exactly when the full listing does |
| Exploration.Classify | proof.py:367-391 | a contradiction names the first couple, in list order, that is unknown and that no good path and no possible path joins: every couple before it is known or has a possible path, and the loop stops there. Otherwise every pair is known or has possible paths. All have two or more unless there is a deduction. The deduction is the only path of the first couple, in list order, that has exactly one possible path: that couple was not known before the loop, and every couple before it is known or has two or more paths. Pairs become known only with a good path, and only a contradiction is notified |
| Exploration.Consider | proof.py:371-391 | one turn of the loop: a known couple changes nothing; a couple with a good path is recorded in both orientations; otherwise a couple without possible paths is a notified contradiction that changes nothing else, the recorded pairs included, and the facts the loop carries extend to one more couple |
| Exploration.WeighPair | proof.py:382-391 | for an unknown couple with no good path: no possible path is the contradiction; exactly one gives the deduction unless an earlier couple did, with the index of that couple; two or more leave the deduction as it was |
| Exploration.KnowStep | proof.py:375-377 | recording a couple with a good path as known, in both orientations, keeps every fact the loop carries and extends them to that couple |
| Exploration.BothJoined | proof.py:375-377 | a good path from p to q justifies the pair in both orientations |
| Exploration.NoWayToJoin | proof.py:384-388 | no good path and an empty listing mean the pair cannot be joined |
| Exploration.JustifiedAppend | proof.py:375-377 | pairs recorded as known always have a good path |
| Exploration.ExaminedStep | proof.py:371-391 | one more couple keeps what the loop knows about the couples done; a new deduction is recorded with its index only while none was made |
| Exploration.Judge | proof.py:343-391 | builds the couples and classifies them, returning the list and the verdict's index as ghosts: every listed couple is a considered pair and every considered pair is listed in one orientation; a contradiction is a considered, unknown pair with no good path and no possible path, the first such in the list, and is the one event notified; a deduction is the only possible path of a considered pair not known before, with no good path, and comes from the first forced couple; pairs become known only with a good path |
| Exploration.Expand | proof.py:310-424 | keeps the state valid and the log growing by search notifications. The first notification is the shortcut, else the pattern on a recent point, else the new branch. A missing length is the only error before the examination. A completed call restores the state it started from |
| Exploration.Restore | proof.py:422-424 | remove_path and the forgetting of new known pairs give back the state before add_path |
| Exploration.Examine | proof.py:328-338 | a shortcut or a pattern ends the call with its notification and no change; otherwise a branch is notified, and a completed examination keeps the state |
| Exploration.Investigate | proof.py:340-420 | the counter grows and a branch notification comes first; a completed investigation keeps the state |
| Exploration.Follow | proof.py:393-420 | a contradiction completes with nothing changed and no event; a deduction notifies its unique path before anything else; a completed branch keeps the state and the known pairs |
| Exploration.BranchOver | proof.py:405-420 | a list with every pair known raises the error without change; the first unknown pair that is not a unit step raises the other error without change; a completed branching keeps the state |
| Exploration.TryPaths | proof.py:410-412 | trying the paths one after another keeps the state when all complete |
| Exploration.BasePatterns | proof.py:441-442 | the patterns are the edge lists of the known lemmas' configurations |
| Exploration.Prove | proof.py:427-451 | the run starts from the empty state with the patterns and the start notification; a completed run ends with the end and finished notifications and the empty state |
| Periodic.AddPath | proposition_2_1.py:39-46 | inserts exactly both orientations of every consecutive pair of the shifted path |
| Periodic.PathPairsMembers | proposition_2_1.py:39-46 | a pair is inserted exactly when it is a shifted consecutive pair in one orientation |
| Periodic.PathPairsSymmetric | proposition_2_1.py:43-46 | the inserted pairs come in both orientations |
| Periodic.AddShifted | proposition_2_1.py:54-57 | one shift of all the paths |
| Periodic.AddRow | proposition_2_1.py:52-57 | one row of shifts |
| Periodic.PeriodicEdges | proposition_2_1.py:49-59 | the set holds exactly the pairs of the paths copied by the shifts i v1 + j v2 in the range, in both orientations |
| Periodic.PeriodicCharacterised | proposition_2_1.py:49-59 | the same for the specification function |
| Periodic.ShiftPairsMembers | proposition_2_1.py:55-57 | a pair is added by one shift exactly when it belongs to one of the shifted paths |
| Periodic.RowPairsMembers | proposition_2_1.py:53-57 | a pair is added by one row exactly when some shift of the row adds it |
| Periodic.GridPairsMembers | proposition_2_1.py:52-57 | a pair is added by the loops exactly when some row adds it |
| ShortestPaths.EntryLessTransitive | proposition_2_1.py:146 | the queue order is transitive |
| ShortestPaths.FirstHasLeastDistance | proposition_2_1.py:146 | the least entry has the least distance |
| ShortestPaths.ExtractMin | proposition_2_1.py:146 | returns an entry no entry of the queue precedes |
| ShortestPaths.WalkWeightsNonneg | proposition_2_1.py:127-135 | with nonnegative weights every walk has nonnegative steps |
| ShortestPaths.TotalPrefix | proposition_2_1.py:153-155 | the length of a walk grows along it |
| ShortestPaths.Dijkstra | proposition_2_1.py:138-155 | records points in nondecreasing distance from the source. Every recorded distance is the length of a walk and no walk is shorter. Stops only when the queue is empty (the recorded set is closed under edges), at the count of close points, or at a point with no adjacency list |
| ShortestPaths.PopRecorded | proposition_2_1.py:146-148 | dropping a queue entry for a recorded point keeps the loop invariant |
| ShortestPaths.RecordRealized | proposition_2_1.py:148-152 | recording a popped point keeps the order sorted and each distance a walk length |
| ShortestPaths.EmptyQueueClosed | proposition_2_1.py:145-155 | with an empty queue every neighbour of a recorded point is recorded |
| ShortestPaths.Conclude | lemma_2_4.py:43-50 | the loop invariant gives reachability and optimality, and closure when the queue is empty |
| ShortestPaths.ReachedAll | lemma_2_4.py:43-50 | every recorded distance is realised by a walk |
| Dilation.PassesTest | proposition_2_1.py:162-163 | the exact test accepts exactly when the squared distance is within DIL^2 times the squared Euclidean distance |
| Dilation.CheckPoint | lemma_2_4.py:53-59 | the lookup fails exactly when the point was never recorded; otherwise the test decides |
| Dilation.Accepted | lemma_2_4.py:58 | a passing point is reached by a walk within the dilation |
| Dilation.Rejected | lemma_2_4.py:58-59 | a failing shortest distance leaves no walk within the dilation |
| Dilation.NotReached | lemma_2_4.py:58 | a point missing after a complete search is unreachable |
| Dilation.ReachedListed | lemma_2_4.py:48 | when every neighbour has a list, no walk reaches a point without one |
| Proposition21.StepWeightOfKingMove | proposition_2_1.py:129-132 | the weight given to a unit or diagonal pair is its length |
| Proposition21.CollectNeighbours | proposition_2_1.py:111-124 | the nodes are the endpoints of the configuration and each node's neighbour set is its neighbours in the configuration, both orientations |
| Proposition21.ListEndpoints | proposition_2_1.py:114-120 | the first loop creates an empty entry for every endpoint |
| Proposition21.EnterPair | proposition_2_1.py:115-120 | one pair of that loop |
| Proposition21.JoinNeighbours | proposition_2_1.py:122-124 | the second loop joins the two endpoints of every pair |
| Proposition21.JoinPair | proposition_2_1.py:123-124 | one pair of that loop |
| Proposition21.WeighOne | proposition_2_1.py:128-135 | lists every neighbour of a with its length, or names a neighbour neither a unit nor a diagonal step away |
| Proposition21.WeighNeighbours | proposition_2_1.py:127-135 | the weighted lists of all nodes, or the pair that raises the error |
| Proposition21.BuildAdjacency | proposition_2_1.py:109-135 | without error the lists are exactly the configuration with lengths 1 and sqrt2 and every pair is at Manhattan distance 1 or 2; the error names an adjacent pair at another distance |
| Proposition21.WalksArePaths | proposition_2_1.py:110-135 | the walks of the built graph are exactly the paths of the configuration with their lengths |
| Proposition21.RouteIsSpan | proposition_2_1.py:157-164 | a good route in the built graph is exactly a path of the configuration within the dilation |
| Proposition21.UnreachableDisconnected | proposition_2_1.py:160-163 | a point the search never reaches is disconnected from p1 in the configuration |
| Proposition21.CloseOffsets | proposition_2_1.py:158-161 | the points within distance sqrt5 of p1 are the 21 offsets the loops visit |
| Proposition21.AllCloseRecorded | proposition_2_1.py:143-150 | once 21 close points are recorded, every point within distance sqrt5 is recorded |
| Proposition21.PassesMeans | proposition_2_1.py:157-164 | after the search, a close point passes exactly when a good route reaches it |
| Proposition21.CheckStep | proposition_2_1.py:160-164 | one inner iteration: passes, or the first failing point with the right error |
| Proposition21.CheckColumn | proposition_2_1.py:159-164 | the inner loop over dy |
| Proposition21.CheckAround | proposition_2_1.py:157-164 | succeeds exactly when every point within sqrt5 passes; otherwise names the first failure in loop order |
| Proposition21.VerifyShortestPaths | proposition_2_1.py:109-164 | success means every point within sqrt5 of every p1 is joined by a path of the configuration within the dilation. Each error names its cause: a long pair, a p1 with no edge, a disconnected point, or a point beyond the dilation |
| Proposition21.InitialConfig | proposition_2_1.py:49-59 | the initial configuration |
| Proposition21.InitialCharacterised | proposition_2_1.py:49-59 | it holds exactly the copies of the three base paths under the 81 shifts, in both orientations |
| Proposition21.NewEdges | proposition_2_1.py:80-90 | the segments chosen by the bits of the mask |
| Proposition21.MaskEdgesShape | proposition_2_1.py:80-90 | two edges per choice point, horizontal or vertical according to its bit |
| Proposition21.MasksCoverChoices | proposition_2_1.py:72-90 | every combination of horizontal and vertical choices is some mask below 16 |
| Proposition21.AddBoth | proposition_2_1.py:98-100 | both orientations of the new edges are added |
| Proposition21.BothMembers | proposition_2_1.py:98-106 | the pairs handled are exactly the new edges in either orientation |
| Proposition21.RemoveBoth | proposition_2_1.py:104-106 | removal deletes both orientations of the new edges, and succeeds whenever they are all present and pairwise apart |
| Proposition21.ShiftedSignature | proposition_2_1.py:54 | a pair's class modulo the periods is unchanged by the shifts |
| Proposition21.NotCopied | proposition_2_1.py:49-59 | no chosen segment is a pair of the initial configuration |
| Proposition21.MaskEdgesSeparate | proposition_2_1.py:80-90 | the chosen segments are pairwise distinct in both orientations |
| Proposition21.CaseRestored | proposition_2_1.py:98-106 | removing the chosen segments gives back the initial configuration |
| Proposition21.Exhaustive | proposition_2_1.py:62-106 | success means all 16 cases verify; an error names the first failing case, all before it verified |
| Figure2.WindowCharacterised | figure_2.py:43-51 | the candidate list holds exactly the points selected by the two scalar-product tests in the square, in loop order |
| Figure2.OriginInWindow | figure_2.py:49 | the origin is always selected |
| Figure2.FundamentalParallelogram | figure_2.py:31-51 | the loops build that list |
| Figure2.BuildExample | figure_2.py:66-78 | an example holds exactly the copies of its paths under the 49 shifts, in both orientations, with its candidate list |
| Figure2.FirstConfig | figure_2.py:66-78 | the first example |
| Figure2.SecondConfig | figure_2.py:81-98 | the second example |
| Figure2.ThirdConfig | figure_2.py:101-116 | the third example |
| Figure2.WindowChecked | figure_2.py:127-132 | a verified example has every candidate point joined within the dilation to each point within sqrt5 |
| Figure2.CheckExample | figure_2.py:127-132 | the check of one example succeeds only when it holds |
| Figure2.CheckExamples | figure_2.py:124-132 | success means every example holds; an error names the first failing example, all before it holding |
| Figure2.CheckFigure2 | figure_2.py:119-136 | the same for the three examples of the figure |
| Lemma24.NodesMembers | lemma_2_4.py:24 | the nodes are exactly the points of [-10, 10]^2 |
| Lemma24.LatticeNeighboursMembers | lemma_2_4.py:29-36 | q is listed with weight w exactly when q is a candidate at Manhattan distance 1, 2 or 3 with the matching weight |
| Lemma24.LatticeEdges | lemma_2_4.py:26-36 | the graph has an edge of weight 1, 2 or 3 plus sqrt2 between nodes at Manhattan distance 1, 2 or 3, and no other |
| Lemma24.LatticeWellFormed | lemma_2_4.py:26-36 | the weights are nonnegative and every listed neighbour is a node |
| Lemma24.BuildLatticeGraph | lemma_2_4.py:26-36 | the nested loops build one adjacency list per node, in node order |
| Lemma24.BuiltIsLattice | lemma_2_4.py:26-36 | the graph built is the lattice graph |
| Lemma24.SearchMeans | lemma_2_4.py:52-59 | after the search, a node passes exactly when a good route reaches it from the origin |
| Lemma24.AllPassed | lemma_2_4.py:52-59 | all nodes passing means the lemma holds on the square |
| Lemma24.NoneMissing | lemma_2_4.py:48 | the search never meets a point without an adjacency list |
| Lemma24.CheckNodes | lemma_2_4.py:53-59 | the final loop succeeds exactly when every node passes; otherwise it names the first failing node |
| Lemma24.CheckLemma24 | lemma_2_4.py:23-59 | the script succeeds exactly when every node of the square is reached from the origin within dilation 1 + sqrt2, and otherwise names a node that is not |

## Left out

- `interface.py`, `launch.py` and `lemma_3_8.py` are not part of this model. The statements `lemma_3_8.py` builds are inputs (`ToProve`) here.
- The interface object is modelled as a log of `Event` values, one per notification, without the edge snapshots the source passes to it.
- Plotting, the GUI class, progress output, `print` and the command-line parsing are left out.
- Exploration.Expand: the source's recursion has no bound. The model carries a fuel count, and running out is the `OutOfFuel` outcome, which skips the undo like an exception.
- Exploration.Expand: the contract states the first notification of a call, the invariants and the restoration. It does not state the whole sequence of notifications of the subtree.
- Exceptions are outcomes or verdicts. They end the run without undoing anything, as an uncaught exception does. This covers `ValueError`, `KeyError`, and the exception raised when `find_shortcut` compares with a missing length. That exception is an `AttributeError` from `__eq__` reading `.a` of `None` (proof.py:134, util.py:49-50, 64-65). When the start is already the target, it is a `TypeError` from `None - lg` (proof.py:130, util.py:55-56). The model does not tell the two apart: both are the `NoLengthGiven` outcome.
- Python iterates sets in an unspecified order. Loops over sets (`points`, `recent_points`, the pattern points, the configuration) pick an arbitrary next element here. Every contract holds for every order.
- Patterns.DetectPattern: it returns some matching point, not the first one in Python's set order.
- The numpy rotation and flip matrices are an explicit list of eight integer matrices, related to the powers of the rotation by a lemma.
- `PriorityQueue` is a sequence with extract-min under the same order on (distance, point) tuples.
- Figure2.FundamentalParallelogram: its docstring speaks of the parallelogram with sides v1 and v2. The code selects the points of [-10, 10]^2 whose scalar products with v1 and v2 lie in [0, |v1|^2) and [0, |v2|^2), which is a different region. The model follows the code.
- Traversal.FindShortcutCorrect: the recursive call of `find_shortcut` passes the new point itself as the previous one, so its no-return test never excludes a step. The model keeps this, and the walk found may go back on itself.
- GraphState.AddPathDegrees: the degree invariant is stated for paths whose consecutive points differ. `add_edge(a, a)` would raise the degree of a by two for a single edge. No path the search builds has such a step, and `add_path` does not check for it.
- Figure2.BuildExample: the three `*_config` functions share one body, parameterised by the example's paths and periods.

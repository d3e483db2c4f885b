# seqdiff in Dafny

A model of the sequence aligner of the Rust crate `seqdiff`, with proofs.
`diff_by(a, b, cmp)` aligns two sequences under an arbitrary predicate
`cmp` and returns two index arrays. `a2b[i] == Some(j)` says that `a[i]` is
matched with `b[j]`, and `b2a` is the same relation seen from `b`.

The arrays come from a walk through the edit graph of `a` and `b`. The walk
goes backward from `(n, m)` to `(0, 0)`. Each step lowers `i`, `j` or both
by one, and a step that lowers both is a match. The crate computes the walk
in two ways:

- **Myers' greedy search.** `get_shortest_edit_path_myers` follows E. Myers,
  "An O(ND) Difference Algorithm and Its Variations" (1986). It keeps a
  frontier array `v` indexed by diagonal. For each round `d` it extends every
  diagonal of the round: one move down or right, then a "snake" along related
  elements. It records each visited point's parent in a map, and stops when
  it reaches `(n, m)`. The `EditPath` iterator then follows the parent links
  back to the root.
- **The edit-distance grid.** This is a test oracle. It fills an
  `(n+1) × (m+1)` insert/delete distance grid, and the `EditPathFromGrid`
  iterator backtracks through it.

`path_to_diff` turns either walk into the two arrays.

The project is laid out as follows.

- `edit_graph.dfy` (`EditGraph`): what a backward walk is, which arrays
  describe a walk, what makes a pair of arrays an alignment, and the cost of
  a walk (its non-diagonal steps). It proves that arrays describing a walk
  are unique. It also proves that when a walk's diagonals relate their
  elements, its arrays form an alignment.
- `myers_search.dfy` (`MyersSearch`): the search written as functions,
  shaped like its loops. A diagonal's start point, the snake, one diagonal,
  one round and the whole search each get a function.
- `myers_proof.dfy` (`MyersProof`): the search's invariant. The search
  always breaks out, in a round no larger than `n + m`, at `(n, m)`. Every
  recorded link is a unit back step, and a diagonal link relates its
  elements.
- `myers_self.dfy` (`MyersSelf`): a sequence diffed against itself.
- `seqdiff.dfy` (`SeqDiff`): the imperative code of `src/lib.rs`. It has the
  `EditPath` class, the search with the frontier as an `array` and its three
  nested loops, `path_to_diff` writing into arrays, `diff_by` and `diff`.
  Each loop is proved against the functions of `MyersSearch`.
- `edit_distance.dfy` (`EditDistance`): the insert/delete distance `Dist`
  that the grid holds, as a function. It proves that `Dist(i, j)` is the
  least cost of any walk from (i, j) to (0, 0) whose diagonals relate their
  elements.
- `myers_optimal.dfy` (`MyersOptimal`): the promise of `src/lib.rs:35`, that
  the search returns a shortest walk. After round d every grid point at
  distance <= d lies no further than the frontier point of its diagonal, and
  every frontier point written in round d has a walk of cost <= d, so the
  search breaks out in round `Dist(n, m)` with a walk of that cost.
- `grid.dfy` (`GridOracle`): the oracle of `src/tests.rs`. It has the grid
  fill on an `array2`, the `EditPathFromGrid` class and its backtracking
  choice. It proves that the oracle's walk attains the least cost.
- `agreement.dfy` (`OracleAgreement`): the quickcheck equality
  `path_to_diff(grid) == diff`, proved for two families of inputs.
- `examples.dfy` (`ConcreteCases`): the fixed cases of `test_diff`, for both
  producers.

`cmp` is an arbitrary Dafny function `(A, B) -> bool`. `usize` becomes
`nat`. The model proves that no subtraction underflows and that no
placeholder survives in the grid.

## Model

| member | source | states |
|---|---|---|
| MyersSearch.Walk | src/lib.rs:22-33 | following parent links from a key of a well-linked map gives a backward path that starts at that key, stays among the keys and ends at (0, 0), linked to `Root` |
| MyersSearch.WalkLink | src/lib.rs:28 | consecutive points of the walk are a key and the parent recorded for it |
| MyersSearch.StartOf | src/lib.rs:51-59 | the start of diagonal k in round d, chosen as the code chooses (down from k+1 at the lower edge or when `v[k-1] < v[k+1]`, otherwise right from k-1); its y coordinate never underflows |
| MyersSearch.Snake | src/lib.rs:62-66 | the snake never moves x backward |
| MyersSearch.VisitDiagonal | src/lib.rs:51-67 | visiting diagonal k changes the frontier only at k, to a point whose y is defined |
| MyersSearch.RoundFrom | src/lib.rs:50-71 | a round that does not break out leaves a frontier of the same size, with y defined on every diagonal of the round |
| MyersSearch.FrontierKept | src/lib.rs:53-58 | writing v[k] keeps the frontier entries the rest of the round reads (indices k-1 and k+1 inside `v`) |
| MyersSearch.SameRound | src/lib.rs:50 | diagonals of one round have the same parity, stepped by 2 |
| MyersSearch.SearchFrom | src/lib.rs:49-72 | the rounds from d on, `break 'outer` included: a break-out happens in a round between d and n + m |
| MyersSearch.MyersOutcome | src/lib.rs:43-48 | the search from `vec![0; 2 * bound + 1]` and an empty map: a break-out happens in a round <= n + m |
| MyersSearch.ZeroFrontier | src/lib.rs:47 | the initial frontier has 2 * bound + 1 entries, all zero |
| MyersProof.SnakeFacts | src/lib.rs:62-66 | the snake adds only diagonal links between related elements, staying inside the grid |
| MyersProof.StartFacts | src/lib.rs:51-61 | the start point lies inside the grid or beyond its edge in the reflected way, and its parent is a key one unit back |
| MyersProof.VisitFacts | src/lib.rs:51-67 | one diagonal keeps every link valid and the frontier invariant, or hits a point with x >= n and y >= m |
| MyersProof.RoundFacts | src/lib.rs:50-71 | a round keeps the invariant diagonal by diagonal, and a break-out happens exactly at (n, m) |
| MyersProof.Transition | src/lib.rs:49-72 | a round that does not break out is not the last one (d < n + m) and leaves the invariant for round d + 1 |
| MyersProof.SearchStep | src/lib.rs:49-72 | one round of the search either breaks out at (n, m) with a valid map, or moves on with the invariant |
| MyersProof.SearchFacts | src/lib.rs:49-72 | from any round satisfying the invariant, the search breaks out in a round <= n + m |
| MyersProof.MyersSearchFound | src/lib.rs:39-78 | the search always breaks out in a round <= n + m with (n, m) a key of the map, and every link is a unit back step whose diagonal links relate their elements |
| MyersProof.WalkDiagonals | src/lib.rs:63 | a walk through a map whose diagonal links relate their elements has only related diagonal steps |
| MyersProof.MyersPath | src/lib.rs:74-77 | what the returned iterator yields is a backward path from (n, m) to (0, 0) whose diagonal steps relate their elements |
| MyersOptimal.RoundsApart | src/lib.rs:50 | diagonals of consecutive rounds differ |
| MyersOptimal.LastOnRound | src/lib.rs:50 | the only diagonal of round e within 2 of bound + e is bound + e itself |
| MyersOptimal.FarAt | src/lib.rs:49-72 | a grid point the rounds so far cover lies no further than the frontier point of its diagonal |
| MyersOptimal.DistOnRound | src/lib.rs:50 | a point at grid distance e lies on a diagonal that round e visits |
| MyersOptimal.WalkExtended | src/lib.rs:61-63 | the walk from a key is the same in any map that keeps every earlier link |
| MyersOptimal.CostCons | src/lib.rs:35 | the cost of a walk with one more point in front |
| MyersOptimal.SnakeKeeps | src/lib.rs:62-66 | when no key lies further along the diagonal, the snake keeps every link and adds keys of that diagonal only, up to where it stops |
| MyersOptimal.DiagonalLinked | src/lib.rs:63 | linking (x + 1, y + 1) to (x, y) over related elements keeps the links valid and adds no cost |
| MyersOptimal.SnakeCost | src/lib.rs:62-66 | the snake ends on its diagonal, as a key whose walk costs what the walk from its start costs |
| MyersOptimal.SnakeReaches | src/lib.rs:62 | the snake runs at least through every related point in a run from its start |
| MyersOptimal.NeighbourCovered | src/lib.rs:51-59 | a point of diagonal k at distance <= d that does not follow a match lies no further than the start the code chooses |
| MyersOptimal.RunBack | src/lib.rs:51-66 | every point of diagonal k at distance <= d lies at or before the start, or is joined to it by a run of related elements |
| MyersOptimal.DiagReach | src/lib.rs:51-66 | the snake from the chosen start passes every point of diagonal k at distance <= d (the furthest-reaching property of Myers' paper) |
| MyersOptimal.StartAfterKeys | src/lib.rs:53-61 | the chosen start of an inner diagonal lies beyond every key already on that diagonal |
| MyersOptimal.StartDownOpt | src/lib.rs:53-55 | a start that steps down from k + 1 lies beyond both neighbours' frontier points, one non-diagonal step after a point whose walk costs at most d - 1 |
| MyersOptimal.StartRightOpt | src/lib.rs:56-58 | a start that steps right from k - 1 lies beyond both neighbours' frontier points, one non-diagonal step after a point whose walk costs at most d - 1 |
| MyersOptimal.OptStart | src/lib.rs:51-59 | the start of diagonal k is new to the map, beyond the neighbours' frontier points, with a parent one step back whose walk costs at most d - 1 |
| MyersOptimal.StartLinked | src/lib.rs:61 | inserting the start's link keeps every earlier link and gives a walk of cost at most d from the start |
| MyersOptimal.SteppedKeys | src/lib.rs:61-67 | after diagonal k, every key still lies on a visited diagonal no further than its frontier point |
| MyersOptimal.PrevKept | src/lib.rs:67 | writing v[k] and extending the map keeps the fact of a round d - 1 point that round d still reads |
| MyersOptimal.AdvancePrev | src/lib.rs:67 | after diagonal k every round d - 1 point that round d still reads keeps its fact |
| MyersOptimal.CurKept | src/lib.rs:67 | writing v[k] keeps the facts of an earlier diagonal of round d |
| MyersOptimal.CurGained | src/lib.rs:67 | the point written to v[k] lies beyond its neighbours and its walk costs at most d |
| MyersOptimal.AdvanceCur | src/lib.rs:67 | after diagonal k every visited diagonal of round d, k included, holds a point whose walk costs at most d |
| MyersOptimal.SteppedReach | src/lib.rs:67 | after diagonal k every grid point of distance < d, or d on a visited diagonal, lies no further than its frontier point |
| MyersOptimal.OptAdvance | src/lib.rs:50-67 | the optimality facts move on from diagonal k to k + 2 |
| MyersOptimal.SameCost | src/lib.rs:61-63 | a key whose walk costs what a walk within cost c costs is within cost c |
| MyersOptimal.SnakeStep | src/lib.rs:62-66 | the snake from a linked start stops no earlier than it started, keeps every link, adds keys of its diagonal only and adds no cost |
| MyersOptimal.ExtendsTrans | src/lib.rs:61-63 | keeping every link is transitive |
| MyersOptimal.NewKeysJoin | src/lib.rs:61-63 | the start and the snake add keys of diagonal k only, between the start and where the snake stops |
| MyersOptimal.VisitStepped | src/lib.rs:62-67 | from a linked start beyond every key of its diagonal, the snake keeps all optimality facts for diagonal k |
| MyersOptimal.VisitPrepared | src/lib.rs:51-61 | the chosen start, once linked, meets what the snake step needs |
| MyersOptimal.VisitParts | src/lib.rs:51-67 | visiting diagonal k writes where the snake from its linked start stops, with the snake's map |
| MyersOptimal.OptVisit | src/lib.rs:51-67 | visiting diagonal k writes a point whose walk costs at most d and keeps the optimality facts for k + 2 |
| MyersOptimal.CostAtEnd | src/lib.rs:68 | a point within cost c at (n, m) is (n, m) within cost c |
| MyersOptimal.OptRoundStep | src/lib.rs:50-71 | one diagonal of round d either ends the round with (n, m) within cost d or the round's facts, or moves on to k + 2 with them |
| MyersOptimal.VisitBoth | src/lib.rs:51-67 | visiting diagonal k keeps the search invariant and the optimality facts, and leaves a walk of cost at most d from the new point |
| MyersOptimal.RoundStepFrom | src/lib.rs:68-71 | after the visit of diagonal k, the round either breaks out with (n, m) within cost d, ends with the facts of a completed round, or moves on to k + 2 with the invariant and the facts |
| MyersOptimal.ReachedOptimal | src/lib.rs:68-69 | a visit that lands on (n, m) with a walk of cost at most d is a break-out the round promises |
| MyersOptimal.RunningOptimal | src/lib.rs:50 | a round whose last diagonal was visited hands on the optimality facts of a completed round |
| MyersOptimal.RoundOpt | src/lib.rs:50-71 | a round that breaks out reaches (n, m) with a walk of cost at most d; one that completes keeps the optimality facts |
| MyersOptimal.OptNext | src/lib.rs:49-50 | a completed round hands the optimality facts to the first diagonal of round d + 1 |
| MyersOptimal.NextKeys | src/lib.rs:49-50 | the keys written in round d are the ones behind the first diagonal of round d + 1 |
| MyersOptimal.NextPrev | src/lib.rs:49-50 | every diagonal round d visited holds, for round d + 1, a point whose walk costs at most d |
| MyersOptimal.NextReach | src/lib.rs:49-50 | a completed round d reaches, on every diagonal, as far as any point of cost at most d |
| MyersOptimal.NextBelowDist | src/lib.rs:49-72 | a completed round d <= Dist(n, m) that did not break out is below Dist(n, m) |
| MyersOptimal.DistBeyond | src/lib.rs:49-72 | if round d - 1 left diagonal 2n short of x = n, then (n, m) is not at distance d - 1 |
| MyersOptimal.SearchOptStep | src/lib.rs:49-72 | one round from d <= Dist(n, m) either breaks out in a round <= Dist(n, m) with a walk from (n, m) of cost at most that round, or moves on to a round d + 1 <= Dist(n, m) with the facts |
| MyersOptimal.BrokeOut | src/lib.rs:68-69 | a break-out in round d <= c leaves a walk from (n, m) of cost at most d |
| MyersOptimal.OptNextRound | src/lib.rs:49-72 | a completed round d <= Dist(n, m) is followed by a round d + 1 <= Dist(n, m) with the optimality facts |
| MyersOptimal.MissedEnd | src/lib.rs:68-69 | a round that completes without breaking out left diagonal 2n, the diagonal of (n, m), short of x = n |
| MyersOptimal.SearchOpt | src/lib.rs:49-72 | from a round d <= Dist(n, m) the search breaks out in a round <= Dist(n, m), with a walk from (n, m) of cost at most that round |
| MyersOptimal.InitialOpt | src/lib.rs:47-48 | the all-zero frontier and empty map satisfy the optimality facts on entry to round 0 |
| MyersOptimal.MyersWithinDist | src/lib.rs:39-78 | the search breaks out in a round <= Dist(n, m), with a walk from (n, m) of cost at most that round |
| MyersOptimal.MyersShortest | src/lib.rs:35-78 | the returned walk is a shortest edit path: its cost is exactly Dist(n, m) |
| MyersOptimal.MyersBreakRound | src/lib.rs:49-72 | the search breaks out exactly in round Dist(n, m) |
| MyersOptimal.MyersMatchesSomething | src/lib.rs:97-102 | when some pair is related, the Myers arrays match at least one element on each side |
| SeqDiff.EditPath.constructor | src/lib.rs:74-77 | the iterator holds the map and current node it is given |
| SeqDiff.EditPath.Next | src/lib.rs:24-32 | `next` yields the head of the remaining walk and keeps the rest; at the root it yields `None` and stays there; the map is unchanged and the lookup (`unwrap`) always succeeds |
| SeqDiff.EditPath.Collect | src/lib.rs:86 | draining the iterator yields exactly the walk it had left |
| SeqDiff.ExtendDiagonal | src/lib.rs:51-70 | the loop body on diagonal k, with the snake `while`, computes what `VisitDiagonal` specifies and reports a break-out exactly when the round's outcome is `Reached` |
| SeqDiff.SearchRound | src/lib.rs:50-71 | the inner `for` over diagonals computes the round's outcome: the map at a break-out, or the new frontier and map |
| SeqDiff.GetShortestEditPathMyers | src/lib.rs:39-78 | the nested loops build the map of the specified search; the iterator starts at (n, m) and yields `MyersPath` |
| SeqDiff.SearchRounds | src/lib.rs:43-72 | the outer `for` over rounds, from the all-zero frontier, breaks out with the map of the specified search |
| SeqDiff.PathToDiff | src/lib.rs:82-95 | the arrays are sized by the first point and hold exactly the matches of the diagonal steps, in both directions |
| SeqDiff.DiffBy | src/lib.rs:97-102 | `diff_by` returns arrays that describe the Myers walk and form an alignment: lengths n and m, mutually inverse, strictly increasing, every match related by `cmp`; the walk is shortest (cost `Dist(n, m)`); all `None` when nothing is related, and a match on each side when some pair is related |
| SeqDiff.Equal | src/lib.rs:105 | `PartialEq::eq` of a type whose equality is Dafny's holds exactly for equal values |
| SeqDiff.DiffEq | src/lib.rs:104-106 | `diff` matches only equal elements, and a sequence diffed against itself is matched with itself (`a2b == b2a`, the identity) |
| EditGraph.Cost | src/lib.rs:35 | a walk has fewer non-diagonal steps than points |
| EditGraph.CostWithoutDiagonals | src/lib.rs:35 | a walk without diagonal steps costs exactly the drop in i + j |
| EditGraph.CheapPathMatches | src/lib.rs:86-90 | a walk to (0, 0) that costs less than i + j of its start has a match in each array |
| EditGraph.PathDominates | src/lib.rs:86-93 | along a backward walk both coordinates never increase and i + j drops by at least one per step |
| EditGraph.MatchedInside | src/lib.rs:83-89 | every matched pair lies inside the arrays sized by the first point |
| EditGraph.MatchedOrdered | src/lib.rs:86-93 | two matched pairs are ordered the same way in both coordinates |
| EditGraph.DescribedIsAlignment | src/lib.rs:82-95 | arrays describing a walk from (n, m) whose diagonals relate their elements are an alignment: sizes, mutual inverse, strictly increasing, every match related |
| EditGraph.DescribesPathUnique | src/lib.rs:82-95 | a walk determines its arrays |
| MyersSelf.DiagMap | src/lib.rs:62-63 | the map the round-0 snake builds up to (x, x) holds (x, x) |
| MyersSelf.DiagonalPath | src/lib.rs:22-33 | the main-diagonal walk from (x, x) has x + 1 points |
| MyersSelf.Identity | python/tests/test_main.py:43-46 | the identity arrays match every i with i |
| MyersSelf.DiagMapAt | src/lib.rs:61-63 | the keys of the diagonal map are exactly the diagonal points up to (x, x), each linked to the one before |
| MyersSelf.DiagMapValid | src/lib.rs:61-63 | the diagonal map is well linked |
| MyersSelf.SnakeSelf | src/lib.rs:62-66 | with a reflexive predicate the snake from (x, x) runs to (n, n) |
| MyersSelf.SearchSelf | src/lib.rs:49-70 | diffing a sequence against itself breaks out in round 0 |
| MyersSelf.WalkSelf | src/lib.rs:22-33 | the walk back through the diagonal map follows the main diagonal |
| MyersSelf.DiagonalPathAt | src/lib.rs:22-33 | point t of the main-diagonal walk from (x, x) is (x - t, x - t) |
| MyersSelf.DiagonalDescribed | src/lib.rs:82-95 | the identity arrays describe the main-diagonal walk |
| MyersSelf.SelfDiffIdentity | python/tests/test_main.py:43-46 | with a reflexive predicate, the arrays of a self-diff are both the identity, so `a2b == b2a` |
| EditDistance.Dist | src/tests.rs:50-65 | the grid value at (i, j): at most i + j, and at least the difference of i and j |
| EditDistance.MatchCount | src/tests.rs:56-64 | i + j is the grid value plus twice a count of matches, so the grid value has the parity of i + j |
| EditDistance.DistNeighbours | src/tests.rs:56-64 | neighbouring grid values differ by at most one |
| EditDistance.DistSteps | src/tests.rs:56-64 | neighbouring grid values differ by exactly one |
| EditDistance.DistIsShortest | src/tests.rs:54-67 | every walk to (0, 0) whose diagonals relate their elements costs at least the grid value of its start |
| EditDistance.RestIsPath | src/lib.rs:86-93 | dropping the first point of a backward walk whose diagonals relate their elements leaves such a walk |
| EditDistance.DistWithMatch | src/tests.rs:54-67 | one related pair below (i, j) brings the grid value at least 2 under i + j |
| GridOracle.GridFacts | src/tests.rs:50-65 | a grid holding `Dist` has the borders `j` and `i`, the recurrence of the fill, and no `usize::MAX` placeholder |
| GridOracle.GridWalkUnfold | src/tests.rs:14-41 | the oracle's walk from (i, j) costs one step more than its walk from the next point, or the same after a diagonal step |
| GridOracle.FillGrid | src/tests.rs:46-67 | the fill holds `Dist` in every cell: `d[0][j] == j`, `d[i][0] == i`, the recurrence `d[i+1][j+1] == d[i][j]` on related elements and otherwise `1 + min(d[i+1][j], d[i][j+1])`; no `usize::MAX` placeholder survives |
| GridOracle.FillRow | src/tests.rs:55-66 | filling row i + 1 column by column, with the `u`/`l` choice, keeps every filled cell equal to `Dist` and changes no cell outside columns 1..m of that row |
| GridOracle.Min | src/tests.rs:59-64 | the smaller of the two neighbours, as the `u`/`l` swap picks it |
| GridOracle.GridStep | src/tests.rs:22-38 | the backtracking choice is a unit back step |
| GridOracle.GridWalk | src/tests.rs:14-41 | backtracking from (i, j) is a backward path from (i, j) to (0, 0) |
| GridOracle.GridPath | src/tests.rs:69-73 | the oracle's walk runs from (n, m) to (0, 0) |
| GridOracle.GridStepDiagonal | src/tests.rs:29-30 | the oracle takes a diagonal step only over related elements |
| GridOracle.GridWalkDiagonals | src/tests.rs:14-41 | every diagonal step of the oracle's walk relates its elements |
| GridOracle.GridStepCost | src/tests.rs:23-38 | a diagonal step keeps the grid value, and any other step lowers it by one |
| GridOracle.GridWalkCost | src/tests.rs:14-41 | the oracle's walk from (i, j) costs exactly `Dist(i, j)` |
| GridOracle.GridMatchesSomething | src/tests.rs:76-83 | when some pair is related, the oracle's arrays hold a match in each array |
| GridOracle.EditPathFromGrid.constructor | src/tests.rs:69-73 | the iterator starts at the given point, not exhausted, over a grid holding `Dist` |
| GridOracle.EditPathFromGrid.Next | src/tests.rs:14-41 | `next` yields the current point and moves by the grid choice; (0, 0) is yielded once, then `None` forever |
| GridOracle.EditPathFromGrid.Collect | src/tests.rs:78 | draining the iterator yields exactly the walk it had left |
| GridOracle.GetShortestEditPathGrid | src/tests.rs:46-74 | the iterator yields the oracle's walk from (n, m) |
| GridOracle.GridDiff | src/tests.rs:78 | the oracle's arrays describe its walk and form an alignment |
| OracleAgreement.DistSelf | src/tests.rs:56-57 | with a reflexive predicate the diagonal grid values are 0 |
| OracleAgreement.GridWalkSelf | src/tests.rs:23-33 | with a reflexive predicate the oracle backtracks along the main diagonal |
| OracleAgreement.SelfPathsAgree | src/tests.rs:76-80 | for a self-diff both producers yield the same walk, the main diagonal |
| OracleAgreement.SelfDiffsAgree | src/tests.rs:76-80 | for a self-diff both producers give the same arrays |
| OracleAgreement.NothingMatched | src/tests.rs:89-92 | when no pair is related, arrays of any related-diagonal walk from (n, m) are all `None` |
| OracleAgreement.UnrelatedDiffsAgree | src/tests.rs:76-80 | when no pair is related, both producers give the same all-`None` arrays |
| OracleAgreement.CostsAgree | src/tests.rs:76-84 | on every input both producers give walks of the same cost, `Dist(n, m)` |
| ConcreteCases.NaNCase | src/tests.rs:89-92 | `diff([NaN], [NaN]) == ([None], [None])` |
| ConcreteCases.NaNCaseAgrees | src/tests.rs:89-92 | the oracle gives the same arrays on the NaN case |
| ConcreteCases.MyersRound0 | src/lib.rs:49-67 | on [1., 2., 3.] against [1., 3.], round 0 ends its snake at (1, 1) |
| ConcreteCases.MyersRound1Down | src/lib.rs:53-55 | diagonal 4 of round 1 steps down to (1, 2) |
| ConcreteCases.MyersRound1Right | src/lib.rs:56-66 | diagonal 6 of round 1 steps right to (2, 1) and snakes to (3, 2) |
| ConcreteCases.F64Eq | src/tests.rs:90 | `PartialEq` for `f64`: only equal numbers are related, every number is related to itself, and NaN to nothing |
| ConcreteCases.MyersRound1 | src/lib.rs:68-69 | round 1 breaks out at (3, 2) |
| ConcreteCases.MyersWalkExample | src/lib.rs:22-33 | the walk back from (3, 2) is (3, 2), (2, 1), (1, 1), (0, 0) |
| ConcreteCases.MyersExample | src/lib.rs:39-78 | the Myers walk on this case is (3, 2), (2, 1), (1, 1), (0, 0) |
| ConcreteCases.DistExample | src/tests.rs:54-67 | the grid values the oracle reads on this case |
| ConcreteCases.GridStepsExample | src/tests.rs:23-38 | the oracle's three backtracking choices on this case |
| ConcreteCases.GridExample | src/tests.rs:14-41 | the oracle's walk on this case is the same as the Myers walk |
| ConcreteCases.ExpectedDescribed | src/lib.rs:82-95 | the expected arrays describe that walk |
| ConcreteCases.ExampleCase | src/tests.rs:93-96 | `diff([1., 2., 3.], [1., 3.]) == ([Some(0), None, Some(1)], [Some(0), Some(2)])`, and the oracle agrees |

## Left out

- The Python binding (`python/src/lib.rs`) is left out. It is foreign calls into the Python runtime, and `cmp` already stands for whatever it compares with.
- The terminal presentation (`python/seqdiff/__init__.py`) and the benchmarks (`benches/main.rs`) are left out. They only consume the arrays, and they use I/O and floating point.
- `HashMap` hashing and iteration order are not modelled. `nodes_map` is a Dafny `map` from points to nodes. Its keys are always `Node::P` in the code, so the key type is a point.
- `usize` is modelled as `nat`, with no wrap-around. The model proves that no subtraction underflows. The grid's `usize::MAX` placeholder is the constant `Unset`.
- The quickcheck and hypothesis harnesses are not modelled. Their random inputs become universally quantified lemmas, or concrete lemmas for the fixed cases.
- OracleAgreement.SelfDiffsAgree: the general equality of the Myers and grid arrays for all inputs (src/tests.rs:76-84) is proved only for a self-diff with a reflexive predicate, for inputs with no related pair, and for the fixed cases. For arbitrary inputs the model proves that both walks are shortest and so of equal cost (`OracleAgreement.CostsAgree`). When several shortest walks exist, it does not prove that the two producers pick the same one.
- SeqDiff.PathToDiff: it requires a non-empty backward path. The code unwraps the first point and panics on an empty iterator, but both iterators it is given always yield (n, m) first.
- Floats are modelled as a real number or NaN, compared as `PartialEq for f64` compares them. Infinities and signed zeros are not modelled, and the fixed cases do not use them.
- SeqDiff.DiffEq: `diff` uses `PartialEq::eq`, modelled as Dafny equality. A `PartialEq` that is not an equality, such as float comparison, is covered by `DiffBy` with that predicate as `cmp`.
- `EditPathFromGrid` holds `a`, `b` and `cmp` as ghost fields, so that `next` can be stated against the grid function. The Rust struct holds only the grid.
- The iterators are drained into a sequence by `Collect` before `path_to_diff` runs. This is `path_to_diff`'s `for` loop, generic over both iterator types. Lazy interleaving is not modelled, because `path_to_diff` only consumes the iterator by that loop.
- The grid `Vec<Vec<usize>>` is an `array2<nat>`. The grid code compares with `==` (`PartialEq<B>`), which is modelled as the same `cmp` predicate.

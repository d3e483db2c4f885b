/**
  The search of src/lib.rs:39-78 finds a shortest edit path (the promise of
  src/lib.rs:35): the walk back from (n, m) leaves exactly Dist(n, m)
  elements unmatched, the fewest any walk whose diagonal steps join related
  elements can leave.

  The proof carries three facts from round to round, beside those of
  MyersProof:
  - no point is linked twice: every key of the map lies on a diagonal
    already visited, no further than that diagonal's frontier point, and
    each round starts a diagonal beyond its old frontier point; so the walk
    from a key never changes once the key is in the map;
  - the walk from the frontier point of a diagonal written in round e
    leaves at most e elements unmatched;
  - the frontier is furthest reaching: after round e every grid point at
    distance <= e lies no further than the frontier point of its diagonal.
  The last fact puts (n, m) on the frontier by round Dist(n, m), where the
  search breaks out.
*/
module MyersOptimal {
  import opened EditGraph
  import opened MyersSearch
  import opened MyersProof
  import opened EditDistance

  /** `nodes'` keeps every link of `nodes`. */
  ghost predicate Extends(nodes: NodesMap, nodes': NodesMap) {
    forall q | q in nodes :: q in nodes' && nodes'[q] == nodes[q]
  }

  /** The walk from `p` leaves at most `c` elements unmatched. */
  ghost predicate WithinCost(nodes: NodesMap, p: Point, c: int) {
    LinksValid(nodes) && p in nodes && Cost(Walk(nodes, p)) <= c
  }

  /** Diagonal j was visited before diagonal k of round d. */
  ghost predicate Visited(bound: nat, d: nat, k: int, j: int) {
    (bound - (d - 1) <= j <= bound + (d - 1)) || (OnRound(bound, d, j) && j < k)
  }

  /** Every key lies on a visited diagonal, no further than that diagonal's frontier point. */
  ghost predicate KeysBehind(bound: nat, v: seq<nat>, nodes: NodesMap, d: nat, k: int) {
    forall p | p in nodes ::
      var j := p.0 + bound - p.1;
      0 <= j < |v| && Visited(bound, d, k, j) && p.0 <= v[j]
  }

  /**
    The point of diagonal j written in round d - 1: its walk costs at most
    d - 1, and it lies beyond the round d - 2 points of its neighbours that
    round d has yet to overwrite.
  */
  ghost predicate PrevOpt(bound: nat, v: seq<nat>, nodes: NodesMap, d: nat, k: int, j: int) {
    && 1 <= j && j + 1 < |v| && v[j] + bound >= j
    && WithinCost(nodes, (v[j], v[j] + bound - j), d - 1)
    && (j > bound - (d - 1) && j - 1 >= k ==> v[j] >= v[j - 1] + 1)
    && (j < bound + (d - 1) && j + 1 >= k ==> v[j] >= v[j + 1])
  }

  /** The point of diagonal j written in round d: its walk costs at most d, and it lies beyond its neighbours. */
  ghost predicate CurOpt(bound: nat, v: seq<nat>, nodes: NodesMap, d: nat, j: int) {
    && 0 <= j < |v| && v[j] + bound >= j
    && WithinCost(nodes, (v[j], v[j] + bound - j), d)
    && (j > bound - d ==> 1 <= j && v[j] >= v[j - 1] + 1)
    && (j < bound + d ==> j + 1 < |v| && v[j] >= v[j + 1])
  }

  /** A grid point the rounds so far cover lies no further than the frontier point of its diagonal. */
  ghost predicate FarEnough<A, B>(a: seq<A>, b: seq<B>, cmp: (A, B) -> bool, v: seq<nat>, d: nat, k: int, x: nat, y: nat)
    requires x <= |a| && y <= |b|
  {
    var j := x + |a| + |b| - y;
    (Dist(a, b, cmp, x, y) < d || (Dist(a, b, cmp, x, y) == d && j < k)) ==> 0 <= j < |v| && x <= v[j]
  }

  ghost predicate Reaches<A, B>(a: seq<A>, b: seq<B>, cmp: (A, B) -> bool, v: seq<nat>, d: nat, k: int) {
    forall x: nat, y: nat | x <= |a| && y <= |b| :: FarEnough(a, b, cmp, v, d, k, x, y)
  }

  /** Diagonals of consecutive rounds have opposite parities. */
  lemma RoundsApart(bound: nat, e: int, j: int, k: int)
    requires OnRound(bound, e - 1, j) && OnRound(bound, e, k)
    ensures j != k
  {
  }

  /** The last diagonal of round e is bound + e. */
  lemma LastOnRound(bound: nat, e: int, j: int)
    requires OnRound(bound, e, j) && j + 2 > bound + e
    ensures j == bound + e
  {
  }

  /** A covered grid point lies no further than the frontier point of its diagonal. */
  lemma FarAt<A, B>(a: seq<A>, b: seq<B>, cmp: (A, B) -> bool, v: seq<nat>, d: nat, k: int, x: nat, y: nat)
    requires Reaches(a, b, cmp, v, d, k) && x <= |a| && y <= |b|
    requires Dist(a, b, cmp, x, y) < d || (Dist(a, b, cmp, x, y) == d && x + |a| + |b| - y < k)
    ensures 0 <= x + |a| + |b| - y < |v| && x <= v[x + |a| + |b| - y]
  {
    assert FarEnough(a, b, cmp, v, d, k, x, y);
  }

  /** The optimality facts on entry to diagonal k of round d. */
  ghost predicate Opt<A, B>(a: seq<A>, b: seq<B>, cmp: (A, B) -> bool, d: nat, k: int, v: seq<nat>, nodes: NodesMap) {
    var bound := |a| + |b|;
    && |v| == 2 * bound + 1
    && KeysBehind(bound, v, nodes, d, k)
    && (forall j {:trigger PrevOpt(bound, v, nodes, d, k, j)} | OnRound(bound, d - 1, j) :: PrevOpt(bound, v, nodes, d, k, j))
    && (forall j {:trigger CurOpt(bound, v, nodes, d, j)} | OnRound(bound, d, j) && j < k :: CurOpt(bound, v, nodes, d, j))
    && Reaches(a, b, cmp, v, d, k)
  }

  /** The start of diagonal k lies beyond the frontier points of the neighbours it may come from. */
  ghost predicate StartBeyond(bound: nat, v: seq<nat>, d: nat, k: int, sx: nat) {
    && (k > bound - d ==> 1 <= k <= |v| && sx >= v[k - 1] + 1)
    && (k < bound + d ==> 0 <= k + 1 < |v| && sx >= v[k + 1])
  }

  /** The point of diagonal k at x = t joins two related elements. */
  ghost predicate RelatedOnDiagonal<A, B>(a: seq<A>, b: seq<B>, cmp: (A, B) -> bool, bound: nat, k: int, t: int) {
    0 <= t < |a| && 0 <= t + bound - k < |b| && cmp(a[t], b[t + bound - k])
  }

  /** Every point of diagonal k from x = lo up to x = hi (excluded) joins two related elements. */
  ghost predicate RelatedRun<A, B>(a: seq<A>, b: seq<B>, cmp: (A, B) -> bool, bound: nat, k: int, lo: nat, hi: nat) {
    forall t | lo <= t < hi :: RelatedOnDiagonal(a, b, cmp, bound, k, t)
  }

  /** A point at distance e lies on a diagonal of round e. */
  lemma DistOnRound<A, B>(a: seq<A>, b: seq<B>, cmp: (A, B) -> bool, x: nat, y: nat)
    requires x <= |a| && y <= |b|
    ensures OnRound(|a| + |b|, Dist(a, b, cmp, x, y), x + |a| + |b| - y)
  {
    var e, h := Dist(a, b, cmp, x, y), MatchCount(a, b, cmp, x, y);
    assert (x + |a| + |b| - y) - (|a| + |b|) + e == 2 * (x - h);
  }

  /** A walk through a map is kept by any map that keeps its links. */
  lemma {:induction false} WalkExtended(nodes: NodesMap, nodes': NodesMap, p: Point)
    requires LinksValid(nodes) && LinksValid(nodes') && Extends(nodes, nodes') && p in nodes
    ensures p in nodes' && Walk(nodes', p) == Walk(nodes, p)
    decreases p.0 + p.1
  {
    assert LinkOk(nodes, p);
    match nodes[p]
    case Root =>
    case P(x, y) =>
      WalkExtended(nodes, nodes', (x, y));
  }

  /** The cost of a walk with one more point in front. */
  lemma CostCons(p: Point, rest: seq<Point>)
    requires |rest| > 0
    ensures Cost([p] + rest) == (if IsDiagonal(p, rest[0]) then 0 else 1) + Cost(rest)
  {
    assert ([p] + rest)[1..] == rest;
  }

  /** The snake from (x, y), when no key lies further along its diagonal, only adds keys on that diagonal up to where it stops. */
  lemma {:induction false} SnakeKeeps<A, B>(a: seq<A>, b: seq<B>, cmp: (A, B) -> bool, x: nat, y: nat, nodes: NodesMap)
    requires forall p | p in nodes && p.0 > x :: p.0 + y != p.1 + x
    ensures Extends(nodes, Snake(a, b, cmp, x, y, nodes).1)
    ensures forall q | q in Snake(a, b, cmp, x, y, nodes).1 && q !in nodes ::
              x < q.0 <= Snake(a, b, cmp, x, y, nodes).0 && q.0 + y == q.1 + x
    decreases |a| - x
  {
    if x < |a| && y < |b| && cmp(a[x], b[y]) {
      var nodes1 := nodes[(x + 1, y + 1) := P(x, y)];
      assert (x + 1, y + 1) !in nodes;
      SnakeKeeps(a, b, cmp, x + 1, y + 1, nodes1);
    }
  }

  /** Linking a new point diagonally to (x, y) gives a walk that costs what the walk from (x, y) costs. */
  lemma DiagonalLinked<A, B>(a: seq<A>, b: seq<B>, cmp: (A, B) -> bool, nodes: NodesMap, x: nat, y: nat)
    requires LinksValid(nodes) && DiagonalLinksMatch(a, b, cmp, nodes) && (x, y) in nodes && (x + 1, y + 1) !in nodes
    requires x < |a| && y < |b| && cmp(a[x], b[y])
    ensures LinksValid(nodes[(x + 1, y + 1) := P(x, y)]) && DiagonalLinksMatch(a, b, cmp, nodes[(x + 1, y + 1) := P(x, y)])
    ensures Cost(Walk(nodes[(x + 1, y + 1) := P(x, y)], (x + 1, y + 1))) == Cost(Walk(nodes, (x, y)))
  {
    var nodes1 := nodes[(x + 1, y + 1) := P(x, y)];
    AddLink(a, b, cmp, nodes, (x + 1, y + 1), P(x, y));
    WalkExtended(nodes, nodes1, (x, y));
    assert Walk(nodes1, (x + 1, y + 1)) == [(x + 1, y + 1)] + Walk(nodes, (x, y));
    CostCons((x + 1, y + 1), Walk(nodes, (x, y)));
  }

  /**
    The snake from (x, y), when no key lies further along its diagonal: the
    walk from where it stops costs what the walk from (x, y) costs.
  */
  lemma {:induction false} SnakeCost<A, B>(a: seq<A>, b: seq<B>, cmp: (A, B) -> bool, x: nat, y: nat, nodes: NodesMap)
    returns (x': nat, y': nat, nodes': NodesMap)
    requires LinksValid(nodes) && DiagonalLinksMatch(a, b, cmp, nodes) && (x, y) in nodes
    requires forall p | p in nodes && p.0 > x :: p.0 + y != p.1 + x
    ensures x' == Snake(a, b, cmp, x, y, nodes).0 && nodes' == Snake(a, b, cmp, x, y, nodes).1 && y' == y + (x' - x)
    ensures LinksValid(nodes') && (x', y') in nodes' && Cost(Walk(nodes', (x', y'))) == Cost(Walk(nodes, (x, y)))
    decreases |a| - x
  {
    if x < |a| && y < |b| && cmp(a[x], b[y]) {
      assert (x + 1, y + 1) !in nodes;
      DiagonalLinked(a, b, cmp, nodes, x, y);
      x', y', nodes' := SnakeCost(a, b, cmp, x + 1, y + 1, nodes[(x + 1, y + 1) := P(x, y)]);
    } else {
      x', y', nodes' := x, y, nodes;
    }
  }

  /** The snake passes every point of a related run that starts where it starts. */
  lemma {:induction false} SnakeReaches<A, B>(a: seq<A>, b: seq<B>, cmp: (A, B) -> bool, bound: nat, k: int,
                                              x: nat, y: nat, hi: nat, nodes: NodesMap)
    requires y == x + bound - k && RelatedRun(a, b, cmp, bound, k, x, hi)
    ensures Snake(a, b, cmp, x, y, nodes).0 >= hi
    decreases |a| - x
  {
    if x < hi {
      assert RelatedOnDiagonal(a, b, cmp, bound, k, x);
      SnakeReaches(a, b, cmp, bound, k, x + 1, y + 1, hi, nodes[(x + 1, y + 1) := P(x, y)]);
    }
  }

  /**
    A grid point of diagonal k at distance <= d whose distance does not come
    from a related pair comes from a neighbour on diagonal k - 1 or k + 1
    covered by the earlier rounds, so it lies no further than the start.
  */
  lemma NeighbourCovered<A, B>(a: seq<A>, b: seq<B>, cmp: (A, B) -> bool, v: seq<nat>, d: nat, k: int,
                                sx: nat, x: nat, y: nat)
    requires |v| == 2 * (|a| + |b|) + 1
    requires StartBeyond(|a| + |b|, v, d, k, sx) && Reaches(a, b, cmp, v, d, k)
    requires 0 < x <= |a| && y <= |b| && x + |a| + |b| - y == k && Dist(a, b, cmp, x, y) <= d
    requires !(y > 0 && cmp(a[x - 1], b[y - 1]))
    ensures x <= sx
  {
    var bound := |a| + |b|;
    if y == 0 {
      assert Dist(a, b, cmp, x - 1, 0) == x - 1 && k == x + bound;
      FarAt(a, b, cmp, v, d, k, x - 1, 0);
    } else {
      var e, u, l := Dist(a, b, cmp, x, y), Dist(a, b, cmp, x, y - 1), Dist(a, b, cmp, x - 1, y);
      assert e == if u > l then l + 1 else u + 1;
      if u < d {
        assert x - (y - 1) <= u;
        FarAt(a, b, cmp, v, d, k, x, y - 1);
      } else {
        assert y - (x - 1) <= l;
        FarAt(a, b, cmp, v, d, k, x - 1, y);
      }
    }
  }

  /**
    A grid point of diagonal k at distance <= d beyond the start of the
    diagonal is reached from the start by related elements: follow its
    related run backwards down to a point that `NeighbourCovered` places no
    further than the start.
  */
  lemma {:induction false} RunBack<A, B>(a: seq<A>, b: seq<B>, cmp: (A, B) -> bool, v: seq<nat>, d: nat, k: int,
                                         sx: nat, x: nat, y: nat)
    requires |v| == 2 * (|a| + |b|) + 1
    requires StartBeyond(|a| + |b|, v, d, k, sx) && Reaches(a, b, cmp, v, d, k)
    requires x <= |a| && y <= |b| && x + |a| + |b| - y == k && Dist(a, b, cmp, x, y) <= d
    ensures x <= sx || RelatedRun(a, b, cmp, |a| + |b|, k, sx, x)
    decreases x
  {
    if x > sx {
      if y > 0 && cmp(a[x - 1], b[y - 1]) {
        RunBack(a, b, cmp, v, d, k, sx, x - 1, y - 1);
        assert RelatedOnDiagonal(a, b, cmp, |a| + |b|, k, x - 1);
      } else {
        NeighbourCovered(a, b, cmp, v, d, k, sx, x, y);
      }
    }
  }

  /** Every grid point of diagonal k at distance <= d lies no further than x = x'. */
  ghost predicate Covers<A, B>(a: seq<A>, b: seq<B>, cmp: (A, B) -> bool, d: nat, k: int, x': nat) {
    forall x: nat, y: nat | x <= |a| && y <= |b| && x + |a| + |b| - y == k && Dist(a, b, cmp, x, y) <= d :: x <= x'
  }

  /** Every grid point of diagonal k at distance <= d lies no further than where the snake from the start stops. */
  lemma DiagReach<A, B>(a: seq<A>, b: seq<B>, cmp: (A, B) -> bool, v: seq<nat>, d: nat, k: int, sx: nat, nodes1: NodesMap)
    requires |v| == 2 * (|a| + |b|) + 1 && sx + |a| + |b| >= k
    requires StartBeyond(|a| + |b|, v, d, k, sx) && Reaches(a, b, cmp, v, d, k)
    ensures Covers(a, b, cmp, d, k, Snake(a, b, cmp, sx, sx + |a| + |b| - k, nodes1).0)
  {
    var bound := |a| + |b|;
    forall x: nat, y: nat | x <= |a| && y <= |b| && x + bound - y == k && Dist(a, b, cmp, x, y) <= d
      ensures x <= Snake(a, b, cmp, sx, sx + bound - k, nodes1).0
    {
      RunBack(a, b, cmp, v, d, k, sx, x, y);
      if x > sx {
        SnakeReaches(a, b, cmp, bound, k, sx, sx + bound - k, x, nodes1);
      }
    }
  }

  /** When the start of an inner diagonal k lies beyond its old frontier point, no key of diagonal k lies at or beyond it. */
  lemma StartAfterKeys(bound: nat, v: seq<nat>, nodes: NodesMap, d: nat, k: nat, sx: nat)
    requires KeysBehind(bound, v, nodes, d, k) && OnRound(bound, d, k) && |v| == 2 * bound + 1 && d <= bound
    requires bound - d < k < bound + d ==> sx > v[k]
    ensures forall p | p in nodes && p.0 + bound - p.1 == k :: p.0 < sx
  {
  }

  /** What a start that steps down from diagonal k + 1 guarantees. */
  lemma StartDownOpt(bound: nat, v: seq<nat>, nodes: NodesMap, d: nat, k: nat, s: Start)
    requires |v| == 2 * bound + 1 && 0 < d <= bound && OnRound(bound, d, k)
    requires k == bound - d || (k != bound + d && v[k - 1] < v[k + 1])
    requires PrevOpt(bound, v, nodes, d, k, k + 1)
    requires s == Start(v[k + 1], P(v[k + 1], v[k + 1] + bound - (k + 1)))
    ensures StartBeyond(bound, v, d, k, s.x) && (bound - d < k < bound + d ==> s.x > v[k])
    ensures s.x + bound >= k && s.parent.P? && IsBackStep((s.x, s.x + bound - k), (s.parent.x, s.parent.y))
    ensures !IsDiagonal((s.x, s.x + bound - k), (s.parent.x, s.parent.y)) && WithinCost(nodes, (s.parent.x, s.parent.y), d - 1)
  {
  }

  /** What a start that steps right from diagonal k - 1 guarantees. */
  lemma StartRightOpt(bound: nat, v: seq<nat>, nodes: NodesMap, d: nat, k: nat, s: Start)
    requires |v| == 2 * bound + 1 && 0 < d <= bound && OnRound(bound, d, k)
    requires !(k == bound - d || (k != bound + d && v[k - 1] < v[k + 1]))
    requires PrevOpt(bound, v, nodes, d, k, k - 1)
    requires s == Start(v[k - 1] + 1, P(v[k - 1], v[k - 1] + bound - (k - 1)))
    ensures StartBeyond(bound, v, d, k, s.x) && (bound - d < k < bound + d ==> s.x > v[k])
    ensures s.x + bound >= k && s.parent.P? && IsBackStep((s.x, s.x + bound - k), (s.parent.x, s.parent.y))
    ensures !IsDiagonal((s.x, s.x + bound - k), (s.parent.x, s.parent.y)) && WithinCost(nodes, (s.parent.x, s.parent.y), d - 1)
  {
  }

  /**
    With the optimality facts, the start of diagonal k lies beyond the
    neighbours it may come from, no key of diagonal k lies at or beyond it,
    and (after round 0) it is one move away from a point whose walk costs
    at most d - 1.
  */
  lemma OptStart<A, B>(a: seq<A>, b: seq<B>, cmp: (A, B) -> bool, d: nat, k: nat, v: seq<nat>, nodes: NodesMap)
    requires |v| == 2 * (|a| + |b|) + 1 && d <= |a| + |b| && OnRound(|a| + |b|, d, k)
    requires YDefined(|a| + |b|, v, d - 1, |v|) && Opt(a, b, cmp, d, k, v, nodes)
    ensures var s := StartOf(|a| + |b|, v, d, k);
            && StartBeyond(|a| + |b|, v, d, k, s.x)
            && (forall p | p in nodes && p.0 + |a| + |b| - p.1 == k :: p.0 < s.x)
            && (d == 0 ==> s == Start(0, Root) && k == |a| + |b|)
            && (d > 0 ==> s.parent.P? && IsBackStep((s.x, s.x + |a| + |b| - k), (s.parent.x, s.parent.y))
                          && !IsDiagonal((s.x, s.x + |a| + |b| - k), (s.parent.x, s.parent.y))
                          && WithinCost(nodes, (s.parent.x, s.parent.y), d - 1))
  {
    var bound := |a| + |b|;
    var s := StartOf(bound, v, d, k);
    if d > 0 {
      if k == bound - d || (k != bound + d && v[k - 1] < v[k + 1]) {
        StartOfDown(bound, v, d, k);
        assert OnRound(bound, d - 1, k + 1);
        StartDownOpt(bound, v, nodes, d, k, s);
      } else {
        StartOfRight(bound, v, d, k);
        assert OnRound(bound, d - 1, k - 1);
        StartRightOpt(bound, v, nodes, d, k, s);
      }
    }
    StartAfterKeys(bound, v, nodes, d, k, s.x);
  }

  /** Linking the start of diagonal k gives a walk of cost at most d from it. */
  lemma StartLinked<A, B>(a: seq<A>, b: seq<B>, cmp: (A, B) -> bool, d: nat, k: nat, nodes: NodesMap, s: Start)
    returns (nodes1: NodesMap)
    requires LinksValid(nodes) && DiagonalLinksMatch(a, b, cmp, nodes) && s.x + |a| + |b| >= k
    requires (s.x, s.x + |a| + |b| - k) !in nodes
    requires d == 0 ==> s == Start(0, Root) && k == |a| + |b|
    requires d > 0 ==> s.parent.P? && IsBackStep((s.x, s.x + |a| + |b| - k), (s.parent.x, s.parent.y))
                       && !IsDiagonal((s.x, s.x + |a| + |b| - k), (s.parent.x, s.parent.y))
                       && WithinCost(nodes, (s.parent.x, s.parent.y), d - 1)
    ensures nodes1 == nodes[(s.x, s.x + |a| + |b| - k) := s.parent]
    ensures LinksValid(nodes1) && DiagonalLinksMatch(a, b, cmp, nodes1) && Extends(nodes, nodes1)
    ensures WithinCost(nodes1, (s.x, s.x + |a| + |b| - k), d)
    ensures forall q | q in nodes1 && q !in nodes :: q == (s.x, s.x + |a| + |b| - k)
  {
    var start := (s.x, s.x + |a| + |b| - k);
    nodes1 := nodes[start := s.parent];
    AddLink(a, b, cmp, nodes, start, s.parent);
    if d > 0 {
      var parent := (s.parent.x, s.parent.y);
      WalkExtended(nodes, nodes1, parent);
      assert Walk(nodes1, start) == [start] + Walk(nodes, parent);
      CostCons(start, Walk(nodes, parent));
    }
  }

  /**
    What a visit of diagonal k leaves: the map `nodes'` keeps `nodes` and
    adds points of diagonal k only, from the start `sx` to where the snake
    stops at `x'`; the walk from there costs at most d; and every grid point
    of diagonal k at distance <= d lies no further.
  */
  ghost predicate Stepped<A, B>(a: seq<A>, b: seq<B>, cmp: (A, B) -> bool, d: nat, k: nat, v: seq<nat>, nodes: NodesMap,
                                sx: nat, x': nat, nodes': NodesMap) {
    var bound := |a| + |b|;
    && |v| == 2 * bound + 1 && k < |v| && d <= bound && OnRound(bound, d, k)
    && LinksValid(nodes) && LinksValid(nodes') && Extends(nodes, nodes')
    && sx <= x' && x' + bound >= k
    && (forall q | q in nodes' && q !in nodes :: sx <= q.0 <= x' && q.0 + bound - q.1 == k)
    && (forall p | p in nodes && p.0 + bound - p.1 == k :: p.0 < sx)
    && WithinCost(nodes', (x', x' + bound - k), d)
    && StartBeyond(bound, v, d, k, sx)
    && Covers(a, b, cmp, d, k, x')
  }

  /** The keys stay behind the frontier once diagonal k moves to x'. */
  lemma SteppedKeys<A, B>(a: seq<A>, b: seq<B>, cmp: (A, B) -> bool, d: nat, k: nat, v: seq<nat>, nodes: NodesMap,
                          sx: nat, x': nat, nodes': NodesMap)
    requires Stepped(a, b, cmp, d, k, v, nodes, sx, x', nodes') && KeysBehind(|a| + |b|, v, nodes, d, k)
    ensures KeysBehind(|a| + |b|, v[k := x'], nodes', d, k + 2)
  {
    var bound := |a| + |b|;
    forall p | p in nodes'
      ensures var j := p.0 + bound - p.1; 0 <= j < |v| && Visited(bound, d, k + 2, j) && p.0 <= v[k := x'][j]
    {
      if p !in nodes {
        assert p.0 + bound - p.1 == k;
      }
    }
  }

  /** A point of round d - 1 keeps its facts once diagonal k moves to x'. */
  lemma PrevKept(bound: nat, v: seq<nat>, nodes: NodesMap, d: nat, k: nat, x': nat, nodes': NodesMap, j: int)
    requires 0 <= k < |v| && OnRound(bound, d, k) && OnRound(bound, d - 1, j)
    requires LinksValid(nodes') && Extends(nodes, nodes') && PrevOpt(bound, v, nodes, d, k, j)
    ensures PrevOpt(bound, v[k := x'], nodes', d, k + 2, j)
  {
    RoundsApart(bound, d, j, k);
    WalkExtended(nodes, nodes', (v[j], v[j] + bound - j));
  }

  /** A point of round d before diagonal k keeps its facts once diagonal k moves to x'. */
  lemma CurKept(bound: nat, v: seq<nat>, nodes: NodesMap, d: nat, k: nat, x': nat, nodes': NodesMap, j: int)
    requires 0 <= k < |v| && OnRound(bound, d, k) && OnRound(bound, d, j) && j < k
    requires LinksValid(nodes') && Extends(nodes, nodes') && CurOpt(bound, v, nodes, d, j)
    ensures CurOpt(bound, v[k := x'], nodes', d, j)
  {
    SameRound(bound, d, j, k);
    WalkExtended(nodes, nodes', (v[j], v[j] + bound - j));
  }

  /** Diagonal k gains the facts of round d once it moves to x'. */
  lemma CurGained(bound: nat, v: seq<nat>, nodes': NodesMap, d: nat, k: nat, sx: nat, x': nat)
    requires 0 <= k < |v| && StartBeyond(bound, v, d, k, sx) && sx <= x' && x' + bound >= k
    requires WithinCost(nodes', (x', x' + bound - k), d)
    ensures CurOpt(bound, v[k := x'], nodes', d, k)
  {
  }

  /** The covered grid points stay behind the frontier once diagonal k moves to x'. */
  lemma SteppedReach<A, B>(a: seq<A>, b: seq<B>, cmp: (A, B) -> bool, d: nat, k: nat, v: seq<nat>, nodes: NodesMap,
                           sx: nat, x': nat, nodes': NodesMap)
    requires Stepped(a, b, cmp, d, k, v, nodes, sx, x', nodes') && Reaches(a, b, cmp, v, d, k)
    ensures Reaches(a, b, cmp, v[k := x'], d, k + 2)
  {
    var bound := |a| + |b|;
    var v', k2 := v[k := x'], k + 2;
    forall x: nat, y: nat | x <= |a| && y <= |b| ensures FarEnough(a, b, cmp, v', d, k2, x, y) {
      var e, j := Dist(a, b, cmp, x, y), x + bound - y;
      if j == k {
        assert e <= d ==> x <= x';
      } else if e < d || (e == d && j < k + 2) {
        DistOnRound(a, b, cmp, x, y);
        if e == d {
          SameRound(bound, d, j, k);
        }
        FarAt(a, b, cmp, v, d, k, x, y);
      }
    }
  }

  /** The optimality facts move on from diagonal k to k + 2. */
  lemma OptAdvance<A, B>(a: seq<A>, b: seq<B>, cmp: (A, B) -> bool, d: nat, k: nat, v: seq<nat>, nodes: NodesMap,
                         sx: nat, x': nat, nodes': NodesMap)
    requires Stepped(a, b, cmp, d, k, v, nodes, sx, x', nodes') && Opt(a, b, cmp, d, k, v, nodes)
    ensures Opt(a, b, cmp, d, k + 2, v[k := x'], nodes')
  {
    AdvancePrev(a, b, cmp, d, k, v, nodes, sx, x', nodes');
    AdvanceCur(a, b, cmp, d, k, v, nodes, sx, x', nodes');
    SteppedKeys(a, b, cmp, d, k, v, nodes, sx, x', nodes');
    SteppedReach(a, b, cmp, d, k, v, nodes, sx, x', nodes');
  }

  /** After a step of diagonal k, the points of round d - 1 keep their facts. */
  lemma AdvancePrev<A, B>(a: seq<A>, b: seq<B>, cmp: (A, B) -> bool, d: nat, k: nat, v: seq<nat>, nodes: NodesMap,
                          sx: nat, x': nat, nodes': NodesMap)
    requires Stepped(a, b, cmp, d, k, v, nodes, sx, x', nodes') && Opt(a, b, cmp, d, k, v, nodes)
    ensures forall j {:trigger PrevOpt(|a| + |b|, v[k := x'], nodes', d, k + 2, j)} | OnRound(|a| + |b|, d - 1, j) ::
      PrevOpt(|a| + |b|, v[k := x'], nodes', d, k + 2, j)
  {
    var bound, v', k2 := |a| + |b|, v[k := x'], k + 2;
    forall j | OnRound(bound, d - 1, j) ensures PrevOpt(bound, v', nodes', d, k2, j) {
      assert PrevOpt(bound, v, nodes, d, k, j);
      PrevKept(bound, v, nodes, d, k, x', nodes', j);
    }
  }

  /** After a step of diagonal k, the visited diagonals of round d hold their facts, diagonal k included. */
  lemma AdvanceCur<A, B>(a: seq<A>, b: seq<B>, cmp: (A, B) -> bool, d: nat, k: nat, v: seq<nat>, nodes: NodesMap,
                         sx: nat, x': nat, nodes': NodesMap)
    requires Stepped(a, b, cmp, d, k, v, nodes, sx, x', nodes') && Opt(a, b, cmp, d, k, v, nodes)
    ensures forall j {:trigger CurOpt(|a| + |b|, v[k := x'], nodes', d, j)} | OnRound(|a| + |b|, d, j) && j < k + 2 ::
      CurOpt(|a| + |b|, v[k := x'], nodes', d, j)
  {
    var bound := |a| + |b|;
    forall j | OnRound(bound, d, j) && j < k + 2 ensures CurOpt(bound, v[k := x'], nodes', d, j) {
      SameRound(bound, d, j, k);
      if j < k {
        assert CurOpt(bound, v, nodes, d, j);
        CurKept(bound, v, nodes, d, k, x', nodes', j);
      } else {
        CurGained(bound, v, nodes', d, k, sx, x');
      }
    }
  }

  /** A point whose walk costs what a walk within cost c costs is within cost c. */
  lemma SameCost(nodes: NodesMap, p: Point, nodes': NodesMap, x: nat, y: nat, y2: nat, c: int)
    requires WithinCost(nodes, p, c) && LinksValid(nodes') && (x, y) in nodes' && y == y2
    requires Cost(Walk(nodes', (x, y))) == Cost(Walk(nodes, p))
    ensures WithinCost(nodes', (x, y2), c)
  {
  }

  /** The snake of diagonal k from a linked start (sx, sx + bound - k) with no key further along the diagonal. */
  lemma SnakeStep<A, B>(a: seq<A>, b: seq<B>, cmp: (A, B) -> bool, k: nat, sx: nat, nodes1: NodesMap)
    returns (x': nat, nodes': NodesMap)
    requires sx + |a| + |b| >= k && (sx, sx + |a| + |b| - k) in nodes1
    requires LinksValid(nodes1) && DiagonalLinksMatch(a, b, cmp, nodes1)
    requires forall p | p in nodes1 && p.0 > sx :: p.0 + |a| + |b| - p.1 != k
    ensures x' == Snake(a, b, cmp, sx, sx + |a| + |b| - k, nodes1).0 && nodes' == Snake(a, b, cmp, sx, sx + |a| + |b| - k, nodes1).1
    ensures sx <= x' && LinksValid(nodes') && Extends(nodes1, nodes')
    ensures forall q | q in nodes' && q !in nodes1 :: sx < q.0 <= x' && q.0 + |a| + |b| - q.1 == k
    ensures (x', x' + |a| + |b| - k) in nodes'
    ensures Cost(Walk(nodes', (x', x' + |a| + |b| - k))) == Cost(Walk(nodes1, (sx, sx + |a| + |b| - k)))
  {
    var y := sx + |a| + |b| - k;
    var y';
    x', y', nodes' := SnakeCost(a, b, cmp, sx, y, nodes1);
    SnakeKeeps(a, b, cmp, sx, y, nodes1);
    assert y' == x' + |a| + |b| - k;
  }

  /** Extending is transitive. */
  lemma ExtendsTrans(nodes: NodesMap, nodes1: NodesMap, nodes': NodesMap)
    requires Extends(nodes, nodes1) && Extends(nodes1, nodes')
    ensures Extends(nodes, nodes')
  {
  }

  /** The start and the snake add keys of diagonal k only, from sx to x'. */
  lemma NewKeysJoin(bound: nat, k: nat, sx: nat, x': nat, nodes: NodesMap, nodes1: NodesMap, nodes': NodesMap)
    requires sx <= x' && sx + bound >= k
    requires forall q | q in nodes1 && q !in nodes :: q == (sx, sx + bound - k)
    requires forall q | q in nodes' && q !in nodes1 :: sx < q.0 <= x' && q.0 + bound - q.1 == k
    requires Extends(nodes1, nodes')
    ensures forall q | q in nodes' && q !in nodes :: sx <= q.0 <= x' && q.0 + bound - q.1 == k
  {
  }

  /** From a linked start beyond every key of diagonal k, the snake of diagonal k makes a step of the search. */
  lemma VisitStepped<A, B>(a: seq<A>, b: seq<B>, cmp: (A, B) -> bool, d: nat, k: nat, v: seq<nat>, nodes: NodesMap,
                           sx: nat, nodes1: NodesMap) returns (x': nat, nodes': NodesMap)
    requires |v| == 2 * (|a| + |b|) + 1 && d <= |a| + |b| && OnRound(|a| + |b|, d, k) && sx + |a| + |b| >= k
    requires LinksValid(nodes) && StartBeyond(|a| + |b|, v, d, k, sx) && Reaches(a, b, cmp, v, d, k)
    requires forall p | p in nodes && p.0 + |a| + |b| - p.1 == k :: p.0 < sx
    requires (sx, sx + |a| + |b| - k) in nodes1 && forall q | q in nodes1 && q !in nodes :: q == (sx, sx + |a| + |b| - k)
    requires LinksValid(nodes1) && DiagonalLinksMatch(a, b, cmp, nodes1) && Extends(nodes, nodes1)
    requires WithinCost(nodes1, (sx, sx + |a| + |b| - k), d)
    ensures x' == Snake(a, b, cmp, sx, sx + |a| + |b| - k, nodes1).0 && nodes' == Snake(a, b, cmp, sx, sx + |a| + |b| - k, nodes1).1
    ensures Stepped(a, b, cmp, d, k, v, nodes, sx, x', nodes')
  {
    var bound := |a| + |b|;
    x', nodes' := SnakeStep(a, b, cmp, k, sx, nodes1);
    ExtendsTrans(nodes, nodes1, nodes');
    NewKeysJoin(bound, k, sx, x', nodes, nodes1, nodes');
    SameCost(nodes1, (sx, sx + bound - k), nodes', x', x' + bound - k, x' + bound - k, d);
    DiagReach(a, b, cmp, v, d, k, sx, nodes1);
  }

  /** The start of diagonal k, linked into the map, is ready for the snake. */
  lemma VisitPrepared<A, B>(a: seq<A>, b: seq<B>, cmp: (A, B) -> bool, d: nat, k: nat, v: seq<nat>, nodes: NodesMap)
    returns (sx: nat, nodes1: NodesMap)
    requires |v| == 2 * (|a| + |b|) + 1 && d <= |a| + |b| && OnRound(|a| + |b|, d, k)
    requires YDefined(|a| + |b|, v, d - 1, |v|) && LinksValid(nodes) && DiagonalLinksMatch(a, b, cmp, nodes)
    requires Opt(a, b, cmp, d, k, v, nodes)
    ensures sx == StartOf(|a| + |b|, v, d, k).x && sx + |a| + |b| >= k
    ensures nodes1 == nodes[(sx, sx + |a| + |b| - k) := StartOf(|a| + |b|, v, d, k).parent]
    ensures StartBeyond(|a| + |b|, v, d, k, sx)
    ensures forall p | p in nodes && p.0 + |a| + |b| - p.1 == k :: p.0 < sx
    ensures (sx, sx + |a| + |b| - k) in nodes1 && forall q | q in nodes1 && q !in nodes :: q == (sx, sx + |a| + |b| - k)
    ensures LinksValid(nodes1) && DiagonalLinksMatch(a, b, cmp, nodes1) && Extends(nodes, nodes1)
    ensures WithinCost(nodes1, (sx, sx + |a| + |b| - k), d)
  {
    var s := StartOf(|a| + |b|, v, d, k);
    OptStart(a, b, cmp, d, k, v, nodes);
    nodes1 := StartLinked(a, b, cmp, d, k, nodes, s);
    sx := s.x;
  }

  /** The visit of diagonal k writes where the snake from its linked start stops, and the snake's map. */
  lemma VisitParts<A, B>(a: seq<A>, b: seq<B>, cmp: (A, B) -> bool, d: nat, k: nat, v: seq<nat>, nodes: NodesMap,
                         sx: nat, nodes1: NodesMap, x': nat, nodes': NodesMap)
    requires |v| == 2 * (|a| + |b|) + 1 && d <= |a| + |b| && OnRound(|a| + |b|, d, k)
    requires YDefined(|a| + |b|, v, d - 1, |v|) && sx == StartOf(|a| + |b|, v, d, k).x && sx + |a| + |b| >= k
    requires nodes1 == nodes[(sx, sx + |a| + |b| - k) := StartOf(|a| + |b|, v, d, k).parent]
    requires x' == Snake(a, b, cmp, sx, sx + |a| + |b| - k, nodes1).0 && nodes' == Snake(a, b, cmp, sx, sx + |a| + |b| - k, nodes1).1
    ensures v[k := x'] == VisitDiagonal(a, b, cmp, d, k, v, nodes).0 && nodes' == VisitDiagonal(a, b, cmp, d, k, v, nodes).1
  {
    VisitUnfold(a, b, cmp, d, k, v, nodes, StartOf(|a| + |b|, v, d, k), sx + |a| + |b| - k, nodes1);
  }

  /**
    One diagonal keeps the optimality facts: the walk from the point it
    reaches costs at most d, and the facts move on to diagonal k + 2.
  */
  lemma OptVisit<A, B>(a: seq<A>, b: seq<B>, cmp: (A, B) -> bool, d: nat, k: nat, v: seq<nat>, nodes: NodesMap)
    returns (v': seq<nat>, x': nat, nodes': NodesMap)
    requires |v| == 2 * (|a| + |b|) + 1 && d <= |a| + |b| && OnRound(|a| + |b|, d, k)
    requires YDefined(|a| + |b|, v, d - 1, |v|) && LinksValid(nodes) && DiagonalLinksMatch(a, b, cmp, nodes)
    requires Opt(a, b, cmp, d, k, v, nodes)
    ensures v' == VisitDiagonal(a, b, cmp, d, k, v, nodes).0 && nodes' == VisitDiagonal(a, b, cmp, d, k, v, nodes).1
    ensures k < |v'| && v'[k] == x' && x' + |a| + |b| >= k
    ensures WithinCost(nodes', (x', x' + |a| + |b| - k), d) && Opt(a, b, cmp, d, k + 2, v', nodes')
  {
    var sx, nodes1 := VisitPrepared(a, b, cmp, d, k, v, nodes);
    x', nodes' := VisitStepped(a, b, cmp, d, k, v, nodes, sx, nodes1);
    VisitParts(a, b, cmp, d, k, v, nodes, sx, nodes1, x', nodes');
    OptAdvance(a, b, cmp, d, k, v, nodes, sx, x', nodes');
    v' := v[k := x'];
  }

  /** What a round promises: a reached (n, m) costs at most d, a completed round keeps the optimality facts. */
  ghost predicate RoundOptimal<A, B>(a: seq<A>, b: seq<B>, cmp: (A, B) -> bool, d: nat, r: RoundOutcome) {
    && (r.Reached? ==> WithinCost(r.nodes, (|a|, |b|), d))
    && (r.Running? ==> Opt(a, b, cmp, d, |a| + |b| + d + 2, r.v, r.nodes))
  }

  lemma CostAtEnd(nodes: NodesMap, x: nat, y: nat, n: nat, m: nat, c: int)
    requires WithinCost(nodes, (x, y), c) && x == n && y == m
    ensures WithinCost(nodes, (n, m), c)
  {
  }

  /** One diagonal of round d: either the round ends here as promised, or it goes on from k + 2 with the facts kept. */
  lemma OptRoundStep<A, B>(a: seq<A>, b: seq<B>, cmp: (A, B) -> bool, d: nat, k: nat, v: seq<nat>, nodes: NodesMap)
    returns (v': seq<nat>, nodes': NodesMap, more: bool)
    requires Inv(a, b, cmp, d, k, v, nodes) && k <= |a| + |b| + d
    requires YDefined(|a| + |b|, v, d - 1, |v|) && YDefined(|a| + |b|, v, d, k) && Opt(a, b, cmp, d, k, v, nodes)
    ensures more ==> && k + 2 <= |a| + |b| + d && Inv(a, b, cmp, d, k + 2, v', nodes')
                     && YDefined(|a| + |b|, v', d - 1, |v'|) && YDefined(|a| + |b|, v', d, k + 2)
                     && Opt(a, b, cmp, d, k + 2, v', nodes')
                     && RoundFrom(a, b, cmp, d, k, v, nodes) == RoundFrom(a, b, cmp, d, k + 2, v', nodes')
    ensures !more ==> RoundOptimal(a, b, cmp, d, RoundFrom(a, b, cmp, d, k, v, nodes))
  {
    var x';
    v', x', nodes' := VisitBoth(a, b, cmp, d, k, v, nodes);
    more := RoundStepFrom(a, b, cmp, d, k, v, nodes, v', x', nodes');
  }

  /** Visiting diagonal k keeps the search invariant and the optimality facts. */
  lemma VisitBoth<A, B>(a: seq<A>, b: seq<B>, cmp: (A, B) -> bool, d: nat, k: nat, v: seq<nat>, nodes: NodesMap)
    returns (v': seq<nat>, x': nat, nodes': NodesMap)
    requires Inv(a, b, cmp, d, k, v, nodes) && k <= |a| + |b| + d
    requires YDefined(|a| + |b|, v, d - 1, |v|) && Opt(a, b, cmp, d, k, v, nodes)
    ensures VisitOk(a, b, cmp, d, k, VisitDiagonal(a, b, cmp, d, k, v, nodes))
    ensures v' == VisitDiagonal(a, b, cmp, d, k, v, nodes).0 && nodes' == VisitDiagonal(a, b, cmp, d, k, v, nodes).1
    ensures k < |v'| && v'[k] == x' && x' + |a| + |b| >= k
    ensures WithinCost(nodes', (x', x' + |a| + |b| - k), d) && Opt(a, b, cmp, d, k + 2, v', nodes')
  {
    VisitFacts(a, b, cmp, d, k, v, nodes);
    v', x', nodes' := OptVisit(a, b, cmp, d, k, v, nodes);
  }

  /** After the visit of diagonal k the round either ends here as promised, or goes on from k + 2 with the facts kept. */
  lemma RoundStepFrom<A, B>(a: seq<A>, b: seq<B>, cmp: (A, B) -> bool, d: nat, k: nat, v: seq<nat>, nodes: NodesMap,
                            v': seq<nat>, x': nat, nodes': NodesMap)
    returns (more: bool)
    requires |v| == 2 * (|a| + |b|) + 1 && d <= |a| + |b| && OnRound(|a| + |b|, d, k) && k <= |a| + |b| + d
    requires YDefined(|a| + |b|, v, d - 1, |v|) && YDefined(|a| + |b|, v, d, k)
    requires VisitOk(a, b, cmp, d, k, VisitDiagonal(a, b, cmp, d, k, v, nodes))
    requires v' == VisitDiagonal(a, b, cmp, d, k, v, nodes).0 && nodes' == VisitDiagonal(a, b, cmp, d, k, v, nodes).1
    requires k < |v'| && v'[k] == x' && x' + |a| + |b| >= k
    requires WithinCost(nodes', (x', x' + |a| + |b| - k), d) && Opt(a, b, cmp, d, k + 2, v', nodes')
    ensures more ==> && k + 2 <= |a| + |b| + d && Inv(a, b, cmp, d, k + 2, v', nodes')
                     && YDefined(|a| + |b|, v', d - 1, |v'|) && YDefined(|a| + |b|, v', d, k + 2)
                     && Opt(a, b, cmp, d, k + 2, v', nodes')
                     && RoundFrom(a, b, cmp, d, k, v, nodes) == RoundFrom(a, b, cmp, d, k + 2, v', nodes')
    ensures !more ==> RoundOptimal(a, b, cmp, d, RoundFrom(a, b, cmp, d, k, v, nodes))
  {
    var bound := |a| + |b|;
    RoundUnfold(a, b, cmp, d, k, v, nodes, VisitDiagonal(a, b, cmp, d, k, v, nodes));
    more := !(x' >= |a| && x' + bound - k >= |b|) && k + 2 <= bound + d;
    if x' >= |a| && x' + bound - k >= |b| {
      assert x' == |a| && x' + bound - k == |b|;
      ReachedOptimal(a, b, cmp, d, nodes', x', x' + bound - k);
      assert RoundFrom(a, b, cmp, d, k, v, nodes) == Reached(nodes');
    } else if !more {
      LastOnRound(bound, d, k);
      RunningOptimal(a, b, cmp, d, k, v', nodes');
      assert RoundFrom(a, b, cmp, d, k, v, nodes) == Running(v', nodes');
    }
  }

  /** A round that reaches (n, m) with a walk of cost at most d keeps its promise. */
  lemma ReachedOptimal<A, B>(a: seq<A>, b: seq<B>, cmp: (A, B) -> bool, d: nat, nodes: NodesMap, x: nat, y: nat)
    requires WithinCost(nodes, (x, y), d) && x == |a| && y == |b|
    ensures RoundOptimal(a, b, cmp, d, Reached(nodes))
  {
    CostAtEnd(nodes, x, y, |a|, |b|, d);
  }

  /** A round completed at its last diagonal k = bound + d keeps its promise. */
  lemma RunningOptimal<A, B>(a: seq<A>, b: seq<B>, cmp: (A, B) -> bool, d: nat, k: nat, v: seq<nat>, nodes: NodesMap)
    requires Opt(a, b, cmp, d, k + 2, v, nodes) && k == |a| + |b| + d
    ensures RoundOptimal(a, b, cmp, d, Running(v, nodes))
  {
  }

  /**
    The rest of round d keeps the optimality facts: it reaches (n, m) with a
    walk of cost at most d, or it completes the round with the facts for its
    last diagonal.
  */
  lemma {:induction false} RoundOpt<A, B>(a: seq<A>, b: seq<B>, cmp: (A, B) -> bool, d: nat, k: nat, v: seq<nat>, nodes: NodesMap)
    requires Inv(a, b, cmp, d, k, v, nodes) && k <= |a| + |b| + d
    requires YDefined(|a| + |b|, v, d - 1, |v|) && YDefined(|a| + |b|, v, d, k) && Opt(a, b, cmp, d, k, v, nodes)
    ensures RoundOptimal(a, b, cmp, d, RoundFrom(a, b, cmp, d, k, v, nodes))
    decreases |a| + |b| + d - k
  {
    var v', nodes', more := OptRoundStep(a, b, cmp, d, k, v, nodes);
    if more {
      RoundOpt(a, b, cmp, d, k + 2, v', nodes');
    }
  }

  /** A complete round hands the optimality facts over to the next round. */
  lemma OptNext<A, B>(a: seq<A>, b: seq<B>, cmp: (A, B) -> bool, d: nat, v: seq<nat>, nodes: NodesMap)
    requires Opt(a, b, cmp, d, |a| + |b| + d + 2, v, nodes) && d < |a| + |b|
    ensures Opt(a, b, cmp, d + 1, |a| + |b| - (d + 1), v, nodes)
  {
    var bound := |a| + |b|;
    NextKeys(bound, v, nodes, d);
    NextPrev(bound, v, nodes, d);
    NextReach(a, b, cmp, v, d);
  }

  /** The keys behind the frontier after round d are behind it on entry to round d + 1. */
  lemma NextKeys(bound: nat, v: seq<nat>, nodes: NodesMap, d: nat)
    requires KeysBehind(bound, v, nodes, d, bound + d + 2)
    ensures KeysBehind(bound, v, nodes, d + 1, bound - (d + 1))
  {
  }

  /** The points written in round d are the points of the previous round on entry to round d + 1. */
  lemma NextPrev(bound: nat, v: seq<nat>, nodes: NodesMap, d: nat)
    requires |v| == 2 * bound + 1 && d < bound
    requires forall j {:trigger CurOpt(bound, v, nodes, d, j)} | OnRound(bound, d, j) && j < bound + d + 2 :: CurOpt(bound, v, nodes, d, j)
    ensures forall j {:trigger PrevOpt(bound, v, nodes, d + 1, bound - (d + 1), j)} | OnRound(bound, d, j) ::
      PrevOpt(bound, v, nodes, d + 1, bound - (d + 1), j)
  {
    forall j | OnRound(bound, d, j) ensures PrevOpt(bound, v, nodes, d + 1, bound - (d + 1), j) {
      assert CurOpt(bound, v, nodes, d, j);
    }
  }

  /** The grid points covered after round d are covered on entry to round d + 1. */
  lemma NextReach<A, B>(a: seq<A>, b: seq<B>, cmp: (A, B) -> bool, v: seq<nat>, d: nat)
    requires Reaches(a, b, cmp, v, d, |a| + |b| + d + 2)
    ensures Reaches(a, b, cmp, v, d + 1, |a| + |b| - (d + 1))
  {
    var d1, k0, k1 := d + 1, |a| + |b| + d + 2, |a| + |b| - (d + 1);
    forall x: nat, y: nat | x <= |a| && y <= |b| ensures FarEnough(a, b, cmp, v, d1, k1, x, y) {
      if Dist(a, b, cmp, x, y) <= d {
        FarAt(a, b, cmp, v, d, k0, x, y);
      }
    }
  }

  /**
    A round that completes without reaching (n, m) shows that (n, m) lies
    further away than that round: the frontier point of its diagonal stops
    short of x = n.
  */
  lemma DistBeyond<A, B>(a: seq<A>, b: seq<B>, cmp: (A, B) -> bool, d: nat, v: seq<nat>)
    requires |v| == 2 * (|a| + |b|) + 1 && Reaches(a, b, cmp, v, d, |a| + |b| - d) && d >= 1
    requires OnRound(|a| + |b|, d - 1, 2 * |a|) ==> v[2 * |a|] < |a|
    ensures Dist(a, b, cmp, |a|, |b|) != d - 1
  {
    if Dist(a, b, cmp, |a|, |b|) == d - 1 {
      DistOnRound(a, b, cmp, |a|, |b|);
      FarAt(a, b, cmp, v, d, |a| + |b| - d, |a|, |b|);
      assert false;
    }
  }

  /** The search broke out in a round no later than c, with a walk from (n, m) of cost at most that round. */
  ghost predicate EndsWithin<A, B>(a: seq<A>, b: seq<B>, r: Search, c: int) {
    r.Found? && r.round <= c && WithinCost(r.nodes, (|a|, |b|), r.round)
  }

  /**
    One round d <= Dist(n, m) of the search: it breaks out in round d with a
    walk of cost at most d, or the next round is no further than Dist(n, m)
    either and starts with the optimality facts.
  */
  lemma SearchOptStep<A, B>(a: seq<A>, b: seq<B>, cmp: (A, B) -> bool, d: nat, v: seq<nat>, nodes: NodesMap)
    returns (v': seq<nat>, nodes': NodesMap, more: bool)
    requires Inv(a, b, cmp, d, |a| + |b| - d, v, nodes) && YDefined(|a| + |b|, v, d - 1, |v|)
    requires Opt(a, b, cmp, d, |a| + |b| - d, v, nodes) && d <= Dist(a, b, cmp, |a|, |b|)
    ensures !more ==> EndsWithin(a, b, SearchFrom(a, b, cmp, d, v, nodes), Dist(a, b, cmp, |a|, |b|))
    ensures more ==> && Inv(a, b, cmp, d + 1, |a| + |b| - (d + 1), v', nodes') && YDefined(|a| + |b|, v', d, |v'|)
                     && Opt(a, b, cmp, d + 1, |a| + |b| - (d + 1), v', nodes') && d + 1 <= Dist(a, b, cmp, |a|, |b|)
                     && SearchFrom(a, b, cmp, d, v, nodes) == SearchFrom(a, b, cmp, d + 1, v', nodes')
  {
    var r := SearchStep(a, b, cmp, d, v, nodes);
    RoundOpt(a, b, cmp, d, |a| + |b| - d, v, nodes);
    more := r.Running?;
    if more {
      v', nodes' := r.v, r.nodes;
      OptNextRound(a, b, cmp, d, v', nodes');
    } else {
      v', nodes' := v, nodes;
      BrokeOut(a, b, cmp, d, r.nodes, Dist(a, b, cmp, |a|, |b|));
      assert SearchFrom(a, b, cmp, d, v, nodes) == Found(d, r.nodes);
    }
  }

  /** A round d <= c ending at (n, m) with a walk of cost at most d is a break-out within c. */
  lemma BrokeOut<A, B>(a: seq<A>, b: seq<B>, cmp: (A, B) -> bool, d: nat, nodes: NodesMap, c: nat)
    requires RoundOptimal(a, b, cmp, d, Reached(nodes)) && d <= c
    ensures EndsWithin(a, b, Found(d, nodes), c)
  {
  }

  /** A round d <= Dist(n, m) that completes hands over to a round d + 1 <= Dist(n, m). */
  lemma OptNextRound<A, B>(a: seq<A>, b: seq<B>, cmp: (A, B) -> bool, d: nat, v: seq<nat>, nodes: NodesMap)
    requires Frontier(|a|, |b|, v, nodes, d + 1, |a| + |b| - (d + 1)) && d < |a| + |b|
    requires Opt(a, b, cmp, d, |a| + |b| + d + 2, v, nodes) && d <= Dist(a, b, cmp, |a|, |b|)
    ensures Opt(a, b, cmp, d + 1, |a| + |b| - (d + 1), v, nodes) && d + 1 <= Dist(a, b, cmp, |a|, |b|)
  {
    OptNext(a, b, cmp, d, v, nodes);
    NextBelowDist(a, b, cmp, d, v, nodes);
  }

  /** A completed round d that reached every point of cost d without breaking out was below Dist(n, m). */
  lemma NextBelowDist<A, B>(a: seq<A>, b: seq<B>, cmp: (A, B) -> bool, d: nat, v: seq<nat>, nodes: NodesMap)
    requires Frontier(|a|, |b|, v, nodes, d + 1, |a| + |b| - (d + 1)) && d < |a| + |b|
    requires |v| == 2 * (|a| + |b|) + 1 && Reaches(a, b, cmp, v, d + 1, |a| + |b| - (d + 1))
    requires d <= Dist(a, b, cmp, |a|, |b|)
    ensures d + 1 <= Dist(a, b, cmp, |a|, |b|)
  {
    if OnRound(|a| + |b|, d, 2 * |a|) {
      MissedEnd(|a|, |b|, v, nodes, d + 1, |a| + |b| - (d + 1));
    }
    DistBeyond(a, b, cmp, d + 1, v);
  }

  /** A round that completed without breaking out left diagonal 2n, the diagonal of (n, m), short of x = n. */
  lemma MissedEnd(n: nat, m: nat, v: seq<nat>, nodes: NodesMap, d: nat, k: int)
    requires Frontier(n, m, v, nodes, d, k) && OnRound(n + m, d - 1, 2 * n)
    ensures 2 * n < |v| && v[2 * n] < n
  {
    PrevAt(n, m, v, nodes, d, k, 2 * n);
  }

  /**
    From round d <= Dist(n, m) on, the search breaks out in a round no later
    than Dist(n, m), with a walk from (n, m) of cost at most that round.
  */
  lemma {:induction false} SearchOpt<A, B>(a: seq<A>, b: seq<B>, cmp: (A, B) -> bool, d: nat, v: seq<nat>, nodes: NodesMap)
    requires Inv(a, b, cmp, d, |a| + |b| - d, v, nodes) && YDefined(|a| + |b|, v, d - 1, |v|)
    requires Opt(a, b, cmp, d, |a| + |b| - d, v, nodes) && d <= Dist(a, b, cmp, |a|, |b|)
    ensures EndsWithin(a, b, SearchFrom(a, b, cmp, d, v, nodes), Dist(a, b, cmp, |a|, |b|))
    decreases |a| + |b| - d
  {
    var v', nodes', more := SearchOptStep(a, b, cmp, d, v, nodes);
    if more {
      SearchOpt(a, b, cmp, d + 1, v', nodes');
    }
  }

  /** The optimality facts hold on entry to round 0. */
  lemma InitialOpt<A, B>(a: seq<A>, b: seq<B>, cmp: (A, B) -> bool)
    ensures Opt(a, b, cmp, 0, |a| + |b|, ZeroFrontier(|a| + |b|), map[])
  {
    var v, k := ZeroFrontier(|a| + |b|), |a| + |b|;
    forall x: nat, y: nat | x <= |a| && y <= |b| ensures FarEnough(a, b, cmp, v, 0, k, x, y) {
    }
  }

  /**
    The promise of src/lib.rs:35: the walk the search returns is a shortest
    edit path, leaving exactly Dist(n, m) elements unmatched.
  */
  lemma MyersShortest<A, B>(a: seq<A>, b: seq<B>, cmp: (A, B) -> bool)
    ensures Cost(MyersPath(a, b, cmp)) == Dist(a, b, cmp, |a|, |b|)
  {
    MyersWithinDist(a, b, cmp);
    DistIsShortest(a, b, cmp, MyersPath(a, b, cmp));
  }

  /** The search breaks out exactly in round Dist(n, m). */
  lemma MyersBreakRound<A, B>(a: seq<A>, b: seq<B>, cmp: (A, B) -> bool)
    ensures MyersOutcome(a, b, cmp).Found? && MyersOutcome(a, b, cmp).round == Dist(a, b, cmp, |a|, |b|)
  {
    MyersWithinDist(a, b, cmp);
    MyersShortest(a, b, cmp);
  }

  /** The search breaks out in a round no later than Dist(n, m), with a walk from (n, m) that costs at most that round. */
  lemma MyersWithinDist<A, B>(a: seq<A>, b: seq<B>, cmp: (A, B) -> bool)
    ensures MyersOutcome(a, b, cmp).Found? && MyersOutcome(a, b, cmp).round <= Dist(a, b, cmp, |a|, |b|)
    ensures WithinCost(MyersOutcome(a, b, cmp).nodes, (|a|, |b|), MyersOutcome(a, b, cmp).round)
  {
    var bound := |a| + |b|;
    var v := ZeroFrontier(bound);
    assert Frontier(|a|, |b|, v, map[], 0, bound);
    InitialOpt(a, b, cmp);
    SearchOpt(a, b, cmp, 0, v, map[]);
    assert EndsWithin(a, b, MyersOutcome(a, b, cmp), Dist(a, b, cmp, |a|, |b|));
  }

  /** When some pair is related, the arrays of the search's walk match at least one element on each side. */
  lemma MyersMatchesSomething<A, B>(a: seq<A>, b: seq<B>, cmp: (A, B) -> bool, a2b: Diff, b2a: Diff)
    requires exists i, j :: 0 <= i < |a| && 0 <= j < |b| && cmp(a[i], b[j])
    requires DescribesPath(MyersPath(a, b, cmp), a2b, b2a)
    ensures exists i :: 0 <= i < |a2b| && a2b[i].Some?
    ensures exists j :: 0 <= j < |b2a| && b2a[j].Some?
  {
    var i, j :| 0 <= i < |a| && 0 <= j < |b| && cmp(a[i], b[j]);
    DistWithMatch(a, b, cmp, |a|, |b|, i, j);
    MyersShortest(a, b, cmp);
    CheapPathMatches(MyersPath(a, b, cmp), a2b, b2a);
  }
}

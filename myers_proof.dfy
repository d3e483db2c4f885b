/**
  What the search of src/lib.rs:39-78 guarantees: it always breaks out of its
  outer loop in some round d <= n + m, the point it breaks at is exactly
  (n, m), and every parent link it recorded is a unit step back to a visited
  point, diagonal only across related elements.

  The proof carries, round by round, facts about the frontier point
  (v[j], y_j) of each diagonal j (y_j = v[j] + bound - j):
  - it is a key of the map and does not satisfy the break test;
  - x + y >= its round (so the diagonal of (n, m) satisfies the break test by
    round n + m at the latest);
  - points that left the grid are "reflected" back: a point below row m,
    (x, y) with y > m, forces the point of diagonal j + 2(y - m) to have
    x >= x + y - m (it is at least as far as (x + (y - m), m)); a point right
    of column n forces the point of diagonal j - 2(x - n) to have x >= n.
    Together with the break test these rule out stopping at any point other
    than (n, m).
  Round d reads only the diagonals of round d - 1 ("previous") and writes
  those of round d ("current"), so facts about current points are phrased
  against previous points until the round is complete.
*/
module MyersProof {
  import opened EditGraph
  import opened MyersSearch

  /** The search has stopped with a walkable map that contains (n, m). */
  ghost predicate Final<A, B>(a: seq<A>, b: seq<B>, cmp: (A, B) -> bool, nodes: NodesMap) {
    (|a|, |b|) in nodes && LinksValid(nodes) && DiagonalLinksMatch(a, b, cmp, nodes)
  }

  /** A point below the grid reflects onto diagonal j + 2(y - m), one round later than `e` allows for. */
  ghost predicate BelowReflected(n: nat, m: nat, v: seq<nat>, e: int, j: int, x: int, y: int, offset: int) {
    y > m ==>
      var j' := j + 2 * (y - m);
      j' <= n + m + e && 0 <= j' - offset < |v| && v[j' - offset] + offset >= x + y - m
  }

  /** A point right of the grid reflects onto diagonal j - 2(x - n). */
  ghost predicate RightReflected(n: nat, m: nat, v: seq<nat>, e: int, j: int, x: int) {
    x > n ==>
      var j'' := j - 2 * (x - n);
      j'' >= n + m - e && 0 <= j'' < |v| && v[j''] >= n
  }

  /** What holds of the point of diagonal j, written in round d - 1. */
  ghost predicate PrevFacts(n: nat, m: nat, v: seq<nat>, nodes: NodesMap, d: nat, j: int) {
    var bound := n + m;
    && 0 <= j < |v| && v[j] + bound >= j
    && (v[j], v[j] + bound - j) in nodes
    && !(v[j] >= n && v[j] + bound - j >= m)
    && 2 * v[j] + bound - j >= d - 1
    && BelowReflected(n, m, v, d - 1, j, v[j], v[j] + bound - j, 0)
    && RightReflected(n, m, v, d - 1, j, v[j])
  }

  /** What holds of the point of diagonal j, written in the current round d. */
  ghost predicate CurFacts(n: nat, m: nat, v: seq<nat>, nodes: NodesMap, d: nat, j: int) {
    var bound := n + m;
    && 0 <= j < |v| && v[j] + bound >= j
    && (v[j], v[j] + bound - j) in nodes
    && !(v[j] >= n && v[j] + bound - j >= m)
    && 2 * v[j] + bound - j >= d
    && BelowReflected(n, m, v, d, j, v[j], v[j] + bound - j, 1)
    && RightReflected(n, m, v, d, j, v[j])
    && (j > bound - d ==> 1 <= j && v[j] >= v[j - 1] + 1)
    && (j < bound + d ==> j + 1 < |v| && v[j] >= v[j + 1])
  }

  /** The frontier facts on entry to diagonal k of round d. */
  ghost predicate Frontier(n: nat, m: nat, v: seq<nat>, nodes: NodesMap, d: nat, k: int) {
    var bound := n + m;
    && |v| == 2 * bound + 1
    && d <= bound
    && bound - d <= k <= bound + d + 2
    && (k - bound + d) % 2 == 0
    && (forall j: int {:trigger PrevFacts(n, m, v, nodes, d, j)} | OnRound(bound, d - 1, j) :: PrevFacts(n, m, v, nodes, d, j))
    && (forall j: int {:trigger CurFacts(n, m, v, nodes, d, j)} | OnRound(bound, d, j) && j < k :: CurFacts(n, m, v, nodes, d, j))
  }

  /** The state of the search on entry to diagonal k of round d. */
  ghost predicate Inv<A, B>(a: seq<A>, b: seq<B>, cmp: (A, B) -> bool, d: nat, k: int, v: seq<nat>, nodes: NodesMap) {
    && Frontier(|a|, |b|, v, nodes, d, k)
    && LinksValid(nodes)
    && DiagonalLinksMatch(a, b, cmp, nodes)
  }

  /** Linking `p` to `parent` keeps every link a unit step back and every diagonal link related. */
  lemma AddLink<A, B>(a: seq<A>, b: seq<B>, cmp: (A, B) -> bool, nodes: NodesMap, p: Point, parent: Node)
    requires LinksValid(nodes) && DiagonalLinksMatch(a, b, cmp, nodes)
    requires parent == Root ==> p == (0, 0)
    requires parent.P? ==> (parent.x, parent.y) in nodes && IsBackStep(p, (parent.x, parent.y))
    requires parent.P? && IsDiagonal(p, (parent.x, parent.y)) ==>
      parent.x < |a| && parent.y < |b| && cmp(a[parent.x], b[parent.y])
    ensures LinksValid(nodes[p := parent]) && DiagonalLinksMatch(a, b, cmp, nodes[p := parent])
  {
    var nodes' := nodes[p := parent];
    forall q | q in nodes' ensures LinkOk(nodes', q) {
      if q != p {
        assert LinkOk(nodes, q);
      }
    }
  }

  /** What the snake from (x, y) guarantees of its result `r`. */
  ghost predicate SnakeOk<A, B>(a: seq<A>, b: seq<B>, cmp: (A, B) -> bool, x: nat, y: nat, nodes: NodesMap, r: (nat, NodesMap)) {
    var x', nodes' := r.0, r.1;
    && x <= x'
    && LinksValid(nodes') && DiagonalLinksMatch(a, b, cmp, nodes')
    && nodes.Keys <= nodes'.Keys
    && (x', y + (x' - x)) in nodes'
    && (x' > x ==> x' <= |a| && y + (x' - x) <= |b|)
    && !(x' < |a| && y + (x' - x) < |b| && cmp(a[x'], b[y + (x' - x)]))
  }

  /** The invariant makes every frontier point the round reads or has written lie on or above row 0. */
  lemma FrontierYDefined(n: nat, m: nat, v: seq<nat>, nodes: NodesMap, d: nat, k: int)
    requires Frontier(n, m, v, nodes, d, k)
    ensures YDefined(n + m, v, d - 1, |v|) && YDefined(n + m, v, d, k)
  {
    forall j: nat | OnRound(n + m, d - 1, j) && j < |v| ensures v[j] + n + m >= j {
      assert PrevFacts(n, m, v, nodes, d, j);
    }
    forall j: nat | OnRound(n + m, d, j) && j < k ensures j < |v| && v[j] + n + m >= j {
      assert CurFacts(n, m, v, nodes, d, j);
    }
  }

  /** The snake keeps the map walkable and ends where no further match is possible. */
  lemma {:induction false} SnakeFacts<A, B>(a: seq<A>, b: seq<B>, cmp: (A, B) -> bool, x: nat, y: nat, nodes: NodesMap)
    requires LinksValid(nodes) && DiagonalLinksMatch(a, b, cmp, nodes) && (x, y) in nodes
    ensures SnakeOk(a, b, cmp, x, y, nodes, Snake(a, b, cmp, x, y, nodes))
    decreases |a| - x
  {
    if x < |a| && y < |b| && cmp(a[x], b[y]) {
      var nodes1 := nodes[(x + 1, y + 1) := P(x, y)];
      AddLink(a, b, cmp, nodes, (x + 1, y + 1), P(x, y));
      SnakeFacts(a, b, cmp, x + 1, y + 1, nodes1);
      var r := Snake(a, b, cmp, x + 1, y + 1, nodes1);
      assert Snake(a, b, cmp, x, y, nodes) == r;
      assert nodes.Keys <= nodes1.Keys;
      assert y + 1 + (r.0 - (x + 1)) == y + (r.0 - x);
    } else {
      assert Snake(a, b, cmp, x, y, nodes) == (x, nodes);
    }
  }

  /** Writing diagonal k of round d and growing the map keeps the facts of a diagonal of round d - 1. */
  lemma PrevFrame(n: nat, m: nat, v: seq<nat>, nodes: NodesMap, d: nat, k: int, x: nat, nodes': NodesMap, j: int)
    requires 0 <= k < |v| && nodes.Keys <= nodes'.Keys
    requires OnRound(n + m, d, k) && OnRound(n + m, d - 1, j) && PrevFacts(n, m, v, nodes, d, j)
    ensures PrevFacts(n, m, v[k := x], nodes', d, j)
  {
    var y := v[j] + n + m - j;
    assert j != k;
    if y > m {
      assert j + 2 * (y - m) != k;
    }
    if v[j] > n {
      assert j - 2 * (v[j] - n) != k;
    }
  }

  /** Writing diagonal k of round d and growing the map keeps the facts of an earlier diagonal of round d. */
  lemma CurFrame(n: nat, m: nat, v: seq<nat>, nodes: NodesMap, d: nat, k: int, x: nat, nodes': NodesMap, j: int)
    requires 0 <= k < |v| && nodes.Keys <= nodes'.Keys
    requires OnRound(n + m, d, k) && OnRound(n + m, d, j) && j < k && CurFacts(n, m, v, nodes, d, j)
    ensures CurFacts(n, m, v[k := x], nodes', d, j)
  {
    var y := v[j] + n + m - j;
    SameRound(n + m, d, j, k);
    assert j + 1 < k;
    if y > m {
      assert j + 2 * (y - m) - 1 != k;
    }
  }

  /** The start of diagonal k (src/lib.rs:51-60), with everything the invariant needs of it. */
  ghost predicate StartOk(n: nat, m: nat, v: seq<nat>, nodes: NodesMap, d: nat, k: nat, s: Start) {
    var bound := n + m;
    var x, y := s.x, s.x + bound - k;
    && k < |v|
    && y >= 0
    && (d == 0 ==> s.parent == Root && x == 0 && y == 0)
    && (d > 0 ==> s.parent.P? && (s.parent.x, s.parent.y) in nodes
                  && IsBackStep((x, y), (s.parent.x, s.parent.y))
                  && !IsDiagonal((x, y), (s.parent.x, s.parent.y)))
    && 2 * x + bound - k >= d
    && BelowReflected(n, m, v, d, k, x, y, 1)
    && RightReflected(n, m, v, d, k, x)
    && (x >= n && y >= m ==> x == n && y == m)
    && (k > bound - d ==> 1 <= k && x >= v[k - 1] + 1)
    && (k < bound + d ==> k + 1 < |v| && x >= v[k + 1])
  }

  /**
    Down move from diagonal p = k + 1 (src/lib.rs:53-55).  Besides the facts of
    p, it needs, when that point is right of the grid, the facts of the
    diagonal jr it reflects onto and of the current diagonal jr - 1.
  */
  lemma StartDown(n: nat, m: nat, v: seq<nat>, nodes: NodesMap, d: nat, k: nat, s: Start, p: int, jr: int, jc: int)
    requires |v| == 2 * (n + m) + 1 && 0 < d <= n + m && OnRound(n + m, d, k) && p == k + 1
    requires k == n + m - d || (k != n + m + d && v[k - 1] < v[k + 1])
    requires PrevFacts(n, m, v, nodes, d, p)
    requires v[p] > n ==> jr == p - 2 * (v[p] - n) && jc == jr - 1
    requires v[p] > n ==> PrevFacts(n, m, v, nodes, d, jr) && CurFacts(n, m, v, nodes, d, jc)
    requires s.x == v[p] && s.parent.P? && s.parent.x == v[p] && s.parent.y == v[p] + n + m - p
    ensures StartOk(n, m, v, nodes, d, k, s)
  {
    var bound := n + m;
    var xp, yp := v[p], v[p] + bound - p;
    var x, y := xp, yp + 1;
    if y > m && yp > m {
      assert k + 2 * (y - m) == p + 2 * (yp - m) + 1;
    }
  }

  /**
    Right move from diagonal p = k - 1 (src/lib.rs:56-58).  Besides the facts of
    p, it needs those of the diagonal jb that p reflects onto when it is below
    the grid, and of the current diagonal jc the new point reflects onto when it
    is right of the grid.
  */
  lemma StartRight(n: nat, m: nat, v: seq<nat>, nodes: NodesMap, d: nat, k: nat, s: Start, p: int, jb: int, jc: int)
    requires |v| == 2 * (n + m) + 1 && 0 < d <= n + m && OnRound(n + m, d, k) && p == k - 1
    requires !(k == n + m - d || (k != n + m + d && v[k - 1] < v[k + 1]))
    requires PrevFacts(n, m, v, nodes, d, p)
    requires v[p] + n + m - p > m ==> jb == p + 2 * (v[p] + n + m - p - m) && PrevFacts(n, m, v, nodes, d, jb)
    requires v[p] + 1 > n ==> jc == k - 2 * (v[p] + 1 - n) && CurFacts(n, m, v, nodes, d, jc)
    requires s.x == v[p] + 1 && s.parent.P? && s.parent.x == v[p] && s.parent.y == v[p] + n + m - p
    ensures StartOk(n, m, v, nodes, d, k, s)
  {
    var bound := n + m;
    var xp, yp := v[p], v[p] + bound - p;
    var x, y := xp + 1, yp;
    if y > m {
      assert k + 2 * (y - m) == p + 2 * (yp - m) + 1;
    }
  }

  /** Moving by an even number of diagonals stays on the round. */
  lemma RoundShift(bound: nat, e: int, j: int, j2: int, t: int)
    requires OnRound(bound, e, j) && j2 == j + 2 * t && bound - e <= j2 <= bound + e
    ensures OnRound(bound, e, j2)
  {
  }

  /** The neighbours of a diagonal of round e + 1 that lie within round e are diagonals of round e. */
  lemma RoundNeighbours(bound: nat, e: int, j: int, j2: int)
    requires OnRound(bound, e + 1, j) && (j2 == j - 1 || j2 == j + 1) && bound - e <= j2 <= bound + e
    ensures OnRound(bound, e, j2)
  {
  }

  lemma PrevAt(n: nat, m: nat, v: seq<nat>, nodes: NodesMap, d: nat, k: int, j: int)
    requires Frontier(n, m, v, nodes, d, k) && OnRound(n + m, d - 1, j)
    ensures PrevFacts(n, m, v, nodes, d, j)
  {
  }

  lemma CurAt(n: nat, m: nat, v: seq<nat>, nodes: NodesMap, d: nat, k: int, j: int)
    requires Frontier(n, m, v, nodes, d, k) && OnRound(n + m, d, j) && j < k
    ensures CurFacts(n, m, v, nodes, d, j)
  {
  }

  lemma StartFactsDown(n: nat, m: nat, v: seq<nat>, nodes: NodesMap, d: nat, k: nat, s: Start)
    requires Frontier(n, m, v, nodes, d, k) && k <= n + m + d && d > 0
    requires k == n + m - d || (k != n + m + d && v[k - 1] < v[k + 1])
    requires s.x == v[k + 1] && s.parent.P? && s.parent.x == v[k + 1] && s.parent.y == v[k + 1] + n + m - (k + 1)
    ensures StartOk(n, m, v, nodes, d, k, s)
  {
    var bound := n + m;
    var p := k + 1;
    RoundNeighbours(bound, d - 1, k, p);
    PrevAt(n, m, v, nodes, d, k, p);
    var jr, jc := 0, 0;
    if v[p] > n {
      jr := p - 2 * (v[p] - n);
      jc := jr - 1;
      RoundShift(bound, d - 1, p, jr, -(v[p] - n));
      PrevAt(n, m, v, nodes, d, k, jr);
      RoundShift(bound, d, k, jc, -(v[p] - n));
      CurAt(n, m, v, nodes, d, k, jc);
    }
    StartDown(n, m, v, nodes, d, k, s, p, jr, jc);
  }

  lemma StartFactsRight(n: nat, m: nat, v: seq<nat>, nodes: NodesMap, d: nat, k: nat, s: Start)
    requires Frontier(n, m, v, nodes, d, k) && k <= n + m + d && d > 0
    requires !(k == n + m - d || (k != n + m + d && v[k - 1] < v[k + 1]))
    requires s.x == v[k - 1] + 1 && s.parent.P? && s.parent.x == v[k - 1] && s.parent.y == v[k - 1] + n + m - (k - 1)
    ensures StartOk(n, m, v, nodes, d, k, s)
  {
    var bound := n + m;
    var p := k - 1;
    RoundNeighbours(bound, d - 1, k, p);
    PrevAt(n, m, v, nodes, d, k, p);
    var yp := v[p] + bound - p;
    var jb, jc := 0, 0;
    if yp > m {
      jb := p + 2 * (yp - m);
      RoundShift(bound, d - 1, p, jb, yp - m);
      PrevAt(n, m, v, nodes, d, k, jb);
    }
    if v[p] + 1 > n {
      jc := k - 2 * (v[p] + 1 - n);
      RoundShift(bound, d, k, jc, -(v[p] + 1 - n));
      CurAt(n, m, v, nodes, d, k, jc);
    }
    StartRight(n, m, v, nodes, d, k, s, p, jb, jc);
  }

  /** The start of every diagonal the round reaches meets `StartOk`. */
  lemma StartFacts(n: nat, m: nat, v: seq<nat>, nodes: NodesMap, d: nat, k: nat, s: Start)
    requires Frontier(n, m, v, nodes, d, k) && k <= n + m + d
    requires YDefined(n + m, v, d - 1, |v|)
    requires s == StartOf(n + m, v, d, k)
    ensures StartOk(n, m, v, nodes, d, k, s)
  {
    var bound := n + m;
    if d == 0 {
      assert s == Start(0, Root);
    } else if k == bound - d || (k != bound + d && v[k - 1] < v[k + 1]) {
      StartOfDown(bound, v, d, k);
      StartFactsDown(n, m, v, nodes, d, k, s);
    } else {
      StartOfRight(bound, v, d, k);
      StartFactsRight(n, m, v, nodes, d, k, s);
    }
  }

  lemma StartOfDown(bound: nat, v: seq<nat>, d: nat, k: nat)
    requires |v| == 2 * bound + 1 && 0 < d <= bound && OnRound(bound, d, k)
    requires YDefined(bound, v, d - 1, |v|)
    requires k == bound - d || (k != bound + d && v[k - 1] < v[k + 1])
    ensures k + 1 < |v| && v[k + 1] + bound >= k + 1
    ensures StartOf(bound, v, d, k) == Start(v[k + 1], P(v[k + 1], v[k + 1] + bound - (k + 1)))
  {
    assert OnRound(bound, d - 1, k + 1);
  }

  lemma StartOfRight(bound: nat, v: seq<nat>, d: nat, k: nat)
    requires |v| == 2 * bound + 1 && 0 < d <= bound && OnRound(bound, d, k)
    requires YDefined(bound, v, d - 1, |v|)
    requires !(k == bound - d || (k != bound + d && v[k - 1] < v[k + 1]))
    ensures 1 <= k && v[k - 1] + bound >= k - 1
    ensures StartOf(bound, v, d, k) == Start(v[k - 1] + 1, P(v[k - 1], v[k - 1] + bound - (k - 1)))
  {
    assert OnRound(bound, d - 1, k - 1);
  }

  /** The facts of diagonal k once it has been visited without reaching (n, m). */
  lemma VisitedCur(n: nat, m: nat, v: seq<nat>, nodes: NodesMap, d: nat, k: nat, s: Start, x': nat, nodes': NodesMap)
    requires |v| == 2 * (n + m) + 1 && d <= n + m && OnRound(n + m, d, k)
    requires StartOk(n, m, v, nodes, d, k, s)
    requires x' >= s.x && (x', x' + n + m - k) in nodes'
    requires x' > s.x ==> x' <= n && x' + n + m - k <= m
    requires !(x' >= n && x' + n + m - k >= m)
    ensures CurFacts(n, m, v[k := x'], nodes', d, k)
  {
    var bound := n + m;
    var y' := x' + bound - k;
    if y' > m {
      assert x' == s.x;
      assert k + 2 * (y' - m) - 1 != k;
    }
    if x' > n {
      assert x' == s.x;
    }
  }

  /** `VisitDiagonal` spelled out: the start link, then the snake. */
  lemma VisitUnfold<A, B>(a: seq<A>, b: seq<B>, cmp: (A, B) -> bool, d: nat, k: nat, v: seq<nat>, nodes: NodesMap,
                          s: Start, y: nat, nodes1: NodesMap)
    requires |v| == 2 * (|a| + |b|) + 1 && d <= |a| + |b| && OnRound(|a| + |b|, d, k)
    requires YDefined(|a| + |b|, v, d - 1, |v|)
    requires s == StartOf(|a| + |b|, v, d, k) && y == s.x + |a| + |b| - k && nodes1 == nodes[(s.x, y) := s.parent]
    ensures VisitDiagonal(a, b, cmp, d, k, v, nodes)
      == (v[k := Snake(a, b, cmp, s.x, y, nodes1).0], Snake(a, b, cmp, s.x, y, nodes1).1)
  {
  }

  /** Linking the start point and following the snake keeps the map walkable. */
  lemma VisitStep<A, B>(a: seq<A>, b: seq<B>, cmp: (A, B) -> bool, d: nat, k: nat, v: seq<nat>, nodes: NodesMap,
                        s: Start, y: nat, nodes1: NodesMap, r: (nat, NodesMap))
    requires LinksValid(nodes) && DiagonalLinksMatch(a, b, cmp, nodes)
    requires StartOk(|a|, |b|, v, nodes, d, k, s)
    requires y == s.x + |a| + |b| - k && nodes1 == nodes[(s.x, y) := s.parent]
    requires r == Snake(a, b, cmp, s.x, y, nodes1)
    ensures nodes.Keys <= r.1.Keys
    ensures LinksValid(r.1) && DiagonalLinksMatch(a, b, cmp, r.1)
    ensures r.0 >= s.x && (r.0, r.0 + |a| + |b| - k) in r.1
    ensures r.0 > s.x ==> r.0 <= |a| && r.0 + |a| + |b| - k <= |b|
  {
    AddLink(a, b, cmp, nodes, (s.x, y), s.parent);
    SnakeFacts(a, b, cmp, s.x, y, nodes1);
    assert (r.0, y + (r.0 - s.x)) == (r.0, r.0 + |a| + |b| - k);
  }

  /** After visiting diagonal k: (n, m) reached with a walkable map, or the invariant at k + 2. */
  ghost predicate VisitOk<A, B>(a: seq<A>, b: seq<B>, cmp: (A, B) -> bool, d: nat, k: nat, r: (seq<nat>, NodesMap)) {
    k < |r.0| &&
    if r.0[k] >= |a| && r.0[k] + |a| + |b| - k >= |b| then Final(a, b, cmp, r.1) && r.0[k] == |a| && r.0[k] + |a| + |b| - k == |b|
    else Inv(a, b, cmp, d, k + 2, r.0, r.1)
  }

  /** The visit of diagonal k, given its start and its snake. */
  lemma VisitCore<A, B>(a: seq<A>, b: seq<B>, cmp: (A, B) -> bool, d: nat, k: nat, v: seq<nat>, nodes: NodesMap,
                        s: Start, y: nat, nodes1: NodesMap, r: (nat, NodesMap))
    requires Inv(a, b, cmp, d, k, v, nodes) && k <= |a| + |b| + d
    requires YDefined(|a| + |b|, v, d - 1, |v|)
    requires s == StartOf(|a| + |b|, v, d, k) && y == s.x + |a| + |b| - k && nodes1 == nodes[(s.x, y) := s.parent]
    requires r == Snake(a, b, cmp, s.x, y, nodes1)
    ensures r.0 >= |a| && r.0 + |a| + |b| - k >= |b| ==> Final(a, b, cmp, r.1) && r.0 == |a| && r.0 + |a| + |b| - k == |b|
    ensures !(r.0 >= |a| && r.0 + |a| + |b| - k >= |b|) ==> Inv(a, b, cmp, d, k + 2, v[k := r.0], r.1)
  {
    var n, m := |a|, |b|;
    StartFacts(n, m, v, nodes, d, k, s);
    VisitStep(a, b, cmp, d, k, v, nodes, s, y, nodes1, r);
    if !(r.0 >= n && r.0 + n + m - k >= m) {
      FrontierAdvance(n, m, v, nodes, d, k, s, r.0, r.1);
    }
  }

  /** One diagonal: either (n, m) is reached with a walkable map, or the invariant moves on to k + 2. */
  lemma VisitFacts<A, B>(a: seq<A>, b: seq<B>, cmp: (A, B) -> bool, d: nat, k: nat, v: seq<nat>, nodes: NodesMap)
    requires Inv(a, b, cmp, d, k, v, nodes) && k <= |a| + |b| + d
    requires YDefined(|a| + |b|, v, d - 1, |v|)
    ensures VisitOk(a, b, cmp, d, k, VisitDiagonal(a, b, cmp, d, k, v, nodes))
  {
    var bound := |a| + |b|;
    var s := StartOf(bound, v, d, k);
    var y := s.x + bound - k;
    var nodes1 := nodes[(s.x, y) := s.parent];
    var r := Snake(a, b, cmp, s.x, y, nodes1);
    VisitUnfold(a, b, cmp, d, k, v, nodes, s, y, nodes1);
    VisitCore(a, b, cmp, d, k, v, nodes, s, y, nodes1, r);
    assert v[k := r.0][k] == r.0;
  }

  /** Visiting diagonal k without reaching (n, m) extends the frontier facts to it. */
  lemma FrontierAdvance(n: nat, m: nat, v: seq<nat>, nodes: NodesMap, d: nat, k: nat, s: Start, x': nat, nodes': NodesMap)
    requires Frontier(n, m, v, nodes, d, k) && k <= n + m + d
    requires StartOk(n, m, v, nodes, d, k, s)
    requires x' >= s.x && (x', x' + n + m - k) in nodes'
    requires x' > s.x ==> x' <= n && x' + n + m - k <= m
    requires !(x' >= n && x' + n + m - k >= m)
    requires nodes.Keys <= nodes'.Keys
    ensures Frontier(n, m, v[k := x'], nodes', d, k + 2)
  {
    var bound := n + m;
    var v' := v[k := x'];
    forall j | OnRound(bound, d - 1, j) ensures PrevFacts(n, m, v', nodes', d, j) {
      PrevAt(n, m, v, nodes, d, k, j);
      PrevFrame(n, m, v, nodes, d, k, x', nodes', j);
    }
    forall j | OnRound(bound, d, j) && j < k + 2 ensures CurFacts(n, m, v', nodes', d, j) {
      SameRound(bound, d, j, k);
      if j < k {
        CurAt(n, m, v, nodes, d, k, j);
        CurFrame(n, m, v, nodes, d, k, x', nodes', j);
      } else {
        VisitedCur(n, m, v, nodes, d, k, s, x', nodes');
      }
    }
  }

  /** A round ends with (n, m) reached, or with every diagonal of the round visited. */
  ghost predicate RoundOk<A, B>(a: seq<A>, b: seq<B>, cmp: (A, B) -> bool, d: nat, r: RoundOutcome) {
    if r.Reached? then Final(a, b, cmp, r.nodes) else Inv(a, b, cmp, d, |a| + |b| + d + 2, r.v, r.nodes)
  }

  /** One diagonal of the specified round: it reaches (n, m), ends the round, or hands over to diagonal k + 2. */
  lemma RoundUnfold<A, B>(a: seq<A>, b: seq<B>, cmp: (A, B) -> bool, d: nat, k: nat, v: seq<nat>, nodes: NodesMap,
                          r: (seq<nat>, NodesMap))
    requires |v| == 2 * (|a| + |b|) + 1 && d <= |a| + |b| && OnRound(|a| + |b|, d, k)
    requires YDefined(|a| + |b|, v, d - 1, |v|) && YDefined(|a| + |b|, v, d, k)
    requires r == VisitDiagonal(a, b, cmp, d, k, v, nodes)
    ensures r.0[k] >= |a| && r.0[k] + |a| + |b| - k >= |b| ==> RoundFrom(a, b, cmp, d, k, v, nodes) == Reached(r.1)
    ensures !(r.0[k] >= |a| && r.0[k] + |a| + |b| - k >= |b|) && k + 2 > |a| + |b| + d ==>
              RoundFrom(a, b, cmp, d, k, v, nodes) == Running(r.0, r.1)
    ensures !(r.0[k] >= |a| && r.0[k] + |a| + |b| - k >= |b|) && k + 2 <= |a| + |b| + d ==>
              && OnRound(|a| + |b|, d, k + 2)
              && YDefined(|a| + |b|, r.0, d - 1, |v|) && YDefined(|a| + |b|, r.0, d, k + 2)
              && RoundFrom(a, b, cmp, d, k, v, nodes) == RoundFrom(a, b, cmp, d, k + 2, r.0, r.1)
  {
    FrontierKept(|a| + |b|, v, d, k, r.0);
  }

  /** The rest of a round ends with (n, m) reached, or with every diagonal of the round visited. */
  lemma {:induction false} RoundFacts<A, B>(a: seq<A>, b: seq<B>, cmp: (A, B) -> bool, d: nat, k: nat, v: seq<nat>, nodes: NodesMap)
    requires Inv(a, b, cmp, d, k, v, nodes) && k <= |a| + |b| + d
    requires YDefined(|a| + |b|, v, d - 1, |v|) && YDefined(|a| + |b|, v, d, k)
    ensures RoundOk(a, b, cmp, d, RoundFrom(a, b, cmp, d, k, v, nodes))
    decreases |a| + |b| + d - k
  {
    var bound := |a| + |b|;
    VisitFacts(a, b, cmp, d, k, v, nodes);
    var r := VisitDiagonal(a, b, cmp, d, k, v, nodes);
    RoundUnfold(a, b, cmp, d, k, v, nodes, r);
    if !(r.0[k] >= |a| && r.0[k] + bound - k >= |b|) && k + 2 <= bound + d {
      RoundFacts(a, b, cmp, d, k + 2, r.0, r.1);
    }
  }

  /** After a complete round without reaching (n, m), another round remains and the invariant holds for it. */
  lemma Transition<A, B>(a: seq<A>, b: seq<B>, cmp: (A, B) -> bool, d: nat, r: RoundOutcome)
    requires r.Running? && RoundOk(a, b, cmp, d, r)
    ensures d < |a| + |b|
    ensures Inv(a, b, cmp, d + 1, |a| + |b| - (d + 1), r.v, r.nodes)
  {
    var v, nodes := r.v, r.nodes;
    var n, m := |a|, |b|;
    var bound := n + m;
    var k := bound + d + 2;
    if d == bound {
      CurAt(n, m, v, nodes, d, k, 2 * n);
      assert false;
    }
    forall j | OnRound(bound, d, j) ensures PrevFacts(n, m, v, nodes, d + 1, j) {
      CurAt(n, m, v, nodes, d, k, j);
      var y := v[j] + bound - j;
      if y > m {
        var t := y - m;
        var j' := j + 2 * t;
        RoundShift(bound, d, j, j', t);
        CurAt(n, m, v, nodes, d, k, j');
      }
    }
  }

  /** The search broke out in a round <= n + m with a walkable map containing (n, m). */
  ghost predicate FoundOk<A, B>(a: seq<A>, b: seq<B>, cmp: (A, B) -> bool, r: Search) {
    r.Found? && r.round <= |a| + |b| && Final(a, b, cmp, r.nodes)
  }

  /** One round of the specified search: it breaks out, or goes on with the frontier the round leaves. */
  lemma SearchUnfold<A, B>(a: seq<A>, b: seq<B>, cmp: (A, B) -> bool, d: nat, v: seq<nat>, nodes: NodesMap, r: RoundOutcome)
    requires |v| == 2 * (|a| + |b|) + 1 && d <= |a| + |b|
    requires YDefined(|a| + |b|, v, d - 1, |v|) && YDefined(|a| + |b|, v, d, |a| + |b| - d)
    requires r == RoundFrom(a, b, cmp, d, |a| + |b| - d, v, nodes)
    ensures r.Reached? ==> SearchFrom(a, b, cmp, d, v, nodes) == Found(d, r.nodes)
    ensures r.Running? ==> SearchFrom(a, b, cmp, d, v, nodes) == SearchFrom(a, b, cmp, d + 1, r.v, r.nodes)
  {
  }

  /** One round of the search: it breaks out at (n, m), or it leaves the invariant for the next round. */
  lemma SearchStep<A, B>(a: seq<A>, b: seq<B>, cmp: (A, B) -> bool, d: nat, v: seq<nat>, nodes: NodesMap)
    returns (r: RoundOutcome)
    requires Inv(a, b, cmp, d, |a| + |b| - d, v, nodes)
    requires YDefined(|a| + |b|, v, d - 1, |v|)
    ensures |v| == 2 * (|a| + |b|) + 1 && d <= |a| + |b| && OnRound(|a| + |b|, d, |a| + |b| - d)
    ensures YDefined(|a| + |b|, v, d, |a| + |b| - d) && r == RoundFrom(a, b, cmp, d, |a| + |b| - d, v, nodes)
    ensures r.Reached? ==> SearchFrom(a, b, cmp, d, v, nodes) == Found(d, r.nodes) && Final(a, b, cmp, r.nodes)
    ensures r.Running? ==>
              && d < |a| + |b| && |r.v| == |v|
              && Inv(a, b, cmp, d + 1, |a| + |b| - (d + 1), r.v, r.nodes)
              && YDefined(|a| + |b|, r.v, d, |v|)
              && SearchFrom(a, b, cmp, d, v, nodes) == SearchFrom(a, b, cmp, d + 1, r.v, r.nodes)
  {
    var bound := |a| + |b|;
    FrontierYDefined(|a|, |b|, v, nodes, d, bound - d);
    RoundFacts(a, b, cmp, d, bound - d, v, nodes);
    r := RoundFrom(a, b, cmp, d, bound - d, v, nodes);
    SearchUnfold(a, b, cmp, d, v, nodes, r);
    if r.Running? {
      Transition(a, b, cmp, d, r);
    }
  }

  /** From round d on, the search breaks out in some round <= n + m with a walkable map containing (n, m). */
  lemma {:induction false} SearchFacts<A, B>(a: seq<A>, b: seq<B>, cmp: (A, B) -> bool, d: nat, v: seq<nat>, nodes: NodesMap)
    requires Inv(a, b, cmp, d, |a| + |b| - d, v, nodes)
    requires YDefined(|a| + |b|, v, d - 1, |v|)
    ensures FoundOk(a, b, cmp, SearchFrom(a, b, cmp, d, v, nodes))
    decreases |a| + |b| - d
  {
    var r := SearchStep(a, b, cmp, d, v, nodes);
    if r.Running? {
      SearchFacts(a, b, cmp, d + 1, r.v, r.nodes);
    }
  }

  /**
    The guarantee of src/lib.rs:39-78: the search always breaks out, in a
    round no larger than n + m, with (n, m) in the map and every link a unit
    back step whose diagonals relate their elements.
  */
  lemma MyersSearchFound<A, B>(a: seq<A>, b: seq<B>, cmp: (A, B) -> bool)
    ensures FoundOk(a, b, cmp, MyersOutcome(a, b, cmp))
  {
    var bound := |a| + |b|;
    var v := ZeroFrontier(bound);
    assert Frontier(|a|, |b|, v, map[], 0, bound);
    SearchFacts(a, b, cmp, 0, v, map[]);
  }

  /** A walk through a map whose diagonal links relate their elements has related diagonal steps. */
  lemma WalkDiagonals<A, B>(a: seq<A>, b: seq<B>, cmp: (A, B) -> bool, nodes: NodesMap, p: Point)
    requires LinksValid(nodes) && DiagonalLinksMatch(a, b, cmp, nodes) && p in nodes
    ensures DiagonalsSatisfy(Walk(nodes, p), a, b, cmp)
  {
    var path := Walk(nodes, p);
    forall t | 0 <= t < |path| - 1 && IsDiagonal(path[t], path[t + 1])
      ensures path[t + 1].0 < |a| && path[t + 1].1 < |b| && cmp(a[path[t + 1].0], b[path[t + 1].1])
    {
      var u, q := path[t], path[t + 1];
      WalkLink(nodes, p, t);
      assert u in nodes && nodes[u] == P(q.0, q.1);
      assert nodes[u].P? && IsDiagonal(u, (nodes[u].x, nodes[u].y));
    }
  }

  /** The points the `EditPath` returned by the search yields: from (n, m) back to (0, 0). */
  ghost function MyersPath<A, B>(a: seq<A>, b: seq<B>, cmp: (A, B) -> bool): (path: seq<Point>)
    ensures IsBackwardPath(path) && path[0] == (|a|, |b|) && path[|path| - 1] == (0, 0)
    ensures DiagonalsSatisfy(path, a, b, cmp)
  {
    MyersSearchFound(a, b, cmp);
    WalkDiagonals(a, b, cmp, MyersOutcome(a, b, cmp).nodes, (|a|, |b|));
    Walk(MyersOutcome(a, b, cmp).nodes, (|a|, |b|))
  }
}

/**
  The greedy shortest-edit-path search of src/lib.rs (E. Myers, "An O(ND)
  Difference Algorithm and Its Variations", 1986), written as functions that
  follow the loops of `get_shortest_edit_path_myers` step by step, and the
  parent map that `EditPath` walks.

  Diagonals are numbered as in the source: with bound = n + m, the point with
  x elements of `a` and y elements of `b` consumed lies on diagonal
  k = x + bound - y, so y = x + bound - k (`get_y`).  Round d visits the
  diagonals bound - d, bound - d + 2, ..., bound + d; `v[k]` holds the x of
  the furthest point reached on diagonal k.
*/
module MyersSearch {
  import opened EditGraph

  /** `Node` of src/lib.rs: a grid point, or the root above (0, 0). */
  datatype Node = P(x: nat, y: nat) | Root

  /** `nodes_map`: the parent of every visited point. */
  type NodesMap = map<Point, Node>

  /** The diagonal j is one of those that round e visits. */
  ghost predicate OnRound(bound: nat, e: int, j: int) {
    bound - e <= j <= bound + e && (j - bound + e) % 2 == 0
  }

  /** Every diagonal of round e below `limit` holds a point with y >= 0. */
  ghost predicate YDefined(bound: nat, v: seq<nat>, e: int, limit: int) {
    forall j: nat | OnRound(bound, e, j) && j < limit :: j < |v| && v[j] + bound >= j
  }

  /** A parent link steps back by one unit move to a visited point; only (0, 0) hangs off the root. */
  ghost predicate LinkOk(nodes: NodesMap, p: Point)
    requires p in nodes
  {
    match nodes[p]
    case Root => p == (0, 0)
    case P(x, y) => (x, y) in nodes && IsBackStep(p, (x, y))
  }

  ghost predicate LinksValid(nodes: NodesMap) {
    forall p {:trigger LinkOk(nodes, p)} | p in nodes :: LinkOk(nodes, p)
  }

  /** Diagonal links join two related elements inside the grid. */
  ghost predicate DiagonalLinksMatch<A, B>(a: seq<A>, b: seq<B>, cmp: (A, B) -> bool, nodes: NodesMap) {
    forall p | p in nodes && nodes[p].P? && IsDiagonal(p, (nodes[p].x, nodes[p].y)) ::
      nodes[p].x < |a| && nodes[p].y < |b| && cmp(a[nodes[p].x], b[nodes[p].y])
  }

  /**
    The points `EditPath` yields from `p` on: `p`, its parent, its parent's
    parent, ... down to the point (0, 0) whose parent is the root.
  */
  ghost function Walk(nodes: NodesMap, p: Point): (path: seq<Point>)
    requires LinksValid(nodes) && p in nodes
    ensures IsBackwardPath(path) && path[0] == p && path[|path| - 1] == (0, 0)
    ensures forall t | 0 <= t < |path| :: path[t] in nodes
    ensures nodes[path[|path| - 1]] == Root
    decreases p.0 + p.1
  {
    assert LinkOk(nodes, p);
    match nodes[p]
    case Root => [p]
    case P(x, y) => [p] + Walk(nodes, (x, y))
  }

  /** Every step of a walk follows the parent link of the point it leaves. */
  lemma {:induction false} WalkLink(nodes: NodesMap, p: Point, t: nat)
    requires LinksValid(nodes) && p in nodes && t + 1 < |Walk(nodes, p)|
    ensures nodes[Walk(nodes, p)[t]] == P(Walk(nodes, p)[t + 1].0, Walk(nodes, p)[t + 1].1)
    decreases t
  {
    assert LinkOk(nodes, p);
    match nodes[p]
    case P(x, y) =>
      if t > 0 {
        WalkLink(nodes, (x, y), t - 1);
      }
  }

  /** Where diagonal k starts in round d, and the point it is reached from (src/lib.rs:51-59). */
  datatype Start = Start(x: nat, parent: Node)

  ghost function StartOf(bound: nat, v: seq<nat>, d: nat, k: nat): (s: Start)
    requires |v| == 2 * bound + 1 && d <= bound && OnRound(bound, d, k)
    requires YDefined(bound, v, d - 1, |v|)
    ensures s.x + bound >= k
  {
    if d == 0 then
      Start(0, Root)
    else if k == bound - d || (k != bound + d && v[k - 1] < v[k + 1]) then
      assert OnRound(bound, d - 1, k + 1);
      Start(v[k + 1], P(v[k + 1], v[k + 1] + bound - (k + 1)))
    else
      assert OnRound(bound, d - 1, k - 1);
      Start(v[k - 1] + 1, P(v[k - 1], v[k - 1] + bound - (k - 1)))
  }

  /**
    The snake of src/lib.rs:62-66: follow related elements diagonally from
    (x, y), linking each new point to the previous one.  Returns the final x
    and the map.
  */
  ghost function Snake<A, B>(a: seq<A>, b: seq<B>, cmp: (A, B) -> bool, x: nat, y: nat, nodes: NodesMap): (r: (nat, NodesMap))
    ensures x <= r.0
    decreases |a| - x
  {
    if x < |a| && y < |b| && cmp(a[x], b[y]) then
      Snake(a, b, cmp, x + 1, y + 1, nodes[(x + 1, y + 1) := P(x, y)])
    else
      (x, nodes)
  }

  /** One diagonal of one round (src/lib.rs:51-67): the new frontier and map. */
  ghost function VisitDiagonal<A, B>(a: seq<A>, b: seq<B>, cmp: (A, B) -> bool, d: nat, k: nat, v: seq<nat>, nodes: NodesMap)
    : (r: (seq<nat>, NodesMap))
    requires |v| == 2 * (|a| + |b|) + 1 && d <= |a| + |b| && OnRound(|a| + |b|, d, k)
    requires YDefined(|a| + |b|, v, d - 1, |v|)
    ensures |r.0| == |v| && r.0[k] + |a| + |b| >= k
    ensures forall j | 0 <= j < |v| && j != k :: r.0[j] == v[j]
  {
    var bound := |a| + |b|;
    var s := StartOf(bound, v, d, k);
    var y := s.x + bound - k;
    var (x', nodes') := Snake(a, b, cmp, s.x, y, nodes[(s.x, y) := s.parent]);
    (v[k := x'], nodes')
  }

  /** The state after part of a round: still searching, or `(n, m)` side reached. */
  datatype RoundOutcome = Running(v: seq<nat>, nodes: NodesMap) | Reached(nodes: NodesMap)

  /** The rest of round d from diagonal k on (the inner loop, src/lib.rs:50-71). */
  ghost function RoundFrom<A, B>(a: seq<A>, b: seq<B>, cmp: (A, B) -> bool, d: nat, k: nat, v: seq<nat>, nodes: NodesMap)
    : (r: RoundOutcome)
    requires |v| == 2 * (|a| + |b|) + 1 && d <= |a| + |b| && OnRound(|a| + |b|, d, k)
    requires YDefined(|a| + |b|, v, d - 1, |v|) && YDefined(|a| + |b|, v, d, k)
    ensures r.Running? ==> |r.v| == |v| && YDefined(|a| + |b|, r.v, d, |v|)
    decreases |a| + |b| + d - k
  {
    var bound := |a| + |b|;
    var (v', nodes') := VisitDiagonal(a, b, cmp, d, k, v, nodes);
    FrontierKept(bound, v, d, k, v');
    if v'[k] >= |a| && v'[k] + bound - k >= |b| then
      Reached(nodes')
    else if k + 2 > bound + d then
      assert YDefined(bound, v', d, |v|) by {
        forall j: nat | OnRound(bound, d, j) && j < |v| ensures v'[j] + bound >= j {
          SameRound(bound, d, j, k);
        }
      }
      Running(v', nodes')
    else
      assert OnRound(bound, d, k + 2);
      RoundFrom(a, b, cmp, d, k + 2, v', nodes')
  }

  /** Overwriting the frontier entry of diagonal k keeps y defined on the previous round and on round d up to k + 2. */
  lemma FrontierKept(bound: nat, v: seq<nat>, d: nat, k: nat, v': seq<nat>)
    requires |v| == 2 * bound + 1 && d <= bound && OnRound(bound, d, k)
    requires YDefined(bound, v, d - 1, |v|) && YDefined(bound, v, d, k)
    requires |v'| == |v| && v'[k] + bound >= k
    requires forall j | 0 <= j < |v| && j != k :: v'[j] == v[j]
    ensures YDefined(bound, v', d - 1, |v|) && YDefined(bound, v', d, k + 2)
  {
    forall j: nat | OnRound(bound, d - 1, j) && j < |v| ensures v'[j] + bound >= j {
      assert j != k;
    }
    forall j: nat | OnRound(bound, d, j) && j < k + 2 ensures j < |v| && v'[j] + bound >= j {
      SameRound(bound, d, j, k);
    }
  }

  /** Two diagonals of one round differ by an even number. */
  lemma SameRound(bound: nat, e: int, j: int, k: int)
    requires OnRound(bound, e, j) && OnRound(bound, e, k)
    ensures (j - k) % 2 == 0
    ensures j < k + 2 ==> j <= k
  {
  }

  /** The result of the outer loop: broken out of in round `round`, or run to the end. */
  datatype Search = Found(round: nat, nodes: NodesMap) | Exhausted(nodes: NodesMap)

  /** Rounds d, d + 1, ..., bound (the outer loop, src/lib.rs:49-72). */
  ghost function SearchFrom<A, B>(a: seq<A>, b: seq<B>, cmp: (A, B) -> bool, d: nat, v: seq<nat>, nodes: NodesMap): (r: Search)
    requires |v| == 2 * (|a| + |b|) + 1 && YDefined(|a| + |b|, v, d - 1, |v|)
    ensures r.Found? ==> d <= r.round <= |a| + |b|
    decreases |a| + |b| + 1 - d
  {
    var bound := |a| + |b|;
    if d > bound then
      Exhausted(nodes)
    else
      assert OnRound(bound, d, bound - d);
      match RoundFrom(a, b, cmp, d, bound - d, v, nodes)
      case Reached(nodes') => Found(d, nodes')
      case Running(v', nodes') => SearchFrom(a, b, cmp, d + 1, v', nodes')
  }

  /** The frontier `vec![0; 2 * bound + 1]` (src/lib.rs:47). */
  function ZeroFrontier(bound: nat): (v: seq<nat>)
    ensures |v| == 2 * bound + 1 && forall j | 0 <= j < |v| :: v[j] == 0
  {
    seq(2 * bound + 1, _ => 0)
  }

  /** The search from an all-zero frontier and an empty map (src/lib.rs:43-48). */
  ghost function MyersOutcome<A, B>(a: seq<A>, b: seq<B>, cmp: (A, B) -> bool): (r: Search)
    ensures r.Found? ==> r.round <= |a| + |b|
  {
    var bound := |a| + |b|;
    SearchFrom(a, b, cmp, 0, ZeroFrontier(bound), map[])
  }
}

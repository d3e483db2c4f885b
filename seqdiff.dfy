/**
  The executable layer of src/lib.rs: the `EditPath` iterator, the search
  `get_shortest_edit_path_myers` with its frontier array and nested loops,
  `path_to_diff`, `diff_by` and `diff`.  Each loop is proved against the
  specification functions of MyersSearch, whose properties MyersProof
  establishes.
*/
module SeqDiff {
  import opened Wrappers
  import opened EditGraph
  import opened MyersSearch
  import opened MyersProof
  import opened MyersSelf
  import opened EditDistance
  import opened MyersOptimal

  /** `EditPath` (src/lib.rs:17-33): the parent map and the point to yield next. */
  class EditPath {
    var nodesMap: NodesMap
    var cur: Node

    ghost predicate Valid()
      reads this
    {
      LinksValid(nodesMap) && (cur.P? ==> (cur.x, cur.y) in nodesMap)
    }

    /** The points the iterator still yields. */
    ghost function Remaining(): seq<Point>
      reads this
      requires Valid()
    {
      if cur.Root? then [] else Walk(nodesMap, (cur.x, cur.y))
    }

    constructor (nodesMap: NodesMap, cur: Node)
      requires LinksValid(nodesMap) && (cur.P? ==> (cur.x, cur.y) in nodesMap)
      ensures this.nodesMap == nodesMap && this.cur == cur && Valid()
    {
      this.nodesMap := nodesMap;
      this.cur := cur;
    }

    /** `next`: yield the current point and move to its parent; `None` once the root is reached. */
    method Next() returns (r: Option<Point>)
      requires Valid()
      modifies this
      ensures Valid() && nodesMap == old(nodesMap)
      ensures old(Remaining()) == [] ==> r == None && Remaining() == []
      ensures old(Remaining()) != [] ==> r.Some? && old(Remaining()) == [r.value] + Remaining()
    {
      match cur
      case Root =>
        r := None;
      case P(x, y) =>
        assert LinkOk(nodesMap, (x, y));
        cur := nodesMap[(x, y)];
        r := Some((x, y));
    }

    /** Drain the iterator, as `path_to_diff`'s `for` loop does. */
    method Collect() returns (path: seq<Point>)
      requires Valid()
      modifies this
      ensures Valid() && nodesMap == old(nodesMap)
      ensures path == old(Remaining()) && Remaining() == []
    {
      ghost var all := Remaining();
      path := [];
      while true
        invariant Valid() && nodesMap == old(nodesMap)
        invariant all == path + Remaining()
        decreases |Remaining()|
      {
        var r := Next();
        if r.None? {
          break;
        }
        SeqShift(path, r.value, Remaining());
        path := path + [r.value];
      }
    }
  }

  lemma SeqShift<T>(p: seq<T>, x: T, q: seq<T>)
    ensures p + ([x] + q) == (p + [x]) + q
  {
  }

  /** State of the search at the head of round d: the rest of the search is what the specification searches. */
  ghost predicate SearchState<A, B>(a: seq<A>, b: seq<B>, cmp: (A, B) -> bool, d: nat, v: seq<nat>, nodes: NodesMap) {
    && |v| == 2 * (|a| + |b|) + 1
    && YDefined(|a| + |b|, v, d - 1, |v|)
    && SearchFrom(a, b, cmp, d, v, nodes) == MyersOutcome(a, b, cmp)
  }

  /** State of round d before diagonal k: the rest of the round ends in `target`. */
  ghost predicate RoundState<A, B>(a: seq<A>, b: seq<B>, cmp: (A, B) -> bool, d: nat, k: int, v: seq<nat>, nodes: NodesMap,
                                   target: RoundOutcome) {
    var bound := |a| + |b|;
    && |v| == 2 * bound + 1
    && d <= bound
    && bound - d <= k <= bound + d + 2
    && (k - bound + d) % 2 == 0
    && YDefined(bound, v, d - 1, |v|)
    && YDefined(bound, v, d, k)
    && (k <= bound + d ==> RoundFrom(a, b, cmp, d, k, v, nodes) == target)
    && (k > bound + d ==> target == Running(v, nodes))
  }

  /** One visited diagonal advances the round, or ends it with (n, m) reached. */
  lemma RoundStep<A, B>(a: seq<A>, b: seq<B>, cmp: (A, B) -> bool, d: nat, k: nat, v: seq<nat>, nodes: NodesMap,
                        target: RoundOutcome, v': seq<nat>, nodes': NodesMap)
    requires RoundState(a, b, cmp, d, k, v, nodes, target) && k <= |a| + |b| + d
    requires v' == VisitDiagonal(a, b, cmp, d, k, v, nodes).0 && nodes' == VisitDiagonal(a, b, cmp, d, k, v, nodes).1
    ensures k < |v'|
    ensures v'[k] >= |a| && v'[k] + |a| + |b| - k >= |b| ==> target == Reached(nodes')
    ensures !(v'[k] >= |a| && v'[k] + |a| + |b| - k >= |b|) ==> RoundState(a, b, cmp, d, k + 2, v', nodes', target)
  {
    FrontierKept(|a| + |b|, v, d, k, v');
  }

  /** A round run to its end hands its frontier to the next round, which exists since the search breaks out. */
  lemma RoundEnd<A, B>(a: seq<A>, b: seq<B>, cmp: (A, B) -> bool, d: nat, v0: seq<nat>, nodes0: NodesMap,
                       v: seq<nat>, nodes: NodesMap, target: RoundOutcome)
    requires SearchState(a, b, cmp, d, v0, nodes0) && d <= |a| + |b|
    requires YDefined(|a| + |b|, v0, d, |a| + |b| - d) && target == RoundFrom(a, b, cmp, d, |a| + |b| - d, v0, nodes0)
    requires target == Running(v, nodes)
    ensures d < |a| + |b|
    ensures SearchState(a, b, cmp, d + 1, v, nodes)
  {
    MyersSearchFound(a, b, cmp);
  }

  /** A round that reaches (n, m) is where the specified search breaks out. */
  lemma RoundHit<A, B>(a: seq<A>, b: seq<B>, cmp: (A, B) -> bool, d: nat, v0: seq<nat>, nodes0: NodesMap,
                       nodes: NodesMap, target: RoundOutcome)
    requires SearchState(a, b, cmp, d, v0, nodes0) && d <= |a| + |b|
    requires YDefined(|a| + |b|, v0, d, |a| + |b| - d) && target == RoundFrom(a, b, cmp, d, |a| + |b| - d, v0, nodes0)
    requires target == Reached(nodes)
    ensures MyersOutcome(a, b, cmp) == Found(d, nodes)
  {
  }

  /**
    The body of the inner loop (src/lib.rs:51-67): where diagonal k starts,
    the link from there to the previous round's frontier, the snake, and the
    new frontier entry v[k].  It computes what `VisitDiagonal` specifies.
  */
  method ExtendDiagonal<A, B>(a: seq<A>, b: seq<B>, cmp: (A, B) -> bool, v: array<nat>, nodesMap: NodesMap, d: nat, k: nat,
                              ghost target: RoundOutcome)
    returns (x: nat, y: nat, nodesMap': NodesMap)
    requires RoundState(a, b, cmp, d, k, v[..], nodesMap, target) && k <= |a| + |b| + d
    modifies v
    ensures x >= |a| && y >= |b| ==> target == Reached(nodesMap')
    ensures !(x >= |a| && y >= |b|) ==> RoundState(a, b, cmp, d, k + 2, v[..], nodesMap', target)
  {
    var n := |a|;
    var m := |b|;
    var bound := n + m;
    ghost var vs := v[..];
    var parent: Node;
    if d == 0 {
      x, parent := 0, Root;
    } else if k == bound - d || (k != bound + d && v[k - 1] < v[k + 1]) {
      StartOfDown(bound, vs, d, k);
      var px := v[k + 1];
      x, parent := px, P(px, px + bound - (k + 1));
    } else {
      StartOfRight(bound, vs, d, k);
      var px := v[k - 1];
      x, parent := px + 1, P(px, px + bound - (k - 1));
    }
    assert Start(x, parent) == StartOf(bound, vs, d, k);
    y := x + bound - k;
    nodesMap' := nodesMap[(x, y) := parent];
    ghost var x0, y0, nodes1 := x, y, nodesMap';
    while x < n && y < m && cmp(a[x], b[y])
      invariant x0 <= x && y == x + bound - k
      invariant Snake(a, b, cmp, x, y, nodesMap') == Snake(a, b, cmp, x0, y0, nodes1)
      decreases n - x
    {
      nodesMap' := nodesMap'[(x + 1, y + 1) := P(x, y)];
      x := x + 1;
      y := y + 1;
    }
    v[k] := x;
    VisitUnfold(a, b, cmp, d, k, vs, nodesMap, Start(x0, parent), y0, nodes1);
    RoundStep(a, b, cmp, d, k, vs, nodesMap, target, v[..], nodesMap');
  }

  /**
    One round of the outer loop: the inner loop of src/lib.rs:50-71 over the
    diagonals bound - d, bound - d + 2, ..., bound + d.  `hit` says that the
    round broke out of the search (src/lib.rs:68-69).
  */
  method SearchRound<A, B>(a: seq<A>, b: seq<B>, cmp: (A, B) -> bool, v: array<nat>, nodesMap: NodesMap, d: nat,
                           ghost target: RoundOutcome)
    returns (hit: bool, nodesMap': NodesMap)
    requires RoundState(a, b, cmp, d, |a| + |b| - d, v[..], nodesMap, target)
    modifies v
    ensures hit ==> target == Reached(nodesMap')
    ensures !hit ==> target == Running(v[..], nodesMap')
  {
    var n := |a|;
    var m := |b|;
    var bound := n + m;
    nodesMap' := nodesMap;
    var k := bound - d;
    while k <= bound + d
      invariant RoundState(a, b, cmp, d, k, v[..], nodesMap', target)
      decreases bound + d + 2 - k
    {
      var x, y;
      x, y, nodesMap' := ExtendDiagonal(a, b, cmp, v, nodesMap', d, k, target);
      if x >= n && y >= m {
        return true, nodesMap';
      }
      k := k + 2;
    }
    hit := false;
  }

  /**
    `get_shortest_edit_path_myers` (src/lib.rs:39-78).  The result walks the
    map the specified search builds, from (n, m); so what it yields is
    `MyersPath`, a backward path from (n, m) to (0, 0) whose diagonal steps
    relate their elements.
  */
  method GetShortestEditPathMyers<A, B>(a: seq<A>, b: seq<B>, cmp: (A, B) -> bool) returns (path: EditPath)
    ensures fresh(path) && path.Valid()
    ensures path.nodesMap == MyersOutcome(a, b, cmp).nodes && path.cur == P(|a|, |b|)
    ensures path.Remaining() == MyersPath(a, b, cmp)
  {
    var nodesMap := SearchRounds(a, b, cmp);
    MyersSearchFound(a, b, cmp);
    path := new EditPath(nodesMap, P(|a|, |b|));
  }

  /**
    The outer loop of src/lib.rs:43-72 over the rounds d = 0, 1, ..., n + m,
    from an all-zero frontier and an empty map: it breaks out with the map
    the specified search builds.
  */
  method SearchRounds<A, B>(a: seq<A>, b: seq<B>, cmp: (A, B) -> bool) returns (nodesMap: NodesMap)
    ensures MyersOutcome(a, b, cmp).Found? && nodesMap == MyersOutcome(a, b, cmp).nodes
  {
    var n := |a|;
    var m := |b|;
    var bound := n + m;
    var v := new nat[2 * bound + 1](_ => 0);
    nodesMap := map[];
    assert v[..] == ZeroFrontier(bound);
    var d := 0;
    while d <= bound
      invariant d <= bound
      invariant SearchState(a, b, cmp, d, v[..], nodesMap)
    {
      ghost var v0, nodes0 := v[..], nodesMap;
      assert YDefined(bound, v0, d, bound - d);
      ghost var target := RoundFrom(a, b, cmp, d, bound - d, v0, nodes0);
      var hit;
      hit, nodesMap := SearchRound(a, b, cmp, v, nodesMap, d, target);
      if hit {
        RoundHit(a, b, cmp, d, v0, nodes0, nodesMap, target);
        return;
      }
      RoundEnd(a, b, cmp, d, v0, nodes0, v[..], nodesMap, target);
      d := d + 1;
    }
  }

  /** The walk matches a[i] with b[j] in one of its first t - 1 steps. */
  ghost predicate MatchedWithin(path: seq<Point>, t: int, i: nat, j: nat) {
    exists s, u :: 0 <= s && u == s + 1 && u < t && u < |path| && path[s] == (i + 1, j + 1) && path[u] == (i, j)
  }

  /** `a2b` and `b2a` record exactly the matches of the first t - 1 steps, and are sized by the first point. */
  ghost predicate DescribesPrefix(path: seq<Point>, t: int, a2b: Diff, b2a: Diff) {
    && |path| > 0
    && |a2b| == path[0].0
    && |b2a| == path[0].1
    && (forall i: nat, j: nat | i < |a2b| :: a2b[i] == Some(j) <==> MatchedWithin(path, t, i, j))
    && (forall i: nat, j: nat | j < |b2a| :: b2a[j] == Some(i) <==> MatchedWithin(path, t, i, j))
  }

  /** Step t of the walk adds the match it makes, if it is diagonal, and nothing else. */
  lemma MatchedWithinStep(path: seq<Point>, t: nat, i: nat, j: nat)
    requires 1 <= t < |path|
    ensures MatchedWithin(path, t + 1, i, j) <==>
      MatchedWithin(path, t, i, j) || (path[t - 1] == (i + 1, j + 1) && path[t] == (i, j))
  {
    if MatchedWithin(path, t + 1, i, j) && !(path[t - 1] == (i + 1, j + 1) && path[t] == (i, j)) {
      var s, u :| 0 <= s && u == s + 1 && u < t + 1 && u < |path| && path[s] == (i + 1, j + 1) && path[u] == (i, j);
      assert u != t;
    }
  }

  /** Before a diagonal step into (i, j), no step of the walk matched a[i] or b[j]. */
  lemma NoEarlierMatch(path: seq<Point>, t: nat, i: nat, j: nat, i': nat, j': nat)
    requires IsBackwardPath(path) && 1 <= t < |path| && path[t - 1] == (i + 1, j + 1)
    requires MatchedWithin(path, t, i', j')
    ensures i' != i && j' != j
  {
    var s, u :| 0 <= s && u == s + 1 && u < t && u < |path| && path[s] == (i' + 1, j' + 1) && path[u] == (i', j');
    PathDominates(path, u, t - 1);
  }

  /** A step that is not diagonal records nothing. */
  lemma PrefixStepAside(path: seq<Point>, t: nat, a2b: Diff, b2a: Diff)
    requires IsBackwardPath(path) && 1 <= t < |path| && DescribesPrefix(path, t, a2b, b2a)
    requires !IsDiagonal(path[t - 1], path[t])
    ensures DescribesPrefix(path, t + 1, a2b, b2a)
  {
    forall i: nat, j: nat ensures MatchedWithin(path, t + 1, i, j) <==> MatchedWithin(path, t, i, j) {
      MatchedWithinStep(path, t, i, j);
    }
  }

  /** A diagonal step into (i, j) records a match that no earlier step recorded for a[i] or for b[j]. */
  lemma PrefixStepDiagonal(path: seq<Point>, t: nat, a2b: Diff, b2a: Diff, i: nat, j: nat)
    requires IsBackwardPath(path) && 1 <= t < |path| && DescribesPrefix(path, t, a2b, b2a)
    requires path[t - 1] == (i + 1, j + 1) && path[t] == (i, j)
    ensures i < |a2b| && j < |b2a|
    ensures DescribesPrefix(path, t + 1, a2b[i := Some(j)], b2a[j := Some(i)])
  {
    PathDominates(path, 0, t - 1);
    var a2b', b2a' := a2b[i := Some(j)], b2a[j := Some(i)];
    forall i': nat, j': nat | i' < |a2b'| ensures a2b'[i'] == Some(j') <==> MatchedWithin(path, t + 1, i', j') {
      MatchedWithinStep(path, t, i', j');
      if MatchedWithin(path, t, i', j') {
        NoEarlierMatch(path, t, i, j, i', j');
      }
    }
    forall i': nat, j': nat | j' < |b2a'| ensures b2a'[j'] == Some(i') <==> MatchedWithin(path, t + 1, i', j') {
      MatchedWithinStep(path, t, i', j');
      if MatchedWithin(path, t, i', j') {
        NoEarlierMatch(path, t, i, j, i', j');
      }
    }
  }

  /** At the end of the walk, the prefix description is the description of the whole walk. */
  lemma PrefixComplete(path: seq<Point>, a2b: Diff, b2a: Diff)
    requires IsBackwardPath(path) && DescribesPrefix(path, |path|, a2b, b2a)
    ensures DescribesPath(path, a2b, b2a)
  {
    forall i: nat, j: nat ensures MatchedWithin(path, |path|, i, j) <==> Matched(path, i, j) {
      if Matched(path, i, j) {
        var s, u :| 0 <= s && u == s + 1 && u < |path| && path[s] == (i + 1, j + 1) && path[u] == (i, j);
        assert MatchedWithin(path, |path|, i, j);
      }
    }
  }

  /**
    `path_to_diff` (src/lib.rs:82-95): size both arrays by the first point,
    then record a match on every step that lowers i + j by 2.
  */
  method PathToDiff(path: seq<Point>) returns (a2b: Diff, b2a: Diff)
    requires IsBackwardPath(path)
    ensures DescribesPath(path, a2b, b2a)
  {
    var i, j := path[0].0, path[0].1;
    var ra := new Option<nat>[i](_ => None);
    var rb := new Option<nat>[j](_ => None);
    assert DescribesPrefix(path, 1, ra[..], rb[..]);
    var t := 1;
    while t < |path|
      invariant 1 <= t <= |path| && (i, j) == path[t - 1]
      invariant DescribesPrefix(path, t, ra[..], rb[..])
    {
      var (pi, pj) := path[t];
      assert IsBackStep(path[t - 1], path[t]);
      assert pi <= i && pj <= j;
      if (i - pi) + (j - pj) == 2 {
        PrefixStepDiagonal(path, t, ra[..], rb[..], pi, pj);
        ra[pi] := Some(pj);
        rb[pj] := Some(pi);
      } else {
        PrefixStepAside(path, t, ra[..], rb[..]);
      }
      i, j := pi, pj;
      t := t + 1;
    }
    a2b, b2a := ra[..], rb[..];
    PrefixComplete(path, a2b, b2a);
  }

  /**
    `diff_by` (src/lib.rs:97-102): the arrays describe the walk the Myers
    search yields, and so form an alignment: sized |a| and |b|, mutually
    inverse, strictly increasing, every match related by `cmp`.  The walk is
    a shortest edit path, leaving Dist(n, m) elements unmatched, so some
    element is matched whenever some pair is related.
  */
  method DiffBy<A, B>(a: seq<A>, b: seq<B>, cmp: (A, B) -> bool) returns (a2b: Diff, b2a: Diff)
    ensures DescribesPath(MyersPath(a, b, cmp), a2b, b2a)
    ensures IsAlignment(a, b, cmp, a2b, b2a)
    ensures (forall i, j | 0 <= i < |a| && 0 <= j < |b| :: !cmp(a[i], b[j])) ==>
      (forall i | 0 <= i < |a2b| :: a2b[i] == None) && (forall j | 0 <= j < |b2a| :: b2a[j] == None)
    ensures Cost(MyersPath(a, b, cmp)) == Dist(a, b, cmp, |a|, |b|)
    ensures (exists i, j :: 0 <= i < |a| && 0 <= j < |b| && cmp(a[i], b[j])) ==>
      (exists i :: 0 <= i < |a2b| && a2b[i].Some?) && (exists j :: 0 <= j < |b2a| && b2a[j].Some?)
  {
    var path := GetShortestEditPathMyers(a, b, cmp);
    var points := path.Collect();
    a2b, b2a := PathToDiff(points);
    DescribedIsAlignment(points, a, b, cmp, a2b, b2a);
    MyersShortest(a, b, cmp);
    if exists i, j :: 0 <= i < |a| && 0 <= j < |b| && cmp(a[i], b[j]) {
      MyersMatchesSomething(a, b, cmp, a2b, b2a);
    }
  }

  /** `PartialEq::eq`, the predicate `diff` passes to `diff_by`, for a type whose equality is Dafny's. */
  function Equal<T(==)>(x: T, y: T): (r: bool)
    ensures r <==> x == y
  {
    x == y
  }

  /** `diff` (src/lib.rs:104-106): `diff_by` with equality; a sequence diffed against itself is matched with itself. */
  method DiffEq<T(==)>(a: seq<T>, b: seq<T>) returns (a2b: Diff, b2a: Diff)
    ensures DescribesPath(MyersPath(a, b, Equal), a2b, b2a)
    ensures IsAlignment(a, b, Equal, a2b, b2a)
    ensures forall i | 0 <= i < |a2b| && a2b[i].Some? :: a[i] == b[a2b[i].value]
    ensures a == b ==> a2b == b2a == Identity(|a|)
  {
    a2b, b2a := DiffBy(a, b, Equal);
    if a == b {
      SelfDiffIdentity(a, Equal, a2b, b2a);
    }
  }
}

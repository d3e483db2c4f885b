/**
  The insert/delete edit distance between prefixes of two sequences under a
  predicate `cmp`: the fewest elements a walk from (i, j) back to (0, 0) can
  leave unmatched, when its diagonal steps must join related elements.  The
  grid of src/tests.rs:46-67 tabulates it, and both the grid's walk and the
  Myers search attain it.
*/
module EditDistance {
  import opened EditGraph

  /**
    The distance of cell (i, j), by the recurrence of the grid fill
    (src/tests.rs:50-64): the borders count the elements consumed, a related pair copies its upper-left
    neighbour, any other cell is one more than the smaller of its left and
    upper neighbours.  The distance is at most i + j and at least |i - j|.
  */
  ghost function Dist<A, B>(a: seq<A>, b: seq<B>, cmp: (A, B) -> bool, i: nat, j: nat): (r: nat)
    requires i <= |a| && j <= |b|
    ensures r <= i + j
    ensures i - j <= r && j - i <= r
    decreases i + j
  {
    if i == 0 then j
    else if j == 0 then i
    else if cmp(a[i - 1], b[j - 1]) then Dist(a, b, cmp, i - 1, j - 1)
    else
      var u := Dist(a, b, cmp, i, j - 1);
      var l := Dist(a, b, cmp, i - 1, j);
      if u > l then l + 1 else u + 1
  }

  /**
    The number of pairs a shortest walk from (i, j) matches: each unmatched
    element is one of the i + j that no diagonal step consumes, so the
    distance has the parity of i + j.
  */
  ghost function MatchCount<A, B>(a: seq<A>, b: seq<B>, cmp: (A, B) -> bool, i: nat, j: nat): (h: nat)
    requires i <= |a| && j <= |b|
    ensures 2 * h + Dist(a, b, cmp, i, j) == i + j
    decreases i + j
  {
    if i == 0 || j == 0 then 0
    else if cmp(a[i - 1], b[j - 1]) then MatchCount(a, b, cmp, i - 1, j - 1) + 1
    else if Dist(a, b, cmp, i, j - 1) > Dist(a, b, cmp, i - 1, j) then MatchCount(a, b, cmp, i - 1, j)
    else MatchCount(a, b, cmp, i, j - 1)
  }

  /**
    Neighbouring cells differ by at most one.  Together with the parity of
    `Dist` they differ by exactly one along a row or a column.
  */
  lemma {:induction false} DistNeighbours<A, B>(a: seq<A>, b: seq<B>, cmp: (A, B) -> bool, i: nat, j: nat)
    requires i <= |a| && j <= |b|
    ensures j > 0 ==> Dist(a, b, cmp, i, j) <= Dist(a, b, cmp, i, j - 1) + 1 && Dist(a, b, cmp, i, j - 1) <= Dist(a, b, cmp, i, j) + 1
    ensures i > 0 ==> Dist(a, b, cmp, i, j) <= Dist(a, b, cmp, i - 1, j) + 1 && Dist(a, b, cmp, i - 1, j) <= Dist(a, b, cmp, i, j) + 1
    decreases i + j
  {
    if i > 0 {
      DistNeighbours(a, b, cmp, i - 1, j);
    }
    if j > 0 {
      DistNeighbours(a, b, cmp, i, j - 1);
    }
  }

  /** Along a row or a column neighbouring distances differ by exactly one. */
  lemma DistSteps<A, B>(a: seq<A>, b: seq<B>, cmp: (A, B) -> bool, i: nat, j: nat)
    requires 0 < i <= |a| && 0 < j <= |b|
    ensures Dist(a, b, cmp, i, j) == Dist(a, b, cmp, i, j - 1) + 1 || Dist(a, b, cmp, i, j - 1) == Dist(a, b, cmp, i, j) + 1
    ensures Dist(a, b, cmp, i, j) == Dist(a, b, cmp, i - 1, j) + 1 || Dist(a, b, cmp, i - 1, j) == Dist(a, b, cmp, i, j) + 1
  {
    DistNeighbours(a, b, cmp, i, j);
    var h, hu, hl := MatchCount(a, b, cmp, i, j), MatchCount(a, b, cmp, i, j - 1), MatchCount(a, b, cmp, i - 1, j);
  }

  /**
    No walk whose diagonal steps join related elements does better: every such
    walk from (i, j) back to (0, 0) leaves at least Dist(i, j) elements
    unmatched, so the oracle's walk is a shortest edit path.
  */
  lemma {:induction false} DistIsShortest<A, B>(a: seq<A>, b: seq<B>, cmp: (A, B) -> bool, path: seq<Point>)
    requires IsBackwardPath(path) && DiagonalsSatisfy(path, a, b, cmp)
    requires path[0].0 <= |a| && path[0].1 <= |b| && path[|path| - 1] == (0, 0)
    ensures Cost(path) >= Dist(a, b, cmp, path[0].0, path[0].1)
    decreases |path|
  {
    if |path| > 1 {
      var rest := path[1..];
      assert IsBackStep(path[0], path[1]);
      RestIsPath(path, a, b, cmp);
      DistIsShortest(a, b, cmp, rest);
      DistNeighbours(a, b, cmp, path[0].0, path[0].1);
      assert Cost(path) == (if IsDiagonal(path[0], path[1]) then 0 else 1) + Cost(rest);
    }
  }

  /** Dropping the first point of a walk leaves a walk whose diagonal steps join related elements. */
  lemma RestIsPath<A, B>(path: seq<Point>, a: seq<A>, b: seq<B>, cmp: (A, B) -> bool)
    requires IsBackwardPath(path) && DiagonalsSatisfy(path, a, b, cmp) && |path| > 1
    ensures IsBackwardPath(path[1..]) && DiagonalsSatisfy(path[1..], a, b, cmp)
  {
    var rest := path[1..];
    forall s, t | 0 <= s && t == s + 1 && t < |rest| ensures IsBackStep(rest[s], rest[t]) {
      assert rest[s] == path[s + 1] && rest[t] == path[t + 1];
    }
    forall s, t | 0 <= s && t == s + 1 && t < |rest| && IsDiagonal(rest[s], rest[t])
      ensures rest[t].0 < |a| && rest[t].1 < |b| && cmp(a[rest[t].0], b[rest[t].1])
    {
      assert rest[s] == path[s + 1] && rest[t] == path[t + 1];
    }
  }

  /** A related pair below and left of (i, j) saves two unmatched elements. */
  lemma {:induction false} DistWithMatch<A, B>(a: seq<A>, b: seq<B>, cmp: (A, B) -> bool, i: nat, j: nat, i0: nat, j0: nat)
    requires i <= |a| && j <= |b| && i0 < i && j0 < j && cmp(a[i0], b[j0])
    ensures Dist(a, b, cmp, i, j) + 2 <= i + j
    decreases i + j
  {
    if !cmp(a[i - 1], b[j - 1]) {
      if i0 < i - 1 {
        DistWithMatch(a, b, cmp, i - 1, j, i0, j0);
      } else {
        DistWithMatch(a, b, cmp, i, j - 1, i0, j0);
      }
    }
  }
}

/**
  The edit graph of two sequences `a` (length n) and `b` (length m): grid points
  (i, j) with i elements of `a` and j elements of `b` consumed, horizontal and
  vertical steps (an element of one side left unmatched) and diagonal steps (a
  match of a[i] with b[j]).  Both path producers of the system (the Myers search
  and the test oracle's grid) yield a walk from (n, m) back to (0, 0); this
  module states what such a walk is and what correspondence arrays it describes.
*/
module EditGraph {
  import opened Wrappers

  /** A grid point (i, j). */
  type Point = (nat, nat)

  /** A correspondence array: `Diff` of src/lib.rs, one optional index per element. */
  type Diff = seq<Option<nat>>

  /** `q` lies one step before `p`: down, right, or diagonally. */
  predicate IsBackStep(p: Point, q: Point) {
    || (q.0 == p.0 && q.1 + 1 == p.1)
    || (q.0 + 1 == p.0 && q.1 == p.1)
    || (q.0 + 1 == p.0 && q.1 + 1 == p.1)
  }

  predicate IsDiagonal(p: Point, q: Point) {
    q.0 + 1 == p.0 && q.1 + 1 == p.1
  }

  /** A non-empty walk in which every point is one step before its predecessor. */
  ghost predicate IsBackwardPath(path: seq<Point>) {
    |path| > 0 && forall s, t | 0 <= s && t == s + 1 && t < |path| :: IsBackStep(path[s], path[t])
  }

  /** The walk steps diagonally from (i + 1, j + 1) to (i, j): a[i] is matched with b[j]. */
  ghost predicate Matched(path: seq<Point>, i: nat, j: nat) {
    exists s, t :: 0 <= s && t == s + 1 && t < |path| && path[s] == (i + 1, j + 1) && path[t] == (i, j)
  }

  /** Every diagonal step of the walk lies inside the grid and joins two related elements. */
  ghost predicate DiagonalsSatisfy<A, B>(path: seq<Point>, a: seq<A>, b: seq<B>, cmp: (A, B) -> bool) {
    forall s, t | 0 <= s && t == s + 1 && t < |path| && IsDiagonal(path[s], path[t]) ::
      path[t].0 < |a| && path[t].1 < |b| && cmp(a[path[t].0], b[path[t].1])
  }

  /**
    `a2b` and `b2a` are sized by the first point of the walk and record exactly
    its diagonal steps: a2b[i] == Some(j) and b2a[j] == Some(i) iff the walk
    matches a[i] with b[j]; every other entry is None.
  */
  ghost predicate DescribesPath(path: seq<Point>, a2b: Diff, b2a: Diff) {
    && IsBackwardPath(path)
    && |a2b| == path[0].0
    && |b2a| == path[0].1
    && (forall i: nat, j: nat | i < |a2b| :: a2b[i] == Some(j) <==> Matched(path, i, j))
    && (forall i: nat, j: nat | j < |b2a| :: b2a[j] == Some(i) <==> Matched(path, i, j))
  }

  /** a2b[i] == Some(j) exactly when b2a[j] == Some(i). */
  ghost predicate MutuallyInverse(a2b: Diff, b2a: Diff) {
    && (forall i | 0 <= i < |a2b| && a2b[i].Some? :: a2b[i].value < |b2a| && b2a[a2b[i].value] == Some(i))
    && (forall j | 0 <= j < |b2a| && b2a[j].Some? :: b2a[j].value < |a2b| && a2b[b2a[j].value] == Some(j))
  }

  /** The recorded counterparts increase strictly with the index. */
  ghost predicate StrictlyIncreasing(d: Diff) {
    forall i1, i2 | 0 <= i1 < i2 < |d| && d[i1].Some? && d[i2].Some? :: d[i1].value < d[i2].value
  }

  /** Every recorded match relates its two elements. */
  ghost predicate MatchesSatisfy<A, B>(a: seq<A>, b: seq<B>, cmp: (A, B) -> bool, a2b: Diff) {
    forall i | 0 <= i < |a2b| && a2b[i].Some? :: i < |a| && a2b[i].value < |b| && cmp(a[i], b[a2b[i].value])
  }

  /** The output guarantees of the aligner: shape, mutual consistency, order, relatedness. */
  ghost predicate IsAlignment<A, B>(a: seq<A>, b: seq<B>, cmp: (A, B) -> bool, a2b: Diff, b2a: Diff) {
    && |a2b| == |a|
    && |b2a| == |b|
    && MutuallyInverse(a2b, b2a)
    && StrictlyIncreasing(a2b)
    && StrictlyIncreasing(b2a)
    && MatchesSatisfy(a, b, cmp, a2b)
  }

  /** The number of non-diagonal steps of a walk: the elements it leaves unmatched. */
  ghost function Cost(path: seq<Point>): (c: nat)
    ensures c < |path| || |path| == 0
    decreases |path|
  {
    if |path| <= 1 then 0
    else (if IsDiagonal(path[0], path[1]) then 0 else 1) + Cost(path[1..])
  }

  /** A backward walk without a diagonal step costs one per step: the full drop of i + j. */
  lemma {:induction false} CostWithoutDiagonals(path: seq<Point>)
    requires IsBackwardPath(path)
    requires forall s, t | 0 <= s && t == s + 1 && t < |path| :: !IsDiagonal(path[s], path[t])
    ensures path[|path| - 1].0 + path[|path| - 1].1 + Cost(path) == path[0].0 + path[0].1
    decreases |path|
  {
    if |path| > 1 {
      var rest := path[1..];
      assert IsBackStep(path[0], path[1]) && !IsDiagonal(path[0], path[1]);
      assert IsBackwardPath(rest) by {
        forall s, t | 0 <= s && t == s + 1 && t < |rest| ensures IsBackStep(rest[s], rest[t]) {
          assert rest[s] == path[s + 1] && rest[t] == path[t + 1];
        }
      }
      forall s, t | 0 <= s && t == s + 1 && t < |rest| ensures !IsDiagonal(rest[s], rest[t]) {
        assert rest[s] == path[s + 1] && rest[t] == path[t + 1];
      }
      CostWithoutDiagonals(rest);
    }
  }

  /** A walk to (0, 0) that leaves fewer elements unmatched than it spans matches some pair. */
  lemma CheapPathMatches(path: seq<Point>, a2b: Diff, b2a: Diff)
    requires DescribesPath(path, a2b, b2a) && path[|path| - 1] == (0, 0)
    requires Cost(path) < path[0].0 + path[0].1
    ensures exists i :: 0 <= i < |a2b| && a2b[i].Some?
    ensures exists j :: 0 <= j < |b2a| && b2a[j].Some?
  {
    if forall s, t | 0 <= s && t == s + 1 && t < |path| :: !IsDiagonal(path[s], path[t]) {
      CostWithoutDiagonals(path);
      assert false;
    }
    var s, t :| 0 <= s && t == s + 1 && t < |path| && IsDiagonal(path[s], path[t]);
    var i, j := path[t].0, path[t].1;
    assert Matched(path, i, j);
    MatchedInside(path, i, j);
    assert a2b[i] == Some(j) && b2a[j] == Some(i);
  }

  /** Later points of a backward walk are below and left of earlier ones, by at least one step each. */
  lemma {:induction false} PathDominates(path: seq<Point>, s: nat, t: nat)
    requires IsBackwardPath(path) && s <= t < |path|
    ensures path[t].0 <= path[s].0 && path[t].1 <= path[s].1
    ensures path[t].0 + path[t].1 + (t - s) <= path[s].0 + path[s].1
    decreases t - s
  {
    if s < t {
      PathDominates(path, s, t - 1);
      assert IsBackStep(path[t - 1], path[t]);
    }
  }

  /** Every match of a backward walk lies inside the rectangle its first point spans. */
  lemma MatchedInside(path: seq<Point>, i: nat, j: nat)
    requires IsBackwardPath(path) && Matched(path, i, j)
    ensures i < path[0].0 && j < path[0].1
  {
    var t :| 0 <= t < |path| - 1 && path[t] == (i + 1, j + 1) && path[t + 1] == (i, j);
    PathDominates(path, 0, t);
  }

  /** Two matches of one backward walk are ordered the same way in both coordinates. */
  lemma MatchedOrdered(path: seq<Point>, i1: nat, j1: nat, i2: nat, j2: nat)
    requires IsBackwardPath(path) && Matched(path, i1, j1) && Matched(path, i2, j2)
    ensures i1 < i2 <==> j1 < j2
    ensures i1 == i2 <==> j1 == j2
  {
    var t1 :| 0 <= t1 < |path| - 1 && path[t1] == (i1 + 1, j1 + 1) && path[t1 + 1] == (i1, j1);
    var t2 :| 0 <= t2 < |path| - 1 && path[t2] == (i2 + 1, j2 + 1) && path[t2 + 1] == (i2, j2);
    if t1 < t2 {
      PathDominates(path, t1 + 1, t2);
    } else if t2 < t1 {
      PathDominates(path, t2 + 1, t1);
    }
  }

  /** Arrays that describe a walk whose diagonal steps relate their elements form an alignment. */
  lemma DescribedIsAlignment<A, B>(path: seq<Point>, a: seq<A>, b: seq<B>, cmp: (A, B) -> bool, a2b: Diff, b2a: Diff)
    requires DescribesPath(path, a2b, b2a) && DiagonalsSatisfy(path, a, b, cmp)
    requires path[0] == (|a|, |b|)
    ensures IsAlignment(a, b, cmp, a2b, b2a)
  {
    forall i | 0 <= i < |a2b| && a2b[i].Some?
      ensures a2b[i].value < |b2a| && b2a[a2b[i].value] == Some(i)
      ensures cmp(a[i], b[a2b[i].value])
    {
      var j := a2b[i].value;
      assert Matched(path, i, j);
      MatchedInside(path, i, j);
      var t :| 0 <= t < |path| - 1 && path[t] == (i + 1, j + 1) && path[t + 1] == (i, j);
      assert IsDiagonal(path[t], path[t + 1]);
    }
    forall j | 0 <= j < |b2a| && b2a[j].Some?
      ensures b2a[j].value < |a2b| && a2b[b2a[j].value] == Some(j)
    {
      var i := b2a[j].value;
      assert Matched(path, i, j);
      MatchedInside(path, i, j);
    }
    forall i1, i2 | 0 <= i1 < i2 < |a2b| && a2b[i1].Some? && a2b[i2].Some?
      ensures a2b[i1].value < a2b[i2].value
    {
      MatchedOrdered(path, i1, a2b[i1].value, i2, a2b[i2].value);
    }
    forall j1, j2 | 0 <= j1 < j2 < |b2a| && b2a[j1].Some? && b2a[j2].Some?
      ensures b2a[j1].value < b2a[j2].value
    {
      MatchedOrdered(path, b2a[j1].value, j1, b2a[j2].value, j2);
    }
  }

  /** A walk determines the arrays that describe it. */
  lemma DescribesPathUnique(path: seq<Point>, a2b: Diff, b2a: Diff, a2b': Diff, b2a': Diff)
    requires DescribesPath(path, a2b, b2a) && DescribesPath(path, a2b', b2a')
    ensures a2b == a2b' && b2a == b2a'
  {
    forall i | 0 <= i < |a2b| ensures a2b[i] == a2b'[i] {
      if a2b[i].Some? {
        assert Matched(path, i, a2b[i].value);
      } else if a2b'[i].Some? {
        assert Matched(path, i, a2b'[i].value);
      }
    }
    forall j | 0 <= j < |b2a| ensures b2a[j] == b2a'[j] {
      if b2a[j].Some? {
        assert Matched(path, b2a[j].value, j);
      } else if b2a'[j].Some? {
        assert Matched(path, b2a'[j].value, j);
      }
    }
  }
}

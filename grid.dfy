/**
  The test oracle of src/tests.rs: a full (n + 1) x (m + 1) insert/delete
  edit-distance grid (`get_shortest_edit_path_grid`) and the iterator that
  backtracks through it from (n, m) to (0, 0) (`EditPathFromGrid`).  The
  element equality the oracle uses (`PartialEq`) is the predicate `cmp`.
*/
module GridOracle {
  import opened Wrappers
  import opened EditGraph
  import opened SeqDiff
  import opened EditDistance

  /** `std::usize::MAX` on a 64-bit target: the placeholder every cell starts with. */
  const Unset: nat := 0xFFFF_FFFF_FFFF_FFFF

  /** The grid holds the distance of every cell. */
  ghost predicate HoldsDist<A, B>(g: array2<nat>, a: seq<A>, b: seq<B>, cmp: (A, B) -> bool)
    reads g
  {
    && g.Length0 == |a| + 1 && g.Length1 == |b| + 1
    && forall i, j | 0 <= i <= |a| && 0 <= j <= |b| :: g[i, j] == Dist(a, b, cmp, i, j)
  }

  /** Row 0, column 0, and rows below `i` plus row `i` up to column `j`, hold their distances. */
  ghost predicate FilledTo<A, B>(g: array2<nat>, a: seq<A>, b: seq<B>, cmp: (A, B) -> bool, i: nat, j: nat)
    reads g
  {
    && g.Length0 == |a| + 1 && g.Length1 == |b| + 1
    && forall p, q | 0 <= p <= |a| && 0 <= q <= |b| && (p == 0 || q == 0 || p < i || (p == i && q <= j)) ::
         g[p, q] == Dist(a, b, cmp, p, q)
  }

  /**
    `get_shortest_edit_path_grid`'s fill (src/tests.rs:46-66): every cell
    ends with its distance, the borders and the recurrence hold, every cell
    the recurrence reads was written before, and no placeholder survives on
    inputs whose lengths fit a `usize`.
  */
  method FillGrid<A, B>(a: seq<A>, b: seq<B>, cmp: (A, B) -> bool) returns (g: array2<nat>)
    ensures fresh(g) && HoldsDist(g, a, b, cmp)
    ensures forall j | 0 <= j <= |b| :: g[0, j] == j
    ensures forall i | 0 <= i <= |a| :: g[i, 0] == i
    ensures forall i, j | 0 <= i < |a| && 0 <= j < |b| ::
      g[i + 1, j + 1] == if cmp(a[i], b[j]) then g[i, j] else 1 + Min(g[i + 1, j], g[i, j + 1])
    ensures |a| + |b| < Unset ==> forall i, j | 0 <= i <= |a| && 0 <= j <= |b| :: g[i, j] != Unset
  {
    var n, m := |a|, |b|;
    g := new nat[n + 1, m + 1]((_, _) => Unset);
    for j := 0 to m + 1
      invariant forall q | 0 <= q < j :: g[0, q] == q
    {
      g[0, j] := j;
    }
    for i := 0 to n + 1
      invariant forall q | 0 <= q <= m :: g[0, q] == q
      invariant forall p | 0 <= p < i :: g[p, 0] == p
    {
      g[i, 0] := i;
    }
    assert FilledTo(g, a, b, cmp, 0, m);
    for i := 0 to n
      invariant FilledTo(g, a, b, cmp, i, m)
    {
      FillRow(a, b, cmp, g, i);
    }
    assert FilledTo(g, a, b, cmp, n, m);
    GridFacts(g, a, b, cmp);
  }

  /** A grid of distances has the borders and the recurrence of the fill, and no placeholder on inputs that fit a `usize`. */
  lemma GridFacts<A, B>(g: array2<nat>, a: seq<A>, b: seq<B>, cmp: (A, B) -> bool)
    requires HoldsDist(g, a, b, cmp)
    ensures forall j | 0 <= j <= |b| :: g[0, j] == j
    ensures forall i | 0 <= i <= |a| :: g[i, 0] == i
    ensures forall i, j | 0 <= i < |a| && 0 <= j < |b| ::
      g[i + 1, j + 1] == if cmp(a[i], b[j]) then g[i, j] else 1 + Min(g[i + 1, j], g[i, j + 1])
    ensures |a| + |b| < Unset ==> forall i, j | 0 <= i <= |a| && 0 <= j <= |b| :: g[i, j] != Unset
  {
    forall i, j | 0 <= i < |a| && 0 <= j < |b|
      ensures g[i + 1, j + 1] == if cmp(a[i], b[j]) then g[i, j] else 1 + Min(g[i + 1, j], g[i, j + 1])
    {
      assert g[i + 1, j + 1] == Dist(a, b, cmp, i + 1, j + 1);
    }
  }

  /** One pass of the inner loop (src/tests.rs:55-65): fill row i + 1 from left to right. */
  method FillRow<A, B>(a: seq<A>, b: seq<B>, cmp: (A, B) -> bool, g: array2<nat>, i: nat)
    requires i < |a| && FilledTo(g, a, b, cmp, i, |b|)
    modifies g
    ensures FilledTo(g, a, b, cmp, i + 1, |b|)
    ensures forall p, q | 0 <= p < g.Length0 && 0 <= q < g.Length1 && (p != i + 1 || q == 0) :: g[p, q] == old(g[p, q])
  {
    var n, m := |a|, |b|;
    for j := 0 to m
      invariant FilledTo(g, a, b, cmp, i + 1, j)
      invariant forall p, q | 0 <= p < g.Length0 && 0 <= q < g.Length1 && (p != i + 1 || q == 0) :: g[p, q] == old(g[p, q])
    {
      assert g[i, j] == Dist(a, b, cmp, i, j) && g[i + 1, j] == Dist(a, b, cmp, i + 1, j);
      assert g[i, j + 1] == Dist(a, b, cmp, i, j + 1);
      label before:
      if cmp(a[i], b[j]) {
        g[i + 1, j + 1] := g[i, j];
      } else {
        var u := (i + 1, j);
        var l := (i, j + 1);
        if g[u.0, u.1] > g[l.0, l.1] {
          u := l;
        }
        g[i + 1, j + 1] := g[u.0, u.1] + 1;
      }
      assert g[i + 1, j + 1] == Dist(a, b, cmp, i + 1, j + 1);
      assert FilledTo(g, a, b, cmp, i + 1, j + 1) by {
        forall p, q | 0 <= p <= n && 0 <= q <= m && (p == 0 || q == 0 || p < i + 1 || (p == i + 1 && q <= j + 1))
          ensures g[p, q] == Dist(a, b, cmp, p, q)
        {
          if (p, q) != (i + 1, j + 1) {
            assert g[p, q] == old@before(g[p, q]);
          } else {
            assert g[p, q] == g[i + 1, j + 1];
          }
        }
      }
    }
  }

  function Min(x: nat, y: nat): (r: nat)
    ensures r <= x && r <= y && (r == x || r == y)
  {
    if x <= y then x else y
  }

  /**
    The point the backtracking iterator moves to from (i, j) (src/tests.rs:23-38):
    of (i, j - 1) and (i - 1, j) the first with the smaller distance, unless the
    diagonal keeps the distance and the chosen side is further; along an edge
    the edge itself.
  */
  ghost function GridStep<A, B>(a: seq<A>, b: seq<B>, cmp: (A, B) -> bool, i: nat, j: nat): (q: Point)
    requires i <= |a| && j <= |b| && (i, j) != (0, 0)
    ensures IsBackStep((i, j), q)
  {
    if i > 0 && j > 0 then
      var ncur := if Dist(a, b, cmp, i - 1, j) < Dist(a, b, cmp, i, j - 1) then (i - 1, j) else (i, j - 1);
      var ul := Dist(a, b, cmp, i - 1, j - 1);
      if Dist(a, b, cmp, ncur.0, ncur.1) > ul && Dist(a, b, cmp, i, j) == ul then (i - 1, j - 1) else ncur
    else if i > 0 then (i - 1, j)
    else (i, j - 1)
  }

  /** The points the iterator yields from (i, j) on, ending with (0, 0). */
  ghost function GridWalk<A, B>(a: seq<A>, b: seq<B>, cmp: (A, B) -> bool, i: nat, j: nat): (path: seq<Point>)
    requires i <= |a| && j <= |b|
    ensures IsBackwardPath(path) && path[0] == (i, j) && path[|path| - 1] == (0, 0)
    decreases i + j
  {
    if (i, j) == (0, 0) then [(0, 0)]
    else
      var q := GridStep(a, b, cmp, i, j);
      var rest := GridWalk(a, b, cmp, q.0, q.1);
      assert forall s, t | 0 <= s && t == s + 1 && t < |[(i, j)] + rest| ::
        IsBackStep(([(i, j)] + rest)[s], ([(i, j)] + rest)[t]) by {
        forall s, t | 0 <= s && t == s + 1 && t < |[(i, j)] + rest|
          ensures IsBackStep(([(i, j)] + rest)[s], ([(i, j)] + rest)[t])
        {
          if s > 0 {
            assert IsBackStep(rest[s - 1], rest[t - 1]);
          }
        }
      }
      [(i, j)] + rest
  }

  /** The walk the oracle yields from (n, m). */
  ghost function GridPath<A, B>(a: seq<A>, b: seq<B>, cmp: (A, B) -> bool): (path: seq<Point>)
    ensures IsBackwardPath(path) && path[0] == (|a|, |b|) && path[|path| - 1] == (0, 0)
  {
    GridWalk(a, b, cmp, |a|, |b|)
  }

  /** The backtracking takes a diagonal only across a related pair. */
  lemma GridStepDiagonal<A, B>(a: seq<A>, b: seq<B>, cmp: (A, B) -> bool, i: nat, j: nat)
    requires i <= |a| && j <= |b| && (i, j) != (0, 0)
    requires IsDiagonal((i, j), GridStep(a, b, cmp, i, j))
    ensures i > 0 && j > 0 && cmp(a[i - 1], b[j - 1])
  {
  }

  /** Every diagonal step of the oracle's walk joins two related elements. */
  lemma {:induction false} GridWalkDiagonals<A, B>(a: seq<A>, b: seq<B>, cmp: (A, B) -> bool, i: nat, j: nat)
    requires i <= |a| && j <= |b|
    ensures DiagonalsSatisfy(GridWalk(a, b, cmp, i, j), a, b, cmp)
    decreases i + j
  {
    if (i, j) != (0, 0) {
      var q := GridStep(a, b, cmp, i, j);
      var rest := GridWalk(a, b, cmp, q.0, q.1);
      var path := GridWalk(a, b, cmp, i, j);
      assert path == [(i, j)] + rest;
      GridWalkDiagonals(a, b, cmp, q.0, q.1);
      forall s, t | 0 <= s && t == s + 1 && t < |path| && IsDiagonal(path[s], path[t])
        ensures path[t].0 < |a| && path[t].1 < |b| && cmp(a[path[t].0], b[path[t].1])
      {
        if s == 0 {
          GridStepDiagonal(a, b, cmp, i, j);
        } else {
          assert path[s] == rest[s - 1] && path[t] == rest[t - 1];
        }
      }
    }
  }

  /** Each move of the oracle keeps the distance on a diagonal and lowers it by one otherwise. */
  lemma GridStepCost<A, B>(a: seq<A>, b: seq<B>, cmp: (A, B) -> bool, i: nat, j: nat)
    requires i <= |a| && j <= |b| && (i, j) != (0, 0)
    ensures IsDiagonal((i, j), GridStep(a, b, cmp, i, j)) ==>
              Dist(a, b, cmp, i - 1, j - 1) == Dist(a, b, cmp, i, j)
    ensures !IsDiagonal((i, j), GridStep(a, b, cmp, i, j)) ==>
              Dist(a, b, cmp, GridStep(a, b, cmp, i, j).0, GridStep(a, b, cmp, i, j).1) + 1 == Dist(a, b, cmp, i, j)
  {
    if i > 0 && j > 0 {
      var d, left, up, ul := Dist(a, b, cmp, i, j), Dist(a, b, cmp, i, j - 1), Dist(a, b, cmp, i - 1, j), Dist(a, b, cmp, i - 1, j - 1);
      DistSteps(a, b, cmp, i, j);
      var side := if up < left then up else left;
      assert Dist(a, b, cmp, GridStep(a, b, cmp, i, j).0, GridStep(a, b, cmp, i, j).1) ==
        if side > ul && d == ul then ul else side;
      if !cmp(a[i - 1], b[j - 1]) {
        assert d == side + 1;
      } else {
        assert d == ul;
      }
    }
  }

  /** The cost of the oracle's walk from (i, j) is that of its first move plus that of the walk after it. */
  lemma GridWalkUnfold<A, B>(a: seq<A>, b: seq<B>, cmp: (A, B) -> bool, i: nat, j: nat)
    requires i <= |a| && j <= |b| && (i, j) != (0, 0)
    ensures var q := GridStep(a, b, cmp, i, j);
            Cost(GridWalk(a, b, cmp, i, j)) == (if IsDiagonal((i, j), q) then 0 else 1) + Cost(GridWalk(a, b, cmp, q.0, q.1))
  {
    var q := GridStep(a, b, cmp, i, j);
    var rest := GridWalk(a, b, cmp, q.0, q.1);
    var path := GridWalk(a, b, cmp, i, j);
    assert path == [(i, j)] + rest;
    assert path[1..] == rest && path[1] == q;
  }

  /** The oracle's walk from (i, j) leaves exactly Dist(i, j) elements unmatched. */
  lemma {:induction false} GridWalkCost<A, B>(a: seq<A>, b: seq<B>, cmp: (A, B) -> bool, i: nat, j: nat)
    requires i <= |a| && j <= |b|
    ensures Cost(GridWalk(a, b, cmp, i, j)) == Dist(a, b, cmp, i, j)
    decreases i + j
  {
    if (i, j) != (0, 0) {
      var q := GridStep(a, b, cmp, i, j);
      GridWalkUnfold(a, b, cmp, i, j);
      GridStepCost(a, b, cmp, i, j);
      GridWalkCost(a, b, cmp, q.0, q.1);
      if IsDiagonal((i, j), q) {
        assert q == (i - 1, j - 1);
      }
    }
  }

  /** When some pair is related, the oracle's arrays record at least one match on each side. */
  lemma GridMatchesSomething<A, B>(a: seq<A>, b: seq<B>, cmp: (A, B) -> bool, i0: nat, j0: nat, a2b: Diff, b2a: Diff)
    requires i0 < |a| && j0 < |b| && cmp(a[i0], b[j0])
    requires DescribesPath(GridPath(a, b, cmp), a2b, b2a)
    ensures exists i :: 0 <= i < |a2b| && a2b[i].Some?
    ensures exists j :: 0 <= j < |b2a| && b2a[j].Some?
  {
    DistWithMatch(a, b, cmp, |a|, |b|, i0, j0);
    GridWalkCost(a, b, cmp, |a|, |b|);
    CheapPathMatches(GridPath(a, b, cmp), a2b, b2a);
  }

  /** `EditPathFromGrid` (src/tests.rs:4-10): the filled grid, the point to yield next, and whether (0, 0) was yielded. */
  class EditPathFromGrid<A, B> {
    var d: array2<nat>
    var cur: Point
    var exhausted: bool
    /** The inputs the grid was filled from. */
    ghost const a: seq<A>
    ghost const b: seq<B>
    ghost const cmp: (A, B) -> bool

    ghost predicate Valid()
      reads this, d
    {
      HoldsDist(d, a, b, cmp) && cur.0 <= |a| && cur.1 <= |b|
    }

    /** The points the iterator still yields. */
    ghost function Remaining(): seq<Point>
      reads this, d
      requires Valid()
    {
      if exhausted then [] else GridWalk(a, b, cmp, cur.0, cur.1)
    }

    constructor (ghost a: seq<A>, ghost b: seq<B>, ghost cmp: (A, B) -> bool, d: array2<nat>, cur: Point)
      requires HoldsDist(d, a, b, cmp) && cur.0 <= |a| && cur.1 <= |b|
      ensures this.a == a && this.b == b && this.cmp == cmp
      ensures this.d == d && this.cur == cur && !exhausted && Valid()
    {
      this.a, this.b, this.cmp := a, b, cmp;
      this.d := d;
      this.cur := cur;
      this.exhausted := false;
    }

    /**
      `next` (src/tests.rs:14-41): yield the current point and step back
      through the grid; after (0, 0) set `exhausted` and yield `None` forever.
    */
    method Next() returns (r: Option<Point>)
      requires Valid()
      modifies this
      ensures Valid() && d == old(d)
      ensures old(Remaining()) == [] ==> r == None && Remaining() == []
      ensures old(Remaining()) != [] ==> r.Some? && old(Remaining()) == [r.value] + Remaining()
    {
      if exhausted {
        return None;
      }
      if cur == (0, 0) {
        exhausted := true;
        return Some((0, 0));
      }
      var (i, j) := cur;
      var ncur: Point;
      if i > 0 && j > 0 {
        // the first minimum of [(i, j - 1), (i - 1, j)]
        ncur := (i, j - 1);
        if d[i - 1, j] < d[i, j - 1] {
          ncur := (i - 1, j);
        }
        var ul := d[i - 1, j - 1];
        if d[ncur.0, ncur.1] > ul && d[i, j] == ul {
          ncur := (i - 1, j - 1);
        }
      } else if i > 0 {
        ncur := (i - 1, j);
      } else {
        ncur := (i, j - 1);
      }
      cur := ncur;
      r := Some((i, j));
    }

    /** Drain the iterator, as `path_to_diff`'s `for` loop does. */
    method Collect() returns (path: seq<Point>)
      requires Valid()
      modifies this
      ensures Valid() && d == old(d)
      ensures path == old(Remaining()) && Remaining() == []
    {
      ghost var all := Remaining();
      path := [];
      while true
        invariant Valid() && d == old(d)
        invariant all == path + Remaining()
        decreases |Remaining()|
      {
        var r := Next();
        if r.None? {
          break;
        }
        SeqShift(path, r.value, Remaining());
        path := path + [r.value];
      }
    }
  }

  /** `get_shortest_edit_path_grid` (src/tests.rs:44-73): fill the grid and start at (n, m). */
  method GetShortestEditPathGrid<A, B>(a: seq<A>, b: seq<B>, cmp: (A, B) -> bool) returns (path: EditPathFromGrid<A, B>)
    ensures fresh(path) && path.Valid()
    ensures path.Remaining() == GridPath(a, b, cmp)
  {
    var g := FillGrid(a, b, cmp);
    path := new EditPathFromGrid(a, b, cmp, g, (|a|, |b|));
  }

  /**
    `path_to_diff(get_shortest_edit_path_grid(a, b))` of src/tests.rs:78: the
    arrays of the oracle's walk, which form an alignment as `diff_by`'s do.
  */
  method GridDiff<A, B>(a: seq<A>, b: seq<B>, cmp: (A, B) -> bool) returns (a2b: Diff, b2a: Diff)
    ensures DescribesPath(GridPath(a, b, cmp), a2b, b2a)
    ensures IsAlignment(a, b, cmp, a2b, b2a)
  {
    var path := GetShortestEditPathGrid(a, b, cmp);
    var points := path.Collect();
    a2b, b2a := PathToDiff(points);
    GridWalkDiagonals(a, b, cmp, |a|, |b|);
    DescribedIsAlignment(points, a, b, cmp, a2b, b2a);
  }
}

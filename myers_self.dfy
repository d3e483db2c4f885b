/**
  Diffing a sequence against itself with a reflexive predicate.  Round 0 of
  the search starts at (0, 0) and its snake runs along the main diagonal all
  the way to (n, n) (src/lib.rs:51-66), so the search breaks out at once and
  the walk back is the main diagonal: every element is matched with itself.
*/
module MyersSelf {
  import opened Wrappers
  import opened EditGraph
  import opened MyersSearch
  import opened MyersProof

  /** `cmp` relates every element of `a` to itself. */
  ghost predicate Reflexive<A>(a: seq<A>, cmp: (A, A) -> bool) {
    forall i | 0 <= i < |a| :: cmp(a[i], a[i])
  }

  /** The map the round-0 snake builds up to (x, x): (0, 0) hangs off the root, (i, i) off (i - 1, i - 1). */
  ghost function DiagMap(x: nat): (nodes: NodesMap)
    ensures (x, x) in nodes
  {
    if x == 0 then map[(0, 0) := Root] else DiagMap(x - 1)[(x, x) := P(x - 1, x - 1)]
  }

  /** The walk (x, x), (x - 1, x - 1), ..., (0, 0). */
  ghost function DiagonalPath(x: nat): (path: seq<Point>)
    ensures |path| == x + 1
  {
    if x == 0 then [(0, 0)] else [(x, x)] + DiagonalPath(x - 1)
  }

  /** Every element matched with itself. */
  function Identity(n: nat): (d: Diff)
    ensures |d| == n && forall i | 0 <= i < n :: d[i] == Some(i)
  {
    seq(n, i => Some(i))
  }

  /** The keys of DiagMap(x) are the diagonal points up to (x, x), each linked to the one before. */
  lemma {:induction false} DiagMapAt(x: nat, p: Point)
    ensures p in DiagMap(x) <==> p.0 == p.1 <= x
    ensures p in DiagMap(x) ==> DiagMap(x)[p] == if p.0 == 0 then Root else P(p.0 - 1, p.1 - 1)
  {
    if x > 0 {
      DiagMapAt(x - 1, p);
    }
  }

  lemma DiagMapValid(x: nat)
    ensures LinksValid(DiagMap(x))
  {
    forall p | p in DiagMap(x) ensures LinkOk(DiagMap(x), p) {
      DiagMapAt(x, p);
      if p.0 > 0 {
        DiagMapAt(x, (p.0 - 1, p.1 - 1));
      }
    }
  }

  /** With a reflexive predicate the snake from (x, x) runs to (n, n), extending DiagMap. */
  lemma {:induction false} SnakeSelf<A>(a: seq<A>, cmp: (A, A) -> bool, x: nat)
    requires Reflexive(a, cmp) && x <= |a|
    ensures Snake(a, a, cmp, x, x, DiagMap(x)) == (|a|, DiagMap(|a|))
    decreases |a| - x
  {
    if x < |a| {
      assert cmp(a[x], a[x]);
      assert DiagMap(x)[(x + 1, x + 1) := P(x, x)] == DiagMap(x + 1);
      SnakeSelf(a, cmp, x + 1);
    }
  }

  /** The search of `a` against itself breaks out in round 0 with the diagonal map. */
  lemma SearchSelf<A>(a: seq<A>, cmp: (A, A) -> bool)
    requires Reflexive(a, cmp)
    ensures MyersOutcome(a, a, cmp) == Found(0, DiagMap(|a|))
  {
    var n := |a|;
    var bound := n + n;
    var v := ZeroFrontier(bound);
    assert OnRound(bound, 0, bound);
    assert StartOf(bound, v, 0, bound) == Start(0, Root);
    assert map[][(0, 0) := Root] == DiagMap(0);
    SnakeSelf(a, cmp, 0);
    var r := VisitDiagonal(a, a, cmp, 0, bound, v, map[]);
    assert r == (v[bound := n], DiagMap(n));
    assert RoundFrom(a, a, cmp, 0, bound, v, map[]) == Reached(DiagMap(n));
  }

  /** From (x, x) the walk through the diagonal map follows the main diagonal. */
  lemma {:induction false} WalkSelf(n: nat, x: nat)
    requires x <= n
    ensures LinksValid(DiagMap(n)) && (x, x) in DiagMap(n)
    ensures Walk(DiagMap(n), (x, x)) == DiagonalPath(x)
  {
    DiagMapValid(n);
    DiagMapAt(n, (x, x));
    if x > 0 {
      WalkSelf(n, x - 1);
    }
  }

  lemma {:induction false} DiagonalPathAt(x: nat, t: nat)
    requires t <= x
    ensures DiagonalPath(x)[t] == (x - t, x - t)
  {
    if t > 0 {
      DiagonalPathAt(x - 1, t - 1);
    }
  }

  /** The identity arrays describe the main diagonal. */
  lemma DiagonalDescribed(n: nat)
    ensures DescribesPath(DiagonalPath(n), Identity(n), Identity(n))
  {
    var path := DiagonalPath(n);
    forall s, t | 0 <= s && t == s + 1 && t < |path| ensures IsBackStep(path[s], path[t]) {
      DiagonalPathAt(n, s);
      DiagonalPathAt(n, t);
    }
    DiagonalPathAt(n, 0);
    forall i: nat, j: nat ensures Matched(path, i, j) <==> i == j < n {
      if Matched(path, i, j) {
        var s, t :| 0 <= s && t == s + 1 && t < |path| && path[s] == (i + 1, j + 1) && path[t] == (i, j);
        DiagonalPathAt(n, s);
      }
      if i == j < n {
        var s := n - i - 1;
        DiagonalPathAt(n, s);
        DiagonalPathAt(n, s + 1);
      }
    }
  }

  /**
    Arrays that describe the walk of the search of `a` against itself, with a
    reflexive predicate, are the identity: a2b == b2a and a2b[i] == Some(i)
    (python/tests/test_main.py:43-46 asserts the first half).
  */
  lemma SelfDiffIdentity<A>(a: seq<A>, cmp: (A, A) -> bool, a2b: Diff, b2a: Diff)
    requires Reflexive(a, cmp) && DescribesPath(MyersPath(a, a, cmp), a2b, b2a)
    ensures a2b == b2a == Identity(|a|)
  {
    SearchSelf(a, cmp);
    WalkSelf(|a|, |a|);
    assert MyersPath(a, a, cmp) == DiagonalPath(|a|);
    DiagonalDescribed(|a|);
    DescribesPathUnique(DiagonalPath(|a|), a2b, b2a, Identity(|a|), Identity(|a|));
  }
}

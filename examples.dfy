/**
  The fixed cases of `test_diff` (src/tests.rs:87-101), on 64-bit floats.
  A float is a real number or NaN; `==` on floats (`PartialEq for f64`)
  relates two numbers exactly when they are equal and never relates NaN,
  not even to itself.
*/
module ConcreteCases {
  import opened Wrappers
  import opened EditGraph
  import opened MyersSearch
  import opened MyersProof
  import opened EditDistance
  import opened GridOracle
  import opened OracleAgreement

  datatype F64 = Num(r: real) | NaN

  /** `PartialEq::eq` for `f64`. */
  function F64Eq(x: F64, y: F64): (r: bool)
    ensures r ==> x == y && x.Num?
    ensures x == y && x.Num? ==> r
  {
    x.Num? && y.Num? && x.r == y.r
  }

  /** NaN is not equal to itself, so `diff([NaN], [NaN])` matches nothing (src/tests.rs:90-93). */
  lemma NaNCase(a2b: Diff, b2a: Diff)
    requires DescribesPath(MyersPath([NaN], [NaN], F64Eq), a2b, b2a)
    ensures a2b == [None] && b2a == [None]
  {
    NothingMatched(MyersPath([NaN], [NaN], F64Eq), [NaN], [NaN], F64Eq, a2b, b2a);
  }

  /** The oracle agrees on the NaN case. */
  lemma NaNCaseAgrees(a2b: Diff, b2a: Diff, a2b': Diff, b2a': Diff)
    requires DescribesPath(MyersPath([NaN], [NaN], F64Eq), a2b, b2a)
    requires DescribesPath(GridPath([NaN], [NaN], F64Eq), a2b', b2a')
    ensures a2b == a2b' == [None] && b2a == b2a' == [None]
  {
    UnrelatedDiffsAgree([NaN], [NaN], F64Eq, a2b, b2a, a2b', b2a');
  }

  const Left: seq<F64> := [Num(1.0), Num(2.0), Num(3.0)]
  const Right: seq<F64> := [Num(1.0), Num(3.0)]

  /** The walk both producers yield for [1., 2., 3.] against [1., 3.]. */
  const ExpectedPath: seq<Point> := [(3, 2), (2, 1), (1, 1), (0, 0)]

  /** The frontier and the map after round 0, after diagonal 4 of round 1, and at the break. */
  const V1: seq<nat> := ZeroFrontier(5)[5 := 1]
  const N1: NodesMap := map[(0, 0) := Root, (1, 1) := P(0, 0)]
  const V2: seq<nat> := V1[4 := 1]
  const N2: NodesMap := N1[(1, 2) := P(1, 1)]
  const N4: NodesMap := N2[(2, 1) := P(1, 1)][(3, 2) := P(2, 1)]

  /** Round 0 starts at (0, 0) and its snake matches 1 with 1, stopping at (1, 1). */
  lemma MyersRound0()
    ensures MyersOutcome(Left, Right, F64Eq) == SearchFrom(Left, Right, F64Eq, 1, V1, N1)
  {
    var a, b, cmp := Left, Right, F64Eq;
    var v0 := ZeroFrontier(5);
    var n0 := map[(0, 0) := Root];
    assert Snake(a, b, cmp, 1, 1, N1) == (1, N1);
    assert n0[(1, 1) := P(0, 0)] == N1;
    assert Snake(a, b, cmp, 0, 0, n0) == (1, N1);
    assert StartOf(5, v0, 0, 5) == Start(0, Root);
    assert VisitDiagonal(a, b, cmp, 0, 5, v0, map[]) == (V1, N1);
    assert RoundFrom(a, b, cmp, 0, 5, v0, map[]) == Running(V1, N1);
  }

  /** Diagonal 4 of round 1: a step down from (1, 1) to (1, 2), where no snake follows. */
  lemma MyersRound1Down()
    ensures VisitDiagonal(Left, Right, F64Eq, 1, 4, V1, N1) == (V2, N2)
  {
    assert OnRound(5, 1, 4);
    assert StartOf(5, V1, 1, 4) == Start(1, P(1, 1));
    assert Snake(Left, Right, F64Eq, 1, 2, N2) == (1, N2);
  }

  /** Diagonal 6 of round 1: a step right from (1, 1) to (2, 1), whose snake matches 3 with 3 and reaches (3, 2). */
  lemma MyersRound1Right()
    ensures VisitDiagonal(Left, Right, F64Eq, 1, 6, V2, N2) == (V2[6 := 3], N4)
  {
    var n3 := N2[(2, 1) := P(1, 1)];
    assert OnRound(5, 1, 6);
    assert StartOf(5, V2, 1, 6) == Start(2, P(1, 1));
    assert Snake(Left, Right, F64Eq, 3, 2, N4) == (3, N4);
    assert Snake(Left, Right, F64Eq, 2, 1, n3) == (3, N4);
  }

  /** Round 1 breaks out at (3, 2). */
  lemma MyersRound1()
    ensures SearchFrom(Left, Right, F64Eq, 1, V1, N1) == Found(1, N4)
  {
    assert OnRound(5, 1, 4) && OnRound(5, 1, 6);
    MyersRound1Down();
    MyersRound1Right();
    assert RoundFrom(Left, Right, F64Eq, 1, 6, V2, N2) == Reached(N4);
    assert RoundFrom(Left, Right, F64Eq, 1, 4, V1, N1) == Reached(N4);
  }

  /** The walk back from (3, 2) through the map of the break. */
  lemma MyersWalkExample()
    ensures LinksValid(N4) && (3, 2) in N4
    ensures Walk(N4, (3, 2)) == ExpectedPath
  {
    forall p | p in N4 ensures LinkOk(N4, p) {
    }
    assert Walk(N4, (0, 0)) == [(0, 0)];
    assert Walk(N4, (1, 1)) == [(1, 1), (0, 0)];
    assert Walk(N4, (2, 1)) == [(2, 1), (1, 1), (0, 0)];
  }

  /** The search on [1., 2., 3.] against [1., 3.] breaks out in round 1 and walks back through 3 ~ 3 and 1 ~ 1. */
  lemma MyersExample()
    ensures MyersPath(Left, Right, F64Eq) == ExpectedPath
  {
    MyersRound0();
    MyersRound1();
    MyersWalkExample();
  }

  /** The oracle's grid for the same inputs. */
  lemma DistExample()
    ensures Dist(Left, Right, F64Eq, 1, 1) == 0 && Dist(Left, Right, F64Eq, 1, 0) == 1 && Dist(Left, Right, F64Eq, 0, 1) == 1
    ensures Dist(Left, Right, F64Eq, 2, 1) == 1 && Dist(Left, Right, F64Eq, 2, 0) == 2
    ensures Dist(Left, Right, F64Eq, 2, 2) == 2 && Dist(Left, Right, F64Eq, 3, 1) == 2
    ensures Dist(Left, Right, F64Eq, 3, 2) == 1
  {
    var a, b, cmp := Left, Right, F64Eq;
    assert Dist(a, b, cmp, 1, 1) == 0;
    assert Dist(a, b, cmp, 1, 2) == 1 && Dist(a, b, cmp, 2, 1) == 1;
    assert Dist(a, b, cmp, 2, 2) == 2 && Dist(a, b, cmp, 3, 1) == 2;
  }

  /** The moves of the oracle's walk: diagonal from (3, 2), left from (2, 1), diagonal from (1, 1). */
  lemma GridStepsExample()
    ensures GridStep(Left, Right, F64Eq, 3, 2) == (2, 1)
    ensures GridStep(Left, Right, F64Eq, 2, 1) == (1, 1)
    ensures GridStep(Left, Right, F64Eq, 1, 1) == (0, 0)
  {
    DistExample();
  }

  /** The oracle's walk back through the grid. */
  lemma GridExample()
    ensures GridPath(Left, Right, F64Eq) == ExpectedPath
  {
    var a, b, cmp := Left, Right, F64Eq;
    GridStepsExample();
    assert GridWalk(a, b, cmp, 1, 1) == [(1, 1), (0, 0)];
    assert GridWalk(a, b, cmp, 2, 1) == [(2, 1), (1, 1), (0, 0)];
  }

  /** The arrays of the expected walk. */
  lemma ExpectedDescribed()
    ensures DescribesPath(ExpectedPath, [Some(0), None, Some(1)], [Some(0), Some(2)])
  {
    var path := ExpectedPath;
    assert IsBackStep(path[0], path[1]) && IsBackStep(path[1], path[2]) && IsBackStep(path[2], path[3]);
    forall i: nat, j: nat ensures Matched(path, i, j) <==> (i, j) == (0, 0) || (i, j) == (2, 1) {
      if Matched(path, i, j) {
        var s, t :| 0 <= s && t == s + 1 && t < |path| && path[s] == (i + 1, j + 1) && path[t] == (i, j);
        assert s == 0 || s == 1 || s == 2;
      }
      if (i, j) == (0, 0) {
        assert path[2] == (i + 1, j + 1) && path[3] == (i, j);
      } else if (i, j) == (2, 1) {
        assert path[0] == (i + 1, j + 1) && path[1] == (i, j);
      }
    }
  }

  /**
    `diff([1., 2., 3.], [1., 3.]) == ([Some(0), None, Some(1)], [Some(0), Some(2)])`
    (src/tests.rs:94-97), and the oracle gives the same arrays.
  */
  lemma ExampleCase(a2b: Diff, b2a: Diff, a2b': Diff, b2a': Diff)
    requires DescribesPath(MyersPath(Left, Right, F64Eq), a2b, b2a)
    requires DescribesPath(GridPath(Left, Right, F64Eq), a2b', b2a')
    ensures a2b == a2b' == [Some(0), None, Some(1)]
    ensures b2a == b2a' == [Some(0), Some(2)]
  {
    MyersExample();
    GridExample();
    ExpectedDescribed();
    DescribesPathUnique(ExpectedPath, a2b, b2a, [Some(0), None, Some(1)], [Some(0), Some(2)]);
    DescribesPathUnique(ExpectedPath, a2b', b2a', [Some(0), None, Some(1)], [Some(0), Some(2)]);
  }
}

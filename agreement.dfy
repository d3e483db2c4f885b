/**
  `randomcheck_myers_with_dp` (src/tests.rs:76-84) asserts that the Myers
  search and the grid oracle give the same arrays.  This module proves that
  equality for two families of inputs: a sequence diffed against itself with
  a reflexive predicate, and inputs with no related pair at all.  Arrays that
  describe a walk are determined by it, so equal walks give equal arrays.
*/
module OracleAgreement {
  import opened Wrappers
  import opened EditGraph
  import opened MyersSearch
  import opened MyersProof
  import opened MyersSelf
  import opened EditDistance
  import opened GridOracle
  import opened MyersOptimal

  /** With a reflexive predicate the diagonal cells of the grid are 0. */
  lemma {:induction false} DistSelf<A>(a: seq<A>, cmp: (A, A) -> bool, i: nat)
    requires Reflexive(a, cmp) && i <= |a|
    ensures Dist(a, a, cmp, i, i) == 0
  {
    if i > 0 {
      assert cmp(a[i - 1], a[i - 1]);
      DistSelf(a, cmp, i - 1);
    }
  }

  /** From (i, i) the oracle backtracks along the main diagonal. */
  lemma {:induction false} GridWalkSelf<A>(a: seq<A>, cmp: (A, A) -> bool, i: nat)
    requires Reflexive(a, cmp) && i <= |a|
    ensures GridWalk(a, a, cmp, i, i) == DiagonalPath(i)
  {
    if i > 0 {
      DistSelf(a, cmp, i);
      DistSelf(a, cmp, i - 1);
      assert GridStep(a, a, cmp, i, i) == (i - 1, i - 1);
      GridWalkSelf(a, cmp, i - 1);
    }
  }

  /** Both producers walk the main diagonal when a sequence is diffed against itself. */
  lemma SelfPathsAgree<A>(a: seq<A>, cmp: (A, A) -> bool)
    requires Reflexive(a, cmp)
    ensures MyersPath(a, a, cmp) == GridPath(a, a, cmp) == DiagonalPath(|a|)
  {
    SearchSelf(a, cmp);
    WalkSelf(|a|, |a|);
    GridWalkSelf(a, cmp, |a|);
  }

  /** The quickcheck equality for self-diffs: both producers give the identity arrays. */
  lemma SelfDiffsAgree<A>(a: seq<A>, cmp: (A, A) -> bool, a2b: Diff, b2a: Diff, a2b': Diff, b2a': Diff)
    requires Reflexive(a, cmp)
    requires DescribesPath(MyersPath(a, a, cmp), a2b, b2a)
    requires DescribesPath(GridPath(a, a, cmp), a2b', b2a')
    ensures a2b == a2b' && b2a == b2a'
  {
    SelfPathsAgree(a, cmp);
    DescribesPathUnique(MyersPath(a, a, cmp), a2b, b2a, a2b', b2a');
  }

  /** Arrays of a walk whose diagonals relate their elements hold no match when nothing is related. */
  lemma NothingMatched<A, B>(path: seq<Point>, a: seq<A>, b: seq<B>, cmp: (A, B) -> bool, a2b: Diff, b2a: Diff)
    requires DescribesPath(path, a2b, b2a) && DiagonalsSatisfy(path, a, b, cmp) && path[0] == (|a|, |b|)
    requires forall i, j | 0 <= i < |a| && 0 <= j < |b| :: !cmp(a[i], b[j])
    ensures a2b == seq(|a|, _ => None) && b2a == seq(|b|, _ => None)
  {
    DescribedIsAlignment(path, a, b, cmp, a2b, b2a);
    assert forall i | 0 <= i < |a2b| :: a2b[i] == None;
  }

  /** The quickcheck equality when no pair is related: both producers give all-None arrays. */
  lemma UnrelatedDiffsAgree<A, B>(a: seq<A>, b: seq<B>, cmp: (A, B) -> bool, a2b: Diff, b2a: Diff, a2b': Diff, b2a': Diff)
    requires forall i, j | 0 <= i < |a| && 0 <= j < |b| :: !cmp(a[i], b[j])
    requires DescribesPath(MyersPath(a, b, cmp), a2b, b2a)
    requires DescribesPath(GridPath(a, b, cmp), a2b', b2a')
    ensures a2b == a2b' == seq(|a|, _ => None) && b2a == b2a' == seq(|b|, _ => None)
  {
    NothingMatched(MyersPath(a, b, cmp), a, b, cmp, a2b, b2a);
    GridWalkDiagonals(a, b, cmp, |a|, |b|);
    NothingMatched(GridPath(a, b, cmp), a, b, cmp, a2b', b2a');
  }

  /**
    On every input the two producers agree on the size of the edit: both
    walks are shortest, so they take the same number of non-diagonal moves.
  */
  lemma CostsAgree<A, B>(a: seq<A>, b: seq<B>, cmp: (A, B) -> bool)
    ensures Cost(MyersPath(a, b, cmp)) == Cost(GridPath(a, b, cmp)) == Dist(a, b, cmp, |a|, |b|)
  {
    MyersShortest(a, b, cmp);
    GridWalkCost(a, b, cmp, |a|, |b|);
  }
}

/**
 expr_eliminate_dups1 and expr_eliminate_dups as they run: one tree, overwritten in place
 through two positions, and the global count of simplifications.
 */
module DupsRewriter {
  import opened Exprs
  import opened Equality
  import opened Joins
  import opened Paths
  import opened Dups

  class Rewriter {
    var tree: Expr
    var transCount: nat

    constructor (e: Expr, count: nat)
      ensures tree == e && transCount == count
    {
      tree, transCount := e, count;
    }

    /**
     `r` is the root of the level being walked; p1 = r + q1 and p2 = r + q2 are the two
     positions, which overlap whenever one is a prefix of the other.
     */
    method EliminateDups1(ty: Level, p1: Path, p2: Path, ghost r: Path, ghost q1: Path, ghost q2: Path)
      requires p1 == r + q1 && p2 == r + q2
      requires ValidPath(tree, r) && OnLevel(ty, Get(tree, r))
      requires Has(ShapeOf(ty, Get(tree, r)), q1) && Has(ShapeOf(ty, Get(tree, r)), q2)
      modifies this
      ensures tree == Put(old(tree), r, Pass1(ty, Get(old(tree), r), q1, q2).0)
      ensures transCount == old(transCount) + Pass1(ty, Get(old(tree), r), q1, q2).1
      decreases Operators(Get(tree, r)),
                Nodes(At(ShapeOf(ty, Get(tree, r)), q1)) + Nodes(At(ShapeOf(ty, Get(tree, r)), q2)), 1
    {
      Positions(ty, tree, r, q1);
      Positions(ty, tree, r, q2);
      if OnLevel(ty, Get(tree, p1)) {
        DescendFirst(ty, p1, p2, r, q1, q2);
      } else if OnLevel(ty, Get(tree, p2)) {
        DescendSecond(ty, p1, p2, r, q1, q2);
      } else if p1 == p2 {
        PutGet(tree, r);
        assert q1 == p1[|r|..] && q2 == p2[|r|..];
      } else {
        JoinLeaves(ty, p1, p2, r, q1, q2);
      }
    }

    /** The first position holds an operator of the level: its operands one after the other. */
    method DescendFirst(ty: Level, p1: Path, p2: Path, ghost r: Path, ghost q1: Path, ghost q2: Path)
      requires p1 == r + q1 && p2 == r + q2
      requires ValidPath(tree, r) && OnLevel(ty, Get(tree, r))
      requires Has(ShapeOf(ty, Get(tree, r)), q1) && Has(ShapeOf(ty, Get(tree, r)), q2)
      requires ValidPath(tree, p1) && OnLevel(ty, Get(tree, p1))
      modifies this
      ensures tree == Put(old(tree), r, Pass1(ty, Get(old(tree), r), q1, q2).0)
      ensures transCount == old(transCount) + Pass1(ty, Get(old(tree), r), q1, q2).1
      decreases Operators(Get(tree, r)),
                Nodes(At(ShapeOf(ty, Get(tree, r)), q1)) + Nodes(At(ShapeOf(ty, Get(tree, r)), q2)), 0
    {
      ghost var t := Get(tree, r);
      Positions(ty, tree, r, q1);
      HasExtends(ShapeOf(ty, t), q1, ToLeft);
      HasExtends(ShapeOf(ty, t), q1, ToRight);
      ghost var t1 := Pass1(ty, t, q1 + [ToLeft], q2).0;
      PutValid(tree, r, t1);
      assert r + (q1 + [ToLeft]) == p1 + [ToLeft] && r + (q1 + [ToRight]) == p1 + [ToRight];
      EliminateDups1(ty, p1 + [ToLeft], p2, r, q1 + [ToLeft], q2);
      EliminateDups1(ty, p1 + [ToRight], p2, r, q1 + [ToRight], q2);
      PutPut(old(tree), r, t1, Pass1(ty, t1, q1 + [ToRight], q2).0);
    }

    /** The first position holds an operand, the second an operator of the level. */
    method DescendSecond(ty: Level, p1: Path, p2: Path, ghost r: Path, ghost q1: Path, ghost q2: Path)
      requires p1 == r + q1 && p2 == r + q2
      requires ValidPath(tree, r) && OnLevel(ty, Get(tree, r))
      requires Has(ShapeOf(ty, Get(tree, r)), q1) && Has(ShapeOf(ty, Get(tree, r)), q2)
      requires ValidPath(tree, p1) && !OnLevel(ty, Get(tree, p1)) && ValidPath(tree, p2) && OnLevel(ty, Get(tree, p2))
      modifies this
      ensures tree == Put(old(tree), r, Pass1(ty, Get(old(tree), r), q1, q2).0)
      ensures transCount == old(transCount) + Pass1(ty, Get(old(tree), r), q1, q2).1
      decreases Operators(Get(tree, r)),
                Nodes(At(ShapeOf(ty, Get(tree, r)), q1)) + Nodes(At(ShapeOf(ty, Get(tree, r)), q2)), 0
    {
      ghost var t := Get(tree, r);
      Positions(ty, tree, r, q1);
      Positions(ty, tree, r, q2);
      HasExtends(ShapeOf(ty, t), q2, ToLeft);
      HasExtends(ShapeOf(ty, t), q2, ToRight);
      ghost var t1 := Pass1(ty, t, q1, q2 + [ToLeft]).0;
      PutValid(tree, r, t1);
      assert r + (q2 + [ToLeft]) == p2 + [ToLeft] && r + (q2 + [ToRight]) == p2 + [ToRight];
      EliminateDups1(ty, p1, p2 + [ToLeft], r, q1, q2 + [ToLeft]);
      EliminateDups1(ty, p1, p2 + [ToRight], r, q1, q2 + [ToRight]);
      PutPut(old(tree), r, t1, Pass1(ty, t1, q1, q2 + [ToRight]).0);
    }

    /** The two positions hold distinct operands of the level. */
    method JoinLeaves(ty: Level, p1: Path, p2: Path, ghost r: Path, ghost q1: Path, ghost q2: Path)
      requires p1 == r + q1 && p2 == r + q2 && q1 != q2
      requires ValidPath(tree, r) && OnLevel(ty, Get(tree, r))
      requires IsLeaf(ShapeOf(ty, Get(tree, r)), q1) && IsLeaf(ShapeOf(ty, Get(tree, r)), q2)
      modifies this
      ensures tree == Put(old(tree), r, Pass1(ty, Get(old(tree), r), q1, q2).0)
      ensures transCount == old(transCount) + Pass1(ty, Get(old(tree), r), q1, q2).1
      decreases Operators(Get(tree, r)), 0, 0
    {
      ghost var t := Get(tree, r);
      Positions(ty, tree, r, q1);
      Positions(ty, tree, r, q2);
      assert q1 != [] && q2 != [];
      GetOperators(t, q1);
      ghost var e1 := Get(tree, p1);
      var inner := LevelOf(Get(tree, p1));
      if inner.Some? {
        assert p1 == p1 + [];
        EliminateDups1(inner.value, p1, p1, p1, [], []);
      } else {
        PutGet(tree, p1);
      }
      ghost var e1' := Inner(e1).0;
      ghost var t1 := Put(t, q1, e1');
      PutConcat(old(tree), r, q1, e1');
      PutShape(ty, t, q1, e1');
      PutValid(old(tree), r, t1);
      GetPutOther(ty, t, q1, q2, e1');
      Positions(ty, tree, r, q1);
      Positions(ty, tree, r, q2);
      var j := Join(ty, Get(tree, p1), Get(tree, p2));
      if j.Some? {
        JoinShrinks(ty, Get(tree, p1), Get(tree, p2));
        PutConcat(tree, r, q1, Unit(ty));
        ghost var t2 := Put(t1, q1, Unit(ty));
        PutShape(ty, t1, q1, Unit(ty));
        PutPut(old(tree), r, t1, t2);
        tree := Put(tree, p1, Unit(ty));
        PutValid(old(tree), r, t2);
        Positions(ty, tree, r, q2);
        PutConcat(tree, r, q2, j.value);
        PutPut(old(tree), r, t2, Put(t2, q2, j.value));
        tree := Put(tree, p2, j.value);
        transCount := transCount + 1;
      }
    }

    /** Repeats the pass until it joins nothing; the count is the caller's again afterwards. */
    method EliminateDups()
      modifies this
      ensures tree == Dups.EliminateDups(old(tree))
      ensures transCount == old(transCount)
    {
      var oldCount := transCount;
      while true
        invariant Dups.EliminateDups(tree) == Dups.EliminateDups(old(tree))
        decreases Operators(tree)
      {
        transCount := 0;
        ghost var before := tree;
        var level := LevelOf(tree);
        if level.Some? {
          EliminateDups1(level.value, [], [], [], [], []);
        }
        assert tree == Inner(before).0 && transCount == Inner(before).1;
        if transCount == 0 { break; }
        InnerLeavesUnit(before);
        EliminateYnShrinks(tree);
        tree := EliminateYn(tree);
      }
      transCount := oldCount;
    }
  }

  /** A position below the level root, read in the whole tree and in the level. */
  lemma Positions(ty: Level, e: Expr, r: Path, q: Path)
    requires ValidPath(e, r) && Has(ShapeOf(ty, Get(e, r)), q)
    ensures ValidPath(Get(e, r), q) && ValidPath(e, r + q) && Get(e, r + q) == Get(Get(e, r), q)
    ensures ShapeOf(ty, Get(e, r + q)) == At(ShapeOf(ty, Get(e, r)), q)
  {
    GetShape(ty, Get(e, r), q);
    ValidConcat(e, r, q);
  }

  lemma {:induction false} PutValid(e: Expr, r: Path, x: Expr)
    requires ValidPath(e, r)
    ensures ValidPath(Put(e, r, x), r) && Get(Put(e, r, x), r) == x
  {
    if r != [] { PutValid(Operand(e, r[0]), r[1..], x); }
  }
}

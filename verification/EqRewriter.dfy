/**
 __expr_eliminate_eq and expr_eliminate_eq as they run: two trees, each overwritten in place
 through a position of its own.
 */
module EqRewriter {
  import opened Exprs
  import opened Equality
  import opened Paths
  import opened DupsRewriter

  /** The operands of a level node at position p, and the tree after overwriting one of them. */
  lemma OperandAt(e: Expr, p: Path, d: Side, x: Expr)
    requires ValidPath(e, p) && IsOperator(Get(e, p))
    ensures ValidPath(e, p + [d]) && Get(e, p + [d]) == Operand(Get(e, p), d)
    ensures Put(e, p + [d], x) == Put(e, p, WithOperand(Get(e, p), d, x))
    ensures ValidPath(Put(e, p, x), p) && Get(Put(e, p, x), p) == x
  {
    var n := Get(e, p);
    var q := [d];
    assert q[1..] == [];
    assert Get(Operand(n, d), q[1..]) == Operand(n, d) && Put(Operand(n, d), q[1..], x) == x;
    ValidConcat(e, p, q);
    PutConcat(e, p, q, x);
    PutValid(e, p, x);
  }

  /** Two operands overwritten one after the other, where the first result is `l`. */
  lemma BothOperands(ty: Level, e: Expr, p: Path, l: Expr, r: Expr)
    requires ValidPath(e, p) && OnLevel(ty, Get(e, p))
    ensures ValidPath(e, p + [ToLeft])
    ensures var e' := Put(e, p + [ToLeft], l);
            && ValidPath(e', p + [ToRight]) && Get(e', p + [ToRight]) == Get(e, p).r
            && Put(e', p + [ToRight], r) == Put(e, p, MakeLevel(ty, l, r))
  {
    var n := Get(e, p);
    OperandAt(e, p, ToLeft, l);
    var n' := WithOperand(n, ToLeft, l);
    OperandAt(e, p, ToLeft, n');
    var e' := Put(e, p, n');
    OperandAt(e', p, ToRight, r);
    PutPut(e, p, n', WithOperand(n', ToRight, r));
  }

  class Pair {
    var left: Expr
    var right: Expr
    var transCount: nat

    constructor (e1: Expr, e2: Expr, count: nat)
      ensures left == e1 && right == e2 && transCount == count
    {
      left, right, transCount := e1, e2, count;
    }

    /** Walks the operands below p1 and p2; equal ones are both overwritten with the unit of the level. */
    method EliminateLevel(ty: Level, p1: Path, p2: Path)
      requires ValidPath(left, p1) && ValidPath(right, p2)
      modifies this
      ensures var (a, b) := Pass(ty, Get(old(left), p1), Get(old(right), p2));
              left == Put(old(left), p1, a) && right == Put(old(right), p2, b)
      ensures old(transCount) <= transCount
      ensures transCount == old(transCount) ==> left == old(left) && right == old(right)
      decreases Size(Get(left, p1)) + Size(Get(right, p2)), 1
    {
      if OnLevel(ty, Get(left, p1)) {
        DescendLeft(ty, p1, p2);
      } else if OnLevel(ty, Get(right, p2)) {
        DescendRight(ty, p1, p2);
      } else if !(Get(left, p1) == Get(right, p2) && IsYn(Get(left, p1))) && ExprEq(Get(left, p1), Get(right, p2)) {
        transCount := transCount + 1;
        left := Put(left, p1, Unit(ty));
        right := Put(right, p2, Unit(ty));
      } else {
        PutGet(left, p1);
        PutGet(right, p2);
      }
    }

    method DescendLeft(ty: Level, p1: Path, p2: Path)
      requires ValidPath(left, p1) && ValidPath(right, p2) && OnLevel(ty, Get(left, p1))
      modifies this
      ensures var (a, b) := Pass(ty, Get(old(left), p1), Get(old(right), p2));
              left == Put(old(left), p1, a) && right == Put(old(right), p2, b)
      ensures old(transCount) <= transCount
      ensures transCount == old(transCount) ==> left == old(left) && right == old(right)
      decreases Size(Get(left, p1)) + Size(Get(right, p2)), 0
    {
      ghost var e1, e2 := Get(left, p1), Get(right, p2);
      ghost var (l, e2') := Pass(ty, e1.l, e2);
      ghost var (r, e2'') := Pass(ty, e1.r, e2');
      OperandAt(left, p1, ToLeft, l);
      BothOperands(ty, left, p1, l, r);
      PutPut(right, p2, e2', e2'');
      PutValid(right, p2, e2');
      EliminateLevel(ty, p1 + [ToLeft], p2);
      EliminateLevel(ty, p1 + [ToRight], p2);
    }

    method DescendRight(ty: Level, p1: Path, p2: Path)
      requires ValidPath(left, p1) && ValidPath(right, p2) && !OnLevel(ty, Get(left, p1)) && OnLevel(ty, Get(right, p2))
      modifies this
      ensures var (a, b) := Pass(ty, Get(old(left), p1), Get(old(right), p2));
              left == Put(old(left), p1, a) && right == Put(old(right), p2, b)
      ensures old(transCount) <= transCount
      ensures transCount == old(transCount) ==> left == old(left) && right == old(right)
      decreases Size(Get(left, p1)) + Size(Get(right, p2)), 0
    {
      ghost var e1, e2 := Get(left, p1), Get(right, p2);
      ghost var (e1', l) := Pass(ty, e1, e2.l);
      ghost var (e1'', r) := Pass(ty, e1', e2.r);
      OperandAt(right, p2, ToLeft, l);
      BothOperands(ty, right, p2, l, r);
      PutPut(left, p1, e1', e1'');
      PutValid(left, p1, e1');
      EliminateLevel(ty, p1, p2 + [ToLeft]);
      EliminateLevel(ty, p1, p2 + [ToRight]);
    }

    method EliminateEq()
      modifies this
      ensures (left, right) == Equality.EliminateEq(old(left), old(right))
      ensures YnFree(left) && YnFree(right)
    {
      var level := LevelOf(left);
      if level.Some? { EliminateLevel(level.value, [], []); }
      level := LevelOf(right);
      if LevelOf(left) != level && level.Some? { EliminateLevel(level.value, [], []); }
      EliminateYnComplete(left);
      EliminateYnComplete(right);
      left := EliminateYn(left);
      right := EliminateYn(right);
    }
  }
}

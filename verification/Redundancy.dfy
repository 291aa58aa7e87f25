/**
 What expr_eq, expr_eliminate_eq and expr_eliminate_dups are bound to find: every expression is
 equal to itself, no equal operands survive, and no operand pair that says the same thing twice.
 */
module Redundancy {
  import opened Tristates
  import opened Exprs
  import opened Equality
  import opened Joins
  import opened Paths
  import opened Dups

  // ---- __expr_eliminate_eq leaves no equal operands ----

  /** The only equal operands of a and b are y or n on both sides. */
  ghost predicate NothingShared(ty: Level, a: Expr, b: Expr) {
    forall x, y :: x in Operands(ty, a) && y in Operands(ty, b) && ExprEq(x, y) ==> x == y && IsYn(x)
  }

  /** Every operand of e' is one of e or the unit of the level. */
  ghost predicate OnlyBlanked(ty: Level, e: Expr, e': Expr) {
    forall x :: x in Operands(ty, e') ==> x in Operands(ty, e) || x == Unit(ty)
  }

  lemma OperandsOfLevel(ty: Level, l: Expr, r: Expr)
    ensures Operands(ty, MakeLevel(ty, l, r)) == Operands(ty, l) + Operands(ty, r)
  {
  }

  /** A constant is equal to nothing but itself. */
  lemma ConstEquals(x: Expr, y: Expr)
    requires ExprEq(x, y) && (IsYn(x) || IsYn(y))
    ensures x == y
  {
  }

  lemma {:induction false} PassComplete(ty: Level, e1: Expr, e2: Expr)
    ensures var (a, b) := Pass(ty, e1, e2);
            NothingShared(ty, a, b) && OnlyBlanked(ty, e1, a) && OnlyBlanked(ty, e2, b)
    decreases Size(e1) + Size(e2)
  {
    if OnLevel(ty, e1) {
      var (l, e2') := Pass(ty, e1.l, e2);
      var (r, e2'') := Pass(ty, e1.r, e2');
      PassComplete(ty, e1.l, e2);
      PassComplete(ty, e1.r, e2');
      SharedBlanked(ty, l, e2', e2'');
      LevelShares(ty, l, r, e2'');
      LevelBlanked(ty, e1.l, e1.r, l, r);
      BlankedTwice(ty, e2, e2', e2'');
    } else if OnLevel(ty, e2) {
      var (e1', l) := Pass(ty, e1, e2.l);
      var (e1'', r) := Pass(ty, e1', e2.r);
      PassComplete(ty, e1, e2.l);
      PassComplete(ty, e1', e2.r);
      BlankedShares(ty, e1', e1'', l);
      LevelShared(ty, e1'', l, r);
      LevelBlanked(ty, e2.l, e2.r, l, r);
      BlankedTwice(ty, e1, e1', e1'');
    } else {
      LeavesComplete(ty, e1, e2);
    }
  }

  lemma LeavesComplete(ty: Level, e1: Expr, e2: Expr)
    requires !OnLevel(ty, e1) && !OnLevel(ty, e2)
    ensures var (a, b) := Pass(ty, e1, e2);
            NothingShared(ty, a, b) && OnlyBlanked(ty, e1, a) && OnlyBlanked(ty, e2, b)
  {
  }

  lemma BlankedTwice(ty: Level, e: Expr, e': Expr, e'': Expr)
    requires OnlyBlanked(ty, e, e') && OnlyBlanked(ty, e', e'')
    ensures OnlyBlanked(ty, e, e'')
  {
  }

  lemma LevelShares(ty: Level, l: Expr, r: Expr, b: Expr)
    requires NothingShared(ty, l, b) && NothingShared(ty, r, b)
    ensures NothingShared(ty, MakeLevel(ty, l, r), b)
  {
    OperandsOfLevel(ty, l, r);
  }

  lemma LevelShared(ty: Level, a: Expr, l: Expr, r: Expr)
    requires NothingShared(ty, a, l) && NothingShared(ty, a, r)
    ensures NothingShared(ty, a, MakeLevel(ty, l, r))
  {
    OperandsOfLevel(ty, l, r);
  }

  lemma LevelBlanked(ty: Level, l: Expr, r: Expr, l': Expr, r': Expr)
    requires OnlyBlanked(ty, l, l') && OnlyBlanked(ty, r, r')
    ensures OnlyBlanked(ty, MakeLevel(ty, l, r), MakeLevel(ty, l', r'))
  {
    OperandsOfLevel(ty, l, r);
    OperandsOfLevel(ty, l', r');
  }

  lemma SharedBlanked(ty: Level, a: Expr, b: Expr, b': Expr)
    requires NothingShared(ty, a, b) && OnlyBlanked(ty, b, b')
    ensures NothingShared(ty, a, b')
  {
    forall x, y | x in Operands(ty, a) && y in Operands(ty, b') && ExprEq(x, y)
      ensures x == y && IsYn(x)
    {
      if y !in Operands(ty, b) { ConstEquals(x, y); }
    }
  }

  lemma BlankedShares(ty: Level, a: Expr, a': Expr, b: Expr)
    requires NothingShared(ty, a, b) && OnlyBlanked(ty, a, a')
    ensures NothingShared(ty, a', b)
  {
    forall x, y | x in Operands(ty, a') && y in Operands(ty, b) && ExprEq(x, y)
      ensures x == y && IsYn(x)
    {
      if x !in Operands(ty, a) { ConstEquals(x, y); }
    }
  }

  /** y and n are never removed. */
  lemma {:induction false} ConstStays(ty: Level, e: Expr, x: Expr)
    requires IsYn(x)
    ensures Pass(ty, e, x).1 == x
  {
    if OnLevel(ty, e) {
      ConstStays(ty, e.l, x);
      ConstStays(ty, e.r, x);
    }
  }

  /** An operand that the other side has among its operands is removed. */
  lemma {:induction false} LeafRemoved(ty: Level, e: Expr, b: Expr)
    requires !OnLevel(ty, b) && !IsYn(b) && exists x :: x in Operands(ty, e) && ExprEq(x, b)
    ensures Pass(ty, e, b).1 == Unit(ty)
  {
    if OnLevel(ty, e) {
      var x :| x in Operands(ty, e) && ExprEq(x, b);
      PassComplete(ty, e.l, b);
      var b' := Pass(ty, e.l, b).1;
      LeafBlanked(ty, e.l, b);
      if x in Operands(ty, e.l) { LeafRemoved(ty, e.l, b); }
      if b' == Unit(ty) { ConstStays(ty, e.r, b'); } else { LeafRemoved(ty, e.r, b); }
    }
  }

  lemma {:induction false} LeafBlanked(ty: Level, e: Expr, b: Expr)
    requires !OnLevel(ty, b)
    ensures Pass(ty, e, b).1 == b || Pass(ty, e, b).1 == Unit(ty)
  {
    if OnLevel(ty, e) {
      LeafBlanked(ty, e.l, b);
      LeafBlanked(ty, e.r, Pass(ty, e.l, b).1);
    }
  }

  lemma {:induction false} FirstBlanked(ty: Level, x: Expr, e: Expr)
    requires !OnLevel(ty, x)
    ensures Pass(ty, x, e).0 == x || Pass(ty, x, e).0 == Unit(ty)
    decreases e
  {
    if OnLevel(ty, e) {
      FirstBlanked(ty, x, e.l);
      FirstBlanked(ty, Pass(ty, x, e.l).0, e.r);
    }
  }

  lemma {:induction false} FirstRemoved(ty: Level, x: Expr, e: Expr)
    requires !OnLevel(ty, x) && !IsYn(x) && exists y :: y in Operands(ty, e) && ExprEq(x, y)
    ensures Pass(ty, x, e).0 == Unit(ty)
  {
    if OnLevel(ty, e) {
      var y :| y in Operands(ty, e) && ExprEq(x, y);
      FirstBlanked(ty, x, e.l);
      if y in Operands(ty, e.l) { FirstRemoved(ty, x, e.l); }
      var x' := Pass(ty, x, e.l).0;
      if x' == Unit(ty) { ConstPasses(ty, x', e.r); } else { FirstRemoved(ty, x, e.r); }
    }
  }

  /** An expression that stands among the operands of the other is removed altogether, on either side. */
  lemma SharedOperandRemoved(ty: Level, x: Expr, e: Expr)
    requires LevelOf(x).None? && !IsYn(x) && OnLevel(ty, e) && x in Operands(ty, e)
    ensures EliminateEq(x, e).0 == Unit(ty) && EliminateEq(e, x).1 == Unit(ty)
  {
    ExprEqReflexive(x);
    FirstRemoved(ty, x, e);
    LeafRemoved(ty, e, x);
    assert LevelOf(e) == Some(ty);
  }

  // ---- expr_eq accepts every expression against itself ----

  /** The operands of a level that are not y or n. */
  function Others(ty: Level, e: Expr): seq<Expr> {
    if OnLevel(ty, e) then Others(ty, e.l) + Others(ty, e.r) else if IsYn(e) then [] else [e]
  }

  /** The constant that decides a level: n under &&, y under ||. */
  function Zero(ty: Level): Expr { if ty == AndLevel then Sym(SYM_NO) else Sym(SYM_YES) }

  predicate HasZero(ty: Level, e: Expr) {
    if OnLevel(ty, e) then HasZero(ty, e.l) || HasZero(ty, e.r) else e == Zero(ty)
  }

  lemma OthersOfLevel(ty: Level, l: Expr, r: Expr)
    ensures Others(ty, MakeLevel(ty, l, r)) == Others(ty, l) + Others(ty, r)
    ensures HasZero(ty, MakeLevel(ty, l, r)) <==> HasZero(ty, l) || HasZero(ty, r)
  {
  }

  /** y and n are not removed, and remove nothing. */
  lemma {:induction false} ConstPasses(ty: Level, x: Expr, e: Expr)
    requires IsYn(x)
    ensures Pass(ty, x, e) == (x, e)
  {
    if OnLevel(ty, e) {
      ConstPasses(ty, x, e.l);
      ConstPasses(ty, x, e.r);
    }
  }

  /** An operand that equals no other is left alone. */
  lemma {:induction false} OperandStays(ty: Level, x: Expr, e: Expr)
    requires !OnLevel(ty, x) && !IsYn(x) && Others(ty, e) == []
    ensures Pass(ty, x, e) == (x, e)
  {
    if OnLevel(ty, e) {
      OperandStays(ty, x, e.l);
      OperandStays(ty, x, e.r);
    } else if ExprEq(x, e) {
      ConstEquals(x, e);
    }
  }

  /** An operand that equals the first of the others is removed together with it. */
  lemma {:induction false} OperandMeets(ty: Level, x: Expr, e: Expr)
    requires !OnLevel(ty, x) && !IsYn(x) && ExprEq(x, x) && Others(ty, e) != [] && Others(ty, e)[0] == x
    ensures var (a, b) := Pass(ty, x, e);
            a == Unit(ty) && Others(ty, b) == Others(ty, e)[1..] && (HasZero(ty, b) <==> HasZero(ty, e))
  {
    if OnLevel(ty, e) {
      if Others(ty, e.l) == [] {
        OperandStays(ty, x, e.l);
        OperandMeets(ty, x, e.r);
        OthersOfLevel(ty, e.l, Pass(ty, x, e.r).1);
      } else {
        OperandMeets(ty, x, e.l);
        ConstPasses(ty, Unit(ty), e.r);
        OthersOfLevel(ty, Pass(ty, x, e.l).1, e.r);
      }
    }
  }

  /** Operands that come in the same order are all removed from both sides. */
  lemma {:induction false} PassInOrder(ty: Level, e: Expr, t: Expr)
    requires Others(ty, e) <= Others(ty, t) && forall x :: x in Others(ty, e) ==> ExprEq(x, x)
    ensures var (a, b) := Pass(ty, e, t);
            && Others(ty, a) == [] && Others(ty, b) == Others(ty, t)[|Others(ty, e)|..]
            && (HasZero(ty, a) <==> HasZero(ty, e)) && (HasZero(ty, b) <==> HasZero(ty, t))
  {
    if OnLevel(ty, e) {
      var (l, t') := Pass(ty, e.l, t);
      var (r, t'') := Pass(ty, e.r, t');
      PassInOrder(ty, e.l, t);
      assert Others(ty, e.r) == Others(ty, e)[|Others(ty, e.l)|..] <= Others(ty, t');
      PassInOrder(ty, e.r, t');
      OthersOfLevel(ty, l, r);
    } else if IsYn(e) {
      ConstPasses(ty, e, t);
    } else {
      assert e in Others(ty, e);
      OperandMeets(ty, e, t);
    }
  }

  lemma {:induction false} PassKeepsLevel(ty: Level, e: Expr, t: Expr)
    requires OnLevel(ty, t)
    ensures OnLevel(ty, Pass(ty, e, t).1)
  {
    if OnLevel(ty, e) {
      PassKeepsLevel(ty, e.l, t);
      PassKeepsLevel(ty, e.r, Pass(ty, e.l, t).1);
    }
  }

  lemma {:induction false} NoOthers(ty: Level, e: Expr)
    requires Others(ty, e) == []
    ensures EliminateYn(e) == if HasZero(ty, e) then Zero(ty) else Unit(ty)
  {
    if OnLevel(ty, e) {
      NoOthers(ty, e.l);
      NoOthers(ty, e.r);
    }
  }

  lemma {:induction false} OthersSmaller(ty: Level, e: Expr)
    ensures forall x :: x in Others(ty, e) ==> Size(x) <= Size(e) && (OnLevel(ty, e) ==> Size(x) < Size(e))
  {
    if OnLevel(ty, e) {
      OthersSmaller(ty, e.l);
      OthersSmaller(ty, e.r);
    }
  }

  /** Every expression is equal to itself. */
  lemma {:induction false} ExprEqReflexive(e: Expr)
    ensures ExprEq(e, e)
    decreases Size(e)
  {
    match LevelOf(e)
    case None => if e.Not? { ExprEqReflexive(e.arg); }
    case Some(ty) =>
      OthersSmaller(ty, e);
      forall x | x in Others(ty, e)
        ensures ExprEq(x, x)
      {
        ExprEqReflexive(x);
      }
      PassInOrder(ty, e, e);
      var (a, b) := Pass(ty, e, e);
      NoOthers(ty, a);
      NoOthers(ty, b);
      PassKeepsLevel(ty, e, e);
      assert LevelOf(a) == Some(ty) && LevelOf(b) == Some(ty);
  }

  /** A symbol, its negation, or a comparison. */
  predicate Literal(e: Expr) { e.Sym? || e.Cmp? || (e.Not? && e.arg.Sym?) }

  lemma LiteralEq(x: Expr, y: Expr)
    requires Literal(x) && Literal(y)
    ensures ExprEq(x, y) <==> x == y
  {
  }

  /** What is left of an operand that was removed from both sides, unless it is y or n. */
  function Removed(ty: Level, x: Expr): Expr { if IsYn(x) then x else Unit(ty) }

  lemma LiteralPass(ty: Level, x: Expr, y: Expr)
    requires Literal(x) && Literal(y)
    ensures Pass(ty, x, y) == if x == y then (Removed(ty, x), Removed(ty, x)) else (x, y)
  {
    LiteralEq(x, y);
  }

  lemma SwapPass(ty: Level, a: Expr, b: Expr)
    requires Literal(a) && Literal(b) && a != b
    ensures Pass(ty, MakeLevel(ty, a, b), MakeLevel(ty, b, a)) ==
            (MakeLevel(ty, Removed(ty, a), Removed(ty, b)), MakeLevel(ty, Removed(ty, b), Removed(ty, a)))
  {
    var a', b' := Removed(ty, a), Removed(ty, b);
    LiteralPass(ty, a, b);
    LiteralPass(ty, a, a);
    LiteralPass(ty, b, b);
    LiteralPass(ty, b', a');
    assert Pass(ty, a, MakeLevel(ty, b, a)) == (a', MakeLevel(ty, b, a'));
    assert Pass(ty, b, MakeLevel(ty, b, a')) == (b', MakeLevel(ty, b', a'));
  }

  /** The order of two operands does not matter. */
  lemma ExprEqSwap(ty: Level, a: Expr, b: Expr)
    requires Literal(a) && Literal(b)
    ensures ExprEq(MakeLevel(ty, a, b), MakeLevel(ty, b, a))
  {
    if a == b { ExprEqReflexive(MakeLevel(ty, a, b)); } else { SwapPass(ty, a, b); }
  }

  // ---- expr_eliminate_dups ----

  predicate EitherWay(x: Expr, y: Expr, a: Expr, b: Expr) { (x == a && y == b) || (x == b && y == a) }

  /** Two different operands about the symbol s that one operand can replace. */
  predicate Listed(ty: Level, x: Expr, y: Expr, s: Symbol) {
    if ty == OrLevel then
      || (s.typ == STristate && EitherWay(x, y, Cmp(EqOp, s, SYM_YES), Cmp(EqOp, s, SYM_MOD)))
      || (s.typ == STristate && EitherWay(x, y, Cmp(EqOp, s, SYM_YES), Cmp(EqOp, s, SYM_NO)))
      || (s.typ == STristate && EitherWay(x, y, Cmp(EqOp, s, SYM_MOD), Cmp(EqOp, s, SYM_NO)))
      || (s.typ == SBoolean && EitherWay(x, y, Sym(s), Not(Sym(s))))
    else
      || (IsTriType(s.typ) && EitherWay(x, y, Sym(s), Cmp(EqOp, s, SYM_YES)))
      || (IsTriType(s.typ) && EitherWay(x, y, Sym(s), Cmp(NeOp, s, SYM_NO)))
      || (IsTriType(s.typ) && EitherWay(x, y, Sym(s), Cmp(NeOp, s, SYM_MOD)))
      || (s.typ == STristate && EitherWay(x, y, Cmp(NeOp, s, SYM_YES), Cmp(NeOp, s, SYM_NO)))
      || (s.typ == STristate && EitherWay(x, y, Cmp(NeOp, s, SYM_YES), Cmp(NeOp, s, SYM_MOD)))
      || (s.typ == STristate && EitherWay(x, y, Cmp(NeOp, s, SYM_MOD), Cmp(NeOp, s, SYM_NO)))
  }

  /** One constant is required of a tristate and another one, or the same, excluded. */
  predicate Contrast(x: Expr, y: Expr, s: Symbol, b: Symbol, c: Symbol) {
    s.typ == STristate && b.isConst && c.isConst && EitherWay(x, y, Cmp(EqOp, s, b), Cmp(NeOp, s, c))
  }

  /** Two operands of a level of which one is superfluous. */
  ghost predicate Redundant(ty: Level, x: Expr, y: Expr) {
    || x == y
    || (exists s :: Listed(ty, x, y, s))
    || (ty == AndLevel && exists s, b, c :: Contrast(x, y, s, b, c))
  }

  lemma ListedJoins(ty: Level, x: Expr, y: Expr, s: Symbol)
    requires Listed(ty, x, y, s)
    ensures Join(ty, x, y).Some?
  {
  }

  lemma ContrastJoins(x: Expr, y: Expr, s: Symbol, b: Symbol, c: Symbol)
    requires Contrast(x, y, s, b, c)
    ensures Join(AndLevel, x, y).Some?
  {
  }

  lemma RedundantJoins(ty: Level, x: Expr, y: Expr)
    requires Redundant(ty, x, y)
    ensures Join(ty, x, y).Some?
  {
    if x == y {
      ExprEqReflexive(x);
    } else if s :| Listed(ty, x, y, s) {
      ListedJoins(ty, x, y, s);
    } else {
      var s, b, c :| Contrast(x, y, s, b, c);
      ContrastJoins(x, y, s, b, c);
    }
  }

  /** No level, reachable through && and ||, has two operands at different places of which one is superfluous. */
  ghost predicate Lean(e: Expr)
    decreases Operators(e)
  {
    match LevelOf(e)
    case None => true
    case Some(ty) =>
      var s := Operands(ty, e);
      && (forall i, j :: 0 <= i < |s| && 0 <= j < |s| && i != j ==> !Redundant(ty, s[i], s[j]))
      && (forall x :: x in s ==> Lean(x))
  }

  lemma {:induction false} IrreducibleIsLean(e: Expr)
    requires Irreducible(e)
    ensures Lean(e)
    decreases Operators(e)
  {
    match LevelOf(e)
    case None =>
    case Some(ty) =>
      var s := Operands(ty, e);
      forall i, j | 0 <= i < |s| && 0 <= j < |s| && i != j
        ensures !Redundant(ty, s[i], s[j])
      {
        if Redundant(ty, s[i], s[j]) { RedundantJoins(ty, s[i], s[j]); }
      }
      forall x | x in s
        ensures Lean(x)
      {
        IrreducibleIsLean(x);
      }
  }

  /** After deduplication no operand stands twice on a level, and no listed pair on any. */
  lemma EliminateDupsLean(e: Expr)
    ensures Lean(EliminateDups(e))
  {
    EliminateDupsSettles(e);
    IrreducibleIsLean(EliminateDups(e));
  }

  // ---- what cannot be joined is left alone ----

  lemma {:induction false} LeafHasIndex(ty: Level, e: Expr, p: Path) returns (i: nat)
    requires IsLeaf(ShapeOf(ty, e), p)
    ensures i < |Operands(ty, e)| && PathOf(ty, e, i) == p
  {
    if OnLevel(ty, e) {
      if p[0] == ToLeft {
        i := LeafHasIndex(ty, e.l, p[1..]);
        assert p == [ToLeft] + p[1..];
      } else {
        var j := LeafHasIndex(ty, e.r, p[1..]);
        i := |Operands(ty, e.l)| + j;
        assert p == [ToRight] + p[1..];
      }
    } else {
      i := 0;
    }
  }

  lemma {:induction false} IrreduciblePass(ty: Level, t: Expr, p1: Path, p2: Path)
    requires OnLevel(ty, t) && Irreducible(t) && Has(ShapeOf(ty, t), p1) && Has(ShapeOf(ty, t), p2)
    ensures Pass1(ty, t, p1, p2) == (t, 0)
    decreases Operators(t), Nodes(At(ShapeOf(ty, t), p1)) + Nodes(At(ShapeOf(ty, t), p2))
  {
    var s := ShapeOf(ty, t);
    GetShape(ty, t, p1);
    GetShape(ty, t, p2);
    if OnLevel(ty, Get(t, p1)) {
      HasExtends(s, p1, ToLeft);
      HasExtends(s, p1, ToRight);
      IrreduciblePass(ty, t, p1 + [ToLeft], p2);
      IrreduciblePass(ty, t, p1 + [ToRight], p2);
    } else if OnLevel(ty, Get(t, p2)) {
      HasExtends(s, p2, ToLeft);
      HasExtends(s, p2, ToRight);
      IrreduciblePass(ty, t, p1, p2 + [ToLeft]);
      IrreduciblePass(ty, t, p1, p2 + [ToRight]);
    } else if p1 != p2 {
      var i := LeafHasIndex(ty, t, p1);
      var j := LeafHasIndex(ty, t, p2);
      var ops := Operands(ty, t);
      assert Get(t, p1) == ops[i] && Get(t, p2) == ops[j] && i != j;
      assert ops[i] in ops;
      IrreducibleIsQuiet(ops[i]);
      PutGet(t, p1);
    }
  }

  /** Two operands that are irreducible and do not join. */
  lemma PairIrreducible(ty: Level, a: Expr, b: Expr)
    requires !OnLevel(ty, a) && !OnLevel(ty, b) && Irreducible(a) && Irreducible(b)
    requires Join(ty, a, b).None? && Join(ty, b, a).None?
    ensures Irreducible(MakeLevel(ty, a, b))
  {
    var e := MakeLevel(ty, a, b);
    assert LevelOf(e) == Some(ty) && Operands(ty, e) == [a] + [b];
  }

  /** An irreducible expression goes through deduplication unchanged. */
  lemma {:induction false} IrreducibleIsQuiet(e: Expr)
    requires Irreducible(e)
    ensures Inner(e) == (e, 0) && EliminateDups(e) == e
    decreases Operators(e), 2 * Nodes(ShapeOf(AndLevel, e)) + 2 * Nodes(ShapeOf(OrLevel, e)) + 1
  {
    if LevelOf(e).Some? { IrreduciblePass(LevelOf(e).value, e, [], []); }
  }

  lemma JoinWithUnit(ty: Level, x: Expr)
    requires LevelOf(x).None?
    ensures Join(ty, x, Unit(ty)) == if x == Unit(ty) then Some(x) else None
  {
  }

  lemma TwoLeaves(ty: Level, x: Expr, y: Expr)
    requires LevelOf(x).None? && LevelOf(y).None?
    ensures var t, l, r := MakeLevel(ty, x, y), [ToLeft], [ToRight];
            && OnLevel(ty, t) && ShapeOf(ty, t) == Node(Leaf, Leaf)
            && IsLeaf(ShapeOf(ty, t), l) && IsLeaf(ShapeOf(ty, t), r)
            && ValidPath(t, l) && ValidPath(t, r) && Get(t, l) == x && Get(t, r) == y
            && (forall z :: Put(t, l, z) == MakeLevel(ty, z, y)) && (forall z :: Put(t, r, z) == MakeLevel(ty, x, z))
            && Pass1(ty, t, l, l) == (t, 0) && Pass1(ty, t, r, r) == (t, 0)
  {
    var l, r := [ToLeft], [ToRight];
    assert l[1..] == [] && r[1..] == [];
    assert Get(x, l[1..]) == x && Get(y, r[1..]) == y;
    assert forall z :: Put(x, l[1..], z) == z;
    assert forall z :: Put(y, r[1..], z) == z;
  }

  /** The two turns of a pass over x on both sides. */
  lemma DoublePass(ty: Level, x: Expr)
    requires LevelOf(x).None?
    ensures var t := MakeLevel(ty, x, x);
            Pass1(ty, t, [], []).0 == MakeLevel(ty, Unit(ty), x) && Pass1(ty, t, [], []).1 > 0
  {
    var t, t' := MakeLevel(ty, x, x), MakeLevel(ty, Unit(ty), x);
    var l, r := [ToLeft], [ToRight];
    TwoLeaves(ty, x, x);
    TwoLeaves(ty, Unit(ty), x);
    assert [] + l == l && [] + r == r;
    ExprEqReflexive(x);
    JoinWithUnit(ty, x);
    assert Pass1(ty, t, l, r) == (t', 1);
    assert Pass1(ty, t, l, []) == (t', 1);
    assert Pass1(ty, t', r, l).0 == t';
    assert Pass1(ty, t', r, []).0 == t';
  }

  /** An operand and itself: one of them is left. */
  lemma DoubleOperand(ty: Level, x: Expr)
    requires LevelOf(x).None?
    ensures EliminateDups(MakeLevel(ty, x, x)) == x
  {
    var t := MakeLevel(ty, x, x);
    DoublePass(ty, x);
    assert Inner(t) == Pass1(ty, t, [], []);
    assert EliminateYn(x) == x;
    assert EliminateYn(MakeLevel(ty, Unit(ty), x)) == x;
    assert EliminateDups(x) == x;
  }
}

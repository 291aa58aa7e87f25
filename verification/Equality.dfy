/**
 expr_eliminate_yn, expr_eliminate_eq and expr_eq: removal of operands common to two
 expressions, and the equality test built on it, as functions from a pair of trees to a pair.
 */
module Equality {
  import opened Tristates
  import opened Exprs

  // ---- expr_eliminate_yn ----

  function EliminateYn(e: Expr): Expr {
    match e
    case And(l, r) => AndYn(EliminateYn(l), EliminateYn(r))
    case Or(l, r) => OrYn(EliminateYn(l), EliminateYn(r))
    case _ => e
  }

  function AndYn(l: Expr, r: Expr): Expr {
    if l == Sym(SYM_NO) then Sym(SYM_NO)
    else if l == Sym(SYM_YES) then r
    else if r == Sym(SYM_NO) then Sym(SYM_NO)
    else if r == Sym(SYM_YES) then l
    else And(l, r)
  }

  function OrYn(l: Expr, r: Expr): Expr {
    if l == Sym(SYM_NO) then r
    else if l == Sym(SYM_YES) then Sym(SYM_YES)
    else if r == Sym(SYM_NO) then l
    else if r == Sym(SYM_YES) then Sym(SYM_YES)
    else Or(l, r)
  }

  lemma {:induction false} EliminateYnMeaning(e: Expr, v: Valuation)
    requires ConstsOk(v)
    ensures Eval(EliminateYn(e), v) == Eval(e, v)
  {
    match e
    case And(l, r) => EliminateYnMeaning(l, v); EliminateYnMeaning(r, v);
    case Or(l, r) => EliminateYnMeaning(l, v); EliminateYnMeaning(r, v);
    case _ =>
  }

  /** Number of && and || nodes reachable through && and || only. */
  function Operators(e: Expr): nat {
    match e
    case And(l, r) => 1 + Operators(l) + Operators(r)
    case Or(l, r) => 1 + Operators(l) + Operators(r)
    case _ => 0
  }

  /** Some && has a y operand or some || an n operand. */
  predicate HasUnit(e: Expr) {
    match e
    case And(l, r) => l == Sym(SYM_YES) || r == Sym(SYM_YES) || HasUnit(l) || HasUnit(r)
    case Or(l, r) => l == Sym(SYM_NO) || r == Sym(SYM_NO) || HasUnit(l) || HasUnit(r)
    case _ => false
  }

  lemma {:induction false} EliminateYnShrinks(e: Expr)
    ensures Operators(EliminateYn(e)) <= Operators(e)
    ensures HasUnit(e) ==> Operators(EliminateYn(e)) < Operators(e)
  {
    match e
    case And(l, r) => EliminateYnShrinks(l); EliminateYnShrinks(r);
    case Or(l, r) => EliminateYnShrinks(l); EliminateYnShrinks(r);
    case _ =>
  }

  /** No && or || (reachable through && and ||) has a y or n operand. */
  predicate YnFree(e: Expr) {
    match e
    case And(l, r) => !IsYn(l) && !IsYn(r) && YnFree(l) && YnFree(r)
    case Or(l, r) => !IsYn(l) && !IsYn(r) && YnFree(l) && YnFree(r)
    case _ => true
  }

  predicate IsYn(e: Expr) { e == Sym(SYM_YES) || e == Sym(SYM_NO) }

  /** No constant operand survives, and an expression without one is left alone. */
  lemma {:induction false} EliminateYnComplete(e: Expr)
    ensures YnFree(EliminateYn(e))
    ensures YnFree(e) ==> EliminateYn(e) == e
  {
    match e
    case And(l, r) => EliminateYnComplete(l); EliminateYnComplete(r);
    case Or(l, r) => EliminateYnComplete(l); EliminateYnComplete(r);
    case _ =>
  }

  // ---- levels ----

  datatype Level = AndLevel | OrLevel

  predicate OnLevel(ty: Level, e: Expr) {
    if ty == AndLevel then e.And? else e.Or?
  }

  /** The level operand that changes nothing: y under &&, n under ||. */
  function Unit(ty: Level): Expr {
    if ty == AndLevel then Sym(SYM_YES) else Sym(SYM_NO)
  }

  function LevelOp(ty: Level, a: Tristate, b: Tristate): Tristate {
    if ty == AndLevel then AndTri(a, b) else OrTri(a, b)
  }

  function MakeLevel(ty: Level, l: Expr, r: Expr): Expr {
    if ty == AndLevel then And(l, r) else Or(l, r)
  }

  // ---- __expr_eliminate_eq, expr_eliminate_eq, expr_eq ----

  function Pass(ty: Level, e1: Expr, e2: Expr): (r: (Expr, Expr))
    ensures Size(r.0) <= Size(e1) && Size(r.1) <= Size(e2)
    decreases Size(e1) + Size(e2), if OnLevel(ty, e1) || OnLevel(ty, e2) then 0 else 3
  {
    if OnLevel(ty, e1) then
      var (l, e2') := Pass(ty, e1.l, e2);
      var (r, e2'') := Pass(ty, e1.r, e2');
      (MakeLevel(ty, l, r), e2'')
    else if OnLevel(ty, e2) then
      var (e1', l) := Pass(ty, e1, e2.l);
      var (e1'', r) := Pass(ty, e1', e2.r);
      (e1'', MakeLevel(ty, l, r))
    else if e1 == e2 && IsYn(e1) then (e1, e2)
    else if !ExprEq(e1, e2) then (e1, e2)
    else (Unit(ty), Unit(ty))
  }

  function LevelOf(e: Expr): Option<Level> {
    if e.And? then Some(AndLevel) else if e.Or? then Some(OrLevel) else None
  }

  function EliminateEq(e1: Expr, e2: Expr): (r: (Expr, Expr))
    decreases Size(e1) + Size(e2), 1
  {
    var t1 := LevelOf(e1);
    var (a, b) := if t1.Some? then Pass(t1.value, e1, e2) else (e1, e2);
    var t2 := LevelOf(b);
    var (a', b') := if t2.Some? && LevelOf(a) != t2 then Pass(t2.value, a, b) else (a, b);
    (EliminateYn(a'), EliminateYn(b'))
  }

  predicate ExprEq(e1: Expr, e2: Expr)
    decreases Size(e1) + Size(e2), 2
  {
    match (e1, e2)
    case (Cmp(op1, l1, r1), Cmp(op2, l2, r2)) => op1 == op2 && l1 == l2 && r1 == r2
    case (Sym(s1), Sym(s2)) => s1 == s2
    case (Not(x1), Not(x2)) => ExprEq(x1, x2)
    case (And(_, _), And(_, _)) =>
      var (a, b) := EliminateEq(e1, e2); a.Sym? && b.Sym? && a.sym == b.sym
    case (Or(_, _), Or(_, _)) =>
      var (a, b) := EliminateEq(e1, e2); a.Sym? && b.Sym? && a.sym == b.sym
    case _ => false
  }

  // ---- one monotone map takes both results back to both inputs ----

  function Clamp(lo: Tristate, hi: Tristate, x: Tristate): Tristate {
    OrTri(lo, AndTri(hi, x))
  }

  /** `back` is a clamp that maps the values of a, b to the values of e1, e2. */
  datatype Back = Back(lo: Tristate, hi: Tristate)

  ghost predicate Reflects(c: Back, v: Valuation, a: Expr, b: Expr, e1: Expr, e2: Expr) {
    Eval(e1, v) == Clamp(c.lo, c.hi, Eval(a, v)) && Eval(e2, v) == Clamp(c.lo, c.hi, Eval(b, v))
  }

  lemma LevelOpRegroups(ty: Level, x1: Tristate, x2: Tristate, a: Tristate, b: Tristate)
    ensures LevelOp(ty, LevelOp(ty, x1, a), LevelOp(ty, x2, b)) ==
            LevelOp(ty, LevelOp(ty, x1, x2), LevelOp(ty, a, b))
    ensures LevelOp(ty, x1, LevelOp(ty, x2, b)) == LevelOp(ty, LevelOp(ty, x1, x2), b)
  {
  }

  lemma EvalLevel(ty: Level, e: Expr, v: Valuation)
    ensures OnLevel(ty, e) ==> Eval(e, v) == LevelOp(ty, Eval(e.l, v), Eval(e.r, v))
  {
  }

  /** A valuation sees a pass through its common operand `x`. */
  ghost predicate Shares(ty: Level, x: Tristate, v: Valuation, a: Expr, b: Expr, e1: Expr, e2: Expr) {
    Eval(e1, v) == LevelOp(ty, x, Eval(a, v)) && Eval(e2, v) == LevelOp(ty, x, Eval(b, v))
  }

  /**
   What one pass removes: both inputs are the results joined, on the level, with one
   common operand value.
   */
  lemma {:induction false} PassCommon(ty: Level, e1: Expr, e2: Expr, v: Valuation) returns (x: Tristate)
    requires ConstsOk(v)
    ensures var (a, b) := Pass(ty, e1, e2); Shares(ty, x, v, a, b, e1, e2)
    decreases Size(e1) + Size(e2), if OnLevel(ty, e1) || OnLevel(ty, e2) then 0 else 3
  {
    if OnLevel(ty, e1) {
      var (l, e2') := Pass(ty, e1.l, e2);
      var x1 := PassCommon(ty, e1.l, e2, v);
      var (r, e2'') := Pass(ty, e1.r, e2');
      var x2 := PassCommon(ty, e1.r, e2', v);
      x := LevelOp(ty, x1, x2);
      assert Pass(ty, e1, e2) == (MakeLevel(ty, l, r), e2'');
      EvalLevel(ty, e1, v);
      EvalLevel(ty, MakeLevel(ty, l, r), v);
      LevelOpRegroups(ty, x1, x2, Eval(l, v), Eval(r, v));
      LevelOpRegroups(ty, x1, x2, NO, Eval(e2'', v));
    } else if OnLevel(ty, e2) {
      var (e1', l) := Pass(ty, e1, e2.l);
      var x1 := PassCommon(ty, e1, e2.l, v);
      var (e1'', r) := Pass(ty, e1', e2.r);
      var x2 := PassCommon(ty, e1', e2.r, v);
      x := LevelOp(ty, x1, x2);
      assert Pass(ty, e1, e2) == (e1'', MakeLevel(ty, l, r));
      EvalLevel(ty, e2, v);
      EvalLevel(ty, MakeLevel(ty, l, r), v);
      LevelOpRegroups(ty, x1, x2, Eval(l, v), Eval(r, v));
      LevelOpRegroups(ty, x1, x2, NO, Eval(e1'', v));
    } else if (e1 == e2 && IsYn(e1)) || !ExprEq(e1, e2) {
      x := Eval(Unit(ty), v);
    } else {
      ExprEqSound(e1, e2, v);
      x := Eval(e1, v);
    }
  }

  lemma {:induction false} EliminateEqReflects(e1: Expr, e2: Expr, v: Valuation) returns (c: Back)
    requires ConstsOk(v)
    ensures var (a, b) := EliminateEq(e1, e2); Reflects(c, v, a, b, e1, e2)
    decreases Size(e1) + Size(e2), 1
  {
    var t1 := LevelOf(e1);
    var (a, b) := if t1.Some? then Pass(t1.value, e1, e2) else (e1, e2);
    var c1 := Back(NO, YES);
    if t1.Some? {
      var x1 := PassCommon(t1.value, e1, e2, v);
      c1 := BackOf(t1.value, x1);
      PassReflects(t1.value, x1, v, a, b, e1, e2);
    }
    var t2 := LevelOf(b);
    var second := t2.Some? && LevelOf(a) != t2;
    var (a', b') := if second then Pass(t2.value, a, b) else (a, b);
    var c2 := Back(NO, YES);
    if second {
      var x2 := PassCommon(t2.value, a, b, v);
      c2 := BackOf(t2.value, x2);
      PassReflects(t2.value, x2, v, a', b', a, b);
    }
    EliminateYnMeaning(a', v);
    EliminateYnMeaning(b', v);
    c := Compose(c1, c2);
    ComposeReflects(c1, c2, v, EliminateYn(a'), EliminateYn(b'), a, b, e1, e2);
  }

  lemma PassReflects(ty: Level, x: Tristate, v: Valuation, a: Expr, b: Expr, e1: Expr, e2: Expr)
    requires Shares(ty, x, v, a, b, e1, e2)
    ensures Reflects(BackOf(ty, x), v, a, b, e1, e2)
  {
  }

  function Compose(outer: Back, inner: Back): Back {
    Back(Clamp(outer.lo, outer.hi, inner.lo), Clamp(outer.lo, outer.hi, OrTri(inner.lo, inner.hi)))
  }

  lemma ComposeReflects(c1: Back, c2: Back, v: Valuation, a: Expr, b: Expr, m1: Expr, m2: Expr, e1: Expr, e2: Expr)
    requires Reflects(c2, v, a, b, m1, m2) && Reflects(c1, v, m1, m2, e1, e2)
    ensures Reflects(Compose(c1, c2), v, a, b, e1, e2)
  {
  }

  function BackOf(ty: Level, x: Tristate): Back {
    if ty == AndLevel then Back(NO, x) else Back(x, YES)
  }

  /** Expressions the equality test accepts have the same value in every valuation. */
  lemma {:induction false} ExprEqSound(e1: Expr, e2: Expr, v: Valuation)
    requires ConstsOk(v) && ExprEq(e1, e2)
    ensures Eval(e1, v) == Eval(e2, v)
    decreases Size(e1) + Size(e2), 2
  {
    if e1.Not? {
      ExprEqSound(e1.arg, e2.arg, v);
    } else if e1.And? || e1.Or? {
      var _ := EliminateEqReflects(e1, e2, v);
    }
  }
}

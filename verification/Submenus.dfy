/**
 The two tests by which menu_finalize nests an entry under the symbol before it:
 expr_depends_symbol, and the superset test built on expr_trans_compare,
 expr_transform, expr_eliminate_dups and expr_eliminate_eq.
 */
module Submenus {
  import opened Tristates
  import opened Exprs
  import opened Transforms
  import opened Equality
  import opened Joins
  import opened Dups
  import opened Redundancy
  import opened Dependencies
  import opened CheckDeps

  predicate ContainsSymbol(e: Expr, s: Symbol) {
    match e
    case And(l, r) => ContainsSymbol(l, s) || ContainsSymbol(r, s)
    case Or(l, r) => ContainsSymbol(l, s) || ContainsSymbol(r, s)
    case Sym(t) => t == s
    case Cmp(_, l, r) => l == s || r == s
    case Not(x) => ContainsSymbol(x, s)
  }

  predicate DependsSymbol(e: Expr, s: Symbol) {
    match e
    case And(l, r) => DependsSymbol(l, s) || DependsSymbol(r, s)
    case Sym(t) => t == s
    case Cmp(op, l, r) =>
      l == s && ((op == EqOp && (r == SYM_YES || r == SYM_MOD)) || (op == NeOp && r == SYM_NO))
    case _ => false
  }

  /** An expression that depends on a bool or tristate symbol is n whenever the symbol is. */
  lemma {:induction false} DependsSound(e: Expr, s: Symbol, v: Valuation)
    requires WellTyped(v) && IsTriType(s.typ) && DependsSymbol(e, s) && Eval(e, v) != NO
    ensures v(s).tri != NO
  {
    match e
    case And(l, r) => if DependsSymbol(l, s) { DependsSound(l, s, v); } else { DependsSound(r, s, v); }
    case Cmp(op, l, r) => CompareWithConst(s, TriOf(r), v);
    case _ =>
  }

  /** What makes an operand of && an absolute dependency on s. */
  predicate Demands(x: Expr, s: Symbol) {
    x == Sym(s) || x == Cmp(EqOp, s, SYM_YES) || x == Cmp(EqOp, s, SYM_MOD) || x == Cmp(NeOp, s, SYM_NO)
  }

  /** An expression depends on s exactly if one of its && operands is s, s=y, s=m or s!=n. */
  lemma {:induction false} DependsExact(e: Expr, s: Symbol)
    ensures DependsSymbol(e, s) <==> exists x :: x in Operands(AndLevel, e) && Demands(x, s)
  {
    match e
    case And(l, r) =>
      DependsExact(l, s);
      DependsExact(r, s);
      assert Operands(AndLevel, e) == Operands(AndLevel, l) + Operands(AndLevel, r);
    case _ => assert Operands(AndLevel, e) == [e] && e in [e];
  }

  /** An expression contains exactly the symbols it mentions. */
  lemma {:induction false} ContainsExact(e: Expr, s: Symbol)
    ensures ContainsSymbol(e, s) <==> s in Mentions(e)
  {
    match e
    case And(l, r) => ContainsExact(l, s); ContainsExact(r, s);
    case Or(l, r) => ContainsExact(l, s); ContainsExact(r, s);
    case Not(x) => ContainsExact(x, s);
    case _ =>
  }

  lemma {:induction false} DependsContains(e: Expr, s: Symbol)
    requires DependsSymbol(e, s)
    ensures ContainsSymbol(e, s)
  {
    match e
    case And(l, r) => if DependsSymbol(l, s) { DependsContains(l, s); } else { DependsContains(r, s); }
    case _ =>
  }

  // ---- expr_trans_compare ----

  /** Inserts comparisons by = or != with a tristate constant; for m the code leaves && and || as they are. */
  function TransCompare(e: Expr, op: CmpOp, target: Tristate): Expr
    requires op == EqOp || op == NeOp
  {
    match e
    case And(l, r) =>
      var x := if target == YES then And(TransCompare(l, EqOp, target), TransCompare(r, EqOp, target))
               else if target == NO then Or(TransCompare(l, EqOp, target), TransCompare(r, EqOp, target))
               else e;
      if op == NeOp then Not(x) else x
    case Or(l, r) =>
      var x := if target == YES then Or(TransCompare(l, EqOp, target), TransCompare(r, EqOp, target))
               else if target == NO then And(TransCompare(l, EqOp, target), TransCompare(r, EqOp, target))
               else e;
      if op == NeOp then Not(x) else x
    case Not(x) => TransCompare(x, Negate(op), target)
    case Cmp(_, _, _) =>
      if target == MOD then (if op == EqOp then Sym(SYM_NO) else Sym(SYM_YES))
      else if (op == EqOp) == (target == YES) then e
      else Not(e)
    case Sym(s) => Cmp(op, s, ConstOf(target))
  }

  /** The absent expression is y: comparing it gives the constant or its negation. */
  function TransCompareOpt(e: Option<Expr>, op: CmpOp, target: Tristate): Expr
    requires op == EqOp || op == NeOp
  {
    if e.Some? then TransCompare(e.value, op, target)
    else if op == NeOp then Not(Sym(ConstOf(target))) else Sym(ConstOf(target))
  }

  /** Every symbol used as a value is bool, tristate or one of y, m, n. */
  predicate TriLeaves(e: Expr) {
    match e
    case Sym(s) => IsTriType(s.typ) || IsTriConst(s)
    case Not(x) => TriLeaves(x)
    case And(l, r) => TriLeaves(l) && TriLeaves(r)
    case Or(l, r) => TriLeaves(l) && TriLeaves(r)
    case Cmp(_, _, _) => true
  }

  /** Is `e` not n, reading `!` as two-valued negation? */
  ghost predicate NonN(e: Expr, v: Valuation) {
    match e
    case Sym(s) => v(s).tri != NO
    case Not(x) => !NonN(x, v)
    case And(l, r) => NonN(l, v) && NonN(r, v)
    case Or(l, r) => NonN(l, v) || NonN(r, v)
    case Cmp(op, l, r) => CmpHolds(op, l, r, v)
  }

  /** Is `e` y, reading `!` as two-valued negation? */
  ghost predicate IsY(e: Expr, v: Valuation) {
    match e
    case Sym(s) => v(s).tri == YES
    case Not(x) => !IsY(x, v)
    case And(l, r) => IsY(l, v) && IsY(r, v)
    case Or(l, r) => IsY(l, v) || IsY(r, v)
    case Cmp(op, l, r) => CmpHolds(op, l, r, v)
  }

  lemma TextsCompare(a: Tristate, b: Tristate)
    ensures Compare(EqOp, Render(a), SUnknown, Render(b), SUnknown) <==> a == b
    ensures Compare(NeOp, Render(a), SUnknown, Render(b), SUnknown) <==> a != b
  {
    TriConstIsText(a);
    CStrings.StrCmpZero(Render(a), Render(b));
  }

  lemma ConstsCompare(s: Symbol, t: Tristate, v: Valuation)
    requires WellTyped(v) && IsTriConst(s)
    ensures CmpHolds(EqOp, s, ConstOf(t), v) <==> v(s).tri == t
    ensures CmpHolds(NeOp, s, ConstOf(t), v) <==> v(s).tri != t
  {
    assert v(ConstOf(t)).str == Render(t) && v(s).str == Render(TriOf(s)) && v(s).tri == TriOf(s);
    TextsCompare(TriOf(s), t);
  }

  lemma ConstCompare(s: Symbol, t: Tristate, v: Valuation)
    requires WellTyped(v) && (IsTriType(s.typ) || IsTriConst(s))
    ensures CmpHolds(EqOp, s, ConstOf(t), v) <==> v(s).tri == t
    ensures CmpHolds(NeOp, s, ConstOf(t), v) <==> v(s).tri != t
  {
    if IsTriType(s.typ) { CompareWithConst(s, t, v); } else { ConstsCompare(s, t, v); }
  }

  lemma {:induction false} TransCompareNo(e: Expr, op: CmpOp, v: Valuation)
    requires WellTyped(v) && TriLeaves(e) && (op == EqOp || op == NeOp)
    ensures Eval(TransCompare(e, op, NO), v) == FromBool((op == NeOp) == NonN(e, v))
  {
    match e
    case And(l, r) => TransCompareNo(l, EqOp, v); TransCompareNo(r, EqOp, v);
    case Or(l, r) => TransCompareNo(l, EqOp, v); TransCompareNo(r, EqOp, v);
    case Not(x) => TransCompareNo(x, Negate(op), v);
    case Sym(s) => ConstCompare(s, NO, v);
    case Cmp(_, _, _) =>
  }

  lemma {:induction false} TransCompareYes(e: Expr, op: CmpOp, v: Valuation)
    requires WellTyped(v) && TriLeaves(e) && (op == EqOp || op == NeOp)
    ensures Eval(TransCompare(e, op, YES), v) == FromBool((op == EqOp) == IsY(e, v))
  {
    match e
    case And(l, r) => TransCompareYes(l, EqOp, v); TransCompareYes(r, EqOp, v);
    case Or(l, r) => TransCompareYes(l, EqOp, v); TransCompareYes(r, EqOp, v);
    case Not(x) => TransCompareYes(x, Negate(op), v);
    case Sym(s) => ConstCompare(s, YES, v);
    case Cmp(_, _, _) =>
  }

  /** What the inserted comparisons compute, exactly, in every well-typed valuation. */
  lemma TransCompareMeaning(e: Expr, op: CmpOp, v: Valuation)
    requires WellTyped(v) && TriLeaves(e) && (op == EqOp || op == NeOp)
    ensures Eval(TransCompare(e, op, NO), v) == FromBool((op == NeOp) == NonN(e, v))
    ensures Eval(TransCompare(e, op, YES), v) == FromBool((op == EqOp) == IsY(e, v))
  {
    TransCompareNo(e, op, v);
    TransCompareYes(e, op, v);
  }

  /** Does the comparison of e with m that is inserted for = say whether e is m? */
  predicate TestsForMod(e: Expr, v: Valuation) {
    Eval(TransCompare(e, EqOp, MOD), v) == FromBool(Eval(e, v) == MOD)
  }

  /**
   For the target m the code is right on symbols and comparisons, on && and || exactly if they are n,
   and on a negated symbol never.
   */
  lemma TransCompareMod(e: Expr, v: Valuation)
    requires WellTyped(v) && TriLeaves(e)
    ensures e.Sym? || e.Cmp? ==> TestsForMod(e, v)
    ensures e.And? || e.Or? ==> (TestsForMod(e, v) <==> Eval(e, v) == NO)
    ensures e.Not? && e.arg.Sym? ==> !TestsForMod(e, v)
  {
    match e
    case Sym(s) => ConstCompare(s, MOD, v);
    case Not(x) =>
      if x.Sym? {
        ConstCompare(x.sym, MOD, v);
        assert Eval(x, v) == v(x.sym).tri && TransCompare(e, EqOp, MOD) == Cmp(NeOp, x.sym, SYM_MOD);
      }
    case _ =>
  }

  /**
   A condition that is not n only because of negated symbols at m: `!A` with A at m, an && with
   such an operand, an || all of whose operands that are not n are such.
   */
  predicate Misread(e: Expr, v: Valuation) {
    match e
    case And(l, r) => Misread(l, v) || Misread(r, v)
    case Or(l, r) => (Eval(l, v) != NO ==> Misread(l, v)) && (Eval(r, v) != NO ==> Misread(r, v))
    case Not(x) => x.Sym? && v(x.sym).tri == MOD
    case _ => false
  }

  /** A finalised condition is read as not n exactly if it is not n, and not only so because of negated symbols at m. */
  lemma {:induction false} ReadingMeaning(e: Expr, v: Valuation)
    requires WellTyped(v) && Clean(e)
    ensures NonN(e, v) <==> Eval(e, v) != NO && !Misread(e, v)
  {
    match e
    case And(l, r) => ReadingMeaning(l, v); ReadingMeaning(r, v);
    case Or(l, r) => ReadingMeaning(l, v); ReadingMeaning(r, v);
    case Not(x) => assert Eval(x, v) == v(x.sym).tri && (NonN(x, v) <==> v(x.sym).tri != NO);
    case _ =>
  }

  /**
   For a negated symbol the two readings agree exactly if the symbol is not at m; at m `!A` is m but
   its test A=n is n.
   */
  lemma NegatedReading(a: Symbol, v: Valuation)
    requires WellTyped(v) && (IsTriType(a.typ) || IsTriConst(a))
    ensures (Eval(TransCompare(Not(Sym(a)), NeOp, NO), v) != NO <==> Eval(Not(Sym(a)), v) != NO) <==> v(a).tri != MOD
    ensures v(a).tri == MOD ==>
              Eval(Not(Sym(a)), v) == MOD && Eval(TransCompare(Not(Sym(a)), NeOp, NO), v) == NO
  {
    assert Eval(Sym(a), v) == v(a).tri;
    ConstCompare(a, NO, v);
  }

  // ---- the superset test ----

  /** The form in which two conditions are compared. */
  function TestForm(e: Option<Expr>): Expr {
    EliminateDups(Transform(TransCompareOpt(e, NeOp, NO)))
  }

  /** `dep` is nested under a symbol whose prompt condition is `base`. */
  predicate Superset(dep: Option<Expr>, base: Option<Expr>) {
    EliminateEq(TestForm(dep), TestForm(base)).1 == Sym(SYM_YES)
  }

  lemma {:induction false} TransCompareKeeps(e: Expr, op: CmpOp)
    requires (op == EqOp || op == NeOp) && Admissible(e)
    ensures Admissible(TransCompare(e, op, NO))
  {
    match e
    case And(l, r) => TransCompareKeeps(l, EqOp); TransCompareKeeps(r, EqOp);
    case Or(l, r) => TransCompareKeeps(l, EqOp); TransCompareKeeps(r, EqOp);
    case Not(x) => TransCompareKeeps(x, Negate(op));
    case _ =>
  }

  ghost predicate NonNOpt(e: Option<Expr>, v: Valuation) { e.Some? ==> NonN(e.value, v) }

  predicate Testable(e: Option<Expr>) { e.Some? ==> Admissible(e.value) && TriLeaves(e.value) }

  lemma TestFormMeaning(e: Option<Expr>, v: Valuation)
    requires WellTyped(v) && Testable(e)
    ensures Eval(TestForm(e), v) == FromBool(NonNOpt(e, v))
  {
    var x := TransCompareOpt(e, NeOp, NO);
    if e.Some? {
      TransCompareMeaning(e.value, NeOp, v);
      TransCompareKeeps(e.value, NeOp);
    } else {
      assert Eval(Sym(SYM_NO), v) == NO;
    }
    TransformMeaning(x, v);
    TransformTests(x);
    EliminateDupsMeaning(Transform(x), v);
  }

  /** An accepted superset is an implication in every well-typed valuation, two-valued or not. */
  lemma SupersetImplies(dep: Option<Expr>, base: Option<Expr>, v: Valuation)
    requires WellTyped(v) && Testable(dep) && Testable(base) && Superset(dep, base)
    ensures NonNOpt(dep, v) ==> NonNOpt(base, v)
  {
    TestFormMeaning(dep, v);
    TestFormMeaning(base, v);
    var (a, b) := EliminateEq(TestForm(dep), TestForm(base));
    var c := EliminateEqReflects(TestForm(dep), TestForm(base), v);
    assert Eval(a, v) <= YES == Eval(b, v);
  }

  /** Would the entry with condition `dep` be put into the submenu of `s`, whose prompt condition is `base`? */
  predicate Nested(dep: Option<Expr>, s: Symbol, base: Option<Expr>) {
    dep.Some? && ContainsSymbol(dep.value, s) && (DependsSymbol(dep.value, s) || Superset(dep, base))
  }

  /** An entry one of whose && operands demands s is nested under s, whatever the prompt of s needs. */
  lemma DemandNests(dep: Expr, s: Symbol, base: Option<Expr>, x: Expr)
    requires x in Operands(AndLevel, dep) && Demands(x, s)
    ensures Nested(Some(dep), s, base)
  {
    DependsExact(dep, s);
    DependsContains(dep, s);
  }

  /**
   Automatic submenus are sound: an entry nested under s is available only when s is not n, or
   when the prompt of s itself is available.  The first holds in every configuration, the
   second in every one in which the entry is not available only because of negated symbols at m.
   */
  lemma NestedSound(dep: Option<Expr>, s: Symbol, base: Option<Expr>, v: Valuation)
    requires WellTyped(v) && IsTriType(s.typ) && Nested(dep, s, base)
    requires DependsSymbol(dep.value, s) || !Misread(dep.value, v)
    requires CleanOpt(dep) && CleanOpt(base) && TriLeaves(dep.value) && (base.Some? ==> TriLeaves(base.value))
    requires EvalOpt(dep, v) != NO
    ensures if DependsSymbol(dep.value, s) then v(s).tri != NO else EvalOpt(base, v) != NO
  {
    if DependsSymbol(dep.value, s) {
      DependsSound(dep.value, s, v);
    } else {
      CleanIsAdmissible(dep.value);
      if base.Some? { CleanIsAdmissible(base.value); }
      SupersetImplies(dep, base, v);
      ReadingMeaning(dep.value, v);
      if base.Some? { ReadingMeaning(base.value, v); }
    }
  }

  // ---- a superset ----

  /** A base whose test form is one of the && operands of the entry's test form is accepted. */
  lemma SupersetOfOperand(dep: Option<Expr>, base: Option<Expr>)
    requires var a, b := TestForm(dep), TestForm(base);
             a.And? && LevelOf(b).None? && !IsYn(b) && b in Operands(AndLevel, a)
    ensures Superset(dep, base)
  {
    var a, b := TestForm(dep), TestForm(base);
    ExprEqReflexive(b);
    LeafRemoved(AndLevel, a, b);
  }

  /** The test forms of symbols and of S || Q. */
  lemma BoolForms(s: Symbol, q: Symbol, r: Symbol)
    requires s.typ == SBoolean && q.typ == SBoolean && r.typ == SBoolean && s != q
    ensures TestForm(Some(Sym(r))) == Sym(r)
    ensures TestForm(Some(And(Or(Sym(s), Sym(q)), Sym(r)))) == And(Or(Sym(s), Sym(q)), Sym(r))
  {
    assert Transform(Cmp(NeOp, r, SYM_NO)) == Sym(r);
    var e := And(Or(Sym(s), Sym(q)), Sym(r));
    BoolTransforms(s, q, r);
    LiteralEq(Sym(s), Sym(q));
    LiteralEq(Sym(q), Sym(s));
    assert Irreducible(Sym(s)) && Irreducible(Sym(q)) && Irreducible(Sym(r));
    PairIrreducible(OrLevel, Sym(s), Sym(q));
    PairIrreducible(AndLevel, e.l, Sym(r));
    IrreducibleIsQuiet(e);
  }

  lemma BoolTransforms(s: Symbol, q: Symbol, r: Symbol)
    requires s.typ == SBoolean && q.typ == SBoolean && r.typ == SBoolean
    ensures var e := And(Or(Sym(s), Sym(q)), Sym(r)); Transform(TransCompare(e, NeOp, NO)) == e
  {
    var e := And(Or(Sym(s), Sym(q)), Sym(r));
    var x, y, z := Cmp(EqOp, s, SYM_NO), Cmp(EqOp, q, SYM_NO), Cmp(EqOp, r, SYM_NO);
    assert TransCompare(Or(Sym(s), Sym(q)), EqOp, NO) == And(x, y);
    assert TransCompare(e, NeOp, NO) == Not(Or(And(x, y), z));
    var inner := And(Not(Sym(s)), Not(Sym(q)));
    assert Transform(x) == Not(Sym(s)) && Transform(y) == Not(Sym(q)) && Transform(z) == Not(Sym(r));
    assert Transform(And(x, y)) == inner;
    assert Transform(Or(And(x, y), z)) == Or(inner, Not(Sym(r)));
    DoubleNegation(s);
    DoubleNegation(q);
    DoubleNegation(r);
    assert Transform(inner) == inner;
    assert Transform(Or(Not(Not(Sym(s))), Not(Not(Sym(q))))) == Or(Sym(s), Sym(q));
    assert Transform(Not(inner)) == Or(Sym(s), Sym(q));
    assert Transform(And(Not(inner), Not(Not(Sym(r))))) == e;
  }

  lemma DoubleNegation(s: Symbol)
    requires s.typ == SBoolean
    ensures Transform(Not(Not(Sym(s)))) == Sym(s)
  {
    assert Transform(Sym(s)) == Sym(s) && Transform(Not(Sym(s))) == Not(Sym(s));
  }

  /** The superset the test is made for: an entry under (S || Q) && R is nested under S, whose prompt needs R. */
  lemma SupersetNests(s: Symbol, q: Symbol, r: Symbol)
    requires s.typ == SBoolean && q.typ == SBoolean && r.typ == SBoolean && s != q
    ensures Nested(Some(And(Or(Sym(s), Sym(q)), Sym(r))), s, Some(Sym(r)))
  {
    BoolForms(s, q, r);
    var e := And(Or(Sym(s), Sym(q)), Sym(r));
    assert Operands(AndLevel, e) == [e.l, Sym(r)];
    SupersetOfOperand(Some(e), Some(Sym(r)));
    assert ContainsSymbol(e.l, s) && ContainsSymbol(e, s);
  }

  // ---- symbols without a prompt ----

  /** A symbol without a prompt has the base y: every entry that mentions it is nested under it. */
  lemma BareSymbolTakesAll(dep: Option<Expr>, s: Symbol)
    ensures Nested(dep, s, None) <==> dep.Some? && ContainsSymbol(dep.value, s)
  {
    var e, y := TestForm(dep), Sym(SYM_YES);
    assert Transform(Sym(SYM_NO)) == Sym(SYM_NO);
    assert TestForm(None) == y;
    if LevelOf(e).Some? { ConstStays(LevelOf(e).value, e, y); }
    assert EliminateEq(e, y).1 == y;
  }

  // ---- a negated symbol at m ----

  /** Two operands that do not join are left alone. */
  lemma TwoOperands(a: Expr, b: Expr)
    requires LevelOf(a).None? && LevelOf(b).None? && JoinAnd(a, b).None? && JoinAnd(b, a).None?
    ensures EliminateDups(And(a, b)) == And(a, b)
  {
    PairIrreducible(AndLevel, a, b);
    IrreducibleIsQuiet(And(a, b));
  }

  lemma NegatedTest(op: CmpOp, s: Symbol, c: Symbol)
    requires s.typ == STristate
    ensures Transform(Cmp(op, s, c)) == Cmp(op, s, c) && Transform(Not(Cmp(op, s, c))) == Cmp(Negate(op), s, c)
  {
  }

  /** What the superset test compares for S!=m && !T. */
  lemma ExampleForm(s: Symbol, t: Symbol)
    requires s.typ == STristate && t.typ == STristate && s != t
    ensures TestForm(Some(And(Cmp(NeOp, s, SYM_MOD), Not(Sym(t))))) == And(Cmp(NeOp, s, SYM_MOD), Cmp(EqOp, t, SYM_NO))
  {
    var a, b := Cmp(NeOp, s, SYM_MOD), Cmp(EqOp, t, SYM_NO);
    var x := TransCompare(And(a, Not(Sym(t))), NeOp, NO);
    assert TransCompare(Not(Sym(t)), EqOp, NO) == TransCompare(Sym(t), NeOp, NO) == Cmp(NeOp, t, SYM_NO);
    assert TransCompare(a, EqOp, NO) == Not(a);
    assert x == Not(Or(Not(a), Cmp(NeOp, t, SYM_NO)));
    NegatedTest(NeOp, s, SYM_MOD);
    NegatedTest(EqOp, s, SYM_MOD);
    NegatedTest(NeOp, t, SYM_NO);
    assert Transform(Or(Not(a), Cmp(NeOp, t, SYM_NO))) == Or(Cmp(EqOp, s, SYM_MOD), Cmp(NeOp, t, SYM_NO));
    assert Transform(x) == And(a, b);
    TwoOperands(a, b);
  }

  /**
   Misread entries exist: an entry under S!=m && !T is nested under S, whose
   prompt needs T=n; with S at n and T at m the entry is available, S is n and its prompt is not available.
   */
  lemma NestedMisread(s: Symbol, t: Symbol, v: Valuation)
    requires WellTyped(v) && s.typ == STristate && t.typ == STristate && v(s).tri == NO && v(t).tri == MOD
    ensures var dep, base := And(Cmp(NeOp, s, SYM_MOD), Not(Sym(t))), Cmp(EqOp, t, SYM_NO);
            && Nested(Some(dep), s, Some(base)) && !DependsSymbol(dep, s)
            && Eval(dep, v) != NO && Eval(base, v) == NO
  {
    var dep, base := And(Cmp(NeOp, s, SYM_MOD), Not(Sym(t))), Cmp(EqOp, t, SYM_NO);
    ExampleForm(s, t);
    assert TestForm(Some(base)) == base;
    var a := Cmp(NeOp, s, SYM_MOD);
    assert Pass(AndLevel, a, base) == (a, base);
    assert Pass(AndLevel, base, base) == (Sym(SYM_YES), Sym(SYM_YES));
    assert Pass(AndLevel, And(a, base), base) == (And(a, Sym(SYM_YES)), Sym(SYM_YES));
    CompareWithConst(s, MOD, v);
    CompareWithConst(t, NO, v);
    assert Eval(Sym(t), v) == MOD;
    assert Eval(Not(Sym(t)), v) == MOD && Eval(a, v) == YES;
  }
}

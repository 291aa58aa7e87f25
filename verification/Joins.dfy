/** expr_join_or and expr_join_and: merging two operands of one || or && level. */
module Joins {
  import opened Tristates
  import opened Exprs
  import opened Equality

  /** The symbol a joinable first operand speaks of: a symbol, =, != or the negation of one of them. */
  function FirstSymbol(e: Expr): Option<Symbol> {
    match e
    case Sym(s) => Some(s)
    case Cmp(op, l, _) => if IsOrdering(op) then None else Some(l)
    case Not(Sym(s)) => Some(s)
    case Not(Cmp(op, l, _)) => if IsOrdering(op) then None else Some(l)
    case _ => None
  }

  /** As FirstSymbol, but the second operand may be the negation of a symbol only. */
  function SecondSymbol(e: Expr): Option<Symbol> {
    match e
    case Sym(s) => Some(s)
    case Cmp(op, l, _) => if IsOrdering(op) then None else Some(l)
    case Not(Sym(s)) => Some(s)
    case _ => None
  }

  /** The bool or tristate symbol both operands speak of, if there is one. */
  function CommonSymbol(e1: Expr, e2: Expr): Option<Symbol> {
    var s1, s2 := FirstSymbol(e1), SecondSymbol(e2);
    if s1.Some? && s1 == s2 && IsTriType(s1.value.typ) then s1 else None
  }

  predicate Is(e: Expr, op: CmpOp, right: Symbol) {
    e.Cmp? && e.op == op && e.right == right
  }

  /** One operand compares by `op` with `a`, the other with `b`. */
  predicate Pair(e1: Expr, e2: Expr, op: CmpOp, a: Symbol, b: Symbol) {
    (Is(e1, op, a) && Is(e2, op, b)) || (Is(e1, op, b) && Is(e2, op, a))
  }

  /** One operand is the plain symbol, the other compares by `op` with `a`. */
  predicate SymbolAnd(e1: Expr, e2: Expr, op: CmpOp, a: Symbol) {
    (e1.Sym? && Is(e2, op, a)) || (e2.Sym? && Is(e1, op, a))
  }

  function JoinOr(e1: Expr, e2: Expr): Option<Expr> {
    if ExprEq(e1, e2) then Some(e1)
    else
      var common := CommonSymbol(e1, e2);
      if common.None? then None
      else
        var s := common.value;
        if s.typ == STristate && Pair(e1, e2, EqOp, SYM_YES, SYM_MOD) then Some(Cmp(NeOp, s, SYM_NO))
        else if s.typ == STristate && Pair(e1, e2, EqOp, SYM_YES, SYM_NO) then Some(Cmp(NeOp, s, SYM_MOD))
        else if s.typ == STristate && Pair(e1, e2, EqOp, SYM_MOD, SYM_NO) then Some(Cmp(NeOp, s, SYM_YES))
        else if s.typ == SBoolean && ((e1 == Not(Sym(s)) && e2.Sym?) || (e2 == Not(Sym(s)) && e1.Sym?)) then
          Some(Sym(SYM_YES))
        else None
  }

  /** (a='b') && (a!='c') for constants b and c. */
  function JoinEqNe(s: Symbol, eq: Symbol, ne: Symbol): Expr {
    if eq != ne then Cmp(EqOp, s, eq) else Sym(SYM_NO)
  }

  function JoinAnd(e1: Expr, e2: Expr): Option<Expr> {
    if ExprEq(e1, e2) then Some(e1)
    else
      var common := CommonSymbol(e1, e2);
      if common.None? then None
      else
        var s := common.value;
        if SymbolAnd(e1, e2, EqOp, SYM_YES) then Some(Cmp(EqOp, s, SYM_YES))
        else if SymbolAnd(e1, e2, NeOp, SYM_NO) then Some(Sym(s))
        else if SymbolAnd(e1, e2, NeOp, SYM_MOD) then Some(Cmp(EqOp, s, SYM_YES))
        else if s.typ != STristate then None
        else if IsEqNe(e1, e2) then Some(JoinEqNe(s, e1.right, e2.right))
        else if IsEqNe(e2, e1) then Some(JoinEqNe(s, e2.right, e1.right))
        else if Pair(e1, e2, NeOp, SYM_YES, SYM_NO) then Some(Cmp(EqOp, s, SYM_MOD))
        else if Pair(e1, e2, NeOp, SYM_YES, SYM_MOD) then Some(Cmp(EqOp, s, SYM_NO))
        else if Pair(e1, e2, NeOp, SYM_MOD, SYM_NO) then Some(Cmp(EqOp, s, SYM_YES))
        else None
  }

  /** `eq` is a = and `ne` a != test, both against constants. */
  predicate IsEqNe(eq: Expr, ne: Expr) {
    eq.Cmp? && eq.op == EqOp && ne.Cmp? && ne.op == NeOp && eq.right.isConst && ne.right.isConst
  }

  function Join(ty: Level, e1: Expr, e2: Expr): Option<Expr> {
    if ty == AndLevel then JoinAnd(e1, e2) else JoinOr(e1, e2)
  }

  /** The tristate value a constant text equals, as a number: the number it reads as, or the place of n, m or y. */
  function RankOf(text: string): Option<int> {
    match ParseString(text, SUnknown)
    case Signed(n) => Some(n)
    case _ => if TriRank(text) >= 0 then Some(TriRank(text)) else None
  }

  /** A constant a tristate may be tested against: y, m, n, or a text that is none of the three values. */
  predicate TestConst(c: Symbol) {
    IsTriConst(c) || (IsConstant(c) && !(RankOf(c.name).Some? && 0 <= RankOf(c.name).value <= 2))
  }

  /** Every constant a tristate is tested against by = or != is y, m, n or no tristate value at all. */
  predicate TriTests(e: Expr) {
    match e
    case Sym(_) => true
    case Not(x) => TriTests(x)
    case And(l, r) => TriTests(l) && TriTests(r)
    case Or(l, r) => TriTests(l) && TriTests(r)
    case Cmp(op, l, r) => !IsOrdering(op) && l.typ == STristate && r.isConst ==> TestConst(r)
  }

  function TriOf(c: Symbol): Tristate
    requires IsTriConst(c)
    ensures ConstOf(TriOf(c)) == c
  {
    if c == SYM_NO then NO else if c == SYM_MOD then MOD else YES
  }

  // ---- the value of a simple operand as a function of its symbol's value ----

  /** `e` is a symbol, its negation, or a test of it against y, m or n. */
  predicate Simple(e: Expr, s: Symbol) {
    match e
    case Sym(t) => t == s
    case Not(Sym(t)) => t == s
    case Cmp(op, l, r) => l == s && !IsOrdering(op) && IsTriConst(r)
    case _ => false
  }

  function Worth(e: Expr, t: Tristate): Tristate {
    match e
    case Sym(_) => t
    case Not(_) => NotTri(t)
    case Cmp(op, _, r) => FromBool((op == EqOp) == (ConstOf(t) == r))
    case _ => NO
  }

  lemma EvalSimple(e: Expr, s: Symbol, v: Valuation)
    requires WellTyped(v) && IsTriType(s.typ) && Simple(e, s)
    ensures Eval(e, v) == Worth(e, v(s).tri)
  {
    match e
    case Not(x) => assert Eval(x, v) == v(s).tri;
    case Cmp(op, l, r) => CompareWithConst(s, TriOf(r), v);
    case _ =>
  }

  predicate Possible(s: Symbol, t: Tristate) { s.typ == SBoolean ==> t != MOD }

  lemma JoinOrWorth(e1: Expr, e2: Expr, t: Tristate)
    requires JoinOr(e1, e2).Some? && !ExprEq(e1, e2) && Possible(CommonSymbol(e1, e2).value, t)
    ensures var s := CommonSymbol(e1, e2).value;
            Simple(e1, s) && Simple(e2, s) && (JoinOr(e1, e2).value == Sym(SYM_YES) || Simple(JoinOr(e1, e2).value, s))
    ensures var j := JoinOr(e1, e2).value;
            (if j == Sym(SYM_YES) then YES else Worth(j, t)) == OrTri(Worth(e1, t), Worth(e2, t))
  {
  }

  /** A merged pair is worth what the two operands of the || were. */
  lemma JoinOrMeaning(e1: Expr, e2: Expr, v: Valuation)
    requires WellTyped(v) && JoinOr(e1, e2).Some?
    ensures Eval(JoinOr(e1, e2).value, v) == OrTri(Eval(e1, v), Eval(e2, v))
  {
    if ExprEq(e1, e2) {
      ExprEqSound(e1, e2, v);
    } else {
      var s, j := CommonSymbol(e1, e2).value, JoinOr(e1, e2).value;
      JoinOrWorth(e1, e2, v(s).tri);
      EvalSimple(e1, s, v);
      EvalSimple(e2, s, v);
      if j != Sym(SYM_YES) { EvalSimple(j, s, v); }
    }
  }

  /** Is the merge of s = b && s != c right in v? */
  ghost predicate MergeRight(s: Symbol, b: Symbol, c: Symbol, v: Valuation) {
    Eval(JoinEqNe(s, b, c), v) == AndTri(Eval(Cmp(EqOp, s, b), v), Eval(Cmp(NeOp, s, c), v))
  }

  /** In one valuation the merge of different constants goes wrong exactly if s equals both. */
  lemma JoinEqNeMeaning(s: Symbol, b: Symbol, c: Symbol, v: Valuation)
    requires ConstsOk(v)
    ensures MergeRight(s, b, c, v) <==> b == c || !(CmpHolds(EqOp, s, b, v) && CmpHolds(EqOp, s, c, v))
  {
    NegatedComparison(EqOp, s, b, v);
    NegatedComparison(EqOp, s, c, v);
  }

  lemma EqualsAtRank(s: Symbol, c: Symbol, v: Valuation)
    requires WellTyped(v) && IsTriType(s.typ) && c.typ == SUnknown
    ensures CmpHolds(EqOp, s, c, v) <==> RankOf(v(c).str) == Some(v(s).tri)
  {
    CStrings.StrCmpZero(v(s).str, v(c).str);
  }

  /** A valuation in which s has the value t, and every other symbol but y and m is n. */
  function ValuationWith(s: Symbol, t: Tristate): Valuation {
    x => if x == s then Value(t, Render(t))
         else if IsTriConst(x) then Value(TriOf(x), Render(TriOf(x)))
         else Value(NO, if IsTriType(x.typ) then "n" else x.name)
  }

  lemma WithIsWellTyped(s: Symbol, t: Tristate)
    requires s.typ == STristate
    ensures WellTyped(ValuationWith(s, t))
  {
  }

  /** Both constants equal the tristate at the same one of its three values. */
  predicate SameRank(b: Symbol, c: Symbol) {
    RankOf(b.name) == RankOf(c.name) && RankOf(b.name).Some? && 0 <= RankOf(b.name).value <= 2
  }

  /**
   Merging s = b && s != c is right in every well-typed valuation exactly if b and c are the
   same constant or do not stand for the same tristate value.
   */
  lemma JoinEqNeExact(s: Symbol, b: Symbol, c: Symbol)
    requires s.typ == STristate && IsConstant(b) && IsConstant(c)
    ensures (forall v: Valuation :: WellTyped(v) ==> MergeRight(s, b, c, v)) <==> b == c || !SameRank(b, c)
  {
    forall v: Valuation | WellTyped(v)
      ensures MergeRight(s, b, c, v) <==> b == c || !(RankOf(b.name) == RankOf(c.name) == Some(v(s).tri))
    {
      EqualsAtRank(s, b, v);
      EqualsAtRank(s, c, v);
      JoinEqNeMeaning(s, b, c, v);
    }
    if SameRank(b, c) {
      var v := ValuationWith(s, RankOf(b.name).value);
      WithIsWellTyped(s, RankOf(b.name).value);
      assert v(s).tri == RankOf(b.name).value;
    }
  }

  predicate JoinsEqNe(e1: Expr, e2: Expr) {
    IsEqNe(e1, e2) || IsEqNe(e2, e1)
  }

  lemma JoinAndWorth(e1: Expr, e2: Expr, t: Tristate)
    requires JoinAnd(e1, e2).Some? && !ExprEq(e1, e2) && Possible(CommonSymbol(e1, e2).value, t)
    requires !JoinsEqNe(e1, e2)
    ensures var s := CommonSymbol(e1, e2).value;
            Simple(e1, s) && Simple(e2, s) && Simple(JoinAnd(e1, e2).value, s)
    ensures Worth(JoinAnd(e1, e2).value, t) == AndTri(Worth(e1, t), Worth(e2, t))
  {
  }

  /** A merged pair is worth what the two operands of the && were. */
  lemma JoinAndMeaning(e1: Expr, e2: Expr, v: Valuation)
    requires WellTyped(v) && TriTests(e1) && TriTests(e2) && JoinAnd(e1, e2).Some?
    ensures Eval(JoinAnd(e1, e2).value, v) == AndTri(Eval(e1, v), Eval(e2, v))
  {
    if ExprEq(e1, e2) {
      ExprEqSound(e1, e2, v);
    } else {
      var s, j := CommonSymbol(e1, e2).value, JoinAnd(e1, e2).value;
      if JoinsEqNe(e1, e2) {
        var eq, ne := if IsEqNe(e1, e2) then e1 else e2, if IsEqNe(e1, e2) then e2 else e1;
        assert j == JoinEqNe(s, eq.right, ne.right) && eq.left == s && ne.left == s;
        JoinEqNeOnTristate(s, eq.right, ne.right, v);
      } else {
        JoinAndWorth(e1, e2, v(s).tri);
        EvalSimple(e1, s, v);
        EvalSimple(e2, s, v);
        EvalSimple(j, s, v);
      }
    }
  }

  lemma JoinEqNeOnTristate(s: Symbol, b: Symbol, c: Symbol, v: Valuation)
    requires WellTyped(v) && s.typ == STristate && TestConst(b) && TestConst(c)
    ensures MergeRight(s, b, c, v)
  {
    JoinEqNeMeaning(s, b, c, v);
    EqualsAtRank(s, b, v);
    EqualsAtRank(s, c, v);
    if IsTriConst(b) && IsTriConst(c) {
      CompareWithConst(s, TriOf(b), v);
      CompareWithConst(s, TriOf(c), v);
    }
  }

  /**
   Different constants for the same value exist: "2" and "0x2" both compare equal to a tristate
   that is y, so a="2" && a!="0x2" is n but is merged into a="2", which is y.
   */
  lemma JoinAndNeedsTriConsts(a: Symbol, v: Valuation)
    requires a.typ == STristate && v(a) == Value(YES, "y") && WellTyped(v)
    ensures var e1 := Cmp(EqOp, a, Symbol("2", SUnknown, true));
            var e2 := Cmp(NeOp, a, Symbol("0x2", SUnknown, true));
            && JoinAnd(e1, e2) == Some(e1)
            && Eval(e1, v) == YES && AndTri(Eval(e1, v), Eval(e2, v)) == NO
  {
    TwoTwice();
    var two, hex := Symbol("2", SUnknown, true), Symbol("0x2", SUnknown, true);
    EqualsAtRank(a, two, v);
    EqualsAtRank(a, hex, v);
    NegatedComparison(EqOp, a, hex, v);
    assert v(two).str == "2" && v(hex).str == "0x2";
  }

  lemma TwoTwice()
    ensures RankOf("2") == Some(2) && RankOf("0x2") == Some(2)
  {
    assert CStrings.SkipSpace("2", 0) == 0 && CStrings.SkipSpace("0x2", 0) == 0;
    assert CStrings.Digits("2", 0, 10, 0) == (2, 1);
    assert CStrings.HexPrefixAt("0x2", 0);
    assert CStrings.Digits("0x2", 2, 16, 0) == (2, 3);
  }

  lemma JoinMeaning(ty: Level, e1: Expr, e2: Expr, v: Valuation)
    requires WellTyped(v) && TriTests(e1) && TriTests(e2) && Join(ty, e1, e2).Some?
    ensures Eval(Join(ty, e1, e2).value, v) == LevelOp(ty, Eval(e1, v), Eval(e2, v))
  {
    if ty == AndLevel { JoinAndMeaning(e1, e2, v); } else { JoinOrMeaning(e1, e2, v); }
  }

  lemma JoinKeepsTests(ty: Level, e1: Expr, e2: Expr)
    requires TriTests(e1) && TriTests(e2) && Join(ty, e1, e2).Some?
    ensures TriTests(Join(ty, e1, e2).value)
  {
  }

  /** A merge never has more operators than its operands, nor the operator of the level it joins. */
  lemma JoinShrinks(ty: Level, e1: Expr, e2: Expr)
    requires Join(ty, e1, e2).Some? && !OnLevel(ty, e1)
    ensures Operators(Join(ty, e1, e2).value) <= Operators(e1)
    ensures !OnLevel(ty, Join(ty, e1, e2).value)
  {
  }
}

/** expr_transform: pushes `!` to the symbols and removes comparisons of bools with y, m and n. */
module Transforms {
  import opened Tristates
  import opened Exprs

  /** The weight that every rewriting step lowers. */
  function Weight(e: Expr): (n: nat)
    ensures n >= 1
  {
    match e
    case Sym(_) => 1
    case Cmp(_, _, _) => 3
    case Not(x) => 2 * Weight(x)
    case And(l, r) => Weight(l) + Weight(r) + 1
    case Or(l, r) => Weight(l) + Weight(r) + 1
  }

  lemma DeMorganWeight(a: Expr, b: Expr)
    ensures Weight(And(Not(a), Not(b))) < Weight(Not(Or(a, b)))
    ensures Weight(Or(Not(a), Not(b))) < Weight(Not(And(a, b)))
  {
    assert Weight(Not(a)) == 2 * Weight(a) && Weight(Not(b)) == 2 * Weight(b);
  }

  /** A bool compared with y, m or n is the symbol, its negation or a constant. */
  function TransformCmp(op: CmpOp, l: Symbol, r: Symbol): Expr {
    if op == EqOp && l.typ == SBoolean then
      if r == SYM_NO then Not(Sym(l))
      else if r == SYM_MOD then Sym(SYM_NO)
      else if r == SYM_YES then Sym(l)
      else Cmp(op, l, r)
    else if op == NeOp && l.typ == SBoolean then
      if r == SYM_NO then Sym(l)
      else if r == SYM_MOD then Sym(SYM_YES)
      else if r == SYM_YES then Not(Sym(l))
      else Cmp(op, l, r)
    else Cmp(op, l, r)
  }

  /** The negation of a symbol, y, m or n without a `!` on a constant. */
  function NotSymbol(s: Symbol): Expr {
    if s == SYM_YES then Sym(SYM_NO)
    else if s == SYM_MOD then Sym(SYM_MOD)
    else if s == SYM_NO then Sym(SYM_YES)
    else Not(Sym(s))
  }

  function Transform(e: Expr): (t: Expr)
    ensures Weight(t) <= Weight(e)
    decreases Weight(e)
  {
    match e
    case Sym(_) => e
    case Cmp(op, l, r) => TransformCmp(op, l, r)
    case And(l, r) => And(Transform(l), Transform(r))
    case Or(l, r) => Or(Transform(l), Transform(r))
    case Not(x) =>
      match Transform(x)
      case Not(y) => Transform(y)
      case Cmp(op, l, r) => Cmp(Negate(op), l, r)
      case Or(a, b) => DeMorganWeight(a, b); Transform(And(Not(a), Not(b)))
      case And(a, b) => DeMorganWeight(a, b); Transform(Or(Not(a), Not(b)))
      case Sym(s) => NotSymbol(s)
  }

  function TransformOpt(e: Option<Expr>): Option<Expr> {
    if e.Some? then Some(Transform(e.value)) else None
  }

  /** `!` stands only on a symbol other than y, m, n; no bool is compared by = or != with y, m, n. */
  predicate Normal(e: Expr) {
    match e
    case Sym(_) => true
    case Not(x) => x.Sym? && !IsTriConst(x.sym)
    case And(l, r) => Normal(l) && Normal(r)
    case Or(l, r) => Normal(l) && Normal(r)
    case Cmp(op, l, r) => NormalCmp(op, l, r)
  }

  predicate NormalCmp(op: CmpOp, l: Symbol, r: Symbol) {
    !IsOrdering(op) && l.typ == SBoolean ==> !IsTriConst(r)
  }

  lemma {:induction false} TransformNormal(e: Expr)
    ensures Normal(Transform(e))
    decreases Weight(e)
  {
    match e
    case Sym(_) =>
    case Cmp(_, _, _) =>
    case And(l, r) => TransformNormal(l); TransformNormal(r);
    case Or(l, r) => TransformNormal(l); TransformNormal(r);
    case Not(x) =>
      TransformNormal(x);
      match Transform(x)
      case Not(y) => TransformNormal(y);
      case Or(a, b) => DeMorganWeight(a, b); TransformNormal(And(Not(a), Not(b)));
      case And(a, b) => DeMorganWeight(a, b); TransformNormal(Or(Not(a), Not(b)));
      case _ =>
  }

  lemma {:induction false} TransformFixesNormal(e: Expr)
    requires Normal(e)
    ensures Transform(e) == e
  {
    match e
    case Sym(_) =>
    case Cmp(_, _, _) =>
    case Not(x) => assert Transform(x) == x;
    case And(l, r) => TransformFixesNormal(l); TransformFixesNormal(r);
    case Or(l, r) => TransformFixesNormal(l); TransformFixesNormal(r);
  }

  /** Transforming twice changes nothing more. */
  lemma TransformIdempotent(e: Expr)
    ensures Transform(Transform(e)) == Transform(e)
  {
    TransformNormal(e);
    TransformFixesNormal(Transform(e));
  }

  lemma {:induction false} TransformComparable(e: Expr)
    requires Comparable(e)
    ensures Comparable(Transform(e))
    decreases Weight(e)
  {
    match e
    case Sym(_) =>
    case Cmp(_, _, _) =>
    case And(l, r) => TransformComparable(l); TransformComparable(r);
    case Or(l, r) => TransformComparable(l); TransformComparable(r);
    case Not(x) =>
      TransformComparable(x);
      match Transform(x)
      case Not(y) => TransformComparable(y);
      case Or(a, b) => DeMorganWeight(a, b); TransformComparable(And(Not(a), Not(b)));
      case And(a, b) => DeMorganWeight(a, b); TransformComparable(Or(Not(a), Not(b)));
      case _ =>
  }

  // ---- meaning ----

  /**
   The value of `e`, or of its negation: `!` is pushed down to the symbols and comparisons.
   It differs from evaluation only where an undefined ordering is negated.
   */
  function Reads(e: Expr, negated: bool, v: Valuation): Tristate {
    match e
    case Sym(s) => if negated then NotTri(v(s).tri) else v(s).tri
    case Not(x) => Reads(x, !negated, v)
    case And(l, r) =>
      if negated then OrTri(Reads(l, true, v), Reads(r, true, v)) else AndTri(Reads(l, false, v), Reads(r, false, v))
    case Or(l, r) =>
      if negated then AndTri(Reads(l, true, v), Reads(r, true, v)) else OrTri(Reads(l, false, v), Reads(r, false, v))
    case Cmp(op, l, r) => FromBool(CmpHolds(if negated then Negate(op) else op, l, r, v))
  }

  lemma TransformCmpReads(op: CmpOp, l: Symbol, r: Symbol, negated: bool, v: Valuation)
    requires WellTyped(v)
    ensures Reads(TransformCmp(op, l, r), negated, v) == Reads(Cmp(op, l, r), negated, v)
  {
    if l.typ == SBoolean && !IsOrdering(op) && IsTriConst(r) {
      var t := if r == SYM_NO then NO else if r == SYM_MOD then MOD else YES;
      CompareWithConst(l, t, v);
      assert v(l).tri != MOD;
    }
  }

  lemma {:induction false} TransformReads(e: Expr, negated: bool, v: Valuation)
    requires WellTyped(v)
    ensures Reads(Transform(e), negated, v) == Reads(e, negated, v)
    decreases Weight(e), 1
  {
    match e
    case Sym(_) =>
    case Cmp(op, l, r) => TransformCmpReads(op, l, r, negated, v);
    case And(l, r) => TransformReads(l, negated, v); TransformReads(r, negated, v);
    case Or(l, r) => TransformReads(l, negated, v); TransformReads(r, negated, v);
    case Not(x) => TransformReads(x, !negated, v); TransformNotReads(x, negated, v);
  }

  lemma DeMorganReads(a: Expr, b: Expr, negated: bool, v: Valuation)
    ensures Reads(And(Not(a), Not(b)), negated, v) == Reads(Or(a, b), !negated, v)
    ensures Reads(Or(Not(a), Not(b)), negated, v) == Reads(And(a, b), !negated, v)
  {
    assert Reads(Not(a), negated, v) == Reads(a, !negated, v) && Reads(Not(b), negated, v) == Reads(b, !negated, v);
  }

  lemma NotSymbolReads(s: Symbol, negated: bool, v: Valuation)
    requires ConstsOk(v)
    ensures Reads(NotSymbol(s), negated, v) == Reads(Sym(s), !negated, v)
  {
  }

  lemma NegatedReads(op: CmpOp, l: Symbol, r: Symbol, negated: bool, v: Valuation)
    ensures Reads(Cmp(Negate(op), l, r), negated, v) == Reads(Cmp(op, l, r), !negated, v)
  {
    assert Negate(Negate(op)) == op;
  }

  lemma {:induction false} TransformNotReads(x: Expr, negated: bool, v: Valuation)
    requires WellTyped(v)
    ensures Reads(Transform(Not(x)), negated, v) == Reads(Transform(x), !negated, v)
    decreases Weight(Not(x)), 0
  {
    match Transform(x)
    case Not(y) => TransformReads(y, negated, v);
    case Cmp(op, l, r) => NegatedReads(op, l, r, negated, v);
    case Or(a, b) => DeMorganWeight(a, b); DeMorganReads(a, b, negated, v);
      TransformReads(And(Not(a), Not(b)), negated, v);
    case And(a, b) => DeMorganWeight(a, b); DeMorganReads(a, b, negated, v);
      TransformReads(Or(Not(a), Not(b)), negated, v);
    case Sym(s) => NotSymbolReads(s, negated, v);
  }

  lemma {:induction false} NormalReads(e: Expr, v: Valuation)
    requires Normal(e)
    ensures Reads(e, false, v) == Eval(e, v)
  {
    match e
    case And(l, r) => NormalReads(l, v); NormalReads(r, v);
    case Or(l, r) => NormalReads(l, v); NormalReads(r, v);
    case Not(x) => assert Eval(x, v) == v(x.sym).tri;
    case _ =>
  }

  /** What the transformation makes of every expression, with undefined orderings or without. */
  lemma TransformExact(e: Expr, v: Valuation)
    requires WellTyped(v)
    ensures Eval(Transform(e), v) == Reads(e, false, v)
  {
    TransformReads(e, false, v);
    TransformNormal(e);
    NormalReads(Transform(e), v);
  }

  /** No undefined ordering stands below an odd number of negations. */
  predicate Ordered(e: Expr, negated: bool, v: Valuation) {
    match e
    case Sym(_) => true
    case Not(x) => Ordered(x, !negated, v)
    case And(l, r) => Ordered(l, negated, v) && Ordered(r, negated, v)
    case Or(l, r) => Ordered(l, negated, v) && Ordered(r, negated, v)
    case Cmp(op, l, r) => negated ==> !Undefined(op, l, r, v)
  }

  /** Pushing `!` down never raises a value. */
  lemma {:induction false} ReadsBelow(e: Expr, negated: bool, v: Valuation)
    ensures Reads(e, negated, v) <= if negated then NotTri(Eval(e, v)) else Eval(e, v)
  {
    match e
    case Sym(_) =>
    case Not(x) => ReadsBelow(x, !negated, v);
    case And(l, r) => ReadsBelow(l, negated, v); ReadsBelow(r, negated, v);
    case Or(l, r) => ReadsBelow(l, negated, v); ReadsBelow(r, negated, v);
    case Cmp(op, l, r) => NegatedComparison(op, l, r, v);
  }

  /** It keeps the value where no undefined ordering is negated. */
  lemma {:induction false} ReadsMeaning(e: Expr, negated: bool, v: Valuation)
    requires Ordered(e, negated, v)
    ensures Reads(e, negated, v) == if negated then NotTri(Eval(e, v)) else Eval(e, v)
  {
    match e
    case Sym(_) =>
    case Not(x) => ReadsMeaning(x, !negated, v);
    case And(l, r) => ReadsMeaning(l, negated, v); ReadsMeaning(r, negated, v);
    case Or(l, r) => ReadsMeaning(l, negated, v); ReadsMeaning(r, negated, v);
    case Cmp(op, l, r) => NegatedComparison(op, l, r, v);
  }

  /**
   The transformation never raises the value of an expression, and keeps it in every
   valuation in which no undefined ordering stands below an odd number of negations.
   */
  lemma TransformOrdered(e: Expr, v: Valuation)
    requires WellTyped(v)
    ensures Eval(Transform(e), v) <= Eval(e, v)
    ensures Ordered(e, false, v) ==> Eval(Transform(e), v) == Eval(e, v)
  {
    TransformExact(e, v);
    ReadsBelow(e, false, v);
    if Ordered(e, false, v) { ReadsMeaning(e, false, v); }
  }

  lemma {:induction false} ComparableIsOrdered(e: Expr, negated: bool, v: Valuation)
    requires Comparable(e)
    ensures Ordered(e, negated, v)
  {
    match e
    case Sym(_) =>
    case Not(x) => ComparableIsOrdered(x, !negated, v);
    case And(l, r) => ComparableIsOrdered(l, negated, v); ComparableIsOrdered(r, negated, v);
    case Or(l, r) => ComparableIsOrdered(l, negated, v); ComparableIsOrdered(r, negated, v);
    case Cmp(op, l, r) => UndefinedMeaning(op, l, r, v);
  }

  /** The transformation keeps the value of every expression without operands of the "other" type in orderings. */
  lemma TransformMeaning(e: Expr, v: Valuation)
    requires WellTyped(v) && Comparable(e)
    ensures Eval(Transform(e), v) == Eval(e, v)
  {
    TransformOrdered(e, v);
    ComparableIsOrdered(e, false, v);
  }

  /** A negated comparison keeps its value exactly when it is not an undefined ordering; then it falls from y to n. */
  lemma TransformNegated(op: CmpOp, l: Symbol, r: Symbol, v: Valuation)
    requires WellTyped(v)
    ensures var e := Not(Cmp(op, l, r));
            && (Eval(Transform(e), v) == Eval(e, v) <==> !Undefined(op, l, r, v))
            && (Undefined(op, l, r, v) ==> Eval(e, v) == YES && Eval(Transform(e), v) == NO)
  {
    var e := Not(Cmp(op, l, r));
    TransformExact(e, v);
    NegatedComparison(op, l, r, v);
    assert Eval(Cmp(op, l, r), v) == FromBool(CmpHolds(op, l, r, v));
    assert Reads(e, false, v) == FromBool(CmpHolds(Negate(op), l, r, v));
  }

  /** The undefined orderings exist: with two operands of the "other" type `!(a < b)` is y before and n after. */
  lemma TransformNeedsOrder(a: Symbol, b: Symbol, v: Valuation)
    requires WellTyped(v) && a.typ == SOther && b.typ == SOther
    ensures Eval(Not(Cmp(LtOp, a, b)), v) == YES
    ensures Eval(Transform(Not(Cmp(LtOp, a, b))), v) == NO
  {
    UndefinedMeaning(LtOp, a, b, v);
    TransformNegated(LtOp, a, b, v);
  }
}

/**
 Symbols, dependency expressions and their meaning (expr.h, expr.c).

 A symbol is identified by its name and constness, as the symbol table does, and
 carries its declared type.  An expression is the tree of struct expr nodes; the
 absent (NULL) expression appears only where an Option says so.
 */
module Exprs {
  import opened Tristates
  import opened CStrings

  datatype SymType = SUnknown | SBoolean | STristate | SInt | SHex | SString | SOther

  datatype Symbol = Symbol(name: string, typ: SymType, isConst: bool)

  const SYM_YES := Symbol("y", SUnknown, true)
  const SYM_MOD := Symbol("m", SUnknown, true)
  const SYM_NO := Symbol("n", SUnknown, true)

  /** The constant symbol of a tristate value. */
  function ConstOf(t: Tristate): Symbol {
    if t == NO then SYM_NO else if t == MOD then SYM_MOD else SYM_YES
  }

  predicate IsTriConst(s: Symbol) { s == SYM_YES || s == SYM_MOD || s == SYM_NO }

  predicate IsTriType(t: SymType) { t == SBoolean || t == STristate }

  datatype CmpOp = EqOp | NeOp | LtOp | LeOp | GtOp | GeOp

  datatype Expr =
    | Sym(sym: Symbol)
    | Not(arg: Expr)
    | And(l: Expr, r: Expr)
    | Or(l: Expr, r: Expr)
    | Cmp(op: CmpOp, left: Symbol, right: Symbol)

  /** What a symbol currently holds: its tristate value and its string value. */
  datatype Value = Value(tri: Tristate, str: string)

  type Valuation = Symbol -> Value

  // ---- comparisons ----

  datatype Parsed = Text | Signed(s: int) | Unsigned(u: nat) | Invalid

  /** How a string value of a symbol of type `typ` takes part in a comparison. */
  function ParseString(str: string, typ: SymType): Parsed {
    match typ
    case SBoolean => Signed(TriRank(str))
    case STristate => Signed(TriRank(str))
    case SInt => ParseSigned(str, 10)
    case SHex =>
      var c := StrToULL(str, 16);
      if WholeNumber(str, c) then Unsigned(c.value) else Text
    case SString => ParseSigned(str, 0)
    case SUnknown => ParseSigned(str, 0)
    case SOther => Invalid
  }

  function TriRank(str: string): int {
    if str == "n" then 0 else if str == "m" then 1 else if str == "y" then 2 else -1
  }

  predicate WholeNumber(str: string, c: Conversion) {
    !c.overflow && c.end == |str| && c.end > 0 && IsXDigit(str[c.end - 1])
  }

  function ParseSigned(str: string, base: nat): Parsed
    requires base in {0, 10}
  {
    var c := StrToLL(str, base);
    if WholeNumber(str, c) then Signed(c.value) else Text
  }

  function AsUnsigned(p: Parsed): int
    requires p.Signed? || p.Unsigned?
  {
    if p.Signed? then p.s % ULLONG_RANGE else p.u
  }

  function Sign3(a: int, b: int): int {
    if a > b then 1 else if a < b then -1 else 0
  }

  /** The sign of a comparison; None when the operands have no order. */
  function CompareSign(s1: string, t1: SymType, s2: string, t2: SymType): Option<int> {
    var strings := t1 == SString && t2 == SString;
    var k1 := if strings then Text else ParseString(s1, t1);
    var k2 := if strings then Text else ParseString(s2, t2);
    if k1.Text? || k2.Text? then Some(StrCmp(s1, s2))
    else if k1.Invalid? || k2.Invalid? then None
    else if k1.Unsigned? || k2.Unsigned? then Some(Sign3(AsUnsigned(k1), AsUnsigned(k2)))
    else Some(Sign3(k1.s, k2.s))
  }

  predicate Holds(op: CmpOp, sign: int) {
    match op
    case EqOp => sign == 0
    case NeOp => sign != 0
    case LtOp => sign < 0
    case LeOp => sign <= 0
    case GtOp => sign > 0
    case GeOp => sign >= 0
  }

  predicate Compare(op: CmpOp, s1: string, t1: SymType, s2: string, t2: SymType) {
    match CompareSign(s1, t1, s2, t2)
    case Some(sign) => Holds(op, sign)
    case None => (op == EqOp || op == NeOp) && Holds(op, StrCmp(s1, s2))
  }

  predicate CmpHolds(op: CmpOp, l: Symbol, r: Symbol, v: Valuation) {
    Compare(op, v(l).str, l.typ, v(r).str, r.typ)
  }

  /** expr_calc_value: the value of `e` when every symbol holds its value in `v`. */
  function Eval(e: Expr, v: Valuation): Tristate {
    match e
    case Sym(s) => v(s).tri
    case Not(x) => NotTri(Eval(x, v))
    case And(l, r) => AndTri(Eval(l, v), Eval(r, v))
    case Or(l, r) => OrTri(Eval(l, v), Eval(r, v))
    case Cmp(op, l, r) => FromBool(CmpHolds(op, l, r, v))
  }

  /** An absent expression is y. */
  function EvalOpt(e: Option<Expr>, v: Valuation): Tristate {
    if e.Some? then Eval(e.value, v) else YES
  }

  // ---- well-typed valuations ----

  predicate IsConstant(c: Symbol) { c.isConst && c.typ == SUnknown }

  /** Constants show their names. */
  ghost predicate Named(v: Valuation) {
    forall c: Symbol :: IsConstant(c) ==> v(c).str == c.name
  }

  ghost predicate ConstsOk(v: Valuation) {
    v(SYM_YES) == Value(YES, "y") && v(SYM_MOD) == Value(MOD, "m") && v(SYM_NO) == Value(NO, "n")
  }

  /** Constants show their names, bool and tristate symbols their tristate value as text, and a bool is never m. */
  ghost predicate WellTyped(v: Valuation) {
    && ConstsOk(v) && Named(v)
    && forall s: Symbol :: IsTriType(s.typ) ==>
         v(s).str == Render(v(s).tri) && (s.typ == SBoolean ==> v(s).tri != MOD)
  }

  lemma TriConstIsText(t: Tristate)
    ensures ParseString(Render(t), SUnknown) == Text
  {
    var s := Render(t);
    assert SkipSpace(s, 0) == 0;
    assert Digits(s, 0, 10, 0) == (0, 0);
  }

  /** Comparing a bool or tristate symbol with y, m or n compares tristate values. */
  lemma CompareWithConst(s: Symbol, t: Tristate, v: Valuation)
    requires WellTyped(v) && IsTriType(s.typ)
    ensures CmpHolds(EqOp, s, ConstOf(t), v) <==> v(s).tri == t
    ensures CmpHolds(NeOp, s, ConstOf(t), v) <==> v(s).tri != t
  {
    TriConstIsText(t);
    StrCmpZero(v(s).str, Render(t));
    assert v(ConstOf(t)).str == Render(t);
  }

  // ---- expressions without an undefined order ----

  predicate IsOrdering(op: CmpOp) { op != EqOp && op != NeOp }

  /** No ordering comparison has an operand of the "other" type, which has no order. */
  predicate Comparable(e: Expr) {
    match e
    case Sym(_) => true
    case Not(x) => Comparable(x)
    case And(l, r) => Comparable(l) && Comparable(r)
    case Or(l, r) => Comparable(l) && Comparable(r)
    case Cmp(op, l, r) => IsOrdering(op) ==> l.typ != SOther && r.typ != SOther
  }

  function Negate(op: CmpOp): CmpOp {
    match op
    case EqOp => NeOp
    case NeOp => EqOp
    case LtOp => GeOp
    case LeOp => GtOp
    case GtOp => LeOp
    case GeOp => LtOp
  }

  /** An ordering of operands that have no order: the branch that answers n and prints a complaint. */
  predicate Undefined(op: CmpOp, l: Symbol, r: Symbol, v: Valuation) {
    IsOrdering(op) && CompareSign(v(l).str, l.typ, v(r).str, r.typ).None?
  }

  /** Negating the operator negates the comparison, exactly when the comparison is not an undefined ordering. */
  lemma NegatedComparison(op: CmpOp, l: Symbol, r: Symbol, v: Valuation)
    ensures (CmpHolds(Negate(op), l, r, v) <==> !CmpHolds(op, l, r, v)) <==> !Undefined(op, l, r, v)
    ensures Undefined(op, l, r, v) ==> !CmpHolds(Negate(op), l, r, v) && !CmpHolds(op, l, r, v)
  {
  }

  /** Only operands of the "other" type can be without order, next to one that is not text. */
  lemma UndefinedMeaning(op: CmpOp, l: Symbol, r: Symbol, v: Valuation)
    ensures Undefined(op, l, r, v) <==>
            && IsOrdering(op) && (l.typ == SOther || r.typ == SOther)
            && !ParseString(v(l).str, l.typ).Text? && !ParseString(v(r).str, r.typ).Text?
  {
    var strings := l.typ == SString && r.typ == SString;
    assert l.typ != SOther ==> !ParseString(v(l).str, l.typ).Invalid?;
    assert r.typ != SOther ==> !ParseString(v(r).str, r.typ).Invalid?;
  }

  /** What the six comparisons say of two numbers. */
  predicate Compares(op: CmpOp, m: int, n: int) {
    match op
    case EqOp => m == n
    case NeOp => m != n
    case LtOp => m < n
    case LeOp => m <= n
    case GtOp => m > n
    case GeOp => m >= n
  }

  lemma IntParses(n: int)
    requires LLONG_MIN <= n <= LLONG_MAX
    ensures ParseString(DecText(n), SInt) == Signed(n)
  {
    DecRoundTrip(n);
  }

  /** Ints compare as the numbers they show. */
  lemma IntOrder(op: CmpOp, l: Symbol, r: Symbol, v: Valuation, m: int, n: int)
    requires l.typ == SInt && r.typ == SInt && LLONG_MIN <= m <= LLONG_MAX && LLONG_MIN <= n <= LLONG_MAX
    requires v(l).str == DecText(m) && v(r).str == DecText(n)
    ensures CmpHolds(op, l, r, v) <==> Compares(op, m, n)
  {
    IntParses(m);
    IntParses(n);
  }

  /** An int and a constant that is a decimal number compare as these numbers. */
  lemma IntConstOrder(op: CmpOp, l: Symbol, r: Symbol, v: Valuation, m: int, n: int)
    requires l.typ == SInt && IsConstant(r) && LLONG_MIN <= m <= LLONG_MAX && LLONG_MIN <= n <= LLONG_MAX
    requires v(l).str == DecText(m) && v(r).str == DecText(n)
    ensures CmpHolds(op, l, r, v) <==> Compares(op, m, n)
  {
    IntParses(m);
    DecRoundTripAuto(n);
  }

  /** Hexes compare as the unsigned numbers they show. */
  lemma HexOrder(op: CmpOp, l: Symbol, r: Symbol, v: Valuation, m: nat, n: nat)
    requires l.typ == SHex && r.typ == SHex && m < ULLONG_RANGE && n < ULLONG_RANGE
    requires v(l).str == HexText(m) && v(r).str == HexText(n)
    ensures CmpHolds(op, l, r, v) <==> Compares(op, m, n)
  {
    HexUnsignedRoundTrip(m);
    HexUnsignedRoundTrip(n);
  }

  /** Strings compare in dictionary order. */
  lemma StringOrder(l: Symbol, r: Symbol, v: Valuation)
    requires l.typ == SString && r.typ == SString
    ensures CmpHolds(LtOp, l, r, v) <==> Before(v(l).str, v(r).str)
    ensures CmpHolds(GtOp, l, r, v) <==> Before(v(r).str, v(l).str)
    ensures CmpHolds(EqOp, l, r, v) <==> v(l).str == v(r).str
    ensures CmpHolds(LeOp, l, r, v) <==> !Before(v(r).str, v(l).str)
    ensures CmpHolds(GeOp, l, r, v) <==> !Before(v(l).str, v(r).str)
  {
    StrCmpOrder(v(l).str, v(r).str);
    StrCmpZero(v(l).str, v(r).str);
  }

  /** Bools and tristates compare as n < m < y. */
  lemma TriOrder(op: CmpOp, l: Symbol, r: Symbol, v: Valuation)
    requires WellTyped(v) && IsTriType(l.typ) && IsTriType(r.typ)
    ensures CmpHolds(op, l, r, v) <==> Compares(op, v(l).tri, v(r).tri)
  {
    assert TriRank(v(l).str) == v(l).tri && TriRank(v(r).str) == v(r).tri;
  }

  /** Number of nodes of an expression. */
  function Size(e: Expr): (n: nat)
    ensures n >= 1
  {
    match e
    case Sym(_) => 1
    case Not(x) => 1 + Size(x)
    case And(l, r) => 1 + Size(l) + Size(r)
    case Or(l, r) => 1 + Size(l) + Size(r)
    case Cmp(_, _, _) => 1
  }

  // ---- expr_alloc_and / expr_alloc_or: an absent operand is dropped ----

  function AllocAnd(a: Option<Expr>, b: Option<Expr>): (r: Option<Expr>)
    ensures forall v: Valuation :: EvalOpt(r, v) == AndTri(EvalOpt(a, v), EvalOpt(b, v))
  {
    if a.None? then b else if b.None? then a else Some(And(a.value, b.value))
  }
}

/**
 The dependency rewriting of menu_finalize: `m` becomes `m && MODULES`, conditions are
 transformed, conjoined with those of the enclosing menus and deduplicated, and
 `FOO!=n` becomes FOO for symbols that cannot be m (menu.c, expr.c).
 */
module Dependencies {
  import opened Tristates
  import opened Exprs
  import opened Transforms
  import opened Equality
  import opened Joins
  import opened Paths
  import opened Dups

  // ---- rewrite_m ----

  function RewriteM(e: Expr, modules: Symbol): Expr {
    match e
    case Not(x) => Not(RewriteM(x, modules))
    case And(l, r) => And(RewriteM(l, modules), RewriteM(r, modules))
    case Or(l, r) => Or(RewriteM(l, modules), RewriteM(r, modules))
    case Sym(s) => if s == SYM_MOD then And(e, Sym(modules)) else e
    case Cmp(_, _, _) => e
  }

  function RewriteMOpt(e: Option<Expr>, modules: Symbol): Option<Expr> {
    if e.Some? then Some(RewriteM(e.value, modules)) else None
  }

  /** The valuation in which the constant m is worth m && MODULES. */
  ghost function ModuleReading(v: Valuation, modules: Symbol): Valuation {
    s => if s == SYM_MOD then Value(AndTri(v(SYM_MOD).tri, v(modules).tri), v(SYM_MOD).str) else v(s)
  }

  lemma {:induction false} RewriteMMeaning(e: Expr, modules: Symbol, v: Valuation)
    ensures Eval(RewriteM(e, modules), v) == Eval(e, ModuleReading(v, modules))
  {
    match e
    case Not(x) => RewriteMMeaning(x, modules, v);
    case And(l, r) => RewriteMMeaning(l, modules, v); RewriteMMeaning(r, modules, v);
    case Or(l, r) => RewriteMMeaning(l, modules, v); RewriteMMeaning(r, modules, v);
    case Sym(s) =>
    case Cmp(op, l, r) =>
      assert ModuleReading(v, modules)(l).str == v(l).str && ModuleReading(v, modules)(r).str == v(r).str;
  }

  lemma {:induction false} RewriteMKeeps(e: Expr, modules: Symbol)
    ensures Comparable(e) ==> Comparable(RewriteM(e, modules))
    ensures TriTests(e) ==> TriTests(RewriteM(e, modules))
  {
    match e
    case Not(x) => RewriteMKeeps(x, modules);
    case And(l, r) => RewriteMKeeps(l, modules); RewriteMKeeps(r, modules);
    case Or(l, r) => RewriteMKeeps(l, modules); RewriteMKeeps(r, modules);
    case _ =>
  }

  lemma {:induction false} TransformTests(e: Expr)
    requires TriTests(e)
    ensures TriTests(Transform(e))
    decreases Weight(e)
  {
    match e
    case Sym(_) =>
    case Cmp(_, _, _) =>
    case And(l, r) => TransformTests(l); TransformTests(r);
    case Or(l, r) => TransformTests(l); TransformTests(r);
    case Not(x) =>
      TransformTests(x);
      match Transform(x)
      case Not(y) => TransformTests(y);
      case Or(a, b) => DeMorganWeight(a, b); TransformTests(And(Not(a), Not(b)));
      case And(a, b) => DeMorganWeight(a, b); TransformTests(Or(Not(a), Not(b)));
      case _ =>
  }

  // ---- conditions as the finalised tree holds them ----

  /**
   `!` stands on symbols other than y, m, n only, every ordering is defined and tests of tristates are
   as TriTests asks.
   */
  predicate Clean(e: Expr) {
    match e
    case Sym(_) => true
    case Not(x) => x.Sym? && !IsTriConst(x.sym)
    case And(l, r) => Clean(l) && Clean(r)
    case Or(l, r) => Clean(l) && Clean(r)
    case Cmp(op, l, r) =>
      && (IsOrdering(op) ==> l.typ != SOther && r.typ != SOther)
      && (!IsOrdering(op) && l.typ == STristate && r.isConst ==> TestConst(r))
  }

  /** What a written condition must satisfy: defined orders, and tests of tristates as TriTests asks. */
  predicate Admissible(e: Expr) { Comparable(e) && TriTests(e) }

  predicate AdmissibleOpt(e: Option<Expr>) { e.Some? ==> Admissible(e.value) }
  predicate CleanOpt(e: Option<Expr>) { e.Some? ==> Clean(e.value) }

  lemma {:induction false} CleanIsAdmissible(e: Expr)
    requires Clean(e)
    ensures Admissible(e)
  {
    match e
    case And(l, r) => CleanIsAdmissible(l); CleanIsAdmissible(r);
    case Or(l, r) => CleanIsAdmissible(l); CleanIsAdmissible(r);
    case _ =>
  }

  lemma {:induction false} NormalIsClean(e: Expr)
    requires Normal(e) && Admissible(e)
    ensures Clean(e)
  {
    match e
    case And(l, r) => NormalIsClean(l); NormalIsClean(r);
    case Or(l, r) => NormalIsClean(l); NormalIsClean(r);
    case _ =>
  }

  lemma {:induction false} PutClean(e: Expr, p: Path, x: Expr)
    requires ValidPath(e, p) && Clean(e)
    ensures Clean(Get(e, p))
    ensures Clean(x) ==> Clean(Put(e, p, x))
  {
    if p != [] { PutClean(Operand(e, p[0]), p[1..], x); }
  }

  lemma {:induction false} Pass1Clean(ty: Level, t: Expr, p1: Path, p2: Path)
    requires Clean(t)
    requires OnLevel(ty, t) && Has(ShapeOf(ty, t), p1) && Has(ShapeOf(ty, t), p2)
    ensures Clean(Pass1(ty, t, p1, p2).0)
    decreases Operators(t), Nodes(At(ShapeOf(ty, t), p1)) + Nodes(At(ShapeOf(ty, t), p2))
  {
    GetShape(ty, t, p1);
    GetShape(ty, t, p2);
    if OnLevel(ty, Get(t, p1)) {
      HasExtends(ShapeOf(ty, t), p1, ToLeft);
      HasExtends(ShapeOf(ty, t), p1, ToRight);
      Pass1Clean(ty, t, p1 + [ToLeft], p2);
      Pass1Clean(ty, Pass1(ty, t, p1 + [ToLeft], p2).0, p1 + [ToRight], p2);
    } else if OnLevel(ty, Get(t, p2)) {
      HasExtends(ShapeOf(ty, t), p2, ToLeft);
      HasExtends(ShapeOf(ty, t), p2, ToRight);
      Pass1Clean(ty, t, p1, p2 + [ToLeft]);
      Pass1Clean(ty, Pass1(ty, t, p1, p2 + [ToLeft]).0, p1, p2 + [ToRight]);
    } else if p1 != p2 {
      GetOperators(t, p1);
      PutClean(t, p1, Sym(SYM_NO));
      var (e1, n1) := Inner(Get(t, p1));
      InnerClean(Get(t, p1));
      JoinStepClean(ty, t, p1, p2, e1, n1);
    }
  }

  lemma {:induction false} InnerClean(e: Expr)
    requires Clean(e)
    ensures Clean(Inner(e).0)
    decreases Operators(e), 2 * Nodes(ShapeOf(AndLevel, e)) + 2 * Nodes(ShapeOf(OrLevel, e)) + 1
  {
    if LevelOf(e).Some? { Pass1Clean(LevelOf(e).value, e, [], []); }
  }

  lemma JoinStepClean(ty: Level, t: Expr, p1: Path, p2: Path, e1: Expr, n1: nat)
    requires Clean(t) && Clean(e1)
    requires IsLeaf(ShapeOf(ty, t), p1) && IsLeaf(ShapeOf(ty, t), p2) && p1 != p2 && !OnLevel(ty, e1)
    requires ValidPath(t, p1) && Operators(e1) <= Operators(Get(t, p1)) && (n1 == 0 ==> e1 == Get(t, p1))
    ensures Clean(JoinStep(ty, t, p1, p2, e1, n1).0)
  {
    var t1 := Put(t, p1, e1);
    PutShape(ty, t, p1, e1);
    PutClean(t, p1, e1);
    GetPutOther(ty, t, p1, p2, e1);
    PutClean(t1, p2, Unit(ty));
    var j := Join(ty, e1, Get(t1, p2));
    if j.Some? {
      JoinClean(ty, e1, Get(t1, p2));
      JoinShrinks(ty, e1, Get(t1, p2));
      PutShape(ty, t1, p1, Unit(ty));
      PutClean(t1, p1, Unit(ty));
      GetPutOther(ty, t1, p1, p2, Unit(ty));
      PutClean(Put(t1, p1, Unit(ty)), p2, j.value);
    }
  }

  lemma JoinClean(ty: Level, e1: Expr, e2: Expr)
    requires Clean(e1) && Clean(e2) && Join(ty, e1, e2).Some?
    ensures Clean(Join(ty, e1, e2).value)
  {
  }

  lemma {:induction false} EliminateYnClean(e: Expr)
    requires Clean(e)
    ensures Clean(EliminateYn(e))
  {
    match e
    case And(l, r) => EliminateYnClean(l); EliminateYnClean(r);
    case Or(l, r) => EliminateYnClean(l); EliminateYnClean(r);
    case _ =>
  }

  lemma {:induction false} EliminateDupsClean(e: Expr)
    requires Clean(e)
    ensures Clean(EliminateDups(e))
    decreases Operators(e)
  {
    var (e', n) := Inner(e);
    InnerClean(e);
    if n != 0 {
      InnerLeavesUnit(e);
      EliminateYnShrinks(e');
      EliminateYnClean(e');
      EliminateDupsClean(EliminateYn(e'));
    }
  }

  // ---- the pipeline ----

  /** One condition, rewritten and conjoined with what encloses it. */
  function FinalizeDep(outer: Option<Expr>, own: Option<Expr>, modules: Symbol): Option<Expr> {
    EliminateDupsOpt(AllocAnd(outer, TransformOpt(RewriteMOpt(own, modules))))
  }

  /** The result is the conjunction of the outer condition and the condition as written, m read as m && MODULES. */
  lemma FinalizeDepMeaning(outer: Option<Expr>, own: Option<Expr>, modules: Symbol, v: Valuation)
    requires WellTyped(v) && CleanOpt(outer) && AdmissibleOpt(own)
    ensures CleanOpt(FinalizeDep(outer, own, modules))
    ensures EvalOpt(FinalizeDep(outer, own, modules), v) ==
            AndTri(EvalOpt(outer, v), EvalOpt(own, ModuleReading(v, modules)))
  {
    var own' := TransformOpt(RewriteMOpt(own, modules));
    if own.Some? {
      var e := own.value;
      var rewritten := RewriteM(e, modules);
      RewriteMMeaning(e, modules, v);
      RewriteMKeeps(e, modules);
      TransformMeaning(rewritten, v);
      TransformComparable(rewritten);
      TransformTests(rewritten);
      TransformNormal(rewritten);
      NormalIsClean(Transform(rewritten));
    }
    var both := AllocAnd(outer, own');
    assert EvalOpt(both, v) == AndTri(EvalOpt(outer, v), EvalOpt(own', v));
    if both.Some? {
      CleanIsAdmissible(both.value);
      EliminateDupsMeaning(both.value, v);
      EliminateDupsClean(both.value);
    }
  }

  /** An enclosing `if` (no prompt) or `menu`, with its dependency and its prompt's own condition, or a `choice`. */
  datatype Layer =
    | Layer(dep: Option<Expr>, prompt: Option<Option<Expr>>)
    | ChoiceLayer(choice: Symbol)

  predicate AdmissibleLayer(l: Layer) {
    match l
    case Layer(dep, prompt) => AdmissibleOpt(dep) && (prompt.Some? ==> AdmissibleOpt(prompt.value))
    case ChoiceLayer(choice) => !choice.isConst
  }

  /**
   What a layer passes on to its children: the prompt's condition for a menu, the dependency for
   an if, and for a choice the choice itself, whose value already includes what encloses it.
   */
  function PassDown(outer: Option<Expr>, l: Layer, modules: Symbol): Option<Expr> {
    match l
    case Layer(own, prompt) =>
      var dep := FinalizeDep(outer, own, modules);
      if prompt.Some? then FinalizeDep(dep, prompt.value, modules) else dep
    case ChoiceLayer(choice) => Some(Sym(choice))
  }

  /** The condition accumulated by a nest of layers, outermost first. */
  function Propagate(layers: seq<Layer>, modules: Symbol): Option<Expr> {
    if layers == [] then None
    else PassDown(Propagate(layers[..|layers|-1], modules), layers[|layers|-1], modules)
  }

  /** The unsimplified conjunction of all conditions as written, from the innermost choice on. */
  ghost function AsWritten(layers: seq<Layer>, v: Valuation): Tristate {
    if layers == [] then YES
    else
      match layers[|layers|-1]
      case Layer(dep, prompt) =>
        AndTri(AndTri(AsWritten(layers[..|layers|-1], v), EvalOpt(dep, v)),
          if prompt.Some? then EvalOpt(prompt.value, v) else YES)
      case ChoiceLayer(choice) => v(choice).tri
  }

  /** The conditions of a layer. */
  ghost predicate IsCondition(l: Layer, e: Option<Expr>) {
    l.Layer? && (e == l.dep || (l.prompt.Some? && e == l.prompt.value))
  }

  /**
   Without choices the conjunction is at most every condition, and equals one of them unless it is y; below
   a choice it is at most the choice.
   */
  lemma {:induction false} ConjunctionIsLeast(layers: seq<Layer>, v: Valuation)
    requires forall l :: l in layers ==> l.Layer?
    ensures forall l, e :: l in layers && IsCondition(l, e) ==> AsWritten(layers, v) <= EvalOpt(e, v)
    ensures AsWritten(layers, v) == YES ||
            exists l, e :: l in layers && IsCondition(l, e) && AsWritten(layers, v) == EvalOpt(e, v)
  {
    if layers != [] {
      var rest, last := layers[..|layers|-1], layers[|layers|-1];
      ConjunctionIsLeast(rest, v);
      assert layers == rest + [last] && last in layers;
      assert IsCondition(last, last.dep);
      assert last.prompt.Some? ==> IsCondition(last, last.prompt.value);
      if AsWritten(layers, v) == AsWritten(rest, v) != YES {
        var l, e :| l in rest && IsCondition(l, e) && AsWritten(rest, v) == EvalOpt(e, v);
        assert l in layers;
      }
    }
  }

  lemma {:induction false} PropagateMeaning(layers: seq<Layer>, modules: Symbol, v: Valuation)
    requires WellTyped(v) && forall l :: l in layers ==> AdmissibleLayer(l)
    ensures CleanOpt(Propagate(layers, modules))
    ensures EvalOpt(Propagate(layers, modules), v) == AsWritten(layers, ModuleReading(v, modules))
  {
    if layers != [] {
      var rest, l := layers[..|layers|-1], layers[|layers|-1];
      PropagateMeaning(rest, modules, v);
      assert AdmissibleLayer(l);
      match l
      case Layer(own, prompt) =>
        var outer := Propagate(rest, modules);
        FinalizeDepMeaning(outer, own, modules, v);
        var dep := FinalizeDep(outer, own, modules);
        if prompt.Some? { FinalizeDepMeaning(dep, prompt.value, modules, v); }
      case ChoiceLayer(choice) => assert EvalOpt(Some(Sym(choice)), v) == v(choice).tri;
    }
  }

  // ---- expr_trans_bool ----

  function TransBool(e: Expr): Expr {
    match e
    case And(l, r) => And(TransBool(l), TransBool(r))
    case Or(l, r) => Or(TransBool(l), TransBool(r))
    case Not(x) => Not(TransBool(x))
    case Cmp(op, l, r) => if op == NeOp && l.typ == STristate && r == SYM_NO then Sym(l) else e
    case Sym(_) => e
  }

  function TransBoolOpt(e: Option<Expr>): Option<Expr> {
    if e.Some? then Some(TransBool(e.value)) else None
  }

  lemma {:induction false} TransBoolMeaning(e: Expr, v: Valuation)
    requires WellTyped(v) && Clean(e)
    ensures Clean(TransBool(e))
    ensures Eval(TransBool(e), v) != NO <==> Eval(e, v) != NO
    ensures Eval(TransBool(e), v) <= Eval(e, v)
  {
    match e
    case And(l, r) => TransBoolMeaning(l, v); TransBoolMeaning(r, v);
    case Or(l, r) => TransBoolMeaning(l, v); TransBoolMeaning(r, v);
    case Cmp(op, l, r) => if l.typ == STristate { CompareWithConst(l, NO, v); }
    case Not(x) => assert TransBool(x) == x;
    case Sym(_) =>
  }

  /** The visibility sym_calc_visibility derives from one prompt condition. */
  function Visibility(typ: SymType, tri: Tristate, modules: Tristate): Tristate {
    if tri == MOD && (typ != STristate || modules == NO) then YES else tri
  }

  /** The condition of a property of a symbol of type `typ`, below the given layers. */
  function FinalizeProp(layers: seq<Layer>, dep: Option<Expr>, cond: Option<Expr>, typ: SymType,
      modules: Symbol): Option<Expr> {
    var e := Propagate(layers + [Layer(dep, Some(cond))], modules);
    if typ != STristate then TransBoolOpt(e) else e
  }

  /**
   The whole pipeline gives a symbol the prompt visibility that the plain conjunction of all
   the conditions as written gives it, with m read as m && MODULES.
   */
  lemma PipelineVisibility(layers: seq<Layer>, dep: Option<Expr>, cond: Option<Expr>, typ: SymType,
      modules: Symbol, v: Valuation)
    requires WellTyped(v) && forall l :: l in layers ==> AdmissibleLayer(l)
    requires AdmissibleOpt(dep) && AdmissibleOpt(cond)
    ensures Visibility(typ, EvalOpt(FinalizeProp(layers, dep, cond, typ, modules), v), v(modules).tri) ==
            Visibility(typ, AsWritten(layers + [Layer(dep, Some(cond))], ModuleReading(v, modules)), v(modules).tri)
  {
    var all := layers + [Layer(dep, Some(cond))];
    PropagateMeaning(all, modules, v);
    var e := Propagate(all, modules);
    if e.Some? { TransBoolMeaning(e.value, v); }
  }
}

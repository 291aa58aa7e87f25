/**
 The simplifier and the evaluator together: what menu_finalize, which replaces every condition of
 a configuration by its propagated and simplified form, does to the solutions.
 */
module Finalised {
  import opened Tristates
  import opened Exprs
  import opened Dependencies
  import opened Configs

  // ---- conditions as written and as menu_finalize simplifies them ----

  /** A condition as written, m read as m && MODULES, and what it is simplified to before expr_trans_bool. */
  datatype Cond = Cond(written: Option<Expr>, clean: Option<Expr>)

  ghost predicate SameValue(c: Cond, v: Valuation) { EvalOpt(c.clean, v) == EvalOpt(c.written, v) }

  ghost predicate Sound(c: Cond) {
    && CleanOpt(c.clean) && (c.clean.None? <==> c.written.None?)
    && forall v: Valuation :: WellTyped(v) ==> SameValue(c, v)
  }

  /** The plain conjunction of all conditions as written, from the innermost choice on. */
  function WrittenExpr(layers: seq<Layer>, modules: Symbol): Option<Expr> {
    if layers == [] then None
    else
      match layers[|layers|-1]
      case Layer(dep, prompt) =>
        var outer := AllocAnd(WrittenExpr(layers[..|layers|-1], modules), RewriteMOpt(dep, modules));
        if prompt.Some? then AllocAnd(outer, RewriteMOpt(prompt.value, modules)) else outer
      case ChoiceLayer(choice) => Some(Sym(choice))
  }

  /** The condition below the given layers, the last one being that of the entry or property itself. */
  function CondOf(layers: seq<Layer>, modules: Symbol): Cond {
    Cond(WrittenExpr(layers, modules), Propagate(layers, modules))
  }

  lemma RewriteMOptMeaning(e: Option<Expr>, modules: Symbol, v: Valuation)
    ensures EvalOpt(RewriteMOpt(e, modules), v) == EvalOpt(e, ModuleReading(v, modules))
  {
    if e.Some? { RewriteMMeaning(e.value, modules, v); }
  }

  lemma {:induction false} WrittenExprMeaning(layers: seq<Layer>, modules: Symbol, v: Valuation)
    requires forall l :: l in layers ==> AdmissibleLayer(l)
    ensures EvalOpt(WrittenExpr(layers, modules), v) == AsWritten(layers, ModuleReading(v, modules))
  {
    if layers != [] {
      var rest, l := layers[..|layers|-1], layers[|layers|-1];
      assert AdmissibleLayer(l);
      match l
      case Layer(dep, prompt) =>
        WrittenExprMeaning(rest, modules, v);
        RewriteMOptMeaning(dep, modules, v);
        if prompt.Some? { RewriteMOptMeaning(prompt.value, modules, v); }
      case ChoiceLayer(choice) => assert EvalOpt(Some(Sym(choice)), v) == v(choice).tri;
    }
  }

  lemma {:induction false} SameNone(layers: seq<Layer>, modules: Symbol)
    ensures Propagate(layers, modules).None? <==> WrittenExpr(layers, modules).None?
  {
    if layers != [] && layers[|layers|-1].Layer? { SameNone(layers[..|layers|-1], modules); }
  }

  /** What menu_finalize makes of a condition, layer by layer, is worth the condition as written. */
  lemma CondOfSound(layers: seq<Layer>, modules: Symbol)
    requires forall l :: l in layers ==> AdmissibleLayer(l)
    ensures Sound(CondOf(layers, modules))
  {
    SameNone(layers, modules);
    forall v: Valuation | WellTyped(v)
      ensures SameValue(CondOf(layers, modules), v)
    {
      PropagateMeaning(layers, modules, v);
      WrittenExprMeaning(layers, modules, v);
    }
    var some := Symbol("", STristate, false);
    Joins.WithIsWellTyped(some, NO);
    PropagateMeaning(layers, modules, Joins.ValuationWith(some, NO));
  }

  // ---- expr_trans_bool ----

  /** `T!=n` becomes T: the test keeps its value exactly if T is not m. */
  lemma TransBoolTest(t: Symbol, v: Valuation)
    requires WellTyped(v) && t.typ == STristate
    ensures Eval(TransBool(Cmp(NeOp, t, SYM_NO)), v) == Eval(Cmp(NeOp, t, SYM_NO), v) <==> v(t).tri != MOD
  {
    CompareWithConst(t, NO, v);
    assert Eval(Sym(t), v) == v(t).tri;
  }

  /**
   A condition at y that rests on a test `T!=n` with T at m: an && of operands at y one of which
   does, an || all of whose operands at y do.
   */
  predicate Falls(e: Expr, v: Valuation) {
    match e
    case And(l, r) => Eval(l, v) == YES && Eval(r, v) == YES && (Falls(l, v) || Falls(r, v))
    case Or(l, r) =>
      && (Eval(l, v) == YES || Eval(r, v) == YES)
      && (Eval(l, v) == YES ==> Falls(l, v)) && (Eval(r, v) == YES ==> Falls(r, v))
    case Cmp(op, l, r) => op == NeOp && l.typ == STristate && r == SYM_NO && v(l).tri == MOD
    case _ => false
  }

  /**
   What expr_trans_bool does to the value of a finalised condition: those that fall go from y to m, all
   others stay.
   */
  lemma {:induction false} TransBoolExact(e: Expr, v: Valuation)
    requires WellTyped(v) && Clean(e)
    ensures Eval(TransBool(e), v) == if Falls(e, v) then MOD else Eval(e, v)
    ensures Falls(e, v) ==> Eval(e, v) == YES
  {
    match e
    case And(l, r) => TransBoolExact(l, v); TransBoolExact(r, v);
    case Or(l, r) => TransBoolExact(l, v); TransBoolExact(r, v);
    case Cmp(op, l, r) =>
      if op == NeOp && l.typ == STristate && r == SYM_NO {
        CompareWithConst(l, NO, v);
        assert Eval(Sym(l), v) == v(l).tri;
      }
    case Not(x) => assert TransBool(x) == x;
    case Sym(_) =>
  }

  /** The condition of a property of a symbol of type `typ`, as written or as menu_finalize leaves it. */
  function CondIn(final: bool, typ: SymType, c: Cond): Option<Expr> {
    if !final then c.written else if typ != STristate then TransBoolOpt(c.clean) else c.clean
  }

  predicate CondFalls(typ: SymType, c: Cond, v: Valuation) {
    typ != STristate && c.clean.Some? && Falls(c.clean.value, v)
  }

  lemma CondMeaning(typ: SymType, c: Cond, v: Valuation)
    requires WellTyped(v) && Sound(c)
    ensures EvalOpt(CondIn(true, typ, c), v) == if CondFalls(typ, c, v) then MOD else EvalOpt(CondIn(false, typ, c), v)
    ensures CondFalls(typ, c, v) ==> EvalOpt(CondIn(false, typ, c), v) == YES
  {
    assert SameValue(c, v);
    if c.clean.Some? { TransBoolExact(c.clean.value, v); }
  }

  // ---- sources ----

  /** A symbol that selects or implies another one, under a condition. */
  datatype Select = Select(selector: Symbol, cond: Cond)

  datatype DefaultSource = DefaultSource(cond: Cond, value: Expr)
  datatype RangeSource = RangeSource(cond: Cond, lo: Symbol, hi: Symbol)

  /**
   The properties of a symbol, the selects and implies aimed at it, and the dependencies of the places
   it is defined at.
   */
  datatype Source = Source(
    prompts: seq<Cond>,
    defaults: seq<DefaultSource>,
    ranges: seq<RangeSource>,
    implying: seq<Cond>,
    selects: seq<Select>,
    implies: seq<Select>,
    places: seq<Cond>,
    auto: bool)

  datatype Program = Program(sources: map<Symbol, Source>, modules: Symbol)

  function AllocOr(a: Option<Expr>, b: Option<Expr>): Option<Expr> {
    if a.None? then b else if b.None? then a else Some(Or(a.value, b.value))
  }

  /** The reverse dependency collected from the selects of one target, in order. */
  function SelectExpr(final: bool, ss: seq<Select>): Option<Expr> {
    if ss == [] then None
    else
      var s := ss[|ss|-1];
      AllocOr(SelectExpr(final, ss[..|ss|-1]),
              AllocAnd(Some(Sym(s.selector)), CondIn(final, s.selector.typ, s.cond)))
  }

  /** The direct dependency collected from the places of a symbol, in order. */
  function PlacesExpr(final: bool, cs: seq<Cond>): Option<Expr> {
    if cs == [] then None
    else AllocOr(PlacesExpr(final, cs[..|cs|-1]), CondIn(final, STristate, cs[|cs|-1]))
  }

  function CondsIn(final: bool, typ: SymType, cs: seq<Cond>): seq<Option<Expr>> {
    seq(|cs|, i requires 0 <= i < |cs| => CondIn(final, typ, cs[i]))
  }

  function DefaultsIn(final: bool, typ: SymType, ds: seq<DefaultSource>): seq<Default> {
    seq(|ds|, i requires 0 <= i < |ds| => Default(CondIn(final, typ, ds[i].cond), ds[i].value))
  }

  function RangesIn(final: bool, typ: SymType, rs: seq<RangeSource>): seq<Range> {
    seq(|rs|, i requires 0 <= i < |rs| => Range(CondIn(final, typ, rs[i].cond), rs[i].lo, rs[i].hi))
  }

  function DeclIn(final: bool, typ: SymType, s: Source): Decl {
    Decl(CondsIn(final, typ, s.prompts), DefaultsIn(final, typ, s.defaults), RangesIn(final, typ, s.ranges),
         CondsIn(final, typ, s.implying), PlacesExpr(final, s.places),
         SelectExpr(final, s.selects), SelectExpr(final, s.implies), s.auto)
  }

  /** The configuration as written, or as menu_finalize leaves it. */
  function ConfigOf(final: bool, p: Program): Config {
    Config(map s | s in p.sources :: DeclIn(final, s.typ, p.sources[s]), p.modules)
  }

  ghost predicate SoundConds(cs: seq<Cond>) { forall c :: c in cs ==> Sound(c) }

  ghost predicate SoundSelects(ss: seq<Select>) { forall s :: s in ss ==> Sound(s.cond) }

  ghost predicate SoundSource(s: Source) {
    && SoundConds(s.prompts) && SoundConds(s.places) && SoundSelects(s.selects) && SoundSelects(s.implies)
    && (forall d :: d in s.defaults ==> Sound(d.cond))
    && (forall r :: r in s.ranges ==> Sound(r.cond))
  }

  ghost predicate SoundAt(p: Program, s: Symbol) { s in p.sources ==> SoundSource(p.sources[s]) }

  // ---- prompts, defaults, ranges and direct dependencies ----

  lemma CondsSnoc(final: bool, typ: SymType, cs: seq<Cond>, v: Valuation)
    requires cs != []
    ensures PromptTri(CondsIn(final, typ, cs), v) ==
            OrTri(PromptTri(CondsIn(final, typ, cs[..|cs|-1]), v), EvalOpt(CondIn(final, typ, cs[|cs|-1]), v))
  {
    assert CondsIn(final, typ, cs)[..|cs|-1] == CondsIn(final, typ, cs[..|cs|-1]);
  }

  lemma {:induction false} SamePrompts(typ: SymType, cs: seq<Cond>, v: Valuation)
    requires WellTyped(v) && SoundConds(cs)
    ensures var x, y := PromptTri(CondsIn(false, typ, cs), v), PromptTri(CondsIn(true, typ, cs), v);
            (y != NO <==> x != NO) && (typ == STristate ==> y == x)
  {
    if cs != [] {
      var rest, last := cs[..|cs|-1], cs[|cs|-1];
      assert last in cs;
      CondMeaning(typ, last, v);
      SamePrompts(typ, rest, v);
      CondsSnoc(false, typ, cs, v);
      CondsSnoc(true, typ, cs, v);
    }
  }

  lemma {:induction false} SameDefault(typ: SymType, ds: seq<DefaultSource>, i: nat, v: Valuation)
    requires WellTyped(v) && i <= |ds| && forall d :: d in ds ==> Sound(d.cond)
    ensures ActiveDefault(DefaultsIn(true, typ, ds), i, v) == ActiveDefault(DefaultsIn(false, typ, ds), i, v)
    decreases |ds| - i
  {
    if i < |ds| {
      assert ds[i] in ds;
      CondMeaning(typ, ds[i].cond, v);
      SameDefault(typ, ds, i + 1, v);
    }
  }

  lemma {:induction false} SameRange(typ: SymType, rs: seq<RangeSource>, i: nat, v: Valuation)
    requires WellTyped(v) && i <= |rs| && forall r :: r in rs ==> Sound(r.cond)
    ensures ActiveRange(RangesIn(true, typ, rs), i, v) == ActiveRange(RangesIn(false, typ, rs), i, v)
    decreases |rs| - i
  {
    if i < |rs| {
      assert rs[i] in rs;
      CondMeaning(typ, rs[i].cond, v);
      SameRange(typ, rs, i + 1, v);
    }
  }

  /** The default of a bool may come out as m instead of y, but it is n in the same cases. */
  lemma SameDefaultTri(s: Symbol, src: Source, v: Valuation)
    requires WellTyped(v) && SoundSource(src)
    ensures var d, d' := DeclIn(false, s.typ, src), DeclIn(true, s.typ, src);
            && (DefaultTri(d', v) != NO <==> DefaultTri(d, v) != NO)
            && (s.typ == STristate ==> DefaultTri(d', v) == DefaultTri(d, v))
            && DefaultSymbol(d', v) == DefaultSymbol(d, v)
  {
    SameDefault(s.typ, src.defaults, 0, v);
    var k := ActiveDefault(DefaultsIn(false, s.typ, src.defaults), 0, v);
    if k < |src.defaults| {
      assert src.defaults[k] in src.defaults;
      CondMeaning(s.typ, src.defaults[k].cond, v);
    }
  }

  lemma {:induction false} SamePlaces(cs: seq<Cond>, v: Valuation)
    requires WellTyped(v) && SoundConds(cs)
    ensures PlacesExpr(true, cs).None? <==> PlacesExpr(false, cs).None?
    ensures EvalOpt(PlacesExpr(true, cs), v) == EvalOpt(PlacesExpr(false, cs), v)
  {
    if cs != [] {
      var last := cs[|cs|-1];
      assert last in cs;
      CondMeaning(STristate, last, v);
      SamePlaces(cs[..|cs|-1], v);
    }
  }

  /**
   The direct dependency is the largest condition of the places of a symbol.  Places without a condition
   do not make it y: they count only if no place has one.
   */
  lemma {:induction false} PlacesMeaning(final: bool, cs: seq<Cond>, v: Valuation)
    ensures PlacesExpr(final, cs).None? <==> forall c :: c in cs ==> CondIn(final, STristate, c).None?
    ensures forall c :: c in cs && CondIn(final, STristate, c).Some? ==>
              EvalOpt(CondIn(final, STristate, c), v) <= EvalOpt(PlacesExpr(final, cs), v)
    ensures PlacesExpr(final, cs).Some? ==>
              exists c :: c in cs && CondIn(final, STristate, c).Some? &&
                          EvalOpt(CondIn(final, STristate, c), v) == EvalOpt(PlacesExpr(final, cs), v)
  {
    if cs != [] {
      var rest, last := cs[..|cs|-1], cs[|cs|-1];
      PlacesMeaning(final, rest, v);
      assert cs == rest + [last] && last in cs;
      if PlacesExpr(final, rest).Some? {
        var c :| c in rest && CondIn(final, STristate, c).Some? &&
                 EvalOpt(CondIn(final, STristate, c), v) == EvalOpt(PlacesExpr(final, rest), v);
        assert c in cs;
      }
    }
  }

  // ---- selects and implies ----

  /**
   One select by a bool keeps its strength exactly if its target is two-valued, the selector is n, or
   its condition does not fall.
   */
  lemma SelectKept(b: Symbol, e: Expr, t: SymType, m: Tristate, v: Valuation)
    requires WellTyped(v) && b.typ == SBoolean && Clean(e)
    ensures Lift(t, m, Eval(And(Sym(b), TransBool(e)), v)) == Lift(t, m, Eval(And(Sym(b), e), v)) <==>
            BoolLike(t, m) || v(b).tri == NO || !Falls(e, v)
  {
    TransBoolExact(e, v);
    assert Eval(Sym(b), v) == v(b).tri;
  }

  /**
   The weakened selects exist: a condition is copied after `FOO!=n` has become FOO, so a select
   by a bool under a tristate at m pulls its target to m where the condition as written is y.
   */
  lemma TransBoolWeakensSelect(b: Symbol, t: Symbol, v: Valuation)
    requires WellTyped(v) && b.typ == SBoolean && t.typ == STristate && v(b).tri == YES && v(t).tri == MOD
    ensures var cond := Cmp(NeOp, t, SYM_NO);
            Eval(And(Sym(b), cond), v) == YES && Eval(And(Sym(b), TransBool(cond)), v) == MOD
  {
    CompareWithConst(t, NO, v);
    assert Eval(Sym(b), v) == YES && Eval(Sym(t), v) == MOD;
    assert Eval(Cmp(NeOp, t, SYM_NO), v) == YES;
  }

  function SelectTri(final: bool, s: Select, v: Valuation): Tristate {
    AndTri(v(s.selector).tri, EvalOpt(CondIn(final, s.selector.typ, s.cond), v))
  }

  /** The strongest of the selects; n without any. */
  function RevTri(final: bool, ss: seq<Select>, v: Valuation): Tristate {
    if ss == [] then NO else OrTri(RevTri(final, ss[..|ss|-1], v), SelectTri(final, ss[|ss|-1], v))
  }

  lemma {:induction false} SelectExprMeaning(final: bool, ss: seq<Select>, v: Valuation)
    ensures var e := SelectExpr(final, ss); (if e.Some? then Eval(e.value, v) else NO) == RevTri(final, ss, v)
  {
    if ss != [] {
      var s := ss[|ss|-1];
      SelectExprMeaning(final, ss[..|ss|-1], v);
      var e := AllocAnd(Some(Sym(s.selector)), CondIn(final, s.selector.typ, s.cond));
      assert EvalOpt(Some(Sym(s.selector)), v) == v(s.selector).tri;
      assert EvalOpt(e, v) == SelectTri(final, s, v);
    }
  }

  /** The joint strength of selects is that of the strongest. */
  lemma {:induction false} RevTriIsLargest(final: bool, ss: seq<Select>, v: Valuation)
    ensures forall s :: s in ss ==> SelectTri(final, s, v) <= RevTri(final, ss, v)
    ensures RevTri(final, ss, v) == NO || exists s :: s in ss && SelectTri(final, s, v) == RevTri(final, ss, v)
  {
    if ss != [] {
      var rest, last := ss[..|ss|-1], ss[|ss|-1];
      RevTriIsLargest(final, rest, v);
      assert ss == rest + [last] && last in ss;
      if RevTri(final, ss, v) != SelectTri(final, last, v) && RevTri(final, ss, v) != NO {
        var s :| s in rest && SelectTri(final, s, v) == RevTri(final, rest, v);
        assert s in ss;
      }
    }
  }

  /** A select that is y as written and whose condition does not fall. */
  predicate Strong(s: Select, v: Valuation) {
    SelectTri(false, s, v) == YES && !CondFalls(s.selector.typ, s.cond, v)
  }

  /** Finalising may take a select from y to m, exactly those at y that are not strong, and does nothing else to it. */
  lemma SelectFalls(s: Select, v: Valuation)
    requires WellTyped(v) && Sound(s.cond)
    ensures var x, y := SelectTri(false, s, v), SelectTri(true, s, v);
            y <= x && (y != NO <==> x != NO) && (y == YES <==> Strong(s, v))
  {
    CondMeaning(s.selector.typ, s.cond, v);
  }

  ghost predicate SomeStrong(ss: seq<Select>, v: Valuation) { exists s :: s in ss && Strong(s, v) }

  lemma {:induction false} RevTriFalls(ss: seq<Select>, v: Valuation)
    requires WellTyped(v) && SoundSelects(ss)
    ensures var x, y := RevTri(false, ss, v), RevTri(true, ss, v);
            y <= x && (y != NO <==> x != NO) && (y == YES <==> SomeStrong(ss, v))
  {
    if ss != [] {
      var rest, last := ss[..|ss|-1], ss[|ss|-1];
      assert ss == rest + [last] && last in ss;
      RevTriFalls(rest, v);
      SelectFalls(last, v);
    }
  }

  /** The selects of a symbol keep their joint strength: it is two-valued, or none of them is y, or a strong one is. */
  ghost predicate KeepsStrength(typ: SymType, modules: Tristate, ss: seq<Select>, v: Valuation) {
    BoolLike(typ, modules) || RevTri(false, ss, v) != YES || SomeStrong(ss, v)
  }

  lemma StrengthMeaning(typ: SymType, modules: Tristate, ss: seq<Select>, v: Valuation)
    requires WellTyped(v) && SoundSelects(ss)
    ensures Lift(typ, modules, RevTri(true, ss, v)) == Lift(typ, modules, RevTri(false, ss, v)) <==>
            KeepsStrength(typ, modules, ss, v)
  {
    RevTriFalls(ss, v);
  }

  // ---- whole configurations ----

  /** As written and as finalised a symbol has the same frame but for the strength of selects and implies. */
  lemma SameFrameOf(s: Symbol, src: Source, v: Valuation, modules: Tristate)
    requires WellTyped(v) && SoundSource(src)
    ensures var f := FrameOf(s, DeclIn(false, s.typ, src), v, modules);
            var g := FrameOf(s, DeclIn(true, s.typ, src), v, modules);
            && g == f.(revDep := g.revDep, implied := g.implied)
            && (g.revDep == f.revDep <==> KeepsStrength(s.typ, modules, src.selects, v))
            && (g.implied == f.implied <==> f.dirDep == NO || KeepsStrength(s.typ, modules, src.implies, v))
  {
    SamePrompts(s.typ, src.prompts, v);
    SamePlaces(src.places, v);
    SelectExprMeaning(false, src.selects, v);
    SelectExprMeaning(true, src.selects, v);
    SelectExprMeaning(false, src.implies, v);
    SelectExprMeaning(true, src.implies, v);
    StrengthMeaning(s.typ, modules, src.selects, v);
    StrengthMeaning(s.typ, modules, src.implies, v);
  }

  /** A two-valued symbol does not tell a default of m from one of y. */
  lemma SameTriResult(f: Frame, user: Option<Value>, x: Tristate, y: Tristate, auto: bool)
    requires (x != NO <==> y != NO) && f.revDep != MOD && f.implied != MOD
    ensures TriResult(f, user, x, true, auto) == TriResult(f, user, y, true, auto)
  {
  }

  /** The frame is part of a typed symbol's result. */
  lemma ResultHoldsFrame(c: Config, u: Users, s: Symbol, a: Assignment)
    requires IsTyped(s.typ)
    ensures var r, f := Meaning(c, u, s, a), FrameOf(s, DeclOf(c, s), ValuesOf(a), a(c.modules).tri);
            r.revDep == f.revDep && r.implied == f.implied && r.dirDep == f.dirDep
  {
  }

  /** The declarations of a symbol as written and as finalised give it equal frames under `a`. */
  ghost predicate EqualFrames(p: Program, s: Symbol, a: Assignment)
    requires s in p.sources
  {
    var src, v, m := p.sources[s], ValuesOf(a), a(p.modules).tri;
    FrameOf(s, DeclIn(false, s.typ, src), v, m) == FrameOf(s, DeclIn(true, s.typ, src), v, m)
  }

  lemma SameTri(p: Program, u: Users, s: Symbol, a: Assignment)
    requires WellTyped(ValuesOf(a)) && s in p.sources && SoundSource(p.sources[s]) && IsTriType(s.typ)
    requires EqualFrames(p, s, a)
    ensures Meaning(ConfigOf(true, p), u, s, a) == Meaning(ConfigOf(false, p), u, s, a)
  {
    var src, v := p.sources[s], ValuesOf(a);
    var d, d' := DeclIn(false, s.typ, src), DeclIn(true, s.typ, src);
    SameDefaultTri(s, src, v);
    if s.typ == SBoolean {
      var f := FrameOf(s, d, v, a(p.modules).tri);
      SameTriResult(f, UserOf(u, s), DefaultTri(d', v), DefaultTri(d, v), d.auto);
    }
  }

  lemma SameText(p: Program, u: Users, s: Symbol, a: Assignment)
    requires WellTyped(ValuesOf(a)) && s in p.sources && SoundSource(p.sources[s]) && !IsTriType(s.typ)
    requires EqualFrames(p, s, a)
    ensures Meaning(ConfigOf(true, p), u, s, a) == Meaning(ConfigOf(false, p), u, s, a)
  {
    var src, v := p.sources[s], ValuesOf(a);
    SameDefaultTri(s, src, v);
    SameInRange(s, src, a);
  }

  lemma SameInRange(s: Symbol, src: Source, a: Assignment)
    requires WellTyped(ValuesOf(a)) && SoundSource(src)
    ensures var d, d' := DeclIn(false, s.typ, src), DeclIn(true, s.typ, src);
            forall text :: InRange(s, d', text, a) == InRange(s, d, text, a)
  {
    SameRange(s.typ, src.ranges, 0, ValuesOf(a));
  }

  /**
   The selects and implies of `s` keep their strength under `a`; implies count only if the direct
   dependency is not n.
   */
  ghost predicate KeptAt(p: Program, a: Assignment, s: Symbol) {
    var v, m := ValuesOf(a), a(p.modules).tri;
    s in p.sources && IsTyped(s.typ) ==>
      && KeepsStrength(s.typ, m, p.sources[s].selects, v)
      && (EvalOpt(PlacesExpr(false, p.sources[s].places), v) == NO || KeepsStrength(s.typ, m, p.sources[s].implies, v))
  }

  lemma SameMeaning(p: Program, u: Users, s: Symbol, a: Assignment)
    requires WellTyped(ValuesOf(a)) && SoundAt(p, s)
    ensures Meaning(ConfigOf(true, p), u, s, a) == Meaning(ConfigOf(false, p), u, s, a) <==> KeptAt(p, a, s)
  {
    var w, f, v, m := ConfigOf(false, p), ConfigOf(true, p), ValuesOf(a), a(p.modules).tri;
    if s in p.sources && IsTyped(s.typ) {
      SameFrameOf(s, p.sources[s], v, m);
      ResultHoldsFrame(w, u, s, a);
      ResultHoldsFrame(f, u, s, a);
      if KeptAt(p, a, s) {
        if IsTriType(s.typ) { SameTri(p, u, s, a); } else { SameText(p, u, s, a); }
      }
    }
  }

  /**
   An assignment that solves the configuration as written or as finalised solves both exactly if
   under it the selects and implies of every symbol keep their strength.
   */
  lemma FinalisedSolutions(p: Program, u: Users, a: Assignment)
    requires forall s: Symbol :: SoundAt(p, s)
    requires IsSolution(ConfigOf(false, p), u, a) || IsSolution(ConfigOf(true, p), u, a)
    ensures IsSolution(ConfigOf(false, p), u, a) && IsSolution(ConfigOf(true, p), u, a) <==>
            forall s: Symbol :: KeptAt(p, a, s)
  {
    var w, f := ConfigOf(false, p), ConfigOf(true, p);
    if IsSolution(w, u, a) { SolutionWellTyped(w, u, a); } else { SolutionWellTyped(f, u, a); }
    forall s: Symbol
      ensures SolvedAt(w, u, a, s) && SolvedAt(f, u, a, s) <==> KeptAt(p, a, s)
    {
      assert SoundAt(p, s);
      SameMeaning(p, u, s, a);
      if IsSolution(w, u, a) { assert SolvedAt(w, u, a, s); } else { assert SolvedAt(f, u, a, s); }
    }
  }

  /** A bool target, or no condition that expr_trans_bool changes. */
  predicate Steady(s: Symbol, ss: seq<Select>) {
    s.typ == SBoolean || forall t :: t in ss ==> CondIn(true, t.selector.typ, t.cond) == t.cond.clean
  }

  ghost predicate SteadyAt(p: Program, s: Symbol) {
    s in p.sources ==> Steady(s, p.sources[s].selects) && Steady(s, p.sources[s].implies)
  }

  lemma SteadyKeepsStrength(s: Symbol, ss: seq<Select>, v: Valuation, modules: Tristate)
    requires WellTyped(v) && SoundSelects(ss) && Steady(s, ss)
    ensures KeepsStrength(s.typ, modules, ss, v)
  {
    if s.typ != SBoolean {
      forall t | t in ss
        ensures SelectTri(true, t, v) == SelectTri(false, t, v)
      {
        CondMeaning(t.selector.typ, t.cond, v);
        assert SameValue(t.cond, v);
      }
      SameStrength(ss, v);
      RevTriFalls(ss, v);
    }
  }

  lemma {:induction false} SameStrength(ss: seq<Select>, v: Valuation)
    requires forall t :: t in ss ==> SelectTri(true, t, v) == SelectTri(false, t, v)
    ensures RevTri(true, ss, v) == RevTri(false, ss, v)
  {
    if ss != [] {
      SameStrength(ss[..|ss|-1], v);
      assert ss[|ss|-1] in ss;
    }
  }

  /**
   If no select or imply of a tristate has a condition that expr_trans_bool changes, finalising keeps
   exactly the solutions.
   */
  lemma SimplifyKeepsSolutions(p: Program, u: Users, a: Assignment)
    requires forall s: Symbol :: SoundAt(p, s) && SteadyAt(p, s)
    ensures IsSolution(ConfigOf(true, p), u, a) <==> IsSolution(ConfigOf(false, p), u, a)
  {
    var w, f := ConfigOf(false, p), ConfigOf(true, p);
    if IsSolution(w, u, a) || IsSolution(f, u, a) {
      if IsSolution(w, u, a) { SolutionWellTyped(w, u, a); } else { SolutionWellTyped(f, u, a); }
      forall s: Symbol
        ensures KeptAt(p, a, s)
      {
        assert SoundAt(p, s) && SteadyAt(p, s);
        if s in p.sources {
          SteadyKeepsStrength(s, p.sources[s].selects, ValuesOf(a), a(p.modules).tri);
          SteadyKeepsStrength(s, p.sources[s].implies, ValuesOf(a), a(p.modules).tri);
        }
      }
      FinalisedSolutions(p, u, a);
    }
  }
}

/**
 Configurations and what they mean, without evaluation order: an assignment of results to
 symbols is a solution when every symbol's result is the one its declaration gives from
 the results of the symbols it mentions.  Choices are not part of these configurations.
 */
module Configs {
  import opened Tristates
  import opened Exprs
  import opened Ranges
  import opened Dependencies

  datatype Default = Default(cond: Option<Expr>, value: Expr)
  datatype Range = Range(cond: Option<Expr>, lo: Symbol, hi: Symbol)

  /**
   The properties of a symbol with their final conditions, and its (reverse) dependencies.
   `implying` are the conditions under which the symbol implies others; evaluating the symbol
   does not read them.
   */
  datatype Decl = Decl(
    prompts: seq<Option<Expr>>,
    defaults: seq<Default>,
    ranges: seq<Range>,
    implying: seq<Option<Expr>>,
    dirDep: Option<Expr>,
    revDep: Option<Expr>,
    implied: Option<Expr>,
    auto: bool)

  datatype Config = Config(decls: map<Symbol, Decl>, modules: Symbol)

  const EMPTY_DECL := Decl([], [], [], [], None, None, None, false)

  function DeclOf(c: Config, s: Symbol): Decl {
    if s in c.decls then c.decls[s] else EMPTY_DECL
  }

  /** User values; the domain is the set of symbols with the DEF_USER flag. */
  type Users = map<Symbol, Value>

  /** What evaluation leaves in a symbol: value, visibility, WRITE flag and dependency values. */
  datatype Result = Result(
    tri: Tristate, val: string, visible: Tristate, write: bool,
    dirDep: Tristate, revDep: Tristate, implied: Tristate)

  const BLANK := Result(NO, "", NO, false, NO, NO, NO)

  type Assignment = Symbol -> Result

  /** sym_get_string_value of a symbol holding `r`. */
  function Shown(s: Symbol, r: Result): string {
    if IsTriType(s.typ) then Render(r.tri) else r.val
  }

  /** What expressions see of an assignment. */
  function ValuesOf(a: Assignment): Valuation {
    s => Value(a(s).tri, Shown(s, a(s)))
  }

  predicate IsTyped(t: SymType) { t != SUnknown && t != SOther }

  // ---- parts of the meaning of a declaration ----

  /** The strongest prompt condition; n without prompts. */
  function PromptTri(ps: seq<Option<Expr>>, v: Valuation): Tristate {
    if ps == [] then NO else OrTri(PromptTri(ps[..|ps|-1], v), EvalOpt(ps[|ps|-1], v))
  }

  /** The first default whose condition is not n, from `i` on. */
  function ActiveDefault(ds: seq<Default>, i: nat, v: Valuation): (k: nat)
    requires i <= |ds|
    ensures i <= k <= |ds|
    decreases |ds| - i
  {
    if i == |ds| || EvalOpt(ds[i].cond, v) != NO then i else ActiveDefault(ds, i + 1, v)
  }

  function ActiveRange(rs: seq<Range>, i: nat, v: Valuation): (k: nat)
    requires i <= |rs|
    ensures i <= k <= |rs|
    decreases |rs| - i
  {
    if i == |rs| || EvalOpt(rs[i].cond, v) != NO then i else ActiveRange(rs, i + 1, v)
  }

  /** Is the symbol two-valued: a bool, or a tristate without modules? */
  predicate BoolLike(t: SymType, modules: Tristate) {
    t == SBoolean || (t == STristate && modules == NO)
  }

  function Lift(t: SymType, modules: Tristate, x: Tristate): Tristate {
    if x == MOD && BoolLike(t, modules) then YES else x
  }

  function DefaultTri(d: Decl, v: Valuation): Tristate {
    var k := ActiveDefault(d.defaults, 0, v);
    if k == |d.defaults| then NO
    else AndTri(Eval(d.defaults[k].value, v), EvalOpt(d.defaults[k].cond, v))
  }

  /** The symbol a string, int or hex default names. */
  function DefaultSymbol(d: Decl, v: Valuation): Option<Symbol> {
    var k := ActiveDefault(d.defaults, 0, v);
    if k < |d.defaults| && d.defaults[k].value.Sym? then Some(d.defaults[k].value.sym) else None
  }

  /** The raw value of the symbol a default names. */
  function DefaultText(d: Decl, a: Assignment): string {
    var ds := DefaultSymbol(d, ValuesOf(a));
    if ds.Some? then a(ds.value).val else ""
  }

  /** Clamps an int or hex value into the active range, if there is one. */
  function InRange(s: Symbol, d: Decl, text: string, a: Assignment): string {
    var k := ActiveRange(d.ranges, 0, ValuesOf(a));
    if (s.typ == SInt || s.typ == SHex) && k < |d.ranges| then
      var base := BaseOf(s.typ);
      ClampText(s.typ, text, BoundValue(d.ranges[k].lo.typ, a(d.ranges[k].lo).val, base),
                             BoundValue(d.ranges[k].hi.typ, a(d.ranges[k].hi).val, base))
    else text
  }

  /** Visibility and dependency values: everything that does not depend on the user's value. */
  datatype Frame = Frame(visible: Tristate, dirDep: Tristate, revDep: Tristate, implied: Tristate)

  function FrameOf(s: Symbol, d: Decl, v: Valuation, modules: Tristate): Frame {
    var dir := Lift(s.typ, modules, EvalOpt(d.dirDep, v));
    Frame(
      Visibility(s.typ, PromptTri(d.prompts, v), modules),
      dir,
      Lift(s.typ, modules, if d.revDep.Some? then Eval(d.revDep.value, v) else NO),
      Lift(s.typ, modules, if d.implied.Some? && dir != NO then Eval(d.implied.value, v) else NO))
  }

  /** The value of a bool or tristate: the user's if visible, else the default; raised by implies and selects. */
  function TriResult(f: Frame, user: Option<Value>, default: Tristate, boolLike: bool, auto: bool): Result {
    var byUser := f.visible != NO && user.Some?;
    var chosen := if byUser then AndTri(user.value.tri, f.visible) else OrTri(default, f.implied);
    var raised := OrTri(chosen, f.revDep);
    var tri := if raised == MOD && (boolLike || f.implied == YES) then YES else raised;
    var write := f.visible != NO || f.revDep != NO || default != NO || f.implied != NO;
    Result(tri, "n", f.visible, write && !auto, f.dirDep, f.revDep, f.implied)
  }

  /** The text of a string, int or hex before clamping: the user's if visible, else the default's. */
  function ChosenText(f: Frame, user: Option<Value>, default: string): string {
    if f.visible != NO && user.Some? then user.value.str else default
  }

  function TextResult(f: Frame, text: string, hasDefault: bool, auto: bool): Result {
    Result(NO, text, f.visible, (f.visible != NO || hasDefault) && !auto, f.dirDep, f.revDep, f.implied)
  }

  function UserOf(u: Users, s: Symbol): Option<Value> {
    if s in u then Some(u[s]) else None
  }

  /** The result a symbol must have when the others have theirs. */
  function Meaning(c: Config, u: Users, s: Symbol, a: Assignment): Result {
    var d, v, user, modules := DeclOf(c, s), ValuesOf(a), UserOf(u, s), a(c.modules).tri;
    var f := FrameOf(s, d, v, modules);
    if IsTriType(s.typ) then TriResult(f, user, DefaultTri(d, v), BoolLike(s.typ, modules), d.auto)
    else if IsTyped(s.typ) then
      TextResult(f, InRange(s, d, ChosenText(f, user, DefaultText(d, a)), a), DefaultSymbol(d, v).Some?, d.auto)
    else BLANK.(tri := if s == SYM_YES then YES else if s == SYM_MOD then MOD else NO, val := s.name)
  }

  ghost predicate SolvedAt(c: Config, u: Users, a: Assignment, s: Symbol) {
    a(s) == Meaning(c, u, s, a)
  }

  ghost predicate IsSolution(c: Config, u: Users, a: Assignment) {
    forall s: Symbol :: SolvedAt(c, u, a, s)
  }

  // ---- acyclic configurations ----

  type Rank = Symbol -> nat

  ghost predicate Below(e: Expr, rank: Rank, n: nat) {
    match e
    case Sym(s) => rank(s) < n
    case Not(x) => Below(x, rank, n)
    case And(l, r) => Below(l, rank, n) && Below(r, rank, n)
    case Or(l, r) => Below(l, rank, n) && Below(r, rank, n)
    case Cmp(_, l, r) => rank(l) < n && rank(r) < n
  }

  ghost predicate BelowOpt(e: Option<Expr>, rank: Rank, n: nat) { e.Some? ==> Below(e.value, rank, n) }

  ghost predicate DeclBelow(d: Decl, rank: Rank, n: nat) {
    && (forall i :: 0 <= i < |d.prompts| ==> BelowOpt(d.prompts[i], rank, n))
    && (forall i :: 0 <= i < |d.defaults| ==>
      BelowOpt(d.defaults[i].cond, rank, n) && Below(d.defaults[i].value, rank, n))
    && (forall i :: 0 <= i < |d.ranges| ==>
      BelowOpt(d.ranges[i].cond, rank, n) && rank(d.ranges[i].lo) < n && rank(d.ranges[i].hi) < n)
    && BelowOpt(d.dirDep, rank, n) && BelowOpt(d.revDep, rank, n) && BelowOpt(d.implied, rank, n)
  }

  /** Every symbol ranks above all it is evaluated from; a tristate also above the modules symbol. */
  ghost predicate RankedAt(c: Config, rank: Rank, s: Symbol) {
    && DeclBelow(DeclOf(c, s), rank, rank(s))
    && (s.typ == STristate ==> rank(c.modules) < rank(s))
  }

  ghost predicate Ranked(c: Config, rank: Rank) {
    forall s: Symbol :: RankedAt(c, rank, s)
  }

  ghost predicate AgreeBelow(a: Assignment, b: Assignment, rank: Rank, n: nat) {
    forall s: Symbol :: rank(s) < n ==> a(s) == b(s)
  }

  lemma {:induction false} EvalAgrees(e: Expr, a: Assignment, b: Assignment, rank: Rank, n: nat)
    requires AgreeBelow(a, b, rank, n) && Below(e, rank, n)
    ensures Eval(e, ValuesOf(a)) == Eval(e, ValuesOf(b))
  {
    match e
    case Sym(s) =>
    case Not(x) => EvalAgrees(x, a, b, rank, n);
    case And(l, r) => EvalAgrees(l, a, b, rank, n); EvalAgrees(r, a, b, rank, n);
    case Or(l, r) => EvalAgrees(l, a, b, rank, n); EvalAgrees(r, a, b, rank, n);
    case Cmp(op, l, r) => assert a(l) == b(l) && a(r) == b(r);
  }

  lemma EvalOptAgrees(e: Option<Expr>, a: Assignment, b: Assignment, rank: Rank, n: nat)
    requires AgreeBelow(a, b, rank, n) && BelowOpt(e, rank, n)
    ensures EvalOpt(e, ValuesOf(a)) == EvalOpt(e, ValuesOf(b))
  {
    if e.Some? { EvalAgrees(e.value, a, b, rank, n); }
  }

  lemma {:induction false} PromptAgrees(ps: seq<Option<Expr>>, a: Assignment, b: Assignment, rank: Rank, n: nat)
    requires AgreeBelow(a, b, rank, n) && forall i :: 0 <= i < |ps| ==> BelowOpt(ps[i], rank, n)
    ensures PromptTri(ps, ValuesOf(a)) == PromptTri(ps, ValuesOf(b))
  {
    if ps != [] {
      PromptAgrees(ps[..|ps|-1], a, b, rank, n);
      EvalOptAgrees(ps[|ps|-1], a, b, rank, n);
    }
  }

  lemma {:induction false} DefaultAgrees(ds: seq<Default>, i: nat, a: Assignment, b: Assignment, rank: Rank, n: nat)
    requires i <= |ds| && AgreeBelow(a, b, rank, n)
    requires forall k :: 0 <= k < |ds| ==> BelowOpt(ds[k].cond, rank, n)
    ensures ActiveDefault(ds, i, ValuesOf(a)) == ActiveDefault(ds, i, ValuesOf(b))
    decreases |ds| - i
  {
    if i < |ds| {
      EvalOptAgrees(ds[i].cond, a, b, rank, n);
      DefaultAgrees(ds, i + 1, a, b, rank, n);
    }
  }

  lemma {:induction false} RangeAgrees(rs: seq<Range>, i: nat, a: Assignment, b: Assignment, rank: Rank, n: nat)
    requires i <= |rs| && AgreeBelow(a, b, rank, n)
    requires forall k :: 0 <= k < |rs| ==> BelowOpt(rs[k].cond, rank, n)
    ensures ActiveRange(rs, i, ValuesOf(a)) == ActiveRange(rs, i, ValuesOf(b))
    decreases |rs| - i
  {
    if i < |rs| {
      EvalOptAgrees(rs[i].cond, a, b, rank, n);
      RangeAgrees(rs, i + 1, a, b, rank, n);
    }
  }

  /** The parts of a meaning depend only on lower-ranked symbols. */
  lemma PartsAgree(c: Config, s: Symbol, a: Assignment, b: Assignment, rank: Rank)
    requires Ranked(c, rank) && AgreeBelow(a, b, rank, rank(s))
    ensures var d := DeclOf(c, s);
            && FrameOf(s, d, ValuesOf(a), a(c.modules).tri) == FrameOf(s, d, ValuesOf(b), b(c.modules).tri)
            && DefaultTri(d, ValuesOf(a)) == DefaultTri(d, ValuesOf(b))
            && DefaultSymbol(d, ValuesOf(a)) == DefaultSymbol(d, ValuesOf(b))
            && DefaultText(d, a) == DefaultText(d, b)
            && (forall text :: InRange(s, d, text, a) == InRange(s, d, text, b))
            && BoolLike(s.typ, a(c.modules).tri) == BoolLike(s.typ, b(c.modules).tri)
  {
    var d, n := DeclOf(c, s), rank(s);
    assert RankedAt(c, rank, s);
    assert s.typ == STristate ==> a(c.modules) == b(c.modules);
    PromptAgrees(d.prompts, a, b, rank, n);
    EvalOptAgrees(d.dirDep, a, b, rank, n);
    EvalOptAgrees(d.revDep, a, b, rank, n);
    EvalOptAgrees(d.implied, a, b, rank, n);
    DefaultAgrees(d.defaults, 0, a, b, rank, n);
    RangeAgrees(d.ranges, 0, a, b, rank, n);
    var k := ActiveDefault(d.defaults, 0, ValuesOf(a));
    if k < |d.defaults| {
      EvalAgrees(d.defaults[k].value, a, b, rank, n);
      EvalOptAgrees(d.defaults[k].cond, a, b, rank, n);
    }
    var r := ActiveRange(d.ranges, 0, ValuesOf(a));
    if r < |d.ranges| {
      assert a(d.ranges[r].lo) == b(d.ranges[r].lo) && a(d.ranges[r].hi) == b(d.ranges[r].hi);
    }
  }

  lemma MeaningAgrees(c: Config, u: Users, s: Symbol, a: Assignment, b: Assignment, rank: Rank)
    requires Ranked(c, rank) && AgreeBelow(a, b, rank, rank(s))
    ensures Meaning(c, u, s, a) == Meaning(c, u, s, b)
  {
    PartsAgree(c, s, a, b, rank);
  }

  // ---- existence and uniqueness ----

  /** The result of a symbol, computed from the results of lower-ranked ones. */
  ghost function Solve(c: Config, u: Users, rank: Rank, s: Symbol): Result
    decreases rank(s)
  {
    Meaning(c, u, s, t => if rank(t) < rank(s) then Solve(c, u, rank, t) else BLANK)
  }

  ghost function Solution(c: Config, u: Users, rank: Rank): Assignment {
    s => Solve(c, u, rank, s)
  }

  /** An acyclic configuration has a solution. */
  lemma SolutionExists(c: Config, u: Users, rank: Rank)
    requires Ranked(c, rank)
    ensures IsSolution(c, u, Solution(c, u, rank))
  {
    var a := Solution(c, u, rank);
    forall s: Symbol
      ensures SolvedAt(c, u, a, s)
    {
      var b := t => if rank(t) < rank(s) then Solve(c, u, rank, t) else BLANK;
      assert a(s) == Meaning(c, u, s, b);
      MeaningAgrees(c, u, s, a, b, rank);
    }
  }

  /** Two solutions for user values that agree below `n` agree below `n`. */
  lemma {:induction false} SolutionsAgree(c: Config, u: Users, u': Users, a: Assignment, b: Assignment, rank: Rank,
      n: nat)
    requires Ranked(c, rank) && IsSolution(c, u, a) && IsSolution(c, u', b)
    requires forall s: Symbol :: rank(s) < n ==> UserOf(u, s) == UserOf(u', s)
    ensures AgreeBelow(a, b, rank, n)
  {
    if n > 0 {
      SolutionsAgree(c, u, u', a, b, rank, n - 1);
      forall s: Symbol | rank(s) < n
        ensures a(s) == b(s)
      {
        if rank(s) == n - 1 {
          assert SolvedAt(c, u, a, s) && SolvedAt(c, u', b, s);
          assert UserOf(u, s) == UserOf(u', s);
          MeaningAgrees(c, u, s, a, b, rank);
        }
      }
    }
  }

  /** The solution of an acyclic configuration is unique. */
  lemma SolutionUnique(c: Config, u: Users, a: Assignment, b: Assignment, rank: Rank, s: Symbol)
    requires Ranked(c, rank) && IsSolution(c, u, a) && IsSolution(c, u, b)
    ensures a(s) == b(s)
  {
    SolutionsAgree(c, u, u, a, b, rank, rank(s) + 1);
  }

  /** Every solution is a well-typed valuation, so the simplifier's theorems apply to it. */
  lemma SolutionWellTyped(c: Config, u: Users, a: Assignment)
    requires IsSolution(c, u, a)
    ensures WellTyped(ValuesOf(a))
  {
    assert SolvedAt(c, u, a, SYM_YES) && SolvedAt(c, u, a, SYM_MOD) && SolvedAt(c, u, a, SYM_NO);
    var v := ValuesOf(a);
    forall s: Symbol | IsTriType(s.typ)
      ensures v(s).str == Render(v(s).tri) && (s.typ == SBoolean ==> v(s).tri != MOD)
    {
      assert SolvedAt(c, u, a, s);
    }
    forall s: Symbol | IsConstant(s)
      ensures v(s).str == s.name
    {
      assert SolvedAt(c, u, a, s);
    }
  }

  /** In every solution an int or hex symbol with an ordered active range, non-negative for hex, lies inside it. */
  lemma SolutionInRange(c: Config, u: Users, a: Assignment, s: Symbol)
    requires IsSolution(c, u, a) && (s.typ == SInt || s.typ == SHex)
    requires ActiveRange(DeclOf(c, s).ranges, 0, ValuesOf(a)) < |DeclOf(c, s).ranges|
    ensures var r := DeclOf(c, s).ranges[ActiveRange(DeclOf(c, s).ranges, 0, ValuesOf(a))];
            var lo := BoundValue(r.lo.typ, a(r.lo).val, BaseOf(s.typ));
            var hi := BoundValue(r.hi.typ, a(r.hi).val, BaseOf(s.typ));
            lo <= hi && (s.typ == SHex ==> 0 <= lo) ==> lo <= Number(s.typ, a(s).val) <= hi
  {
    var d := DeclOf(c, s);
    var r := d.ranges[ActiveRange(d.ranges, 0, ValuesOf(a))];
    var lo, hi := BoundValue(r.lo.typ, a(r.lo).val, BaseOf(s.typ)), BoundValue(r.hi.typ, a(r.hi).val, BaseOf(s.typ));
    assert SolvedAt(c, u, a, s);
    BoundFits(r.lo.typ, a(r.lo).val, BaseOf(s.typ));
    BoundFits(r.hi.typ, a(r.hi).val, BaseOf(s.typ));
    if lo <= hi && (s.typ == SHex ==> 0 <= lo) {
      var f := FrameOf(s, d, ValuesOf(a), a(c.modules).tri);
      ClampSound(s.typ, ChosenText(f, UserOf(u, s), DefaultText(d, a)), lo, hi);
    }
  }
}

/**
 The demand-driven, memoising evaluator of symbol.c: sym_calc_value, sym_calc_visibility and
 expr_calc_value calling each other over shared symbol state.  The VALID flag is set before
 a symbol's value is known; `stack` is the set of symbols for which that is so.
 */
module Evaluator {
  import opened Tristates
  import opened CStrings
  import opened Exprs
  import opened Ranges
  import opened Configs

  const CONSTS := {SYM_YES, SYM_MOD, SYM_NO}

  /** The modules symbol is a declared one, or n when there is none. */
  predicate ModulesOk(c: Config) { IsTyped(c.modules.typ) || c.modules == SYM_NO }

  /** `r` with the visibility and dependency values of `f`. */
  function WithFrame(r: Result, f: Result): Result {
    r.(visible := f.visible, dirDep := f.dirDep, revDep := f.revDep, implied := f.implied)
  }

  lemma PromptSnoc(ps: seq<Option<Expr>>, i: nat, v: Valuation)
    requires i < |ps|
    ensures PromptTri(ps[..i+1], v) == OrTri(PromptTri(ps[..i], v), EvalOpt(ps[i], v))
  {
    assert ps[..i+1][..i] == ps[..i];
  }

  /** What the constants y, m and n hold from the start. */
  function ConstResult(s: Symbol): Result {
    BLANK.(tri := if s == SYM_YES then YES else if s == SYM_MOD then MOD else NO, val := s.name)
  }

  lemma SomeSolution(c: Config, u: Users, rank: Rank) returns (a: Assignment)
    requires Ranked(c, rank)
    ensures IsSolution(c, u, a)
  {
    SolutionExists(c, u, rank);
    a := Solution(c, u, rank);
  }

  class Engine {
    const cfg: Config
    ghost const rank: Rank
    var users: Users
    var valid: set<Symbol>
    var cells: map<Symbol, Result>
    var modulesVal: Tristate
    ghost var stack: set<Symbol>
    ghost var sol: Assignment

    /** What the memory of a symbol holds; never written memory is zero. */
    function CellOf(s: Symbol): Result
      reads this`cells
    {
      if s in cells then cells[s] else BLANK
    }

    ghost predicate Settled(s: Symbol)
      reads this
    {
      s in valid && s !in stack
    }

    /** Every VALID symbol off the evaluation stack holds the result the configuration gives it. */
    ghost predicate Inv()
      reads this
    {
      && Ranked(cfg, rank) && ModulesOk(cfg) && IsSolution(cfg, users, sol)
      && stack <= valid && CONSTS <= valid - stack
      && (forall s :: Settled(s) ==> CellOf(s) == sol(s))
      && (cfg.modules !in stack ==> modulesVal == CellOf(cfg.modules).tri)
    }

    /** Symbols ranked below `n` can be evaluated: none is under evaluation and MODULES is known if they need it. */
    ghost predicate Ready(n: nat)
      reads this
    {
      && (forall t :: t in stack ==> n <= rank(t))
      && (Settled(cfg.modules) || n <= rank(cfg.modules) + 1)
    }

    /** A recursive evaluation keeps the stack, what is on it and everything already valid. */
    twostate predicate Kept()
      reads this
    {
      && stack == old(stack) && users == old(users) && sol == old(sol) && old(valid) <= valid
      && (cfg.modules in stack ==> modulesVal == old(modulesVal))
      && forall t :: t in stack ==> CellOf(t) == old(CellOf(t))
    }

    /** As Kept, but the fields of `s` are the caller's business. */
    twostate predicate KeptBut(s: Symbol)
      reads this
    {
      && stack == old(stack) && users == old(users) && sol == old(sol) && old(valid) <= valid
      && (cfg.modules in stack ==> modulesVal == old(modulesVal))
      && forall t :: t in stack && t != s ==> CellOf(t) == old(CellOf(t))
    }

    constructor (c: Config, u: Users, ghost r: Rank)
      requires Ranked(c, r) && ModulesOk(c)
      ensures Inv() && stack == {} && users == u && cfg == c && rank == r && valid == CONSTS
    {
      cfg, rank, users, stack, modulesVal := c, r, u, {}, NO;
      valid := CONSTS;
      cells := map[SYM_YES := ConstResult(SYM_YES), SYM_MOD := ConstResult(SYM_MOD), SYM_NO := ConstResult(SYM_NO)];
      sol := Solution(c, u, r);
      new;
      SolutionExists(c, u, r);
      ConstResults();
      forall s | s in CONSTS
        ensures CellOf(s) == sol(s)
      {
        assert s == SYM_YES || s == SYM_MOD || s == SYM_NO;
      }
    }

    /** Every solution gives the constants their values. */
    lemma ConstResults()
      requires IsSolution(cfg, users, sol)
      ensures forall s :: s in CONSTS ==> sol(s) == ConstResult(s)
    {
      forall s | s in CONSTS
        ensures sol(s) == ConstResult(s)
      {
        assert SolvedAt(cfg, users, sol, s);
      }
    }

    /** Nothing is under evaluation and MODULES is known. */
    ghost predicate Idle()
      reads this
    {
      Inv() && stack == {} && Settled(cfg.modules)
    }

    /** sym_clear_all_valid: nothing but the constants stays valid, and MODULES is evaluated at once. */
    method ClearAllValid()
      requires Inv() && stack == {}
      modifies this
      ensures Idle() && users == old(users) && sol == old(sol)
    {
      valid := CONSTS;
      CalcValue(cfg.modules);
    }

    /** The user's values are replaced; every result has to be found anew. */
    method SetUsers(u: Users)
      requires Inv() && stack == {}
      modifies this
      ensures Idle() && users == u
    {
      ReplaceUsers(u);
      CalcValue(cfg.modules);
    }

    method ReplaceUsers(u: Users)
      requires Inv() && stack == {}
      modifies this
      ensures Inv() && stack == {} && users == u
    {
      ConstsHeld();
      users := u;
      sol := SomeSolution(cfg, u, rank);
      valid := CONSTS;
      ConstResults();
    }

    /** The constants hold their values. */
    lemma ConstsHeld()
      requires Inv() && stack == {}
      ensures forall s :: s in CONSTS ==> CellOf(s) == ConstResult(s)
    {
      ConstResults();
      assert forall s :: s in CONSTS ==> Settled(s);
    }

    /**
     Evaluation on demand, in any order and with any repetition: every symbol asked for ends
     up with the value, visibility and WRITE flag of the one solution of the configuration.
     */
    method Evaluate(order: seq<Symbol>)
      requires Idle()
      modifies this
      ensures Idle() && users == old(users)
      ensures forall s :: s in order ==> s in valid
      ensures forall s, a: Assignment :: s in valid && IsSolution(cfg, users, a) ==> CellOf(s) == a(s)
    {
      for i := 0 to |order|
        invariant Idle() && users == old(users)
        invariant forall k :: 0 <= k < i ==> order[k] in valid
      {
        CalcValue(order[i]);
      }
      forall s, a: Assignment | s in valid && IsSolution(cfg, users, a)
        ensures CellOf(s) == a(s)
      {
        assert Settled(s);
        SolutionUnique(cfg, users, sol, a, rank, s);
      }
    }

    // ---- expr_calc_value ----

    method ExprCalcValue(e: Expr, ghost n: nat) returns (r: Tristate)
      requires Inv() && Below(e, rank, n) && Ready(n)
      modifies this
      ensures Inv() && Kept()
      ensures r == Eval(e, ValuesOf(sol))
      decreases n, 0, e
    {
      match e
      case Sym(s) =>
        CalcValue(s);
        r := CellOf(s).tri;
      case And(a, b) =>
        var x := ExprCalcValue(a, n);
        var y := ExprCalcValue(b, n);
        r := AndTri(x, y);
      case Or(a, b) =>
        var x := ExprCalcValue(a, n);
        var y := ExprCalcValue(b, n);
        r := OrTri(x, y);
      case Not(a) =>
        var x := ExprCalcValue(a, n);
        r := NotTri(x);
      case Cmp(op, a, b) =>
        CalcValue(a);
        CalcValue(b);
        var x := StringValue(a);
        var y := StringValue(b);
        r := FromBool(Compare(op, x, a.typ, y, b.typ));
    }

    method OptCalcValue(e: Option<Expr>, default: Tristate, ghost n: nat) returns (r: Tristate)
      requires Inv() && BelowOpt(e, rank, n) && Ready(n)
      modifies this
      ensures Inv() && Kept()
      ensures r == if e.Some? then Eval(e.value, ValuesOf(sol)) else default
      decreases n, 1
    {
      if e.Some? { r := ExprCalcValue(e.value, n); } else { r := default; }
    }

    // ---- sym_get_string_value ----

    method StringValue(s: Symbol) returns (r: string)
      requires Inv() && Settled(s) && Ready(rank(s) + 1)
      modifies this
      ensures Inv() && Kept()
      ensures r == Shown(s, sol(s))
      decreases rank(s), 1
    {
      if IsTriType(s.typ) {
        var t := CellOf(s).tri;
        if t == NO {
          r := "n";
        } else if t == YES {
          r := "y";
        } else {
          ModMeansModules(s);
          CalcValue(cfg.modules);
          r := if CellOf(cfg.modules).tri == NO then "n" else "m";
        }
      } else {
        r := CellOf(s).val;
      }
    }

    /** Only a tristate can be m, and only with modules. */
    lemma ModMeansModules(s: Symbol)
      requires Inv() && IsTriType(s.typ) && sol(s).tri == MOD
      ensures s.typ == STristate && sol(cfg.modules).tri != NO && rank(cfg.modules) < rank(s)
    {
      assert RankedAt(cfg, rank, s);
      assert SolvedAt(cfg, users, sol, s);
    }

    // ---- sym_calc_visibility ----

    lemma PromptsBelow(s: Symbol)
      requires Inv()
      ensures forall i :: 0 <= i < |DeclOf(cfg, s).prompts| ==> BelowOpt(DeclOf(cfg, s).prompts[i], rank, rank(s))
    {
      assert RankedAt(cfg, rank, s);
    }

    method PromptValue(s: Symbol) returns (tri: Tristate)
      requires Inv() && ReadyBut(s)
      modifies this
      ensures Inv() && Kept()
      ensures tri == PromptTri(DeclOf(cfg, s).prompts, ValuesOf(sol))
      decreases rank(s), 2
    {
      var ps := DeclOf(cfg, s).prompts;
      PromptsBelow(s);
      tri := NO;
      var i := 0;
      while i < |ps|
        invariant 0 <= i <= |ps|
        invariant Inv() && Kept() && ReadyBut(s)
        invariant tri == PromptTri(ps[..i], ValuesOf(sol))
      {
        PromptSnoc(ps, i, ValuesOf(sol));
        var x := OptCalcValue(ps[i], YES, rank(s));
        tri := OrTri(tri, x);
        i := i + 1;
      }
      assert ps[..i] == ps;
    }

    /** A dependency value, raised to y where the symbol cannot be m. */
    method DepValue(s: Symbol, e: Option<Expr>, default: Tristate) returns (tri: Tristate)
      requires Inv() && ReadyBut(s) && BelowOpt(e, rank, rank(s))
      modifies this
      ensures Inv() && Kept()
      ensures tri == Lift(s.typ, sol(cfg.modules).tri, if e.Some? then Eval(e.value, ValuesOf(sol)) else default)
      decreases rank(s), 2
    {
      tri := OptCalcValue(e, default, rank(s));
      ModulesKnown(s);
      if tri == MOD && BoolLike(s.typ, modulesVal) { tri := YES; }
    }

    method CalcVisibility(s: Symbol)
      requires Inv() && s in stack && IsTyped(s.typ) && ReadyBut(s)
      modifies this
      ensures Inv() && KeptBut(s)
      ensures CellOf(s) == WithFrame(old(CellOf(s)), sol(s))
      decreases rank(s), 5
    {
      CalcPrompts(s);
      CalcDeps(s);
    }

    /** sym->visible from the prompts. */
    method CalcPrompts(s: Symbol)
      requires Inv() && s in stack && IsTyped(s.typ) && ReadyBut(s)
      modifies this
      ensures Inv() && KeptBut(s)
      ensures CellOf(s) == old(CellOf(s)).(visible := sol(s).visible)
      decreases rank(s), 3
    {
      var tri := PromptValue(s);
      ModulesKnown(s);
      FrameMeaning(s);
      if tri == MOD && (s.typ != STristate || modulesVal == NO) { tri := YES; }
      Update(s, CellOf(s).(visible := tri));
    }

    /** sym->dir_dep.tri, sym->rev_dep.tri and sym->implied.tri. */
    method CalcDeps(s: Symbol)
      requires Inv() && s in stack && IsTyped(s.typ) && ReadyBut(s)
      modifies this
      ensures Inv() && KeptBut(s)
      ensures CellOf(s) == old(CellOf(s)).(dirDep := sol(s).dirDep, revDep := sol(s).revDep, implied := sol(s).implied)
      decreases rank(s), 4
    {
      var dir, rev, implied := DepValues(s);
      Update(s, CellOf(s).(dirDep := dir, revDep := rev, implied := implied));
    }

    method DepValues(s: Symbol) returns (dir: Tristate, rev: Tristate, implied: Tristate)
      requires Inv() && IsTyped(s.typ) && ReadyBut(s)
      modifies this
      ensures Inv() && Kept()
      ensures dir == sol(s).dirDep && rev == sol(s).revDep && implied == sol(s).implied
      decreases rank(s), 3
    {
      var d := DeclOf(cfg, s);
      DepsBelow(s);
      dir := DepValue(s, d.dirDep, YES);
      rev := DepValue(s, d.revDep, NO);
      implied := NO;
      if dir != NO {
        implied := DepValue(s, d.implied, NO);
      }
      FrameMeaning(s);
    }

    lemma DepsBelow(s: Symbol)
      requires Inv()
      ensures var d := DeclOf(cfg, s);
              BelowOpt(d.dirDep, rank, rank(s)) && BelowOpt(d.revDep, rank, rank(s)) &&
                BelowOpt(d.implied, rank, rank(s))
    {
      assert RankedAt(cfg, rank, s);
    }

    /** Visibility and dependency values the configuration gives a typed symbol. */
    lemma FrameMeaning(s: Symbol)
      requires Inv() && IsTyped(s.typ)
      ensures var f := FrameOf(s, DeclOf(cfg, s), ValuesOf(sol), sol(cfg.modules).tri);
              sol(s).visible == f.visible && sol(s).dirDep == f.dirDep && sol(s).revDep == f.revDep &&
                sol(s).implied == f.implied
    {
      assert SolvedAt(cfg, users, sol, s);
    }

    /** `s` itself is under evaluation; symbols below it can be evaluated. */
    ghost predicate ReadyBut(s: Symbol)
      reads this
    {
      Ready(rank(s)) && (Settled(cfg.modules) || rank(s) <= rank(cfg.modules))
    }

    /** A tristate is evaluated only when MODULES is known. */
    lemma ModulesKnown(s: Symbol)
      requires Inv() && ReadyBut(s)
      ensures s.typ == STristate ==> modulesVal == sol(cfg.modules).tri
      ensures BoolLike(s.typ, modulesVal) == BoolLike(s.typ, sol(cfg.modules).tri)
    {
      assert RankedAt(cfg, rank, s);
    }

    method Update(s: Symbol, r: Result)
      requires Inv() && s in stack && IsTyped(s.typ)
      modifies this`cells
      ensures Inv() && CellOf(s) == r && cells == old(cells)[s := r]
    {
      cells := cells[s := r];
    }

    // ---- sym_get_default_prop, sym_get_range_prop ----

    method DefaultProp(s: Symbol) returns (k: nat, tri: Tristate)
      requires Inv() && ReadyBut(s)
      modifies this
      ensures Inv() && Kept()
      ensures var ds := DeclOf(cfg, s).defaults;
              k == ActiveDefault(ds, 0, ValuesOf(sol)) && (k < |ds| ==> tri == EvalOpt(ds[k].cond, ValuesOf(sol)))
      decreases rank(s), 2
    {
      var ds := DeclOf(cfg, s).defaults;
      assert RankedAt(cfg, rank, s);
      k, tri := 0, NO;
      while k < |ds|
        invariant 0 <= k <= |ds| && Inv() && Kept() && ReadyBut(s)
        invariant ActiveDefault(ds, k, ValuesOf(sol)) == ActiveDefault(ds, 0, ValuesOf(sol))
      {
        tri := OptCalcValue(ds[k].cond, YES, rank(s));
        if tri != NO { return; }
        k := k + 1;
      }
    }

    method RangeProp(s: Symbol) returns (k: nat)
      requires Inv() && ReadyBut(s)
      modifies this
      ensures Inv() && Kept()
      ensures k == ActiveRange(DeclOf(cfg, s).ranges, 0, ValuesOf(sol))
      decreases rank(s), 2
    {
      var rs := DeclOf(cfg, s).ranges;
      assert RankedAt(cfg, rank, s);
      k := 0;
      while k < |rs|
        invariant 0 <= k <= |rs| && Inv() && Kept() && ReadyBut(s)
        invariant ActiveRange(rs, k, ValuesOf(sol)) == ActiveRange(rs, 0, ValuesOf(sol))
      {
        var tri := OptCalcValue(rs[k].cond, YES, rank(s));
        if tri != NO { return; }
        k := k + 1;
      }
    }

    // ---- sym_validate_range ----

    method ValidateRange(s: Symbol)
      requires Inv() && s in stack && IsTyped(s.typ) && ReadyBut(s)
      modifies this
      ensures Inv() && KeptBut(s)
      ensures CellOf(s) == old(CellOf(s)).(val := InRange(s, DeclOf(cfg, s), old(CellOf(s)).val, sol))
      decreases rank(s), 4
    {
      if s.typ == SInt || s.typ == SHex {
        var text := RangedText(s, CellOf(s).val);
        Update(s, CellOf(s).(val := text));
      }
    }

    method RangedText(s: Symbol, text: string) returns (r: string)
      requires Inv() && (s.typ == SInt || s.typ == SHex) && ReadyBut(s)
      modifies this
      ensures Inv() && Kept()
      ensures r == InRange(s, DeclOf(cfg, s), text, sol)
      decreases rank(s), 3
    {
      r := text;
      var base := BaseOf(s.typ);
      var rs := DeclOf(cfg, s).ranges;
      BoundsBelow(s);
      var k := RangeProp(s);
      if k == |rs| { return; }
      var val := StrToLL(text, base).value;
      var bound := RangeValue(rs[k].lo, base, rank(s));
      if val >= bound {
        bound := RangeValue(rs[k].hi, base, rank(s));
        if val <= bound { return; }
      }
      r := Print(s.typ, bound);
    }

    lemma BoundsBelow(s: Symbol)
      requires Inv()
      ensures var rs := DeclOf(cfg, s).ranges;
              forall i :: 0 <= i < |rs| ==> rank(rs[i].lo) < rank(s) && rank(rs[i].hi) < rank(s)
    {
      assert RankedAt(cfg, rank, s);
    }

    method RangeValue(t: Symbol, base: nat, ghost n: nat) returns (r: int)
      requires Inv() && base in {10, 16} && rank(t) < n && Ready(n)
      modifies this
      ensures Inv() && Kept()
      ensures r == BoundValue(t.typ, sol(t).val, base)
      decreases n, 1
    {
      CalcValue(t);
      r := BoundValue(t.typ, CellOf(t).val, base);
    }

    // ---- sym_calc_value ----

    method CalcValue(s: Symbol)
      requires Inv() && Ready(rank(s) + 1)
      modifies this
      ensures Inv() && Kept()
      ensures Settled(s) && CellOf(s) == sol(s)
      decreases rank(s), 9
    {
      if s in valid { return; }
      var before := CellOf(s);
      Begin(s);
      if IsTyped(s.typ) {
        Update(s, before.(write := false));
        CalcTyped(s);
        Finish(s, before);
      } else {
        FinishUntyped(s);
      }
    }

    /** VALID is set first, so that a recursive call would return at once. */
    method Begin(s: Symbol)
      requires Inv() && s !in valid
      modifies this`valid, this`stack
      ensures Inv() && valid == old(valid) + {s} && stack == old(stack) + {s}
    {
      valid, stack := valid + {s}, stack + {s};
    }

    /** An untyped symbol is its own name. */
    method FinishUntyped(s: Symbol)
      requires Inv() && s in stack && !IsTyped(s.typ)
      modifies this`cells, this`stack
      ensures Inv() && stack == old(stack) - {s} && CellOf(s) == sol(s)
      ensures forall t :: t != s ==> CellOf(t) == old(CellOf(t))
    {
      assert SolvedAt(cfg, users, sol, s);
      cells := cells[s := BLANK.(val := s.name)];
      stack := stack - {s};
    }

    /** MODULES publishes its value; a symbol bound to the environment is never written. */
    method Finish(s: Symbol, before: Result)
      requires Inv() && s in stack && IsTyped(s.typ)
      requires Matches(CellOf(s), s)
      requires s == cfg.modules ==> modulesVal == before.tri
      modifies this`cells, this`stack, this`modulesVal
      ensures Inv() && stack == old(stack) - {s} && CellOf(s) == sol(s)
      ensures forall t :: t != s ==> CellOf(t) == old(CellOf(t))
      ensures s != cfg.modules ==> modulesVal == old(modulesVal)
    {
      if s == cfg.modules && (CellOf(s).tri, CellOf(s).val) != (before.tri, before.val) {
        modulesVal := CellOf(s).tri;
      }
      if DeclOf(cfg, s).auto { Update(s, CellOf(s).(write := false)); }
      stack := stack - {s};
    }

    /** Visibility, then the value of the symbol's kind, then its range. */
    method CalcTyped(s: Symbol)
      requires Inv() && s in stack && IsTyped(s.typ) && ReadyBut(s) && !CellOf(s).write
      modifies this
      ensures Inv() && KeptBut(s)
      ensures Matches(CellOf(s), s)
      decreases rank(s), 7
    {
      CalcVisibility(s);
      Update(s, CellOf(s).(write := CellOf(s).visible != NO, tri := NO, val := if IsTriType(s.typ) then "n" else ""));
      CalcKind(s);
    }

    method CalcKind(s: Symbol)
      requires Inv() && s in stack && IsTyped(s.typ) && ReadyBut(s)
      requires var val := if IsTriType(s.typ) then "n" else "";
               CellOf(s) == WithFrame(Result(NO, val, NO, sol(s).visible != NO, NO, NO, NO), sol(s))
      modifies this
      ensures Inv() && KeptBut(s)
      ensures Matches(CellOf(s), s)
      decreases rank(s), 6
    {
      if IsTriType(s.typ) {
        CalcTri(s);
      } else {
        CalcText(s);
      }
      ValidateRange(s);
    }

    /** `r` is the result of `s`, but for the WRITE flag that a symbol bound to the environment loses at the end. */
    ghost predicate Matches(r: Result, s: Symbol)
      reads this
    {
      r.(write := r.write && !DeclOf(cfg, s).auto) == sol(s)
    }

    /** The bool and tristate branch. */
    method CalcTri(s: Symbol)
      requires Inv() && s in stack && IsTriType(s.typ) && ReadyBut(s)
      requires CellOf(s) == WithFrame(Result(NO, "n", NO, sol(s).visible != NO, NO, NO, NO), sol(s))
      modifies this
      ensures Inv() && KeptBut(s)
      ensures Matches(CellOf(s), s)
      decreases rank(s), 5
    {
      var cell := CellOf(s);
      var default := DefaultUnlessUser(s);
      var tri, write := ChooseTri(cell, UserOf(users, s), default, BoolLike(s.typ, modulesVal));
      Update(s, cell.(tri := tri, write := write));
    }

    /** The default is looked up only if the user's value does not count. */
    method DefaultUnlessUser(s: Symbol) returns (default: Tristate)
      requires Inv() && IsTriType(s.typ) && ReadyBut(s) && CellOf(s).visible == sol(s).visible && s in stack
      modifies this
      ensures Inv() && Kept()
      ensures var r := sol(s);
              Matches(TriResult(Frame(r.visible, r.dirDep, r.revDep, r.implied), UserOf(users, s), default,
                                BoolLike(s.typ, modulesVal), false), s)
      decreases rank(s), 4
    {
      default := NO;
      if CellOf(s).visible == NO || s !in users { default := DefaultValue(s); }
      ModulesKnown(s);
      TriMeaning(s);
    }

    /** The user's value if there is one and it counts, else the default and the implies; then the selects. */
    static method ChooseTri(cell: Result, user: Option<Value>, default: Tristate, boolLike: bool)
      returns (tri: Tristate, write: bool)
      requires cell.write == (cell.visible != NO)
      ensures var f := Frame(cell.visible, cell.dirDep, cell.revDep, cell.implied);
              var r := TriResult(f, user, default, boolLike, false);
              tri == r.tri && write == r.write
    {
      tri, write := NO, cell.write;
      if cell.visible != NO && user.Some? {
        tri := AndTri(user.value.tri, cell.visible);
      } else {
        if cell.revDep != NO { write := true; }
        tri := default;
        if tri != NO { write := true; }
        if cell.implied != NO {
          write, tri := true, OrTri(tri, cell.implied);
        }
      }
      tri := OrTri(tri, cell.revDep);
      if tri == MOD && (boolLike || cell.implied == YES) { tri := YES; }
    }

    /** The value the configuration gives a bool or tristate, from its own visibility and dependency values. */
    lemma TriMeaning(s: Symbol)
      requires Inv() && IsTriType(s.typ)
      ensures var r := sol(s);
              r == TriResult(Frame(r.visible, r.dirDep, r.revDep, r.implied), UserOf(users, s),
                             DefaultTri(DeclOf(cfg, s), ValuesOf(sol)), BoolLike(s.typ, sol(cfg.modules).tri),
                               DeclOf(cfg, s).auto)
    {
      assert SolvedAt(cfg, users, sol, s);
    }

    method DefaultValue(s: Symbol) returns (tri: Tristate)
      requires Inv() && ReadyBut(s)
      modifies this
      ensures Inv() && Kept()
      ensures tri == DefaultTri(DeclOf(cfg, s), ValuesOf(sol))
      decreases rank(s), 3
    {
      tri := NO;
      assert RankedAt(cfg, rank, s);
      var k, cond := DefaultProp(s);
      if k < |DeclOf(cfg, s).defaults| {
        var x := ExprCalcValue(DeclOf(cfg, s).defaults[k].value, rank(s));
        tri := AndTri(x, cond);
      }
    }

    /** The string, int and hex branch. */
    method CalcText(s: Symbol)
      requires Inv() && s in stack && IsTyped(s.typ) && !IsTriType(s.typ) && ReadyBut(s)
      requires CellOf(s) == WithFrame(Result(NO, "", NO, sol(s).visible != NO, NO, NO, NO), sol(s))
      modifies this
      ensures Inv() && KeptBut(s)
      ensures Matches(CellOf(s).(val := InRange(s, DeclOf(cfg, s), CellOf(s).val, sol)), s)
      decreases rank(s), 5
    {
      var cell := CellOf(s);
      var text, write := "", cell.write;
      if cell.visible != NO && s in users {
        text := users[s].str;
      } else {
        var ds := DefaultText(s);
        if ds.Some? {
          write, text := true, CellOf(ds.value).val;
        }
      }
      Update(s, cell.(val := text, write := write));
      TextMeaning(s);
    }

    /** Evaluates the symbol that the active default names. */
    method DefaultText(s: Symbol) returns (ds: Option<Symbol>)
      requires Inv() && ReadyBut(s)
      modifies this
      ensures Inv() && Kept()
      ensures ds == DefaultSymbol(DeclOf(cfg, s), ValuesOf(sol))
      ensures ds.Some? ==> CellOf(ds.value).val == sol(ds.value).val && ds.value !in stack
      decreases rank(s), 4
    {
      var defaults := DeclOf(cfg, s).defaults;
      assert RankedAt(cfg, rank, s);
      var k, _ := DefaultProp(s);
      ds := None;
      if k < |defaults| && defaults[k].value.Sym? {
        ds := Some(defaults[k].value.sym);
        CalcValue(ds.value);
      }
    }

    /** The value the configuration gives a string, int or hex, from its own visibility and dependency values. */
    lemma TextMeaning(s: Symbol)
      requires Inv() && IsTyped(s.typ) && !IsTriType(s.typ)
      ensures var r, d := sol(s), DeclOf(cfg, s);
              var f := Frame(r.visible, r.dirDep, r.revDep, r.implied);
              r == TextResult(f, InRange(s, d, ChosenText(f, UserOf(users, s), Configs.DefaultText(d, sol)), sol),
                              DefaultSymbol(d, ValuesOf(sol)).Some?, d.auto)
    {
      assert SolvedAt(cfg, users, sol, s);
    }
  }
}

/** sym_set_tristate_value and sym_toggle_tristate_value on evaluated, choice-free symbols. */
module Setters {
  import opened Tristates
  import opened Exprs
  import opened Configs
  import opened Evaluator

  /** sym_tristate_within_range */
  predicate TriWithinRange(typ: SymType, r: Result, modules: Tristate, val: Tristate) {
    && r.visible != NO
    && IsTriType(typ)
    && !(BoolLike(typ, modules) && val == MOD)
    && r.visible > r.revDep
    && !(r.implied == YES && val == MOD)
    && r.revDep <= val <= r.visible
  }

  /**
   Setting a symbol to the value it already has is accepted without a range check.  The one
   family in which the value is then lost: no user value yet, a default of y above a
   visibility of m, and nothing that forces y.
   */
  predicate Drops(r: Result, hadUser: bool, val: Tristate) {
    !hadUser && r.visible == MOD && r.revDep != YES && r.implied != YES && val == YES
  }

  function Chosen(u: Users, s: Symbol, val: Tristate): Users {
    u[s := Value(val, if s in u then u[s].str else "")]
  }

  /** With another user value for s, everything about s but its value and WRITE flag stays. */
  lemma SameFrame(c: Config, u: Users, s: Symbol, val: Value, a: Assignment, b: Assignment, rank: Rank)
    requires Ranked(c, rank) && IsSolution(c, u, a) && IsSolution(c, u[s := val], b) && IsTriType(s.typ)
    ensures var f := Frame(a(s).visible, a(s).dirDep, a(s).revDep, a(s).implied);
            var d := DefaultTri(DeclOf(c, s), ValuesOf(a));
            var m := BoolLike(s.typ, a(c.modules).tri);
            && a(s) == TriResult(f, UserOf(u, s), d, m, DeclOf(c, s).auto)
            && b(s) == TriResult(f, Some(val), d, m, DeclOf(c, s).auto)
            && (f.visible == MOD ==> !m)
  {
    SolutionsAgree(c, u, u[s := val], a, b, rank, rank(s));
    PartsAgree(c, s, a, b, rank);
    assert SolvedAt(c, u, a, s) && SolvedAt(c, u[s := val], b, s);
  }

  /** An accepted change takes effect; an accepted non-change keeps the value unless it is dropped. */
  lemma SetTakesEffect(c: Config, u: Users, s: Symbol, val: Tristate, a: Assignment, b: Assignment, rank: Rank)
    requires Ranked(c, rank) && IsSolution(c, u, a) && IsSolution(c, Chosen(u, s, val), b) && IsTriType(s.typ)
    ensures TriWithinRange(s.typ, a(s), a(c.modules).tri, val) ==> b(s).tri == val
    ensures a(s).tri == val ==> (b(s).tri == val <==> !Drops(a(s), s in u, val))
    ensures a(s).tri == val && b(s).tri == val ==> b(s) == a(s)
  {
    SameFrame(c, u, s, Chosen(u, s, val)[s], a, b, rank);
  }

  /** Of the values up to the visibility of a changeable symbol exactly those in range would take effect. */
  lemma RangeIsExact(c: Config, u: Users, s: Symbol, val: Tristate, a: Assignment, b: Assignment, rank: Rank)
    requires Ranked(c, rank) && IsSolution(c, u, a) && IsSolution(c, Chosen(u, s, val), b) && IsTriType(s.typ)
    requires val <= a(s).visible && a(s).visible > a(s).revDep
    ensures TriWithinRange(s.typ, a(s), a(c.modules).tri, val) <==> b(s).tri == val
  {
    SameFrame(c, u, s, Chosen(u, s, val)[s], a, b, rank);
  }

  /** A symbol that a select holds as high as it is visible takes no value, and an invisible one neither. */
  lemma SelectedIsFixed(typ: SymType, r: Result, modules: Tristate, val: Tristate)
    requires r.visible <= r.revDep || r.visible == NO
    ensures !TriWithinRange(typ, r, modules, val)
  {
  }

  const EX_MODULES := Symbol("MODULES", SBoolean, false)
  const EX_A := Symbol("A", STristate, false)

  /** MODULES defaults to y; A is a tristate with a prompt visible at m and a default of y. */
  const EX_CONFIG := Config(
    map[EX_MODULES := EMPTY_DECL.(defaults := [Default(None, Sym(SYM_YES))]),
        EX_A := EMPTY_DECL.(prompts := [Some(Sym(SYM_MOD))], defaults := [Default(None, Sym(SYM_YES))])],
    EX_MODULES)

  function ExRank(): Rank {
    s => if s == EX_MODULES then 1 else if s.typ == STristate then 2 else 0
  }

  /** The example can be evaluated, so it has exactly one solution for any user values. */
  lemma ExampleIsRanked()
    ensures Ranked(EX_CONFIG, ExRank())
  {
    forall s: Symbol
      ensures RankedAt(EX_CONFIG, ExRank(), s)
    {
      if s != EX_A && s != EX_MODULES { assert DeclOf(EX_CONFIG, s) == EMPTY_DECL; }
    }
  }

  /** The dropped family is not empty: A is y, is "set" to y, and is m from the next evaluation on. */
  lemma DropsHappens(a: Assignment, b: Assignment)
    requires IsSolution(EX_CONFIG, map[], a) && IsSolution(EX_CONFIG, Chosen(map[], EX_A, YES), b)
    ensures a(EX_A).tri == YES && b(EX_A).tri == MOD
  {
    var u := Chosen(map[], EX_A, YES);
    assert SolvedAt(EX_CONFIG, map[], a, SYM_YES) && SolvedAt(EX_CONFIG, map[], a, SYM_MOD);
    assert SolvedAt(EX_CONFIG, u, b, SYM_YES) && SolvedAt(EX_CONFIG, u, b, SYM_MOD);
    assert SolvedAt(EX_CONFIG, map[], a, EX_MODULES) && SolvedAt(EX_CONFIG, u, b, EX_MODULES);
    assert a(EX_MODULES).tri == YES && b(EX_MODULES).tri == YES;
    assert SolvedAt(EX_CONFIG, map[], a, EX_A) && SolvedAt(EX_CONFIG, u, b, EX_A);
    assert PromptTri([Some(Sym(SYM_MOD))], ValuesOf(a)) == MOD && PromptTri([Some(Sym(SYM_MOD))], ValuesOf(b)) == MOD;
  }

  /** If the result of s is the same, the old solution solves the new configuration state too. */
  lemma SolutionStays(c: Config, u: Users, s: Symbol, val: Tristate, a: Assignment, b: Assignment, rank: Rank)
    requires Ranked(c, rank) && IsSolution(c, u, a) && IsSolution(c, Chosen(u, s, val), b) && b(s) == a(s)
    ensures IsSolution(c, Chosen(u, s, val), a)
  {
    var u' := Chosen(u, s, val);
    forall t: Symbol
      ensures SolvedAt(c, u', a, t)
    {
      assert SolvedAt(c, u, a, t);
      if t == s {
        assert SolvedAt(c, u', b, s);
        SolutionsAgree(c, u, u', a, b, rank, rank(s));
        MeaningAgrees(c, u', s, a, b, rank);
      } else {
        assert UserOf(u', t) == UserOf(u, t);
      }
    }
  }

  /**
   A refused value leaves the engine alone.  An accepted one is stored, and the engine is
   again consistent with s holding `val`, except exactly when the value is dropped: then
   every evaluation to come gives s another value than the one still shown.
   */
  method SetTristate(e: Engine, s: Symbol, val: Tristate) returns (ok: bool)
    requires e.Idle() && e.Settled(s) && IsTriType(s.typ)
    modifies e
    ensures ok == (old(e.CellOf(s)).tri == val || TriWithinRange(s.typ, old(e.CellOf(s)), old(e.modulesVal), val))
    ensures !ok ==> e.users == old(e.users) && e.valid == old(e.valid) && e.cells == old(e.cells) && e.Idle()
    ensures ok ==> e.users == Chosen(old(e.users), s, val)
    ensures var drops := old(e.CellOf(s)).tri == val && Drops(old(e.CellOf(s)), s in old(e.users), val);
            && (ok && !drops ==> e.Idle() && e.sol(s).tri == val)
            && (ok && drops ==> e.CellOf(s).tri == val)
            && (ok && drops ==> forall a: Assignment :: IsSolution(e.cfg, e.users, a) ==> a(s).tri != val)
  {
    var oldval := e.CellOf(s).tri;
    if oldval != val && !TriWithinRange(s.typ, e.CellOf(s), e.modulesVal, val) {
      return false;
    }
    ghost var u, a, m := e.users, e.sol, e.modulesVal;
    ghost var u' := Chosen(u, s, val);
    ghost var b := Solution(e.cfg, u', e.rank);
    SolutionExists(e.cfg, u', e.rank);
    SetTakesEffect(e.cfg, u, s, val, a, b, e.rank);
    if oldval != val {
      e.SetUsers(Chosen(e.users, s, val));
      SolutionUnique(e.cfg, u', e.sol, b, e.rank, s);
    } else {
      if b(s).tri == val { SolutionStays(e.cfg, u, s, val, a, b, e.rank); }
      forall a': Assignment | IsSolution(e.cfg, u', a')
        ensures a'(s) == b(s)
      {
        SolutionUnique(e.cfg, u', a', b, e.rank, s);
      }
      e.users := Chosen(e.users, s, val);
    }
    ok := true;
  }

  /** n -> m -> y -> n */
  function Next(t: Tristate): Tristate {
    if t == YES then NO else t + 1
  }

  /** The first value after `t` in the cycle that is in range; `t` itself if there is none. */
  function NextInRange(typ: SymType, r: Result, modules: Tristate): Tristate {
    var t1 := Next(r.tri);
    var t2 := Next(t1);
    if TriWithinRange(typ, r, modules, t1) then t1
    else if TriWithinRange(typ, r, modules, t2) then t2
    else r.tri
  }

  /** Toggling goes from n to m, from m to y and from y to n, past values out of range. */
  lemma ToggleCycle(typ: SymType, r: Result, modules: Tristate)
    ensures var next, ok := NextInRange(typ, r, modules), (t: Tristate) => TriWithinRange(typ, r, modules, t);
            && (r.tri == NO ==> next == if ok(MOD) then MOD else if ok(YES) then YES else NO)
            && (r.tri == MOD ==> next == if ok(YES) then YES else if ok(NO) then NO else MOD)
            && (r.tri == YES ==> next == if ok(NO) then NO else if ok(MOD) then MOD else YES)
  {
  }

  /**
   The toggle stops within three attempts, at the next admissible value, which s then has.  With
   no other admissible value it comes back to the old one, which can be dropped.
   */
  method Toggle(e: Engine, s: Symbol) returns (newval: Tristate, attempts: nat)
    requires e.Idle() && e.Settled(s) && IsTriType(s.typ)
    modifies e
    ensures attempts <= 3
    ensures newval == NextInRange(s.typ, old(e.CellOf(s)), old(e.modulesVal))
    ensures e.users == Chosen(old(e.users), s, newval)
    ensures var drops := newval == old(e.CellOf(s)).tri && Drops(old(e.CellOf(s)), s in old(e.users), newval);
            && (!drops ==> e.Idle() && e.sol(s).tri == newval)
            && (drops ==> forall a: Assignment :: IsSolution(e.cfg, e.users, a) ==> a(s).tri != newval)
  {
    var oldval := e.CellOf(s).tri;
    newval, attempts := oldval, 0;
    ghost var r, m := e.CellOf(s), e.modulesVal;
    while true
      invariant e.Idle() && e.Settled(s) && e.CellOf(s) == r && e.modulesVal == m && e.users == old(e.users)
      invariant attempts <= 2 && r.tri == oldval
      invariant newval == if attempts == 0 then oldval else if attempts == 1 then Next(oldval) else Next(Next(oldval))
      invariant attempts >= 1 ==> !TriWithinRange(s.typ, r, m, Next(oldval))
      invariant attempts >= 2 ==> !TriWithinRange(s.typ, r, m, Next(Next(oldval)))
      decreases 3 - attempts
    {
      newval := Next(newval);
      attempts := attempts + 1;
      var ok := SetTristate(e, s, newval);
      if ok || oldval == newval { break; }
    }
  }
}

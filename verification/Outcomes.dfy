/**
 What evaluation gives a symbol, said from outside: the user's value where it may count, else the
 first default that applies, what selects and implies do to it, and when it is written.
 */
module Outcomes {
  import opened Tristates
  import opened Exprs
  import opened Ranges
  import opened Dependencies
  import opened Configs

  // ---- the first that applies ----

  /** Default k applies and none before it does. */
  ghost predicate FirstDefault(ds: seq<Default>, k: nat, v: Valuation) {
    k < |ds| && EvalOpt(ds[k].cond, v) != NO && forall j :: 0 <= j < k ==> EvalOpt(ds[j].cond, v) == NO
  }

  ghost predicate NoDefault(ds: seq<Default>, v: Valuation) {
    forall j :: 0 <= j < |ds| ==> EvalOpt(ds[j].cond, v) == NO
  }

  ghost predicate FirstRange(rs: seq<Range>, k: nat, v: Valuation) {
    k < |rs| && EvalOpt(rs[k].cond, v) != NO && forall j :: 0 <= j < k ==> EvalOpt(rs[j].cond, v) == NO
  }

  ghost predicate NoRange(rs: seq<Range>, v: Valuation) {
    forall j :: 0 <= j < |rs| ==> EvalOpt(rs[j].cond, v) == NO
  }

  lemma {:induction false} ActiveDefaultIsFirst(ds: seq<Default>, i: nat, k: nat, v: Valuation)
    requires i <= k < |ds| && EvalOpt(ds[k].cond, v) != NO && forall j :: i <= j < k ==> EvalOpt(ds[j].cond, v) == NO
    ensures ActiveDefault(ds, i, v) == k
    decreases k - i
  {
    if i < k { ActiveDefaultIsFirst(ds, i + 1, k, v); }
  }

  lemma {:induction false} NoActiveDefault(ds: seq<Default>, i: nat, v: Valuation)
    requires i <= |ds| && NoDefault(ds, v)
    ensures ActiveDefault(ds, i, v) == |ds|
    decreases |ds| - i
  {
    if i < |ds| { NoActiveDefault(ds, i + 1, v); }
  }

  lemma {:induction false} ActiveRangeIsFirst(rs: seq<Range>, i: nat, k: nat, v: Valuation)
    requires i <= k < |rs| && EvalOpt(rs[k].cond, v) != NO && forall j :: i <= j < k ==> EvalOpt(rs[j].cond, v) == NO
    ensures ActiveRange(rs, i, v) == k
    decreases k - i
  {
    if i < k { ActiveRangeIsFirst(rs, i + 1, k, v); }
  }

  lemma {:induction false} NoActiveRange(rs: seq<Range>, i: nat, v: Valuation)
    requires i <= |rs| && NoRange(rs, v)
    ensures ActiveRange(rs, i, v) == |rs|
    decreases |rs| - i
  {
    if i < |rs| { NoActiveRange(rs, i + 1, v); }
  }

  // ---- visibility ----

  lemma {:induction false} PromptBounds(ps: seq<Option<Expr>>, v: Valuation)
    ensures forall i :: 0 <= i < |ps| ==> EvalOpt(ps[i], v) <= PromptTri(ps, v)
    ensures PromptTri(ps, v) == NO || exists i :: 0 <= i < |ps| && EvalOpt(ps[i], v) == PromptTri(ps, v)
  {
    if ps != [] {
      var rest := ps[..|ps|-1];
      PromptBounds(rest, v);
      if PromptTri(ps, v) != EvalOpt(ps[|ps|-1], v) && PromptTri(ps, v) != NO {
        var i :| 0 <= i < |rest| && EvalOpt(rest[i], v) == PromptTri(rest, v);
        assert ps[i] == rest[i];
      }
    }
  }

  /**
   A symbol is visible exactly if the condition of one of its prompts is not n.  A tristate is visible
   as far as its strongest prompt, all others fully; without modules a tristate is like the others.
   */
  lemma VisibleOutcome(c: Config, u: Users, a: Assignment, s: Symbol)
    requires IsSolution(c, u, a) && IsTyped(s.typ)
    ensures var ps, v, x := DeclOf(c, s).prompts, ValuesOf(a), a(s).visible;
            && (x != NO <==> exists i :: 0 <= i < |ps| && EvalOpt(ps[i], v) != NO)
            && (s.typ != STristate || a(c.modules).tri == NO ==> x != MOD)
            && (s.typ == STristate && a(c.modules).tri != NO ==>
                  && (forall i :: 0 <= i < |ps| ==> EvalOpt(ps[i], v) <= x)
                  && (x == NO || exists i :: 0 <= i < |ps| && EvalOpt(ps[i], v) == x))
  {
    assert SolvedAt(c, u, a, s);
    PromptBounds(DeclOf(c, s).prompts, ValuesOf(a));
  }

  // ---- strings, ints and hexes ----

  /** Does the user's value count? */
  predicate ByUser(u: Users, a: Assignment, s: Symbol) { a(s).visible != NO && s in u }

  /** The text before clamping: the user's, or that of the symbol the first default names, or none. */
  ghost predicate TextSource(c: Config, u: Users, a: Assignment, s: Symbol, text: string) {
    var ds, v := DeclOf(c, s).defaults, ValuesOf(a);
    if ByUser(u, a, s) then text == u[s].str
    else
      || (exists k: nat :: FirstDefault(ds, k, v) && text == if ds[k].value.Sym? then a(ds[k].value.sym).val else "")
      || (NoDefault(ds, v) && text == "")
  }

  /** The text source of every symbol is determined, and is what the meaning of configurations takes. */
  lemma TextSourceIs(c: Config, u: Users, a: Assignment, s: Symbol, text: string)
    requires IsSolution(c, u, a) && IsTyped(s.typ) && !IsTriType(s.typ) && TextSource(c, u, a, s, text)
    ensures a(s).val == InRange(s, DeclOf(c, s), text, a)
  {
    var ds, v := DeclOf(c, s).defaults, ValuesOf(a);
    assert SolvedAt(c, u, a, s);
    if !ByUser(u, a, s) {
      if NoDefault(ds, v) && text == "" {
        NoActiveDefault(ds, 0, v);
      } else {
        var k: nat :| FirstDefault(ds, k, v) && text == if ds[k].value.Sym? then a(ds[k].value.sym).val else "";
        ActiveDefaultIsFirst(ds, 0, k, v);
      }
    }
  }

  /** A visible string with a user value shows it; another one shows the text of its first default, or nothing. */
  lemma StringOutcome(c: Config, u: Users, a: Assignment, s: Symbol)
    requires IsSolution(c, u, a) && s.typ == SString
    ensures ByUser(u, a, s) ==> a(s).val == u[s].str
    ensures forall k: nat :: !ByUser(u, a, s) && FirstDefault(DeclOf(c, s).defaults, k, ValuesOf(a)) ==>
              var e := DeclOf(c, s).defaults[k].value; a(s).val == if e.Sym? then a(e.sym).val else ""
    ensures !ByUser(u, a, s) && NoDefault(DeclOf(c, s).defaults, ValuesOf(a)) ==> a(s).val == ""
  {
    var ds, v := DeclOf(c, s).defaults, ValuesOf(a);
    if ByUser(u, a, s) { TextSourceIs(c, u, a, s, u[s].str); }
    if !ByUser(u, a, s) && NoDefault(ds, v) { TextSourceIs(c, u, a, s, ""); }
    forall k: nat | !ByUser(u, a, s) && FirstDefault(ds, k, v)
      ensures a(s).val == if ds[k].value.Sym? then a(ds[k].value.sym).val else ""
    {
      TextSourceIs(c, u, a, s, if ds[k].value.Sym? then a(ds[k].value.sym).val else "");
    }
  }

  /** An int or hex shows its text source as it is without an active range or inside it, else the nearer bound. */
  lemma NumberOutcome(c: Config, u: Users, a: Assignment, s: Symbol, text: string)
    requires IsSolution(c, u, a) && (s.typ == SInt || s.typ == SHex) && TextSource(c, u, a, s, text)
    ensures NoRange(DeclOf(c, s).ranges, ValuesOf(a)) ==> a(s).val == text
    ensures forall k: nat :: FirstRange(DeclOf(c, s).ranges, k, ValuesOf(a)) ==>
              var r := DeclOf(c, s).ranges[k];
              var lo := BoundValue(r.lo.typ, a(r.lo).val, BaseOf(s.typ));
              var hi := BoundValue(r.hi.typ, a(r.hi).val, BaseOf(s.typ));
              var n := Number(s.typ, text);
              && (lo <= n <= hi ==> a(s).val == text)
              && (n < lo ==> a(s).val == Print(s.typ, lo))
              && (lo <= n && hi < n ==> a(s).val == Print(s.typ, hi))
  {
    var rs, v := DeclOf(c, s).ranges, ValuesOf(a);
    TextSourceIs(c, u, a, s, text);
    if NoRange(rs, v) { NoActiveRange(rs, 0, v); }
    forall k: nat | FirstRange(rs, k, v)
      ensures ActiveRange(rs, 0, v) == k
    {
      ActiveRangeIsFirst(rs, 0, k, v);
    }
  }

  /** A string, int or hex is written exactly if it is visible or a default that names a symbol applies. */
  lemma TextWritten(c: Config, u: Users, a: Assignment, s: Symbol)
    requires IsSolution(c, u, a) && IsTyped(s.typ) && !IsTriType(s.typ)
    ensures var ds, v := DeclOf(c, s).defaults, ValuesOf(a);
            var named := exists k: nat :: FirstDefault(ds, k, v) && ds[k].value.Sym?;
            a(s).write <==> !DeclOf(c, s).auto && (a(s).visible != NO || named)
  {
    var ds, v := DeclOf(c, s).defaults, ValuesOf(a);
    assert SolvedAt(c, u, a, s);
    if k: nat :| FirstDefault(ds, k, v) && ds[k].value.Sym? {
      ActiveDefaultIsFirst(ds, 0, k, v);
    } else {
      var k := ActiveDefault(ds, 0, v);
      if k < |ds| { FirstOfActive(ds, 0, v); }
    }
  }

  lemma {:induction false} FirstOfActive(ds: seq<Default>, i: nat, v: Valuation)
    requires i <= |ds|
    ensures var k := ActiveDefault(ds, i, v);
            (k < |ds| ==> EvalOpt(ds[k].cond, v) != NO) && forall j :: i <= j < k ==> EvalOpt(ds[j].cond, v) == NO
    decreases |ds| - i
  {
    if i < |ds| { FirstOfActive(ds, i + 1, v); }
  }

  // ---- bools and tristates ----

  /** The value of the first default that applies, as far as its condition goes. */
  ghost predicate DefaultIs(c: Config, a: Assignment, s: Symbol, t: Tristate) {
    var ds, v := DeclOf(c, s).defaults, ValuesOf(a);
    || (exists k: nat :: FirstDefault(ds, k, v) && t == AndTri(Eval(ds[k].value, v), EvalOpt(ds[k].cond, v)))
    || (NoDefault(ds, v) && t == NO)
  }

  lemma DefaultIsTri(c: Config, a: Assignment, s: Symbol, t: Tristate)
    requires DefaultIs(c, a, s, t)
    ensures DefaultTri(DeclOf(c, s), ValuesOf(a)) == t
  {
    var ds, v := DeclOf(c, s).defaults, ValuesOf(a);
    if NoDefault(ds, v) && t == NO {
      NoActiveDefault(ds, 0, v);
    } else {
      var k: nat :| FirstDefault(ds, k, v) && t == AndTri(Eval(ds[k].value, v), EvalOpt(ds[k].cond, v));
      ActiveDefaultIsFirst(ds, 0, k, v);
    }
  }

  /**
   A selected symbol is at least as high as its selects; a two-valued symbol is never m, nor is one that
   is implied at y.  The symbol is written exactly if it is visible or not n, unless the environment sets it.
   */
  lemma TriBounds(c: Config, u: Users, a: Assignment, s: Symbol)
    requires IsSolution(c, u, a) && IsTriType(s.typ)
    ensures a(s).revDep <= a(s).tri
    ensures BoolLike(s.typ, a(c.modules).tri) || a(s).implied == YES ==> a(s).tri != MOD
    ensures a(s).write <==> !DeclOf(c, s).auto && (a(s).visible != NO || a(s).tri != NO)
    ensures a(s).dirDep == NO ==> a(s).implied == NO
  {
    assert SolvedAt(c, u, a, s);
  }

  /**
   What the user asked for, as far as the symbol is visible, holds unless a select is stronger or m is
   not possible.
   */
  lemma UserOutcome(c: Config, u: Users, a: Assignment, s: Symbol)
    requires IsSolution(c, u, a) && IsTriType(s.typ) && ByUser(u, a, s)
    ensures var want := AndTri(u[s].tri, a(s).visible);
            var noMod := BoolLike(s.typ, a(c.modules).tri) || a(s).implied == YES;
            && (a(s).revDep <= want && !(want == MOD && noMod) ==> a(s).tri == want)
            && (want < a(s).revDep && !(a(s).revDep == MOD && noMod) ==> a(s).tri == a(s).revDep)
  {
    assert SolvedAt(c, u, a, s);
  }

  /**
   Otherwise the symbol has the highest of its first default, its implies and its selects, m counting
   as y where m is not possible.
   */
  lemma DefaultOutcome(c: Config, u: Users, a: Assignment, s: Symbol, default: Tristate)
    requires IsSolution(c, u, a) && IsTriType(s.typ) && !ByUser(u, a, s) && DefaultIs(c, a, s, default)
    ensures default <= a(s).tri && a(s).implied <= a(s).tri && a(s).revDep <= a(s).tri
    ensures a(s).tri in {default, a(s).implied, a(s).revDep} ||
            (a(s).tri == YES && MOD in {default, a(s).implied, a(s).revDep} &&
             (BoolLike(s.typ, a(c.modules).tri) || a(s).implied == YES))
  {
    assert SolvedAt(c, u, a, s);
    DefaultIsTri(c, a, s, default);
  }

  /** The values of the three dependencies, as far as the symbol can be m. */
  lemma DepOutcome(c: Config, u: Users, a: Assignment, s: Symbol)
    requires IsSolution(c, u, a) && IsTyped(s.typ)
    ensures var d, v := DeclOf(c, s), ValuesOf(a);
            && (a(s).dirDep != NO <==> EvalOpt(d.dirDep, v) != NO)
            && (a(s).revDep != NO <==> d.revDep.Some? && Eval(d.revDep.value, v) != NO)
            && (a(s).implied != NO <==> d.implied.Some? && Eval(d.implied.value, v) != NO && a(s).dirDep != NO)
            && (s.typ == STristate && a(c.modules).tri != NO ==>
                  && a(s).dirDep == EvalOpt(d.dirDep, v)
                  && (d.revDep.Some? ==> a(s).revDep == Eval(d.revDep.value, v))
                  && (d.implied.Some? && a(s).dirDep != NO ==> a(s).implied == Eval(d.implied.value, v)))
  {
    assert SolvedAt(c, u, a, s);
  }
}

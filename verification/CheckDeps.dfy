/**
 sym_check_deps: the depth-first search for recursive dependencies, on configurations
 without choices.  CHECK marks the symbols on the current path, CHECKED those ever entered.
 */
module CheckDeps {
  import opened Tristates
  import opened Exprs
  import opened Configs

  /**
   The conditions walked for a symbol: selects, then each property's condition and a default's
   value.  The direct dependency stands for the properties that say where the symbol is defined.
   */
  function Walked(d: Decl): seq<Expr> {
    OptSeq(d.revDep) + OptsSeq(d.prompts) + DefaultsSeq(d.defaults) + RangesSeq(d.ranges) + OptsSeq(d.implying) +
      OptSeq(d.dirDep)
  }

  function OptSeq(e: Option<Expr>): seq<Expr> {
    if e.Some? then [e.value] else []
  }

  function OptsSeq(es: seq<Option<Expr>>): seq<Expr> {
    if es == [] then [] else OptSeq(es[0]) + OptsSeq(es[1..])
  }

  function DefaultsSeq(ds: seq<Default>): seq<Expr> {
    if ds == [] then [] else OptSeq(ds[0].cond) + [ds[0].value] + DefaultsSeq(ds[1..])
  }

  function RangesSeq(rs: seq<Range>): seq<Expr> {
    if rs == [] then [] else OptSeq(rs[0].cond) + RangesSeq(rs[1..])
  }

  function Mentions(e: Expr): set<Symbol> {
    match e
    case Sym(s) => {s}
    case Not(x) => Mentions(x)
    case And(l, r) => Mentions(l) + Mentions(r)
    case Or(l, r) => Mentions(l) + Mentions(r)
    case Cmp(_, l, r) => {l, r}
  }

  function MentionsAll(es: seq<Expr>): set<Symbol> {
    if es == [] then {} else MentionsAll(es[..|es|-1]) + Mentions(es[|es|-1])
  }

  lemma {:induction false} MentionedAt(es: seq<Expr>, i: nat)
    requires i < |es|
    ensures Mentions(es[i]) <= MentionsAll(es)
  {
    if i < |es| - 1 { MentionedAt(es[..|es|-1], i); }
  }

  lemma MentionsSnoc(es: seq<Expr>, i: nat)
    requires i < |es|
    ensures MentionsAll(es[..i+1]) == MentionsAll(es[..i]) + Mentions(es[i])
  {
    assert es[..i+1][..i] == es[..i];
  }

  /** The symbols `s` depends on by one of the walked conditions. */
  function Targets(c: Config, s: Symbol): set<Symbol> { MentionsAll(Walked(DeclOf(c, s))) }

  lemma {:induction false} MentionedBy(es: seq<Expr>, t: Symbol)
    ensures t in MentionsAll(es) <==> exists e :: e in es && t in Mentions(e)
  {
    if es != [] {
      var rest, last := es[..|es|-1], es[|es|-1];
      MentionedBy(rest, t);
      assert es == rest + [last] && last in es;
      if t in MentionsAll(rest) {
        var e :| e in rest && t in Mentions(e);
        assert e in es;
      }
      if e :| e in es && t in Mentions(e) { assert e in rest || e == last; }
    }
  }

  lemma {:induction false} InOpts(es: seq<Option<Expr>>, e: Expr)
    ensures e in OptsSeq(es) <==> exists i :: 0 <= i < |es| && es[i] == Some(e)
  {
    if es != [] {
      var rest := es[1..];
      InOpts(rest, e);
      assert OptsSeq(es) == OptSeq(es[0]) + OptsSeq(rest);
      if i :| 0 <= i < |rest| && rest[i] == Some(e) { assert es[i + 1] == Some(e); }
      if i :| 0 < i < |es| && es[i] == Some(e) { assert rest[i - 1] == Some(e); }
    }
  }

  lemma {:induction false} InDefaults(ds: seq<Default>, e: Expr)
    ensures e in DefaultsSeq(ds) <==> exists i :: 0 <= i < |ds| && (ds[i].cond == Some(e) || ds[i].value == e)
  {
    if ds != [] {
      InDefaults(ds[1..], e);
      assert forall i :: 0 <= i < |ds| - 1 ==> ds[1..][i] == ds[i + 1];
      assert forall i :: 0 < i < |ds| ==> ds[i] == ds[1..][i - 1];
    }
  }

  lemma {:induction false} InRanges(rs: seq<Range>, e: Expr)
    ensures e in RangesSeq(rs) <==> exists i :: 0 <= i < |rs| && rs[i].cond == Some(e)
  {
    if rs != [] {
      InRanges(rs[1..], e);
      assert forall i :: 0 <= i < |rs| - 1 ==> rs[1..][i] == rs[i + 1];
      assert forall i :: 0 < i < |rs| ==> rs[i] == rs[1..][i - 1];
    }
  }

  /** `e` is the condition of a select, prompt, default, range, own imply or place, or the value of a default. */
  ghost predicate IsWalked(d: Decl, e: Expr) {
    || d.revDep == Some(e) || d.dirDep == Some(e)
    || (exists i :: 0 <= i < |d.prompts| && d.prompts[i] == Some(e))
    || (exists i :: 0 <= i < |d.defaults| && (d.defaults[i].cond == Some(e) || d.defaults[i].value == e))
    || (exists i :: 0 <= i < |d.ranges| && d.ranges[i].cond == Some(e))
    || (exists i :: 0 <= i < |d.implying| && d.implying[i] == Some(e))
  }

  lemma WalkedExact(d: Decl, e: Expr)
    ensures e in Walked(d) <==> IsWalked(d, e)
  {
    InOpts(d.prompts, e);
    InOpts(d.implying, e);
    InDefaults(d.defaults, e);
    InRanges(d.ranges, e);
  }

  /** The search follows exactly the symbols that occur in the listed conditions and default values. */
  lemma TargetsExact(c: Config, s: Symbol, t: Symbol)
    ensures t in Targets(c, s) <==> exists e :: IsWalked(DeclOf(c, s), e) && t in Mentions(e)
  {
    var es := Walked(DeclOf(c, s));
    MentionedBy(es, t);
    if e :| e in es && t in Mentions(e) { WalkedExact(DeclOf(c, s), e); }
    if e :| IsWalked(DeclOf(c, s), e) && t in Mentions(e) { WalkedExact(DeclOf(c, s), e); }
  }

  // ---- graphs of dependencies ----

  type Graph = Symbol -> set<Symbol>

  function WalkGraph(c: Config): Graph { s => Targets(c, s) }

  predicate StepAt(g: Graph, p: seq<Symbol>, i: nat)
    requires i + 1 < |p|
  {
    p[i + 1] in g(p[i])
  }

  ghost predicate IsPath(g: Graph, p: seq<Symbol>) {
    forall i: nat :: i + 1 < |p| ==> StepAt(g, p, i)
  }

  ghost predicate IsCycle(g: Graph, p: seq<Symbol>) {
    |p| >= 2 && p[0] == p[|p| - 1] && IsPath(g, p)
  }

  ghost predicate HasCycle(g: Graph) { exists p :: IsCycle(g, p) }

  /** A path that comes back to one of its symbols closes a cycle. */
  lemma CycleClosed(g: Graph, p: seq<Symbol>, s: Symbol)
    requires IsPath(g, p) && s in p && s in g(p[|p| - 1])
    ensures HasCycle(g)
  {
    var i :| 0 <= i < |p| && p[i] == s;
    var q := p[i..] + [s];
    forall k: nat | k + 1 < |q|
      ensures StepAt(g, q, k)
    {
      assert q[k] == p[i + k];
      if k + 2 < |q| { assert StepAt(g, p, i + k); }
    }
    assert IsCycle(g, q);
  }

  lemma SameCycles(g: Graph, h: Graph)
    requires forall s: Symbol :: g(s) == h(s)
    ensures HasCycle(g) <==> HasCycle(h)
  {
    forall p
      ensures IsCycle(g, p) <==> IsCycle(h, p)
    {
      assert forall i: nat :: i + 1 < |p| ==> (StepAt(g, p, i) <==> StepAt(h, p, i));
    }
  }

  lemma PathExtends(g: Graph, p: seq<Symbol>, s: Symbol)
    requires IsPath(g, p) && (p != [] ==> s in g(p[|p| - 1]))
    ensures IsPath(g, p + [s])
  {
    var q := p + [s];
    forall i: nat | i + 1 < |q|
      ensures StepAt(g, q, i)
    {
      if i + 1 < |p| { assert StepAt(g, p, i); }
    }
  }

  lemma PathShrinks(g: Graph, p: seq<Symbol>)
    requires IsPath(g, p) && p != []
    ensures IsPath(g, p[..|p| - 1])
  {
    var q := p[..|p| - 1];
    forall i: nat | i + 1 < |q|
      ensures StepAt(g, q, i)
    {
      assert StepAt(g, p, i);
    }
  }

  /** The symbol table holds every declared symbol and every symbol a condition mentions. */
  ghost predicate Closed(c: Config, table: set<Symbol>) {
    && c.decls.Keys <= table
    && forall s :: s in table ==> Targets(c, s) <= table
  }

  class Checker {
    const cfg: Config
    ghost const table: set<Symbol>
    ghost const targets: Symbol -> set<Symbol>
    var check: set<Symbol>
    var checked: set<Symbol>
    var stack: seq<Symbol>
    var reported: bool
    ghost var finish: map<Symbol, nat>
    ghost var clock: nat

    constructor (c: Config, ghost t: set<Symbol>)
      requires Closed(c, t)
      ensures Inv() && stack == [] && cfg == c && table == t && !reported && checked == {}
    {
      cfg, table, targets := c, t, WalkGraph(c);
      check, checked, stack, reported, finish, clock := {}, {}, [], false, map[], 0;
    }

    ghost predicate Inv()
      reads this
    {
      && (forall s :: Tied(s)) && (forall s :: s in table ==> targets(s) <= table)
      && cfg.decls.Keys <= table && checked <= table
      && (forall s :: s in check <==> s in stack) && check <= checked
      && (forall i, j :: 0 <= i < j < |stack| ==> stack[i] != stack[j])
      && IsPath(targets, stack)
      && (reported ==> HasCycle(targets))
      && (!reported ==> Finished())
    }

    /** `targets` names the dependencies of a symbol. */
    ghost predicate Tied(s: Symbol) { targets(s) == Targets(cfg, s) }

    /** Every symbol left behind finished after all it depends on. */
    ghost predicate Finished()
      reads this
    {
      && finish.Keys == checked - check
      && (forall s :: s in finish ==> finish[s] < clock)
      && (forall s :: s in finish ==> targets(s) <= finish.Keys)
      && forall s, t :: s in finish && t in targets(s) ==> finish[t] < finish[s]
    }

    twostate predicate Grows()
      reads this
    {
      && check == old(check) && stack == old(stack) && old(checked) <= checked && (old(reported) ==> reported)
      && (!reported ==>
            && old(clock) <= clock
            && forall s :: s in old(finish) ==> s in finish && finish[s] == old(finish)[s])
    }

    /** The symbol on top of the path depends on everything in `e`. */
    ghost predicate TopReads(e: Expr)
      reads this
    {
      stack != [] && Mentions(e) <= targets(stack[|stack| - 1])
    }

    method CheckExprDeps(e: Expr) returns (r: Option<Symbol>)
      requires Inv() && TopReads(e)
      modifies this
      ensures Inv() && Grows() && (r.Some? ==> reported)
      ensures !reported ==> Mentions(e) <= finish.Keys
      decreases table - checked, 3, e
    {
      match e
      case And(a, b) =>
        r := CheckExprDeps(a);
        if r.None? { r := CheckExprDeps(b); }
      case Or(a, b) =>
        r := CheckExprDeps(a);
        if r.None? { r := CheckExprDeps(b); }
      case Not(a) => r := CheckExprDeps(a);
      case Cmp(_, a, b) =>
        EdgesInTable();
        r := CheckSymbol(a);
        if r.None? { r := CheckSymbol(b); }
      case Sym(s) =>
        EdgesInTable();
        r := CheckSymbol(s);
    }

    lemma EdgesInTable()
      requires Inv() && stack != []
      ensures targets(stack[|stack| - 1]) <= table
    {
      assert stack[|stack| - 1] in stack;
    }

    /** sym_check_sym_deps: stops at the first recursion found. */
    method CheckSymDeps(s: Symbol) returns (r: Option<Symbol>)
      requires Inv() && stack != [] && stack[|stack| - 1] == s
      modifies this
      ensures Inv() && Grows() && (r.Some? ==> reported)
      ensures !reported ==> targets(s) <= finish.Keys
      decreases table - checked, 5
    {
      assert Tied(s);
      r := CheckExprs(Walked(DeclOf(cfg, s)));
    }

    method CheckExprs(es: seq<Expr>) returns (r: Option<Symbol>)
      requires Inv() && stack != [] && MentionsAll(es) <= targets(stack[|stack| - 1])
      modifies this
      ensures Inv() && Grows() && (r.Some? ==> reported)
      ensures !reported ==> MentionsAll(es) <= finish.Keys
      decreases table - checked, 4
    {
      r := None;
      var i := 0;
      while i < |es| && r.None?
        invariant 0 <= i <= |es| && Inv() && Grows() && (r.Some? ==> reported)
        invariant !reported ==> MentionsAll(es[..i]) <= finish.Keys
      {
        MentionedAt(es, i);
        MentionsSnoc(es, i);
        r := CheckExprDeps(es[i]);
        i := i + 1;
      }
      assert i == |es| ==> es[..i] == es;
    }

    /** sym_check_deps for a symbol reached from the top of the path, or from outside. */
    method CheckSymbol(s: Symbol) returns (r: Option<Symbol>)
      requires Inv() && s in table
      requires stack != [] ==> s in targets(stack[|stack| - 1])
      modifies this
      ensures Inv() && Grows() && (r.Some? ==> reported)
      ensures !reported ==> s in finish
      decreases table - checked, 2
    {
      if s in check {
        CycleClosed(targets, stack, s);
        reported := true;
        return Some(s);
      }
      if s in checked { return None; }
      Push(s);
      r := CheckSymDeps(s);
      Pop(s);
      if r == Some(s) { r := None; }
    }

    method Push(s: Symbol)
      requires Inv() && s in table && s !in checked && (stack != [] ==> s in targets(stack[|stack| - 1]))
      modifies this
      ensures Inv() && stack == old(stack) + [s] && check == old(check) + {s} && checked == old(checked) + {s}
      ensures reported == old(reported) && finish == old(finish) && clock == old(clock)
    {
      PathExtends(targets, stack, s);
      check, checked, stack := check + {s}, checked + {s}, stack + [s];
    }

    method Pop(s: Symbol)
      requires Inv() && stack != [] && stack[|stack| - 1] == s
      requires !reported ==> targets(s) <= finish.Keys
      modifies this
      ensures Inv() && stack == old(stack)[..|old(stack)| - 1] && check == old(check) - {s} && checked == old(checked)
      ensures reported == old(reported)
      ensures !reported ==> finish == old(finish)[s := old(clock)] && clock == old(clock) + 1
    {
      PathShrinks(targets, stack);
      check, stack := check - {s}, stack[..|stack| - 1];
      finish, clock := finish[s := clock], clock + 1;
    }

    /**
     One top-level call per symbol.  No CHECK flag and no path entry is left over, and a
     recursion has been reported exactly if the dependencies contain a cycle.
     */
    method CheckAll(syms: seq<Symbol>)
      requires Inv() && stack == [] && forall s :: s in table <==> s in syms
      modifies this
      ensures stack == [] && check == {}
      ensures reported <==> HasCycle(WalkGraph(cfg))
      ensures !reported ==> Falls(WalkGraph(cfg), finish)
    {
      for i := 0 to |syms|
        invariant Inv() && stack == []
        invariant !reported ==> forall k :: 0 <= k < i ==> syms[k] in finish
      {
        var _ := CheckSymbol(syms[i]);
      }
      if !reported {
        forall s: Symbol
          ensures FallsAt(targets, finish, s) && FallsAt(WalkGraph(cfg), finish, s)
        {
          assert Tied(s);
          assert s !in cfg.decls ==> Targets(cfg, s) == {};
        }
        NoCycle(WalkGraph(cfg), finish);
      } else {
        forall s: Symbol
          ensures targets(s) == WalkGraph(cfg)(s)
        {
          assert Tied(s);
        }
        SameCycles(targets, WalkGraph(cfg));
      }
    }
  }

  /** Every symbol of the graph finishes after all it depends on. */
  ghost predicate Falls(g: Graph, finish: map<Symbol, nat>) { forall s: Symbol :: FallsAt(g, finish, s) }

  ghost predicate FallsAt(g: Graph, finish: map<Symbol, nat>, s: Symbol) {
    forall t :: t in g(s) ==> s in finish && t in finish && finish[t] < finish[s]
  }

  /** Along a path the finishing times fall. */
  lemma {:induction false} PathFalls(g: Graph, finish: map<Symbol, nat>, p: seq<Symbol>)
    requires Falls(g, finish) && |p| >= 2 && IsPath(g, p)
    ensures p[0] in finish && p[|p| - 1] in finish && finish[p[|p| - 1]] < finish[p[0]]
    decreases |p|
  {
    assert StepAt(g, p, |p| - 2) && FallsAt(g, finish, p[|p| - 2]);
    if |p| > 2 {
      PathShrinks(g, p);
      PathFalls(g, finish, p[..|p| - 1]);
    }
  }

  lemma NoCycle(g: Graph, finish: map<Symbol, nat>)
    requires Falls(g, finish)
    ensures !HasCycle(g)
  {
    forall p | IsCycle(g, p)
      ensures false
    {
      PathFalls(g, finish, p);
    }
  }
}

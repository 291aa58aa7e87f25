/**
 Which configurations can be evaluated: everything sym_calc_value reads for a symbol, the
 ranks Evaluator needs, and what a clean sym_check_deps says about them.
 */
module EvalOrder {
  import opened Tristates
  import opened Exprs
  import opened Configs
  import opened CheckDeps

  // ---- what the evaluator reads ----

  /** The expressions evaluated for a symbol. */
  function Evaluated(d: Decl): seq<Expr> {
    OptsSeq(d.prompts) + DefaultsSeq(d.defaults) + RangesSeq(d.ranges) + OptSeq(d.dirDep) + OptSeq(d.revDep) +
      OptSeq(d.implied)
  }

  function Bounds(rs: seq<Range>): set<Symbol> {
    (set r | r in rs :: r.lo) + (set r | r in rs :: r.hi)
  }

  /** All symbols whose values a symbol is computed from. */
  function ReadBy(c: Config, s: Symbol): set<Symbol> {
    MentionsAll(Evaluated(DeclOf(c, s))) + Bounds(DeclOf(c, s).ranges) + if s.typ == STristate then {c.modules} else {}
  }

  function ReadGraph(c: Config): Graph { s => ReadBy(c, s) }

  ghost predicate RanksBelow(ts: set<Symbol>, rank: Rank, n: nat) {
    forall t :: t in ts ==> rank(t) < n
  }

  lemma {:induction false} MentionsBelow(e: Expr, rank: Rank, n: nat)
    ensures Below(e, rank, n) <==> RanksBelow(Mentions(e), rank, n)
  {
    match e
    case Sym(s) => assert s in Mentions(e);
    case Not(x) => MentionsBelow(x, rank, n);
    case And(l, r) => MentionsBelow(l, rank, n); MentionsBelow(r, rank, n);
    case Or(l, r) => MentionsBelow(l, rank, n); MentionsBelow(r, rank, n);
    case Cmp(_, l, r) => assert l in Mentions(e) && r in Mentions(e);
  }

  ghost predicate AllBelow(es: seq<Expr>, rank: Rank, n: nat) {
    forall e :: e in es ==> Below(e, rank, n)
  }

  lemma {:induction false} AllMentionsBelow(es: seq<Expr>, rank: Rank, n: nat)
    ensures AllBelow(es, rank, n) <==> RanksBelow(MentionsAll(es), rank, n)
  {
    if es != [] {
      var rest, last := es[..|es|-1], es[|es|-1];
      AllMentionsBelow(rest, rank, n);
      MentionsBelow(last, rank, n);
      assert es == rest + [last];
    }
  }

  lemma AllBelowParts(a: seq<Expr>, b: seq<Expr>, rank: Rank, n: nat)
    ensures AllBelow(a + b, rank, n) <==> AllBelow(a, rank, n) && AllBelow(b, rank, n)
  {
    assert forall e :: e in a + b <==> e in a || e in b;
  }

  lemma OptBelow(e: Option<Expr>, rank: Rank, n: nat)
    ensures AllBelow(OptSeq(e), rank, n) <==> BelowOpt(e, rank, n)
  {
    if e.Some? { assert e.value in OptSeq(e); }
  }

  lemma {:induction false} OptsBelow(es: seq<Option<Expr>>, rank: Rank, n: nat)
    ensures AllBelow(OptsSeq(es), rank, n) <==> forall i :: 0 <= i < |es| ==> BelowOpt(es[i], rank, n)
  {
    if es != [] {
      OptBelow(es[0], rank, n);
      OptsBelow(es[1..], rank, n);
      AllBelowParts(OptSeq(es[0]), OptsSeq(es[1..]), rank, n);
      assert forall i :: 0 <= i < |es| - 1 ==> es[1..][i] == es[i + 1];
      assert forall i :: 0 < i < |es| ==> es[i] == es[1..][i - 1];
    }
  }

  lemma {:induction false} DefaultsBelow(ds: seq<Default>, rank: Rank, n: nat)
    ensures AllBelow(DefaultsSeq(ds), rank, n) <==>
            forall i :: 0 <= i < |ds| ==> BelowOpt(ds[i].cond, rank, n) && Below(ds[i].value, rank, n)
  {
    if ds != [] {
      OptBelow(ds[0].cond, rank, n);
      DefaultsBelow(ds[1..], rank, n);
      AllBelowParts(OptSeq(ds[0].cond), [ds[0].value], rank, n);
      AllBelowParts(OptSeq(ds[0].cond) + [ds[0].value], DefaultsSeq(ds[1..]), rank, n);
      assert forall i :: 0 <= i < |ds| - 1 ==> ds[1..][i] == ds[i + 1];
      assert forall i :: 0 < i < |ds| ==> ds[i] == ds[1..][i - 1];
      assert ds[0].value in [ds[0].value];
    }
  }

  lemma {:induction false} RangesBelow(rs: seq<Range>, rank: Rank, n: nat)
    ensures AllBelow(RangesSeq(rs), rank, n) <==> forall i :: 0 <= i < |rs| ==> BelowOpt(rs[i].cond, rank, n)
  {
    if rs != [] {
      OptBelow(rs[0].cond, rank, n);
      RangesBelow(rs[1..], rank, n);
      AllBelowParts(OptSeq(rs[0].cond), RangesSeq(rs[1..]), rank, n);
      assert forall i :: 0 <= i < |rs| - 1 ==> rs[1..][i] == rs[i + 1];
      assert forall i :: 0 < i < |rs| ==> rs[i] == rs[1..][i - 1];
    }
  }

  lemma BoundsBelow(rs: seq<Range>, rank: Rank, n: nat)
    ensures RanksBelow(Bounds(rs), rank, n) <==> forall i :: 0 <= i < |rs| ==> rank(rs[i].lo) < n && rank(rs[i].hi) < n
  {
    assert forall i :: 0 <= i < |rs| ==> rs[i] in rs && rs[i].lo in Bounds(rs) && rs[i].hi in Bounds(rs);
  }

  lemma EvaluatedBelow(d: Decl, rank: Rank, n: nat)
    ensures DeclBelow(d, rank, n) <==> AllBelow(Evaluated(d), rank, n) && RanksBelow(Bounds(d.ranges), rank, n)
  {
    var p, q, r, e, f, g := OptsSeq(d.prompts), DefaultsSeq(d.defaults), RangesSeq(d.ranges), OptSeq(d.dirDep),
        OptSeq(d.revDep), OptSeq(d.implied);
    AllBelowParts(p, q, rank, n);
    AllBelowParts(p + q, r, rank, n);
    AllBelowParts(p + q + r, e, rank, n);
    AllBelowParts(p + q + r + e, f, rank, n);
    AllBelowParts(p + q + r + e + f, g, rank, n);
    OptsBelow(d.prompts, rank, n);
    DefaultsBelow(d.defaults, rank, n);
    RangesBelow(d.ranges, rank, n);
    OptBelow(d.dirDep, rank, n);
    OptBelow(d.revDep, rank, n);
    OptBelow(d.implied, rank, n);
    BoundsBelow(d.ranges, rank, n);
  }

  /** A symbol is ranked exactly if all it reads ranks below it. */
  lemma RankedMeaning(c: Config, rank: Rank, s: Symbol)
    ensures RankedAt(c, rank, s) <==> RanksBelow(ReadBy(c, s), rank, rank(s))
  {
    var d, n := DeclOf(c, s), rank(s);
    EvaluatedBelow(d, rank, n);
    AllMentionsBelow(Evaluated(d), rank, n);
    var extra: set<Symbol> := if s.typ == STristate then {c.modules} else {};
    assert RanksBelow(extra, rank, n) <==> (s.typ == STristate ==> rank(c.modules) < n) by {
      assert s.typ == STristate ==> c.modules in extra;
    }
    assert forall t :: t in ReadBy(c, s) <==> t in MentionsAll(Evaluated(d)) || t in Bounds(d.ranges) || t in extra;
  }

  // ---- an order exists exactly if there is no cycle ----

  ghost predicate FallsByRank(g: Graph, rank: Rank) {
    forall s: Symbol :: RanksBelow(g(s), rank, rank(s))
  }

  lemma {:induction false} RankFalls(g: Graph, rank: Rank, p: seq<Symbol>)
    requires FallsByRank(g, rank) && |p| >= 2 && IsPath(g, p)
    ensures rank(p[|p| - 1]) < rank(p[0])
    decreases |p|
  {
    assert StepAt(g, p, |p| - 2);
    if |p| > 2 {
      PathShrinks(g, p);
      RankFalls(g, rank, p[..|p| - 1]);
    }
  }

  /** Finishing times for some symbols: each finishes after all it depends on. */
  ghost predicate Order(g: Graph, f: map<Symbol, nat>) {
    forall s :: s in f ==> OrderAt(g, f, s)
  }

  ghost predicate OrderAt(g: Graph, f: map<Symbol, nat>, s: Symbol)
    requires s in f
  {
    forall t :: t in g(s) ==> t in f && f[t] < f[s]
  }

  ghost predicate Extends(f: map<Symbol, nat>, f': map<Symbol, nat>) {
    forall s :: s in f ==> s in f' && f'[s] == f[s]
  }

  ghost function Latest(f: map<Symbol, nat>): (n: nat)
    ensures forall s :: s in f ==> f[s] < n
  {
    if f == map[] then 0
    else
      var s :| s in f;
      var n := Latest(f - {s});
      assert forall t :: t in f ==> t == s || (t in f - {s} && f[t] == (f - {s})[t]);
      if f[s] < n then n else f[s] + 1
  }

  function Elements(p: seq<Symbol>): set<Symbol> { set x | x in p }

  /** Depth-first search that cannot meet its own path: `s` and all below it get finishing times. */
  lemma Finish(g: Graph, table: set<Symbol>, p: seq<Symbol>, f: map<Symbol, nat>, s: Symbol)
    returns (f': map<Symbol, nat>)
    requires !HasCycle(g) && IsPath(g, p) && (p != [] ==> s in g(p[|p| - 1])) && Order(g, f)
    requires s in table && forall x :: x in table ==> g(x) <= table
    ensures Order(g, f') && Extends(f, f') && s in f'
    decreases table - Elements(p), 0
  {
    if s in f { return f; }
    assert s !in p by {
      if s in p { CycleClosed(g, p, s); }
    }
    PathExtends(g, p, s);
    var q := p + [s];
    assert q[|q| - 1] == s && s in Elements(q) && s !in Elements(p) && Elements(p) <= Elements(q);
    f' := FinishSet(g, table, q, f, g(s));
    if s !in f' {
      ghost var before := f';
      f' := f'[s := Latest(f')];
      forall x | x in f'
        ensures OrderAt(g, f', x)
      {
        if x != s { assert OrderAt(g, before, x); }
      }
    }
  }

  lemma FinishSet(g: Graph, table: set<Symbol>, p: seq<Symbol>, f: map<Symbol, nat>, ts: set<Symbol>)
    returns (f': map<Symbol, nat>)
    requires !HasCycle(g) && IsPath(g, p) && (p != [] ==> ts <= g(p[|p| - 1])) && Order(g, f)
    requires ts <= table && forall x :: x in table ==> g(x) <= table
    ensures Order(g, f') && Extends(f, f') && ts <= f'.Keys
    decreases table - Elements(p), |ts|
  {
    if ts == {} { return f; }
    var t :| t in ts;
    f' := Finish(g, table, p, f, t);
    f' := FinishSet(g, table, p, f', ts - {t});
  }

  /** The symbols that matter: the declared ones, what they read, and the modules symbol. */
  ghost function Table(c: Config): set<Symbol> {
    c.decls.Keys + {c.modules} + set s, t | s in c.decls && t in ReadBy(c, s) :: t
  }

  lemma UndeclaredReads(c: Config, s: Symbol)
    requires s !in c.decls
    ensures ReadBy(c, s) == if s.typ == STristate then {c.modules} else {}
  {
    assert Evaluated(DeclOf(c, s)) == [];
  }

  lemma TableClosed(c: Config)
    ensures forall s :: s in Table(c) ==> ReadGraph(c)(s) <= Table(c)
  {
    forall s | s in Table(c)
      ensures ReadGraph(c)(s) <= Table(c)
    {
      if s !in c.decls { UndeclaredReads(c, s); }
    }
  }

  /** Ranks from finishing times; a tristate nothing mentions ranks above the modules symbol. */
  function RankFrom(c: Config, f: map<Symbol, nat>): Rank
    requires c.modules in f
  {
    s => if s in f then f[s] else if s.typ == STristate then f[c.modules] + 1 else 0
  }

  /**
   A configuration has an evaluation order exactly if what its symbols read contains no cycle:
   through conditions, values of defaults, selects, implies, range bounds and the modules symbol.
   */
  lemma OrderExists(c: Config)
    ensures (exists rank: Rank :: Ranked(c, rank)) <==> !HasCycle(ReadGraph(c))
  {
    if rank: Rank :| Ranked(c, rank) {
      RankedHasNoCycle(c, rank);
    }
    if !HasCycle(ReadGraph(c)) {
      var rank := FindOrder(c);
    }
  }

  lemma RankedHasNoCycle(c: Config, rank: Rank)
    requires Ranked(c, rank)
    ensures !HasCycle(ReadGraph(c))
  {
    forall s: Symbol
      ensures RanksBelow(ReadGraph(c)(s), rank, rank(s))
    {
      assert RankedAt(c, rank, s);
      RankedMeaning(c, rank, s);
    }
    forall p | IsCycle(ReadGraph(c), p)
      ensures false
    {
      RankFalls(ReadGraph(c), rank, p);
    }
  }

  lemma FindOrder(c: Config) returns (rank: Rank)
    requires !HasCycle(ReadGraph(c))
    ensures Ranked(c, rank)
  {
    var g := ReadGraph(c);
    TableClosed(c);
    var f := FinishSet(g, Table(c), [], map[], Table(c));
    rank := RankFrom(c, f);
    forall s: Symbol
      ensures RankedAt(c, rank, s)
    {
      if s in f {
        assert OrderAt(g, f, s);
      } else {
        UndeclaredReads(c, s);
      }
      assert RanksBelow(ReadBy(c, s), rank, rank(s));
      RankedMeaning(c, rank, s);
    }
  }

  // ---- what a clean check is good for ----

  /** `s` is computed from `t` but sym_check_deps does not go from s to t. */
  predicate Unwalked(c: Config, s: Symbol, t: Symbol) { t in ReadBy(c, s) && t !in Targets(c, s) }

  lemma {:induction false} MentionsOfConcat(a: seq<Expr>, b: seq<Expr>)
    ensures MentionsAll(a + b) == MentionsAll(a) + MentionsAll(b)
    decreases |b|
  {
    if b == [] {
      assert a + b == a;
    } else {
      var rest := b[..|b|-1];
      assert (a + b)[..|a + b|-1] == a + rest;
      MentionsOfConcat(a, rest);
    }
  }

  lemma {:induction false} MentionsInclude(a: seq<Expr>, b: seq<Expr>)
    requires forall e :: e in a ==> e in b
    ensures MentionsAll(a) <= MentionsAll(b)
  {
    if a != [] {
      var e := a[|a|-1];
      assert e in b;
      var i :| 0 <= i < |b| && b[i] == e;
      MentionedAt(b, i);
      MentionsInclude(a[..|a|-1], b);
    }
  }

  /** The search misses only what is read through implies, range bounds and the modules symbol. */
  lemma UnwalkedMeaning(c: Config, s: Symbol, t: Symbol)
    requires Unwalked(c, s, t)
    ensures var d := DeclOf(c, s);
            || (d.implied.Some? && t in Mentions(d.implied.value))
            || t in Bounds(d.ranges)
            || (s.typ == STristate && t == c.modules)
  {
    var d := DeclOf(c, s);
    var shared := OptsSeq(d.prompts) + DefaultsSeq(d.defaults) + RangesSeq(d.ranges) + OptSeq(d.dirDep) +
        OptSeq(d.revDep);
    MentionsOfConcat(shared, OptSeq(d.implied));
    MentionsInclude(shared, Walked(d));
    assert d.implied.Some? ==> MentionsAll([d.implied.value]) == Mentions(d.implied.value) by {
      if d.implied.Some? { MentionsOfConcat([], [d.implied.value]); assert [d.implied.value][..0] == []; }
    }
  }

  /** A cycle of reads that takes at least one step the search does not. */
  ghost predicate HiddenCycle(c: Config) {
    exists p :: IsCycle(ReadGraph(c), p) && TakesUnwalked(c, p)
  }

  ghost predicate TakesUnwalked(c: Config, p: seq<Symbol>) {
    exists i: nat :: i + 1 < |p| && Unwalked(c, p[i], p[i + 1])
  }

  /**
   After a clean check an evaluation order exists exactly if no cycle goes through an imply, a range
   bound or the modules symbol.
   */
  lemma CheckedIsRanked(c: Config)
    requires !HasCycle(WalkGraph(c))
    ensures (exists rank: Rank :: Ranked(c, rank)) <==> !HiddenCycle(c)
  {
    OrderExists(c);
    forall p | IsCycle(ReadGraph(c), p)
      ensures TakesUnwalked(c, p)
    {
      if !TakesUnwalked(c, p) {
        forall i: nat | i + 1 < |p|
          ensures StepAt(WalkGraph(c), p, i)
        {
          assert StepAt(ReadGraph(c), p, i) && !Unwalked(c, p[i], p[i + 1]);
        }
        assert IsCycle(WalkGraph(c), p);
      }
    }
  }

  /**
   If everything the search misses is read from symbols that read nothing, such as the bounds of `range
   1 10`, a clean check is enough.
   */
  lemma CheckedIsEnough(c: Config)
    requires !HasCycle(WalkGraph(c))
    requires forall s, t :: Unwalked(c, s, t) ==> ReadBy(c, t) == {}
    ensures exists rank: Rank :: Ranked(c, rank)
  {
    CheckedIsRanked(c);
    forall p | IsCycle(ReadGraph(c), p)
      ensures !TakesUnwalked(c, p)
    {
      forall i: nat | i + 1 < |p|
        ensures !Unwalked(c, p[i], p[i + 1])
      {
        if i + 2 < |p| { assert StepAt(ReadGraph(c), p, i + 1); } else { assert StepAt(ReadGraph(c), p, 0); }
      }
    }
  }

  /** Hidden cycles exist: A implied by itself passes the check, but has no evaluation order. */
  lemma ImpliesAreNotWalked(a: Symbol, rank: Rank)
    ensures var c := Config(map[a := EMPTY_DECL.(implied := Some(Sym(a)))], SYM_NO);
            !HasCycle(WalkGraph(c)) && !Ranked(c, rank)
  {
    var c := Config(map[a := EMPTY_DECL.(implied := Some(Sym(a)))], SYM_NO);
    forall s: Symbol
      ensures FallsAt(WalkGraph(c), map[], s)
    {
      assert Walked(DeclOf(c, s)) == [];
    }
    NoCycle(WalkGraph(c), map[]);
    assert !RankedAt(c, rank, a);
  }
}

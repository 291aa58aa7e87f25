/**
 What automatic submenus contain: menu entries with their conditions, the nodes that end up in
 the submenu of a symbol, and when those are available.
 */
module MenuItems {
  import opened Tristates
  import opened Exprs
  import opened Dependencies
  import opened Submenus
  import opened MenuForest

  /** A menu entry: its symbol, its dependency, and its prompt's condition and text. */
  datatype Item = Item(sym: Option<Symbol>, dep: Option<Expr>, prompt: Option<Prompt>)
  datatype Prompt = Prompt(visible: Option<Expr>, hasText: bool)

  type Items = nat -> Item

  /** The condition an entry is tested by. */
  function Condition(i: Item): Option<Expr> { if i.prompt.Some? then i.prompt.value.visible else i.dep }

  /** The condition of the prompt of a symbol that may get a submenu. */
  function Base(i: Item): Option<Expr> { if i.prompt.Some? then i.prompt.value.visible else None }

  predicate Nests(p: Item, m: Item) { p.sym.Some? && Nested(Condition(m), p.sym.value, Base(p)) }

  predicate HasPrompt(i: Item) { i.prompt.Some? && i.prompt.value.hasText }

  function KindsOf(items: Items): Kinds {
    Kinds((i: nat) => items(i).sym.Some?,
          (i: nat) => HasPrompt(items(i)),
          (p: nat, m: nat) => Nests(items(p), items(m)))
  }

  function Avail(items: Items, i: nat, v: Valuation): Tristate { EvalOpt(Condition(items(i)), v) }

  // ---- the entries collected for a submenu ----

  /**
   Before flattening, the submenu collected for p holds only entries that pass the test, up to the
   first sibling that does not.  Each was such a sibling; one without a symbol has nothing new below it.
   */
  lemma {:induction false} AbsorbsPassing(k: Kinds, p: nat, rest: seq<Tree>)
    ensures var (kids, left, log) := Absorb(k, p, rest);
            && (forall t :: t in kids ==> k.nests(p, t.id) && Stems(k, t, rest))
            && (left != [] ==> !k.nests(p, left[0].id))
    decreases Count(rest)
  {
    if rest != [] && k.nests(p, rest[0].id) {
      CountParts(rest);
      var r := Finalize(k, rest[0], rest[1..]);
      FinalizeOrder(k, rest[0], rest[1..]);
      FinalizeSurface(k, rest[0], rest[1..]);
      AbsorbsPassing(k, p, r.rest);
      assert rest[0] in rest && StemsFrom(k, r.node, rest[0]);
      forall t | t in Absorb(k, p, r.rest).0
        ensures Stems(k, t, rest)
      {
        assert Stems(k, t, r.rest);
        var t0 :| t0 in r.rest && StemsFrom(k, t, t0);
        assert t0 in rest;
      }
    }
  }

  ghost predicate StemsFrom(k: Kinds, t: Tree, t0: Tree) {
    t0.id == t.id && (!k.isSym(t.id) ==> Surface(k, t.kids) <= Surface(k, t0.kids))
  }

  ghost predicate Stems(k: Kinds, t: Tree, rest: seq<Tree>) { exists t0 :: t0 in rest && StemsFrom(k, t, t0) }

  // ---- ifs pass their condition down ----

  /**
   Before finalisation, a node with children and no prompt is an `if`: it has no symbol, and no
   child is more available than it is.
   */
  predicate Inherits(items: Items, v: Valuation, f: seq<Tree>) {
    f == [] ||
      (&& (f[0].kids != [] && !HasPrompt(items(f[0].id)) ==>
             && items(f[0].id).sym.None? && Inherits(items, v, f[0].kids)
             && forall c :: c in f[0].kids ==> Avail(items, c.id, v) <= Avail(items, f[0].id, v))
       && Inherits(items, v, f[1..]))
  }

  lemma {:induction false} SurfaceBelow(items: Items, v: Valuation, f: seq<Tree>, bound: Tristate)
    requires Inherits(items, v, f) && forall t :: t in f ==> Avail(items, t.id, v) <= bound
    ensures forall i :: i in Surface(KindsOf(items), f) ==> Avail(items, i, v) <= bound
  {
    if f != [] {
      assert f[0] in f;
      if !HasPrompt(items(f[0].id)) && f[0].kids != [] { SurfaceBelow(items, v, f[0].kids, bound); }
      SurfaceBelow(items, v, f[1..], bound);
    }
  }

  lemma {:induction false} InheritsAt(items: Items, v: Valuation, f: seq<Tree>, t: Tree)
    requires Inherits(items, v, f) && t in f && !HasPrompt(items(t.id))
    ensures forall i :: i in Surface(KindsOf(items), t.kids) ==> Avail(items, i, v) <= Avail(items, t.id, v)
    decreases |f|
  {
    if t == f[0] {
      if t.kids != [] { SurfaceBelow(items, v, t.kids, Avail(items, t.id, v)); }
    } else {
      InheritsAt(items, v, f[1..], t);
    }
  }

  /** An entry as written: whether it is a choice, its own dependency, and its prompt's own condition and text. */
  datatype MenuEntry = MenuEntry(sym: Option<Symbol>, isChoice: bool, dep: Option<Expr>, prompt: Option<Prompt>)

  /** What the entry contributes to the conditions below it. */
  function LayerOf(e: MenuEntry): Layer {
    if e.isChoice && e.sym.Some? then ChoiceLayer(e.sym.value)
    else Layer(e.dep, if e.prompt.Some? then Some(e.prompt.value.visible) else None)
  }

  /** The entry as menu_finalize leaves it below the given layers. */
  function ItemOf(e: MenuEntry, layers: seq<Layer>, modules: Symbol): Item {
    var typ := if e.sym.Some? then e.sym.value.typ else STristate;
    Item(e.sym, Propagate(layers + [Layer(e.dep, None)], modules),
         if e.prompt.Some? then
           Some(Prompt(FinalizeProp(layers, e.dep, e.prompt.value.visible, typ, modules), e.prompt.value.hasText))
         else None)
  }

  /** The items of f are those of the entries, propagated through the nodes above them. */
  predicate Built(items: Items, entries: nat -> MenuEntry, modules: Symbol, layers: seq<Layer>, f: seq<Tree>)
    decreases f
  {
    f == [] ||
      (&& items(f[0].id) == ItemOf(entries(f[0].id), layers, modules)
       && Built(items, entries, modules, layers + [LayerOf(entries(f[0].id))], f[0].kids)
       && Built(items, entries, modules, layers, f[1..]))
  }

  predicate AdmissibleEntry(e: MenuEntry) {
    AdmissibleOpt(e.dep) && (e.prompt.Some? ==> AdmissibleOpt(e.prompt.value.visible)) &&
    (e.sym.Some? ==> !e.sym.value.isConst)
  }

  /** Every node with children and no prompt is an `if`; a choice without a prompt is not among the nodes. */
  predicate BareAreIfs(entries: nat -> MenuEntry, f: seq<Tree>) {
    f == [] ||
      (&& AdmissibleEntry(entries(f[0].id))
       && (f[0].kids != [] && !(entries(f[0].id).prompt.Some? && entries(f[0].id).prompt.value.hasText) ==>
             entries(f[0].id).sym.None? && BareAreIfs(entries, f[0].kids))
       && BareAreIfs(entries, f[1..]))
  }

  /** No entry is more available than what the layers above it pass down. */
  lemma ItemBelow(e: MenuEntry, layers: seq<Layer>, modules: Symbol, v: Valuation)
    requires WellTyped(v) && AdmissibleEntry(e) && forall l :: l in layers ==> AdmissibleLayer(l)
    ensures EvalOpt(Condition(ItemOf(e, layers, modules)), v) <= EvalOpt(Propagate(layers, modules), v)
  {
    var own := Layer(e.dep, if e.prompt.Some? then Some(e.prompt.value.visible) else None);
    var all := layers + [own];
    assert all[..|all|-1] == layers;
    PropagateMeaning(layers, modules, v);
    PropagateMeaning(all, modules, v);
    var x := Propagate(all, modules);
    if x.Some? { TransBoolMeaning(x.value, v); }
  }

  /** What an `if` passes down is the condition it is tested by itself. */
  lemma IfPassesDown(e: MenuEntry, layers: seq<Layer>, modules: Symbol)
    requires e.sym.None?
    ensures Propagate(layers + [LayerOf(e)], modules) == Condition(ItemOf(e, layers, modules))
  {
  }

  lemma {:induction false} BuiltBelow(items: Items, entries: nat -> MenuEntry, modules: Symbol, layers: seq<Layer>,
      f: seq<Tree>, v: Valuation)
    requires WellTyped(v) && Built(items, entries, modules, layers, f) && BareAreIfs(entries, f)
    requires forall l :: l in layers ==> AdmissibleLayer(l)
    ensures forall t :: t in f ==> Avail(items, t.id, v) <= EvalOpt(Propagate(layers, modules), v)
  {
    if f != [] {
      ItemBelow(entries(f[0].id), layers, modules, v);
      BuiltBelow(items, entries, modules, layers, f[1..], v);
    }
  }

  /** The conditions menu_finalize propagates are inherited by the children of ifs. */
  lemma {:induction false} BuiltInherits(items: Items, entries: nat -> MenuEntry, modules: Symbol, layers: seq<Layer>,
      f: seq<Tree>, v: Valuation)
    requires WellTyped(v) && Built(items, entries, modules, layers, f) && BareAreIfs(entries, f)
    requires forall l :: l in layers ==> AdmissibleLayer(l)
    ensures Inherits(items, v, f)
    decreases f
  {
    if f != [] {
      var e := entries(f[0].id);
      if f[0].kids != [] && !HasPrompt(items(f[0].id)) {
        var inner := layers + [LayerOf(e)];
        assert forall l :: l in inner ==> AdmissibleLayer(l);
        BuiltInherits(items, entries, modules, inner, f[0].kids, v);
        BuiltBelow(items, entries, modules, inner, f[0].kids, v);
        IfPassesDown(e, layers, modules);
      }
      BuiltInherits(items, entries, modules, layers, f[1..], v);
    }
  }

  // ---- soundness of finished submenus ----

  /** What the soundness of a submenu needs of a condition. */
  predicate Plain(e: Option<Expr>) { CleanOpt(e) && (e.Some? ==> TriLeaves(e.value)) }

  /**
   A collected entry that brings no strangers into the submenu: it has no children left, a prompt, or
   no symbol; and it is not available only because of negated symbols at m.
   */
  predicate Fits(items: Items, t: Tree, v: Valuation) {
    && (t.kids == [] || HasPrompt(items(t.id)) || items(t.id).sym.None?)
    && Plain(Condition(items(t.id)))
    && (Avail(items, t.id, v) != NO && Condition(items(t.id)).Some? ==> !Misread(Condition(items(t.id)).value, v))
  }

  /** A collected entry is available only if the symbol of p is not n or the prompt of p is available. */
  lemma CollectedSound(items: Items, p: nat, rest: seq<Tree>, t: Tree, v: Valuation)
    requires t in Absorb(KindsOf(items), p, rest).0
    requires WellTyped(v) && items(p).sym.Some? && IsTriType(items(p).sym.value.typ)
    requires Fits(items, t, v) && Plain(Base(items(p))) && Avail(items, t.id, v) != NO
    ensures v(items(p).sym.value).tri != NO || EvalOpt(Base(items(p)), v) != NO
  {
    AbsorbsPassing(KindsOf(items), p, rest);
    assert KindsOf(items).nests(p, t.id);
    NestedSound(Condition(items(t.id)), items(p).sym.value, Base(items(p)), v);
  }

  /** One entry of the finished submenu: it was collected itself, or came up from below a collected `if`. */
  lemma EntrySound(items: Items, p: nat, rest: seq<Tree>, x: Tree, v: Valuation)
    requires x in Finalize(KindsOf(items), Tree(p, []), rest).node.kids
    requires WellTyped(v) && items(p).sym.Some? && IsTriType(items(p).sym.value.typ)
    requires Plain(Base(items(p))) && Inherits(items, v, rest)
    requires forall t :: t in Absorb(KindsOf(items), p, rest).0 ==> Fits(items, t, v)
    requires Avail(items, x.id, v) != NO
    ensures v(items(p).sym.value).tri != NO || EvalOpt(Base(items(p)), v) != NO
  {
    var k := KindsOf(items);
    var kids := Absorb(k, p, rest).0;
    assert Finalize(k, Tree(p, []), rest).node.kids == Flatten(k, kids);
    OnSurface(k, Flatten(k, kids), x);
    SurfaceFlatten(k, kids);
    var t := SurfaceOrigin(k, kids, x.id);
    if x.id != t.id {
      AbsorbsPassing(k, p, rest);
      assert Stems(k, t, rest) && Fits(items, t, v);
      assert t.kids != [];
      var t0 :| t0 in rest && StemsFrom(k, t, t0);
      assert x.id in Surface(k, t0.kids);
      InheritsAt(items, v, rest, t0);
    }
    CollectedSound(items, p, rest, t, v);
  }

  /**
   Every entry in the finished submenu of p is available only if the symbol of p is not n or the
   prompt of p is available, provided the collected entries fit.
   */
  ghost predicate Sheltered(items: Items, p: nat, rest: seq<Tree>, v: Valuation) {
    var k := KindsOf(items);
    items(p).sym.Some? && IsTriType(items(p).sym.value.typ) && Plain(Base(items(p)))
    && (forall t :: t in Absorb(k, p, rest).0 ==> Fits(items, t, v)) ==>
      forall x :: x in Finalize(k, Tree(p, []), rest).node.kids && Avail(items, x.id, v) != NO ==>
        v(items(p).sym.value).tri != NO || EvalOpt(Base(items(p)), v) != NO
  }

  /** Finished submenus are sound if children of ifs inherit and no symbol without a prompt brings others along. */
  lemma SubmenuSound(items: Items, p: nat, rest: seq<Tree>, v: Valuation)
    requires WellTyped(v) && Inherits(items, v, rest)
    ensures Sheltered(items, p, rest, v)
  {
    var k := KindsOf(items);
    if items(p).sym.Some? && IsTriType(items(p).sym.value.typ) && Plain(Base(items(p)))
       && (forall t :: t in Absorb(k, p, rest).0 ==> Fits(items, t, v)) {
      forall x | x in Finalize(k, Tree(p, []), rest).node.kids && Avail(items, x.id, v) != NO
        ensures v(items(p).sym.value).tri != NO || EvalOpt(Base(items(p)), v) != NO
      {
        EntrySound(items, p, rest, x, v);
      }
    }
  }

  /** The same for entries whose conditions are those menu_finalize propagates from the written ones. */
  lemma BuiltSubmenuSound(items: Items, entries: nat -> MenuEntry, modules: Symbol, layers: seq<Layer>,
      p: nat, rest: seq<Tree>, v: Valuation)
    requires WellTyped(v) && Built(items, entries, modules, layers, rest) && BareAreIfs(entries, rest)
    requires forall l :: l in layers ==> AdmissibleLayer(l)
    ensures Sheltered(items, p, rest, v)
  {
    BuiltInherits(items, entries, modules, layers, rest, v);
    SubmenuSound(items, p, rest, v);
  }

  // ---- symbols without a prompt bring strangers ----

  const EX_P := Symbol("P", SBoolean, false)
  const EX_Q := Symbol("Q", SBoolean, false)
  const EX_R := Symbol("R", SBoolean, false)
  const EX_C := Symbol("C", SBoolean, false)

  /** P with a prompt under R; Q without a prompt, depending on P; C with a prompt under !Q. */
  function ExItems(): Items {
    i => if i == 0 then Item(Some(EX_P), Some(Sym(EX_R)), Some(Prompt(Some(Sym(EX_R)), true)))
         else if i == 1 then Item(Some(EX_Q), Some(Sym(EX_P)), None)
         else Item(Some(EX_C), Some(Not(Sym(EX_Q))), Some(Prompt(Some(Not(Sym(EX_Q))), true)))
  }

  lemma ExTests()
    ensures var k := KindsOf(ExItems());
            && k.nests(0, 1) && !k.nests(0, 2) && k.nests(1, 2)
            && k.isSym(0) && k.isSym(1) && k.isSym(2) && k.hasPrompt(2) && !k.hasPrompt(1)
  {
    assert EX_P.name[0] == 'P' && EX_Q.name[0] == 'Q';
    var p, q, c := ExItems()(0), ExItems()(1), ExItems()(2);
    assert Condition(q) == Some(Sym(EX_P)) && DependsSymbol(Sym(EX_P), EX_P) && ContainsSymbol(Sym(EX_P), EX_P);
    assert Nests(p, q);
    assert Condition(c) == Some(Not(Sym(EX_Q))) && ContainsSymbol(Sym(EX_Q), EX_Q) && !ContainsSymbol(Sym(EX_Q), EX_P);
    BareSymbolTakesAll(Condition(c), EX_Q);
    assert Nests(q, c) && !Nests(p, c) && HasPrompt(c) && !HasPrompt(q);
  }

  /** 0 takes 1, 1 takes 2 and gives it up to 0 again. */
  lemma ThreeNodes(k: Kinds)
    requires k.isSym(0) && k.isSym(1) && k.isSym(2) && k.hasPrompt(2) && !k.hasPrompt(1) && k.nests(0, 1) &&
             k.nests(1, 2)
    ensures Finalize(k, Tree(0, []), [Tree(1, []), Tree(2, [])]).node == Tree(0, [Tree(1, []), Tree(2, [])])
  {
    var one, two := Tree(1, []), Tree(2, []);
    var full := Tree(1, [two]);
    var l1, l2, l3 := [two], [one, two], [full];
    assert l1[0] == two && l1[1..] == [] && l2[0] == one && l2[1..] == l1 && l3[0] == full && l3[1..] == [];
    assert Absorb(k, 2, []) == ([], [], []) && Absorb(k, 1, []) == ([], [], []) && Absorb(k, 0, []) == ([], [], []);
    assert Flatten(k, []) == [];
    assert Finalize(k, two, []) == Outcome(two, [], [2] + []);
    assert Absorb(k, 1, l1) == ([two] + [], [], ([2] + []) + []);
    assert [two] + [] == l1;
    assert Flatten(k, l1) == [two] + [];
    assert Finalize(k, one, l1) == Outcome(full, [], [1] + (([2] + []) + []));
    assert Absorb(k, 0, l2).0 == [full] + [];
    assert [full] + [] == l3 && full.kids + l3[1..] == l1;
    assert Flatten(k, l3) == [one] + Flatten(k, l1);
    assert [one] + l1 == l2;
  }

  /**
   The family left out is not empty: C mentions Q, which takes every such entry, and flattening moves
   C from Q into the submenu of P.  With P, Q and R at n, C is available, P is n and its prompt is not
   available; C does not pass the test of P.
   */
  lemma StrangerInSubmenu(v: Valuation)
    requires WellTyped(v) && v(EX_P).tri == NO && v(EX_Q).tri == NO && v(EX_R).tri == NO
    ensures var k := KindsOf(ExItems());
            && Finalize(k, Tree(0, []), [Tree(1, []), Tree(2, [])]).node == Tree(0, [Tree(1, []), Tree(2, [])])
            && !k.nests(0, 2)
            && Avail(ExItems(), 2, v) == YES && EvalOpt(Base(ExItems()(0)), v) == NO
  {
    ExTests();
    ThreeNodes(KindsOf(ExItems()));
    assert Eval(Sym(EX_Q), v) == NO && Eval(Not(Sym(EX_Q)), v) == YES && Eval(Sym(EX_R), v) == NO;
  }
}

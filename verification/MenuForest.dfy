/**
 menu_finalize as a rearrangement of trees.  `nests(p, m)` is the outcome of the dependency
 tests that put entry m into the submenu of symbol p; `isSym` and `hasPrompt` describe nodes.
 */
module MenuForest {
  datatype Tree = Tree(id: nat, kids: seq<Tree>)

  datatype Kinds = Kinds(isSym: nat -> bool, hasPrompt: nat -> bool, nests: (nat, nat) -> bool)

  /** The nodes of a forest in pre-order: a node, its children, its later siblings. */
  function PreOrder(f: seq<Tree>): seq<nat> {
    if f == [] then [] else [f[0].id] + PreOrder(f[0].kids) + PreOrder(f[1..])
  }

  lemma {:induction false} PreOrderConcat(f: seq<Tree>, g: seq<Tree>)
    ensures PreOrder(f + g) == PreOrder(f) + PreOrder(g)
    decreases |f|
  {
    if f == [] {
      assert f + g == g;
    } else {
      assert (f + g)[0] == f[0] && (f + g)[1..] == f[1..] + g;
      PreOrderConcat(f[1..], g);
    }
  }

  lemma PreOrderCons(t: Tree, f: seq<Tree>)
    ensures PreOrder([t] + f) == [t.id] + PreOrder(t.kids) + PreOrder(f)
  {
    assert ([t] + f)[1..] == f;
  }

  lemma Assoc<T>(a: seq<T>, b: seq<T>, c: seq<T>)
    ensures (a + b) + c == a + (b + c)
  {
  }

  function Count(f: seq<Tree>): nat { |PreOrder(f)| }

  lemma CountParts(f: seq<Tree>)
    requires f != []
    ensures Count(f) == 1 + Count(f[0].kids) + Count(f[1..])
  {
  }

  /** The outcome of finalising a node: the node, the siblings left behind it, and the nodes finalised, in order. */
  datatype Outcome = Outcome(node: Tree, rest: seq<Tree>, log: seq<nat>)

  /** menu_finalize(t), with `rest` the siblings after t. */
  function Finalize(k: Kinds, t: Tree, rest: seq<Tree>): (r: Outcome)
    ensures Count(r.rest) <= Count(rest)
    decreases Count([t] + rest), 1
  {
    PreOrderCons(t, rest);
    if t.kids != [] then
      var (kids, log) := FinalizeAll(k, t.kids);
      Outcome(Tree(t.id, Flatten(k, kids)), rest, [t.id] + log)
    else if k.isSym(t.id) then
      var (kids, left, log) := Absorb(k, t.id, rest);
      Outcome(Tree(t.id, Flatten(k, kids)), left, [t.id] + log)
    else Outcome(t, rest, [t.id])
  }

  /** Finalises a list of children; each may swallow siblings after it. */
  function FinalizeAll(k: Kinds, f: seq<Tree>): (seq<Tree>, seq<nat>)
    decreases Count(f), 2
  {
    if f == [] then ([], [])
    else
      assert f == [f[0]] + f[1..];
      CountParts(f);
      var r := Finalize(k, f[0], f[1..]);
      var (g, log) := FinalizeAll(k, r.rest);
      ([r.node] + g, r.log + log)
  }

  /** The siblings that go into the submenu of `p`, the ones that stay, and the nodes finalised. */
  function Absorb(k: Kinds, p: nat, rest: seq<Tree>): (r: (seq<Tree>, seq<Tree>, seq<nat>))
    ensures Count(r.1) <= Count(rest)
    decreases Count(rest), 2
  {
    if rest == [] || !k.nests(p, rest[0].id) then ([], rest, [])
    else
      assert rest == [rest[0]] + rest[1..];
      CountParts(rest);
      var r := Finalize(k, rest[0], rest[1..]);
      var (g, left, log) := Absorb(k, p, r.rest);
      ([r.node] + g, left, r.log + log)
  }

  /** Children of nodes without a prompt move up behind them. */
  function Flatten(k: Kinds, f: seq<Tree>): seq<Tree>
    decreases Count(f)
  {
    if f == [] then []
    else
      CountParts(f);
      if f[0].kids != [] && !k.hasPrompt(f[0].id) then
        PreOrderConcat(f[0].kids, f[1..]);
        [Tree(f[0].id, [])] + Flatten(k, f[0].kids + f[1..])
      else [f[0]] + Flatten(k, f[1..])
  }

  lemma {:induction false} FlattenOrder(k: Kinds, f: seq<Tree>)
    ensures PreOrder(Flatten(k, f)) == PreOrder(f)
    decreases Count(f)
  {
    if f != [] {
      CountParts(f);
      if f[0].kids != [] && !k.hasPrompt(f[0].id) {
        PreOrderConcat(f[0].kids, f[1..]);
        var g := f[0].kids + f[1..];
        FlattenOrder(k, g);
        PreOrderCons(Tree(f[0].id, []), Flatten(k, g));
        assert PreOrder([]) == [];
      } else {
        FlattenOrder(k, f[1..]);
        PreOrderCons(f[0], Flatten(k, f[1..]));
      }
    }
  }

  /** Finalising moves nodes between levels but keeps their order, and finalises each node of the result once. */
  lemma {:induction false} FinalizeOrder(k: Kinds, t: Tree, rest: seq<Tree>)
    ensures var r := Finalize(k, t, rest);
            PreOrder([r.node] + r.rest) == PreOrder([t] + rest) && r.log == PreOrder([r.node]) && r.node.id == t.id
    decreases Count([t] + rest), 1
  {
    PreOrderCons(t, rest);
    var r := Finalize(k, t, rest);
    PreOrderCons(r.node, r.rest);
    PreOrderCons(r.node, []);
    assert [r.node] + [] == [r.node];
    if t.kids != [] {
      var (kids, log) := FinalizeAll(k, t.kids);
      FinalizeAllOrder(k, t.kids);
      FlattenOrder(k, kids);
    } else if k.isSym(t.id) {
      var (kids, left, log) := Absorb(k, t.id, rest);
      AbsorbOrder(k, t.id, rest);
      FlattenOrder(k, kids);
      Assoc([t.id], PreOrder(kids), PreOrder(left));
      assert [t.id] + PreOrder([]) == [t.id];
    }
  }

  lemma {:induction false} FinalizeAllOrder(k: Kinds, f: seq<Tree>)
    ensures PreOrder(FinalizeAll(k, f).0) == PreOrder(f) && FinalizeAll(k, f).1 == PreOrder(f)
    decreases Count(f), 2
  {
    if f != [] {
      assert f == [f[0]] + f[1..];
      CountParts(f);
      var r := Finalize(k, f[0], f[1..]);
      FinalizeOrder(k, f[0], f[1..]);
      FinalizeAllOrder(k, r.rest);
      PreOrderConcat([r.node], FinalizeAll(k, r.rest).0);
      PreOrderConcat([r.node], r.rest);
    }
  }

  lemma {:induction false} AbsorbOrder(k: Kinds, p: nat, rest: seq<Tree>)
    ensures var (kids, left, log) := Absorb(k, p, rest);
            PreOrder(kids) + PreOrder(left) == PreOrder(rest) && log == PreOrder(kids)
    decreases Count(rest), 2
  {
    if rest != [] && k.nests(p, rest[0].id) {
      assert rest == [rest[0]] + rest[1..];
      CountParts(rest);
      var r := Finalize(k, rest[0], rest[1..]);
      FinalizeOrder(k, rest[0], rest[1..]);
      AbsorbOrder(k, p, r.rest);
      var (g, left, log) := Absorb(k, p, r.rest);
      PreOrderConcat([r.node], g);
      PreOrderConcat([r.node], r.rest);
      Assoc(PreOrder([r.node]), PreOrder(g), PreOrder(left));
    }
  }

  // ---- where nodes can surface ----

  /** Flattening leaves a list alone exactly if no node without a prompt has children. */
  lemma {:induction false} FlattenFixes(k: Kinds, f: seq<Tree>)
    ensures Flatten(k, f) == f <==> forall t :: t in f ==> t.kids == [] || k.hasPrompt(t.id)
    decreases |f|
  {
    if f != [] {
      assert f == [f[0]] + f[1..];
      if f[0].kids != [] && !k.hasPrompt(f[0].id) {
        assert Flatten(k, f)[0].kids == [];
        assert f[0] in f;
      } else {
        FlattenFixes(k, f[1..]);
        assert Flatten(k, f)[1..] == Flatten(k, f[1..]);
      }
    }
  }

  /** The nodes of a list and, below nodes without a prompt, of their children: what flattening can bring up. */
  function Surface(k: Kinds, f: seq<Tree>): set<nat> {
    if f == [] then {}
    else
      {f[0].id} + (if k.hasPrompt(f[0].id) then {} else Surface(k, f[0].kids)) + Surface(k, f[1..])
  }

  lemma {:induction false} SurfaceConcat(k: Kinds, f: seq<Tree>, g: seq<Tree>)
    ensures Surface(k, f + g) == Surface(k, f) + Surface(k, g)
    decreases |f|
  {
    if f == [] {
      assert f + g == g;
    } else {
      assert (f + g)[0] == f[0] && (f + g)[1..] == f[1..] + g;
      SurfaceConcat(k, f[1..], g);
    }
  }

  lemma SurfaceCons(k: Kinds, t: Tree, f: seq<Tree>)
    ensures Surface(k, [t] + f) == {t.id} + (if k.hasPrompt(t.id) then {} else Surface(k, t.kids)) + Surface(k, f)
  {
    assert ([t] + f)[1..] == f;
  }

  lemma {:induction false} SurfaceFlatten(k: Kinds, f: seq<Tree>)
    ensures Surface(k, Flatten(k, f)) == Surface(k, f)
    decreases Count(f)
  {
    if f != [] {
      CountParts(f);
      assert f == [f[0]] + f[1..];
      if f[0].kids != [] && !k.hasPrompt(f[0].id) {
        PreOrderConcat(f[0].kids, f[1..]);
        SurfaceConcat(k, f[0].kids, f[1..]);
        SurfaceFlatten(k, f[0].kids + f[1..]);
        SurfaceCons(k, Tree(f[0].id, []), Flatten(k, f[0].kids + f[1..]));
      } else {
        SurfaceFlatten(k, f[1..]);
        SurfaceCons(k, f[0], Flatten(k, f[1..]));
      }
    }
  }

  /** Finalising a node brings nothing to the surface of its level that was not there. */
  lemma {:induction false} FinalizeSurface(k: Kinds, t: Tree, rest: seq<Tree>)
    ensures var r := Finalize(k, t, rest);
            && Surface(k, [r.node]) <= Surface(k, [t] + rest) && Surface(k, r.rest) <= Surface(k, rest)
            && (forall x :: x in r.rest ==> x in rest)
    ensures !k.isSym(t.id) ==> Surface(k, Finalize(k, t, rest).node.kids) <= Surface(k, t.kids)
    decreases Count([t] + rest), 1
  {
    PreOrderCons(t, rest);
    var r := Finalize(k, t, rest);
    SurfaceCons(k, t, rest);
    SurfaceCons(k, r.node, []);
    assert [r.node] + [] == [r.node];
    if t.kids != [] {
      FinalizeAllSurface(k, t.kids);
      SurfaceFlatten(k, FinalizeAll(k, t.kids).0);
    } else if k.isSym(t.id) {
      AbsorbSurface(k, t.id, rest);
      SurfaceFlatten(k, Absorb(k, t.id, rest).0);
    }
  }

  lemma {:induction false} FinalizeAllSurface(k: Kinds, f: seq<Tree>)
    ensures Surface(k, FinalizeAll(k, f).0) <= Surface(k, f)
    decreases Count(f), 2
  {
    if f != [] {
      assert f == [f[0]] + f[1..];
      CountParts(f);
      var r := Finalize(k, f[0], f[1..]);
      FinalizeSurface(k, f[0], f[1..]);
      FinalizeAllSurface(k, r.rest);
      SurfaceConcat(k, [r.node], FinalizeAll(k, r.rest).0);
      SurfaceCons(k, f[0], f[1..]);
    }
  }

  lemma {:induction false} AbsorbSurface(k: Kinds, p: nat, rest: seq<Tree>)
    ensures var (kids, left, log) := Absorb(k, p, rest);
            && Surface(k, kids) <= Surface(k, rest) && Surface(k, left) <= Surface(k, rest)
            && (forall x :: x in left ==> x in rest)
    decreases Count(rest), 2
  {
    if rest != [] && k.nests(p, rest[0].id) {
      assert rest == [rest[0]] + rest[1..];
      CountParts(rest);
      var r := Finalize(k, rest[0], rest[1..]);
      FinalizeSurface(k, rest[0], rest[1..]);
      AbsorbSurface(k, p, r.rest);
      SurfaceConcat(k, [r.node], Absorb(k, p, r.rest).0);
      SurfaceCons(k, rest[0], rest[1..]);
    }
  }

  /** A node on the surface of a list is in the list or below one of its nodes without a prompt. */
  lemma {:induction false} SurfaceOrigin(k: Kinds, f: seq<Tree>, i: nat) returns (t: Tree)
    requires i in Surface(k, f)
    ensures t in f && (i == t.id || (!k.hasPrompt(t.id) && i in Surface(k, t.kids)))
    decreases |f|
  {
    if i == f[0].id || (!k.hasPrompt(f[0].id) && i in Surface(k, f[0].kids)) {
      t := f[0];
    } else {
      t := SurfaceOrigin(k, f[1..], i);
    }
  }

  lemma {:induction false} OnSurface(k: Kinds, f: seq<Tree>, t: Tree)
    requires t in f
    ensures t.id in Surface(k, f)
    decreases |f|
  {
    if t != f[0] { OnSurface(k, f[1..], t); }
  }

  // ---- finished menus are flat ----

  /** No node below t that lacks a prompt has children. */
  predicate Flat(k: Kinds, t: Tree) { forall c :: c in t.kids ==> (c.kids == [] || k.hasPrompt(c.id)) && Flat(k, c) }

  predicate AllFlat(k: Kinds, f: seq<Tree>) { forall t :: t in f ==> Flat(k, t) }

  lemma {:induction false} FlattenIsFlat(k: Kinds, f: seq<Tree>)
    requires AllFlat(k, f)
    ensures forall t :: t in Flatten(k, f) ==> (t.kids == [] || k.hasPrompt(t.id)) && Flat(k, t)
    decreases Count(f)
  {
    if f != [] {
      CountParts(f);
      assert f[0] in f;
      if f[0].kids != [] && !k.hasPrompt(f[0].id) {
        PreOrderConcat(f[0].kids, f[1..]);
        FlattenIsFlat(k, f[0].kids + f[1..]);
      } else {
        FlattenIsFlat(k, f[1..]);
      }
    }
  }

  /** After menu_finalize no menu below the node holds an entry without a prompt that has children. */
  lemma {:induction false} FinalizeIsFlat(k: Kinds, t: Tree, rest: seq<Tree>)
    ensures Flat(k, Finalize(k, t, rest).node)
    decreases Count([t] + rest), 1
  {
    PreOrderCons(t, rest);
    if t.kids != [] {
      FinalizeAllIsFlat(k, t.kids);
      FlattenIsFlat(k, FinalizeAll(k, t.kids).0);
    } else if k.isSym(t.id) {
      AbsorbIsFlat(k, t.id, rest);
      FlattenIsFlat(k, Absorb(k, t.id, rest).0);
    }
  }

  lemma {:induction false} FinalizeAllIsFlat(k: Kinds, f: seq<Tree>)
    ensures AllFlat(k, FinalizeAll(k, f).0)
    decreases Count(f), 2
  {
    if f != [] {
      assert f == [f[0]] + f[1..];
      CountParts(f);
      FinalizeIsFlat(k, f[0], f[1..]);
      FinalizeAllIsFlat(k, Finalize(k, f[0], f[1..]).rest);
    }
  }

  lemma {:induction false} AbsorbIsFlat(k: Kinds, p: nat, rest: seq<Tree>)
    ensures AllFlat(k, Absorb(k, p, rest).0)
    decreases Count(rest), 2
  {
    if rest != [] && k.nests(p, rest[0].id) {
      assert rest == [rest[0]] + rest[1..];
      CountParts(rest);
      FinalizeIsFlat(k, rest[0], rest[1..]);
      AbsorbIsFlat(k, p, Finalize(k, rest[0], rest[1..]).rest);
    }
  }
}

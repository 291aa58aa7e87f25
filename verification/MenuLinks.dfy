/**
 The menu nodes as menu.c links them: each node points to its next sibling, its first child
 and its parent.  menu_finalize relinks these pointers; the forest they represent changes
 as MenuForest says.
 */
module MenuLinks {
  import opened Tristates
  import opened MenuForest

  /** A node or NULL. */
  type Ptr = Option<nat>

  function At(m: map<nat, nat>, i: nat): Ptr { if i in m then Some(m[i]) else None }

  function Set(m: map<nat, nat>, i: nat, p: Ptr): map<nat, nat> {
    if p.Some? then m[i := p.value] else m - {i}
  }

  datatype Links = Links(next: map<nat, nat>, list: map<nat, nat>, parent: map<nat, nat>)

  /** From `first` up to `end` the pointers form the forest f, at a level whose parent is `par`. */
  ghost predicate Seg(l: Links, first: Ptr, par: Ptr, f: seq<Tree>, end: Ptr)
    decreases f
  {
    if f == [] then first == end
    else
      && first == Some(f[0].id) && At(l.parent, f[0].id) == par
      && Seg(l, At(l.list, f[0].id), first, f[0].kids, None)
      && Seg(l, At(l.next, f[0].id), par, f[1..], end)
  }

  predicate SameAt(l: Links, k: Links, i: nat) {
    At(l.next, i) == At(k.next, i) && At(l.list, i) == At(k.list, i) && At(l.parent, i) == At(k.parent, i)
  }

  /** The links of no other node than those in `ids` differ. */
  ghost predicate Only(l: Links, k: Links, ids: seq<nat>) {
    forall i :: i !in ids ==> SameAt(l, k, i)
  }

  lemma OnlyThen(l: Links, m: Links, k: Links, a: seq<nat>, b: seq<nat>, ids: seq<nat>)
    requires Only(l, m, a) && Only(m, k, b)
    requires forall x :: x in a || x in b ==> x in ids
    ensures Only(l, k, ids)
  {
  }

  ghost predicate Apart(a: seq<nat>, b: seq<nat>) {
    forall x :: x in a ==> x !in b
  }

  ghost predicate Distinct(s: seq<nat>) {
    forall i, j :: 0 <= i < j < |s| ==> s[i] != s[j]
  }

  lemma DistinctParts(a: seq<nat>, b: seq<nat>)
    ensures Distinct(a + b) <==> Distinct(a) && Distinct(b) && Apart(a, b)
  {
    var s := a + b;
    if Distinct(s) {
      assert forall i :: 0 <= i < |a| ==> s[i] == a[i];
      forall i, j | 0 <= i < j < |b|
        ensures b[i] != b[j]
      {
        assert s[|a| + i] == b[i] && s[|a| + j] == b[j];
      }
      forall i, j | 0 <= i < |a| && 0 <= j < |b|
        ensures a[i] != b[j]
      {
        assert s[i] == a[i] && s[|a| + j] == b[j];
      }
    }
    if Distinct(a) && Distinct(b) && Apart(a, b) {
      forall i, j | 0 <= i < j < |s|
        ensures s[i] != s[j]
      {
        if i < |a| { assert s[i] in a; }
        if j >= |a| { assert s[j] in b; }
      }
    }
  }

  lemma DistinctSplit(p: nat, a: seq<nat>, b: seq<nat>)
    requires Distinct([p] + (a + b))
    ensures Distinct([p] + a) && p !in a && p !in b && Apart(a, b) && Apart(b, a)
  {
    DistinctParts([p], a + b);
    DistinctParts(a, b);
    DistinctParts([p], a);
    assert p in [p];
  }

  /** What distinctness says about the parts of a forest. */
  lemma DistinctForest(f: seq<Tree>)
    requires f != [] && Distinct(PreOrder(f))
    ensures f[0].id !in PreOrder(f[0].kids) && f[0].id !in PreOrder(f[1..])
    ensures Apart(PreOrder(f[0].kids), PreOrder(f[1..]))
    ensures Distinct(PreOrder(f[0].kids)) && Distinct(PreOrder(f[1..]))
  {
    var a, b, c := [f[0].id], PreOrder(f[0].kids), PreOrder(f[1..]);
    DistinctParts(a + b, c);
    DistinctParts(a, b);
    assert f[0].id in a && f[0].id in a + b;
  }

  lemma {:induction false} SegFrame(l: Links, k: Links, first: Ptr, par: Ptr, f: seq<Tree>, end: Ptr)
    requires Seg(l, first, par, f, end)
    requires forall i :: i in PreOrder(f) ==> SameAt(l, k, i)
    ensures Seg(k, first, par, f, end)
    decreases f
  {
    if f != [] {
      assert SameAt(l, k, f[0].id);
      SegFrame(l, k, At(l.list, f[0].id), first, f[0].kids, None);
      SegFrame(l, k, At(l.next, f[0].id), par, f[1..], end);
    }
  }

  lemma {:induction false} SegConcat(l: Links, first: Ptr, par: Ptr, f: seq<Tree>, mid: Ptr, g: seq<Tree>, end: Ptr)
    requires Seg(l, first, par, f, mid) && Seg(l, mid, par, g, end)
    ensures Seg(l, first, par, f + g, end)
    decreases |f|
  {
    if f == [] {
      assert f + g == g;
    } else {
      assert (f + g)[0] == f[0] && (f + g)[1..] == f[1..] + g;
      SegConcat(l, At(l.next, f[0].id), par, f[1..], mid, g, end);
    }
  }

  /** A level continues where the pointer of its last node says; changing that pointer changes nothing before it. */
  lemma {:induction false} SegRelink(l: Links, k: Links, first: Ptr, par: Ptr, f: seq<Tree>, end: Ptr, end': Ptr)
    requires f != [] && Seg(l, first, par, f, end) && Distinct(PreOrder(f))
    requires k == l.(next := Set(l.next, f[|f|-1].id, end'))
    ensures Seg(k, first, par, f, end') && At(l.next, f[|f|-1].id) == end && f[|f|-1].id in PreOrder(f)
    decreases |f|
  {
    DistinctForest(f);
    if |f| > 1 {
      SegRelink(l, k, At(l.next, f[0].id), par, f[1..], end, end');
    }
    SegFrame(l, k, At(l.list, f[0].id), first, f[0].kids, None);
  }

  lemma SegCons(l: Links, first: Ptr, par: Ptr, t: Tree, f: seq<Tree>, end: Ptr)
    ensures Seg(l, first, par, [t] + f, end) <==>
      && first == Some(t.id) && At(l.parent, t.id) == par
      && Seg(l, At(l.list, t.id), first, t.kids, None)
      && Seg(l, At(l.next, t.id), par, f, end)
  {
    assert ([t] + f)[1..] == f;
  }

  lemma SegOne(l: Links, par: Ptr, t: Tree, end: Ptr)
    ensures Seg(l, Some(t.id), par, [t], end) <==>
      && At(l.parent, t.id) == par
      && Seg(l, At(l.list, t.id), Some(t.id), t.kids, None)
      && At(l.next, t.id) == end
  {
    SegCons(l, Some(t.id), par, t, [], end);
    assert [t] + [] == [t];
  }

  /** A level grows by a node when only links behind it have changed. */
  lemma SegGrow(l: Links, k: Links, first: Ptr, par: Ptr, g: seq<Tree>, f: seq<Tree>, t: Tree, end: Ptr)
    requires Seg(l, first, par, g, Some(t.id)) && Only(l, k, PreOrder(f)) && Apart(PreOrder(g), PreOrder(f))
    requires Seg(k, Some(t.id), par, [t], end)
    ensures Seg(k, first, par, g + [t], end)
  {
    SegFrame(l, k, first, par, g, Some(t.id));
    SegConcat(k, first, par, g, Some(t.id), [t], end);
  }

  lemma Regroup<T>(g: seq<T>, t: T, f: seq<T>)
    ensures (g + [t]) + f == g + ([t] + f)
  {
  }

  lemma Regroup2<T>(a: seq<T>, b: seq<T>, c: seq<T>)
    ensures a + (b + c) == (a + b) + c
  {
  }

  lemma Regroup4<T>(g: seq<T>, t: T, c: seq<T>, d: seq<T>)
    ensures (g + [t]) + (c + d) == g + ([t] + c + d)
  {
  }

  /** Finalising the first of the remaining siblings moves it from f to g. */
  lemma TurnOrder(k: Kinds, g: seq<Tree>, f: seq<Tree>)
    requires f != []
    ensures var r := Finalize(k, f[0], f[1..]);
            && PreOrder(g + [r.node]) + PreOrder(r.rest) == PreOrder(g) + PreOrder(f)
            && Count(r.rest) < Count(f) && r.node.id == f[0].id
            && PreOrder([r.node] + r.rest) == PreOrder(f)
  {
    var r := Finalize(k, f[0], f[1..]);
    assert f == [f[0]] + f[1..];
    FinalizeOrder(k, f[0], f[1..]);
    PreOrderConcat(g, [r.node]);
    PreOrderConcat([r.node], r.rest);
    PreOrderCons(r.node, []);
    Regroup2(PreOrder(g), PreOrder([r.node]), PreOrder(r.rest));
    CountParts(f);
  }

  lemma FinalizeTurn(k: Kinds, g: seq<Tree>, f: seq<Tree>, log: seq<nat>)
    requires f != []
    ensures var r := Finalize(k, f[0], f[1..]);
            && (g + [r.node]) + FinalizeAll(k, r.rest).0 == g + FinalizeAll(k, f).0
            && (log + r.log) + FinalizeAll(k, r.rest).1 == log + FinalizeAll(k, f).1
  {
    var r := Finalize(k, f[0], f[1..]);
    Regroup(g, r.node, FinalizeAll(k, r.rest).0);
  }

  lemma AbsorbTurn(k: Kinds, p: nat, g: seq<Tree>, f: seq<Tree>, log: seq<nat>)
    requires f != [] && k.nests(p, f[0].id)
    ensures var r := Finalize(k, f[0], f[1..]);
            && (g + [r.node]) + Absorb(k, p, r.rest).0 == g + Absorb(k, p, f).0
            && Absorb(k, p, r.rest).1 == Absorb(k, p, f).1
            && (log + r.log) + Absorb(k, p, r.rest).2 == log + Absorb(k, p, f).2
  {
    var r := Finalize(k, f[0], f[1..]);
    Regroup(g, r.node, Absorb(k, p, r.rest).0);
  }

  lemma FlattenUp(k: Kinds, g: seq<Tree>, f: seq<Tree>)
    requires f != [] && f[0].kids != [] && !k.hasPrompt(f[0].id)
    ensures var t, rest := Tree(f[0].id, []), f[0].kids + f[1..];
            && PreOrder(g + [t]) + PreOrder(rest) == PreOrder(g) + PreOrder(f) && Count(rest) < Count(f)
            && (g + [t]) + Flatten(k, rest) == g + Flatten(k, f)
  {
    var t, rest := Tree(f[0].id, []), f[0].kids + f[1..];
    PreOrderConcat(f[0].kids, f[1..]);
    PreOrderConcat(g, [t]);
    assert PreOrder([t]) == [t.id];
    Regroup4(PreOrder(g), t.id, PreOrder(f[0].kids), PreOrder(f[1..]));
    Regroup(g, t, Flatten(k, rest));
  }

  lemma FlattenStay(k: Kinds, g: seq<Tree>, f: seq<Tree>)
    requires f != [] && !(f[0].kids != [] && !k.hasPrompt(f[0].id))
    ensures PreOrder(g + [f[0]]) + PreOrder(f[1..]) == PreOrder(g) + PreOrder(f) && Count(f[1..]) < Count(f)
    ensures (g + [f[0]]) + Flatten(k, f[1..]) == g + Flatten(k, f)
  {
    assert f == [f[0]] + f[1..];
    PreOrderConcat([f[0]], f[1..]);
    PreOrderConcat(g, [f[0]]);
    Regroup(g, f[0], Flatten(k, f[1..]));
    CountParts(f);
  }

  class MenuStore {
    var next: map<nat, nat>
    var list: map<nat, nat>
    var parent: map<nat, nat>
    const kinds: Kinds
    /** The nodes menu_finalize has been called on. */
    var finalised: seq<nat>

    function L(): Links
      reads this
    {
      Links(next, list, parent)
    }

    /** menu_finalize. */
    method MenuFinalize(p: nat, ghost par: Ptr, ghost t: Tree, ghost rest: seq<Tree>)
      requires t.id == p && Seg(L(), Some(p), par, [t] + rest, None) && Distinct(PreOrder([t] + rest))
      modifies this
      ensures var r := Finalize(kinds, t, rest);
              Seg(L(), Some(p), par, [r.node] + r.rest, None) && finalised == old(finalised) + r.log
      ensures Only(old(L()), L(), PreOrder([t] + rest))
      decreases Count([t] + rest), 2
    {
      PreOrderCons(t, rest);
      SegCons(L(), Some(p), par, t, rest, None);
      if At(list, p).Some? {
        FinalizeParent(p, par, t, rest);
      } else if kinds.isSym(p) {
        assert t.kids == [] && [p] + PreOrder([]) + PreOrder(rest) == [p] + PreOrder(rest);
        assert t == Tree(p, []);
        FinalizeSymbol(p, par, rest);
      } else {
        finalised := finalised + [p];
      }
    }

    /** A node with children. */
    method FinalizeParent(p: nat, ghost par: Ptr, ghost t: Tree, ghost rest: seq<Tree>)
      requires t.id == p && t.kids != [] && Distinct(PreOrder([t] + rest))
      requires Seg(L(), Some(p), par, [t] + rest, None)
      modifies this
      ensures var r := Finalize(kinds, t, rest);
              Seg(L(), Some(p), par, [r.node] + r.rest, None) && finalised == old(finalised) + r.log
      ensures Only(old(L()), L(), PreOrder(t.kids))
      decreases Count([t] + rest), 1
    {
      ghost var (kids, log) := FinalizeAll(kinds, t.kids);
      PreOrderCons(t, rest);
      DistinctForest([t] + rest);
      assert ([t] + rest)[1..] == rest;
      SegCons(L(), Some(p), par, t, rest, None);
      DistinctParts([p], PreOrder(t.kids));
      finalised := finalised + [p];
      FinalizeChildren(p, t.kids);
      FinalizeAllOrder(kinds, t.kids);
      ghost var l := L();
      FlattenChildren(p, kids);
      Regroup(old(finalised), p, log);
      OnlyThen(old(L()), l, L(), PreOrder(t.kids), PreOrder(t.kids), PreOrder(t.kids));
      SegFrame(old(L()), L(), At(next, p), par, rest, None);
      SegCons(L(), Some(p), par, Tree(p, Flatten(kinds, kids)), rest, None);
    }

    /** A symbol without children. */
    method FinalizeSymbol(p: nat, ghost par: Ptr, ghost rest: seq<Tree>)
      requires kinds.isSym(p) && At(list, p) == None && At(parent, p) == par
      requires Seg(L(), At(next, p), par, rest, None) && Distinct([p] + PreOrder(rest))
      modifies this
      ensures var r := Finalize(kinds, Tree(p, []), rest);
              Seg(L(), Some(p), par, [r.node] + r.rest, None) && finalised == old(finalised) + r.log
      ensures Only(old(L()), L(), [p] + PreOrder(rest))
      decreases Count(rest), 6
    {
      ghost var (kids, left, log) := Absorb(kinds, p, rest);
      finalised := finalised + [p];
      AbsorbSiblings(p, par, rest);
      AbsorbOrder(kinds, p, rest);
      DistinctSplit(p, PreOrder(kids), PreOrder(left));
      ghost var l := L();
      FlattenChildren(p, kids);
      Regroup(old(finalised), p, log);
      OnlyThen(old(L()), l, L(), [p] + PreOrder(rest), PreOrder(kids), [p] + PreOrder(rest));
      SegFrame(l, L(), At(next, p), par, left, None);
      SegCons(L(), Some(p), par, Tree(p, Flatten(kinds, kids)), left, None);
    }

    /** Finalises the children of p one after the other. */
    method FinalizeChildren(p: nat, ghost kids: seq<Tree>)
      requires Seg(L(), At(list, p), Some(p), kids, None) && Distinct([p] + PreOrder(kids))
      modifies this
      ensures Seg(L(), At(list, p), Some(p), FinalizeAll(kinds, kids).0, None)
      ensures finalised == old(finalised) + FinalizeAll(kinds, kids).1
      ensures Only(old(L()), L(), PreOrder(kids))
      decreases Count(kids), 4
    {
      var menu := At(list, p);
      ghost var g, f := [], kids;
      DistinctParts([p], PreOrder(kids));
      assert p in [p];
      while menu.Some?
        invariant Seg(L(), At(list, p), Some(p), g, menu) && Seg(L(), menu, Some(p), f, None)
        invariant PreOrder(g) + PreOrder(f) == PreOrder(kids)
        invariant g + FinalizeAll(kinds, f).0 == FinalizeAll(kinds, kids).0
        invariant finalised + FinalizeAll(kinds, f).1 == old(finalised) + FinalizeAll(kinds, kids).1
        invariant Only(old(L()), L(), PreOrder(kids)) && Count(f) <= Count(kids)
        decreases Count(f)
      {
        g, f := FinalizeChild(menu.value, p, g, f);
        menu := At(next, menu.value);
      }
      assert f == [];
      assert g + [] == g;
    }

    /** One turn of the loop over children. */
    method FinalizeChild(m: nat, ghost p: nat, ghost g: seq<Tree>, ghost f: seq<Tree>)
      returns (ghost g': seq<Tree>, ghost f': seq<Tree>)
      requires f != [] && Seg(L(), At(list, p), Some(p), g, Some(m)) && Seg(L(), Some(m), Some(p), f, None)
      requires Distinct([p] + (PreOrder(g) + PreOrder(f)))
      modifies this
      ensures Seg(L(), At(list, p), Some(p), g', At(next, m)) && Seg(L(), At(next, m), Some(p), f', None)
      ensures PreOrder(g') + PreOrder(f') == PreOrder(g) + PreOrder(f) && Count(f') < Count(f)
      ensures g' + FinalizeAll(kinds, f').0 == g + FinalizeAll(kinds, f).0
      ensures finalised + FinalizeAll(kinds, f').1 == old(finalised) + FinalizeAll(kinds, f).1
      ensures Only(old(L()), L(), PreOrder(f))
      decreases Count(f), 3
    {
      DistinctParts([p], PreOrder(g) + PreOrder(f));
      DistinctParts(PreOrder(g), PreOrder(f));
      assert p in [p];
      assert f == [f[0]] + f[1..];
      MenuFinalize(m, Some(p), f[0], f[1..]);
      ghost var r := Finalize(kinds, f[0], f[1..]);
      TurnOrder(kinds, g, f);
      FinalizeTurn(kinds, g, f, old(finalised));
      SegCons(L(), Some(m), Some(p), r.node, r.rest, None);
      SegOne(L(), Some(p), r.node, At(next, m));
      SegGrow(old(L()), L(), At(list, p), Some(p), g, f, r.node, At(next, m));
      g', f' := g + [r.node], r.rest;
    }

    /** Puts the siblings after p that pass the dependency tests under p. */
    method AbsorbSiblings(p: nat, ghost par: Ptr, ghost rest: seq<Tree>)
      requires At(list, p) == None && At(parent, p) == par
      requires Seg(L(), At(next, p), par, rest, None) && Distinct([p] + PreOrder(rest))
      modifies this
      ensures var (kids, left, log) := Absorb(kinds, p, rest);
              && Seg(L(), At(list, p), Some(p), kids, None) && Seg(L(), At(next, p), par, left, None)
              && finalised == old(finalised) + log
      ensures At(parent, p) == par
      ensures Only(old(L()), L(), [p] + PreOrder(rest))
      decreases Count(rest), 5
    {
      var last, menu, g, f := CollectSiblings(p, par, rest);
      if last.Some? {
        ghost var l := L();
        Detach(p, last.value, par, g, menu, f);
        OnlyThen(old(L()), l, L(), PreOrder(rest), [p] + PreOrder(g), [p] + PreOrder(rest));
      }
    }

    /** Finalises the siblings that pass and makes p their parent; g are those, f the ones left. */
    method CollectSiblings(p: nat, ghost par: Ptr, ghost rest: seq<Tree>)
      returns (last: Ptr, ghost menu: Ptr, ghost g: seq<Tree>, ghost f: seq<Tree>)
      requires Seg(L(), At(next, p), par, rest, None) && Distinct([p] + PreOrder(rest))
      modifies this
      ensures Seg(L(), At(next, p), Some(p), g, menu) && Seg(L(), menu, par, f, None)
      ensures last == if g == [] then None else Some(g[|g|-1].id)
      ensures PreOrder(g) + PreOrder(f) == PreOrder(rest)
      ensures (g, f) == (Absorb(kinds, p, rest).0, Absorb(kinds, p, rest).1)
      ensures finalised == old(finalised) + Absorb(kinds, p, rest).2
      ensures Only(old(L()), L(), PreOrder(rest)) && p !in PreOrder(rest)
      decreases Count(rest), 4
    {
      var cur := At(next, p);
      last, g, f := None, [], rest;
      DistinctParts([p], PreOrder(rest));
      assert p in [p];
      while cur.Some? && kinds.nests(p, cur.value)
        invariant Seg(L(), At(next, p), Some(p), g, cur) && Seg(L(), cur, par, f, None)
        invariant last == if g == [] then None else Some(g[|g|-1].id)
        invariant PreOrder(g) + PreOrder(f) == PreOrder(rest)
        invariant g + Absorb(kinds, p, f).0 == Absorb(kinds, p, rest).0
        invariant Absorb(kinds, p, f).1 == Absorb(kinds, p, rest).1
        invariant finalised + Absorb(kinds, p, f).2 == old(finalised) + Absorb(kinds, p, rest).2
        invariant Only(old(L()), L(), PreOrder(rest)) && Count(f) <= Count(rest)
        decreases Count(f)
      {
        g, f := AbsorbOne(cur.value, p, par, g, f);
        last := cur;
        cur := At(next, cur.value);
      }
      menu := cur;
      assert g + [] == g;
    }

    /** One turn of the loop that collects a submenu. */
    method AbsorbOne(m: nat, p: nat, ghost par: Ptr, ghost g: seq<Tree>, ghost f: seq<Tree>)
      returns (ghost g': seq<Tree>, ghost f': seq<Tree>)
      requires f != [] && kinds.nests(p, m)
      requires Seg(L(), At(next, p), Some(p), g, Some(m)) && Seg(L(), Some(m), par, f, None)
      requires Distinct([p] + (PreOrder(g) + PreOrder(f)))
      modifies this
      ensures Seg(L(), At(next, p), Some(p), g', At(next, m)) && Seg(L(), At(next, m), par, f', None)
      ensures g' != [] && g'[|g'|-1].id == m
      ensures PreOrder(g') + PreOrder(f') == PreOrder(g) + PreOrder(f) && Count(f') < Count(f)
      ensures g' + Absorb(kinds, p, f').0 == g + Absorb(kinds, p, f).0
      ensures Absorb(kinds, p, f').1 == Absorb(kinds, p, f).1
      ensures finalised + Absorb(kinds, p, f').2 == old(finalised) + Absorb(kinds, p, f).2
      ensures Only(old(L()), L(), PreOrder(f))
      decreases Count(f), 3
    {
      DistinctParts([p], PreOrder(g) + PreOrder(f));
      DistinctParts(PreOrder(g), PreOrder(f));
      assert p in [p];
      assert f == [f[0]] + f[1..];
      MenuFinalize(m, par, f[0], f[1..]);
      ghost var r := Finalize(kinds, f[0], f[1..]);
      TurnOrder(kinds, g, f);
      AbsorbTurn(kinds, p, g, f, old(finalised));
      ghost var l := L();
      parent := Set(parent, m, Some(p));
      Reparent(l, L(), par, r.node, r.rest, Some(p));
      SegGrow(old(L()), L(), At(next, p), Some(p), g, f, r.node, At(next, m));
      g', f' := g + [r.node], r.rest;
    }

    /** Cuts the collected siblings g off behind `last` and hangs them under p. */
    method Detach(p: nat, last: nat, ghost par: Ptr, ghost g: seq<Tree>, ghost menu: Ptr, ghost f: seq<Tree>)
      requires g != [] && last == g[|g|-1].id && At(parent, p) == par
      requires Seg(L(), At(next, p), Some(p), g, menu) && Seg(L(), menu, par, f, None)
      requires Distinct([p] + (PreOrder(g) + PreOrder(f)))
      modifies this
      ensures Seg(L(), At(list, p), Some(p), g, None) && Seg(L(), At(next, p), par, f, None)
      ensures At(parent, p) == par && finalised == old(finalised)
      ensures Only(old(L()), L(), [p] + PreOrder(g))
    {
      DistinctParts([p], PreOrder(g) + PreOrder(f));
      DistinctParts(PreOrder(g), PreOrder(f));
      assert p in [p];
      ghost var first, l := At(next, p), L();
      ghost var k := l.(next := Set(l.next, last, None));
      SegRelink(l, k, first, Some(p), g, menu, None);
      list := Set(list, p, At(next, p));
      next := Set(next, p, At(next, last));
      next := Set(next, last, None);
      SegFrame(k, L(), first, Some(p), g, None);
      SegFrame(l, L(), menu, par, f, None);
    }

    /** Moves the children of nodes without a prompt up behind them. */
    method FlattenChildren(p: nat, ghost kids: seq<Tree>)
      requires Seg(L(), At(list, p), Some(p), kids, None) && Distinct([p] + PreOrder(kids))
      modifies this
      ensures Seg(L(), At(list, p), Some(p), Flatten(kinds, kids), None)
      ensures finalised == old(finalised)
      ensures Only(old(L()), L(), PreOrder(kids))
    {
      var menu := At(list, p);
      ghost var g, f := [], kids;
      DistinctParts([p], PreOrder(kids));
      assert p in [p];
      while menu.Some?
        invariant Seg(L(), At(list, p), Some(p), g, menu) && Seg(L(), menu, Some(p), f, None)
        invariant PreOrder(g) + PreOrder(f) == PreOrder(kids)
        invariant g + Flatten(kinds, f) == Flatten(kinds, kids)
        invariant finalised == old(finalised)
        invariant Only(old(L()), L(), PreOrder(kids))
        decreases Count(f)
      {
        g, f := FlattenOne(menu.value, p, g, f);
        menu := At(next, menu.value);
      }
      assert g + [] == g;
    }

    method FlattenOne(m: nat, p: nat, ghost g: seq<Tree>, ghost f: seq<Tree>)
      returns (ghost g': seq<Tree>, ghost f': seq<Tree>)
      requires f != [] && Seg(L(), At(list, p), Some(p), g, Some(m)) && Seg(L(), Some(m), Some(p), f, None)
      requires Distinct([p] + (PreOrder(g) + PreOrder(f)))
      modifies this
      ensures Seg(L(), At(list, p), Some(p), g', At(next, m)) && Seg(L(), At(next, m), Some(p), f', None)
      ensures PreOrder(g') + PreOrder(f') == PreOrder(g) + PreOrder(f) && Count(f') < Count(f)
      ensures g' + Flatten(kinds, f') == g + Flatten(kinds, f)
      ensures finalised == old(finalised)
      ensures Only(old(L()), L(), PreOrder(f))
    {
      DistinctParts([p], PreOrder(g) + PreOrder(f));
      DistinctParts(PreOrder(g), PreOrder(f));
      assert p in [p];
      ghost var t, rest := f[0], f[1..];
      if At(list, m).Some? && !kinds.hasPrompt(m) {
        FlattenUp(kinds, g, f);
        SpliceUp(m, p, t.kids, rest);
        t, rest := Tree(m, []), t.kids + rest;
      } else {
        FlattenStay(kinds, g, f);
      }
      SegOne(L(), Some(p), t, At(next, m));
      SegGrow(old(L()), L(), At(list, p), Some(p), g, f, t, At(next, m));
      g', f' := g + [t], rest;
    }

    /** The children of m become its next siblings, children of p. */
    method SpliceUp(m: nat, p: nat, ghost kids: seq<Tree>, ghost rest: seq<Tree>)
      requires kids != [] && Seg(L(), At(list, m), Some(m), kids, None) && Seg(L(), At(next, m), Some(p), rest, None)
      requires Distinct([m] + PreOrder(kids) + PreOrder(rest))
      modifies this
      ensures At(list, m) == None && At(parent, m) == old(At(parent, m))
      ensures Seg(L(), At(next, m), Some(p), kids + rest, None)
      ensures finalised == old(finalised)
      ensures Only(old(L()), L(), [m] + PreOrder(kids))
    {
      DistinctParts([m] + PreOrder(kids), PreOrder(rest));
      DistinctParts([m], PreOrder(kids));
      assert m in [m];
      var last := ReparentAll(m, p, kids);
      ghost var l, first, after := L(), At(list, m), At(next, m);
      ghost var k := l.(next := Set(l.next, last, after));
      SegRelink(l, k, first, Some(p), kids, None, after);
      next := Set(next, last, At(next, m));
      next := Set(next, m, At(list, m));
      list := Set(list, m, None);
      SegFrame(k, L(), first, Some(p), kids, after);
      SegFrame(old(L()), L(), after, Some(p), rest, None);
      SegConcat(L(), first, Some(p), kids, after, rest, None);
    }

    /** Makes p the parent of the children of m; returns the last of them. */
    method ReparentAll(m: nat, p: nat, ghost kids: seq<Tree>) returns (last: nat)
      requires kids != [] && Seg(L(), At(list, m), Some(m), kids, None) && Distinct([m] + PreOrder(kids))
      modifies this`parent
      ensures last == kids[|kids|-1].id
      ensures Seg(L(), At(list, m), Some(p), kids, None)
      ensures Only(old(L()), L(), PreOrder(kids))
    {
      last := At(list, m).value;
      ghost var i := 0;
      DistinctParts([m], PreOrder(kids));
      assert kids[..0] == [] && kids[0..] == kids;
      while true
        invariant 0 <= i < |kids| && last == kids[i].id
        invariant Seg(L(), At(list, m), Some(p), kids[..i], Some(last))
        invariant Seg(L(), Some(last), Some(m), kids[i..], None)
        invariant Only(old(L()), L(), PreOrder(kids))
        decreases |kids| - i
      {
        ghost var l := L();
        parent := Set(parent, last, Some(p));
        StepOver(l, L(), At(list, m), m, p, kids, i);
        i := i + 1;
        if At(next, last) == None { break; }
        last := At(next, last).value;
      }
      assert kids[..|kids|] == kids;
    }
  }

  /** A node and its siblings after giving the node another parent. */
  lemma Reparent(l: Links, k: Links, par: Ptr, t: Tree, rest: seq<Tree>, par': Ptr)
    requires Seg(l, Some(t.id), par, [t] + rest, None) && Distinct(PreOrder([t] + rest))
    requires k == l.(parent := Set(l.parent, t.id, par'))
    ensures Seg(k, Some(t.id), par', [t], At(l.next, t.id)) && Seg(k, At(l.next, t.id), par, rest, None)
  {
    SegCons(l, Some(t.id), par, t, rest, None);
    DistinctForest([t] + rest);
    assert ([t] + rest)[1..] == rest;
    SegFrame(l, k, At(l.list, t.id), Some(t.id), t.kids, None);
    SegFrame(l, k, At(l.next, t.id), par, rest, None);
    SegOne(k, par', t, At(l.next, t.id));
  }

  /** One child more belongs to p. */
  lemma StepOver(l: Links, k: Links, first: Ptr, m: nat, p: nat, kids: seq<Tree>, i: nat)
    requires i < |kids| && Distinct(PreOrder(kids))
    requires Seg(l, first, Some(p), kids[..i], Some(kids[i].id)) && Seg(l, Some(kids[i].id), Some(m), kids[i..], None)
    requires k == l.(parent := Set(l.parent, kids[i].id, Some(p)))
    ensures kids[i].id in PreOrder(kids)
    ensures Seg(k, first, Some(p), kids[..i+1], At(k.next, kids[i].id))
    ensures Seg(k, At(k.next, kids[i].id), Some(m), kids[i+1..], None)
  {
    var t := kids[i];
    assert kids[i..] == [t] + kids[i+1..] && kids[..i+1] == kids[..i] + [t] && kids == kids[..i] + kids[i..];
    PreOrderConcat(kids[..i], kids[i..]);
    DistinctParts(PreOrder(kids[..i]), PreOrder(kids[i..]));
    PreOrderCons(t, kids[i+1..]);
    assert t.id in PreOrder(kids[i..]);
    Reparent(l, k, Some(m), t, kids[i+1..], Some(p));
    SegFrame(l, k, first, Some(p), kids[..i], Some(t.id));
    SegConcat(k, first, Some(p), kids[..i], Some(t.id), [t], At(k.next, t.id));
  }
}

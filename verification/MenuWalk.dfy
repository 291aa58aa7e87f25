/**
 Whole menu trees: finalising from the root, and the walk by which conf_write visits every
 node using only the pointers, without a stack.
 */
module MenuWalk {
  import opened Tristates
  import opened Exprs
  import opened MenuForest
  import opened MenuLinks
  import opened Evaluator
  import opened ConfFile
  import S = Saving

  // ---- the whole tree ----

  /** A root whose children represent f. */
  ghost predicate Rooted(l: Links, root: nat, f: seq<Tree>) {
    && At(l.next, root) == None && At(l.parent, root) == None
    && Seg(l, At(l.list, root), Some(root), f, None) && Distinct([root] + PreOrder(f))
  }

  /**
   menu_finalize(&rootmenu): every node is finalised exactly once, in pre-order; the nodes keep
   their pre-order, and the pointers again form a tree with correct parents.
   */
  method FinalizeRoot(s: MenuStore, root: nat, ghost f: seq<Tree>) returns (ghost f': seq<Tree>)
    requires Rooted(s.L(), root, f) && s.finalised == []
    modifies s
    ensures Rooted(s.L(), root, f') && PreOrder(f') == PreOrder(f)
    ensures s.finalised == [root] + PreOrder(f) && Distinct(s.finalised)
    ensures f' == Flatten(s.kinds, FinalizeAll(s.kinds, f).0)
  {
    ghost var t := Tree(root, f);
    PreOrderCons(t, []);
    assert [t] + [] == [t] && [root] + PreOrder(f) + PreOrder([]) == [root] + PreOrder(f);
    SegOne(s.L(), None, t, None);
    s.MenuFinalize(root, None, t, []);
    ghost var r := Finalize(s.kinds, t, []);
    FinalizeOrder(s.kinds, t, []);
    f' := r.node.kids;
    FinalizeAllOrder(s.kinds, f);
    FlattenOrder(s.kinds, FinalizeAll(s.kinds, f).0);
    assert r.rest == [] && r.node == Tree(root, f');
    SegOne(s.L(), None, r.node, None);
    assert [r.node] + [] == [r.node];
  }

  // ---- the walk ----

  /** A node on the way from the root to the current one, and the siblings after it. */
  datatype Level = Level(id: nat, rest: seq<Tree>)

  /** The pointers out of the nodes on the way lead to the siblings after them and to the node above. */
  ghost predicate Way(l: Links, root: nat, ls: seq<Level>) {
    ls != [] ==>
      && At(l.parent, ls[0].id) == Some(if |ls| == 1 then root else ls[1].id)
      && Seg(l, At(l.next, ls[0].id), At(l.parent, ls[0].id), ls[0].rest, None)
      && Way(l, root, ls[1..])
  }

  /** What is left to visit once the nodes under ls[0] are done. */
  ghost function Todo(ls: seq<Level>): seq<nat> {
    if ls == [] then [] else PreOrder(ls[0].rest) + Todo(ls[1..])
  }

  /** The walk stands at node t, with `ls` the way to it. */
  ghost predicate Stands(l: Links, root: nat, m: Ptr, t: Tree, ls: seq<Level>) {
    && ls != [] && m == Some(t.id) && ls[0].id == t.id && Way(l, root, ls)
    && Seg(l, At(l.list, t.id), Some(t.id), t.kids, None)
  }

  /** Moving to the first node of a non-empty level. */
  lemma Enter(l: Links, root: nat, first: Ptr, f: seq<Tree>, ls: seq<Level>)
    requires f != [] && Seg(l, first, Some(if ls == [] then root else ls[0].id), f, None) && Way(l, root, ls)
    ensures var up := [Level(f[0].id, f[1..])] + ls;
            Stands(l, root, first, f[0], up) && [f[0].id] + PreOrder(f[0].kids) + Todo(up) == PreOrder(f) + Todo(ls)
  {
    var up := [Level(f[0].id, f[1..])] + ls;
    assert up[1..] == ls;
    assert |up| > 1 ==> up[1] == ls[0];
    Regroup2([f[0].id] + PreOrder(f[0].kids), PreOrder(f[1..]), Todo(ls));
  }

  /** The node after m: its first child, else the next sibling of the nearest node upwards that has one. */
  method Advance(s: MenuStore, m: nat, ghost root: nat, ghost t: Tree, ghost ls: seq<Level>)
    returns (n: Ptr, ghost t': Tree, ghost ls': seq<Level>)
    requires Stands(s.L(), root, Some(m), t, ls) && At(s.next, root) == None && At(s.parent, root) == None
    ensures n == None ==> PreOrder(t.kids) + Todo(ls) == []
    ensures n.Some? ==> Stands(s.L(), root, n, t', ls') &&
                        [t'.id] + PreOrder(t'.kids) + Todo(ls') == PreOrder(t.kids) + Todo(ls)
  {
    t', ls' := t, ls;
    n := At(s.list, m);
    if n.Some? {
      Enter(s.L(), root, n, t.kids, ls);
      t', ls' := t.kids[0], [Level(t.kids[0].id, t.kids[1..])] + ls;
      return;
    }
    assert PreOrder(t.kids) == [];
    var cur := Some(m);
    while cur.Some? && At(s.next, cur.value) == None
      invariant Way(s.L(), root, ls') && Todo(ls') == Todo(ls)
      invariant ls' != [] ==> cur == Some(ls'[0].id)
      invariant ls' == [] ==> cur == Some(root) || cur == None
      decreases |ls'|, if cur.Some? then 1 else 0
    {
      cur := At(s.parent, cur.value);
      if ls' != [] {
        assert ls'[0].rest == [];
        ls' := ls'[1..];
      }
    }
    if cur.Some? {
      n := At(s.next, cur.value);
      ghost var up := ls'[0];
      Enter(s.L(), root, n, up.rest, ls'[1..]);
      t', ls' := up.rest[0], [Level(up.rest[0].id, up.rest[1..])] + ls'[1..];
    }
  }

  /** The symbols of a sequence of nodes; `sym` gives the symbol of a node, None for choices and nodes without one. */
  function SymbolsOf(sym: nat -> Option<Symbol>, ids: seq<nat>): seq<Symbol> {
    if ids == [] then []
    else
      var last := sym(ids[|ids|-1]);
      SymbolsOf(sym, ids[..|ids|-1]) + if last.Some? then [last.value] else []
  }

  /** Handles the symbol of node m, if it has one. */
  method VisitNode(w: S.Writer, e: Engine, m: nat, sym: nat -> Option<Symbol>, ghost visited: seq<nat>,
      entries: seq<Entry>, cleared: set<Symbol>)
    returns (entries': seq<Entry>, cleared': set<Symbol>)
    requires e.Idle() && S.Recording(entries, cleared, w, e.cfg, e.sol, SymbolsOf(sym, visited))
    modifies e
    ensures e.Idle() && e.users == old(e.users) && e.sol == old(e.sol)
    ensures S.Recording(entries', cleared', w, e.cfg, e.sol, SymbolsOf(sym, visited + [m]))
  {
    assert (visited + [m])[..|visited|] == visited;
    entries', cleared' := entries, cleared;
    if sym(m).Some? {
      entries', cleared' := S.Record(w, e, sym(m).value, entries, cleared, SymbolsOf(sym, visited));
    } else {
      assert SymbolsOf(sym, visited) + [] == SymbolsOf(sym, visited);
    }
  }

  /**
   conf_write_defconfig and conf_write: walks the menu tree, evaluating each symbol, and records
   those the writer wants.  The walk ends after every node has been visited once, in pre-order.
   */
  method WriteConfig(w: S.Writer, changed: bool, e: Engine, s: MenuStore, root: nat, sym: nat -> Option<Symbol>,
      ghost f: seq<Tree>)
    returns (entries: seq<Entry>, visited: seq<nat>)
    requires e.Idle() && Rooted(s.L(), root, f)
    modifies e
    ensures e.Idle() && e.users == old(e.users) && e.sol == old(e.sol)
    ensures visited == PreOrder(f)
    ensures S.Lists(entries, w, e.cfg, e.sol, SymbolsOf(sym, PreOrder(f)))
  {
    if w == S.Minimal || !changed { e.ClearAllValid(); }
    entries, visited := [], [];
    var cleared: set<Symbol> := {};
    var menu := At(s.list, root);
    ghost var t, ls := Tree(root, []), [];
    if menu.Some? {
      Enter(s.L(), root, menu, f, []);
      t, ls := f[0], [Level(f[0].id, f[1..])] + [];
    }
    while menu.Some?
      invariant e.Idle() && e.users == old(e.users) && e.sol == old(e.sol)
      invariant menu == None ==> visited == PreOrder(f)
      invariant menu.Some? ==> Stands(s.L(), root, menu, t, ls)
      invariant menu.Some? ==> visited + ([t.id] + PreOrder(t.kids) + Todo(ls)) == PreOrder(f)
      invariant S.Recording(entries, cleared, w, e.cfg, e.sol, SymbolsOf(sym, visited))
      decreases Count(f) - |visited|
    {
      var m := menu.value;
      entries, cleared := VisitNode(w, e, m, sym, visited, entries, cleared);
      Regroup4(visited, m, PreOrder(t.kids), Todo(ls));
      visited := visited + [m];
      menu, t, ls := Advance(s, m, root, t, ls);
    }
  }
}

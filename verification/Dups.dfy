/**
 expr_eliminate_dups: joining of redundant operands.  Pass1 is expr_eliminate_dups1 on the
 tree `t` rooted at a level, walked through two positions of that one tree; both are the
 root at first, so the walk reads and overwrites leaves it still has to visit.
 */
module Dups {
  import opened Tristates
  import opened Exprs
  import opened Equality
  import opened Joins
  import opened Paths

  /** The rewritten tree and the number of joins done. */
  function Pass1(ty: Level, t: Expr, p1: Path, p2: Path): (r: (Expr, nat))
    requires OnLevel(ty, t) && Has(ShapeOf(ty, t), p1) && Has(ShapeOf(ty, t), p2)
    ensures ShapeOf(ty, r.0) == ShapeOf(ty, t)
    ensures Operators(r.0) <= Operators(t)
    ensures r.1 == 0 ==> r.0 == t
    decreases Operators(t), Nodes(At(ShapeOf(ty, t), p1)) + Nodes(At(ShapeOf(ty, t), p2))
  {
    GetShape(ty, t, p1);
    GetShape(ty, t, p2);
    var e1, e2 := Get(t, p1), Get(t, p2);
    if OnLevel(ty, e1) then
      HasExtends(ShapeOf(ty, t), p1, ToLeft);
      HasExtends(ShapeOf(ty, t), p1, ToRight);
      var (t1, n1) := Pass1(ty, t, p1 + [ToLeft], p2);
      var (t2, n2) := Pass1(ty, t1, p1 + [ToRight], p2);
      (t2, n1 + n2)
    else if OnLevel(ty, e2) then
      HasExtends(ShapeOf(ty, t), p2, ToLeft);
      HasExtends(ShapeOf(ty, t), p2, ToRight);
      var (t1, n1) := Pass1(ty, t, p1, p2 + [ToLeft]);
      var (t2, n2) := Pass1(ty, t1, p1, p2 + [ToRight]);
      (t2, n1 + n2)
    else if p1 == p2 then (t, 0)
    else
      GetOperators(t, p1);
      var (e1', n1) := Inner(e1);
      JoinStep(ty, t, p1, p2, e1', n1)
  }

  /** A leaf that is itself a level of the other kind is processed on its own first. */
  function Inner(e: Expr): (r: (Expr, nat))
    ensures LevelOf(r.0) == LevelOf(e)
    ensures Operators(r.0) <= Operators(e)
    ensures r.1 == 0 ==> r.0 == e
    decreases Operators(e), 2 * Nodes(ShapeOf(AndLevel, e)) + 2 * Nodes(ShapeOf(OrLevel, e)) + 1
  {
    match LevelOf(e)
    case None => (e, 0)
    case Some(ty) =>
      var r := Pass1(ty, e, [], []);
      assert OnLevel(ty, r.0);
      r
  }

  /** Two distinct operands: the first becomes the unit and the second the joined operand, if they join. */
  function JoinStep(ty: Level, t: Expr, p1: Path, p2: Path, e1: Expr, n1: nat): (r: (Expr, nat))
    requires IsLeaf(ShapeOf(ty, t), p1) && IsLeaf(ShapeOf(ty, t), p2) && p1 != p2 && !OnLevel(ty, e1)
    requires ValidPath(t, p1) && Operators(e1) <= Operators(Get(t, p1)) && (n1 == 0 ==> e1 == Get(t, p1))
    ensures ShapeOf(ty, r.0) == ShapeOf(ty, t)
    ensures Operators(r.0) <= Operators(t)
    ensures r.1 == 0 ==> r.0 == t
  {
    PutShape(ty, t, p1, e1);
    PutOperators(t, p1, e1);
    PutGet(t, p1);
    var t1 := Put(t, p1, e1);
    GetPutOther(ty, t, p1, p2, e1);
    GetShape(ty, t, p2);
    var e2 := Get(t1, p2);
    match Join(ty, e1, e2)
    case None => (t1, n1)
    case Some(j) =>
      JoinShrinks(ty, e1, e2);
      PutShape(ty, t1, p1, Unit(ty));
      PutOperators(t1, p1, Unit(ty));
      var t2 := Put(t1, p1, Unit(ty));
      GetPutOther(ty, t1, p1, p2, Unit(ty));
      PutShape(ty, t2, p2, j);
      PutOperators(t2, p2, j);
      (Put(t2, p2, j), n1 + 1)
  }

  /** Passes until one joins nothing, dropping the units after every other. */
  function EliminateDups(e: Expr): Expr
    decreases Operators(e)
  {
    var (e', n) := Inner(e);
    if n == 0 then e'
    else
      InnerLeavesUnit(e);
      EliminateYnShrinks(e');
      EliminateDups(EliminateYn(e'))
  }

  function EliminateDupsOpt(e: Option<Expr>): Option<Expr> {
    if e.Some? then Some(EliminateDups(e.value)) else None
  }

  // ---- termination: a pass that joins leaves a unit, which EliminateYn removes with its operator ----

  lemma {:induction false} Pass1LeavesUnit(ty: Level, t: Expr, p1: Path, p2: Path)
    requires OnLevel(ty, t) && Has(ShapeOf(ty, t), p1) && Has(ShapeOf(ty, t), p2)
    ensures Pass1(ty, t, p1, p2).1 > 0 ==> HasUnit(Pass1(ty, t, p1, p2).0)
    decreases Operators(t), Nodes(At(ShapeOf(ty, t), p1)) + Nodes(At(ShapeOf(ty, t), p2))
  {
    GetShape(ty, t, p1);
    GetShape(ty, t, p2);
    var e1, e2 := Get(t, p1), Get(t, p2);
    if OnLevel(ty, e1) {
      HasExtends(ShapeOf(ty, t), p1, ToLeft);
      HasExtends(ShapeOf(ty, t), p1, ToRight);
      Pass1LeavesUnit(ty, t, p1 + [ToLeft], p2);
      Pass1LeavesUnit(ty, Pass1(ty, t, p1 + [ToLeft], p2).0, p1 + [ToRight], p2);
    } else if OnLevel(ty, e2) {
      HasExtends(ShapeOf(ty, t), p2, ToLeft);
      HasExtends(ShapeOf(ty, t), p2, ToRight);
      Pass1LeavesUnit(ty, t, p1, p2 + [ToLeft]);
      Pass1LeavesUnit(ty, Pass1(ty, t, p1, p2 + [ToLeft]).0, p1, p2 + [ToRight]);
    } else if p1 != p2 {
      GetOperators(t, p1);
      InnerLeavesUnit(e1);
      JoinStepLeavesUnit(ty, t, p1, p2, Inner(e1).0, Inner(e1).1);
    }
  }

  lemma {:induction false} InnerLeavesUnit(e: Expr)
    ensures Inner(e).1 > 0 ==> HasUnit(Inner(e).0)
    decreases Operators(e), 2 * Nodes(ShapeOf(AndLevel, e)) + 2 * Nodes(ShapeOf(OrLevel, e)) + 1
  {
    if LevelOf(e).Some? { Pass1LeavesUnit(LevelOf(e).value, e, [], []); }
  }

  lemma JoinStepLeavesUnit(ty: Level, t: Expr, p1: Path, p2: Path, e1: Expr, n1: nat)
    requires IsLeaf(ShapeOf(ty, t), p1) && IsLeaf(ShapeOf(ty, t), p2) && p1 != p2 && !OnLevel(ty, e1)
    requires ValidPath(t, p1) && Operators(e1) <= Operators(Get(t, p1)) && (n1 == 0 ==> e1 == Get(t, p1))
    requires n1 > 0 ==> HasUnit(e1)
    ensures JoinStep(ty, t, p1, p2, e1, n1).1 > 0 ==> HasUnit(JoinStep(ty, t, p1, p2, e1, n1).0)
  {
    var t1 := Put(t, p1, e1);
    PutShape(ty, t, p1, e1);
    GetPutOther(ty, t, p1, p2, e1);
    var j := Join(ty, e1, Get(t1, p2));
    if j.Some? {
      JoinShrinks(ty, e1, Get(t1, p2));
      var t2 := Put(t1, p1, Unit(ty));
      PutShape(ty, t1, p1, Unit(ty));
      PutShape(ty, t2, p2, j.value);
      GetPutOther(ty, t2, p2, p1, j.value);
      UnitShows(ty, Put(t2, p2, j.value), p1);
    } else if n1 > 0 {
      InnerUnitShows(t1, p1);
    }
  }

  // ---- meaning ----

  lemma {:induction false} Pass1Meaning(ty: Level, t: Expr, p1: Path, p2: Path, v: Valuation)
    requires WellTyped(v) && TriTests(t)
    requires OnLevel(ty, t) && Has(ShapeOf(ty, t), p1) && Has(ShapeOf(ty, t), p2)
    ensures Eval(Pass1(ty, t, p1, p2).0, v) == Eval(t, v) && TriTests(Pass1(ty, t, p1, p2).0)
    decreases Operators(t), Nodes(At(ShapeOf(ty, t), p1)) + Nodes(At(ShapeOf(ty, t), p2))
  {
    GetShape(ty, t, p1);
    GetShape(ty, t, p2);
    var e1, e2 := Get(t, p1), Get(t, p2);
    if OnLevel(ty, e1) {
      HasExtends(ShapeOf(ty, t), p1, ToLeft);
      HasExtends(ShapeOf(ty, t), p1, ToRight);
      Pass1Meaning(ty, t, p1 + [ToLeft], p2, v);
      Pass1Meaning(ty, Pass1(ty, t, p1 + [ToLeft], p2).0, p1 + [ToRight], p2, v);
    } else if OnLevel(ty, e2) {
      HasExtends(ShapeOf(ty, t), p2, ToLeft);
      HasExtends(ShapeOf(ty, t), p2, ToRight);
      Pass1Meaning(ty, t, p1, p2 + [ToLeft], v);
      Pass1Meaning(ty, Pass1(ty, t, p1, p2 + [ToLeft]).0, p1, p2 + [ToRight], v);
    } else if p1 != p2 {
      GetOperators(t, p1);
      PutTests(t, p1, Sym(SYM_NO));
      InnerMeaning(e1, v);
      JoinStepMeaning(ty, t, p1, p2, Inner(e1).0, Inner(e1).1, v);
    }
  }

  lemma {:induction false} InnerMeaning(e: Expr, v: Valuation)
    requires WellTyped(v) && TriTests(e)
    ensures Eval(Inner(e).0, v) == Eval(e, v) && TriTests(Inner(e).0)
    decreases Operators(e), 2 * Nodes(ShapeOf(AndLevel, e)) + 2 * Nodes(ShapeOf(OrLevel, e)) + 1
  {
    if LevelOf(e).Some? { Pass1Meaning(LevelOf(e).value, e, [], [], v); }
  }

  lemma JoinStepMeaning(ty: Level, t: Expr, p1: Path, p2: Path, e1: Expr, n1: nat, v: Valuation)
    requires WellTyped(v) && TriTests(t) && TriTests(e1)
    requires IsLeaf(ShapeOf(ty, t), p1) && IsLeaf(ShapeOf(ty, t), p2) && p1 != p2 && !OnLevel(ty, e1)
    requires ValidPath(t, p1) && Operators(e1) <= Operators(Get(t, p1)) && (n1 == 0 ==> e1 == Get(t, p1))
    requires Eval(e1, v) == Eval(Get(t, p1), v)
    ensures Eval(JoinStep(ty, t, p1, p2, e1, n1).0, v) == Eval(t, v)
    ensures TriTests(JoinStep(ty, t, p1, p2, e1, n1).0)
  {
    var t1 := Put(t, p1, e1);
    PutShape(ty, t, p1, e1);
    PutTests(t, p1, e1);
    GetPutOther(ty, t, p1, p2, e1);
    EvalReplace(ty, t, p1, e1, v);
    var e2 := Get(t1, p2);
    PutTests(t1, p2, Unit(ty));
    if Join(ty, e1, e2).Some? {
      var j := Join(ty, e1, e2).value;
      JoinShrinks(ty, e1, e2);
      JoinMeaning(ty, e1, e2, v);
      JoinKeepsTests(ty, e1, e2);
      var t2 := Put(t1, p1, Unit(ty));
      PutShape(ty, t1, p1, Unit(ty));
      PutTests(t1, p1, Unit(ty));
      PutShape(ty, t2, p2, j);
      PutTests(t2, p2, j);
      GetPutOther(ty, t1, p1, p2, Unit(ty));
      EvalSplit(ty, t1, p1, v);
      EvalSplit(ty, t2, p2, v);
      var t3 := Put(t2, p2, j);
      EvalSplit(ty, t3, p2, v);
      PutPut(t2, p2, j, Unit(ty));
      LevelOpRegroups(ty, Eval(Put(t2, p2, Unit(ty)), v), NO, Eval(e2, v), Eval(e1, v));
      assert Eval(t3, v) == LevelOp(ty, Eval(Put(t2, p2, Unit(ty)), v), LevelOp(ty, Eval(e1, v), Eval(e2, v)));
    }
  }

  /** Replacing an operand by one of the same value keeps the value of the level. */
  lemma EvalReplace(ty: Level, t: Expr, p: Path, x: Expr, v: Valuation)
    requires ConstsOk(v) && IsLeaf(ShapeOf(ty, t), p) && !OnLevel(ty, x)
    requires ValidPath(t, p) && Eval(x, v) == Eval(Get(t, p), v)
    ensures Eval(Put(t, p, x), v) == Eval(t, v)
  {
    PutShape(ty, t, p, x);
    EvalSplit(ty, t, p, v);
    EvalSplit(ty, Put(t, p, x), p, v);
    PutPut(t, p, x, Unit(ty));
  }

  /** Deduplication keeps the value of every expression under every well-typed valuation. */
  lemma {:induction false} EliminateDupsMeaning(e: Expr, v: Valuation)
    requires WellTyped(v) && TriTests(e)
    ensures Eval(EliminateDups(e), v) == Eval(e, v) && TriTests(EliminateDups(e))
    decreases Operators(e)
  {
    var (e', n) := Inner(e);
    InnerMeaning(e, v);
    if n != 0 {
      InnerLeavesUnit(e);
      EliminateYnShrinks(e');
      EliminateYnMeaning(e', v);
      EliminateYnTests(e');
      EliminateDupsMeaning(EliminateYn(e'), v);
    }
  }

  lemma {:induction false} EliminateYnTests(e: Expr)
    requires TriTests(e)
    ensures TriTests(EliminateYn(e))
  {
    match e
    case And(l, r) => EliminateYnTests(l); EliminateYnTests(r);
    case Or(l, r) => EliminateYnTests(l); EliminateYnTests(r);
    case _ =>
  }

  // ---- completeness: nothing is left to join ----

  /** The operands of a level, left to right. */
  function Operands(ty: Level, e: Expr): (s: seq<Expr>)
    ensures |s| > 0
    ensures forall x :: x in s ==> Operators(x) <= Operators(e)
    ensures OnLevel(ty, e) ==> forall x :: x in s ==> Operators(x) < Operators(e)
  {
    if OnLevel(ty, e) then Operands(ty, e.l) + Operands(ty, e.r) else [e]
  }

  /** No two distinct operands of a level join, on any level reachable through && and ||. */
  ghost predicate Irreducible(e: Expr)
    decreases Operators(e)
  {
    match LevelOf(e)
    case None => true
    case Some(ty) =>
      var s := Operands(ty, e);
      && (forall i, j :: 0 <= i < |s| && 0 <= j < |s| && i != j ==> Join(ty, s[i], s[j]).None?)
      && (forall x :: x in s ==> Irreducible(x))
  }

  /** The position of operand number `i`. */
  function PathOf(ty: Level, e: Expr, i: nat): (p: Path)
    requires i < |Operands(ty, e)|
    ensures IsLeaf(ShapeOf(ty, e), p)
    ensures ValidPath(e, p) && Get(e, p) == Operands(ty, e)[i]
  {
    if !OnLevel(ty, e) then []
    else if i < |Operands(ty, e.l)| then [ToLeft] + PathOf(ty, e.l, i)
    else [ToRight] + PathOf(ty, e.r, i - |Operands(ty, e.l)|)
  }

  lemma SameStep(d: Side, p: Path, q: Path)
    requires p != q
    ensures [d] + p != [d] + q
  {
    assert ([d] + p)[1..] == p && ([d] + q)[1..] == q;
  }

  lemma {:induction false} PathOfInjective(ty: Level, e: Expr, i: nat, j: nat)
    requires i < |Operands(ty, e)| && j < |Operands(ty, e)| && i != j
    ensures PathOf(ty, e, i) != PathOf(ty, e, j)
  {
    assert OnLevel(ty, e);
    var k := |Operands(ty, e.l)|;
    if i < k && j < k {
      PathOfInjective(ty, e.l, i, j);
      SameStep(ToLeft, PathOf(ty, e.l, i), PathOf(ty, e.l, j));
    } else if i >= k && j >= k {
      PathOfInjective(ty, e.r, i - k, j - k);
      SameStep(ToRight, PathOf(ty, e.r, i - k), PathOf(ty, e.r, j - k));
    } else {
      var a, b := PathOf(ty, e, i), PathOf(ty, e, j);
      assert a[0] != b[0];
    }
  }

  /** A walk that joined nothing has looked at the operands at q1 and q2, below p1 and p2. */
  lemma {:induction false} QuietPass(ty: Level, t: Expr, p1: Path, p2: Path, q1: Path, q2: Path)
    requires OnLevel(ty, t) && Has(ShapeOf(ty, t), p1) && Has(ShapeOf(ty, t), p2)
    requires IsLeaf(ShapeOf(ty, t), q1) && IsLeaf(ShapeOf(ty, t), q2) && q1 != q2
    requires p1 <= q1 && p2 <= q2
    requires Pass1(ty, t, p1, p2).1 == 0
    ensures ValidPath(t, q1) && ValidPath(t, q2)
    ensures Join(ty, Get(t, q1), Get(t, q2)).None? && Inner(Get(t, q1)).1 == 0
    decreases Nodes(At(ShapeOf(ty, t), p1)) + Nodes(At(ShapeOf(ty, t), p2))
  {
    var s := ShapeOf(ty, t);
    GetShape(ty, t, p1);
    GetShape(ty, t, p2);
    GetShape(ty, t, q1);
    GetShape(ty, t, q2);
    if OnLevel(ty, Get(t, p1)) {
      HasExtends(s, p1, ToLeft);
      HasExtends(s, p1, ToRight);
      assert Pass1(ty, t, p1 + [ToLeft], p2).0 == t;
      NextStep(s, p1, q1);
      HasExtends(s, p1, q1[|p1|]);
      QuietPass(ty, t, p1 + [q1[|p1|]], p2, q1, q2);
    } else if OnLevel(ty, Get(t, p2)) {
      HasExtends(s, p2, ToLeft);
      HasExtends(s, p2, ToRight);
      assert Pass1(ty, t, p1, p2 + [ToLeft]).0 == t;
      NextStep(s, p2, q2);
      HasExtends(s, p2, q2[|p2|]);
      LeafEnds(s, p1, q1);
      QuietPass(ty, t, p1, p2 + [q2[|p2|]], q1, q2);
    } else {
      LeafEnds(s, p1, q1);
      LeafEnds(s, p2, q2);
      PutGet(t, p1);
    }
  }

  lemma NextStep(s: Shape, p: Path, q: Path)
    requires Has(s, p) && At(s, p).Node? && IsLeaf(s, q) && p <= q
    ensures |p| < |q| && p + [q[|p|]] <= q
  {
    assert p != q;
  }

  lemma {:induction false} LeafEnds(s: Shape, p: Path, q: Path)
    requires IsLeaf(s, p) && Has(s, q) && p <= q
    ensures p == q
  {
    if p != [] { LeafEnds(if p[0] == ToLeft then s.l else s.r, p[1..], q[1..]); }
  }

  lemma {:induction false} QuietIsIrreducible(e: Expr)
    requires Inner(e).1 == 0
    ensures Irreducible(e)
    decreases Operators(e)
  {
    match LevelOf(e)
    case None =>
    case Some(ty) =>
      var s := Operands(ty, e);
      forall i, j | 0 <= i < |s| && 0 <= j < |s| && i != j
        ensures Join(ty, s[i], s[j]).None?
      {
        PathOfInjective(ty, e, i, j);
        QuietPass(ty, e, [], [], PathOf(ty, e, i), PathOf(ty, e, j));
      }
      assert |s| == |Operands(ty, e.l)| + |Operands(ty, e.r)| >= 2;
      forall i | 0 <= i < |s|
        ensures Irreducible(s[i])
      {
        var j := if i == 0 then 1 else 0;
        PathOfInjective(ty, e, i, j);
        QuietPass(ty, e, [], [], PathOf(ty, e, i), PathOf(ty, e, j));
        assert s[i] in s;
        QuietIsIrreducible(s[i]);
      }
  }

  /** At exit no two distinct operands of one level can be joined any more, and a second run changes nothing. */
  lemma {:induction false} EliminateDupsSettles(e: Expr)
    ensures Irreducible(EliminateDups(e))
    ensures EliminateDups(EliminateDups(e)) == EliminateDups(e)
    decreases Operators(e)
  {
    var (e', n) := Inner(e);
    if n == 0 {
      QuietIsIrreducible(e);
    } else {
      InnerLeavesUnit(e);
      EliminateYnShrinks(e');
      EliminateDupsSettles(EliminateYn(e'));
    }
  }
}

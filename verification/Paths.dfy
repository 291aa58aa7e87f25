/**
 Positions inside one expression tree.  A `struct expr **` of the rewriting code is such a
 position: the root, or the left or right operand slot of an && or || node.
 */
module Paths {
  import opened Exprs
  import opened Equality
  import opened Joins

  datatype Side = ToLeft | ToRight
  type Path = seq<Side>

  predicate IsOperator(e: Expr) { e.And? || e.Or? }

  function Operand(e: Expr, d: Side): Expr
    requires IsOperator(e)
  {
    if d == ToLeft then e.l else e.r
  }

  function WithOperand(e: Expr, d: Side, x: Expr): Expr
    requires IsOperator(e)
  {
    if d == ToLeft then e.(l := x) else e.(r := x)
  }

  predicate ValidPath(e: Expr, p: Path) {
    p == [] || (IsOperator(e) && ValidPath(Operand(e, p[0]), p[1..]))
  }

  /** Reads the expression at a position. */
  function Get(e: Expr, p: Path): Expr
    requires ValidPath(e, p)
  {
    if p == [] then e else Get(Operand(e, p[0]), p[1..])
  }

  /** Overwrites the expression at a position. */
  function Put(e: Expr, p: Path, x: Expr): Expr
    requires ValidPath(e, p)
  {
    if p == [] then x else WithOperand(e, p[0], Put(Operand(e, p[0]), p[1..], x))
  }

  // ---- the shape of a level ----

  /** The nodes of one level: where its operator stands and where its operands hang. */
  datatype Shape = Leaf | Node(l: Shape, r: Shape)

  function ShapeOf(ty: Level, e: Expr): Shape {
    if OnLevel(ty, e) then Node(ShapeOf(ty, e.l), ShapeOf(ty, e.r)) else Leaf
  }

  predicate Has(s: Shape, p: Path) {
    p == [] || (s.Node? && Has(if p[0] == ToLeft then s.l else s.r, p[1..]))
  }

  function At(s: Shape, p: Path): Shape
    requires Has(s, p)
  {
    if p == [] then s else At(if p[0] == ToLeft then s.l else s.r, p[1..])
  }

  function Nodes(s: Shape): nat {
    match s
    case Leaf => 0
    case Node(l, r) => 1 + Nodes(l) + Nodes(r)
  }

  /** `p` is the position of an operand of the level. */
  predicate IsLeaf(s: Shape, p: Path) { Has(s, p) && At(s, p).Leaf? }

  lemma {:induction false} HasExtends(s: Shape, p: Path, d: Side)
    requires Has(s, p) && At(s, p).Node?
    ensures Has(s, p + [d]) && At(s, p + [d]) == if d == ToLeft then At(s, p).l else At(s, p).r
  {
    if p != [] {
      HasExtends(if p[0] == ToLeft then s.l else s.r, p[1..], d);
      assert (p + [d])[1..] == p[1..] + [d];
    }
  }

  lemma {:induction false} GetShape(ty: Level, e: Expr, p: Path)
    requires Has(ShapeOf(ty, e), p)
    ensures ValidPath(e, p) && ShapeOf(ty, Get(e, p)) == At(ShapeOf(ty, e), p)
  {
    if p != [] { GetShape(ty, Operand(e, p[0]), p[1..]); }
  }

  lemma {:induction false} PutShape(ty: Level, e: Expr, p: Path, x: Expr)
    requires IsLeaf(ShapeOf(ty, e), p) && !OnLevel(ty, x)
    ensures ValidPath(e, p) && ShapeOf(ty, Put(e, p, x)) == ShapeOf(ty, e)
    ensures ValidPath(Put(e, p, x), p) && Get(Put(e, p, x), p) == x
  {
    if p != [] { PutShape(ty, Operand(e, p[0]), p[1..], x); }
  }

  lemma {:induction false} PutOperators(e: Expr, p: Path, x: Expr)
    requires ValidPath(e, p)
    ensures Operators(Put(e, p, x)) == Operators(e) - Operators(Get(e, p)) + Operators(x)
  {
    if p != [] { PutOperators(Operand(e, p[0]), p[1..], x); }
  }

  lemma {:induction false} GetOperators(e: Expr, p: Path)
    requires ValidPath(e, p)
    ensures Operators(Get(e, p)) <= Operators(e)
    ensures p != [] ==> Operators(Get(e, p)) < Operators(e)
  {
    if p != [] { GetOperators(Operand(e, p[0]), p[1..]); }
  }

  lemma {:induction false} PutGet(e: Expr, p: Path)
    requires ValidPath(e, p)
    ensures Put(e, p, Get(e, p)) == e
  {
    if p != [] { PutGet(Operand(e, p[0]), p[1..]); }
  }

  lemma {:induction false} PutPut(e: Expr, p: Path, x: Expr, y: Expr)
    requires ValidPath(e, p)
    ensures ValidPath(Put(e, p, x), p) && Put(Put(e, p, x), p, y) == Put(e, p, y)
  {
    if p != [] { PutPut(Operand(e, p[0]), p[1..], x, y); }
  }

  /** Writing one operand of a level leaves the others alone. */
  lemma {:induction false} GetPutOther(ty: Level, e: Expr, p: Path, q: Path, x: Expr)
    requires IsLeaf(ShapeOf(ty, e), p) && IsLeaf(ShapeOf(ty, e), q) && p != q
    ensures ValidPath(e, p) && ValidPath(e, q)
    ensures ValidPath(Put(e, p, x), q) && Get(Put(e, p, x), q) == Get(e, q)
  {
    assert p != [] && q != [];
    GetShape(ty, e, p);
    GetShape(ty, e, q);
    if p[0] == q[0] {
      assert p == [p[0]] + p[1..] && q == [q[0]] + q[1..];
      GetPutOther(ty, Operand(e, p[0]), p[1..], q[1..], x);
    }
  }

  /** The value of a level is one operand's value combined with that of the rest. */
  lemma {:induction false} EvalSplit(ty: Level, e: Expr, p: Path, v: Valuation)
    requires ConstsOk(v) && IsLeaf(ShapeOf(ty, e), p)
    ensures ValidPath(e, p)
    ensures Eval(e, v) == LevelOp(ty, Eval(Put(e, p, Unit(ty)), v), Eval(Get(e, p), v))
  {
    if p != [] {
      EvalSplit(ty, Operand(e, p[0]), p[1..], v);
    }
  }

  lemma {:induction false} PutTests(e: Expr, p: Path, x: Expr)
    requires ValidPath(e, p) && TriTests(e) && TriTests(x)
    ensures TriTests(Put(e, p, x)) && TriTests(Get(e, p))
  {
    if p != [] { PutTests(Operand(e, p[0]), p[1..], x); }
  }

  lemma {:induction false} UnitShows(ty: Level, e: Expr, p: Path)
    requires Has(ShapeOf(ty, e), p) && p != []
    ensures ValidPath(e, p)
    ensures Get(e, p) == Unit(ty) ==> HasUnit(e)
  {
    GetShape(ty, e, p);
    if p[1..] != [] { UnitShows(ty, Operand(e, p[0]), p[1..]); }
  }

  lemma {:induction false} InnerUnitShows(e: Expr, p: Path)
    requires ValidPath(e, p) && HasUnit(Get(e, p))
    ensures HasUnit(e)
  {
    if p != [] { InnerUnitShows(Operand(e, p[0]), p[1..]); }
  }

  // ---- positions below a position ----

  lemma {:induction false} ValidConcat(e: Expr, r: Path, q: Path)
    requires ValidPath(e, r) && ValidPath(Get(e, r), q)
    ensures ValidPath(e, r + q) && Get(e, r + q) == Get(Get(e, r), q)
  {
    if r == [] {
      assert r + q == q;
    } else {
      ValidConcat(Operand(e, r[0]), r[1..], q);
      assert (r + q)[1..] == r[1..] + q && (r + q)[0] == r[0];
    }
  }

  lemma {:induction false} PutConcat(e: Expr, r: Path, q: Path, x: Expr)
    requires ValidPath(e, r) && ValidPath(Get(e, r), q)
    ensures ValidPath(e, r + q) && Put(e, r + q, x) == Put(e, r, Put(Get(e, r), q, x))
  {
    ValidConcat(e, r, q);
    if r == [] {
      assert r + q == q;
    } else {
      PutConcat(Operand(e, r[0]), r[1..], q, x);
      assert (r + q)[1..] == r[1..] + q && (r + q)[0] == r[0];
    }
  }
}

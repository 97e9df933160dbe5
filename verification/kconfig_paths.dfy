/** Addresses inside an expression tree: a `struct expr **` that points into a tree owned
    by one variable is the path from that variable to the slot. */
module Paths {
  import opened Wrappers
  import opened Expressions
  import opened Equality
  import opened Joins

  /** One step per && or || on the way down: false for the left slot, true for the right. */
  type Path = seq<bool>

  function Child(t: Expr, right: bool): Expr
    requires t.Bin?
  {
    if right then t.right else t.left
  }

  predicate ValidPath(t: Expr, p: Path) {
    p == [] || (t.Bin? && ValidPath(Child(t, p[0]), p[1..]))
  }

  function At(t: Expr, p: Path): Expr
    requires ValidPath(t, p)
  {
    if p == [] then t else At(Child(t, p[0]), p[1..])
  }

  function Put(t: Expr, p: Path, x: Expr): Expr
    requires ValidPath(t, p)
  {
    if p == [] then x
    else if p[0] then Bin(t.op, t.left, Put(t.right, p[1..], x))
    else Bin(t.op, Put(t.left, p[1..], x), t.right)
  }

  lemma {:induction false} PutAt(t: Expr, p: Path, x: Expr)
    requires ValidPath(t, p)
    ensures ValidPath(Put(t, p, x), p)
    ensures At(Put(t, p, x), p) == x
    ensures forall y :: Put(Put(t, p, x), p, y) == Put(t, p, y)
    ensures Put(t, p, At(t, p)) == t
  {
    if p != [] { PutAt(Child(t, p[0]), p[1..], x); }
  }

  lemma {:induction false} Append(t: Expr, p: Path, q: Path)
    requires ValidPath(t, p) && ValidPath(At(t, p), q)
    ensures ValidPath(t, p + q) && At(t, p + q) == At(At(t, p), q)
    ensures forall x :: Put(t, p + q, x) == Put(t, p, Put(At(t, p), q, x))
  {
    if p == [] {
      assert p + q == q;
    } else {
      assert (p + q)[1..] == p[1..] + q;
      Append(Child(t, p[0]), p[1..], q);
    }
  }

  // ---- one level of && or || ----

  /** Every node passed on the way to p has type op. */
  predicate LevelPath(op: Junction, t: Expr, p: Path) {
    p == [] || (IsOp(t, op) && LevelPath(op, Child(t, p[0]), p[1..]))
  }

  lemma {:induction false} LevelPathValid(op: Junction, t: Expr, p: Path)
    requires LevelPath(op, t, p)
    ensures ValidPath(t, p)
  {
    if p != [] { LevelPathValid(op, Child(t, p[0]), p[1..]); }
  }

  /** The operand slots of the level: what __expr_eliminate_eq and expr_eliminate_dups1
      call leaves. */
  predicate Leaf(op: Junction, t: Expr, p: Path) {
    LevelPath(op, t, p) && (LevelPathValid(op, t, p); !IsOp(At(t, p), op))
  }

  lemma {:induction false} LevelAppend(op: Junction, t: Expr, p: Path, q: Path)
    ensures LevelPath(op, t, p + q) <==> LevelPath(op, t, p) && (LevelPathValid(op, t, p); LevelPath(op, At(t, p), q))
  {
    if p == [] {
      assert p + q == q;
    } else {
      assert (p + q)[1..] == p[1..] + q;
      if IsOp(t, op) { LevelAppend(op, Child(t, p[0]), p[1..], q); }
    }
  }

  /** Below a leaf there is no other slot of the level. */
  lemma LeafEnds(op: Junction, t: Expr, p: Path, q: Path)
    requires Leaf(op, t, p) && LevelPath(op, t, q) && p <= q
    ensures p == q
  {
    assert q == p + q[|p|..];
    LevelAppend(op, t, p, q[|p|..]);
  }

  function LevelSize(op: Junction, t: Expr): (n: nat)
    ensures n >= 1
  {
    if IsOp(t, op) then 1 + LevelSize(op, t.left) + LevelSize(op, t.right) else 1
  }

  /** Both trees have the same && (or ||) nodes at their top level. */
  predicate SameLevel(op: Junction, t: Expr, u: Expr) {
    if IsOp(t, op) then IsOp(u, op) && SameLevel(op, t.left, u.left) && SameLevel(op, t.right, u.right)
    else !IsOp(u, op)
  }

  lemma {:induction false} SameLevelAt(op: Junction, t: Expr, u: Expr, p: Path)
    requires SameLevel(op, t, u) && LevelPath(op, t, p)
    ensures ValidPath(t, p) && ValidPath(u, p) && LevelPath(op, u, p)
    ensures LevelSize(op, At(t, p)) == LevelSize(op, At(u, p))
    ensures IsOp(At(t, p), op) == IsOp(At(u, p), op)
  {
    LevelPathValid(op, t, p);
    if p != [] {
      SameLevelAt(op, Child(t, p[0]), Child(u, p[0]), p[1..]);
    } else {
      SameLevelSize(op, t, u);
    }
  }

  lemma {:induction false} SameLevelSize(op: Junction, t: Expr, u: Expr)
    requires SameLevel(op, t, u)
    ensures LevelSize(op, t) == LevelSize(op, u)
  {
    if IsOp(t, op) {
      SameLevelSize(op, t.left, u.left);
      SameLevelSize(op, t.right, u.right);
    }
  }

  lemma {:induction false} SameLevelRefl(op: Junction, t: Expr)
    ensures SameLevel(op, t, t)
  {
    if IsOp(t, op) { SameLevelRefl(op, t.left); SameLevelRefl(op, t.right); }
  }

  lemma {:induction false} SameLevelTrans(op: Junction, t: Expr, u: Expr, v: Expr)
    requires SameLevel(op, t, u) && SameLevel(op, u, v)
    ensures SameLevel(op, t, v)
  {
    if IsOp(t, op) {
      SameLevelTrans(op, t.left, u.left, v.left);
      SameLevelTrans(op, t.right, u.right, v.right);
    }
  }

  // ---- how often && and || alternate below a level ----

  function Depth(t: Expr): nat
    decreases t, 1
  {
    if t.Bin? then
      var l, r := OperandDepth(t.op, t.left), OperandDepth(t.op, t.right);
      if l > r then l else r
    else 0
  }

  function OperandDepth(op: Junction, c: Expr): nat
    decreases c, 2
  {
    if !c.Bin? then 0 else if c.op == op then Depth(c) else 1 + Depth(c)
  }

  lemma {:induction false} LeafDepth(op: Junction, t: Expr, p: Path)
    requires Leaf(op, t, p) && p != []
    ensures ValidPath(t, p) && OperandDepth(op, At(t, p)) <= Depth(t)
  {
    LevelPathValid(op, t, p);
    if |p| > 1 { LeafDepth(op, Child(t, p[0]), p[1..]); }
  }

  // ---- overwriting one leaf ----

  lemma {:induction false} PutLeaf(op: Junction, t: Expr, p: Path, x: Expr)
    requires Leaf(op, t, p) && !IsOp(x, op)
    ensures ValidPath(t, p) && SameLevel(op, t, Put(t, p, x)) && Leaf(op, Put(t, p, x), p)
    ensures Size(Put(t, p, x)) == Size(t) - Size(At(t, p)) + Size(x)
    ensures p != [] && OperandDepth(op, x) <= Depth(t) ==> Depth(Put(t, p, x)) <= Depth(t)
  {
    LevelPathValid(op, t, p);
    PutAt(t, p, x);
    if p != [] {
      var (c, o) := (Child(t, p[0]), Child(t, !p[0]));
      PutLeaf(op, c, p[1..], x);
      SameLevelRefl(op, o);
      DepthMonotone(op, t, p, x);
    }
  }

  lemma {:induction false} DepthMonotone(op: Junction, t: Expr, p: Path, x: Expr)
    requires Leaf(op, t, p) && p != [] && !IsOp(x, op)
    ensures ValidPath(t, p)
    ensures var d := OperandDepth(op, x); Depth(Put(t, p, x)) <= if d > Depth(t) then d else Depth(t)
  {
    LevelPathValid(op, t, p);
    if |p| > 1 {
      DepthMonotone(op, Child(t, p[0]), p[1..], x);
    } else {
      assert Put(Child(t, p[0]), p[1..], x) == x;
    }
  }

  lemma {:induction false} PutElsewhere(op: Junction, t: Expr, p: Path, q: Path, x: Expr)
    requires Leaf(op, t, p) && Leaf(op, t, q) && p != q && !IsOp(x, op)
    ensures ValidPath(t, p) && ValidPath(t, q) && Leaf(op, Put(t, p, x), q)
    ensures ValidPath(Put(t, p, x), q) && At(Put(t, p, x), q) == At(t, q)
  {
    LevelPathValid(op, t, p);
    LevelPathValid(op, t, q);
    if p[0] == q[0] {
      PutElsewhere(op, Child(t, p[0]), p[1..], q[1..], x);
    }
  }

  // ---- what a slot contributes to the value ----

  /** The value of the level is the slot's value combined with what the rest amounts to. */
  lemma {:induction false} PutValue(op: Junction, t: Expr, p: Path, x: Expr, env: Env)
    requires LevelPath(op, t, p)
    ensures ValidPath(t, p)
    ensures Value(Put(t, p, x), env)
         == Combine(op, Value(x, env), Value(Put(t, p, Sym(UnitSym(op))), env))
    ensures NumberFree(t, env) ==> NumberFree(At(t, p), env)
    ensures NumberFree(t, env) && NumberFree(x, env) ==> NumberFree(Put(t, p, x), env)
  {
    LevelPathValid(op, t, p);
    if p != [] { PutValue(op, Child(t, p[0]), p[1..], x, env); }
  }

  /** An operand may be exchanged for one that stands for it. */
  lemma PutStands(op: Junction, t: Expr, p: Path, x: Expr)
    requires LevelPath(op, t, p) && ValidPath(t, p) && Stands(At(t, p), x)
    ensures Stands(t, Put(t, p, x))
  {
    forall env: Env | NumberFree(t, env)
      ensures NumberFree(Put(t, p, x), env) && Value(t, env) == Value(Put(t, p, x), env)
    {
      PutValue(op, t, p, x, env);
      PutValue(op, t, p, At(t, p), env);
      PutAt(t, p, x);
    }
  }

  /** The join step: one operand becomes neutral and the other the join of both. */
  lemma JoinStands(op: Junction, t: Expr, p: Path, q: Path, j: Expr)
    requires Leaf(op, t, p) && Leaf(op, t, q) && p != q && ValidPath(t, p) && ValidPath(t, q)
    requires Join(op, At(t, p), At(t, q)) == Some(j)
    requires var t1 := Put(t, p, Sym(UnitSym(op))); ValidPath(t1, q) && LevelPath(op, t1, q) && At(t1, q) == At(t, q)
    ensures Stands(t, Put(Put(t, p, Sym(UnitSym(op))), q, j))
  {
    var unit := Sym(UnitSym(op));
    var t1 := Put(t, p, unit);
    forall env: Env | NumberFree(t, env)
      ensures NumberFree(Put(t1, q, j), env) && Value(t, env) == Value(Put(t1, q, j), env)
    {
      PutAt(t, p, unit);
      PutAt(t1, q, j);
      PutValue(op, t, p, At(t, p), env);
      PutValue(op, t, p, unit, env);
      PutValue(op, t1, q, At(t, q), env);
      PutValue(op, t, q, j, env);
      JoinSound(op, At(t, p), At(t, q), env);
      PutValue(op, t1, q, j, env);
    }
  }

  // ---- constants left as operands ----

  lemma {:induction false} PutYn(op: Junction, t: Expr, p: Path, x: Expr)
    requires LevelPath(op, t, p)
    ensures ValidPath(t, p)
    ensures p != [] && IsYn(x) ==> HasYn(Put(t, p, x))
    ensures HasYn(x) ==> HasYn(Put(t, p, x))
    ensures HasYn(t) && !IsYn(At(t, p)) && !HasYn(At(t, p)) ==> HasYn(Put(t, p, x))
  {
    LevelPathValid(op, t, p);
    if p != [] {
      var c := Child(t, p[0]);
      PutYn(op, c, p[1..], x);
      assert Child(Put(t, p, x), p[0]) == Put(c, p[1..], x);
      assert Child(Put(t, p, x), !p[0]) == Child(t, !p[0]);
      assert At(t, p) == At(c, p[1..]);
      if HasYn(t) && !IsYn(At(t, p)) && !HasYn(At(t, p)) {
        assert !IsYn(c) by { assert c.Bin? || c == At(t, p); }
        if p[0] {
          assert Put(t, p, x).right == Put(c, p[1..], x);
        } else {
          assert Put(t, p, x).left == Put(c, p[1..], x);
        }
      }
    }
  }
}

/** expr_eliminate_yn, expr_eliminate_eq and expr_eq (nemu/tools/kconfig/expr.c:142-397). */
module Equality {
  import opened Wrappers
  import opened Expressions

  // ---- removing y and n ----

  /** expr_eliminate_yn: removes constant operands, bottom up. */
  function EliminateYn(e: Expr): (r: Expr)
    ensures Size(r) <= Size(e)
  {
    match e
    case Bin(op, l, r) => DropYn(op, EliminateYn(l), EliminateYn(r))
    case _ => e
  }

  /** The switch on the operator, after both operands are done */
  function DropYn(op: Junction, l: Expr, r: Expr): (e: Expr)
    ensures Size(e) <= 1 + Size(l) + Size(r)
  {
    if l == Sym(ZeroSym(op)) then Sym(ZeroSym(op))
    else if l == Sym(UnitSym(op)) then r
    else if r == Sym(ZeroSym(op)) then Sym(ZeroSym(op))
    else if r == Sym(UnitSym(op)) then l
    else Bin(op, l, r)
  }

  lemma DropYnKeepsValue(op: Junction, l: Expr, r: Expr, env: Env)
    ensures Value(DropYn(op, l, r), env) == Combine(op, Value(l, env), Value(r, env))
    ensures NumberFree(l, env) && NumberFree(r, env) ==> NumberFree(DropYn(op, l, r), env)
  {
    hide SymValue, Holds, Compare, NumericTest;
    ConstantValues(env);
    match op
    case And => assert DropYn(op, l, r) != Bin(op, l, r) ==> IsYn(l) || IsYn(r);
    case Or => assert DropYn(op, l, r) != Bin(op, l, r) ==> IsYn(l) || IsYn(r);
  }

  lemma ConstantValues(env: Env)
    ensures Value(Sym(SymYes), env) == YES && Value(Sym(SymNo), env) == NO
  {}

  predicate IsYn(e: Expr) { e == Sym(SymYes) || e == Sym(SymNo) }

  /** Some && or || reached from the root through && and || alone has y or n as an operand. */
  predicate HasYn(e: Expr) {
    e.Bin? && (IsYn(e.left) || IsYn(e.right) || HasYn(e.left) || HasYn(e.right))
  }

  lemma {:induction false} EliminateYnKeepsValue(e: Expr, env: Env)
    ensures Value(EliminateYn(e), env) == Value(e, env)
    ensures NumberFree(e, env) ==> NumberFree(EliminateYn(e), env)
  {
    if e.Bin? {
      EliminateYnKeepsValue(e.left, env);
      EliminateYnKeepsValue(e.right, env);
      DropYnKeepsValue(e.op, EliminateYn(e.left), EliminateYn(e.right), env);
    }
  }

  /** No constant is left as an operand; nothing at all changes when there was none, and
      the tree shrinks when there was one. */
  lemma {:induction false} EliminateYnRemovesAll(e: Expr)
    ensures !HasYn(EliminateYn(e))
    ensures !HasYn(e) ==> EliminateYn(e) == e
    ensures HasYn(e) ==> Size(EliminateYn(e)) < Size(e)
  {
    if e.Bin? {
      EliminateYnRemovesAll(e.left);
      EliminateYnRemovesAll(e.right);
    }
  }

  // ---- removing common operands ----

  /** __expr_eliminate_eq: compares every leaf of a with every leaf of b and replaces equal
      pairs by the neutral constant. Both trees come back rewritten, because the C function
      overwrites both through its pointers. */
  function CancelEqual(op: Junction, a: Expr, b: Expr): (r: (Expr, Expr))
    ensures Size(r.0) <= Size(a) && Size(r.1) <= Size(b)
    decreases Size(a) + Size(b), if IsOp(a, op) || IsOp(b, op) then 0 else 3
  {
    if IsOp(a, op) then
      var first := CancelEqual(op, a.left, b);
      var second := CancelEqual(op, a.right, first.1);
      (Bin(op, first.0, second.0), second.1)
    else if IsOp(b, op) then
      var first := CancelEqual(op, a, b.left);
      var second := CancelEqual(op, first.0, b.right);
      (second.0, Bin(op, first.1, second.1))
    else if a == b && IsYn(a) then (a, b)
    else if ExprEq(a, b) then (Sym(UnitSym(op)), Sym(UnitSym(op)))
    else (a, b)
  }

  /** expr_eliminate_eq on two expressions that are not NULL. */
  function EliminateEq(a: Expr, b: Expr): (r: (Expr, Expr))
    ensures Size(r.0) <= Size(a) && Size(r.1) <= Size(b)
    decreases Size(a) + Size(b), 1
  {
    var (a1, b1) := if a.Bin? then CancelEqual(a.op, a, b) else (a, b);
    var (a2, b2) := if b1.Bin? && !IsOp(a1, b1.op) then CancelEqual(b1.op, a1, b1) else (a1, b1);
    (EliminateYn(a2), EliminateYn(b2))
  }

  /** expr_eq on two expressions that are not NULL. && and || are compared on copies. */
  predicate ExprEq(a: Expr, b: Expr)
    decreases Size(a) + Size(b), 2
  {
    match a
    case Sym(_) => a == b
    case Cmp(_, _, _) => a == b
    case Not(x) => b.Not? && ExprEq(x, b.e)
    case Bin(op, _, _) =>
      IsOp(b, op) &&
      var (a', b') := EliminateEq(a, b);
      a'.Sym? && a' == b'
  }

  // ---- what the cancelled operands amount to ----

  /** A monotone function of one value: bounded below by lo, then above by hi. */
  function Clamp(lo: Tri, hi: Tri, x: Tri): Tri { Combine(And, hi, Combine(Or, lo, x)) }

  lemma Regroup(op: Junction, c1: Tri, c2: Tri, x: Tri, y: Tri, z: Tri)
    ensures Combine(op, Combine(op, c1, x), Combine(op, c2, y)) == Combine(op, Combine(op, c1, c2), Combine(op, x, y))
    ensures Combine(op, c1, Combine(op, c2, z)) == Combine(op, Combine(op, c1, c2), z)
  {}

  /** One pass takes the same contribution c out of both expressions. */
  lemma {:induction false} CancelEqualMeaning(op: Junction, a: Expr, b: Expr, env: Env) returns (c: Tri)
    ensures Value(a, env) == Combine(op, c, Value(CancelEqual(op, a, b).0, env))
    ensures Value(b, env) == Combine(op, c, Value(CancelEqual(op, a, b).1, env))
    decreases Size(a) + Size(b), if IsOp(a, op) || IsOp(b, op) then 0 else 3
  {
    if IsOp(a, op) {
      var first := CancelEqual(op, a.left, b);
      var second := CancelEqual(op, a.right, first.1);
      var c1 := CancelEqualMeaning(op, a.left, b, env);
      var c2 := CancelEqualMeaning(op, a.right, first.1, env);
      c := Combine(op, c1, c2);
      assert CancelEqual(op, a, b) == (Bin(op, first.0, second.0), second.1);
      Regroup(op, c1, c2, Value(first.0, env), Value(second.0, env), Value(second.1, env));
    } else if IsOp(b, op) {
      var first := CancelEqual(op, a, b.left);
      var second := CancelEqual(op, first.0, b.right);
      var c1 := CancelEqualMeaning(op, a, b.left, env);
      var c2 := CancelEqualMeaning(op, first.0, b.right, env);
      c := Combine(op, c1, c2);
      assert CancelEqual(op, a, b) == (second.0, Bin(op, first.1, second.1));
      Regroup(op, c1, c2, Value(first.1, env), Value(second.1, env), Value(second.0, env));
    } else {
      var unit := SymValue(UnitSym(op), env);
      c := unit;
      if !(a == b && IsYn(a)) && ExprEq(a, b) {
        ExprEqSound(a, b, env);
        c := Value(a, env);
      }
    }
  }

  /** expr_eliminate_eq relates both inputs to both outputs by one and the same monotone
      function of the assignment. */
  lemma {:induction false} EliminateEqMeaning(a: Expr, b: Expr, env: Env) returns (lo: Tri, hi: Tri)
    ensures Value(a, env) == Clamp(lo, hi, Value(EliminateEq(a, b).0, env))
    ensures Value(b, env) == Clamp(lo, hi, Value(EliminateEq(a, b).1, env))
    decreases Size(a) + Size(b), 1
  {
    var (a1, b1) := if a.Bin? then CancelEqual(a.op, a, b) else (a, b);
    var (a2, b2) := if b1.Bin? && !IsOp(a1, b1.op) then CancelEqual(b1.op, a1, b1) else (a1, b1);
    EliminateYnKeepsValue(a2, env);
    EliminateYnKeepsValue(b2, env);
    var op1, c1 := And, YES;
    if a.Bin? {
      op1 := a.op;
      c1 := CancelEqualMeaning(op1, a, b, env);
    }
    var op2, c2 := And, YES;
    if b1.Bin? && !IsOp(a1, b1.op) {
      op2 := b1.op;
      c2 := CancelEqualMeaning(op2, a1, b1, env);
    }
    lo, hi := TwoPasses(op1, c1, op2, c2, Value(a2, env), Value(b2, env));
  }

  /** Two passes, each taking out one contribution, amount to one clamp. */
  lemma TwoPasses(op1: Junction, c1: Tri, op2: Junction, c2: Tri, x: Tri, y: Tri) returns (lo: Tri, hi: Tri)
    ensures Combine(op1, c1, Combine(op2, c2, x)) == Clamp(lo, hi, x)
    ensures Combine(op1, c1, Combine(op2, c2, y)) == Clamp(lo, hi, y)
  {
    if op2 == And { lo, hi := NO, c2; } else { lo, hi := c2, YES; }
    lo, hi := Combine(op1, c1, lo), Combine(op1, c1, hi);
  }

  /** Two expressions that expr_eq calls equal have the same value under every assignment. */
  lemma {:induction false} ExprEqSound(a: Expr, b: Expr, env: Env)
    requires ExprEq(a, b)
    ensures Value(a, env) == Value(b, env)
    decreases Size(a) + Size(b), 2
  {
    match a
    case Sym(_) =>
    case Cmp(_, _, _) =>
    case Not(x) => ExprEqSound(x, b.e, env);
    case Bin(_, _, _) => var lo, hi := EliminateEqMeaning(a, b, env);
  }

  /** The "superset" test of automatic submenus (nemu/tools/kconfig/menu.c:480-491): when
      nothing but y is left of the second expression, the first one implies it. */
  lemma SupersetTestSound(dep: Expr, base: Expr, env: Env)
    requires IsYes(Some(EliminateEq(dep, base).1))
    ensures Value(dep, env) <= Value(base, env)
  {
    hide EliminateEq;
    var lo, hi := EliminateEqMeaning(dep, base, env);
  }
}

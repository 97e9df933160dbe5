/** expr_eq recognises every expression as equal to itself, so the simplifier leaves no
    operand twice on one level (nemu/tools/kconfig/expr.c:252-303 and 653-686). */
module Identity {
  import opened Expressions
  import opened Equality
  import opened Paths
  import opened Duplicates

  /** The operands of one level, from left to right. */
  function Leaves(op: Junction, t: Expr): (s: seq<Expr>)
    ensures |s| >= 1
    ensures forall x | x in s :: Size(x) <= Size(t)
    ensures IsOp(t, op) ==> forall x | x in s :: Size(x) < Size(t)
  {
    if IsOp(t, op) then Leaves(op, t.left) + Leaves(op, t.right) else [t]
  }

  predicate AllYn(s: seq<Expr>) { forall x | x in s :: IsYn(x) }

  /** What an operand turns into once it has met its like. */
  function Done(op: Junction, x: Expr): Expr { if IsYn(x) then x else Sym(UnitSym(op)) }

  function DoneAll(op: Junction, s: seq<Expr>): (r: seq<Expr>)
    ensures |r| == |s| && AllYn(r)
  {
    seq(|s|, i requires 0 <= i < |s| => Done(op, s[i]))
  }

  /** A constant cancels nothing. */
  lemma {:induction false} ConstantInert(op: Junction, c: Expr, b: Expr)
    requires IsYn(c)
    ensures CancelEqual(op, c, b) == (c, b)
  {
    if IsOp(b, op) {
      ConstantInert(op, c, b.left);
      ConstantInert(op, c, b.right);
    }
  }

  /** An operand passes constants that it is not equal to. */
  lemma {:induction false} PassConstants(op: Junction, x: Expr, b: Expr)
    requires !IsOp(x, op) && AllYn(Leaves(op, b))
    ensures CancelEqual(op, x, b) == (x, b)
  {
    if IsOp(b, op) {
      assert forall y | y in Leaves(op, b.left) :: y in Leaves(op, b);
      assert forall y | y in Leaves(op, b.right) :: y in Leaves(op, b);
      PassConstants(op, x, b.left);
      PassConstants(op, x, b.right);
    } else {
      assert Leaves(op, b) == [b] && IsYn(b);
      assert x != b ==> !ExprEq(x, b);
    }
  }

  lemma AllYnParts(s: seq<Expr>, t: seq<Expr>)
    ensures AllYn(s + t) <==> AllYn(s) && AllYn(t)
  {
    assert forall x :: x in s + t <==> x in s || x in t;
  }

  lemma UpdatePart<T>(s: seq<T>, t: seq<T>, k: nat, x: T)
    requires k < |s| + |t|
    ensures k < |s| ==> (s + t)[..k] == s[..k] && (s + t)[k] == s[k] && (s + t)[k := x] == s[k := x] + t
    ensures k >= |s| ==> (s + t)[..k] == s + t[..k - |s|] && (s + t)[k] == t[k - |s|]
    ensures k >= |s| ==> (s + t)[k := x] == s + t[k - |s| := x]
  {}

  /** An operand meets its like at position k, behind constants only. */
  lemma {:induction false} MeetLike(op: Junction, x: Expr, b: Expr, k: nat)
    requires !IsOp(x, op) && !IsYn(x) && ExprEq(x, x)
    requires k < |Leaves(op, b)| && Leaves(op, b)[k] == x && AllYn(Leaves(op, b)[..k])
    ensures CancelEqual(op, x, b).0 == Sym(UnitSym(op))
    ensures Leaves(op, CancelEqual(op, x, b).1) == Leaves(op, b)[k := Sym(UnitSym(op))]
    decreases b, 1
  {
    if IsOp(b, op) {
      MeetLikeBelow(op, x, b, k);
    } else {
      assert Leaves(op, b) == [b] && k == 0;
    }
  }

  lemma {:induction false} MeetLikeBelow(op: Junction, x: Expr, b: Expr, k: nat)
    requires !IsOp(x, op) && !IsYn(x) && ExprEq(x, x) && IsOp(b, op)
    requires k < |Leaves(op, b)| && Leaves(op, b)[k] == x && AllYn(Leaves(op, b)[..k])
    ensures CancelEqual(op, x, b).0 == Sym(UnitSym(op))
    ensures Leaves(op, CancelEqual(op, x, b).1) == Leaves(op, b)[k := Sym(UnitSym(op))]
    decreases b, 0
  {
    var unit := Sym(UnitSym(op));
    var l, r := Leaves(op, b.left), Leaves(op, b.right);
    UpdatePart(l, r, k, unit);
    if k < |l| {
      MeetLike(op, x, b.left, k);
      ConstantInert(op, unit, b.right);
    } else {
      AllYnParts(l, r[..k - |l|]);
      PassConstants(op, x, b.left);
      MeetLike(op, x, b.right, k - |l|);
    }
  }

  /** A level whose operands are before + part + after, where part has met its copy. */
  function Met(op: Junction, before: seq<Expr>, part: seq<Expr>, after: seq<Expr>): seq<Expr> {
    before + DoneAll(op, part) + after
  }

  /** The part a of a level meets a copy of itself that stands behind constants only. */
  lemma {:induction false} MeetCopy(op: Junction, a: Expr, b: Expr, before: seq<Expr>, after: seq<Expr>)
    requires Leaves(op, b) == before + Leaves(op, a) + after && AllYn(before)
    requires forall x | x in Leaves(op, a) :: ExprEq(x, x)
    ensures Leaves(op, CancelEqual(op, a, b).0) == DoneAll(op, Leaves(op, a))
    ensures IsOp(CancelEqual(op, a, b).0, op) == IsOp(a, op)
    ensures Leaves(op, CancelEqual(op, a, b).1) == Met(op, before, Leaves(op, a), after)
    decreases a, 1
  {
    if IsOp(a, op) {
      MeetCopyBelow(op, a, b, before, after);
    } else {
      MeetCopyLeaf(op, a, b, before, after);
    }
  }

  lemma MeetCopyLeaf(op: Junction, a: Expr, b: Expr, before: seq<Expr>, after: seq<Expr>)
    requires !IsOp(a, op) && Leaves(op, b) == before + [a] + after && AllYn(before) && ExprEq(a, a)
    ensures CancelEqual(op, a, b).0 == Done(op, a)
    ensures Leaves(op, CancelEqual(op, a, b).1) == before + [Done(op, a)] + after
  {
    MiddleOf(before, a, after, Sym(UnitSym(op)));
    if IsYn(a) {
      ConstantInert(op, a, b);
    } else {
      MeetLike(op, a, b, |before|);
    }
  }

  lemma MiddleOf<T>(before: seq<T>, x: T, after: seq<T>, y: T)
    ensures (before + [x] + after)[|before|] == x && (before + [x] + after)[..|before|] == before
    ensures (before + [x] + after)[|before| := y] == before + [y] + after
  {}

  lemma {:induction false} MeetCopyBelow(op: Junction, a: Expr, b: Expr, before: seq<Expr>, after: seq<Expr>)
    requires IsOp(a, op) && Leaves(op, b) == before + Leaves(op, a) + after && AllYn(before)
    requires forall x | x in Leaves(op, a) :: ExprEq(x, x)
    ensures Leaves(op, CancelEqual(op, a, b).0) == DoneAll(op, Leaves(op, a))
    ensures IsOp(CancelEqual(op, a, b).0, op)
    ensures Leaves(op, CancelEqual(op, a, b).1) == Met(op, before, Leaves(op, a), after)
    decreases a, 0
  {
    var l, r := Leaves(op, a.left), Leaves(op, a.right);
    var b1 := CancelEqual(op, a.left, b).1;
    assert before + (l + r) + after == before + l + (r + after);
    MeetCopy(op, a.left, b, before, r + after);
    assert Met(op, before, l, r + after) == (before + DoneAll(op, l)) + r + after;
    AllYnParts(before, DoneAll(op, l));
    MeetCopy(op, a.right, b1, before + DoneAll(op, l), after);
    JoinDone(op, l, r, before);
  }

  lemma JoinDone(op: Junction, l: seq<Expr>, r: seq<Expr>, before: seq<Expr>)
    ensures before + DoneAll(op, l) + DoneAll(op, r) == before + DoneAll(op, l + r)
    ensures DoneAll(op, l + r) == DoneAll(op, l) + DoneAll(op, r)
  {}

  /** A level of constants folds to one constant. */
  lemma {:induction false} FoldConstants(op: Junction, t: Expr)
    requires AllYn(Leaves(op, t))
    ensures EliminateYn(t) == Sym(if Sym(ZeroSym(op)) in Leaves(op, t) then ZeroSym(op) else UnitSym(op))
  {
    if IsOp(t, op) {
      assert forall y | y in Leaves(op, t.left) :: y in Leaves(op, t);
      assert forall y | y in Leaves(op, t.right) :: y in Leaves(op, t);
      FoldConstants(op, t.left);
      FoldConstants(op, t.right);
    } else {
      assert t in Leaves(op, t);
    }
  }

  lemma {:induction false} ExprEqReflexive(e: Expr)
    ensures ExprEq(e, e)
    decreases Size(e)
  {
    match e
    case Not(x) => ExprEqReflexive(x);
    case Bin(op, _, _) =>
      forall x | x in Leaves(op, e)
        ensures ExprEq(x, x)
      {
        ExprEqReflexive(x);
      }
      MeetsItself(op, e);
    case _ =>
  }

  lemma MeetsItself(op: Junction, e: Expr)
    requires IsOp(e, op) && forall x | x in Leaves(op, e) :: ExprEq(x, x)
    ensures ExprEq(e, e)
  {
    hide CancelEqual, Leaves, EliminateYn;
    LevelMeetsItself(op, e);
  }

  lemma LevelMeetsItself(op: Junction, e: Expr)
    requires IsOp(e, op) && forall x | x in Leaves(op, e) :: ExprEq(x, x)
    ensures var r := CancelEqual(op, e, e);
            && IsOp(r.0, op) && (r.1.Bin? ==> r.1.op == op)
            && EliminateYn(r.0) == EliminateYn(r.1) && EliminateYn(r.0).Sym?
  {
    hide ExprEq, CancelEqual, Leaves, DoneAll;
    var l := Leaves(op, e);
    assert l == [] + l + [] && DoneAll(op, l) == [] + DoneAll(op, l) + [];
    MeetCopy(op, e, e, [], []);
    FoldSame(op, CancelEqual(op, e, e).0, CancelEqual(op, e, e).1, DoneAll(op, l));
  }

  lemma FoldSame(op: Junction, s: Expr, t: Expr, l: seq<Expr>)
    requires Leaves(op, s) == l == Leaves(op, t) && AllYn(l)
    ensures EliminateYn(s) == EliminateYn(t) && EliminateYn(s).Sym? && (t.Bin? ==> t.op == op)
  {
    hide EliminateYn;
    FoldConstants(op, s);
    FoldConstants(op, t);
    assert !IsOp(t, op) ==> t in Leaves(op, t);
  }

  /** In a simplified && or ||, two different operands are never the same expression. */
  lemma NoRepeatedOperand(e: Expr, p: Path, q: Path)
    requires e.Bin? && JoinFree(e)
    requires Leaf(e.op, e, p) && Leaf(e.op, e, q) && p != q
    ensures ValidPath(e, p) && ValidPath(e, q) && At(e, p) != At(e, q)
  {
    LevelPathValid(e.op, e, p);
    LevelPathValid(e.op, e, q);
    assert JoinFreePair(e.op, e, p, q);
    ExprEqReflexive(At(e, p));
  }
}

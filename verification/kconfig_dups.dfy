/** expr_eliminate_dups1 and expr_eliminate_dups (nemu/tools/kconfig/expr.c:589-686). */
module Duplicates {
  import opened Wrappers
  import opened Expressions
  import opened Equality
  import opened Joins
  import opened Paths
  import opened Transformation

  /** What one stretch of joining may do to a level: its && (or ||) nodes stay, its value
      stays, nothing grows, and a normal form stays one. */
  ghost predicate Step(op: Junction, t: Expr, u: Expr) {
    && SameLevel(op, t, u)
    && Stands(t, u)
    && Size(u) <= Size(t)
    && Depth(u) <= Depth(t)
    && (HasYn(t) ==> HasYn(u))
    && (Normal(t) ==> Normal(u))
  }

  lemma StepRefl(op: Junction, t: Expr)
    ensures Step(op, t, t)
  {
    SameLevelRefl(op, t);
  }

  lemma StepTrans(op: Junction, t: Expr, u: Expr, v: Expr)
    requires Step(op, t, u) && Step(op, u, v)
    ensures Step(op, t, v)
  {
    SameLevelTrans(op, t, u, v);
  }

  /** No two operands of one level can be joined, here and inside every operand. */
  ghost predicate JoinFree(e: Expr)
    decreases Size(e), 2
  {
    e.Bin? ==> JoinFreeBetween(e.op, e, [], [])
  }

  /** The same for the operands below p against those below q. */
  ghost predicate JoinFreeBetween(op: Junction, t: Expr, p: Path, q: Path)
    decreases Size(t), 1
  {
    forall a, b | p <= a && q <= b && Leaf(op, t, a) && Leaf(op, t, b) && a != b :: JoinFreePair(op, t, a, b)
  }

  ghost predicate JoinFreePair(op: Junction, t: Expr, a: Path, b: Path)
    requires Leaf(op, t, a) && Leaf(op, t, b) && a != b
    decreases Size(t), 0
  {
    LevelPathValid(op, t, a);
    LevelPathValid(op, t, b);
    AtSmaller(t, a);
    assert a != [] || b != [];
    Join(op, At(t, a), At(t, b)).None? && (a != [] ==> JoinFree(At(t, a)))
  }

  lemma {:induction false} AtSmaller(t: Expr, p: Path)
    requires ValidPath(t, p)
    ensures p != [] ==> Size(At(t, p)) < Size(t)
    ensures p == [] ==> At(t, p) == t
  {
    if p != [] { AtSmaller(Child(t, p[0]), p[1..]); }
  }

  /** The variable that holds the expression, and the global trans_count. */
  class Simplifier {
    var root: Expr
    var transCount: nat

    constructor (e: Expr)
      ensures root == e && transCount == 0
    {
      root, transCount := e, 0;
    }

    /** expr_eliminate_dups1. `base` leads to the topmost node of a level; the two pointers
        are the slots base + p and base + q of that level, and may lie inside one another. */
    method JoinLeaves(op: Junction, base: Path, p: Path, q: Path, ghost depth: nat)
      requires ValidPath(root, base)
      requires IsOp(At(root, base), op)
      requires LevelPath(op, At(root, base), p) && LevelPath(op, At(root, base), q)
      requires Depth(At(root, base)) <= depth
      modifies this
      ensures ValidPath(root, base) && root == Put(old(root), base, At(root, base))
      ensures Step(op, old(At(root, base)), At(root, base))
      ensures transCount >= old(transCount)
      ensures transCount > old(transCount) ==> HasYn(At(root, base))
      ensures transCount == old(transCount) ==> root == old(root)
      ensures IsOp(At(root, base), op)
      ensures transCount == old(transCount) <==> old(JoinFreeBetween(op, At(root, base), p, q))
      decreases depth,
                (LevelPathValid(op, At(root, base), p); LevelPathValid(op, At(root, base), q);
                 LevelSize(op, At(At(root, base), p)) + LevelSize(op, At(At(root, base), q)))
    {
      ghost var t := At(root, base);
      LevelPathValid(op, t, p);
      LevelPathValid(op, t, q);
      Append(root, base, p);
      Append(root, base, q);
      PutAt(root, base, t);
      StepRefl(op, t);
      if IsOp(At(root, base + p), op) {
        SlotOfLevel(op, t, p);
        JoinLeaves(op, base, p + [false], q, depth);
        ghost var u := At(root, base);
        SameLevelAt(op, t, u, p);
        SameLevelAt(op, t, u, q);
        SlotOfLevel(op, u, p);
        JoinLeaves(op, base, p + [true], q, depth);
        StepTrans(op, t, u, At(root, base));
        PutAt(old(root), base, u);
        SplitFirst(op, t, p, q);
      } else if IsOp(At(root, base + q), op) {
        SlotOfLevel(op, t, q);
        JoinLeaves(op, base, p, q + [false], depth);
        ghost var u := At(root, base);
        SameLevelAt(op, t, u, p);
        SameLevelAt(op, t, u, q);
        SlotOfLevel(op, u, q);
        JoinLeaves(op, base, p, q + [true], depth);
        StepTrans(op, t, u, At(root, base));
        PutAt(old(root), base, u);
        SplitSecond(op, t, p, q);
      } else if p != q {
        LeafPair(op, t, p, q);
        JoinPair(op, base, p, q, depth);
      } else {
        SameLeaf(op, t, p, q);
      }
    }

    /** The second half of expr_eliminate_dups1: two different leaves. */
    method JoinPair(op: Junction, base: Path, p: Path, q: Path, ghost depth: nat)
      requires ValidPath(root, base)
      requires IsOp(At(root, base), op)
      requires Leaf(op, At(root, base), p) && Leaf(op, At(root, base), q) && p != q
      requires Depth(At(root, base)) <= depth
      modifies this
      ensures ValidPath(root, base) && root == Put(old(root), base, At(root, base))
      ensures Step(op, old(At(root, base)), At(root, base))
      ensures transCount >= old(transCount)
      ensures transCount > old(transCount) ==> HasYn(At(root, base))
      ensures transCount == old(transCount) ==> root == old(root)
      ensures IsOp(At(root, base), op)
      ensures transCount == old(transCount) <==> old(JoinFreePair(op, At(root, base), p, q))
      ensures JoinedOnce(op, old(At(root, base)), p, q, At(root, base))
      decreases depth, 0
    {
      ghost var t := At(root, base);
      LevelPathValid(op, t, p);
      LevelPathValid(op, t, q);
      Append(root, base, p);
      Append(root, base, q);
      PutAt(root, base, t);
      StepRefl(op, t);
      if At(root, base + p).Bin? {
        LeafDepth(op, t, p);
        JoinLeaves(At(root, base + p).op, base + p, [], [], depth - 1);
        ghost var first := At(root, base + p);
        OperandStep(op, t, p, first);
        PutAt(old(root), base, Put(t, p, first));
        PutElsewhere(op, t, p, q, first);
      }
      ghost var u := At(root, base);
      LevelPathValid(op, u, p);
      LevelPathValid(op, u, q);
      Append(root, base, p);
      Append(root, base, q);
      var joined := Join(op, At(root, base + p), At(root, base + q));
      if joined.Some? {
        JoinStep(op, u, p, q, joined.value);
        ghost var v := Put(u, p, Sym(UnitSym(op)));
        ghost var w := Put(v, q, joined.value);
        PutAt(root, base, v);
        root := Put(root, base + p, Sym(UnitSym(op)));
        assert At(root, base) == v;
        PutAt(root, base, w);
        Append(root, base, q);
        root := Put(root, base + q, joined.value);
        transCount := transCount + 1;
        assert At(root, base) == w;
        StepTrans(op, t, u, w);
      }
    }

    /** expr_eliminate_dups on an expression that is not NULL. */
    method EliminateDups()
      modifies this
      ensures Stands(old(root), root)
      ensures JoinFree(root)
      ensures Size(root) <= Size(old(root))
      ensures old(JoinFree(root)) ==> root == old(root)
      ensures old(Normal(root)) ==> Normal(root)
      ensures root == old(root) || (!HasYn(root) && Size(root) < Size(old(root)))
      ensures transCount == old(transCount)
    {
      var oldCount := transCount;
      while true
        invariant Stands(old(root), root) && Size(root) <= Size(old(root))
        invariant root == old(root) || (!HasYn(root) && Size(root) < Size(old(root)))
        invariant old(JoinFree(root)) ==> root == old(root)
        invariant old(Normal(root)) ==> Normal(root)
        decreases Size(root)
      {
        transCount := 0;
        if root.Bin? {
          JoinLeaves(root.op, [], [], [], Depth(root));
        }
        if transCount == 0 {
          break;
        }
        EliminateYnRemovesAll(root);
        YnStands(root);
        EliminateYnNormal(root);
        root := EliminateYn(root);
      }
      transCount := oldCount;
    }
  }

  lemma YnStands(e: Expr)
    ensures Stands(e, EliminateYn(e))
  {
    forall env: Env {
      EliminateYnKeepsValue(e, env);
    }
  }

  // ---- the steps of the walk ----

  /** The two slots below an inner node of a level. */
  lemma SlotOfLevel(op: Junction, t: Expr, p: Path)
    requires LevelPath(op, t, p) && ValidPath(t, p) && IsOp(At(t, p), op)
    ensures forall b :: LevelPath(op, t, p + [b]) && ValidPath(t, p + [b]) && At(t, p + [b]) == Child(At(t, p), b)
  {
    forall b
      ensures LevelPath(op, t, p + [b]) && ValidPath(t, p + [b]) && At(t, p + [b]) == Child(At(t, p), b)
    {
      LevelAppend(op, t, p, [b]);
      Append(t, p, [b]);
    }
  }

  lemma SplitFirst(op: Junction, t: Expr, p: Path, q: Path)
    requires LevelPath(op, t, p) && ValidPath(t, p) && IsOp(At(t, p), op)
    ensures JoinFreeBetween(op, t, p, q)
       <==> JoinFreeBetween(op, t, p + [false], q) && JoinFreeBetween(op, t, p + [true], q)
  {
    forall a | p <= a && Leaf(op, t, a)
      ensures p + [false] <= a || p + [true] <= a
    {
      assert a != p;
      assert a == p + [a[|p|]] + a[|p| + 1..];
      assert a[|p|] == true || a[|p|] == false;
    }
  }

  lemma SplitSecond(op: Junction, t: Expr, p: Path, q: Path)
    requires LevelPath(op, t, q) && ValidPath(t, q) && IsOp(At(t, q), op)
    ensures JoinFreeBetween(op, t, p, q)
       <==> JoinFreeBetween(op, t, p, q + [false]) && JoinFreeBetween(op, t, p, q + [true])
  {
    forall b | q <= b && Leaf(op, t, b)
      ensures q + [false] <= b || q + [true] <= b
    {
      assert b != q;
      assert b == q + [b[|q|]] + b[|q| + 1..];
      assert b[|q|] == true || b[|q|] == false;
    }
  }

  lemma SameLeaf(op: Junction, t: Expr, p: Path, q: Path)
    requires Leaf(op, t, p) && p == q
    ensures JoinFreeBetween(op, t, p, q)
  {
    forall a, b | p <= a && q <= b && Leaf(op, t, a) && Leaf(op, t, b)
      ensures a == b
    {
      LeafEnds(op, t, p, a);
      LeafEnds(op, t, q, b);
    }
  }

  lemma LeafPair(op: Junction, t: Expr, p: Path, q: Path)
    requires Leaf(op, t, p) && Leaf(op, t, q) && p != q && IsOp(t, op)
    ensures p != [] && q != []
    ensures JoinFreeBetween(op, t, p, q) <==> JoinFreePair(op, t, p, q)
  {
    forall a, b | p <= a && q <= b && Leaf(op, t, a) && Leaf(op, t, b)
      ensures a == p && b == q
    {
      LeafEnds(op, t, p, a);
      LeafEnds(op, t, q, b);
    }
  }

  /** A step inside an operand is a step of the level around it. */
  lemma OperandStep(op: Junction, t: Expr, p: Path, x: Expr)
    requires Leaf(op, t, p) && ValidPath(t, p) && p != []
    requires At(t, p).Bin? && Step(At(t, p).op, At(t, p), x)
    ensures Step(op, t, Put(t, p, x)) && Leaf(op, Put(t, p, x), p)
    ensures HasYn(x) ==> HasYn(Put(t, p, x))
  {
    LeafDepth(op, t, p);
    PutLeaf(op, t, p, x);
    PutStands(op, t, p, x);
    PutYn(op, t, p, x);
    if Normal(t) { NormalSlot(op, t, p, x); }
  }

  /** An operand of a normal form is one, and may be exchanged for one. */
  lemma {:induction false} NormalSlot(op: Junction, t: Expr, p: Path, x: Expr)
    requires LevelPath(op, t, p) && ValidPath(t, p) && Normal(t)
    ensures Normal(At(t, p)) && (Normal(x) ==> Normal(Put(t, p, x)))
  {
    if p != [] { NormalSlot(op, Child(t, p[0]), p[1..], x); }
  }

  lemma JoinStepNormal(op: Junction, t: Expr, p: Path, q: Path, j: Expr)
    requires LevelPath(op, t, p) && LevelPath(op, t, q) && ValidPath(t, p) && ValidPath(t, q)
    requires Join(op, At(t, p), At(t, q)) == Some(j)
    requires var t1 := Put(t, p, Sym(UnitSym(op))); LevelPath(op, t1, q) && ValidPath(t1, q)
    ensures Normal(t) ==> Normal(Put(Put(t, p, Sym(UnitSym(op))), q, j))
  {
    if Normal(t) {
      NormalSlot(op, t, p, Sym(UnitSym(op)));
      NormalSlot(op, t, q, j);
      JoinNormal(op, At(t, p), At(t, q));
      NormalSlot(op, Put(t, p, Sym(UnitSym(op))), q, j);
    }
  }

  /** What expr_eliminate_dups1 makes of t at two operands of which the first is no operation: the
      constant takes the place of the first, and their join that of the second. */
  ghost predicate JoinedOnce(op: Junction, t: Expr, p: Path, q: Path, u: Expr) {
    && ValidPath(t, p)
    && ValidPath(t, q)
    && (!At(t, p).Bin? ==>
      match Join(op, At(t, p), At(t, q))
      case None => u == t
      case Some(joined) =>
        var freed := Put(t, p, Sym(UnitSym(op)));
        ValidPath(freed, q) && u == Put(freed, q, joined))
  }

  /** One successful join is a step, and leaves a constant behind. */
  lemma JoinStep(op: Junction, t: Expr, p: Path, q: Path, j: Expr)
    requires Leaf(op, t, p) && Leaf(op, t, q) && p != q && IsOp(t, op)
    requires ValidPath(t, p) && ValidPath(t, q) && Join(op, At(t, p), At(t, q)) == Some(j)
    ensures var t1 := Put(t, p, Sym(UnitSym(op)));
            Leaf(op, t1, q) && ValidPath(t1, q) && At(t1, q) == At(t, q) &&
            Step(op, t, Put(t1, q, j)) && HasYn(Put(t1, q, j))
  {
    var unit := Sym(UnitSym(op));
    var t1 := Put(t, p, unit);
    LeafDepth(op, t, p);
    PutLeaf(op, t, p, unit);
    PutElsewhere(op, t, p, q, unit);
    assert !IsOp(j, op) && Size(j) <= Size(At(t, p)) && (j == At(t, p) || OperandDepth(op, j) == 0);
    JoinStands(op, t, p, q, j);
    JoinStepNormal(op, t, p, q, j);
    DepthMonotone(op, t1, q, j);
    PutLeaf(op, t1, q, j);
    SameLevelTrans(op, t, t1, Put(t1, q, j));
    PutYn(op, t, p, unit);
    PutAt(t, p, unit);
    PutElsewhere(op, t1, q, p, j);
    var w := Put(t1, q, j);
    assert At(w, p) == unit && p != [];
    PutYn(op, w, p, unit);
    PutAt(w, p, unit);
    assert Put(w, p, unit) == w;
  }
}

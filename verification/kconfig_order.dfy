/** expr_eq finds expressions equal that differ in the order and grouping of operands only
    (nemu/tools/kconfig/expr.c:178-303), and the simplifier joins such operands. */
module Shapes {
  import opened Expressions
  import opened Equality
  import opened Identity
  import opened Paths
  import opened Duplicates
  import opened Transformation

  /** An expression without the order and the grouping of operands: the operands of one level are a
      multiset. */
  datatype Shape =
    | Symbolic(s: Symbol)
    | Test(rel: Relation, lhs: Symbol, rhs: Symbol)
    | Negation(x: Shape)
    | Level(op: Junction, operands: multiset<Shape>)

  function ShapeOf(e: Expr): Shape
    decreases e, 0
  {
    match e
    case Sym(s) => Symbolic(s)
    case Cmp(rel, l, r) => Test(rel, l, r)
    case Not(x) => Negation(ShapeOf(x))
    case Bin(op, l, r) => Level(op, Operands(op, l) + Operands(op, r))
  }

  function Operands(op: Junction, e: Expr): multiset<Shape>
    decreases e, 1
  {
    if IsOp(e, op) then Operands(op, e.left) + Operands(op, e.right) else multiset{ShapeOf(e)}
  }

  /** y and n are not operands of && or ||, at any depth: what expr_eliminate_yn leaves behind. */
  predicate Clean(e: Expr) {
    match e
    case Sym(_) => true
    case Cmp(_, _, _) => true
    case Not(x) => Clean(x)
    case Bin(_, l, r) => !IsYn(l) && !IsYn(r) && Clean(l) && Clean(r)
  }

  // ---- one pass over two levels takes out what they have in common ----

  /** The operands of a level that are not y or n */
  function Live(op: Junction, e: Expr): multiset<Shape> {
    if IsOp(e, op) then Live(op, e.left) + Live(op, e.right)
    else if IsYn(e) then multiset{}
    else multiset{ShapeOf(e)}
  }

  /** On these operands expr_eq tells shapes apart. */
  ghost predicate Decides(s: seq<Expr>, t: seq<Expr>) {
    forall x, y | x in s && y in t :: Agrees(x, y)
  }

  predicate Agrees(x: Expr, y: Expr) { !IsYn(x) && !IsYn(y) ==> (ExprEq(x, y) <==> ShapeOf(x) == ShapeOf(y)) }

  /** Every operand of the new level is one of the old level, or the neutral constant; the absorbing
      constant neither comes nor goes. */
  ghost predicate FromLevel(op: Junction, t: Expr, t': Expr) {
    && IsOp(t', op) == IsOp(t, op)
    && (forall x | x in Leaves(op, t') :: x in Leaves(op, t) || x == Sym(UnitSym(op)))
    && (Sym(ZeroSym(op)) in Leaves(op, t) ==> Sym(ZeroSym(op)) in Leaves(op, t'))
  }

  lemma FromSelf(op: Junction, t: Expr)
    ensures FromLevel(op, t, t)
  {}

  lemma FromTwice(op: Junction, t: Expr, t1: Expr, t2: Expr)
    requires FromLevel(op, t, t1) && FromLevel(op, t1, t2)
    ensures FromLevel(op, t, t2)
  {}

  lemma FromTwo(op: Junction, t: Expr, l: Expr, r: Expr)
    requires IsOp(t, op) && FromLevel(op, t.left, l) && FromLevel(op, t.right, r)
    ensures FromLevel(op, t, Bin(op, l, r))
  {
    var u := Bin(op, l, r);
    assert Leaves(op, u) == Leaves(op, l) + Leaves(op, r);
    assert forall x :: x in Leaves(op, u) <==> x in Leaves(op, l) || x in Leaves(op, r);
    assert forall x :: x in Leaves(op, t) <==> x in Leaves(op, t.left) || x in Leaves(op, t.right);
  }

  lemma DecidesFrom(op: Junction, a: Expr, a': Expr, b: Expr, b': Expr)
    requires Decides(Leaves(op, a), Leaves(op, b)) && FromLevel(op, a, a') && FromLevel(op, b, b')
    ensures Decides(Leaves(op, a'), Leaves(op, b'))
  {
    hide Leaves;
    forall x, y | x in Leaves(op, a') && y in Leaves(op, b') ensures Agrees(x, y) {
      if x in Leaves(op, a) && y in Leaves(op, b) { assert Agrees(x, y); }
    }
  }

  lemma DecidesParts(op: Junction, a: Expr, b: Expr)
    requires Decides(Leaves(op, a), Leaves(op, b))
    ensures IsOp(a, op) ==> Decides(Leaves(op, a.left), Leaves(op, b)) && Decides(Leaves(op, a.right), Leaves(op, b))
    ensures IsOp(b, op) ==> Decides(Leaves(op, a), Leaves(op, b.left)) && Decides(Leaves(op, a), Leaves(op, b.right))
  {
    hide ExprEq, ShapeOf;
    if IsOp(a, op) {
      assert forall x | x in Leaves(op, a.left) || x in Leaves(op, a.right) :: x in Leaves(op, a);
    }
    if IsOp(b, op) {
      assert forall x | x in Leaves(op, b.left) || x in Leaves(op, b.right) :: x in Leaves(op, b);
    }
  }

  /** Taking l + r out of b at once, or l first and r then */
  lemma OneByOne<T>(l: multiset<T>, r: multiset<T>, b: multiset<T>)
    ensures (l - b) + (r - (b - l)) == (l + r) - b
    ensures (b - l) - r == b - (l + r)
  {}

  /** Each of the two levels loses the operands it shares with the other, one for one. */
  lemma {:induction false} CancelLevels(op: Junction, a: Expr, b: Expr)
    requires Decides(Leaves(op, a), Leaves(op, b))
    ensures var r := CancelEqual(op, a, b);
            && Live(op, r.0) == Live(op, a) - Live(op, b) && Live(op, r.1) == Live(op, b) - Live(op, a)
            && FromLevel(op, a, r.0) && FromLevel(op, b, r.1)
    decreases Size(a) + Size(b)
  {
    hide ExprEq, Decides, FromLevel, Leaves;
    DecidesParts(op, a, b);
    if IsOp(a, op) {
      var first := CancelEqual(op, a.left, b);
      CancelLevels(op, a.left, b);
      FromSelf(op, a.right);
      DecidesFrom(op, a.right, a.right, b, first.1);
      var second := CancelEqual(op, a.right, first.1);
      CancelLevels(op, a.right, first.1);
      OneByOne(Live(op, a.left), Live(op, a.right), Live(op, b));
      FromTwo(op, a, first.0, second.0);
      FromTwice(op, b, first.1, second.1);
    } else if IsOp(b, op) {
      var first := CancelEqual(op, a, b.left);
      CancelLevels(op, a, b.left);
      FromSelf(op, b.right);
      DecidesFrom(op, a, first.0, b.right, b.right);
      var second := CancelEqual(op, first.0, b.right);
      CancelLevels(op, first.0, b.right);
      OneByOne(Live(op, b.left), Live(op, b.right), Live(op, a));
      FromTwo(op, b, first.1, second.1);
      FromTwice(op, a, first.0, second.0);
    } else {
      CancelOperands(op, a, b);
    }
  }

  lemma CancelOperands(op: Junction, a: Expr, b: Expr)
    requires !IsOp(a, op) && !IsOp(b, op) && Decides(Leaves(op, a), Leaves(op, b))
    ensures var r := CancelEqual(op, a, b);
            && Live(op, r.0) == Live(op, a) - Live(op, b) && Live(op, r.1) == Live(op, b) - Live(op, a)
            && FromLevel(op, a, r.0) && FromLevel(op, b, r.1)
  {
    assert Agrees(a, b) by { assert Leaves(op, a) == [a] && Leaves(op, b) == [b]; }
    LeafPairs(op, a, b);
    assert !IsYn(a) && !IsYn(b) ==> (ExprEq(a, b) <==> ShapeOf(a) == ShapeOf(b));
    assert IsYn(Sym(UnitSym(op)));
    LiveOperand(op, a);
    LiveOperand(op, b);
    LiveOperand(op, Sym(UnitSym(op)));
    hide *;
    if !IsYn(a) && !IsYn(b) && ExprEq(a, b) {
      ToUnit(op, a);
      ToUnit(op, b);
      AllShared(ShapeOf(a));
    } else {
      FromSelf(op, a);
      FromSelf(op, b);
      if IsYn(a) {
        NothingThere(Live(op, b));
      } else if IsYn(b) {
        NothingThere(Live(op, a));
      } else {
        NothingShared(ShapeOf(a), ShapeOf(b));
      }
    }
  }

  lemma LiveOperand(op: Junction, a: Expr)
    requires !IsOp(a, op)
    ensures Live(op, a) == if IsYn(a) then multiset{} else multiset{ShapeOf(a)}
  {}

  lemma ToUnit(op: Junction, a: Expr)
    requires !IsOp(a, op) && !IsYn(a)
    ensures FromLevel(op, a, Sym(UnitSym(op)))
  {}

  lemma AllShared<T>(x: T)
    ensures multiset{x} - multiset{x} == multiset{}
  {}

  lemma NothingThere<T>(m: multiset<T>)
    ensures m - multiset{} == m && multiset{} - m == multiset{}
  {}

  lemma NothingShared<T>(x: T, y: T)
    ensures x != y ==> multiset{x} - multiset{y} == multiset{x} && multiset{y} - multiset{x} == multiset{y}
  {}

  /** What CancelEqual does to two operands */
  lemma LeafPairs(op: Junction, a: Expr, b: Expr)
    requires !IsOp(a, op) && !IsOp(b, op)
    ensures var unit := Sym(UnitSym(op));
            CancelEqual(op, a, b) == if !IsYn(a) && !IsYn(b) && ExprEq(a, b) then (unit, unit) else (a, b)
  {
    if IsYn(a) || IsYn(b) {
      assert a != b ==> !ExprEq(a, b);
    }
  }

  // ---- what is left decides ----

  lemma {:induction false} CleanKeeps(e: Expr)
    requires Clean(e)
    ensures !HasYn(e) && EliminateYn(e) == e
  {
    EliminateYnRemovesAll(e);
    CleanHasNone(e);
  }

  lemma {:induction false} CleanHasNone(e: Expr)
    requires Clean(e)
    ensures !HasYn(e)
  {
    if e.Bin? {
      CleanHasNone(e.left);
      CleanHasNone(e.right);
    }
  }

  lemma {:induction false} CleanLeaves(op: Junction, e: Expr)
    requires Clean(e)
    ensures forall x | x in Leaves(op, e) :: Clean(x) && (IsYn(e) || !IsYn(x))
  {
    if IsOp(e, op) {
      CleanLeaves(op, e.left);
      CleanLeaves(op, e.right);
    }
  }

  /** The operands without y and n */
  lemma {:induction false} LiveCounts(op: Junction, e: Expr, x: Shape)
    ensures Live(op, e)[x] == if x == Symbolic(SymYes) || x == Symbolic(SymNo) then 0 else Operands(op, e)[x]
  {
    if IsOp(e, op) {
      LiveCounts(op, e.left, x);
      LiveCounts(op, e.right, x);
    }
  }

  lemma SameLive(op: Junction, a: Expr, b: Expr)
    requires Operands(op, a) == Operands(op, b)
    ensures Live(op, a) == Live(op, b)
  {
    forall x ensures Live(op, a)[x] == Live(op, b)[x] {
      LiveCounts(op, a, x);
      LiveCounts(op, b, x);
    }
  }

  lemma {:induction false} ConstantOperand(op: Junction, e: Expr, c: Symbol)
    requires c == SymYes || c == SymNo
    ensures Sym(c) in Leaves(op, e) <==> Symbolic(c) in Operands(op, e)
  {
    if IsOp(e, op) {
      ConstantOperand(op, e.left, c);
      ConstantOperand(op, e.right, c);
    }
  }

  lemma {:induction false} NothingLive(op: Junction, t: Expr)
    requires Live(op, t) == multiset{}
    ensures AllYn(Leaves(op, t))
  {
    if IsOp(t, op) {
      assert Live(op, t.left) <= Live(op, t) && Live(op, t.right) <= Live(op, t);
      NothingLive(op, t.left);
      NothingLive(op, t.right);
    }
  }

  /** A level of clean operands and neutral constants becomes a symbol only if no more than that
      symbol is left of it. */
  lemma {:induction false} FoldLive(op: Junction, t: Expr)
    requires forall x | x in Leaves(op, t) :: x == Sym(UnitSym(op)) || (Clean(x) && !IsYn(x))
    ensures var r := EliminateYn(t);
            && r != Sym(ZeroSym(op))
            && (r.Sym? ==> Live(op, t) == if r == Sym(UnitSym(op)) then multiset{} else multiset{ShapeOf(r)})
  {
    if IsOp(t, op) {
      assert forall x | x in Leaves(op, t.left) || x in Leaves(op, t.right) :: x in Leaves(op, t);
      FoldLive(op, t.left);
      FoldLive(op, t.right);
    } else {
      assert t in Leaves(op, t);
      LiveOperand(op, t);
      if t != Sym(UnitSym(op)) {
        CleanKeeps(t);
        assert t != Sym(ZeroSym(op));
      }
    }
  }

  lemma SameRest<T>(a: multiset<T>, b: multiset<T>)
    requires a - b == b - a
    ensures a == b
  {
    forall x ensures a[x] == b[x] {
      assert (a - b)[x] == (b - a)[x];
    }
  }

  // ---- the theorems ----

  /** On clean expressions expr_eq tells exactly whether the two differ in the order and grouping of
      operands only. */
  lemma {:induction false} ExprEqExact(a: Expr, b: Expr)
    requires Clean(a) && Clean(b)
    ensures ExprEq(a, b) <==> ShapeOf(a) == ShapeOf(b)
    decreases Size(a) + Size(b)
  {
    match a
    case Sym(_) => assert ExprEq(a, b) <==> a == b;
    case Cmp(_, _, _) => assert ExprEq(a, b) <==> a == b;
    case Not(x) => if b.Not? { ExprEqExact(x, b.e); }
    case Bin(op, _, _) =>
      if IsOp(b, op) {
        CleanLeaves(op, a);
        CleanLeaves(op, b);
        forall x, y | x in Leaves(op, a) && y in Leaves(op, b) ensures Agrees(x, y) {
          ExprEqExact(x, y);
        }
        LevelExact(op, a, b);
      }
  }

  lemma LevelExact(op: Junction, a: Expr, b: Expr)
    requires IsOp(a, op) && IsOp(b, op) && Clean(a) && Clean(b) && Decides(Leaves(op, a), Leaves(op, b))
    ensures ExprEq(a, b) <==> ShapeOf(a) == ShapeOf(b)
  {
    CleanLeaves(op, a);
    CleanLeaves(op, b);
    hide ExprEq, Leaves, ShapeOf, Decides, Clean;
    if ShapeOf(a) == ShapeOf(b) {
      LevelComplete(op, a, b);
    }
    if ExprEq(a, b) {
      LevelSound(op, a, b);
    }
  }

  lemma LevelSound(op: Junction, a: Expr, b: Expr)
    requires IsOp(a, op) && IsOp(b, op) && Decides(Leaves(op, a), Leaves(op, b)) && ExprEq(a, b)
    requires forall x | x in Leaves(op, a) || x in Leaves(op, b) :: Clean(x) && !IsYn(x)
    ensures ShapeOf(a) == ShapeOf(b)
  {
    var r := CancelEqual(op, a, b);
    CancelLevels(op, a, b);
    ByWhatIsLeft(op, a, b);
    hide ExprEq, CancelEqual, Leaves, Live, EliminateYn, Decides;
    FoldLive(op, r.0);
    FoldLive(op, r.1);
    SameRest(Live(op, a), Live(op, b));
    AllLive(op, a);
    AllLive(op, b);
  }

  /** expr_eq on two levels looks at what cancelling leaves of them. */
  lemma ByWhatIsLeft(op: Junction, a: Expr, b: Expr)
    requires IsOp(a, op) && IsOp(b, op)
    requires FromLevel(op, a, CancelEqual(op, a, b).0) && FromLevel(op, b, CancelEqual(op, a, b).1)
    ensures var r := CancelEqual(op, a, b);
            ExprEq(a, b) <==> EliminateYn(r.0).Sym? && EliminateYn(r.0) == EliminateYn(r.1)
  {
    hide CancelEqual, Leaves, EliminateYn;
  }

  lemma {:induction false} AllLive(op: Junction, e: Expr)
    requires forall x | x in Leaves(op, e) :: !IsYn(x)
    ensures Live(op, e) == Operands(op, e)
  {
    if IsOp(e, op) {
      assert forall x | x in Leaves(op, e.left) || x in Leaves(op, e.right) :: x in Leaves(op, e);
      AllLive(op, e.left);
      AllLive(op, e.right);
    } else {
      assert e in Leaves(op, e);
    }
  }

  lemma LevelComplete(op: Junction, a: Expr, b: Expr)
    requires IsOp(a, op) && IsOp(b, op) && ShapeOf(a) == ShapeOf(b) && Decides(Leaves(op, a), Leaves(op, b))
    ensures ExprEq(a, b)
  {
    var r := CancelEqual(op, a, b);
    CancelLevels(op, a, b);
    ByWhatIsLeft(op, a, b);
    hide ExprEq, CancelEqual, Leaves, Live, EliminateYn, Decides;
    SameLive(op, a, b);
    NothingLive(op, r.0);
    NothingLive(op, r.1);
    ConstantOperand(op, a, ZeroSym(op));
    ConstantOperand(op, b, ZeroSym(op));
    FoldConstants(op, r.0);
    FoldConstants(op, r.1);
  }

  /** Two levels with the same operands are found equal, in whatever order and grouping; y and n may be
      operands of these levels, but not deeper down. */
  lemma PermutedLevels(op: Junction, a: Expr, b: Expr)
    requires IsOp(a, op) && IsOp(b, op) && ShapeOf(a) == ShapeOf(b)
    requires forall x | x in Leaves(op, a) || x in Leaves(op, b) :: Clean(x)
    ensures ExprEq(a, b)
  {
    forall x, y | x in Leaves(op, a) && y in Leaves(op, b) ensures Agrees(x, y) {
      ExprEqExact(x, y);
    }
    LevelComplete(op, a, b);
  }

  lemma Commutes(op: Junction, a: Expr, b: Expr)
    requires Clean(a) && Clean(b)
    ensures ExprEq(Bin(op, a, b), Bin(op, b, a))
  {
    CleanLeaves(op, a);
    CleanLeaves(op, b);
    PermutedLevels(op, Bin(op, a, b), Bin(op, b, a));
  }

  lemma Regroups(op: Junction, a: Expr, b: Expr, c: Expr)
    requires Clean(a) && Clean(b) && Clean(c)
    ensures ExprEq(Bin(op, Bin(op, a, b), c), Bin(op, a, Bin(op, b, c)))
  {
    CleanLeaves(op, a);
    CleanLeaves(op, b);
    CleanLeaves(op, c);
    PermutedLevels(op, Bin(op, Bin(op, a, b), c), Bin(op, a, Bin(op, b, c)));
  }

  /** expr_eliminate_dups leaves no two operands of a level that differ in order and grouping only. */
  lemma NoPermutedOperands(e: Expr, p: Path, q: Path)
    requires e.Bin? && JoinFree(e)
    requires Leaf(e.op, e, p) && Leaf(e.op, e, q) && p != q
    requires ValidPath(e, p) && ValidPath(e, q) && Clean(At(e, p)) && Clean(At(e, q))
    ensures ShapeOf(At(e, p)) != ShapeOf(At(e, q))
    ensures p != [] && JoinFree(At(e, p))
  {
    assert JoinFreePair(e.op, e, p, q);
    ExprEqExact(At(e, p), At(e, q));
    LeafPair(e.op, e, p, q);
  }

  // ---- the "superset" test ----

  /** After expr_transform, what expr_eliminate_yn leaves behind is clean. */
  lemma {:induction false} NormalClean(e: Expr)
    requires Normal(e) && !HasYn(e)
    ensures Clean(e)
  {
    if e.Bin? {
      NormalClean(e.left);
      NormalClean(e.right);
    }
  }

  lemma CleanDecides(op: Junction, a: Expr, b: Expr)
    requires Clean(a) && Clean(b)
    ensures Decides(Leaves(op, a), Leaves(op, b))
  {
    CleanLeaves(op, a);
    CleanLeaves(op, b);
    forall x, y | x in Leaves(op, a) && y in Leaves(op, b) ensures Agrees(x, y) {
      ExprEqExact(x, y);
    }
  }

  lemma {:induction false} ConstantPasses(op: Junction, a: Expr, c: Expr)
    requires IsYn(c)
    ensures CancelEqual(op, a, c) == (a, c)
  {
    if IsOp(a, op) {
      ConstantPasses(op, a.left, c);
      ConstantPasses(op, a.right, c);
    } else {
      LeafPairs(op, a, c);
    }
  }

  /** An operand that a level does not take out leaves the level alone. */
  lemma {:induction false} Untouched(op: Junction, a: Expr, b: Expr)
    requires !IsOp(b, op) && !IsYn(b)
    ensures var r := CancelEqual(op, a, b); r.1 == Sym(UnitSym(op)) || r == (a, b)
  {
    if IsOp(a, op) {
      Untouched(op, a.left, b);
      Untouched(op, a.right, b);
      ConstantPasses(op, a.right, Sym(UnitSym(op)));
    } else {
      LeafPairs(op, a, b);
    }
  }

  /** What is left of a level after one pass: y for &&, or n for ||, just if nothing is. */
  lemma LeftOver(op: Junction, a: Expr, b: Expr)
    requires Clean(a) && Clean(b) && IsOp(b, op)
    ensures var rest := EliminateYn(CancelEqual(op, a, b).1);
            && rest != Sym(ZeroSym(op)) && (rest == Sym(UnitSym(op)) <==> Live(op, b) <= Live(op, a))
  {
    hide *;
    CleanDecides(op, a, b);
    CancelLevels(op, a, b);
    EmptyDifference(Live(op, b), Live(op, a));
    FoldClean(op, b, CancelEqual(op, a, b).1);
  }

  lemma FoldClean(op: Junction, b: Expr, t: Expr)
    requires Clean(b) && IsOp(b, op) && FromLevel(op, b, t)
    ensures EliminateYn(t) != Sym(ZeroSym(op)) && (EliminateYn(t) == Sym(UnitSym(op)) <==> Live(op, t) == multiset{})
  {
    CleanLeaves(op, b);
    assert forall x | x in Leaves(op, t) :: x == Sym(UnitSym(op)) || (Clean(x) && !IsYn(x));
    hide EliminateYn, Live, Clean, Leaves, FromLevel;
    FoldLive(op, t);
    if Live(op, t) == multiset{} {
      NothingLive(op, t);
      FoldConstants(op, t);
    }
  }

  lemma EmptyDifference<T>(b: multiset<T>, a: multiset<T>)
    ensures b - a == multiset{} <==> b <= a
  {
    if b - a == multiset{} {
      forall x ensures b[x] <= a[x] { assert (b - a)[x] == 0; }
    }
  }

  lemma {:induction false} SomeOperand(op: Junction, e: Expr)
    ensures |Operands(op, e)| >= if IsOp(e, op) then 2 else 1
  {
    if IsOp(e, op) {
      SomeOperand(op, e.left);
      SomeOperand(op, e.right);
    }
  }

  lemma CleanLive(op: Junction, e: Expr)
    requires Clean(e) && !IsYn(e)
    ensures Live(op, e) == Operands(op, e)
  {
    CleanLeaves(op, e);
    AllLive(op, e);
  }

  lemma TooMany<T>(a: multiset<T>, b: multiset<T>)
    requires |b| > |a|
    ensures !(b <= a)
  {
    assert b <= a ==> a == b + (a - b);
  }

  /** One operand does not take out a whole level. */
  lemma OneIsTooFew(op: Junction, a: Expr, b: Expr)
    requires Clean(a) && Clean(b) && !IsOp(a, op) && IsOp(b, op)
    ensures EliminateYn(CancelEqual(op, a, b).1) != Sym(UnitSym(op))
  {
    LeftOver(op, a, b);
    SomeOperand(op, b);
    CleanLive(op, b);
    LiveOperand(op, a);
    TooMany(Live(op, a), Live(op, b));
    hide *;
  }

  /** The test of menu.c:472-491 on two clean conditions: the first implies the second by its form just if
      the second is y, or the first is an && that has all operands of the second among its own. */
  lemma SupersetTestExact(a: Expr, b: Expr)
    requires Clean(a) && Clean(b)
    ensures EliminateEq(a, b).1 == Sym(SymYes)
       <==> b == Sym(SymYes) || (IsOp(a, And) && Operands(And, b) <= Operands(And, a))
  {
    if IsYn(b) {
      AgainstConstant(a, b);
    } else if a.Bin? {
      SupersetOfLevel(a.op, a, b);
    } else {
      SupersetOfOperand(a, b);
    }
  }

  lemma AgainstConstant(a: Expr, b: Expr)
    requires Clean(a) && IsYn(b)
    ensures EliminateEq(a, b).1 == b
    ensures IsOp(a, And) ==> !(Operands(And, b) <= Operands(And, a))
  {
    if a.Bin? { ConstantPasses(a.op, a, b); }
    if IsOp(a, And) {
      CleanLeaves(And, a);
      ConstantOperand(And, a, b.s);
      assert b !in Leaves(And, a);
      assert Symbolic(b.s) in Operands(And, b);
    }
  }

  lemma SupersetOfOperand(a: Expr, b: Expr)
    requires Clean(a) && Clean(b) && !a.Bin? && !IsYn(b)
    ensures EliminateEq(a, b).1 != Sym(SymYes)
  {
    if b.Bin? {
      OneIsTooFew(b.op, a, b);
      LeftOver(b.op, a, b);
    }
    hide CancelEqual;
  }

  lemma SupersetOfLevel(op: Junction, a: Expr, b: Expr)
    requires Clean(a) && Clean(b) && IsOp(a, op) && !IsYn(b)
    ensures EliminateEq(a, b).1 == Sym(SymYes) <==> op == And && Operands(And, b) <= Operands(And, a)
  {
    CleanLive(op, a);
    CleanLive(op, b);
    CleanDecides(op, a, b);
    CancelLevels(op, a, b);
    var r := CancelEqual(op, a, b);
    if IsOp(b, op) {
      LeftOver(op, a, b);
      hide *;
      SamePass(op, a, b);
    } else {
      Untouched(op, a, b);
      LiveOperand(op, b);
      LiveOperand(op, r.1);
      EmptyDifference(Live(op, b), Live(op, a));
      OtherLevel(op, a, b);
    }
  }

  lemma SamePass(op: Junction, a: Expr, b: Expr)
    requires IsOp(a, op) && FromLevel(op, a, CancelEqual(op, a, b).0) && IsOp(b, op)
    requires FromLevel(op, b, CancelEqual(op, a, b).1)
    ensures EliminateEq(a, b).1 == EliminateYn(CancelEqual(op, a, b).1)
  {
    hide CancelEqual, EliminateYn, Leaves;
  }

  /** The second condition is one operand for the operator of the first. */
  lemma OtherLevel(op: Junction, a: Expr, b: Expr)
    requires Clean(a) && Clean(b) && IsOp(a, op) && !IsOp(b, op) && !IsYn(b)
    requires var r := CancelEqual(op, a, b); r.1 == Sym(UnitSym(op)) || r == (a, b)
    ensures EliminateEq(a, b).1 == Sym(SymYes) <==> op == And && CancelEqual(op, a, b).1 == Sym(SymYes)
  {
    if CancelEqual(op, a, b) == (a, b) {
      if b.Bin? {
        OneIsTooFew(b.op, a, b);
        LeftOver(b.op, a, b);
      }
    }
    hide CancelEqual;
  }

  // ---- constants deeper down ----

  const B := Sym(Config(0, Tristate))
  const C := Sym(Config(1, Tristate))
  const BN := Bin(Or, B, Sym(SymNo))
  const CN := Bin(Or, C, Sym(SymNo))

  /** C && B, and the same with `|| n` behind one and behind both operands. Each is found equal to its
      neighbour, but the first is not found equal to the last. */
  const NONE := Bin(And, C, B)
  const ONE := Bin(And, CN, B)
  const BOTH := Bin(And, CN, BN)

  /** Cancelling one operand against a level, and a level operand by operand */
  lemma OneOperand(op: Junction, x: Expr, l: Expr, r: Expr)
    requires !IsOp(x, op)
    ensures var first := CancelEqual(op, x, l);
            var second := CancelEqual(op, first.0, r);
            CancelEqual(op, x, Bin(op, l, r)) == (second.0, Bin(op, first.1, second.1))
  {}

  lemma TwoOperands(op: Junction, l: Expr, r: Expr, b: Expr)
    ensures var first := CancelEqual(op, l, b);
            var second := CancelEqual(op, r, first.1);
            CancelEqual(op, Bin(op, l, r), b) == (Bin(op, first.0, second.0), second.1)
  {}

  lemma OperandCases(op: Junction, x: Expr, y: Expr)
    requires !IsOp(x, op) && !IsOp(y, op)
    ensures var unit := Sym(UnitSym(op));
            && CancelEqual(op, x, unit) == (x, unit) && CancelEqual(op, unit, x) == (unit, x)
            && (!IsYn(x) && !IsYn(y) ==> CancelEqual(op, x, y) == if ExprEq(x, y) then (unit, unit) else (x, y))
  {
    LeafPairs(op, x, Sym(UnitSym(op)));
    LeafPairs(op, Sym(UnitSym(op)), x);
    LeafPairs(op, x, y);
  }

  lemma WithNo(x: Expr)
    requires x == B || x == C
    ensures var e := Bin(Or, x, Sym(SymNo)); ExprEq(e, e) && EliminateYn(e) == x && !IsYn(e)
  {
    ExprEqReflexive(Bin(Or, x, Sym(SymNo)));
  }

  lemma Different()
    ensures !ExprEq(CN, C) && !ExprEq(CN, B) && !ExprEq(B, C) && !ExprEq(BN, B) && !ExprEq(C, CN) && !ExprEq(C, BN)
    ensures !ExprEq(B, CN) && !ExprEq(B, BN) && ExprEq(B, B) && ExprEq(C, C)
  {}

  lemma OneIsNone()
    ensures CancelEqual(And, ONE, NONE) == (Bin(And, CN, Sym(SymYes)), Bin(And, C, Sym(SymYes)))
  {
    Different();
    TwoOperands(And, CN, B, NONE);
    OneOperand(And, CN, C, B);
    OneOperand(And, B, C, B);
    OperandCases(And, CN, C);
    OperandCases(And, CN, B);
    OperandCases(And, B, C);
    OperandCases(And, B, B);
    hide *;
  }

  lemma BothIsOne()
    ensures CancelEqual(And, BOTH, ONE) == (Bin(And, Sym(SymYes), BN), Bin(And, Sym(SymYes), B))
  {
    Different();
    WithNo(C);
    TwoOperands(And, CN, BN, ONE);
    OneOperand(And, CN, CN, B);
    OneOperand(And, BN, Sym(SymYes), B);
    OperandCases(And, CN, CN);
    OperandCases(And, B, B);
    OperandCases(And, BN, B);
    hide *;
  }

  lemma NoneIsNotBoth()
    ensures CancelEqual(And, NONE, BOTH) == (NONE, BOTH)
  {
    Different();
    TwoOperands(And, C, B, BOTH);
    OneOperand(And, C, CN, BN);
    OneOperand(And, B, CN, BN);
    OperandCases(And, C, CN);
    OperandCases(And, C, BN);
    OperandCases(And, B, CN);
    OperandCases(And, B, BN);
    hide *;
  }

  lemma Neighbours()
    ensures ExprEq(ONE, NONE) && ExprEq(BOTH, ONE) && !ExprEq(NONE, BOTH)
    ensures !IsOp(ONE, Or) && !IsOp(BOTH, Or) && !IsOp(NONE, Or)
  {
    OneIsNone();
    BothIsOne();
    NoneIsNotBoth();
    ByRest(And, ONE, NONE, Bin(And, CN, Sym(SymYes)), Bin(And, C, Sym(SymYes)));
    ByRest(And, BOTH, ONE, Bin(And, Sym(SymYes), BN), Bin(And, Sym(SymYes), B));
    ByRest(And, NONE, BOTH, NONE, BOTH);
    WithNo(B);
    WithNo(C);
    BesideYes(BN);
    BesideYes(CN);
    BesideYes(B);
    BesideYes(C);
    NoneStays();
    hide *;
  }

  lemma BesideYes(x: Expr)
    requires EliminateYn(x) == B || EliminateYn(x) == C
    ensures EliminateYn(Bin(And, x, Sym(SymYes))) == EliminateYn(x) == EliminateYn(Bin(And, Sym(SymYes), x))
  {}

  lemma ByRest(op: Junction, a: Expr, b: Expr, a': Expr, b': Expr)
    requires IsOp(a, op) && IsOp(b, op) && IsOp(a', op) && IsOp(b', op) && CancelEqual(op, a, b) == (a', b')
    ensures ExprEq(a, b) <==> EliminateYn(a').Sym? && EliminateYn(a') == EliminateYn(b')
  {
    hide CancelEqual, EliminateYn;
  }

  /** So a level may not be found equal to itself in another order, if y or n stand deeper down. */
  lemma OrderMattersWithConstants()
    ensures var s, t := Bin(Or, Bin(Or, ONE, BOTH), NONE), Bin(Or, Bin(Or, NONE, ONE), BOTH);
            ShapeOf(s) == ShapeOf(t) && !ExprEq(s, t)
  {
    var no := Sym(SymNo);
    var s, t := Bin(Or, Bin(Or, ONE, BOTH), NONE), Bin(Or, Bin(Or, NONE, ONE), BOTH);
    OrderCancelled();
    ByRest(Or, s, t, Bin(Or, Bin(Or, no, no), NONE), Bin(Or, Bin(Or, no, no), BOTH));
    SameThree(ONE, BOTH, NONE);
    NoneStays();
    hide *;
  }

  lemma NoneStays()
    ensures EliminateYn(Bin(Or, Bin(Or, Sym(SymNo), Sym(SymNo)), NONE)) == NONE && !NONE.Sym?
  {
    assert EliminateYn(NONE) == NONE;
    assert EliminateYn(Bin(Or, Sym(SymNo), Sym(SymNo))) == Sym(SymNo);
  }

  lemma SameThree(x: Expr, y: Expr, z: Expr)
    ensures ShapeOf(Bin(Or, Bin(Or, x, y), z)) == ShapeOf(Bin(Or, Bin(Or, z, x), y))
  {}

  lemma OrderCancelled()
    ensures var no := Sym(SymNo);
            CancelEqual(Or, Bin(Or, Bin(Or, ONE, BOTH), NONE), Bin(Or, Bin(Or, NONE, ONE), BOTH))
            == (Bin(Or, Bin(Or, no, no), NONE), Bin(Or, Bin(Or, no, no), BOTH))
  {
    var no := Sym(SymNo);
    Neighbours();
    TwoOperands(Or, Bin(Or, ONE, BOTH), NONE, Bin(Or, Bin(Or, NONE, ONE), BOTH));
    TwoOperands(Or, ONE, BOTH, Bin(Or, Bin(Or, NONE, ONE), BOTH));
    OneOperand(Or, ONE, Bin(Or, NONE, ONE), BOTH);
    OneOperand(Or, ONE, NONE, ONE);
    OneOperand(Or, BOTH, Bin(Or, no, ONE), BOTH);
    OneOperand(Or, BOTH, no, ONE);
    OneOperand(Or, NONE, Bin(Or, no, no), BOTH);
    OneOperand(Or, NONE, no, no);
    OperandCases(Or, ONE, NONE);
    OperandCases(Or, BOTH, ONE);
    OperandCases(Or, NONE, BOTH);
    hide *;
  }
}

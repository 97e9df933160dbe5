/** expr_transform, expr_trans_bool and expr_trans_compare
    (nemu/tools/kconfig/expr.c:399-426, 688-849 and 908-985). */
module Transformation {
  import opened Wrappers
  import opened Expressions
  import opened Equality
  import opened Joins

  // ---- expr_transform ----

  /** A bound on the work left: a negation counts its operand twice, so that De Morgan
      steps, which copy the negation into both operands, still go down. */
  function Weight(e: Expr): (n: nat)
    ensures n >= 1
  {
    match e
    case Sym(_) => 1
    case Cmp(_, _, _) => 2
    case Not(x) => 2 * Weight(x)
    case Bin(_, l, r) => 1 + Weight(l) + Weight(r)
  }

  function Opposite(rel: Relation): Relation {
    match rel
    case Equal => Unequal
    case Unequal => Equal
    case Leq => Gth
    case Gth => Leq
    case Geq => Lth
    case Lth => Geq
  }

  function Dual(op: Junction): Junction { if op == And then Or else And }

  /** A bool symbol compared for (in)equality with a constant of its own kind. */
  function TransformTest(e: Expr): Expr
    requires e.Cmp?
  {
    if !(e.lhs.Config? && e.lhs.ty == Boolean) then e
    else match (e.rel, e.rhs)
      case (Equal, SymNo) => Not(Sym(e.lhs))
      case (Equal, SymMod) => Sym(SymNo)
      case (Equal, SymYes) => Sym(e.lhs)
      case (Unequal, SymNo) => Sym(e.lhs)
      case (Unequal, SymMod) => Sym(SymYes)
      case (Unequal, SymYes) => Not(Sym(e.lhs))
      case _ => e
  }

  lemma DualWeight(op: Junction, a: Expr, b: Expr)
    ensures Weight(Bin(Dual(op), Not(a), Not(b))) < 2 * Weight(Bin(op, a, b))
  {
    assert Weight(Not(a)) == 2 * Weight(a) && Weight(Not(b)) == 2 * Weight(b);
  }

  function Transform(e: Expr): (r: Expr)
    ensures Weight(r) <= Weight(e)
    decreases Weight(e)
  {
    match e
    case Sym(_) => e
    case Cmp(_, _, _) => TransformTest(e)
    case Bin(op, l, r) => Bin(op, Transform(l), Transform(r))
    case Not(x) =>
      var x' := Transform(x);
      match x' {
        case Not(a) => Transform(a)
        case Cmp(rel, l, r) => Cmp(Opposite(rel), l, r)
        case Bin(op, a, b) => DualWeight(op, a, b); Transform(Bin(Dual(op), Not(a), Not(b)))
        case Sym(SymYes) => Sym(SymNo)
        case Sym(SymMod) => Sym(SymMod)
        case Sym(SymNo) => Sym(SymYes)
        case Sym(_) => Not(x')
      }
  }

  /** Negations stand only in front of plain symbols, and no bool symbol is compared with
      y, m or n for (in)equality. */
  predicate Normal(e: Expr) {
    match e
    case Sym(_) => true
    case Cmp(_, _, _) => TransformTest(e) == e
    case Bin(_, l, r) => Normal(l) && Normal(r)
    case Not(x) => x.Sym? && !IsTruth(x.s)
  }

  lemma {:induction false} TransformNormal(e: Expr)
    ensures Normal(Transform(e))
    decreases Weight(e)
  {
    match e
    case Sym(_) =>
    case Cmp(_, _, _) =>
    case Bin(_, l, r) => TransformNormal(l); TransformNormal(r);
    case Not(x) =>
      TransformNormal(x);
      match Transform(x) {
        case Not(a) => TransformNormal(a);
        case Bin(op, a, b) => DualWeight(op, a, b); TransformNormal(Bin(Dual(op), Not(a), Not(b)));
        case _ =>
      }
  }

  /** expr_transform leaves an expression alone exactly when it is in normal form. */
  lemma {:induction false} TransformFixedPoint(e: Expr)
    ensures Transform(e) == e <==> Normal(e)
  {
    TransformNormal(e);
    if Normal(e) { NormalUnchanged(e); }
  }

  lemma {:induction false} NormalUnchanged(e: Expr)
    requires Normal(e)
    ensures Transform(e) == e
  {
    match e
    case Bin(_, l, r) => NormalUnchanged(l); NormalUnchanged(r);
    case _ =>
  }

  lemma TransformIdempotent(e: Expr)
    ensures Transform(Transform(e)) == Transform(e)
  {
    TransformNormal(e);
    NormalUnchanged(Transform(e));
  }

  lemma TransformTestKeepsValue(e: Expr, env: Env)
    requires e.Cmp?
    ensures Value(TransformTest(e), env) == Value(e, env)
  {
    if e.lhs.Config? && e.lhs.ty == Boolean {
      TestValues(e.lhs, env);
      assert e == Cmp(e.rel, e.lhs, e.rhs);
    }
  }

  /** expr_transform keeps the value under every assignment. */
  lemma {:induction false} TransformKeepsValue(e: Expr, env: Env)
    ensures Value(Transform(e), env) == Value(e, env)
    decreases Weight(e)
  {
    match e
    case Sym(_) =>
    case Cmp(_, _, _) => TransformTestKeepsValue(e, env);
    case Bin(_, l, r) => TransformKeepsValue(l, env); TransformKeepsValue(r, env);
    case Not(x) =>
      TransformKeepsValue(x, env);
      match Transform(x) {
        case Not(a) => TransformKeepsValue(a, env);
        case Bin(op, a, b) =>
          DualWeight(op, a, b);
          var dual := Bin(Dual(op), Not(a), Not(b));
          TransformKeepsValue(dual, env);
          assert Value(dual, env) == Negate(Value(Bin(op, a, b), env));
        case _ =>
      }
  }

  lemma {:induction false} TransformNumberFree(e: Expr, env: Env)
    requires NumberFree(e, env)
    ensures NumberFree(Transform(e), env)
    decreases Weight(e)
  {
    match e
    case Sym(_) =>
    case Cmp(_, _, _) =>
    case Bin(_, l, r) => TransformNumberFree(l, env); TransformNumberFree(r, env);
    case Not(x) =>
      TransformNumberFree(x, env);
      match Transform(x) {
        case Not(a) => TransformNumberFree(a, env);
        case Bin(op, a, b) => DualWeight(op, a, b); TransformNumberFree(Bin(Dual(op), Not(a), Not(b)), env);
        case _ =>
      }
  }

  lemma TransformStands(e: Expr)
    ensures Stands(e, Transform(e))
  {
    forall env: Env | NumberFree(e, env)
      ensures NumberFree(Transform(e), env) && Value(e, env) == Value(Transform(e), env)
    {
      TransformKeepsValue(e, env);
      TransformNumberFree(e, env);
    }
  }

  /** x is e or stands somewhere inside it. */
  predicate Occurs(x: Expr, e: Expr) {
    x == e || match e
              case Not(a) => Occurs(x, a)
              case Bin(_, l, r) => Occurs(x, l) || Occurs(x, r)
              case _ => false
  }

  /** A negation of anything but a symbol other than y, m and n, or an equality or inequality of a
      bool symbol with y, m or n */
  predicate Reducible(x: Expr) {
    || (x.Not? && !(x.e.Sym? && x.e.s !in {SymYes, SymMod, SymNo}))
    || (x.Cmp? && x.rel in {Equal, Unequal} && x.lhs.Config? && x.lhs.ty == Boolean && x.rhs in {SymYes, SymMod, SymNo})
  }

  /** What the normal form is: nothing of that kind at any depth. */
  lemma {:induction false} NormalMeaning(e: Expr)
    ensures Normal(e) <==> forall x | Occurs(x, e) :: !Reducible(x)
  {
    assert Occurs(e, e);
    match e
    case Not(a) => assert Normal(e) <==> !Reducible(e); if Normal(e) { OccursInAtom(a); }
    case Bin(_, l, r) =>
      NormalMeaning(l);
      NormalMeaning(r);
      assert forall x :: Occurs(x, e) <==> x == e || Occurs(x, l) || Occurs(x, r);
    case _ =>
      assert Normal(e) <==> !Reducible(e);
      OccursInAtom(e);
  }

  lemma OccursInAtom(e: Expr)
    requires e.Sym? || e.Cmp?
    ensures forall x :: Occurs(x, e) <==> x == e
  {}

  // ---- the passes that follow expr_transform ----

  /** A join of two normal forms is one. */
  lemma JoinNormal(op: Junction, a: Expr, b: Expr)
    requires Normal(a) && Normal(b) && Join(op, a, b).Some?
    ensures Normal(Join(op, a, b).value)
  {
    if op == Or { JoinOrNormal(a, b); } else { JoinAndNormal(a, b); }
  }

  lemma JoinOrNormal(a: Expr, b: Expr)
    requires Normal(a) && Normal(b) && JoinOr(a, b).Some?
    ensures Normal(JoinOr(a, b).value)
  {
    hide ExprEq;
  }

  lemma JoinAndNormal(a: Expr, b: Expr)
    requires Normal(a) && Normal(b) && JoinAnd(a, b).Some?
    ensures Normal(JoinAnd(a, b).value)
  {
    hide ExprEq;
  }

  lemma {:induction false} EliminateYnNormal(e: Expr)
    ensures Normal(e) ==> Normal(EliminateYn(e))
  {
    if e.Bin? {
      EliminateYnNormal(e.left);
      EliminateYnNormal(e.right);
    }
  }

  // ---- expr_trans_bool ----

  /** Replaces FOO!=n by FOO for tristate FOO. */
  function TransBool(e: Expr): Expr {
    match e
    case Bin(op, l, r) => Bin(op, TransBool(l), TransBool(r))
    case Not(x) => Not(TransBool(x))
    case Cmp(Unequal, Config(id, Tristate), SymNo) => Sym(Config(id, Tristate))
    case _ => e
  }

  /** FOO!=n for tristate FOO: the test that expr_trans_bool replaces */
  predicate TestsForNo(e: Expr) {
    e.Cmp? && e.rel == Unequal && e.lhs.Config? && e.lhs.ty == Tristate && e.rhs == SymNo
  }

  /** No replaced test below an odd number of negations is about a symbol that is m; `even` says
      whether the number of negations around e is even. */
  predicate NegatesNoTestOfM(e: Expr, even: bool, env: Env) {
    match e
    case Sym(_) => true
    case Cmp(_, l, _) => even || !TestsForNo(e) || SymValue(l, env) != MOD
    case Not(x) => NegatesNoTestOfM(x, !even, env)
    case Bin(_, l, r) => NegatesNoTestOfM(l, even, env) && NegatesNoTestOfM(r, even, env)
  }

  /** Below an even number of negations the result goes down and keeps n; below an odd number it
      goes up and keeps y. */
  lemma {:induction false} TransBoolPolarity(e: Expr, even: bool, env: Env)
    requires NegatesNoTestOfM(e, even, env)
    ensures even ==>
              (Value(TransBool(e), env) == NO <==> Value(e, env) == NO) && Value(TransBool(e), env) <= Value(e, env)
    ensures !even ==>
              (Value(TransBool(e), env) == YES <==> Value(e, env) == YES) && Value(TransBool(e), env) >= Value(e, env)
  {
    match e
    case Sym(_) =>
    case Cmp(_, l, _) => if TestsForNo(e) { TestValues(l, env); }
    case Not(x) => TransBoolPolarity(x, !even, env);
    case Bin(_, l, r) =>
      TransBoolPolarity(l, even, env);
      TransBoolPolarity(r, even, env);
  }

  /** expr_trans_bool keeps "is n", and never raises a value, unless it rewrites a test of a symbol
      that is m below an odd number of negations: enough for a bool symbol, whose visibility m
      counts as y. */
  lemma TransBoolKeepsNo(e: Expr, env: Env)
    requires NegatesNoTestOfM(e, true, env)
    ensures Value(TransBool(e), env) == NO <==> Value(e, env) == NO
    ensures Value(TransBool(e), env) <= Value(e, env)
  {
    TransBoolPolarity(e, true, env);
  }

  /** In normal form nothing but a symbol is negated, so the condition holds of every assignment. */
  lemma {:induction false} NormalNegatesNoTest(e: Expr, env: Env)
    requires Normal(e)
    ensures NegatesNoTestOfM(e, true, env)
  {
    match e
    case Bin(_, l, r) =>
      NormalNegatesNoTest(l, env);
      NormalNegatesNoTest(r, env);
    case _ =>
  }

  /** e below n negations */
  function Negations(n: nat, e: Expr): Expr { if n == 0 then e else Not(Negations(n - 1, e)) }

  /** For a single test below any negations the condition is exact. */
  lemma TransBoolTestExact(n: nat, s: Symbol, env: Env)
    requires s.Config? && s.ty == Tristate
    ensures var e := Negations(n, Cmp(Unequal, s, SymNo));
            (Value(TransBool(e), env) == NO <==> Value(e, env) == NO) <==> n % 2 == 0 || SymValue(s, env) != MOD
  {
    TestValues(s, env);
    NegationsValue(n, Cmp(Unequal, s, SymNo), env);
    NegationsValue(n, Sym(s), env);
    TransBoolNegations(n, Cmp(Unequal, s, SymNo));
  }

  lemma {:induction false} NegationsValue(n: nat, e: Expr, env: Env)
    ensures Value(Negations(n, e), env) == if n % 2 == 0 then Value(e, env) else Negate(Value(e, env))
  {
    if n > 0 { NegationsValue(n - 1, e, env); }
  }

  lemma {:induction false} TransBoolNegations(n: nat, e: Expr)
    ensures TransBool(Negations(n, e)) == Negations(n, TransBool(e))
  {
    if n > 0 { TransBoolNegations(n - 1, e); }
  }

  /** An input for which "is n" is lost: !(FOO!=n) is n for FOO=m, and !FOO is m. */
  lemma NegatedTestBreaksTransBool()
    ensures var foo := Config(0, Tristate);
            var env := Env(map[0 := MOD], map[], map[], map[]);
            var e := Not(Cmp(Unequal, foo, SymNo));
            Value(e, env) == NO && Value(TransBool(e), env) == MOD
  {
    TestValues(Config(0, Tristate), Env(map[0 := MOD], map[], map[], map[]));
  }

  /** No test for n of a tristate symbol is left, and nothing else has changed. */
  lemma {:induction false} TransBoolRemovesTests(e: Expr)
    ensures forall x | Occurs(x, TransBool(e)) :: !TestsForNo(x)
    ensures (forall x | Occurs(x, e) :: !TestsForNo(x)) ==> TransBool(e) == e
  {
    match e
    case Not(a) =>
      TransBoolRemovesTests(a);
      assert forall x :: Occurs(x, e) <==> x == e || Occurs(x, a);
    case Bin(_, l, r) =>
      TransBoolRemovesTests(l);
      TransBoolRemovesTests(r);
      assert forall x :: Occurs(x, e) <==> x == e || Occurs(x, l) || Occurs(x, r);
    case _ => assert Occurs(e, e);
  }

  // ---- expr_trans_compare ----

  /** expr_trans_compare(e, negated ? E_UNEQUAL : E_EQUAL, to) for to == y or to == n. */
  function TransCompare(e: Expr, negated: bool, to: Symbol): Expr
    requires to == SymYes || to == SymNo
  {
    match e
    case Sym(s) => Cmp(if negated then Unequal else Equal, s, to)
    case Not(x) => TransCompare(x, !negated, to)
    case Cmp(_, _, _) => if negated == (to == SymYes) then Not(e) else e
    case Bin(op, l, r) =>
      var both := Bin(if to == SymYes then op else Dual(op), TransCompare(l, false, to), TransCompare(r, false, to));
      if negated then Not(both) else both
  }

  /** On NULL, which counts as y. */
  function TransCompareOpt(e: Option<Expr>, negated: bool, to: Symbol): Expr
    requires to == SymYes || to == SymNo
  {
    match e
    case None => if negated then Not(Sym(to)) else Sym(to)
    case Some(x) => TransCompare(x, negated, to)
  }

  /** Symbols whose text always is that of their tristate value */
  predicate Truthful(s: Symbol) { HasTristateValue(s) || IsTruth(s) }

  /** The text of every operand that is a symbol says what its value is: the inserted comparisons go
      by the text, whereas the value of a string or of an undeclared symbol is n whatever its text. */
  predicate Valued(e: Expr, env: Env) {
    match e
    case Sym(s) => SymText(s, env) == Letter(SymValue(s, env))
    case Not(x) => Valued(x, env)
    case Bin(_, l, r) => Valued(l, env) && Valued(r, env)
    case Cmp(_, _, _) => true
  }

  lemma ValuedSymbol(s: Symbol, env: Env)
    ensures Valued(Sym(s), env) <==> Truthful(s) || SymText(s, env) == "n"
  {}

  /** Comparing any symbol with y or n compares its text. */
  lemma TextTest(s: Symbol, to: Symbol, env: Env)
    requires to == SymYes || to == SymNo
    ensures Compare(s, to, env) == 0 <==> SymText(s, env) == ConstText(to)
  {}

  /** No operand of a negation is m. */
  predicate NegatesNoM(e: Expr, env: Env) {
    match e
    case Sym(_) => true
    case Cmp(_, _, _) => true
    case Not(x) => Value(x, env) != MOD && NegatesNoM(x, env)
    case Bin(_, l, r) => NegatesNoM(l, env) && NegatesNoM(r, env)
  }

  predicate NegationFree(e: Expr) {
    match e
    case Not(_) => false
    case Bin(_, l, r) => NegationFree(l) && NegationFree(r)
    case _ => true
  }

  predicate NoSymbolIsM(e: Expr, env: Env) {
    match e
    case Sym(s) => SymValue(s, env) != MOD
    case Not(x) => NoSymbolIsM(x, env)
    case Bin(_, l, r) => NoSymbolIsM(l, env) && NoSymbolIsM(r, env)
    case Cmp(_, _, _) => true
  }

  lemma {:induction false} NegatesNoMHolds(e: Expr, env: Env)
    requires NegationFree(e) || NoSymbolIsM(e, env)
    ensures NegatesNoM(e, env)
    ensures NoSymbolIsM(e, env) ==> Value(e, env) != MOD
  {
    match e
    case Not(x) => NegatesNoMHolds(x, env);
    case Bin(_, l, r) => NegatesNoMHolds(l, env); NegatesNoMHolds(r, env);
    case _ =>
  }

  function Constant(to: Symbol): Tri
    requires to == SymYes || to == SymNo
  {
    if to == SymYes then YES else NO
  }

  /** The value of e when every symbol is taken for y or n by its text: for y unless the text is "n"
      (up), or for n unless it is "y". A symbol that is m goes up or down. That is what
      expr_trans_compare looks at, since it compares the symbols and not the value. */
  function Rounded(e: Expr, up: bool, env: Env): Tri {
    match e
    case Sym(s) => Truth(if up then SymText(s, env) != "n" else SymText(s, env) == "y")
    case Not(x) => Negate(Rounded(x, up, env))
    case Bin(op, l, r) => Combine(op, Rounded(l, up, env), Rounded(r, up, env))
    case Cmp(_, _, _) => Value(e, env)
  }

  lemma {:induction false} RoundedIsTruth(e: Expr, up: bool, env: Env)
    ensures Rounded(e, up, env) != MOD
  {
    match e
    case Not(x) => RoundedIsTruth(x, up, env);
    case Bin(_, l, r) => RoundedIsTruth(l, up, env); RoundedIsTruth(r, up, env);
    case _ =>
  }

  /** expr_trans_compare yields the truth of the comparison for the rounded value: m counts as y in
      a comparison with n, and as n in one with y. */
  lemma {:induction false} TransCompareRounds(e: Expr, negated: bool, to: Symbol, env: Env)
    requires to == SymYes || to == SymNo
    ensures Value(TransCompare(e, negated, to), env)
         == Truth((Rounded(e, to == SymNo, env) == Constant(to)) != negated)
  {
    match e
    case Sym(s) => TextTest(s, to, env);
    case Cmp(_, _, _) =>
    case Not(x) => TransCompareRounds(x, !negated, to, env); RoundedIsTruth(x, to == SymNo, env);
    case Bin(op, l, r) =>
      TransCompareRounds(l, false, to, env);
      TransCompareRounds(r, false, to, env);
      RoundedIsTruth(l, to == SymNo, env);
      RoundedIsTruth(r, to == SymNo, env);
  }

  /** Where texts say what values are and no operand of a negation is m, rounding does not show in
      the comparison. */
  lemma {:induction false} RoundingHarmless(e: Expr, up: bool, env: Env)
    requires Valued(e, env) && NegatesNoM(e, env)
    ensures Value(e, env) != MOD ==> Rounded(e, up, env) == Value(e, env)
    ensures Value(e, env) == MOD ==> Rounded(e, up, env) == if up then YES else NO
  {
    match e
    case Not(x) => RoundingHarmless(x, up, env);
    case Bin(_, l, r) => RoundingHarmless(l, up, env); RoundingHarmless(r, up, env);
    case _ =>
  }

  /** The comparison of the expression's value is what comes out exactly when rounding the symbols
      by their texts does not change whether the value is the constant. */
  lemma TransCompareExact(e: Expr, negated: bool, to: Symbol, env: Env)
    requires to == SymYes || to == SymNo
    ensures Value(TransCompare(e, negated, to), env) == Truth((Value(e, env) == Constant(to)) != negated)
       <==> (Rounded(e, to == SymNo, env) == Constant(to) <==> Value(e, env) == Constant(to))
    ensures Valued(e, env) && NegatesNoM(e, env) ==>
              Value(TransCompare(e, negated, to), env) == Truth((Value(e, env) == Constant(to)) != negated)
  {
    TransCompareRounds(e, negated, to, env);
    if Valued(e, env) && NegatesNoM(e, env) { RoundingHarmless(e, to == SymNo, env); }
  }

  /** A symbol alone: always right for bool and tristate symbols and for y, m and n. The value of any
      other symbol is n, so against n its text must be "n", and against y it must not be "y". */
  lemma TransCompareSymbol(s: Symbol, negated: bool, to: Symbol, env: Env)
    requires to == SymYes || to == SymNo
    ensures Value(TransCompare(Sym(s), negated, to), env) == Truth((SymValue(s, env) == Constant(to)) != negated)
       <==> Truthful(s) || if to == SymNo then SymText(s, env) == "n" else SymText(s, env) != "y"
  {
    TextTest(s, to, env);
  }

  /** A negated symbol: besides that, it must not be m: !A=n becomes A!=n, which also holds for A=m,
      where !A is m and not n. */
  lemma TransCompareNegatedSymbol(s: Symbol, negated: bool, to: Symbol, env: Env)
    requires to == SymYes || to == SymNo
    ensures Value(TransCompare(Not(Sym(s)), negated, to), env)
              == Truth((Value(Not(Sym(s)), env) == Constant(to)) != negated)
       <==> if Truthful(s) then SymValue(s, env) != MOD
            else if to == SymNo then SymText(s, env) == "n"
            else SymText(s, env) != "y"
  {
    TextTest(s, to, env);
  }

  /** An undeclared symbol is n, and yet FOO!=n, what expr_trans_compare makes of FOO, is y. */
  lemma UndeclaredBreaksTransCompare()
    ensures var foo := Sym(Config(0, Unknown));
            var env := Env(map[], map[0 := "FOO"], map[], map[]);
            NegatesNoM(foo, env) && Value(foo, env) == NO && Value(TransCompare(foo, true, SymNo), env) == YES
  {
    TextTest(Config(0, Unknown), SymNo, Env(map[], map[0 := "FOO"], map[], map[]));
  }

  // ---- the prepared form of a condition ----

  /** The negation of an && or || in normal form */
  lemma NegateLevel(op: Junction, a: Expr, b: Expr)
    requires Normal(a) && Normal(b)
    ensures Transform(Not(Bin(op, a, b))) == Bin(Dual(op), Transform(Not(a)), Transform(Not(b)))
  {
    NormalUnchanged(Bin(op, a, b));
  }

  lemma NotOfTransform(e: Expr)
    ensures Transform(Not(e)) == Transform(Not(Transform(e)))
  {
    TransformIdempotent(e);
  }

  lemma {:induction false} NegateTwice(e: Expr)
    requires Normal(e)
    ensures Transform(Not(Transform(Not(e)))) == e
  {
    NormalUnchanged(e);
    match e
    case Bin(op, a, b) =>
      NegateTwice(a);
      NegateTwice(b);
      NegateLevel(op, a, b);
      TransformNormal(Not(a));
      TransformNormal(Not(b));
      NegateLevel(Dual(op), Transform(Not(a)), Transform(Not(b)));
    case _ =>
  }

  lemma NotNot(e: Expr)
    ensures Transform(Not(Not(e))) == Transform(e)
  {
    NotOfTransform(e);
    NotOfTransform(Not(e));
    TransformNormal(e);
    NegateTwice(Transform(e));
  }

  /** Comparing the other way round is negating the comparison. */
  lemma {:induction false} CompareOpposite(e: Expr, negated: bool, to: Symbol)
    requires to == SymYes || to == SymNo
    ensures Transform(TransCompare(e, !negated, to)) == Transform(Not(TransCompare(e, negated, to)))
  {
    match e
    case Sym(s) =>
    case Not(x) => CompareOpposite(x, !negated, to);
    case Cmp(_, _, _) => NotNot(e);
    case Bin(op, l, r) =>
      NotNot(Bin(if to == SymYes then op else Dual(op), TransCompare(l, false, to), TransCompare(r, false, to)));
  }

  /** expr_transform(expr_trans_compare(e, E_UNEQUAL, &symbol_no)) */
  function Prepared(e: Expr): Expr { Transform(TransCompare(e, true, SymNo)) }

  /** The prepared form of an && has those of its operands as operands. */
  lemma PreparedAnd(l: Expr, r: Expr)
    ensures Prepared(Bin(And, l, r)) == Bin(And, Prepared(l), Prepared(r))
  {
    var a, b := TransCompare(l, false, SymNo), TransCompare(r, false, SymNo);
    NotOfTransform(Bin(Or, a, b));
    TransformNormal(a);
    TransformNormal(b);
    NegateLevel(Or, Transform(a), Transform(b));
    NotOfTransform(a);
    NotOfTransform(b);
    CompareOpposite(l, false, SymNo);
    CompareOpposite(r, false, SymNo);
  }

  lemma {:induction false} TransCompareNumberFree(e: Expr, negated: bool, to: Symbol, env: Env)
    requires to == SymYes || to == SymNo
    requires NumberFree(e, env)
    ensures NumberFree(TransCompare(e, negated, to), env)
  {
    match e
    case Not(x) => TransCompareNumberFree(x, !negated, to, env);
    case Bin(op, l, r) =>
      TransCompareNumberFree(l, false, to, env);
      TransCompareNumberFree(r, false, to, env);
    case _ =>
  }
}

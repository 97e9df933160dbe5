/** expr_join_or and expr_join_and (nemu/tools/kconfig/expr.c:428-587). */
module Joins {
  import opened Wrappers
  import opened Expressions
  import opened Equality

  /** The symbol the first operand is about, when it has one of the shapes that are joined. */
  function FirstSubject(e: Expr): Option<Symbol> {
    match e
    case Sym(s) => Some(s)
    case Cmp(rel, l, _) => if rel == Equal || rel == Unequal then Some(l) else None
    case Not(Sym(s)) => Some(s)
    case Not(Cmp(rel, l, _)) => if rel == Equal || rel == Unequal then Some(l) else None
    case _ => None
  }

  /** The second operand may be a negated symbol, but not a negated comparison. */
  function SecondSubject(e: Expr): Option<Symbol> {
    match e
    case Not(Cmp(_, _, _)) => None
    case _ => FirstSubject(e)
  }

  predicate Tests(e: Expr, rel: Relation, r: Symbol) { e.Cmp? && e.rel == rel && e.rhs == r }

  /** One operand tests for r, the other for q. */
  predicate BothTest(a: Expr, b: Expr, rel: Relation, r: Symbol, q: Symbol) {
    (Tests(a, rel, r) && Tests(b, rel, q)) || (Tests(a, rel, q) && Tests(b, rel, r))
  }

  /** One operand is the bare symbol, the other tests it for r. */
  predicate SymbolAndTest(a: Expr, b: Expr, rel: Relation, r: Symbol) {
    (a.Sym? && Tests(b, rel, r)) || (b.Sym? && Tests(a, rel, r))
  }

  predicate NegatedSymbol(e: Expr) { e.Not? && e.e.Sym? }

  /** The rewrites of expr_join_or for two different operands about the symbol s. */
  function JoinOrOn(s: Symbol, a: Expr, b: Expr): Option<Expr>
    requires HasTristateValue(s)
  {
    if s.ty == Tristate && BothTest(a, b, Equal, SymYes, SymMod) then Some(Cmp(Unequal, s, SymNo))
    else if s.ty == Tristate && BothTest(a, b, Equal, SymYes, SymNo) then Some(Cmp(Unequal, s, SymMod))
    else if s.ty == Tristate && BothTest(a, b, Equal, SymMod, SymNo) then Some(Cmp(Unequal, s, SymYes))
    else if s.ty == Boolean && ((NegatedSymbol(a) && b.Sym?) || (NegatedSymbol(b) && a.Sym?)) then Some(Sym(SymYes))
    else None
  }

  /** expr_join_or: a single expression for a || b, if there is one. */
  function JoinOr(a: Expr, b: Expr): Option<Expr> {
    if ExprEq(a, b) then Some(a)
    else if FirstSubject(a).None? || FirstSubject(a) != SecondSubject(b) then None
    else if !HasTristateValue(FirstSubject(a).value) then None
    else JoinOrOn(FirstSubject(a).value, a, b)
  }

  /** a = 'k' && a != 'c' for constants k and c */
  function EqualAndUnequal(s: Symbol, k: Symbol, c: Symbol): Expr {
    if k != c then Cmp(Equal, s, k) else Sym(SymNo)
  }

  /** The rewrites of expr_join_and for two different operands about the symbol s. */
  function JoinAndOn(s: Symbol, a: Expr, b: Expr): Option<Expr> {
    if SymbolAndTest(a, b, Equal, SymYes) then Some(Cmp(Equal, s, SymYes))
    else if SymbolAndTest(a, b, Unequal, SymNo) then Some(Sym(s))
    else if SymbolAndTest(a, b, Unequal, SymMod) then Some(Cmp(Equal, s, SymYes))
    else if s.Config? && s.ty == Tristate && a.Cmp? && b.Cmp? then
      if a.rel == Equal && b.rel == Unequal && IsConst(a.rhs) && IsConst(b.rhs) then
        Some(EqualAndUnequal(s, a.rhs, b.rhs))
      else if a.rel == Unequal && b.rel == Equal && IsConst(a.rhs) && IsConst(b.rhs) then
        Some(EqualAndUnequal(s, b.rhs, a.rhs))
      else if BothTest(a, b, Unequal, SymYes, SymNo) then Some(Cmp(Equal, s, SymMod))
      else if BothTest(a, b, Unequal, SymYes, SymMod) then Some(Cmp(Equal, s, SymNo))
      else if BothTest(a, b, Unequal, SymMod, SymNo) then Some(Cmp(Equal, s, SymYes))
      else None
    else None
  }

  /** expr_join_and: a single expression for a && b, if there is one. */
  function JoinAnd(a: Expr, b: Expr): Option<Expr> {
    if ExprEq(a, b) then Some(a)
    else if FirstSubject(a).None? || FirstSubject(a) != SecondSubject(b) then None
    else if !HasTristateValue(FirstSubject(a).value) then None
    else JoinAndOn(FirstSubject(a).value, a, b)
  }

  function Join(op: Junction, a: Expr, b: Expr): Option<Expr> {
    if op == Or then JoinOr(a, b) else JoinAnd(a, b)
  }

  // ---- soundness ----

  /** A comparison with y, m or n holds for exactly one of the three values. */
  lemma TruthTest(t: Tri, number: map<string, int>)
    ensures TriCompare(t, SymYes, number) == 0 <==> t == YES
    ensures TriCompare(t, SymMod, number) == 0 <==> t == MOD
    ensures TriCompare(t, SymNo, number) == 0 <==> t == NO
  {}

  /** A constant is equal to the value it reads as, and to no other. */
  lemma ReadingDecides(t: Tri, c: Symbol, number: map<string, int>)
    requires IsConst(c)
    ensures TriCompare(t, c, number) == 0 <==> Reading(c, number) == Some(t)
  {
    TruthTest(t, number);
    if c.Literal? && c.text !in number { assert Letter(t) != c.text; }
  }

  /** Two constants that are two spellings of one value */
  predicate SameReading(k: Symbol, c: Symbol, number: map<string, int>)
    requires IsConst(k) && IsConst(c)
  {
    Reading(k, number).Some? && Reading(k, number) == Reading(c, number)
  }

  /** What the six tests of a tristate symbol for y, m and n evaluate to. */
  lemma TestValues(s: Symbol, env: Env)
    requires HasTristateValue(s)
    ensures Value(Cmp(Equal, s, SymYes), env) == Truth(SymValue(s, env) == YES)
    ensures Value(Cmp(Equal, s, SymMod), env) == Truth(SymValue(s, env) == MOD)
    ensures Value(Cmp(Equal, s, SymNo), env) == Truth(SymValue(s, env) == NO)
    ensures Value(Cmp(Unequal, s, SymYes), env) == Truth(SymValue(s, env) != YES)
    ensures Value(Cmp(Unequal, s, SymMod), env) == Truth(SymValue(s, env) != MOD)
    ensures Value(Cmp(Unequal, s, SymNo), env) == Truth(SymValue(s, env) != NO)
  {
    TruthTest(SymValue(s, env), env.number);
  }

  lemma JoinOrOnSound(s: Symbol, a: Expr, b: Expr, env: Env)
    requires HasTristateValue(s) && FirstSubject(a) == Some(s) == SecondSubject(b)
    requires JoinOrOn(s, a, b).Some?
    ensures Value(JoinOrOn(s, a, b).value, env) == Combine(Or, Value(a, env), Value(b, env))
  {
    if a.Cmp? {
      assert a == Cmp(Equal, s, a.rhs) && b == Cmp(Equal, s, b.rhs);
      hide FirstSubject, SecondSubject, Value;
      IncludedValues(s, a.rhs, b.rhs, env);
    } else {
      OppositeSymbols(s, a, b, env);
    }
  }

  lemma OppositeSymbols(s: Symbol, a: Expr, b: Expr, env: Env)
    requires HasTristateValue(s) && FirstSubject(a) == Some(s) == SecondSubject(b)
    requires !a.Cmp? && JoinOrOn(s, a, b).Some?
    ensures Value(JoinOrOn(s, a, b).value, env) == Combine(Or, Value(a, env), Value(b, env))
  {
    hide Compare, Holds, BothTest;
    assert JoinOrOn(s, a, b) == Some(Sym(SymYes)) && s.ty == Boolean by {
      assert forall r, q :: !BothTest(a, b, Equal, r, q) by { NoTest(a, b); }
    }
    assert (a == Not(Sym(s)) && b == Sym(s)) || (a == Sym(s) && b == Not(Sym(s)));
  }

  lemma NoTest(a: Expr, b: Expr)
    requires !a.Cmp?
    ensures forall r, q :: !BothTest(a, b, Equal, r, q)
  {}

  lemma JoinOrNumberFree(a: Expr, b: Expr, env: Env)
    requires JoinOr(a, b).Some?
    ensures NumberFree(a, env) ==> NumberFree(JoinOr(a, b).value, env)
  {}

  /** Including two of the three values excludes the third. */
  lemma IncludedValues(s: Symbol, k: Symbol, c: Symbol, env: Env)
    requires HasTristateValue(s)
    ensures var both := Combine(Or, Value(Cmp(Equal, s, k), env), Value(Cmp(Equal, s, c), env));
            && (k in {SymYes, SymMod} && c in {SymYes, SymMod} && k != c ==> both == Value(Cmp(Unequal, s, SymNo), env))
            && (k in {SymYes, SymNo} && c in {SymYes, SymNo} && k != c ==> both == Value(Cmp(Unequal, s, SymMod), env))
            && (k in {SymMod, SymNo} && c in {SymMod, SymNo} && k != c ==> both == Value(Cmp(Unequal, s, SymYes), env))
  {
    TestValues(s, env);
    hide Value;
  }

  /** expr_join_or keeps the value under every assignment. */
  lemma JoinOrSound(a: Expr, b: Expr, env: Env)
    requires JoinOr(a, b).Some?
    ensures Value(JoinOr(a, b).value, env) == Combine(Or, Value(a, env), Value(b, env))
  {
    hide JoinOrOn;
    if ExprEq(a, b) {
      ExprEqSound(a, b, env);
    } else {
      JoinOrOnSound(FirstSubject(a).value, a, b, env);
    }
  }

  /** One operand tests a tristate symbol for a constant, the other excludes another constant that
      is a second spelling of the same value. */
  predicate Misread(a: Expr, b: Expr, number: map<string, int>) {
    && a.Cmp? && b.Cmp? && a.lhs == b.lhs && a.lhs.Config? && a.lhs.ty == Tristate
    && ((a.rel == Equal && b.rel == Unequal) || (a.rel == Unequal && b.rel == Equal))
    && IsConst(a.rhs) && IsConst(b.rhs) && a.rhs != b.rhs && SameReading(a.rhs, b.rhs, number)
  }

  lemma NumberFreeNotMisread(a: Expr, b: Expr, env: Env)
    requires NumberFree(a, env) && NumberFree(b, env)
    ensures !Misread(a, b, env.number)
  {}

  lemma EqualAndUnequalSound(s: Symbol, k: Symbol, c: Symbol, env: Env)
    requires HasTristateValue(s) && IsConst(k) && IsConst(c)
    requires k != c ==> !SameReading(k, c, env.number)
    ensures Value(EqualAndUnequal(s, k, c), env)
         == Combine(And, Value(Cmp(Equal, s, k), env), Value(Cmp(Unequal, s, c), env))
  {
    ReadingDecides(SymValue(s, env), k, env.number);
    ReadingDecides(SymValue(s, env), c, env.number);
    hide TriCompare, Reading;
  }

  lemma JoinAndOnSound(s: Symbol, a: Expr, b: Expr, env: Env)
    requires HasTristateValue(s) && FirstSubject(a) == Some(s) == SecondSubject(b)
    requires JoinAndOn(s, a, b).Some? && !Misread(a, b, env.number)
    ensures Value(JoinAndOn(s, a, b).value, env) == Combine(And, Value(a, env), Value(b, env))
  {
    if a.Cmp? && b.Cmp? {
      JoinTestsSound(s, a, b, env);
    } else {
      TestValues(s, env);
      hide Compare, Holds;
    }
  }

  lemma JoinTestsSound(s: Symbol, a: Expr, b: Expr, env: Env)
    requires HasTristateValue(s) && a.Cmp? && b.Cmp? && a.lhs == s == b.lhs
    requires a.rel == Equal || a.rel == Unequal
    requires b.rel == Equal || b.rel == Unequal
    requires JoinAndOn(s, a, b).Some? && !Misread(a, b, env.number)
    ensures Value(JoinAndOn(s, a, b).value, env) == Combine(And, Value(a, env), Value(b, env))
  {
    if a.rel == Equal && b.rel == Unequal {
      hide Value;
      EqualAndUnequalSound(s, a.rhs, b.rhs, env);
      assert a == Cmp(Equal, s, a.rhs) && b == Cmp(Unequal, s, b.rhs);
    } else if a.rel == Unequal && b.rel == Equal {
      hide Value;
      EqualAndUnequalSound(s, b.rhs, a.rhs, env);
      assert a == Cmp(Unequal, s, a.rhs) && b == Cmp(Equal, s, b.rhs);
    } else {
      ExcludedValues(s, a.rhs, b.rhs, env);
      hide Value;
      assert a == Cmp(Unequal, s, a.rhs) && b == Cmp(Unequal, s, b.rhs);
    }
  }

  /** Excluding two of the three values leaves the third. */
  lemma ExcludedValues(s: Symbol, k: Symbol, c: Symbol, env: Env)
    requires HasTristateValue(s)
    ensures var both := Combine(And, Value(Cmp(Unequal, s, k), env), Value(Cmp(Unequal, s, c), env));
            && (k in {SymYes, SymNo} && c in {SymYes, SymNo} && k != c ==> both == Value(Cmp(Equal, s, SymMod), env))
            && (k in {SymYes, SymMod} && c in {SymYes, SymMod} && k != c ==> both == Value(Cmp(Equal, s, SymNo), env))
            && (k in {SymMod, SymNo} && c in {SymMod, SymNo} && k != c ==> both == Value(Cmp(Equal, s, SymYes), env))
  {
    TestValues(s, env);
    hide Value;
  }

  /** expr_join_and keeps the value under every assignment in which it does not take two spellings
      of one value for different values. */
  lemma JoinAndSound(a: Expr, b: Expr, env: Env)
    requires JoinAnd(a, b).Some? && !Misread(a, b, env.number)
    ensures Value(JoinAnd(a, b).value, env) == Combine(And, Value(a, env), Value(b, env))
  {
    hide JoinAndOn;
    if ExprEq(a, b) {
      ExprEqSound(a, b, env);
    } else {
      JoinAndOnSound(FirstSubject(a).value, a, b, env);
    }
  }

  /** What comes out of a join tests only for constants that went in, or for y, m or n. */
  lemma JoinAndNumberFree(a: Expr, b: Expr, env: Env)
    requires JoinAnd(a, b).Some? && NumberFree(a, env) && NumberFree(b, env)
    ensures NumberFree(JoinAnd(a, b).value, env)
  {}

  lemma JoinSound(op: Junction, a: Expr, b: Expr, env: Env)
    requires Join(op, a, b).Some? && NumberFree(a, env) && NumberFree(b, env)
    ensures Value(Join(op, a, b).value, env) == Combine(op, Value(a, env), Value(b, env))
    ensures NumberFree(Join(op, a, b).value, env)
  {
    if op == Or {
      JoinOrSound(a, b, env);
      JoinOrNumberFree(a, b, env);
    } else {
      NumberFreeNotMisread(a, b, env);
      JoinAndSound(a, b, env);
      JoinAndNumberFree(a, b, env);
    }
  }

  // ---- where the join is wrong ----

  /** Whatever expr_join_and returns is right for all values of the symbols exactly when it does
      not take two spellings of one value for different values. */
  lemma JoinAndExact(a: Expr, b: Expr, number: map<string, int>)
    requires JoinAnd(a, b).Some?
    ensures (forall env: Env | env.number == number ::
               Value(JoinAnd(a, b).value, env) == Combine(And, Value(a, env), Value(b, env)))
            <==> !Misread(a, b, number)
  {
    if Misread(a, b, number) {
      var t := Reading(a.rhs, number).value;
      var env := Env(map[a.lhs.id := t], map[], map[], number);
      MisreadBreaksJoin(a, b, t, env);
    } else {
      forall env: Env | env.number == number
        ensures Value(JoinAnd(a, b).value, env) == Combine(And, Value(a, env), Value(b, env))
      {
        JoinAndSound(a, b, env);
      }
    }
  }

  lemma MisreadBreaksJoin(a: Expr, b: Expr, t: Tri, env: Env)
    requires JoinAnd(a, b).Some? && Misread(a, b, env.number)
    requires SymValue(a.lhs, env) == t && Reading(a.rhs, env.number) == Some(t)
    ensures Value(JoinAnd(a, b).value, env) == YES && Combine(And, Value(a, env), Value(b, env)) == NO
  {
    var k, c := if a.rel == Equal then a.rhs else b.rhs, if a.rel == Equal then b.rhs else a.rhs;
    ReadingDecides(t, k, env.number);
    ReadingDecides(t, c, env.number);
    hide TriCompare, Reading;
    assert Value(Cmp(Equal, a.lhs, k), env) == YES && Value(Cmp(Unequal, a.lhs, c), env) == NO;
    if ExprEq(a, b) { ExprEqSound(a, b, env); }
  }

  /** The one clause behind this: a='k' && a!='c' becomes a='k' for k != c. */
  lemma EqualAndUnequalExact(id: nat, k: Symbol, c: Symbol, number: map<string, int>)
    requires IsConst(k) && IsConst(c) && k != c
    ensures (forall env: Env | env.number == number ::
               var s := Config(id, Tristate);
               Value(EqualAndUnequal(s, k, c), env)
                 == Combine(And, Value(Cmp(Equal, s, k), env), Value(Cmp(Unequal, s, c), env)))
            <==> !SameReading(k, c, number)
  {
    var s := Config(id, Tristate);
    if SameReading(k, c, number) {
      var t := Reading(k, number).value;
      var env := Env(map[id := t], map[], map[], number);
      assert SymValue(s, env) == t;
      ReadingDecides(t, k, number);
      ReadingDecides(t, c, number);
      assert Value(EqualAndUnequal(s, k, c), env) == YES;
      assert Value(Cmp(Unequal, s, c), env) == NO;
    } else {
      forall env: Env | env.number == number
        ensures Value(EqualAndUnequal(s, k, c), env)
             == Combine(And, Value(Cmp(Equal, s, k), env), Value(Cmp(Unequal, s, c), env))
      {
        EqualAndUnequalSound(s, k, c, env);
      }
    }
  }

  /** With '2' read as a number, A='y' && A!='2' is joined into A='y', although it is n
      for every value of A that satisfies A='y'. */
  lemma NumericLiteralBreaksJoin()
    ensures var s := Config(0, Tristate);
            var env := Env(map[0 := YES], map[], map[], map["2" := 2]);
            var a, b := Cmp(Equal, s, SymYes), Cmp(Unequal, s, Literal("2"));
            JoinAnd(a, b) == Some(a) && Value(a, env) == YES && Value(Bin(And, a, b), env) == NO
  {}

  // ---- what is joined ----

  /** k, c and d are y, m and n in some order. */
  predicate ThreeValues(k: Symbol, c: Symbol, d: Symbol) {
    IsTruth(k) && IsTruth(c) && IsTruth(d) && k != c && k != d && c != d
  }

  /** Two tests of a tristate symbol for two of the three values become one for the third. */
  lemma TestsJoin(s: Symbol, k: Symbol, c: Symbol, d: Symbol)
    requires s.Config? && s.ty == Tristate && ThreeValues(k, c, d)
    ensures JoinOr(Cmp(Equal, s, k), Cmp(Equal, s, c)) == Some(Cmp(Unequal, s, d))
    ensures JoinAnd(Cmp(Unequal, s, k), Cmp(Unequal, s, c)) == Some(Cmp(Equal, s, d))
  {}

  /** A test for one constant goes with one against another; against the same nothing is left. */
  lemma OppositeTestsJoin(s: Symbol, k: Symbol, c: Symbol)
    requires s.Config? && s.ty == Tristate && IsConst(k) && IsConst(c)
    ensures var joined := Some(if k == c then Sym(SymNo) else Cmp(Equal, s, k));
            && JoinAnd(Cmp(Equal, s, k), Cmp(Unequal, s, c)) == joined
            && JoinAnd(Cmp(Unequal, s, c), Cmp(Equal, s, k)) == joined
  {}

  /** A symbol goes with a test of itself. */
  lemma SymbolJoinsTest(s: Symbol)
    requires HasTristateValue(s)
    ensures var yes := Cmp(Equal, s, SymYes);
            && JoinAnd(Sym(s), yes) == Some(yes) == JoinAnd(yes, Sym(s))
            && JoinAnd(Sym(s), Cmp(Unequal, s, SymMod)) == Some(yes) == JoinAnd(Cmp(Unequal, s, SymMod), Sym(s))
            && JoinAnd(Sym(s), Cmp(Unequal, s, SymNo)) == Some(Sym(s)) == JoinAnd(Cmp(Unequal, s, SymNo), Sym(s))
  {}

  /** A bool symbol goes with its negation. */
  lemma ComplementJoins(s: Symbol)
    requires s.Config? && s.ty == Boolean
    ensures JoinOr(Sym(s), Not(Sym(s))) == Some(Sym(SymYes)) == JoinOr(Not(Sym(s)), Sym(s))
  {}
}

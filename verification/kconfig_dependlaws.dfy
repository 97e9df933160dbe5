/** The test for automatic submenus may miss an operand of the prompt's condition that expr_eliminate_dups
    joins with another one (nemu/tools/kconfig/menu.c:456-491). */
module SubmenuLaws {
  import opened Wrappers
  import opened Expressions
  import opened Equality
  import opened Identity
  import opened Joins
  import opened Paths
  import opened Duplicates
  import opened Shapes
  import opened Transformation
  import opened Dependencies

  const FOO := Config(0, Tristate)
  const BAR := Config(1, Tristate)

  /** FOO!=m, the condition of BAR's prompt, and FOO=n && FOO!=m && BAR=n, which has it among its operands:
      but FOO=n && FOO!=m is joined to FOO=n first. */
  const ON_PROMPT := Cmp(Unequal, FOO, SymMod)
  const ON_ENTRY := Bin(And, Bin(And, Cmp(Equal, FOO, SymNo), ON_PROMPT), Cmp(Equal, BAR, SymNo))

  lemma PreparedExample()
    ensures Prepared(ON_PROMPT) == ON_PROMPT && Prepared(ON_ENTRY) == ON_ENTRY
  {
    PreparedAnd(ON_ENTRY.left.left, ON_PROMPT);
    PreparedAnd(ON_ENTRY.left, ON_ENTRY.right);
  }

  /** The assignment with these values of FOO and BAR */
  function With(foo: Tri, bar: Tri): Env { Env(map[0 := foo, 1 := bar], map[], map[], map[]) }

  /** One test does not tell that both are n. */
  lemma OneTestIsTooFew(x: Expr)
    requires Size(x) <= 2 && !x.Bin?
    ensures Value(x, With(NO, NO)) in {Value(x, With(YES, NO)), Value(x, With(NO, YES)), Value(x, With(YES, YES))}
  {
    var test := if x.Not? then x.e else x;
    if test.Cmp? { OneComparisonIsTooFew(test.lhs, test.rhs); }
  }

  lemma OneComparisonIsTooFew(l: Symbol, r: Symbol)
    ensures Compare(l, r, With(NO, NO))
         in {Compare(l, r, With(YES, NO)), Compare(l, r, With(NO, YES)), Compare(l, r, With(YES, YES))}
  {
    if !IsNumber(l, 0) && !IsNumber(r, 0) {
      ComparedAlike(l, r, With(NO, NO), With(YES, NO));
    } else if !IsNumber(l, 1) && !IsNumber(r, 1) {
      ComparedAlike(l, r, With(NO, NO), With(NO, YES));
    } else {
      assert Compare(l, r, With(NO, NO)) == 0 == Compare(l, r, With(YES, YES));
    }
  }

  predicate IsNumber(s: Symbol, id: nat) { s.Config? && s.id == id }

  lemma ComparedAlike(l: Symbol, r: Symbol, e: Env, f: Env)
    requires SymValue(l, e) == SymValue(l, f) && SymText(l, e) == SymText(l, f)
    requires SymValue(r, e) == SymValue(r, f) && SymText(r, e) == SymText(r, f)
    requires e.number == f.number && e.order == f.order
    ensures Compare(l, r, e) == Compare(l, r, f)
  {
    hide SymValue, SymText, CompareReadings, TriCompare;
  }

  lemma JoinedInEntry()
    ensures !JoinFree(ON_ENTRY)
  {
    var p, q := [false, false], [false, true];
    assert p[1..] == [false] && q[1..] == [true];
    assert Leaf(And, ON_ENTRY, p) && Leaf(And, ON_ENTRY, q);
    OppositeTestsJoin(FOO, SymNo, SymMod);
    assert !JoinFreePair(And, ON_ENTRY, p, q);
  }

  lemma Values(foo: Tri, bar: Tri)
    ensures Value(ON_ENTRY, With(foo, bar)) == if foo == NO && bar == NO then YES else NO
    ensures Value(ON_PROMPT, With(foo, bar)) == if foo == MOD then NO else YES
    ensures NumberFree(ON_ENTRY, With(foo, bar))
  {}

  lemma Shortened(test: Expr)
    requires Simplified(Some(ON_ENTRY), test)
    ensures Clean(test) && Size(test) < 5
    ensures forall foo, bar :: Value(test, With(foo, bar)) == if foo == NO && bar == NO then YES else NO
  {
    PreparedExample();
    JoinedInEntry();
    assert PreparedOf(Some(ON_ENTRY)) == ON_ENTRY && Size(ON_ENTRY) == 5;
    assert Stands(ON_ENTRY, test) && !HasYn(test) && Normal(test) && Size(test) < 5;
    hide *;
    NormalClean(test);
    forall foo, bar ensures Value(test, With(foo, bar)) == if foo == NO && bar == NO then YES else NO {
      Values(foo, bar);
      SameValue(ON_ENTRY, test, With(foo, bar));
    }
  }

  lemma SameValue(a: Expr, b: Expr, env: Env)
    requires Stands(a, b) && NumberFree(a, env)
    ensures Value(a, env) == Value(b, env)
  {}

  /** What stands beside FOO!=m in an && that says that both are n takes more than one test. */
  lemma BesidePrompt(test: Expr, x: Expr)
    requires test == Bin(And, x, ON_PROMPT) || test == Bin(And, ON_PROMPT, x)
    requires forall foo, bar :: Value(test, With(foo, bar)) == if foo == NO && bar == NO then YES else NO
    ensures Size(test) >= 5
  {
    if Size(test) < 5 {
      forall foo, bar | foo != MOD ensures Value(x, With(foo, bar)) == if foo == NO && bar == NO then YES else NO {
        Values(foo, bar);
        assert Value(test, With(foo, bar)) == Combine(And, Value(x, With(foo, bar)), Value(ON_PROMPT, With(foo, bar)));
      }
      hide Value, With;
      OneTestIsTooFew(x);
    }
  }

  /** A short && is one of two operands without others in them. */
  lemma ShortLevel(test: Expr, x: Expr)
    requires IsOp(test, And) && Size(test) < 5 && x.Cmp? && ShapeOf(x) in Operands(And, test)
    ensures test == Bin(And, x, test.right) || test == Bin(And, test.left, x)
  {
    assert !test.left.Bin? && !test.right.Bin?;
    assert ShapeOf(x) == ShapeOf(test.left) || ShapeOf(x) == ShapeOf(test.right);
  }

  lemma OperandLost(test: Expr)
    requires Simplified(Some(ON_ENTRY), test)
    ensures !(IsOp(test, And) && Operands(And, ON_PROMPT) <= Operands(And, test))
  {
    Shortened(test);
    assert Operands(And, ON_PROMPT) == multiset{ShapeOf(ON_PROMPT)} && ON_PROMPT.Cmp?;
    hide *;
    if IsOp(test, And) && ShapeOf(ON_PROMPT) in Operands(And, test) {
      ShortLevel(test, ON_PROMPT);
      BesidePrompt(test, if test == Bin(And, ON_PROMPT, test.right) then test.right else test.left);
    }
  }

  lemma EntryMeaning()
    ensures ContainsSymbol(ON_ENTRY, BAR) && AllAmong(Some(ON_PROMPT), ON_ENTRY)
    ensures !exists x :: x in Leaves(And, ON_ENTRY) && Direct(x, BAR)
  {
    var first, last := Cmp(Equal, FOO, SymNo), Cmp(Equal, BAR, SymNo);
    assert Leaves(And, ON_ENTRY.left) == [first, ON_PROMPT];
    assert Leaves(And, ON_ENTRY) == [first, ON_PROMPT, last];
    assert Leaves(And, ON_PROMPT) == [ON_PROMPT];
  }

  lemma PromptStays(base: Expr)
    requires Simplified(Some(ON_PROMPT), base)
    ensures base == ON_PROMPT && base != Sym(SymYes) && Clean(base)
  {
    PreparedExample();
  }

  /** So an entry need not be put below a symbol although it mentions the symbol and has the whole condition
      of the symbol's prompt among its operands. */
  method LostCondition() returns (below: bool)
    ensures !below && ContainsSymbol(ON_ENTRY, BAR) && AllAmong(Some(ON_PROMPT), ON_ENTRY)
  {
    ghost var test, base;
    EntryMeaning();
    hide *;
    below, test, base := GoesBelow(BAR, Some(ON_PROMPT), Some(ON_ENTRY));
    PromptStays(base);
    Shortened(test);
    OperandLost(test);
  }
}

/** What menu_finalize does to dependency expressions and asks of them
    (nemu/tools/kconfig/menu.c:78-105, 350-360 and 456-491; expr.c:851-906). */
module Dependencies {
  import opened Wrappers
  import opened Expressions
  import opened Equality
  import opened Transformation
  import opened Duplicates
  import opened Identity
  import opened Shapes

  // ---- expr_contains_symbol, expr_depends_symbol ----

  predicate ContainsSymbol(e: Expr, s: Symbol) {
    match e
    case Sym(t) => t == s
    case Not(x) => ContainsSymbol(x, s)
    case Bin(_, l, r) => ContainsSymbol(l, s) || ContainsSymbol(r, s)
    case Cmp(_, l, r) => l == s || r == s
  }

  predicate DependsSymbol(e: Expr, s: Symbol) {
    match e
    case Bin(And, l, r) => DependsSymbol(l, s) || DependsSymbol(r, s)
    case Sym(t) => t == s
    case Cmp(Equal, l, r) => l == s && (r == SymYes || r == SymMod)
    case Cmp(Unequal, l, r) => l == s && r == SymNo
    case _ => false
  }

  /** The two assignments differ in nothing but s. */
  ghost predicate AgreeExcept(s: Symbol, a: Env, b: Env) {
    && (forall t | t != s :: SymValue(t, a) == SymValue(t, b))
    && (forall l, r | l != s && r != s :: Compare(l, r, a) == Compare(l, r, b))
  }

  lemma {:induction false} ValueWithoutSymbol(e: Expr, s: Symbol, a: Env, b: Env)
    requires !ContainsSymbol(e, s) && AgreeExcept(s, a, b)
    ensures Value(e, a) == Value(e, b)
  {
    match e
    case Not(x) => ValueWithoutSymbol(x, s, a, b);
    case Bin(_, l, r) => ValueWithoutSymbol(l, s, a, b); ValueWithoutSymbol(r, s, a, b);
    case _ =>
  }

  /** A symbol's text is "n": for a bool or tristate symbol that means that it is n. */
  predicate Off(s: Symbol, env: Env) { SymText(s, env) == "n" }

  lemma OffMeaning(s: Symbol, env: Env)
    ensures Off(s, env) ==> SymValue(s, env) == NO
    ensures Truthful(s) && SymValue(s, env) == NO ==> Off(s, env)
  {}

  /** An "absolute" dependency: nothing is left of e when the symbol is off. */
  lemma {:induction false} DependsSymbolSound(e: Expr, s: Symbol, env: Env)
    requires DependsSymbol(e, s)
    ensures ContainsSymbol(e, s)
    ensures Off(s, env) ==> Value(e, env) == NO
    ensures Truthful(s) && SymValue(s, env) == NO ==> Value(e, env) == NO
  {
    OffMeaning(s, env);
    match e
    case Bin(_, l, r) =>
      DependsSymbolSound(if DependsSymbol(l, s) then l else r, s, env);
    case Cmp(_, _, _) => TruthTests(s, env);
    case Sym(_) =>
  }

  lemma TruthTests(s: Symbol, env: Env)
    ensures Off(s, env) ==>
              Compare(s, SymYes, env) != 0 && Compare(s, SymMod, env) != 0 && Compare(s, SymNo, env) == 0
  {}

  /** Every expression that is found to depend on s is n. */
  ghost predicate DependentsGone(s: Symbol, env: Env) {
    forall e | DependsSymbol(e, s) :: Value(e, env) == NO
  }

  /** That is so exactly when the symbol is off, whatever its type. */
  lemma DependsSymbolExact(s: Symbol, env: Env)
    ensures DependentsGone(s, env) <==> Off(s, env)
  {
    if Off(s, env) {
      forall e | DependsSymbol(e, s) ensures Value(e, env) == NO {
        DependsSymbolSound(e, s, env);
      }
    } else {
      TextTest(s, SymNo, env);
      var test := Cmp(Unequal, s, SymNo);
      assert DependsSymbol(test, s) && Value(test, env) == YES;
    }
  }

  /** A string symbol with the text "y" is n, and S=y, which is found to depend on it, is y. */
  lemma TextBreaksDependsSymbol()
    ensures var s, env := Config(0, Text), Env(map[], map[0 := "y"], map[], map[]);
            var e := Cmp(Equal, s, SymYes);
            DependsSymbol(e, s) && SymValue(s, env) == NO && Value(e, env) == YES
  {
    TextTest(Config(0, Text), SymYes, Env(map[], map[0 := "y"], map[], map[]));
  }

  /** The tests of a symbol that expr_depends_symbol looks for */
  predicate Direct(x: Expr, s: Symbol) {
    x in {Sym(s), Cmp(Equal, s, SymYes), Cmp(Equal, s, SymMod), Cmp(Unequal, s, SymNo)}
  }

  /** It finds one exactly if it is an operand of the outermost &&, in whatever grouping. */
  lemma {:induction false} DependsSymbolFinds(e: Expr, s: Symbol)
    ensures DependsSymbol(e, s) <==> exists x :: x in Leaves(And, e) && Direct(x, s)
  {
    match e
    case Bin(And, l, r) =>
      DependsSymbolFinds(l, s);
      DependsSymbolFinds(r, s);
    case _ =>
      assert Leaves(And, e) == [e] && e in Leaves(And, e);
      assert DependsSymbol(e, s) <==> Direct(e, s);
  }

  /** A symbol is contained where it stands for itself or on either side of a comparison, at any depth. */
  lemma {:induction false} ContainsSymbolFinds(e: Expr, s: Symbol)
    ensures ContainsSymbol(e, s) <==> exists x :: Occurs(x, e) && Shows(x, s)
  {
    match e
    case Not(a) =>
      ContainsSymbolFinds(a, s);
      assert forall x :: Occurs(x, e) <==> x == e || Occurs(x, a);
    case Bin(_, l, r) =>
      ContainsSymbolFinds(l, s);
      ContainsSymbolFinds(r, s);
      assert forall x :: Occurs(x, e) <==> x == e || Occurs(x, l) || Occurs(x, r);
    case _ =>
      OccursInAtom(e);
      assert ContainsSymbol(e, s) <==> Shows(e, s);
  }

  predicate Shows(x: Expr, s: Symbol) { x == Sym(s) || (x.Cmp? && (x.lhs == s || x.rhs == s)) }

  // ---- rewrite_m ----

  function RewriteM(e: Expr, modules: Symbol): Expr {
    match e
    case Not(x) => Not(RewriteM(x, modules))
    case Bin(op, l, r) => Bin(op, RewriteM(l, modules), RewriteM(r, modules))
    case Sym(SymMod) => Bin(And, e, Sym(modules))
    case _ => e
  }

  /** The expression with every constant m replaced by c. */
  function ReplaceM(e: Expr, c: Symbol): Expr {
    match e
    case Not(x) => Not(ReplaceM(x, c))
    case Bin(op, l, r) => Bin(op, ReplaceM(l, c), ReplaceM(r, c))
    case Sym(SymMod) => Sym(c)
    case _ => e
  }

  /** rewrite_m leaves the constant m alone while modules are enabled and makes it n when
      they are not. */
  lemma {:induction false} RewriteMMeaning(e: Expr, modules: Symbol, env: Env)
    ensures Value(RewriteM(e, modules), env)
         == Value(ReplaceM(e, if SymValue(modules, env) == NO then SymNo else SymMod), env)
  {
    match e
    case Not(x) => RewriteMMeaning(x, modules, env);
    case Bin(_, l, r) => RewriteMMeaning(l, modules, env); RewriteMMeaning(r, modules, env);
    case _ =>
  }

  // ---- propagating a parent's dependency to a child ----

  /** expr_alloc_and: NULL stands for y. */
  function AllocAnd(a: Option<Expr>, b: Option<Expr>): Option<Expr> {
    match (a, b)
    case (None, _) => b
    case (_, None) => a
    case (Some(x), Some(y)) => Some(Bin(And, x, y))
  }

  function MapOption(e: Option<Expr>, f: Expr -> Expr): Option<Expr> {
    match e
    case None => None
    case Some(x) => Some(f(x))
  }

  predicate NormalOf(e: Option<Expr>) { e.None? || Normal(e.value) }

  predicate NumberFreeOf(e: Option<Expr>, env: Env) { e.None? || NumberFree(e.value, env) }

  /** expr_eliminate_dups(expr_transform(e)) and the like, on a possibly missing expression. */
  method Simplify(e: Option<Expr>) returns (r: Option<Expr>)
    ensures r.None? <==> e.None?
    ensures e.Some? ==> Stands(e.value, r.value) && JoinFree(r.value) && (Normal(e.value) ==> Normal(r.value))
  {
    match e
    case None => r := None;
    case Some(x) =>
      var simplifier := new Simplifier(x);
      simplifier.EliminateDups();
      r := Some(simplifier.root);
  }

  /** The new dependency of a child menu: its own one, limited by its parent's
      (menu.c:356-360, and in the same way for a property in menu.c:400-403). */
  method PropagateDependency(parentDep: Option<Expr>, dep: Option<Expr>, modules: Symbol) returns (r: Option<Expr>)
    ensures forall env: Env | NumberFreeOf(parentDep, env) && NumberFreeOf(dep, env) ::
              ValueOf(r, env) == Combine(And, ValueOf(parentDep, env),
                                         ValueOf(MapOption(dep, x => RewriteM(x, modules)), env))
    ensures r.Some? ==> JoinFree(r.value)
    ensures NormalOf(parentDep) ==> NormalOf(r)
  {
    var base := MapOption(dep, x => RewriteM(x, modules));
    base := MapOption(base, x => Transform(x));
    base := AllocAnd(parentDep, base);
    r := Simplify(base);
    if dep.Some? {
      TransformNormal(RewriteM(dep.value, modules));
      TransformStands(RewriteM(dep.value, modules));
      forall env: Env | NumberFreeOf(dep, env)
        ensures NumberFree(RewriteM(dep.value, modules), env)
      {
        RewriteMNumberFree(dep.value, modules, env);
      }
    }
  }

  /** The new condition of a property of a child menu (menu.c:400-406). For a symbol that is not
      tristate expr_trans_bool follows: "is n" is kept, because the dependency of the menu, which
      went the same way, is in normal form. */
  method PropagateCondition(menuDep: Option<Expr>, condition: Option<Expr>, modules: Symbol, isTristate: bool)
    returns (r: Option<Expr>)
    requires NormalOf(menuDep)
    ensures isTristate ==> NormalOf(r)
    ensures forall env: Env | NumberFreeOf(menuDep, env) && NumberFreeOf(condition, env) ::
              var wanted := Combine(And, ValueOf(menuDep, env),
                                    ValueOf(MapOption(condition, x => RewriteM(x, modules)), env));
              if isTristate then ValueOf(r, env) == wanted
              else (ValueOf(r, env) == NO <==> wanted == NO) && ValueOf(r, env) <= wanted
  {
    r := PropagateDependency(menuDep, condition, modules);
    if !isTristate {
      ghost var before := r;
      r := MapOption(r, x => TransBool(x));
      if before.Some? {
        forall env: Env
          ensures Value(r.value, env) == NO <==> Value(before.value, env) == NO
          ensures Value(r.value, env) <= Value(before.value, env)
        {
          NormalNegatesNoTest(before.value, env);
          TransBoolKeepsNo(before.value, env);
        }
      }
    }
  }

  lemma {:induction false} RewriteMNumberFree(e: Expr, modules: Symbol, env: Env)
    requires NumberFree(e, env)
    ensures NumberFree(RewriteM(e, modules), env)
  {
    match e
    case Not(x) => RewriteMNumberFree(x, modules, env);
    case Bin(_, l, r) => RewriteMNumberFree(l, modules, env); RewriteMNumberFree(r, modules, env);
    case _ =>
  }

  // ---- automatic submenus ----

  /** Whether e is not n when every symbol counts as y unless its text is "n". */
  predicate RoundsUp(e: Option<Expr>, env: Env) { e.None? || Rounded(e.value, true, env) != NO }

  /** Texts say what values are, and no operand of a negation is m. */
  predicate Plain(e: Option<Expr>, env: Env) { e.None? || (Valued(e.value, env) && NegatesNoM(e.value, env)) }

  /** There, that is whether e is not n. */
  lemma RoundsUpMeaning(e: Option<Expr>, env: Env)
    requires Plain(e, env)
    ensures RoundsUp(e, env) <==> ValueOf(e, env) != NO
  {
    if e.Some? { RoundingHarmless(e.value, true, env); }
  }

  /** expr_trans_compare(e, E_UNEQUAL, &symbol_no), then expr_transform and
      expr_eliminate_dups: y where e, rounded, is not n, and n where it is. */
  method VisibleTest(e: Option<Expr>) returns (r: Expr)
    ensures forall env: Env | NumberFreeOf(e, env) :: Value(r, env) == Truth(RoundsUp(e, env))
    ensures forall env: Env | NumberFreeOf(e, env) && Plain(e, env) ::
              Value(r, env) == Truth(ValueOf(e, env) != NO)
    ensures Simplified(e, r)
    ensures JoinFree(PreparedOf(e)) ==> r == PreparedOf(e)
  {
    var test := TransCompareOpt(e, true, SymNo);
    var simplifier := new Simplifier(Transform(test));
    simplifier.EliminateDups();
    r := simplifier.root;
    TransformStands(test);
    TransformNormal(test);
    forall env: Env | NumberFreeOf(e, env)
      ensures Value(r, env) == Truth(RoundsUp(e, env))
    {
      if e.Some? {
        TransCompareRounds(e.value, true, SymNo, env);
        TransCompareNumberFree(e.value, true, SymNo, env);
      }
    }
    forall env: Env | Plain(e, env)
      ensures RoundsUp(e, env) <==> ValueOf(e, env) != NO
    {
      RoundsUpMeaning(e, env);
    }
  }

  function PreparedOf(e: Option<Expr>): Expr { if e.None? then Sym(SymYes) else Prepared(e.value) }

  /** expr_eliminate_dups finds nothing to do on the prepared condition. */
  ghost predicate NothingJoins(e: Option<Expr>) { JoinFree(PreparedOf(e)) && Clean(PreparedOf(e)) }

  /** The operands of the prepared forms of some conditions, taken together */
  function AllPrepared(s: seq<Expr>): multiset<Shape> {
    if s == [] then multiset{} else Operands(And, Prepared(s[0])) + AllPrepared(s[1..])
  }

  lemma {:induction false} AllPreparedAppend(s: seq<Expr>, t: seq<Expr>)
    ensures AllPrepared(s + t) == AllPrepared(s) + AllPrepared(t)
  {
    if s == [] {
      assert s + t == t;
    } else {
      assert (s + t)[1..] == s[1..] + t;
      AllPreparedAppend(s[1..], t);
    }
  }

  lemma {:induction false} PreparedOperands(e: Expr)
    ensures Operands(And, Prepared(e)) == AllPrepared(Leaves(And, e))
    ensures IsOp(e, And) ==> IsOp(Prepared(e), And)
  {
    if IsOp(e, And) {
      PreparedOperands(e.left);
      PreparedOperands(e.right);
      PreparedAnd(e.left, e.right);
      AllPreparedAppend(Leaves(And, e.left), Leaves(And, e.right));
    } else {
      assert Leaves(And, e) == [e];
      assert AllPrepared([e]) == Operands(And, Prepared(e)) + AllPrepared([]);
    }
  }

  lemma {:induction false} AllPreparedWithin(s: seq<Expr>, t: seq<Expr>)
    requires multiset(s) <= multiset(t)
    ensures AllPrepared(s) <= AllPrepared(t)
  {
    if s != [] {
      assert s[0] in multiset(s) && s[0] in t;
      var k :| 0 <= k < |t| && t[k] == s[0];
      var rest := t[..k] + t[k + 1..];
      WithoutOne(s, 0);
      WithoutOne(t, k);
      assert s[..0] + s[1..] == s[1..];
      LessOne(s[0], multiset(s[1..]), multiset(rest));
      AllPreparedWithin(s[1..], rest);
      AllPreparedWithout(t, k);
    }
  }

  lemma WithoutOne<T>(t: seq<T>, k: nat)
    requires k < |t|
    ensures multiset(t) == multiset{t[k]} + multiset(t[..k] + t[k + 1..])
  {
    assert t == t[..k] + [t[k]] + t[k + 1..];
  }

  lemma LessOne<T>(x: T, s: multiset<T>, t: multiset<T>)
    requires multiset{x} + s <= multiset{x} + t
    ensures s <= t
  {
    forall y ensures s[y] <= t[y] {
      assert (multiset{x} + s)[y] <= (multiset{x} + t)[y];
    }
  }

  lemma AllPreparedWithout(t: seq<Expr>, k: nat)
    requires k < |t|
    ensures AllPrepared(t) == Operands(And, Prepared(t[k])) + AllPrepared(t[..k] + t[k + 1..])
  {
    hide Operands, Prepared;
    AllPreparedAppend(t[..k], t[k + 1..]);
    AllPreparedAppend(t[..k], t[k..]);
    assert t == t[..k] + t[k..] && t[k..][1..] == t[k + 1..];
    assert AllPrepared(t[k..]) == Operands(And, Prepared(t[k])) + AllPrepared(t[k + 1..]);
  }

  /** Every operand of the outermost && of the prompt's condition is one of dep, too. */
  predicate AllAmong(prompt: Option<Expr>, dep: Expr) {
    prompt.None? || (IsOp(dep, And) && multiset(Leaves(And, prompt.value)) <= multiset(Leaves(And, dep)))
  }

  lemma AllAmongPrepared(prompt: Option<Expr>, dep: Expr)
    requires AllAmong(prompt, dep)
    ensures PreparedOf(prompt) == Sym(SymYes)
         || (IsOp(Prepared(dep), And) && Operands(And, PreparedOf(prompt)) <= Operands(And, Prepared(dep)))
  {
    if prompt.Some? {
      AllPreparedWithin(Leaves(And, prompt.value), Leaves(And, dep));
      PreparedOperands(prompt.value);
      PreparedOperands(dep);
    }
  }

  /** What expr_eliminate_dups may make of the prepared condition */
  ghost predicate Simplified(e: Option<Expr>, r: Expr) {
    && JoinFree(r)
    && Normal(r)
    && Stands(PreparedOf(e), r)
    && (r == PreparedOf(e) || (!HasYn(r) && Size(r) < Size(PreparedOf(e))))
  }

  /** Whether menu_finalize puts the next menu, which depends on dep, below the symbol sym
      whose prompt has the condition prompt. If so, that menu can only be visible while the
      prompt is, or while the symbol is not off; in the comparison with the prompt every symbol
      counts as y unless its text is "n".
      It does put it there if a direct test of the symbol is an operand of the outermost && of dep, or
      if all those of the prompt's condition are among those of dep; where nothing can be joined in the
      prepared conditions, the answer is known exactly. `test` and `base` are the simplified conditions. */
  method GoesBelow(sym: Symbol, prompt: Option<Expr>, dep: Option<Expr>)
    returns (below: bool, ghost test: Expr, ghost base: Expr)
    ensures below ==> dep.Some? && ContainsSymbol(dep.value, sym)
    ensures dep.Some? && (exists x :: x in Leaves(And, dep.value) && Direct(x, sym)) ==> below
    ensures NothingJoins(dep) && NothingJoins(prompt) && dep.Some? && ContainsSymbol(dep.value, sym) ==>
              AllAmong(prompt, dep.value) ==> below
    ensures dep.Some? && NothingJoins(dep) && NothingJoins(prompt) ==>
              (below <==>
               || (exists x :: x in Leaves(And, dep.value) && Direct(x, sym))
               || (ContainsSymbol(dep.value, sym)
                   && (PreparedOf(prompt) == Sym(SymYes)
                       || (IsOp(PreparedOf(dep), And)
                           && Operands(And, PreparedOf(prompt)) <= Operands(And, PreparedOf(dep))))))
    ensures dep.Some? && ContainsSymbol(dep.value, sym)
            && !(exists x :: x in Leaves(And, dep.value) && Direct(x, sym)) ==>
              Simplified(dep, test) && Simplified(prompt, base)
              && (Clean(test) && Clean(base) ==>
                    (below <==> base == Sym(SymYes)
                                || (IsOp(test, And) && Operands(And, base) <= Operands(And, test))))
    ensures below ==>
              forall env: Env | NumberFreeOf(prompt, env) && NumberFreeOf(dep, env) ::
                (RoundsUp(dep, env) ==> RoundsUp(prompt, env)) || (ValueOf(dep, env) != NO ==> !Off(sym, env))
    ensures below ==>
              forall env: Env | NumberFreeOf(prompt, env) && NumberFreeOf(dep, env)
                                && Plain(prompt, env) && Plain(dep, env) && ValueOf(dep, env) != NO ::
                ValueOf(prompt, env) != NO || !Off(sym, env)
    ensures below && HasTristateValue(sym) ==>
              forall env: Env | NumberFreeOf(prompt, env) && NumberFreeOf(dep, env)
                                && Plain(prompt, env) && Plain(dep, env) && ValueOf(dep, env) != NO ::
                ValueOf(prompt, env) != NO || SymValue(sym, env) != NO
  {
    if dep.Some? {
      DependsSymbolFinds(dep.value, sym);
      if DependsSymbol(dep.value, sym) { DependsSymbolSound(dep.value, sym, Env(map[], map[], map[], map[])); }
      if AllAmong(prompt, dep.value) { AllAmongPrepared(prompt, dep.value); }
    }
    hide AllAmong, Operands, Simplified, Clean, Leaves, Direct, DependsSymbol, ContainsSymbol;
    test, base := Sym(SymYes), Sym(SymYes);
    if dep.None? || !ContainsSymbol(dep.value, sym) {
      below := false;
      return;
    }
    if DependsSymbol(dep.value, sym) {
      forall env: Env | Value(dep.value, env) != NO
        ensures !Off(sym, env) && (HasTristateValue(sym) ==> SymValue(sym, env) != NO)
      {
        DependsSymbolSound(dep.value, sym, env);
      }
      below := true;
      return;
    }
    var base' := VisibleTest(prompt);
    var test' := VisibleTest(dep);
    test, base := test', base';
    below := IsYes(Some(EliminateEq(test', base').1));
    if Clean(test) && Clean(base) { SupersetTestExact(test, base); }
    if below {
      forall env: Env
        ensures Value(test, env) <= Value(base, env)
      {
        SupersetTestSound(test, base, env);
      }
      forall env: Env | Plain(prompt, env) && Plain(dep, env)
        ensures RoundsUp(dep, env) <==> ValueOf(dep, env) != NO
        ensures RoundsUp(prompt, env) <==> ValueOf(prompt, env) != NO
      {
        RoundsUpMeaning(dep, env);
        RoundsUpMeaning(prompt, env);
      }
    }
  }
}

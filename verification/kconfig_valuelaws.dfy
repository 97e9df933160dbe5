/** What the value of a symbol is, said without the functions the evaluation is proved against
    (nemu/tools/kconfig/symbol.c:83-94, 177-238, 325-417 and 480-506). */
module ValueLaws {
  import opened Wrappers
  import opened Expressions
  import opened SymbolGraph
  import opened SymbolValues

  function Min(a: Tri, b: Tri): Tri { if a <= b then a else b }

  function Max(a: Tri, b: Tri): Tri { if a >= b then a else b }

  /** There is an m for the symbol. */
  predicate Threefold(c: Setup, d: Decl) { d.ty == Tristate && c.modules != NO }

  /** Without an m, m counts as y. */
  function Settle(c: Setup, d: Decl, t: Tri): Tri {
    if t == MOD && d.ty in {Boolean, Tristate} && !Threefold(c, d) then YES else t
  }

  // ---- defaults ----

  /** A condition that is missing counts as y. */
  function Condition(p: Property, env: Env): Tri { if p.visible == None then YES else Value(p.visible.value, env) }

  predicate Fires(p: Property, env: Env) { p.kind == Default && Condition(p, env) > NO }

  /** Property i is the first default with a condition that is not n. */
  predicate FirstToFire(props: seq<Property>, env: Env, i: nat) {
    i < |props| && Fires(props[i], env) && forall j | 0 <= j < i :: !Fires(props[j], env)
  }

  function ExprTri(p: Property, env: Env): Tri { if p.expr == None then YES else Value(p.expr.value, env) }

  /** The first default that applies is taken, limited by its condition. */
  lemma {:induction false} FirstDefault(props: seq<Property>, env: Env, i: nat)
    requires FirstToFire(props, env, i)
    ensures DefaultOf(props, env) == Min(ExprTri(props[i], env), Condition(props[i], env))
  {
    if i > 0 {
      assert !Fires(props[0], env);
      assert forall j | 0 <= j < i - 1 :: props[1..][j] == props[j + 1];
      FirstDefault(props[1..], env, i - 1);
    }
  }

  lemma {:induction false} NoDefault(props: seq<Property>, env: Env)
    requires forall j | 0 <= j < |props| :: !Fires(props[j], env)
    ensures DefaultOf(props, env) == NO
  {
    if props != [] {
      assert !Fires(props[0], env);
      NoDefault(props[1..], env);
    }
  }

  // ---- visibility ----

  lemma {:induction false} MaxPromptMeaning(props: seq<Property>, env: Env)
    ensures forall p | p in props && p.hasText :: Condition(p, env) <= MaxPrompt(props, env)
    ensures MaxPrompt(props, env) != NO ==>
              exists p :: p in props && p.hasText && Condition(p, env) == MaxPrompt(props, env)
  {
    if props != [] {
      var last := props[|props| - 1];
      assert props == props[..|props| - 1] + [last];
      MaxPromptMeaning(props[..|props| - 1], env);
    }
  }

  /** Visibility is the greatest condition of a prompt, where m counts as y without an m. */
  lemma VisibilityMeaning(c: Setup, d: Decl, env: Env)
    ensures VisibleOf(c, d, env) == YES <==>
              exists p :: p in d.props && p.hasText
                          && (Condition(p, env) == YES || (Condition(p, env) == MOD && !Threefold(c, d)))
    ensures VisibleOf(c, d, env) == NO <==> forall p | p in d.props && p.hasText :: Condition(p, env) == NO
  {
    MaxPromptMeaning(d.props, env);
  }

  // ---- the value ----

  /** The conditions from outside: a missing dependency counts as y, a missing select or imply as n. */
  function Outside(c: Setup, d: Decl, e: Option<Expr>, missing: Tri, env: Env): Tri {
    Settle(c, d, if e == None then missing else Value(e.value, env))
  }

  /** What a bool or tristate symbol comes to. A visible symbol that was set has that value, up to its
      visibility; any other symbol has its first default, and an imply raises it as far as the
      dependencies allow. Selects raise the value in either case. */
  lemma ValueMeaning(c: Setup, user: Values, v: Values, id: nat)
    requires Solution(c, user, v) && id < |c.decls| && c.decls[id].ty in {Boolean, Tristate}
    ensures var d, env := c.decls[id], EnvOf(c, v);
            var visible, default_ := VisibleOf(c, d, env), DefaultOf(d.props, env);
            var selected, implied := Outside(c, d, d.revDep, NO, env), Outside(c, d, d.implied, NO, env);
            var allowed := Outside(c, d, d.dirDep, YES, env);
            var wanted := if visible > NO && id in user then Min(user[id], visible)
                          else if implied > NO then Min(Max(default_, implied), allowed)
                          else default_;
            v[id] == Settle(c, d, Max(wanted, selected))
  {
    assert v[id] == Rule(c, user, id, EnvOf(c, v));
    hide DefaultOf, VisibleOf;
  }

  /** An invisible or unset symbol that nothing selects or implies has its first default. */
  lemma ValueByDefault(c: Setup, user: Values, v: Values, id: nat, i: nat)
    requires Solution(c, user, v) && id < |c.decls| && c.decls[id].ty in {Boolean, Tristate}
    requires var d, env := c.decls[id], EnvOf(c, v);
             && (VisibleOf(c, d, env) == NO || id !in user)
             && Outside(c, d, d.revDep, NO, env) == NO && Outside(c, d, d.implied, NO, env) == NO
             && FirstToFire(d.props, env, i)
    ensures var d, env := c.decls[id], EnvOf(c, v);
            v[id] == Settle(c, d, Min(ExprTri(d.props[i], env), Condition(d.props[i], env)))
  {
    ValueMeaning(c, user, v, id);
    FirstDefault(c.decls[id].props, EnvOf(c, v), i);
    hide *;
  }

  /** Other types have no tristate value. */
  lemma ValueOfOthers(c: Setup, user: Values, v: Values, id: nat)
    requires Solution(c, user, v) && id < |c.decls| && c.decls[id].ty !in {Boolean, Tristate}
    ensures v[id] == NO
  {
    assert v[id] == Rule(c, user, id, EnvOf(c, v));
  }

  // ---- setting ----

  /** The range test is exact: it admits a value just if there is anything to choose and setting the
      value makes it the symbol's. */
  lemma WithinRangeExact(c: Setup, rank: map<nat, nat>, user: Values, id: nat, val: Tri, v: Values, w: Values)
    requires WellFormed(c.decls) && Ranked(c.decls, rank) && id < |c.decls| && c.decls[id].ty in {Boolean, Tristate}
    requires Solution(c, user, v) && Solution(c, user[id := val], w)
    ensures var d, env := c.decls[id], EnvOf(c, v);
            WithinRange(c, d, Fields(c, d, env), val)
            <==> VisibleOf(c, d, env) > Outside(c, d, d.revDep, NO, env) && w[id] == val
  {
    LowerRanksKept(c, rank, user, id, val, v, w);
    SameDecl(c, v, w, c.decls[id]);
    BoolVisible(c, c.decls[id], EnvOf(c, v));
    assert w[id] == Rule(c, user[id := val], id, EnvOf(c, w));
    hide DefaultOf, VisibleOf, EnvOf, WellFormed, Ranked, Solution;
  }

  lemma BoolVisible(c: Setup, d: Decl, env: Env)
    ensures !Threefold(c, d) ==> VisibleOf(c, d, env) != MOD
  {}

  /** Where selects reach the visibility there is nothing to choose: every setting comes to the same. */
  lemma NothingToChoose(c: Setup, user: Values, v: Values, id: nat)
    requires Solution(c, user, v) && id < |c.decls| && c.decls[id].ty in {Boolean, Tristate} && id in user
    requires var d, env := c.decls[id], EnvOf(c, v);
             NO < VisibleOf(c, d, env) <= Outside(c, d, d.revDep, NO, env)
    ensures v[id] == Outside(c, c.decls[id], c.decls[id].revDep, NO, EnvOf(c, v))
  {
    ValueMeaning(c, user, v, id);
    hide VisibleOf, DefaultOf, EnvOf, Solution;
  }
}

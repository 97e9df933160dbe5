/** Memoised evaluation of bool and tristate symbols that belong to no choice
    (nemu/tools/kconfig/symbol.c:42-93, 177-238 and 325-533; expr.c:1030-1102). */
module SymbolValues {
  import opened Wrappers
  import opened Expressions
  import opened Dependencies
  import opened SymbolGraph

  /** What stays fixed while values are computed: the declarations, modules_val, and the texts
      and comparisons of other than bool and tristate symbols. */
  datatype Setup = Setup(decls: Decls, modules: Tri, text: map<nat, string>, order: map<(Symbol, Symbol), int>,
                         number: map<string, int>)

  type Values = map<nat, Tri>

  function EnvOf(c: Setup, v: Values): Env { Env(v, c.text, c.order, c.number) }

  function Node(decls: Decls, id: nat): Symbol
    requires id < |decls|
  {
    Config(id, decls[id].ty)
  }

  /** Symbols are used with the type they are declared with, and only properties that
      sym_check_sym_deps looks at carry a prompt text. */
  ghost predicate WellFormed(decls: Decls) {
    && (forall id, t | 0 <= id < |decls| && DeclMentions(decls[id], t) && t.Config? ::
          t.id < |decls| && t == Node(decls, t.id))
    && (forall id | 0 <= id < |decls| :: TextsVisited(decls[id]))
  }

  predicate TextsVisited(d: Decl) {
    forall i | 0 <= i < |d.props| && d.props[i].hasText :: !Skipped(d.props[i])
  }

  // ---- the value of one symbol in terms of the others ----

  /** sym_get_type for a symbol outside of choices */
  function EffectiveType(ty: SymbolType, modules: Tri): SymbolType {
    if ty == Tristate && modules == NO then Boolean else ty
  }

  /** m counts as y where there is no m. */
  function Raise(t: Tri, c: Setup, d: Decl): Tri {
    if t == MOD && EffectiveType(d.ty, c.modules) == Boolean then YES else t
  }

  function PromptTri(p: Property, env: Env): Tri {
    if p.hasText then ValueOf(p.visible, env) else NO
  }

  function MaxPrompt(props: seq<Property>, env: Env): Tri {
    if props == [] then NO
    else Combine(Or, MaxPrompt(props[..|props| - 1], env), PromptTri(props[|props| - 1], env))
  }

  function VisibleOf(c: Setup, d: Decl, env: Env): Tri {
    var tri := MaxPrompt(d.props, env);
    if tri == MOD && (d.ty != Tristate || c.modules == NO) then YES else tri
  }

  function DirDepOf(c: Setup, d: Decl, env: Env): Tri { Raise(ValueOf(d.dirDep, env), c, d) }

  function ReverseOf(e: Option<Expr>, c: Setup, d: Decl, env: Env): Tri {
    Raise(if e.Some? then Value(e.value, env) else NO, c, d)
  }

  predicate Applies(p: Property, env: Env) { p.kind == Default && ValueOf(p.visible, env) != NO }

  /** The first default whose condition is not n. */
  function DefaultOf(props: seq<Property>, env: Env): Tri {
    if props == [] then NO
    else if Applies(props[0], env) then Combine(And, ValueOf(props[0].expr, env), ValueOf(props[0].visible, env))
    else DefaultOf(props[1..], env)
  }

  /** What a visible symbol with user value u, or else its default and implied values, come to. */
  function Wanted(c: Setup, d: Decl, user: Option<Tri>, env: Env): Tri {
    var visible := VisibleOf(c, d, env);
    if visible != NO && user.Some? then Combine(And, user.value, visible)
    else
      var implied := ReverseOf(d.implied, c, d, env);
      var default_ := DefaultOf(d.props, env);
      if implied == NO then default_ else Combine(And, Combine(Or, default_, implied), DirDepOf(c, d, env))
  }

  function UserOf(user: Values, id: nat): Option<Tri> { if id in user then Some(user[id]) else None }

  /** The value a symbol takes when all others have the values of env. */
  function Rule(c: Setup, user: Values, id: nat, env: Env): Tri
    requires id < |c.decls|
  {
    var d := c.decls[id];
    if d.ty != Boolean && d.ty != Tristate then NO
    else Raise(Combine(Or, Wanted(c, d, UserOf(user, id), env), ReverseOf(d.revDep, c, d, env)), c, d)
  }

  /** An assignment in which every symbol has the value its declaration gives it. */
  ghost predicate Solution(c: Setup, user: Values, v: Values) {
    forall id: nat | id < |c.decls| :: id in v && v[id] == Rule(c, user, id, EnvOf(c, v))
  }

  // ---- values depend on dependencies alone ----

  predicate AgreeOn(v: Values, w: Values, s: Symbol) {
    s.Config? ==> s.id in v && s.id in w && v[s.id] == w[s.id]
  }

  ghost predicate AgreeOnExpr(v: Values, w: Values, e: Option<Expr>) {
    forall s | Mentions(e, s) :: AgreeOn(v, w, s)
  }

  /** Solving a comparison takes no more than the values of its two sides. */
  lemma CompareStored(c: Setup, v: Values, now: Values, l: Symbol, r: Symbol)
    requires AgreeOn(v, now, l) && AgreeOn(v, now, r)
    ensures Compare(l, r, EnvOf(c, v)) == Compare(l, r, EnvOf(c, now))
  {}

  lemma {:induction false} SameValue(c: Setup, v: Values, w: Values, e: Expr)
    requires AgreeOnExpr(v, w, Some(e))
    ensures Value(e, EnvOf(c, v)) == Value(e, EnvOf(c, w))
  {
    hide Compare;
    match e
    case Sym(s) => assert Mentions(Some(e), s);
    case Cmp(_, l, r) =>
      assert Mentions(Some(e), l) && Mentions(Some(e), r);
      CompareStored(c, v, w, l, r);
    case Not(x) =>
      assert forall s | Mentions(Some(x), s) :: Mentions(Some(e), s);
      SameValue(c, v, w, x);
    case Bin(_, l, r) =>
      assert forall s | Mentions(Some(l), s) || Mentions(Some(r), s) :: Mentions(Some(e), s);
      SameValue(c, v, w, l);
      SameValue(c, v, w, r);
  }

  lemma SameValueOf(c: Setup, v: Values, w: Values, e: Option<Expr>)
    requires AgreeOnExpr(v, w, e)
    ensures ValueOf(e, EnvOf(c, v)) == ValueOf(e, EnvOf(c, w))
  {
    if e.Some? { SameValue(c, v, w, e.value); }
  }

  ghost predicate AgreeOnProps(v: Values, w: Values, props: seq<Property>) {
    forall i | 0 <= i < |props| ::
      && ((props[i].hasText || props[i].kind == Default) ==> AgreeOnExpr(v, w, props[i].visible))
      && (props[i].kind == Default ==> AgreeOnExpr(v, w, props[i].expr))
  }

  lemma {:induction false} SamePrompts(c: Setup, v: Values, w: Values, props: seq<Property>)
    requires AgreeOnProps(v, w, props)
    ensures MaxPrompt(props, EnvOf(c, v)) == MaxPrompt(props, EnvOf(c, w))
  {
    if props != [] {
      var last := props[|props| - 1];
      if last.hasText { SameValueOf(c, v, w, last.visible); }
      SamePrompts(c, v, w, props[..|props| - 1]);
    }
  }

  lemma {:induction false} SameDefaults(c: Setup, v: Values, w: Values, props: seq<Property>)
    requires AgreeOnProps(v, w, props)
    ensures DefaultOf(props, EnvOf(c, v)) == DefaultOf(props, EnvOf(c, w))
  {
    if props != [] {
      if props[0].kind == Default {
        SameValueOf(c, v, w, props[0].visible);
        SameValueOf(c, v, w, props[0].expr);
      }
      SameDefaults(c, v, w, props[1..]);
    }
  }

  lemma SameDecl(c: Setup, v: Values, w: Values, d: Decl)
    requires TextsVisited(d)
    requires forall t | DeclMentions(d, t) :: AgreeOn(v, w, t)
    ensures AgreeOnExpr(v, w, d.dirDep) && AgreeOnExpr(v, w, d.revDep) && AgreeOnExpr(v, w, d.implied)
    ensures AgreeOnProps(v, w, d.props)
    ensures VisibleOf(c, d, EnvOf(c, v)) == VisibleOf(c, d, EnvOf(c, w))
    ensures ReverseOf(d.revDep, c, d, EnvOf(c, v)) == ReverseOf(d.revDep, c, d, EnvOf(c, w))
    ensures forall user :: Wanted(c, d, user, EnvOf(c, v)) == Wanted(c, d, user, EnvOf(c, w))
  {
    forall i, s | 0 <= i < |d.props| && (d.props[i].hasText || d.props[i].kind == Default) &&
                  (Mentions(d.props[i].visible, s) || (d.props[i].kind == Default && Mentions(d.props[i].expr, s)))
      ensures AgreeOn(v, w, s)
    {
      assert PropertyMentions(d.props[i], s);
    }
    SamePrompts(c, v, w, d.props);
    SameDefaults(c, v, w, d.props);
    SameValueOf(c, v, w, d.dirDep);
    SameValueOf(c, v, w, d.revDep);
    SameValueOf(c, v, w, d.implied);
  }

  lemma SameRule(c: Setup, user: Values, id: nat, v: Values, w: Values)
    requires WellFormed(c.decls) && id < |c.decls|
    requires forall t | DeclMentions(c.decls[id], t) :: AgreeOn(v, w, t)
    ensures Rule(c, user, id, EnvOf(c, v)) == Rule(c, user, id, EnvOf(c, w))
  {
    SameDecl(c, v, w, c.decls[id]);
  }

  // ---- an acyclic system has exactly one solution ----

  /** Dependencies have a smaller rank. */
  ghost predicate Ranked(decls: Decls, rank: map<nat, nat>) {
    && (forall id: nat | id < |decls| :: id in rank)
    && (forall id: nat, t | id < |decls| && DeclMentions(decls[id], t) && t.Config? && t.id < |decls| ::
          rank[t.id] < rank[id])
  }

  /** Solutions for two sets of user values agree on every symbol that does not depend on one
      that differs. */
  lemma {:induction false} SolutionsAgree(c: Setup, rank: map<nat, nat>, user: Values, user': Values,
                                          v: Values, w: Values, id: nat, bound: nat)
    requires WellFormed(c.decls) && Ranked(c.decls, rank)
    requires Solution(c, user, v) && Solution(c, user', w)
    requires forall j: nat | j < |c.decls| && rank[j] < bound :: UserOf(user, j) == UserOf(user', j)
    requires id < |c.decls| && rank[id] < bound
    ensures v[id] == w[id]
    decreases rank[id]
  {
    forall t | DeclMentions(c.decls[id], t)
      ensures AgreeOn(v, w, t)
    {
      if t.Config? { SolutionsAgree(c, rank, user, user', v, w, t.id, bound); }
    }
    SameRule(c, user, id, v, w);
  }

  lemma SolutionUnique(c: Setup, rank: map<nat, nat>, user: Values, v: Values, w: Values, id: nat)
    requires WellFormed(c.decls) && Ranked(c.decls, rank)
    requires Solution(c, user, v) && Solution(c, user, w) && id < |c.decls|
    ensures v[id] == w[id]
  {
    SolutionsAgree(c, rank, user, user, v, w, id, rank[id] + 1);
  }

  /** The solution, built up to a given rank. */
  ghost function SolveBelow(c: Setup, user: Values, rank: map<nat, nat>, bound: nat): Values
    requires Ranked(c.decls, rank)
  {
    if bound == 0 then map[]
    else
      var v := SolveBelow(c, user, rank, bound - 1);
      v + map id: nat | 0 <= id < |c.decls| && rank[id] == bound - 1 :: Rule(c, user, id, EnvOf(c, v))
  }

  lemma LowerRanksDecide(c: Setup, user: Values, rank: map<nat, nat>, bound: nat, v: Values, w: Values, id: nat)
    requires WellFormed(c.decls) && Ranked(c.decls, rank) && id < |c.decls| && rank[id] <= bound
    requires forall j: nat | j < |c.decls| && rank[j] < bound :: j in v && j in w && v[j] == w[j]
    ensures Rule(c, user, id, EnvOf(c, v)) == Rule(c, user, id, EnvOf(c, w))
  {
    hide Rule, EnvOf;
    forall t | DeclMentions(c.decls[id], t) ensures AgreeOn(v, w, t) {}
    SameRule(c, user, id, v, w);
  }

  lemma {:induction false} SolveBelowCorrect(c: Setup, user: Values, rank: map<nat, nat>, bound: nat)
    requires WellFormed(c.decls) && Ranked(c.decls, rank)
    ensures var v := SolveBelow(c, user, rank, bound);
            && (forall id: nat :: id in v <==> id < |c.decls| && rank[id] < bound)
            && (forall id: nat | id in v :: v[id] == Rule(c, user, id, EnvOf(c, v)))
  {
    if bound > 0 {
      SolveBelowCorrect(c, user, rank, bound - 1);
      var v := SolveBelow(c, user, rank, bound - 1);
      var w := SolveBelow(c, user, rank, bound);
      hide Rule, DeclMentions, EnvOf;
      assert forall id: nat :: id in w <==> id < |c.decls| && rank[id] < bound;
      forall id: nat | id in w
        ensures w[id] == Rule(c, user, id, EnvOf(c, w))
      {
        LowerRanksDecide(c, user, rank, bound - 1, v, w, id);
      }
    }
  }

  ghost function MaxRank(rank: map<nat, nat>, n: nat): (m: nat)
    requires forall id: nat | id < n :: id in rank
    ensures forall id: nat | id < n :: rank[id] < m
  {
    if n == 0 then 0
    else var m := MaxRank(rank, n - 1); if rank[n - 1] < m then m else rank[n - 1] + 1
  }

  lemma SolutionExists(c: Setup, user: Values, rank: map<nat, nat>) returns (v: Values)
    requires WellFormed(c.decls) && Ranked(c.decls, rank)
    ensures Solution(c, user, v)
  {
    var bound := MaxRank(rank, |c.decls|);
    SolveBelowCorrect(c, user, rank, bound);
    v := SolveBelow(c, user, rank, bound);
  }

  /** The order that the dependency check certifies gives the ranks. */
  lemma RanksFromOrder(decls: Decls, order: seq<Symbol>) returns (rank: map<nat, nat>)
    requires WellFormed(decls) && Topological(decls, order)
    requires forall i, j | 0 <= i < j < |order| :: order[i] != order[j]
    requires forall id: nat | id < |decls| :: Node(decls, id) in order
    ensures Ranked(decls, rank)
  {
    rank := PositionMap(decls, order, |decls|);
    forall id: nat, t | id < |decls| && DeclMentions(decls[id], t) && t.Config? && t.id < |decls|
      ensures rank[t.id] < rank[id]
    {
      assert Before(decls, order, rank[id]);
      assert DependsOn(decls, order[rank[id]], t);
      var i :| 0 <= i < rank[id] && order[i] == t;
      assert order[rank[t.id]] == t;
    }
  }

  lemma {:induction false} PositionMap(decls: Decls, order: seq<Symbol>, n: nat) returns (rank: map<nat, nat>)
    requires n <= |decls| && forall id: nat | id < |decls| :: Node(decls, id) in order
    ensures forall id: nat :: (id in rank <==> id < n)
    ensures forall id: nat | id < n :: rank[id] < |order| && order[rank[id]] == Node(decls, id)
  {
    rank := map[];
    if n > 0 {
      var r := PositionMap(decls, order, n - 1);
      var i :| 0 <= i < |order| && order[i] == Node(decls, n - 1);
      rank := r[n - 1 := i];
    }
  }

  // ---- the memo ----

  /** The fields of struct symbol that evaluation writes. */
  datatype Info = Info(curr: Tri, visible: Tri, dirDep: Tri, revDep: Tri, implied: Tri)

  /** The flags and fields of all symbols; `valid` holds the symbols marked SYMBOL_VALID. */
  datatype Memo = Memo(valid: set<nat>, info: map<nat, Info>)

  function Blank(n: nat): (m: map<nat, Info>)
    ensures forall id: nat :: id in m <==> id < n
  {
    if n == 0 then map[] else Blank(n - 1)[n - 1 := Info(NO, NO, NO, NO, NO)]
  }

  ghost predicate Ready(c: Setup, rank: map<nat, nat>, m: Memo) {
    WellFormed(c.decls) && Ranked(c.decls, rank) &&
    (forall id: nat | id < |c.decls| :: id in m.info) && (forall id | id in m.valid :: id < |c.decls|)
  }

  /** The stored fields of a symbol are those of the solution v. */
  ghost predicate Stored(c: Setup, v: Values, m: Memo, id: nat)
    requires id < |c.decls| && id in m.info && id in v
  {
    m.info[id].curr == v[id] &&
    (c.decls[id].ty != Unknown ==>
       m.info[id] == Fields(c, c.decls[id], EnvOf(c, v)).(curr := v[id]))
  }

  ghost function Fields(c: Setup, d: Decl, env: Env): Info {
    Info(NO, VisibleOf(c, d, env), DirDepOf(c, d, env), ReverseOf(d.revDep, c, d, env), ReverseOf(d.implied, c, d, env))
  }

  /** Below the given rank, every symbol marked valid has its final fields. At and above it
      there may be symbols that are marked but still being computed. */
  ghost predicate Settled(c: Setup, rank: map<nat, nat>, v: Values, m: Memo, bound: nat)
    requires Ready(c, rank, m) && forall id: nat | id < |c.decls| :: id in v
  {
    forall id | id in m.valid && rank[id] < bound :: Stored(c, v, m, id)
  }

  /** Symbols become valid, and nothing changes at and above the given rank. */
  ghost predicate Advanced(c: Setup, rank: map<nat, nat>, m: Memo, m': Memo, bound: nat) {
    m.valid <= m'.valid &&
    forall id: nat | id < |c.decls| && id in rank && rank[id] >= bound :: SameEntry(m, m', id)
  }

  predicate SameEntry(m: Memo, m': Memo, id: nat) {
    (id in m.valid <==> id in m'.valid) && (id in m.info && id in m'.info ==> m.info[id] == m'.info[id])
  }

  ghost predicate Usable(c: Setup, rank: map<nat, nat>, s: Symbol, bound: nat) {
    s.Config? ==> s.id < |c.decls| && s == Node(c.decls, s.id) && s.id in rank && rank[s.id] < bound
  }

  /** What a declaration mentions may be evaluated while the declared symbol is in progress. */
  lemma MentionsUsable(c: Setup, rank: map<nat, nat>, id: nat, s: Symbol)
    requires WellFormed(c.decls) && Ranked(c.decls, rank) && id < |c.decls| && DeclMentions(c.decls[id], s)
    ensures Usable(c, rank, s, rank[id])
  {}

  // ---- setting a value ----

  /** sym_tristate_within_range, which goes by the stored fields. */
  predicate WithinRange(c: Setup, d: Decl, m: Info, val: Tri) {
    var ty := EffectiveType(d.ty, c.modules);
    && m.visible != NO
    && (ty == Boolean || ty == Tristate)
    && !(ty == Boolean && val == MOD)
    && m.visible > m.revDep
    && m.revDep <= val <= m.visible
  }

  /** The bounds every computed value keeps. */
  lemma ValueBounds(c: Setup, user: Values, v: Values, id: nat)
    requires id < |c.decls| && Solution(c, user, v)
    ensures var d := c.decls[id];
            && (d.ty == Boolean || d.ty == Tristate ==> v[id] >= ReverseOf(d.revDep, c, d, EnvOf(c, v)))
            && (EffectiveType(d.ty, c.modules) == Boolean ==> v[id] != MOD)
  {
    assert v[id] == Rule(c, user, id, EnvOf(c, v));
  }

  /** A value within range becomes the value of the symbol, and what the symbol can depend on
      stays as it was. */
  lemma SettingTakesEffect(c: Setup, rank: map<nat, nat>, user: Values, id: nat, val: Tri, v: Values, w: Values)
    requires WellFormed(c.decls) && Ranked(c.decls, rank) && id < |c.decls|
    requires Solution(c, user, v) && Solution(c, user[id := val], w)
    requires WithinRange(c, c.decls[id], Fields(c, c.decls[id], EnvOf(c, v)), val)
    ensures w[id] == val
    ensures forall j: nat | j < |c.decls| && rank[j] < rank[id] :: w[j] == v[j]
  {
    LowerRanksKept(c, rank, user, id, val, v, w);
    SameDecl(c, v, w, c.decls[id]);
    assert w[id] == Rule(c, user[id := val], id, EnvOf(c, w));
  }

  lemma LowerRanksKept(c: Setup, rank: map<nat, nat>, user: Values, id: nat, val: Tri, v: Values, w: Values)
    requires WellFormed(c.decls) && Ranked(c.decls, rank) && id < |c.decls|
    requires Solution(c, user, v) && Solution(c, user[id := val], w)
    ensures forall j: nat | j < |c.decls| && rank[j] < rank[id] :: w[j] == v[j]
    ensures forall t | DeclMentions(c.decls[id], t) :: AgreeOn(v, w, t)
  {
    forall j: nat | j < |c.decls| && rank[j] < rank[id]
      ensures w[j] == v[j]
    {
      SolutionsAgree(c, rank, user, user[id := val], v, w, j, rank[id]);
    }
  }

  /** Setting a symbol to the value it has is accepted without a range check and leaves the
      memo as it is. That is right exactly when the symbol is invisible, or the value is
      within its visibility or forced by a select. */
  lemma SettingSameValue(c: Setup, rank: map<nat, nat>, user: Values, id: nat, v: Values, w: Values)
    requires WellFormed(c.decls) && Ranked(c.decls, rank) && id < |c.decls|
    requires c.decls[id].ty == Boolean || c.decls[id].ty == Tristate
    requires Solution(c, user, v) && Solution(c, user[id := v[id]], w)
    ensures var m := Fields(c, c.decls[id], EnvOf(c, v));
            w[id] == v[id] <==> m.visible == NO || v[id] <= m.visible || v[id] <= m.revDep
  {
    LowerRanksKept(c, rank, user, id, v[id], v, w);
    SameDecl(c, v, w, c.decls[id]);
    assert v[id] == Rule(c, user, id, EnvOf(c, v));
    assert w[id] == Rule(c, user[id := v[id]], id, EnvOf(c, w));
  }

  /** A tristate symbol whose prompt is visible as m and whose default is y */
  function DefaultAbovePrompt(): Setup {
    var prompt := Property(Prompt, true, Some(Sym(SymMod)), None);
    var default_ := Property(Default, false, None, Some(Sym(SymYes)));
    Setup([Decl(Tristate, None, None, None, [prompt, default_])], YES, map[], map[], map[])
  }

  /** For that symbol the condition fails: it is y by default, and after being set to y it is m. */
  lemma SettingSameValueCanFail()
    ensures var c := DefaultAbovePrompt();
            && WellFormed(c.decls) && Ranked(c.decls, map[0 := 0])
            && Solution(c, map[], map[0 := YES]) && Solution(c, map[0 := YES], map[0 := MOD])
  {
    var c := DefaultAbovePrompt();
    var d := c.decls[0];
    PromptOfM(d.props, EnvOf(c, map[0 := YES]));
    PromptOfM(d.props, EnvOf(c, map[0 := MOD]));
    assert d.props[1..] == [d.props[1]];
    assert Rule(c, map[], 0, EnvOf(c, map[0 := YES])) == YES;
    assert Rule(c, map[0 := YES], 0, EnvOf(c, map[0 := MOD])) == MOD;
  }

  lemma PromptOfM(props: seq<Property>, env: Env)
    requires props == DefaultAbovePrompt().decls[0].props
    ensures MaxPrompt(props, env) == MOD
  {
    assert props[..1] == [props[0]];
    assert props[..1][..0] == [];
    assert MaxPrompt(props[..1], env) == MOD;
  }

  /** The entry of a symbol is completed: everything below its rank was settled on the way,
      and nothing above it was touched. */
  lemma Finished(c: Setup, rank: map<nat, nat>, v: Values, m0: Memo, m: Memo, id: nat, bound: nat)
    requires Ready(c, rank, m0) && Ready(c, rank, m) && forall j: nat | j < |c.decls| :: j in v
    requires id < |c.decls| && rank[id] < bound && id !in m0.valid && id in m.valid
    requires Settled(c, rank, v, m0, bound) && Settled(c, rank, v, m, rank[id]) && m0.valid <= m.valid
    requires forall j: nat | j < |c.decls| && j != id && rank[j] >= rank[id] :: SameEntry(m0, m, j)
    requires c.decls[id].ty != Unknown ==> m.info[id].(curr := NO) == Fields(c, c.decls[id], EnvOf(c, v))
    ensures var m' := m.(info := m.info[id := m.info[id].(curr := v[id])]);
            && Ready(c, rank, m') && Settled(c, rank, v, m', bound) && Advanced(c, rank, m0, m', bound)
            && Stored(c, v, m', id)
            && forall j: nat | j < |c.decls| && j != id && rank[j] >= rank[id] :: SameEntry(m0, m', j)
  {
    hide Fields, WellFormed;
    var m' := m.(info := m.info[id := m.info[id].(curr := v[id])]);
    forall j | j in m'.valid && rank[j] < bound
      ensures Stored(c, v, m', j)
    {
      if j != id {
        assert Stored(c, v, m, j) by {
          if rank[j] >= rank[id] { assert SameEntry(m0, m, j); assert Stored(c, v, m0, j); }
        }
      }
    }
    forall j: nat | j < |c.decls| && j != id && rank[j] >= rank[id]
      ensures SameEntry(m0, m', j)
    {
      assert SameEntry(m0, m, j);
    }
  }

  /** The rule of a symbol in the two steps of sym_calc_value */
  lemma ValueByRule(c: Setup, user: Values, v: Values, id: nat)
    requires Solution(c, user, v) && id < |c.decls|
    ensures var d := c.decls[id];
            var env := EnvOf(c, v);
            var newval := Combine(Or, Wanted(c, d, UserOf(user, id), env), ReverseOf(d.revDep, c, d, env));
            id in v && v[id] == if d.ty != Boolean && d.ty != Tristate then NO
                                else if newval == MOD && EffectiveType(d.ty, c.modules) == Boolean then YES else newval
  {
    hide Wanted, ReverseOf;
    assert v[id] == Rule(c, user, id, EnvOf(c, v));
  }

  /** All symbols, their user values (SYMBOL_DEF_USER and def[S_DEF_USER]) and the memo. */
  class SymbolTable {
    const c: Setup
    ghost const rank: map<nat, nat>
    var user: Values
    var memo: Memo

    constructor (c: Setup, user: Values, ghost rank: map<nat, nat>)
      requires WellFormed(c.decls) && Ranked(c.decls, rank)
      ensures this.c == c && this.rank == rank && this.user == user && memo.valid == {} && Ready(c, rank, memo)
    {
      this.c, this.rank, this.user := c, rank, user;
      memo := Memo({}, Blank(|c.decls|));
    }

    ghost predicate Consistent(v: Values, bound: nat)
      reads this
    {
      Ready(c, rank, memo) && Solution(c, user, v) && Settled(c, rank, v, memo, bound)
    }

    /** expr_calc_value: evaluates the symbols on the way. */
    method CalcExpr(e: Expr, ghost v: Values, ghost bound: nat) returns (t: Tri)
      requires Consistent(v, bound)
      requires forall s | ContainsSymbol(e, s) :: Usable(c, rank, s, bound)
      modifies this`memo
      ensures Consistent(v, bound) && Advanced(c, rank, old(memo), memo, bound)
      ensures t == Value(e, EnvOf(c, v))
      decreases bound, 0, Size(e)
    {
      match e
      case Sym(s) =>
        assert ContainsSymbol(e, s);
        t := CalcSymbol(s, v, bound);
      case Bin(op, l, r) =>
        var t1 := CalcExpr(l, v, bound);
        var t2 := CalcExpr(r, v, bound);
        t := Combine(op, t1, t2);
      case Not(x) =>
        var t1 := CalcExpr(x, v, bound);
        t := Negate(t1);
      case Cmp(rel, l, r) =>
        assert ContainsSymbol(e, l) && ContainsSymbol(e, r);
        var order := CalcCompare(l, r, v, bound);
        t := Truth(Holds(rel, order));
    }

    method CalcCompare(l: Symbol, r: Symbol, ghost v: Values, ghost bound: nat) returns (order: int)
      requires Consistent(v, bound)
      requires Usable(c, rank, l, bound) && Usable(c, rank, r, bound)
      modifies this`memo
      ensures Consistent(v, bound) && Advanced(c, rank, old(memo), memo, bound)
      ensures order == Compare(l, r, EnvOf(c, v))
      decreases bound, 0, 0, 1
    {
      var _ := CalcSymbol(l, v, bound);
      var _ := CalcSymbol(r, v, bound);
      var now := map id | id in memo.info :: memo.info[id].curr;
      CompareStored(c, v, now, l, r);
      order := Compare(l, r, EnvOf(c, now));
    }

    /** sym_calc_value on any symbol: the constants are always up to date. */
    method CalcSymbol(s: Symbol, ghost v: Values, ghost bound: nat) returns (t: Tri)
      requires Consistent(v, bound) && Usable(c, rank, s, bound)
      modifies this`memo
      ensures Consistent(v, bound) && Advanced(c, rank, old(memo), memo, bound)
      ensures t == SymValue(s, EnvOf(c, v)) && (s.Config? ==> s.id in memo.valid)
      decreases bound, 0, 0, 0
    {
      if s.Config? {
        CalcValue(s.id, v, bound);
        t := memo.info[s.id].curr;
        assert v[s.id] == Rule(c, user, s.id, EnvOf(c, v));
      } else {
        t := SymValue(s, EnvOf(c, map[]));
      }
    }

    method CalcOption(e: Option<Expr>, missing: Tri, ghost v: Values, ghost bound: nat) returns (t: Tri)
      requires Consistent(v, bound)
      requires forall s | Mentions(e, s) :: Usable(c, rank, s, bound)
      modifies this`memo
      ensures Consistent(v, bound) && Advanced(c, rank, old(memo), memo, bound)
      ensures t == if e.Some? then Value(e.value, EnvOf(c, v)) else missing
      decreases bound, 1
    {
      match e
      case None => t := missing;
      case Some(x) =>
        assert forall s | ContainsSymbol(x, s) :: Mentions(e, s);
        t := CalcExpr(x, v, bound);
    }

    /** The loop over all prompts in sym_calc_visibility */
    method CalcPrompts(id: nat, ghost v: Values) returns (tri: Tri)
      requires id < |c.decls| && id in rank && Consistent(v, rank[id])
      modifies this`memo
      ensures Consistent(v, rank[id]) && Advanced(c, rank, old(memo), memo, rank[id])
      ensures tri == MaxPrompt(c.decls[id].props, EnvOf(c, v))
      decreases rank[id], 2
    {
      var props := c.decls[id].props;
      tri := NO;
      var i := 0;
      while i < |props|
        invariant 0 <= i <= |props|
        invariant Consistent(v, rank[id]) && Advanced(c, rank, old(memo), memo, rank[id])
        invariant tri == MaxPrompt(props[..i], EnvOf(c, v))
      {
        assert props[..i + 1][..i] == props[..i];
        if props[i].hasText {
          forall s | Mentions(props[i].visible, s) ensures Usable(c, rank, s, rank[id]) {
            assert PropertyMentions(c.decls[id].props[i], s);
            MentionsUsable(c, rank, id, s);
          }
          var t := CalcOption(props[i].visible, YES, v, rank[id]);
          tri := Combine(Or, tri, t);
        }
        i := i + 1;
      }
      assert props[..i] == props;
    }

    /** sym_calc_visibility */
    method CalcVisibility(id: nat, ghost v: Values) returns (fields: Info)
      requires id < |c.decls| && id in rank && Consistent(v, rank[id])
      modifies this`memo
      ensures Consistent(v, rank[id]) && Advanced(c, rank, old(memo), memo, rank[id])
      ensures fields == Fields(c, c.decls[id], EnvOf(c, v))
      decreases rank[id], 3
    {
      var d := c.decls[id];
      forall s | DeclMentions(d, s) ensures Usable(c, rank, s, rank[id]) {
        MentionsUsable(c, rank, id, s);
      }
      var tri := CalcPrompts(id, v);
      if tri == MOD && (d.ty != Tristate || c.modules == NO) { tri := YES; }
      var dir := CalcOption(d.dirDep, YES, v, rank[id]);
      var rev := CalcOption(d.revDep, NO, v, rank[id]);
      var imp := CalcOption(d.implied, NO, v, rank[id]);
      fields := Info(NO, tri, Raise(dir, c, d), Raise(rev, c, d), Raise(imp, c, d));
    }

    /** sym_get_default_prop and the use sym_calc_value makes of it */
    method CalcDefault(id: nat, ghost v: Values) returns (t: Tri)
      requires id < |c.decls| && id in rank && Consistent(v, rank[id])
      modifies this`memo
      ensures Consistent(v, rank[id]) && Advanced(c, rank, old(memo), memo, rank[id])
      ensures t == DefaultOf(c.decls[id].props, EnvOf(c, v))
      decreases rank[id], 2
    {
      var props := c.decls[id].props;
      var i := 0;
      assert props[0..] == props;
      while i < |props|
        invariant 0 <= i <= |props|
        invariant Consistent(v, rank[id]) && Advanced(c, rank, old(memo), memo, rank[id])
        invariant DefaultOf(props, EnvOf(c, v)) == DefaultOf(props[i..], EnvOf(c, v))
      {
        var p := props[i];
        assert props[i..][0] == p && props[i..][1..] == props[i + 1..];
        if p.kind == Default {
          forall s | Mentions(p.visible, s) || Mentions(p.expr, s) ensures Usable(c, rank, s, rank[id]) {
            assert PropertyMentions(c.decls[id].props[i], s);
            MentionsUsable(c, rank, id, s);
          }
          var visible := CalcOption(p.visible, YES, v, rank[id]);
          if visible != NO {
            var value := CalcOption(p.expr, YES, v, rank[id]);
            return Combine(And, value, visible);
          }
        }
        i := i + 1;
      }
      return NO;
    }

    /** sym_calc_value. Whatever was computed before, the symbol ends up valid and with the
        fields of the solution; nothing else of its rank or above changes. */
    method CalcValue(id: nat, ghost v: Values, ghost bound: nat)
      requires id < |c.decls| && id in rank && rank[id] < bound && Consistent(v, bound)
      modifies this`memo
      ensures Consistent(v, bound) && Advanced(c, rank, old(memo), memo, bound)
      ensures id in memo.valid && Stored(c, v, memo, id)
      ensures forall j: nat | j < |c.decls| && j != id && rank[j] >= rank[id] :: SameEntry(old(memo), memo, j)
      decreases rank[id], 5
    {
      if id in memo.valid {
        return;
      }
      hide Fields, WellFormed, Solution;
      ghost var before := memo;
      memo := memo.(valid := memo.valid + {id});
      var curr := CalcNew(id, v);
      Finished(c, rank, v, before, memo, id, bound);
      memo := memo.(info := memo.info[id := memo.info[id].(curr := curr)]);
    }

    /** The fields sym_calc_value stores first, and the value it stores last */
    method CalcNew(id: nat, ghost v: Values) returns (curr: Tri)
      requires id < |c.decls| && id in rank && Consistent(v, rank[id])
      modifies this`memo
      ensures Consistent(v, rank[id]) && old(memo).valid <= memo.valid && (id in memo.valid <==> id in old(memo).valid)
      ensures forall j: nat | j < |c.decls| && j != id && rank[j] >= rank[id] :: SameEntry(old(memo), memo, j)
      ensures curr == v[id]
      ensures c.decls[id].ty != Unknown ==> memo.info[id].(curr := NO) == Fields(c, c.decls[id], EnvOf(c, v))
      decreases rank[id], 4
    {
      ValueByRule(c, user, v, id);
      hide Wanted, VisibleOf, DirDepOf, DeclMentions, WellFormed, Solution, Rule;
      var d := c.decls[id];
      curr := NO;
      if d.ty != Unknown {
        var fields := CalcVisibility(id, v);
        memo := memo.(info := memo.info[id := fields]);
        if d.ty == Boolean || d.ty == Tristate {
          curr := CalcWanted(id, v);
          curr := Combine(Or, curr, memo.info[id].revDep);
          if curr == MOD && EffectiveType(d.ty, c.modules) == Boolean { curr := YES; }
        }
      }
    }

    /** The part of sym_calc_value before the label calc_newval */
    method CalcWanted(id: nat, ghost v: Values) returns (newval: Tri)
      requires id < |c.decls| && id in rank && Consistent(v, rank[id])
      requires memo.info[id] == Fields(c, c.decls[id], EnvOf(c, v))
      modifies this`memo
      ensures Consistent(v, rank[id]) && Advanced(c, rank, old(memo), memo, rank[id])
      ensures newval == Wanted(c, c.decls[id], UserOf(user, id), EnvOf(c, v))
      decreases rank[id], 3
    {
      if memo.info[id].visible != NO && id in user {
        return Combine(And, user[id], memo.info[id].visible);
      }
      newval := CalcDefault(id, v);
      if memo.info[id].implied != NO {
        newval := Combine(Or, newval, memo.info[id].implied);
        newval := Combine(And, newval, memo.info[id].dirDep);
      }
    }

    /** Evaluates the given symbols in the given order, whatever has been evaluated before. */
    method CalcAll(ids: seq<nat>, ghost v: Values, ghost bound: nat)
      requires Consistent(v, bound)
      requires forall id | id in ids :: id < |c.decls| && id in rank && rank[id] < bound
      modifies this`memo
      ensures Consistent(v, bound)
      ensures forall id | id in ids :: id in memo.valid && Stored(c, v, memo, id)
    {
      var i := 0;
      while i < |ids|
        invariant 0 <= i <= |ids| && Consistent(v, bound)
        invariant forall j | 0 <= j < i :: ids[j] in memo.valid
      {
        assert ids[i] in ids;
        CalcValue(ids[i], v, bound);
        i := i + 1;
      }
    }

    /** sym_set_tristate_value on a symbol that is up to date. */
    method SetTristateValue(id: nat, val: Tri, ghost v: Values, ghost bound: nat) returns (ok: bool)
      requires id < |c.decls| && id in rank && rank[id] < bound && Consistent(v, bound) && id in memo.valid
      requires c.decls[id].ty == Boolean || c.decls[id].ty == Tristate
      modifies this
      ensures ok <==> val == v[id] || WithinRange(c, c.decls[id], Fields(c, c.decls[id], EnvOf(c, v)), val)
      ensures !ok ==> user == old(user) && memo == old(memo)
      ensures ok ==> user == old(user)[id := val]
      ensures ok && val == v[id] ==> memo == old(memo)
      ensures ok && val != v[id] ==> forall w | Solution(c, user, w) :: w[id] == val && Consistent(w, bound)
    {
      var oldval := memo.info[id].curr;
      if oldval != val && !WithinRange(c, c.decls[id], memo.info[id], val) {
        return false;
      }
      user := user[id := val];
      if oldval != val {
        memo := memo.(valid := {});
        forall w | Solution(c, user, w) ensures w[id] == val {
          SettingTakesEffect(c, rank, old(user), id, val, v, w);
        }
      }
      ok := true;
    }
  }
}

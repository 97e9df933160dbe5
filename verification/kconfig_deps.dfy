/** Symbol declarations and the search for recursive dependencies
    (nemu/tools/kconfig/symbol.c:1130-1279). */
module SymbolGraph {
  import opened Wrappers
  import opened Expressions
  import opened Transformation
  import opened Dependencies

  datatype PropertyKind = Prompt | Comment | MenuTitle | Default | ChoiceValues | Select | Imply | Range | SymbolEntry

  /** `hasText` tells whether the property is a prompt in the sense of for_all_prompts. */
  datatype Property = Property(kind: PropertyKind, hasText: bool, visible: Option<Expr>, expr: Option<Expr>)

  /** What the Kconfig files say about one symbol that belongs to no choice. */
  datatype Decl = Decl(ty: SymbolType, dirDep: Option<Expr>, revDep: Option<Expr>, implied: Option<Expr>,
                       props: seq<Property>)

  predicate Mentions(e: Option<Expr>, s: Symbol) { e.Some? && ContainsSymbol(e.value, s) }

  /** sym_check_sym_deps passes over selects and implies: they show up in the rev_dep and
      implied expressions of the symbols they point at. */
  predicate Skipped(p: Property) { p.kind == ChoiceValues || p.kind == Select || p.kind == Imply }

  predicate PropertyMentions(p: Property, s: Symbol) {
    !Skipped(p) && (Mentions(p.visible, s) || (p.kind == Default && Mentions(p.expr, s)))
  }

  predicate DeclMentions(d: Decl, s: Symbol) {
    Mentions(d.dirDep, s) || Mentions(d.revDep, s) || Mentions(d.implied, s) ||
    exists i | 0 <= i < |d.props| :: PropertyMentions(d.props[i], s)
  }

  type Decls = seq<Decl>

  /** s depends directly on t. Constants and symbols that no Kconfig file declares depend on
      nothing. */
  predicate DependsOn(decls: Decls, s: Symbol, t: Symbol) {
    s.Config? && s.id < |decls| && DeclMentions(decls[s.id], t)
  }

  // ---- cycles and topological orders ----

  /** Each symbol of the path depends on the next one. */
  ghost predicate IsPath(decls: Decls, path: seq<Symbol>) {
    forall i | 0 < i < |path| :: DependsOn(decls, path[i - 1], path[i])
  }

  lemma LongerPath(decls: Decls, path: seq<Symbol>, s: Symbol)
    requires IsPath(decls, path) && (path != [] ==> DependsOn(decls, path[|path| - 1], s))
    ensures IsPath(decls, path + [s])
  {}

  lemma ShorterPath(decls: Decls, path: seq<Symbol>)
    requires IsPath(decls, path) && path != []
    ensures IsPath(decls, path[..|path| - 1])
  {
    hide DependsOn;
    var front := path[..|path| - 1];
    forall i | 0 < i < |front| ensures DependsOn(decls, front[i - 1], front[i]) {
      assert DependsOn(decls, path[i - 1], path[i]);
    }
  }

  ghost predicate IsCycle(decls: Decls, path: seq<Symbol>, s: Symbol) {
    path != [] && path[0] == s && IsPath(decls, path) && DependsOn(decls, path[|path| - 1], s)
  }

  ghost predicate OnCycle(decls: Decls, s: Symbol) { exists path :: IsCycle(decls, path, s) }

  ghost predicate Before(decls: Decls, order: seq<Symbol>, i: nat)
    requires i < |order|
  {
    forall t | DependsOn(decls, order[i], t) :: t in order[..i]
  }

  /** Everything a symbol of the order depends on stands before it. */
  ghost predicate Topological(decls: Decls, order: seq<Symbol>) {
    forall i | 0 <= i < |order| :: Before(decls, order, i)
  }

  lemma TopologicalExtend(decls: Decls, order: seq<Symbol>, s: Symbol)
    requires Topological(decls, order)
    requires forall t | DependsOn(decls, s, t) :: t in order
    ensures Topological(decls, order + [s])
  {
    var longer := order + [s];
    forall i | 0 <= i < |longer|
      ensures Before(decls, longer, i)
    {
      assert longer[..i] == order[..i];
      if i < |order| { assert Before(decls, order, i); }
    }
  }

  /** A path from a symbol of the order stays inside the part of the order before it. */
  lemma {:induction false} PathGoesDown(decls: Decls, order: seq<Symbol>, path: seq<Symbol>, k: nat)
    requires Topological(decls, order) && IsPath(decls, path) && path != []
    requires k <= |order| && path[0] in order[..k]
    ensures path[|path| - 1] in order[..k]
    decreases |path|
  {
    if |path| > 1 {
      var i :| 0 <= i < k && order[i] == path[0];
      assert Before(decls, order, i);
      assert DependsOn(decls, path[0], path[1]);
      var rest := path[1..];
      assert IsPath(decls, rest) by {
        forall j | 0 < j < |rest| ensures DependsOn(decls, rest[j - 1], rest[j]) {
          assert DependsOn(decls, path[j], path[j + 1]);
        }
      }
      PathGoesDown(decls, order, rest, i);
    }
  }

  /** No symbol of a topological order lies on a cycle. */
  lemma OrderHasNoCycle(decls: Decls, order: seq<Symbol>, s: Symbol)
    requires Topological(decls, order) && s in order
    ensures !OnCycle(decls, s)
  {
    if path :| IsCycle(decls, path, s) {
      NoCycleBelow(decls, order, path, s, |order|);
    }
  }

  lemma {:induction false} NoCycleBelow(decls: Decls, order: seq<Symbol>, path: seq<Symbol>, s: Symbol, k: nat)
    requires Topological(decls, order) && k <= |order| && s in order[..k]
    ensures !IsCycle(decls, path, s)
    decreases k
  {
    if IsCycle(decls, path, s) {
      PathGoesDown(decls, order, path, k);
      var last := path[|path| - 1];
      var i :| 0 <= i < k && order[i] == last;
      assert Before(decls, order, i);
      NoCycleBelow(decls, order, path, s, i);
    }
  }

  // ---- the depth-first search ----

  /** The SYMBOL_CHECK and SYMBOL_CHECKED flags of all symbols. The ghost fields keep the
      call stack of sym_check_sym_deps and the order in which symbols passed. */
  class Checker {
    const decls: Decls
    var check: set<Symbol>
    var checked: set<Symbol>
    ghost var stack: seq<Symbol>
    ghost var order: seq<Symbol>

    constructor (decls: Decls)
      ensures this.decls == decls && check == {} == checked && stack == [] == order
    {
      this.decls := decls;
      check, checked := {}, {};
      stack, order := [], [];
    }

    /** The flags describe the stack, and it is a path. */
    ghost predicate Valid()
      reads this
    {
      && check == (set s | s in stack)
      && check <= checked
      && IsPath(decls, stack)
      && Topological(decls, order)
      && (forall s | s in order :: s in checked && s !in check)
      && (forall i, j | 0 <= i < j < |order| :: order[i] != order[j])
    }

    /** No cycle has been met: what is checked and not on the stack has passed. */
    ghost predicate Clean()
      reads this
    {
      forall s | s in checked :: s in check || s in order
    }

    /** The symbols that may still be reached. */
    ghost predicate Within(universe: set<Symbol>)
      reads this
    {
      && (forall s, t | s in universe && DependsOn(decls, s, t) :: t in universe)
    }

    /** sym_check_expr_deps. The symbol on top of the stack is the one being examined. */
    method CheckExprDeps(e: Expr, ghost universe: set<Symbol>) returns (found: Option<Symbol>)
      requires Valid() && Within(universe) && stack != []
      requires forall t | ContainsSymbol(e, t) :: t in universe && DependsOn(decls, stack[|stack| - 1], t)
      modifies this
      ensures Valid() && stack == old(stack) && old(checked) <= checked && old(order) <= order
      ensures found.Some? ==> found.value in universe && OnCycle(decls, found.value)
      ensures old(Clean()) && found.None? ==> Clean() && forall t | ContainsSymbol(e, t) :: t in order
      decreases universe - checked, 1, Size(e)
    {
      match e
      case Bin(_, l, r) =>
        found := CheckExprDeps(l, universe);
        if found.Some? { return; }
        found := CheckExprDeps(r, universe);
      case Not(x) =>
        found := CheckExprDeps(x, universe);
      case Cmp(_, l, r) =>
        assert ContainsSymbol(e, l) && ContainsSymbol(e, r);
        found := CheckDeps(l, universe);
        if found.Some? { return; }
        found := CheckDeps(r, universe);
      case Sym(s) =>
        assert ContainsSymbol(e, s);
        found := CheckDeps(s, universe);
    }

    method CheckOptionDeps(e: Option<Expr>, ghost universe: set<Symbol>) returns (found: Option<Symbol>)
      requires Valid() && Within(universe) && stack != []
      requires forall t | Mentions(e, t) :: t in universe && DependsOn(decls, stack[|stack| - 1], t)
      modifies this
      ensures Valid() && stack == old(stack) && old(checked) <= checked && old(order) <= order
      ensures found.Some? ==> found.value in universe && OnCycle(decls, found.value)
      ensures old(Clean()) && found.None? ==> Clean() && forall t | Mentions(e, t) :: t in order
      decreases universe - checked, 2
    {
      match e
      case None => found := None;
      case Some(x) =>
        assert forall t | ContainsSymbol(x, t) :: Mentions(e, t);
        found := CheckExprDeps(x, universe);
    }

    /** The loop body of sym_check_sym_deps */
    method CheckPropertyDeps(p: Property, ghost universe: set<Symbol>) returns (found: Option<Symbol>)
      requires Valid() && Within(universe) && stack != []
      requires forall t | PropertyMentions(p, t) :: t in universe && DependsOn(decls, stack[|stack| - 1], t)
      modifies this
      ensures Valid() && stack == old(stack) && old(checked) <= checked && old(order) <= order
      ensures found.Some? ==> found.value in universe && OnCycle(decls, found.value)
      ensures old(Clean()) && found.None? ==> Clean() && forall t | PropertyMentions(p, t) :: t in order
      decreases universe - checked, 3
    {
      hide IsPath, Topological, ContainsSymbol, OnCycle, DependsOn;
      found := None;
      if !Skipped(p) {
        assert forall t | Mentions(p.visible, t) :: PropertyMentions(p, t);
        found := CheckOptionDeps(p.visible, universe);
        if found.Some? { return; }
        if p.kind == Default {
          assert forall t | Mentions(p.expr, t) :: PropertyMentions(p, t);
          found := CheckOptionDeps(p.expr, universe);
        }
      }
    }

    /** sym_check_sym_deps */
    method CheckSymDeps(s: Symbol, ghost universe: set<Symbol>) returns (found: Option<Symbol>)
      requires Valid() && Within(universe) && s in universe
      requires stack != [] && stack[|stack| - 1] == s
      modifies this
      ensures Valid() && stack == old(stack) && old(checked) <= checked && old(order) <= order
      ensures found.Some? ==> found.value in universe && OnCycle(decls, found.value)
      ensures old(Clean()) && found.None? ==> Clean() && forall t | DependsOn(decls, s, t) :: t in order
      decreases universe - checked, 4
    {
      hide IsPath, Topological, ContainsSymbol, OnCycle, PropertyMentions, Before;
      if !(s.Config? && s.id < |decls|) {
        return None;
      }
      var d := decls[s.id];
      found := CheckOptionDeps(d.dirDep, universe);
      if found.Some? { return; }
      found := CheckOptionDeps(d.revDep, universe);
      if found.Some? { return; }
      found := CheckOptionDeps(d.implied, universe);
      if found.Some? { return; }
      var i := 0;
      while i < |d.props|
        invariant 0 <= i <= |d.props| && found.None?
        invariant Valid() && stack == old(stack) && old(checked) <= checked && old(order) <= order
        invariant old(Clean()) ==> Clean()
        invariant old(Clean()) ==>
                    forall t | Mentions(d.dirDep, t) || Mentions(d.revDep, t) || Mentions(d.implied, t) :: t in order
        invariant old(Clean()) ==> forall t, j | 0 <= j < i && PropertyMentions(d.props[j], t) :: t in order
      {
        found := CheckPropertyDeps(d.props[i], universe);
        if found.Some? { return; }
        i := i + 1;
      }
    }

    /** sym_check_deps */
    method CheckDeps(s: Symbol, ghost universe: set<Symbol>) returns (found: Option<Symbol>)
      requires Valid() && Within(universe) && s in universe
      requires stack != [] ==> DependsOn(decls, stack[|stack| - 1], s)
      modifies this
      ensures Valid() && stack == old(stack) && old(checked) <= checked && old(order) <= order
      ensures found.Some? ==> found.value in universe && OnCycle(decls, found.value)
      ensures old(Clean()) && found.None? ==> Clean() && s in order
      decreases universe - checked, 0
    {
      hide DependsOn, Before, OnCycle, IsPath, Topological;
      if s in check {
        StackCycle(s);
        return Some(s);
      }
      if s in checked {
        return None;
      }
      Enter(s);
      found := CheckSymDeps(s, universe);
      Leave(s, old(Clean()) && found.None?);
    }

    /** Sets CHECK and CHECKED. */
    method Enter(s: Symbol)
      requires Valid() && s !in checked && (stack != [] ==> DependsOn(decls, stack[|stack| - 1], s))
      modifies this
      ensures Valid() && stack == old(stack) + [s] && checked == old(checked) + {s} && order == old(order)
      ensures old(Clean()) ==> Clean()
    {
      hide DependsOn, IsPath, Topological;
      LongerPath(decls, stack, s);
      check, checked := check + {s}, checked + {s};
      stack := stack + [s];
    }

    /** Clears CHECK; a symbol that has passed enters the order. */
    method Leave(s: Symbol, ghost passed: bool)
      requires Valid() && stack != [] && stack[|stack| - 1] == s && s !in stack[..|stack| - 1]
      requires passed ==> Clean() && forall t | DependsOn(decls, s, t) :: t in order
      modifies this
      ensures Valid() && stack == old(stack)[..|old(stack)| - 1] && checked == old(checked)
      ensures order == if passed then old(order) + [s] else old(order)
      ensures passed ==> Clean()
    {
      hide DependsOn, Topological, IsPath;
      assert stack == stack[..|stack| - 1] + [s] && s !in order;
      ShorterPath(decls, stack);
      check := check - {s};
      stack := stack[..|stack| - 1];
      if passed {
        TopologicalExtend(decls, order, s);
        order := order + [s];
      }
      assert forall t | t in order :: t in checked && t !in check;
    }

    /** A symbol met again while it is on the stack closes a cycle. */
    lemma StackCycle(s: Symbol)
      requires Valid() && s in check && DependsOn(decls, stack[|stack| - 1], s)
      requires stack != []
      ensures OnCycle(decls, s)
    {
      var i :| 0 <= i < |stack| && stack[i] == s;
      var path := stack[i..];
      forall j | 0 < j < |path| ensures DependsOn(decls, path[j - 1], path[j]) {
        assert DependsOn(decls, stack[i + j - 1], stack[i + j]);
      }
      assert IsCycle(decls, path, s);
    }
  }

  /** The caller's loop over all symbols. The search is exact: every symbol it reports lies
      on a cycle, and it reports something if and only if there is a cycle. When it reports
      nothing, the symbols have an order in which each comes after all that it depends on.
      All flags are clear again afterwards. */
  method CheckAll(decls: Decls, symbols: seq<Symbol>)
    returns (errors: seq<Symbol>, flagsLeft: set<Symbol>, ghost order: seq<Symbol>)
    requires forall s, t | s in symbols && DependsOn(decls, s, t) :: t in symbols
    ensures forall s | s in errors :: s in symbols && OnCycle(decls, s)
    ensures errors == [] <==> forall s | s in symbols :: !OnCycle(decls, s)
    ensures errors == [] ==> Topological(decls, order) && forall s | s in symbols :: s in order
    ensures forall i, j | 0 <= i < j < |order| :: order[i] != order[j]
    ensures flagsLeft == {}
  {
    var checker := new Checker(decls);
    ghost var universe := set s | s in symbols;
    errors := [];
    var i := 0;
    while i < |symbols|
      invariant 0 <= i <= |symbols|
      invariant checker.decls == decls && checker.Valid() && checker.Within(universe) && checker.stack == []
      invariant forall s | s in errors :: s in symbols && OnCycle(decls, s)
      invariant errors == [] ==> checker.Clean() && forall j | 0 <= j < i :: symbols[j] in checker.order
    {
      var found := checker.CheckDeps(symbols[i], universe);
      if found.Some? { errors := errors + [found.value]; }
      i := i + 1;
    }
    order, flagsLeft := checker.order, checker.check;
    if errors != [] { assert errors[0] in errors; }
    forall s | errors == [] && s in symbols
      ensures !OnCycle(decls, s)
    {
      OrderHasNoCycle(decls, order, s);
    }
  }

  // ---- which dependencies count ----

  /** The symbol stands somewhere in the expression. */
  ghost predicate Named(e: Option<Expr>, t: Symbol) { e.Some? && exists x :: Occurs(x, e.value) && Shows(x, t) }

  lemma MentionsMeaning(e: Option<Expr>, t: Symbol)
    ensures Mentions(e, t) <==> Named(e, t)
  {
    if e.Some? { ContainsSymbolFinds(e.value, t); }
  }

  /** What a property makes its symbol depend on: the names in its condition, and those in the value of a
      default, but nothing at all in a select, an imply or a choice. */
  ghost predicate PropertyNames(p: Property, t: Symbol) {
    match p.kind
    case Select => false
    case Imply => false
    case ChoiceValues => false
    case Default => Named(p.visible, t) || Named(p.expr, t)
    case _ => Named(p.visible, t)
  }

  /** Exactly these are the edges of the graph. */
  lemma EdgeMeaning(decls: Decls, s: Symbol, t: Symbol)
    ensures DependsOn(decls, s, t) <==>
              && s.Config? && s.id < |decls|
              && var d := decls[s.id];
                 || Named(d.dirDep, t) || Named(d.revDep, t) || Named(d.implied, t)
                 || exists i | 0 <= i < |d.props| :: PropertyNames(d.props[i], t)
  {
    if s.Config? && s.id < |decls| {
      var d := decls[s.id];
      MentionsMeaning(d.dirDep, t);
      MentionsMeaning(d.revDep, t);
      MentionsMeaning(d.implied, t);
      forall i | 0 <= i < |d.props| ensures PropertyMentions(d.props[i], t) <==> PropertyNames(d.props[i], t) {
        MentionsMeaning(d.props[i].visible, t);
        MentionsMeaning(d.props[i].expr, t);
      }
    }
  }

  /** The value of a property that is no default does not count, and nothing of a select, an imply or a
      choice does. */
  lemma IrrelevantParts(p: Property, q: Property, t: Symbol)
    requires p.kind == q.kind
    requires p.kind in {Select, Imply, ChoiceValues} || (p.kind != Default && p.visible == q.visible)
    ensures PropertyMentions(p, t) <==> PropertyMentions(q, t)
  {}

  /** So declarations that differ there only have the same cycles, and the check gives the same answer. */
  lemma SameCycles(decls: Decls, other: Decls, s: Symbol)
    requires |decls| == |other|
    requires forall id: nat, t | id < |decls| :: DeclMentions(decls[id], t) == DeclMentions(other[id], t)
    ensures OnCycle(decls, s) <==> OnCycle(other, s)
  {
    forall path ensures IsCycle(decls, path, s) <==> IsCycle(other, path, s) {
      assert forall i | 0 < i < |path| ::
               DependsOn(decls, path[i - 1], path[i]) == DependsOn(other, path[i - 1], path[i]);
      if IsPath(decls, path) || IsPath(other, path) {
        assert IsPath(decls, path) && IsPath(other, path) by {
          SamePaths(decls, other, path);
        }
      }
    }
  }

  lemma SamePaths(decls: Decls, other: Decls, path: seq<Symbol>)
    requires forall i | 0 < i < |path| ::
               DependsOn(decls, path[i - 1], path[i]) == DependsOn(other, path[i - 1], path[i])
    ensures IsPath(decls, path) <==> IsPath(other, path)
  {}

  /** The entry that says where a symbol is declared names the symbol itself, which is no dependency. */
  lemma DeclarationIsNoCycle(ty: SymbolType, prompt: Property)
    requires prompt.kind == Prompt && prompt.visible == None
    ensures var s := Config(0, ty);
            var entry := Property(SymbolEntry, false, None, Some(Sym(s)));
            !OnCycle([Decl(ty, None, None, None, [entry, prompt])], s)
  {
    var s := Config(0, ty);
    var decls := [Decl(ty, None, None, None, [Property(SymbolEntry, false, None, Some(Sym(s))), prompt])];
    assert forall a, t :: !DependsOn(decls, a, t);
  }
}

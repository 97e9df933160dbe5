/** Kconfig expressions and what they evaluate to
    (nemu/tools/kconfig/expr.h, and expr_calc_value in expr.c). */
module Expressions {
  import opened Wrappers

  // ---- tristate values: n < m < y ----

  type Tri = t: int | 0 <= t <= 2
  const NO: Tri := 0
  const MOD: Tri := 1
  const YES: Tri := 2

  /** E_AND and E_OR differ only in which constant is neutral and which absorbs. */
  datatype Junction = And | Or

  function Combine(op: Junction, a: Tri, b: Tri): Tri {
    match op
    case And => if a < b then a else b
    case Or => if a > b then a else b
  }

  function Negate(a: Tri): Tri { 2 - a }

  // ---- symbols ----

  datatype SymbolType = Unknown | Boolean | Tristate | Integer | Hexadecimal | Text

  /** The name of a constant other than the three dedicated ones: sym_lookup maps
      "y", "m" and "n" to symbol_yes, symbol_mod and symbol_no. */
  type LiteralText = s: string | s != "y" && s != "m" && s != "n" witness ""

  datatype Symbol =
    | SymYes
    | SymMod
    | SymNo
    | Literal(text: LiteralText)
    | Config(id: nat, ty: SymbolType)

  predicate IsConst(s: Symbol) { !s.Config? }

  predicate IsTruth(s: Symbol) { s.SymYes? || s.SymMod? || s.SymNo? }

  /** Symbols that expr_join_or and expr_join_and reason about. */
  predicate HasTristateValue(s: Symbol) {
    s.Config? && (s.ty == Boolean || s.ty == Tristate)
  }

  function UnitSym(op: Junction): Symbol { if op == And then SymYes else SymNo }

  function ZeroSym(op: Junction): Symbol { if op == And then SymNo else SymYes }

  // ---- expressions ----

  datatype Relation = Equal | Unequal | Lth | Leq | Gth | Geq

  datatype Expr =
    | Sym(s: Symbol)
    | Not(e: Expr)
    | Bin(op: Junction, left: Expr, right: Expr)
    | Cmp(rel: Relation, lhs: Symbol, rhs: Symbol)

  predicate IsOp(e: Expr, op: Junction) { e.Bin? && e.op == op }

  function Size(e: Expr): (n: nat)
    ensures n >= 1
  {
    match e
    case Sym(_) => 1
    case Cmp(_, _, _) => 1
    case Not(x) => 1 + Size(x)
    case Bin(_, l, r) => 1 + Size(l) + Size(r)
  }

  // ---- evaluation ----

  /** One assignment. `tri` gives each configuration symbol a value, `text` each int, hex, string or
      undeclared symbol its string value (of an undeclared symbol that is its name), `order` the
      three-way result of comparing such a symbol with anything but y, m and n, and `number` what
      strtoll makes of a literal that reads as a number. Missing entries read as n, "", 0 and "no
      number". */
  datatype Env = Env(tri: map<nat, Tri>, text: map<nat, string>, order: map<(Symbol, Symbol), int>,
                     number: map<string, int>)

  /** A bool symbol is n or y; symbols of the other types have curr.tri == n. */
  function SymValue(s: Symbol, env: Env): Tri {
    match s
    case SymYes => YES
    case SymMod => MOD
    case SymNo => NO
    case Literal(_) => NO
    case Config(id, ty) =>
      var v := if id in env.tri then env.tri[id] else NO;
      match ty
      case Tristate => v
      case Boolean => if v == NO then NO else YES
      case _ => NO
  }

  function Letter(t: Tri): string {
    if t == NO then "n" else if t == MOD then "m" else "y"
  }

  function Strcmp(a: string, b: string): (r: int)
    ensures r == 0 <==> a == b
  {
    if a == [] || b == [] then |a| - |b|
    else if a[0] == b[0] then
      var r := Strcmp(a[1..], b[1..]);
      assert a == [a[0]] + a[1..] && b == [b[0]] + b[1..];
      r
    else a[0] as int - b[0] as int
  }

  function ConstText(c: Symbol): string
    requires IsConst(c)
  {
    match c
    case SymYes => "y"
    case SymMod => "m"
    case SymNo => "n"
    case Literal(text) => text
  }

  /** sym_get_string_value */
  function SymText(s: Symbol, env: Env): string {
    match s
    case Config(id, ty) =>
      if ty == Boolean || ty == Tristate then Letter(SymValue(s, env))
      else if id in env.text then env.text[id]
      else ""
    case _ => ConstText(s)
  }

  /** What expr_parse_string makes of a constant: only literals can read as numbers. */
  function ConstNumber(c: Symbol, number: map<string, int>): Option<int>
    requires IsConst(c)
  {
    if c.Literal? && c.text in number then Some(number[c.text]) else None
  }

  /** Two operands are compared as numbers when both have one, and as text otherwise. */
  function CompareReadings(text1: string, number1: Option<int>, text2: string, number2: Option<int>): int {
    if number1.Some? && number2.Some? then number1.value - number2.value else Strcmp(text1, text2)
  }

  /** The three-way result of comparing a bool/tristate symbol of value t with a constant. */
  function TriCompare(t: Tri, c: Symbol, number: map<string, int>): int
    requires IsConst(c)
  {
    CompareReadings(Letter(t), Some(t), ConstText(c), ConstNumber(c, number))
  }

  function Compare(l: Symbol, r: Symbol, env: Env): int {
    if HasTristateValue(l) && IsConst(r) then TriCompare(SymValue(l, env), r, env.number)
    else if HasTristateValue(l) && HasTristateValue(r) then SymValue(l, env) - SymValue(r, env)
    else if IsConst(l) && HasTristateValue(r) then
      var t := SymValue(r, env);
      CompareReadings(ConstText(l), ConstNumber(l, env.number), Letter(t), Some(t))
    else if IsConst(l) && IsConst(r) then
      CompareReadings(ConstText(l), ConstNumber(l, env.number), ConstText(r), ConstNumber(r, env.number))
    else if IsTruth(l) || IsTruth(r) then Strcmp(SymText(l, env), SymText(r, env))
    else if (l, r) in env.order then env.order[(l, r)]
    else 0
  }

  predicate Holds(rel: Relation, c: int) {
    match rel
    case Equal => c == 0
    case Unequal => c != 0
    case Lth => c < 0
    case Leq => c <= 0
    case Gth => c > 0
    case Geq => c >= 0
  }

  function Truth(b: bool): Tri { if b then YES else NO }

  /** expr_calc_value on a finished assignment. */
  function Value(e: Expr, env: Env): Tri {
    match e
    case Sym(s) => SymValue(s, env)
    case Not(x) => Negate(Value(x, env))
    case Bin(op, l, r) => Combine(op, Value(l, env), Value(r, env))
    case Cmp(rel, l, r) => Truth(Holds(rel, Compare(l, r, env)))
  }

  /** A NULL expression is taken to be y. */
  function ValueOf(e: Option<Expr>, env: Env): Tri {
    match e
    case None => YES
    case Some(x) => Value(x, env)
  }

  /** expr_is_yes */
  predicate IsYes(e: Option<Expr>) { e.None? || e.value == Sym(SymYes) }

  // ---- numeric literals ----

  /** The one tristate value that a constant is equal to, if there is one */
  function Reading(c: Symbol, number: map<string, int>): Option<Tri>
    requires IsConst(c)
  {
    match c
    case SymYes => Some(YES)
    case SymMod => Some(MOD)
    case SymNo => Some(NO)
    case Literal(text) => if text in number && NO <= number[text] <= YES then Some(number[text]) else None
  }

  /** A tristate symbol is tested for a literal that reads as the number of a value. expr_join_and
      tells constants apart by identity, while the test itself goes by number, so '2' is a second
      spelling of 'y'. */
  predicate NumericTest(l: Symbol, r: Symbol, env: Env) {
    l.Config? && l.ty == Tristate && r.Literal? && Reading(r, env.number).Some?
  }

  predicate NumberFree(e: Expr, env: Env) {
    match e
    case Sym(_) => true
    case Not(x) => NumberFree(x, env)
    case Bin(_, l, r) => NumberFree(l, env) && NumberFree(r, env)
    case Cmp(rel, l, r) => rel == Equal || rel == Unequal ==> !NumericTest(l, r, env)
  }

  /** b may stand for a: under every assignment in which a tests no tristate symbol for a second
      spelling of a value, b does not either and the two have the same value. */
  ghost predicate Stands(a: Expr, b: Expr) {
    forall env: Env :: NumberFree(a, env) ==> NumberFree(b, env) && Value(a, env) == Value(b, env)
  }
}

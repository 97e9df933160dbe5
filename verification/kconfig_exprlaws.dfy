/** What expressions evaluate to (nemu/tools/kconfig/expr.c:1030-1102). */
module EvaluationLaws {
  import opened Expressions
  import opened Transformation
  import opened Dependencies

  /** && is the smaller value, || the greater one, and ! mirrors y and n. */
  lemma OperatorsMeaning(a: Expr, b: Expr, env: Env)
    ensures Value(Bin(And, a, b), env) <= Value(a, env) && Value(Bin(And, a, b), env) <= Value(b, env)
    ensures Value(Bin(And, a, b), env) in {Value(a, env), Value(b, env)}
    ensures Value(Bin(Or, a, b), env) >= Value(a, env) && Value(Bin(Or, a, b), env) >= Value(b, env)
    ensures Value(Bin(Or, a, b), env) in {Value(a, env), Value(b, env)}
    ensures Value(Not(a), env) + Value(a, env) == YES
  {}

  /** A comparison is y where the relation holds, and n elsewhere. */
  predicate Compares(l: Symbol, r: Symbol, env: Env, x: int, y: int) {
    && Value(Cmp(Equal, l, r), env) == (if x == y then YES else NO)
    && Value(Cmp(Unequal, l, r), env) == (if x != y then YES else NO)
    && Value(Cmp(Lth, l, r), env) == (if x < y then YES else NO)
    && Value(Cmp(Leq, l, r), env) == (if x <= y then YES else NO)
    && Value(Cmp(Gth, l, r), env) == (if x > y then YES else NO)
    && Value(Cmp(Geq, l, r), env) == (if x >= y then YES else NO)
  }

  /** Two literals that read as numbers are compared as numbers. */
  lemma NumbersCompare(a: LiteralText, b: LiteralText, env: Env)
    requires a in env.number && b in env.number
    ensures Compares(Literal(a), Literal(b), env, env.number[a], env.number[b])
  {}

  /** Two bool or tristate symbols are compared by value. */
  lemma ValuesCompare(s: Symbol, t: Symbol, env: Env)
    requires HasTristateValue(s) && HasTristateValue(t)
    ensures Compares(s, t, env, SymValue(s, env), SymValue(t, env))
  {}

  /** One of them and a literal that reads as a number are compared by number. */
  lemma ValueComparesWithNumber(s: Symbol, a: LiteralText, env: Env)
    requires HasTristateValue(s) && a in env.number
    ensures Compares(s, Literal(a), env, SymValue(s, env), env.number[a])
    ensures Compares(Literal(a), s, env, env.number[a], SymValue(s, env))
  {}

  /** a stands before b in the order of strings: it ends first, or has the smaller character where they
      first differ. */
  ghost predicate Earlier(a: string, b: string) {
    exists k: nat :: FirstDifference(a, b, k) && k < |b| && (k == |a| || a[k] < b[k])
  }

  predicate FirstDifference(a: string, b: string, k: nat) {
    k <= |a| && k <= |b| && a[..k] == b[..k] && (k < |a| && k < |b| ==> a[k] != b[k])
  }

  lemma {:induction false} StringsDiffer(a: string, b: string) returns (k: nat)
    requires a != b
    ensures FirstDifference(a, b, k) && (k < |a| || k < |b|)
    ensures Strcmp(a, b) < 0 <==> k < |b| && (k == |a| || a[k] < b[k])
  {
    if a == "" || b == "" || a[0] != b[0] {
      k := 0;
    } else {
      assert a == [a[0]] + a[1..] && b == [b[0]] + b[1..];
      k := StringsDiffer(a[1..], b[1..]);
      k := k + 1;
      assert a[..k] == [a[0]] + a[1..][..k - 1] && b[..k] == [b[0]] + b[1..][..k - 1];
    }
  }

  lemma SamePrefix(a: string, b: string, k: nat)
    requires k <= |a| && k <= |b| && a[..k] == b[..k]
    ensures forall i | 0 <= i < k :: a[i] == b[i]
  {
    forall i | 0 <= i < k ensures a[i] == b[i] {
      assert a[..k][i] == b[..k][i];
    }
  }

  lemma OneDifference(a: string, b: string, k: nat, j: nat)
    requires FirstDifference(a, b, k) && FirstDifference(a, b, j) && (k < |a| || k < |b|) && (j < |a| || j < |b|)
    ensures k == j
  {
    SamePrefix(a, b, j);
    SamePrefix(a, b, k);
  }

  /** Where one side does not read as a number, texts are compared. */
  lemma TextsCompare(a: LiteralText, b: LiteralText, env: Env)
    requires a !in env.number || b !in env.number
    ensures Value(Cmp(Equal, Literal(a), Literal(b)), env) == YES <==> a == b
    ensures Value(Cmp(Lth, Literal(a), Literal(b)), env) == YES <==> Earlier(a, b)
  {
    TextOrder(a, b);
  }

  lemma TextOrder(a: string, b: string)
    ensures Strcmp(a, b) < 0 <==> Earlier(a, b)
  {
    if a != b {
      var k := StringsDiffer(a, b);
      forall j: nat | FirstDifference(a, b, j) && j < |b| && (j == |a| || a[j] < b[j]) ensures j == k {
        OneDifference(a, b, k, j);
      }
    }
  }

  /** rewrite_m reaches every m that stands for itself. */
  lemma {:induction false} RewritesEveryM(e: Expr)
    ensures forall x | Occurs(x, ReplaceM(e, SymNo)) :: x != Sym(SymMod)
    ensures (forall x | Occurs(x, e) :: x != Sym(SymMod)) ==> ReplaceM(e, SymNo) == e
  {
    match e
    case Not(a) =>
      RewritesEveryM(a);
      assert forall x :: Occurs(x, e) <==> x == e || Occurs(x, a);
    case Bin(_, l, r) =>
      RewritesEveryM(l);
      RewritesEveryM(r);
      assert forall x :: Occurs(x, e) <==> x == e || Occurs(x, l) || Occurs(x, r);
    case _ =>
      OccursInAtom(e);
      assert Occurs(e, e);
  }
}

/** 64-bit words in two halves, shifts with their ranges, and bit counts
    (abstract-machine/klib/src/int64.c:156-194 and 679-774). */
module Words64 {
  import opened Words
  import opened ShiftMath

  const B32 := 0x1_0000_0000
  const B63 := 0x8000_0000_0000_0000
  const B64 := 0x1_0000_0000_0000_0000

  type U64 = x: int | 0 <= x < 0x1_0000_0000_0000_0000

  function High(a: U64): Word { a / B32 }

  function Low(a: U64): Word { a % B32 }

  function Make(high: Word, low: Word): U64 { high * B32 + low }

  // ---- C operators on 32-bit halves; shift amounts must stay below the width ----

  function Shl(a: Word, k: nat): Word
    requires k < 32
  {
    a * Pow2(k) % B32
  }

  function Shr(a: Word, k: nat): Word
    requires k < 32
  {
    DivBound(a, Pow2(k));
    a / Pow2(k)
  }

  function And(a: nat, b: nat): nat { Bitwise(LogicAnd, a, b) }

  function Or(a: nat, b: nat): nat { Bitwise(LogicOr, a, b) }

  function Xor(a: nat, b: nat): nat { Bitwise(LogicXor, a, b) }

  lemma {:induction false} OrZero(a: nat)
    ensures Or(0, a) == a && Or(a, 0) == a
  {
    if a > 0 { OrZero(a / 2); }
  }

  lemma {:induction false} OrCommutes(a: nat, b: nat)
    ensures Or(a, b) == Or(b, a)
  {
    if !(a == 0 && b == 0) { OrCommutes(a / 2, b / 2); }
  }

  /** Where no bits meet, | is +. */
  lemma OrDisjoint(a: nat, b: nat, k: nat)
    requires b < Pow2(k)
    ensures Pow2(k) * a >= 0 && Or(Pow2(k) * a, b) == Pow2(k) * a + b
  {
    hide Pow2, Bitwise;
    BitwiseJoin(LogicOr, 0, a, b, 0, k);
    assert Pow2(k) * 0 == 0;
    OrZero(a);
    OrZero(b);
  }

  lemma Pow64(n: nat)
    ensures n == 32 ==> Pow2(n) == B32
    ensures n == 63 ==> Pow2(n) == B63
    ensures n == 64 ==> Pow2(n) == B64
  {
    if n >= 32 {
      WordsIsPow2(32);
      if n == 64 {
        Pow2Add(n - 32, 32);
      } else if n == 63 {
        Pow2Add(n - 31, 31);
        Pow2Add(31, 1);
      }
    }
  }

  // ---- bit counts ----

  /** The number of binary digits */
  function BitLength(a: nat): nat { if a == 0 then 0 else 1 + BitLength(a / 2) }

  lemma {:induction false} BitLengthBounds(a: nat)
    ensures a < Pow2(BitLength(a))
    ensures a > 0 ==> BitLength(a) > 0 && Pow2(BitLength(a) - 1) <= a
  {
    if a > 0 { BitLengthBounds(a / 2); }
  }

  lemma {:induction false} Pow2Monotone(i: nat, j: nat)
    requires i <= j
    ensures Pow2(i) <= Pow2(j)
    decreases j
  {
    if i < j { Pow2Monotone(i, j - 1); }
  }

  /** A number of at most n bits has at most n digits. */
  lemma {:induction false} BitLengthAtMost(a: nat, n: nat)
    requires a < Pow2(n)
    ensures BitLength(a) <= n
  {
    if a > 0 { BitLengthAtMost(a / 2, n - 1); }
  }

  /** __builtin_clz */
  function Clz(a: Word): (z: nat)
    ensures z <= 32
  {
    WordsIsPow2(32);
    BitLengthAtMost(a, 32);
    32 - BitLength(a)
  }

  /** __builtin_ctz */
  function Ctz(a: nat): (z: nat)
    requires a > 0
    ensures a % Pow2(z) == 0
  {
    if a % 2 == 1 then 0
    else
      var z := Ctz(a / 2);
      HalveModulo(a, Pow2(z));
      1 + z
  }

  /** No greater power of two divides the number. */
  lemma {:induction false} CtzIsGreatest(a: nat)
    requires a > 0
    ensures a % Pow2(Ctz(a) + 1) != 0
  {
    if a % 2 == 0 {
      CtzIsGreatest(a / 2);
      HalveModulo(a, Pow2(Ctz(a / 2) + 1));
    } else {
      assert Pow2(1) == 2;
    }
  }

  /** d & (d - 1) == 0 tells the powers of two. */
  lemma {:induction false} PowerOfTwoTest(d: nat)
    requires d > 0
    ensures And(d, d - 1) == 0 <==> d == Pow2(Ctz(d))
  {
    if d % 2 == 0 {
      PowerOfTwoTest(d / 2);
      assert (d - 1) / 2 == d / 2 - 1;
    } else if d > 1 {
      AndSelf(d / 2);
      assert (d - 1) / 2 == d / 2;
    }
  }

  lemma {:induction false} AndSelf(a: nat)
    ensures And(a, a) == a
  {
    if a > 0 { AndSelf(a / 2); }
  }

  lemma {:induction false} AndCommutes(a: nat, b: nat)
    ensures And(a, b) == And(b, a)
  {
    if !(a == 0 && b == 0) { AndCommutes(a / 2, b / 2); }
  }

  /** A mask with j ones above k zeros sees j bits of a number. */
  lemma MaskMiddle(lo: nat, hi: nat, k: nat, j: nat) returns (p: nat, mask: nat)
    requires lo < Pow2(k)
    ensures p == Pow2(k) && mask == p * (Pow2(j) - 1) && p * hi >= 0
    ensures And(lo + p * hi, mask) == p * (hi % Pow2(j))
  {
    p := Pow2(k);
    var m: nat := Pow2(j) - 1;
    mask := p * m;
    BitwiseJoin(LogicAnd, lo, hi, 0, m, k);
    AndCommutes(lo, 0);
    AndZero(lo);
    AndCommutes(hi, m);
    MaskKeeps(j, hi);
  }
}

/** The whole-word division loops and the signed divisions
    (abstract-machine/klib/src/int64.c:350-466). */
module Runtime64 {
  import opened Words
  import opened Words64
  import opened Division64

  /** __builtin_clzll, and N for zero as the callers write it */
  function Clz64(a: U64): (z: nat)
    ensures z <= 64
  {
    LengthWithin64(a, 64);
    64 - BitLength(a)
  }

  lemma LengthWithin64(a: U64, n: nat)
    requires n == 64
    ensures BitLength(a) <= n
  {
    Pow64(n);
    BitLengthAtMost(a, n);
  }

  /** What the difference of the leading zeros decides */
  lemma CompareLengths(n: U64, d: U64)
    requires d != 0
    ensures var sr := Clz64(d) - Clz64(n);
            if n == 0 || sr < 0 then n < d
            else if sr == 63 then d == 1
            else n / Pow2(sr + 1) < d && SignTrick(n, d, sr + 1)
    ensures -64 <= Clz64(d) - Clz64(n) <= 63 && (n == 0 ==> Clz64(d) < Clz64(n))
  {
    hide Pow2, SignTrick;
    LengthIsPositive(d);
    var sr := Clz64(d) - Clz64(n);
    if n != 0 {
      LengthIsPositive(n);
      if sr < 0 {
        ShorterIsBelow(n, d);
      } else if sr < 63 {
        StartsBelow(n, d, sr + 1);
      } else {
        OneDigit(d);
      }
    }
  }

  lemma LengthIsPositive(a: nat)
    requires a > 0
    ensures BitLength(a) >= 1
  {}

  lemma ShorterIsBelow(n: nat, d: nat)
    requires d > 0 && BitLength(n) < BitLength(d)
    ensures n < d
  {
    BitLengthBounds(n);
    BitLengthBounds(d);
    Pow2Monotone(BitLength(n), BitLength(d) - 1);
  }

  /** n >> s and n << (64 - s) on 64 bits */
  method LoadWhole(n: U64, s: nat) returns (q: U64, r: U64)
    requires 1 <= s < 64
    ensures Loaded(n, s, q, r)
  {
    HalvePow(s);
    WrapAt(n, Pow2(s), Pow2(64 - s), B64);
    DivBound(n, Pow2(s));
    r := n / Pow2(s);
    q := n * Pow2(64 - s) % B64;
  }

  /** The loop both routines share: q gathers the quotient without its last bit, the carry. */
  method WholeLoop(ghost n: U64, d: U64, sr: nat, q0: U64, r0: U64) returns (q: U64, r: U64, carry: nat)
    requires sr < 64 && Loaded(n, sr, q0, r0) && r0 < d && SignTrick(n, d, sr)
    ensures carry < 2 && 2 * q % B64 + carry == n / d && r == n % d
  {
    hide Or, SignMask, And, Progress, NextRemainder, Pow2;
    q, r, carry := q0, r0, 0;
    ghost var found: nat := 0;
    StartProgress(n, d, sr, q, r);
    for k := sr downto 0
      invariant carry < 2
      invariant Progress(n, d, k, q, r, carry, found)
    {
      SignMaskCompares(n, d, k + 1, q, r, carry, found);
      NextIsShift(q, r);
      CarryIn(r, q / B63);
      CarryIn(q, carry);
      ghost var carry0, ql, rl := carry, q, r;
      r := Or(2 * r % B64, q / B63);
      q := Or(2 * q % B64, carry);
      StepKeepsProgress(n, d, k + 1, ql, rl, carry0, found, q, r);
      found := if r >= d then 2 * found + 1 else 2 * found;
      r, carry := SubtractIfFits(d, r);
    }
    EndProgress(n, d, q, r, carry, found);
  }

  method UdivXi3(n: U64, d: U64) returns (q: U64)
    requires d != 0
    ensures q == n / d
  {
    hide Clz64, Loaded, SignTrick, Or, Pow2;
    CompareLengths(n, d);
    var sr := Unsigned(Clz64(d) - Clz64(n));
    if sr > 63 {
      BelowIsRemainder(n, d);
      return 0;
    }
    if sr == 63 {
      return n;
    }
    sr := sr + 1;
    var r, carry;
    q, r := LoadWhole(n, sr);
    AtLoop(n, d, sr, q, r);
    q, r, carry := WholeLoop(n, d, sr, q, r);
    CarryIn(q, carry);
    q := Or(2 * q % B64, carry);
  }

  method UmodXi3(n: U64, d: U64) returns (r: U64)
    requires d != 0
    ensures r == n % d
  {
    hide Clz64, Loaded, SignTrick, Or, Pow2;
    CompareLengths(n, d);
    var sr := Unsigned(Clz64(d) - Clz64(n));
    if sr > 63 {
      BelowIsRemainder(n, d);
      return n;
    }
    if sr == 63 {
      return 0;
    }
    sr := sr + 1;
    var q, carry;
    q, r := LoadWhole(n, sr);
    AtLoop(n, d, sr, q, r);
    q, r, carry := WholeLoop(n, d, sr, q, r);
  }

  // ---- signed division, on two's complement patterns ----

  function Signed64(a: U64): int { if a >= B63 then a - B64 else a }

  /** a >> 63: all ones for negative numbers */
  function SignOf(a: U64): U64 { if a >= B63 then B64 - 1 else 0 }

  function Xor64(a: U64, s: U64): (x: U64)
    requires s == 0 || s == B64 - 1
    ensures x == if s == 0 then a else B64 - 1 - a
  {
    XorMask(a, s, 64);
    Xor(a, s)
  }

  lemma XorMask(a: U64, s: U64, n: nat)
    requires n == 64 && (s == 0 || s == B64 - 1)
    ensures Xor(a, s) == if s == 0 then a else B64 - 1 - a
  {
    XorCommutes(a, s);
    if s == 0 { XorZero(a); } else { Pow64(n); XorOnes(n, a); }
  }

  lemma {:induction false} XorCommutes(a: nat, b: nat)
    ensures Xor(a, b) == Xor(b, a)
  {
    if !(a == 0 && b == 0) { XorCommutes(a / 2, b / 2); }
  }

  lemma {:induction false} XorZero(a: nat)
    ensures Xor(0, a) == a
  {
    if a > 0 { XorZero(a / 2); }
  }

  /** (a ^ s) - s negates where s is all ones. */
  function NegateIf(a: U64, s: U64): (x: U64)
    requires s == 0 || s == B64 - 1
    ensures s == 0 ==> x == a
    ensures s != 0 ==> x == if a == 0 then 0 else B64 - a
  {
    Subtract64(Xor64(a, s), s)
  }

  function Abs(x: int): nat { if x < 0 then -x else x }

  /** Division of C: towards zero */
  function Truncated(a: int, b: int): int
    requires b != 0
  {
    if (a < 0) == (b < 0) then Abs(a) / Abs(b) else -(Abs(a) / Abs(b))
  }

  /** The quotient rounds towards zero and the remainder has the sign of the dividend. */
  lemma TruncatedMeaning(a: int, b: int)
    requires b != 0
    ensures var r := a - b * Truncated(a, b);
            Abs(r) < Abs(b) && (a >= 0 ==> r >= 0) && (a <= 0 ==> r <= 0) && Abs(r) == Abs(a) % Abs(b)
  {
    var q, d, m := Abs(a) / Abs(b), Abs(b), Abs(a) % Abs(b);
    Negated(b, q);
    DividedAbs(a, b, q, m, d * q, b * q, b * Truncated(a, b));
  }

  lemma DividedAbs(a: int, b: int, q: nat, m: nat, exact: int, product: int, back: int)
    requires b != 0 && Abs(a) == exact + m && m < Abs(b) && exact >= 0
    requires exact == if b < 0 then -product else product
    requires back == if (a < 0) == (b < 0) then product else -product
    ensures Abs(a - back) == m && (a >= 0 ==> a - back >= 0) && (a <= 0 ==> a - back <= 0)
  {}

  lemma Negated(b: int, q: int)
    ensures (-b) * q == -(b * q) && b * (-q) == -(b * q)
  {
  }

  /** __divdi3 */
  method DivDi3(a0: U64, b0: U64) returns (r: U64)
    requires b0 != 0
    ensures r == Truncated(Signed64(a0), Signed64(b0)) % B64
    ensures Signed64(r) == Truncated(Signed64(a0), Signed64(b0)) <==> !(Signed64(a0) == -B63 && Signed64(b0) == -1)
  {
    hide Truncated;
    var sA := SignOf(a0);
    var sB := SignOf(b0);
    var a := NegateIf(a0, sA);
    var b := NegateIf(b0, sB);
    assert a == Abs(Signed64(a0)) && b == Abs(Signed64(b0));
    sA := Xor64(sA, sB);
    var q, _ := UdivmodDi4(a, b);
    r := NegateIf(q, sA);
    SignedQuotient(Signed64(a0), Signed64(b0), q, r);
  }

  lemma SignedQuotient(x: int, y: int, q: nat, r: U64)
    requires -B63 <= x < B63 && -B63 <= y < B63 && y != 0 && q == Abs(x) / Abs(y)
    requires r == if (x < 0) == (y < 0) || q == 0 then q else B64 - q
    ensures r == Truncated(x, y) % B64
    ensures Signed64(r) == Truncated(x, y) <==> !(x == -B63 && y == -1)
  {
    QuotientRange(Abs(x), Abs(y));
    var t := Truncated(x, y);
    QuotientIs(t, B64, if t < 0 then -1 else 0, r);
  }

  lemma QuotientRange(a: U64, b: U64)
    requires b > 0
    ensures a / b <= a && (b > 1 && a > 0 ==> a / b < a)
  {
    DivBound(a, b);
    if b > 1 && a / b > 0 {
      MultipleGrows(a / b, b - 1);
      assert b * (a / b) == (a / b) * (b - 1) + a / b;
    }
  }

  /** Products agree modulo 2^64 when factors do. */
  lemma ProductModulo(x: int, y: int, x': int, y': int, kx: int, ky: int)
    requires x == x' + B64 * kx && y == y' + B64 * ky
    ensures (x * y) % B64 == (x' * y') % B64
  {
    var k := x' * ky + kx * y;
    assert x * y == x' * y + (B64 * kx) * y;
    assert (B64 * kx) * y == B64 * (kx * y) by { MulAssoc(B64, kx, y); }
    assert x' * y == x' * y' + x' * (B64 * ky);
    assert x' * (B64 * ky) == B64 * (x' * ky) by { MulAssoc(B64, x', ky); MulAssoc(x', B64, ky); }
    AddMultiple(x' * y', k);
  }

  lemma AddMultiple(z: int, k: int)
    ensures (z + B64 * k) % B64 == z % B64
  {
    QuotientIs(z + B64 * k, B64, z / B64 + k, z % B64);
  }

  /** __divmoddi4: a - d * b in 64 bits is the true remainder, even where the quotient wraps. */
  method DivmodDi4(a: U64, b: U64) returns (d: U64, rem: U64)
    requires b != 0
    ensures Signed64(d) == Truncated(Signed64(a), Signed64(b)) <==> !(Signed64(a) == -B63 && Signed64(b) == -1)
    ensures Signed64(rem) == Signed64(a) - Signed64(b) * Truncated(Signed64(a), Signed64(b))
  {
    d := DivDi3(a, b);
    rem := (a - d * b) % B64;
    RemainderWraps(a, b, d, rem);
  }

  lemma RemainderWraps(a: U64, b: U64, d: U64, rem: U64)
    requires b != 0 && rem == (a - d * b) % B64
    requires d == Truncated(Signed64(a), Signed64(b)) % B64
    ensures Signed64(rem) == Signed64(a) - Signed64(b) * Truncated(Signed64(a), Signed64(b))
  {
    var x, y := Signed64(a), Signed64(b);
    var t := Truncated(x, y);
    TruncatedMeaning(x, y);
    hide Truncated;
    var product, exact := d * b, y * t;
    Commutes(y, t);
    ProductModulo(d, b, t, y, -(t / B64), if b >= B63 then 1 else 0);
    WrappedDifference(a, product, x, exact);
  }

  lemma WrappedDifference(a: U64, product: int, x: int, exact: int)
    requires x == Signed64(a) && product % B64 == exact % B64 && -B63 <= x - exact < B63
    ensures Signed64((a - product) % B64) == x - exact
  {
    var r := x - exact;
    var k := (if a >= B63 then 1 else 0) + exact / B64 - product / B64;
    assert a - product == B64 * k + r;
    QuotientIs(a - product, B64, if r < 0 then k - 1 else k, if r < 0 then r + B64 else r);
  }

  /** __moddi3 */
  method ModDi3(a0: U64, b0: U64) returns (r: U64)
    requires b0 != 0
    ensures Signed64(r) == Signed64(a0) - Signed64(b0) * Truncated(Signed64(a0), Signed64(b0))
  {
    var s := SignOf(b0);
    var b := NegateIf(b0, s);
    s := SignOf(a0);
    var a := NegateIf(a0, s);
    var _, rem := UdivmodDi4(a, b);
    TruncatedMeaning(Signed64(a0), Signed64(b0));
    r := NegateIf(rem, s);
  }
}

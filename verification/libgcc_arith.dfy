/** Multiplication and long division of libgcc for 32-bit words
    (abstract-machine/am/src/riscv/npc/libgcc/longlong.h and multi3.c, __riscv_xlen == 32). */
module LongArithmetic {
  import opened Words
  import opened ShiftMath
  import opened Words64
  import opened Division64

  const HALF := 0x1_0000

  type Digit = x: int | 0 <= x < 0x1_0000

  function HighPart(a: Word): Digit { a / HALF }

  function LowPart(a: Word): Digit { a % HALF }

  /** __muluw3: the low 32 bits */
  function Times(a: Word, b: Word): Word { a * b % B32 }

  // ---- umul_ppmm ----

  lemma DigitProduct(a: Digit, b: Digit)
    ensures 0 <= a * b <= (HALF - 1) * (HALF - 1) && Times(a, b) == a * b
  {
    ProductBound(a, b, HALF - 1);
    var product := a * b;
    SmallRemainder(product, B32);
  }

  lemma ProductBound(a: int, b: int, m: int)
    requires 0 <= a <= m && 0 <= b <= m
    ensures 0 <= a * b <= m * m
  {
    assert m * m - a * b == (m - a) * m + a * (m - b);
    SignOfProduct(m - a, m);
    SignOfProduct(a, m - b);
    SignOfProduct(a, b);
  }

  lemma SignOfProduct(a: int, b: int)
    requires a >= 0 && b >= 0
    ensures a * b >= 0
  {}

  /** The schoolbook expansion of a product of two-digit numbers */
  lemma FourProducts(ul: int, uh: int, vl: int, vh: int, k: int)
    ensures (uh * k + ul) * (vh * k + vl) == (uh * vh) * (k * k) + (ul * vh + uh * vl) * k + ul * vl
  {
    DistributeOver(uh * k, ul, vh * k + vl);
    assert (uh * k) * (vh * k + vl) == (uh * k) * (vh * k) + (uh * k) * vl;
    assert ul * (vh * k + vl) == ul * (vh * k) + ul * vl;
    assert (uh * k) * (vh * k) == (uh * vh) * (k * k) by { Rearrange(uh, k, vh, k); }
    assert (uh * k) * vl == (uh * vl) * k by { MulAssoc(uh, k, vl); MulAssoc(uh, vl, k); }
    assert ul * (vh * k) == (ul * vh) * k by { MulAssoc(ul, vh, k); }
    DistributeOver(ul * vh, uh * vl, k);
  }

  lemma Rearrange(a: int, b: int, c: int, d: int)
    ensures (a * b) * (c * d) == (a * c) * (b * d)
  {
    MulAssoc(a, b, c * d);
    MulAssoc(b, c, d);
    Commutes(b, c);
    MulAssoc(c, b, d);
    MulAssoc(a, c, b * d);
  }

  /** umul_ppmm: the exact product, in two words */
  method UmulPpmm(u: Word, v: Word) returns (w1: Word, w0: Word)
    ensures Make(w1, w0) == u * v
  {
    var ul, uh, vl, vh := LowPart(u), HighPart(u), LowPart(v), HighPart(v);
    DigitProduct(ul, vl);
    DigitProduct(ul, vh);
    DigitProduct(uh, vl);
    DigitProduct(uh, vh);
    FourProducts(ul, uh, vl, vh, HALF);
    var x0 := Times(ul, vl);
    var x1 := Times(ul, vh);
    var x2 := Times(uh, vl);
    var x3 := Times(uh, vh);
    ghost var product := (uh * HALF + ul) * (vh * HALF + vl);
    assert u == uh * HALF + ul && v == vh * HALF + vl;
    w1, w0 := AddProducts(x0, x1, x2, x3);
  }

  /** The middle products may carry out of their word once. */
  method AddProducts(x0: Word, x1': Word, x2: Word, x3': Word) returns (w1: Word, w0: Word)
    requires x0 <= (HALF - 1) * (HALF - 1) && x1' <= (HALF - 1) * (HALF - 1)
    requires x2 <= (HALF - 1) * (HALF - 1) && x3' <= (HALF - 1) * (HALF - 1)
    ensures Make(w1, w0) == x3' * B32 + (x1' + x2) * HALF + x0
  {
    hide Times;
    var x1, x3 := Sum(x1', HighPart(x0)), x3';
    x1 := Sum(x1, x2);
    if x1 < x2 {
      x3 := Sum(x3, HALF);
    }
    var upper, lower, low0 := HighPart(x1), LowPart(x1), LowPart(x0);
    Raised(lower);
    assert x1 == upper * HALF + lower && x0 == HighPart(x0) * HALF + low0;
    w1 := Sum(x3, upper);
    w0 := Sum(Times(lower, HALF), low0);
  }

  lemma Raised(a: Digit)
    ensures Times(a, HALF) == a * HALF
  {}

  // ---- __udiv_qrnnd_c ----

  /** A divisor with its top bit set */
  predicate Normalized(d: Word) { d >= 0x8000_0000 }

  /** One digit: at most two corrections of the estimate n1 / d1 */
  method DivideDigit(n1: Word, digit: Digit, d: Word) returns (q: Word, r: Word)
    requires Normalized(d) && n1 < d
    ensures n1 * HALF + digit == q * d + r && r < d && q < HALF
  {
    hide Or, Times, HighPart, LowPart;
    var d1, d0 := HighPart(d), LowPart(d);
    TopDigit(n1, d);
    r := n1 % d1;
    ghost var rem := r;
    q := n1 / d1;
    var m := Times(q, d0);
    Raised(r);
    OrDigit(r, digit);
    r := Or(Times(r, HALF), digit);
    Estimate(n1, digit, d, d1, d0, q, rem, m, r);
    ghost var q', r' := q, r;
    if r < m {
      q, r := q - 1, Sum(r, d);
      if r >= d {
        if r < m {
          q, r := q - 1, Sum(r, d);
        }
      }
    }
    r := Difference(r, m);
    Corrected(n1, digit, d, q', m, r', q, r);
  }

  lemma TopDigit(n1: Word, d: Word)
    requires Normalized(d)
    ensures HighPart(d) >= 0x8000 && n1 / HighPart(d) < B32 && n1 % HighPart(d) < HighPart(d)
    ensures n1 == HighPart(d) * (n1 / HighPart(d)) + n1 % HighPart(d)
  {
    DivBound(n1, HighPart(d));
  }

  /** The estimate is never too small, and too big by 2 at most. */
  lemma Estimate(n1: Word, digit: Digit, d: Word, d1: Digit, d0: Digit, q: Word, rem: Word, m: Word, r: nat)
    requires Normalized(d) && n1 < d && d1 == HighPart(d) && d0 == LowPart(d)
    requires n1 == d1 * q + rem && rem < d1
    requires m == Times(q, d0) && r == Or(Times(rem, HALF), digit)
    ensures r < d && m < 2 * d && (m > 0 ==> q >= 1) && (m > d ==> q >= 2)
    ensures n1 * HALF + digit == q * d + r - m
  {
    hide Or, Times;
    assert d == d1 * HALF + d0 && d1 >= 0x8000;
    EstimateBound(n1, d1, d0, q, rem);
    EstimateProduct(q, d0);
    Raised(rem);
    OrDigit(rem, digit);
    DigitEquation(n1, d1, d0, q, rem, d);
  }

  lemma EstimateBound(n1: int, d1: int, d0: Digit, q: int, rem: int)
    requires d1 >= 0x8000 && n1 == d1 * q + rem && 0 <= rem < d1 && 0 <= n1 < d1 * HALF + d0
    ensures 0 <= q <= HALF + 1
  {
    if q >= HALF + 2 {
      SignOfProduct(d1, q - (HALF + 2));
      Expand(d1, HALF + 2, q - (HALF + 2));
    }
    if q < 0 { MultipleGrows(d1, q); }
  }

  lemma EstimateProduct(q: Word, d0: Digit)
    requires q <= HALF + 1
    ensures Times(q, d0) == q * d0 && (q == 0 ==> q * d0 == 0) && (q <= 1 ==> q * d0 < HALF)
  {
    SignOfProduct(HALF + 1 - q, d0);
    DistributeOver(HALF + 1 - q, q, d0);
    SignOfProduct(q, d0);
    var product := q * d0;
    SmallRemainder(product, B32);
  }

  lemma DigitEquation(n1: int, d1: int, d0: int, q: int, rem: int, d: int)
    requires n1 == d1 * q + rem && d == d1 * HALF + d0
    ensures n1 * HALF == q * d + rem * HALF - q * d0
  {
    Expand(q, d1 * HALF, d0);
    Commutes(d1, q);
    MulAssoc(q, d1, HALF);
  }

  lemma OrDigit(a: Digit, b: Digit)
    ensures Or(a * HALF, b) == a * HALF + b
  {
    OrAt(a, b, 16);
  }

  lemma OrAt(a: Digit, b: Digit, k: nat)
    requires k == 16
    ensures Or(a * HALF, b) == a * HALF + b
  {
    Powers();
    Pow2Add(8, k - 8);
    OrDisjoint(a, b, k);
  }

  lemma Corrected(n1: Word, digit: Digit, d: Word, q': Word, m: Word, r': nat, q: int, r: int)
    requires n1 < d && n1 * HALF + digit == q' * d + r' - m && 0 <= r < d
    requires (q == q' && r == r' - m) || (q == q' - 1 && r == r' - m + d) || (q == q' - 2 && r == r' - m + 2 * d)
    ensures n1 * HALF + digit == q * d + r && q < HALF
  {
    DistributeOver(q, q' - q, d);
    if q >= HALF {
      SignOfProduct(q - HALF, d);
      DistributeOver(HALF, q - HALF, d);
    }
  }

  /** __udiv_qrnnd_c: two digits make the exact quotient and remainder of n1:n0 by d. */
  method UdivQrnndC(n1: Word, n0: Word, d: Word) returns (q: Word, r: Word)
    requires Normalized(d) && n1 < d
    ensures Make(n1, n0) == q * d + r && r < d
  {
    hide Normalized, Or, Times;
    var q1, r1 := DivideDigit(n1, HighPart(n0), d);
    var q0, r0 := DivideDigit(r1, LowPart(n0), d);
    Raised(q1);
    OrDigit(q1, q0);
    q := Or(Times(q1, HALF), q0);
    r := r0;
    DistributeOver(q1 * HALF, q0, d);
    MulAssoc(q1, HALF, d);
    MulAssoc(q1, d, HALF);
    assert n0 == HighPart(n0) * HALF + LowPart(n0);
    JoinDigits(n1, HighPart(n0), LowPart(n0), r1, q1 * d, q0 * d + r0);
  }

  lemma JoinDigits(n1: int, h: int, l: int, r1: int, x1: int, x0: int)
    requires n1 * HALF + h == x1 + r1 && r1 * HALF + l == x0
    ensures n1 * B32 + h * HALF + l == x1 * HALF + x0
  {}

  // ---- __multi3 ----

  lemma ShlOnce(a: Word)
    ensures Shl(a, 1) == 2 * a % B32
  {
    assert Pow2(1) == 2;
  }

  /** The multiplicand, in two words, doubled */
  lemma DoubledInWords(high: Word, low: Word)
    ensures Or(Shr(low, 31), Shl(high, 1)) < B32
    ensures Make(Or(Shr(low, 31), Shl(high, 1)), Shl(low, 1)) == 2 * Make(high, low) % B64
  {
    HalveModulo(2 * high, 0x8000_0000);
    hide Or, Shl, Shr;
    ShiftIn(high, low);
    OrCommutes(Shr(low, 31), Shl(high, 1));
    DoubleHalves(high, low, 0);
    ShlOnce(low);
  }

  /** A sum in two words: the carry is seen by the sum being below a summand. */
  lemma AddedInWords(high: Word, low: Word, high': Word, low': Word, carry: Word)
    requires carry == if Sum(low, low') < low then 1 else 0
    ensures Make(Sum(carry, Sum(high', high)), Sum(low, low')) == (Make(high, low) + Make(high', low')) % B64
  {
    var all := Make(high, low) + Make(high', low');
    var kept := Make(Sum(carry, Sum(high', high)), Sum(low, low'));
    QuotientIs(all, B64, (all - kept) / B64, kept);
  }

  lemma LowBit(v: Word)
    ensures And(v, 1) == v % 2 && Shr(v, 1) == v / 2
  {
    AndCommutes(v, 1);
    LowestBit(v, 1);
    assert Pow2(1) == 2;
  }

  /** One round of shift-and-add keeps w + t * v up to multiples of 2^64. */
  lemma RoundKeeps(t: U64, w: U64, v: Word, t': U64, w': U64, product: int, k: int) returns (k': int)
    requires w + t * v == product + B64 * k
    requires t' == 2 * t % B64 && w' == if v % 2 == 0 then w else (w + t) % B64
    ensures w' + t' * (v / 2) == product + B64 * k'
  {
    var h, bit := v / 2, v % 2;
    var c1, c2 := 2 * t / B64, if bit == 0 then 0 else (w + t) / B64;
    k' := k - c2 - c1 * h;
    DoubledProduct(t, h, bit, v);
    WrappedProduct(t, h, c1, t');
  }

  lemma DoubledProduct(t: int, h: int, bit: int, v: int)
    requires v == 2 * h + bit && 0 <= bit < 2
    ensures t * v == 2 * (t * h) + if bit == 0 then 0 else t
  {
    Expand(t, h, h + bit);
    Expand(t, h, bit);
  }

  lemma WrappedProduct(t: int, h: int, c: int, t': int)
    requires t' == 2 * t - B64 * c
    ensures t' * h == 2 * (t * h) - B64 * (c * h)
  {
    DistributeOver(t, t, h);
    MulAssoc(-B64, c, h);
    DistributeOver(2 * t, -B64 * c, h);
  }

  /** Below 2^64 only one value is left. */
  lemma ExactProduct(u: Word, v: Word, w: U64, k: int)
    requires w == u * v + B64 * k
    ensures w == u * v
  {
    ProductBound(u, v, B32 - 1);
    var product := u * v;
    assert product + B64 * k == w;
  }

  /** The product of the low words by shifting and adding */
  method LowProduct(u: Word, v: Word) returns (wHigh: Word, wLow: Word)
    ensures Make(wHigh, wLow) == u * v
  {
    hide Or, Shl, Shr, And, Make;
    var uLow, vLow := u, v;
    wLow, wHigh := 0, 0;
    var wHighTmp: Word := 0;
    ghost var product, k := u * v, 0;
    MakeLow(0);
    MakeLow(u);
    while true
      invariant Make(wHigh, wLow) + Make(wHighTmp, uLow) * vLow == product + B64 * k
      decreases vLow
    {
      ghost var t, w, v0 := Make(wHighTmp, uLow), Make(wHigh, wLow), vLow;
      DoubledInWords(wHighTmp, uLow);
      LowBit(vLow);
      var newLow := Sum(wLow, uLow);
      var twice := Shl(wHighTmp, 1);
      ghost var carry0: Word := if newLow < wLow then 1 else 0;
      AddedInWords(wHigh, wLow, wHighTmp, uLow, carry0);
      wHighTmp := Sum(wHighTmp, wHigh);
      if And(vLow, 1) != 0 {
        var carry := if newLow < wLow then 1 else 0;
        wLow := newLow;
        wHigh := Sum(carry, wHighTmp);
      }
      var msb := Shr(uLow, 31);
      vLow := Shr(vLow, 1);
      uLow := Shl(uLow, 1);
      wHighTmp := Or(msb, twice);
      k := RoundKeeps(t, w, v0, Make(wHighTmp, uLow), Make(wHigh, wLow), product, k);
      if vLow == 0 {
        break;
      }
    }
    ExactProduct(u, v, Make(wHigh, wLow), k);
  }

  /** The upper words only count once, and only in the upper half. */
  lemma CrossTerms(ul: int, uh: int, vl: int, vh: int, m: int, high: int, low: int)
    requires high * B32 + low == ul * vl && m == high + vl * uh + ul * vh
    ensures (uh * B32 + ul) * (vh * B32 + vl) == m * B32 + low + B64 * (uh * vh)
  {
    FourProducts(ul, uh, vl, vh, B32);
    DistributeOver(high, vl * uh + ul * vh, B32);
    Commutes(vl, uh);
  }

  lemma MakeLow(a: Word)
    ensures Make(0, a) == a
  {}

  lemma AddNothing(h: Word, a: Word)
    ensures Sum(h, Times(a, 0)) == h
  {}

  /** __multi3: the 64-bit product */
  method Multi3(u: U64, v: U64) returns (w: U64)
    ensures w == u * v % B64
  {
    hide Make, Sum, Times, High, Low;
    var low, high;
    high, low := LowProduct(Low(u), Low(v));
    ghost var high0 := high;
    AddNothing(high, Low(v));
    if High(u) != 0 {
      high := Sum(high, Times(Low(v), High(u)));
    }
    AddNothing(high, Low(u));
    if High(v) != 0 {
      high := Sum(high, Times(Low(u), High(v)));
    }
    w := Make(high, low);
    UpperWraps(u, v, high0, low, high);
  }

  lemma UpperWraps(u: U64, v: U64, high0: Word, low: Word, high: Word)
    requires Make(high0, low) == Low(u) * Low(v)
    requires high == Sum(Sum(high0, Times(Low(v), High(u))), Times(Low(u), High(v)))
    ensures Make(high, low) == u * v % B64
  {
    hide High, Low;
    var ul: int, uh: int, vl: int, vh: int := Low(u), High(u), Low(v), High(v);
    var x, y := vl * uh, ul * vh;
    var m := high0 + x + y;
    HalvesOf(u);
    HalvesOf(v);
    CrossTerms(ul, uh, vl, vh, m, high0, low);
    SumTwice(high0, x, y);
    FoldUpper(u * v, m, low, uh * vh);
  }

  lemma SumTwice(a: Word, x: int, y: int)
    ensures Sum(Sum(a, x % B32), y % B32) == (a + x + y) % B32
  {
    SumModulo(a, x);
    SumModulo(Sum(a, x % B32), y);
    QuotientIs(a + x + y, B32, (a + x) / B32 + ((a + x) % B32 + y) / B32, ((a + x) % B32 + y) % B32);
  }

  lemma FoldUpper(total: int, m: int, low: Word, z: int)
    requires total == m * B32 + low + B64 * z
    ensures total % B64 == (m % B32) * B32 + low
  {
    QuotientIs(total, B64, m / B32 + z, (m % B32) * B32 + low);
  }
}

/** Counting leading and trailing zeros without a branch
    (abstract-machine/klib/src/int64.c:679-774). */
module BitCounts {
  import opened Words
  import opened ShiftMath
  import opened Words64
  import opened Division64

  // ---- C operators on 32 bits ----

  /** -(c): all ones or zero */
  function AllIf(c: bool): Word { if c then B32 - 1 else 0 }

  lemma MaskWord(a: Word, c: bool)
    ensures And(a, AllIf(c)) == if c then a else 0
  {
    AndCommutes(a, AllIf(c));
    if c { OnesKeep(a, 32); } else { AndZero(a); }
  }

  lemma OnesKeep(a: Word, n: nat)
    requires n == 32
    ensures And(B32 - 1, a) == a
  {
    WordsIsPow2(n);
    MaskKeeps(n, a);
  }

  // ---- leading zeros ----

  /** The test of w bits above the lowest w, on a number of 2 * w bits */
  lemma UpperTest(x: nat, w: nat, p: nat, mask: nat)
    requires p == Pow2(w) && mask == p * (p - 1) && x < p * p
    ensures And(x, mask) == 0 <==> x < p
  {
    hide And, Pow2;
    var lo, hi := x % p, x / p;
    QuotientBelow(x, p, p);
    var _, _ := MaskMiddle(lo, hi, w, w);
    SmallRemainder(hi, p);
    SplitAt(x, p, hi, lo);
    MultipleGrows(p, hi);
  }

  lemma SplitAt(x: nat, p: nat, hi: nat, lo: nat)
    requires p > 0 && hi == x / p && lo == x % p
    ensures x == lo + p * hi && (x < p <==> hi == 0)
  {
    if x < p { QuotientIs(x, p, 0, x); }
  }

  lemma LengthShifted(x: nat, w: nat, p: nat)
    requires p == Pow2(w) && x >= p
    ensures x / p > 0 && BitLength(x) == w + BitLength(x / p)
  {
    hide Pow2, BitLength;
    var lo, hi := x % p, x / p;
    SplitAt(x, p, hi, lo);
    LengthOfPair(hi, lo, w);
    Commutes(hi, p);
  }

  /** t = ((x & mask) == 0) << ...; x >>= w - t: the upper half if it is not empty */
  method NarrowUp(x0: Word, w: nat, mask: Word) returns (x: Word, t: nat)
    requires w < 32 && mask == Pow2(w) * (Pow2(w) - 1) && x0 < Pow2(w) * Pow2(w)
    ensures x < Pow2(w) && t <= w && BitLength(x0) + t == BitLength(x) + w
    ensures x0 != 0 ==> x != 0
  {
    hide And, Pow2, BitLength, Shr;
    ghost var p := Pow2(w);
    UpperTest(x0, w, p, mask);
    ShrByNothing(x0);
    if x0 >= p {
      LengthShifted(x0, w, p);
      ShrIs(x0, w);
      QuotientBelow(x0, p, p);
    }
    t := if And(x0, mask) == 0 then w else 0;
    x := Shr(x0, w - t);
  }

  lemma ShrByNothing(x: Word)
    ensures Shr(x, 0) == x
  {
    assert Pow2(0) == 1;
  }

  lemma ShrIs(x: Word, w: nat)
    requires w < 32
    ensures Shr(x, w) == x / Pow2(w)
  {}

  /** The powers the narrowing steps use */
  lemma Windows(w: nat)
    ensures w == 2 ==> Pow2(w) == 4
    ensures w == 4 ==> Pow2(w) == 0x10
    ensures w == 8 ==> Pow2(w) == 0x100
    ensures w == 16 ==> Pow2(w) == 0x1_0000
  {
    Powers();
    if w >= 8 { Pow2Add(w - 8, 8); }
  }

  /** The last two bits: (2 - x) & -((x & 2) == 0) */
  lemma LastLeading(x: Word)
    requires x < 4
    ensures And(Unsigned(2 - x), AllIf(And(x, 2) == 0)) == 2 - BitLength(x)
  {
    MaskWord(Unsigned(2 - x), And(x, 2) == 0);
    SmallAnd(x);
    assert BitLength(x) == if x == 0 then 0 else if x == 1 then 1 else 2;
  }

  lemma SmallAnd(x: nat)
    requires x < 4
    ensures And(x, 2) == (if x >= 2 then 2 else 0)
    ensures And(x, 1) == x % 2
  {
    AndZero(0);
    AndCommutes(x, 1);
    LowestBit(x, 1);
    assert And(x / 2, 1) == x / 2 by { AndCommutes(x / 2, 1); LowestBit(x / 2, 1); }
  }

  /** __clzsi2 */
  method ClzSi2(a: Word) returns (r: nat)
    requires a != 0
    ensures r == Clz(a)
  {
    hide And, Pow2, BitLength;
    Windows(16);
    Windows(8);
    Windows(4);
    Windows(2);
    var x, t := NarrowUp(a, 16, 0xFFFF_0000);
    r := t;
    x, t := NarrowUp(x, 8, 0xFF00);
    r := r + t;
    x, t := NarrowUp(x, 4, 0xF0);
    r := r + t;
    x, t := NarrowUp(x, 2, 0xC);
    r := r + t;
    LastLeading(x);
    var left: int := x;
    r := r + And(Unsigned(2 - left), AllIf(And(x, 2) == 0));
  }

  // ---- trailing zeros ----

  /** t = ((x & mask) == 0) << ...; x >>= t: away with w empty low bits */
  method NarrowDown(x0: Word, w: nat, mask: Word) returns (x: Word, t: nat)
    requires w < 32 && mask == Pow2(w) - 1 && x0 % Pow2(2 * w) != 0
    ensures x % Pow2(w) != 0 && Ctz(x0) == Ctz(x) + t
  {
    hide *;
    NarrowFacts(x0, w, mask);
    t := if And(x0, mask) == 0 then w else 0;
    x := Shr(x0, t);
  }

  lemma NarrowFacts(x: Word, w: nat, mask: Word)
    requires w < 32 && mask == Pow2(w) - 1 && x % Pow2(2 * w) != 0
    ensures x > 0 && And(x, mask) == x % Pow2(w) && Shr(x, 0) == x
    ensures x % Pow2(w) == 0 ==>
              Shr(x, w) > 0 && Shr(x, w) % Pow2(w) != 0 && Ctz(x) == w + Ctz(Shr(x, w))
  {
    hide Pow2, Ctz, Shr, Bitwise;
    var p := Pow2(w);
    NotZero(x, Pow2(2 * w));
    AndCommutes(x, mask);
    MaskKeeps(w, x);
    if x % p == 0 { TrailingShifted(x, w, p, Pow2(2 * w)); }
    ShrIs(x, w);
    ShrByNothing(x);
  }

  lemma NotZero(x: nat, p: nat)
    requires p > 0 && x % p != 0
    ensures x > 0
  {}

  lemma TrailingShifted(x: nat, w: nat, p: nat, pp: nat)
    requires p == Pow2(w) && pp == Pow2(2 * w) && x % p == 0 && x % pp != 0
    ensures x > 0 && x / p > 0 && (x / p) % p != 0 && Ctz(x) == w + Ctz(x / p)
  {
    hide Pow2, Ctz;
    var q := x / p;
    SplitAt(x, p, q, 0);
    Pow2Add(w, w);
    if q % p == 0 {
      SplitAt(q, p, q / p, 0);
      MulAssoc(p, p, q / p);
      QuotientIs(x, pp, q / p, 0);
    }
    TrailingScaled(q, w, x);
  }

  lemma {:induction false} TrailingScaled(q: nat, w: nat, x: nat)
    requires q > 0 && x == Pow2(w) * q
    ensures x > 0 && Ctz(x) == w + Ctz(q)
  {
    if w > 0 {
      var h := Pow2(w - 1) * q;
      Doubled(Pow2(w - 1), q);
      QuotientIs(x, 2, h, 0);
      TrailingScaled(q, w - 1, h);
      hide Pow2;
    }
  }

  /** The last two bits: (2 - (x >> 1)) & -((x & 1) == 0) */
  lemma LastTrailing(y: Word)
    requires y % 4 != 0
    ensures And(y, 3) == y % 4 && Shr(y % 4, 1) <= 2
    ensures And(2 - Shr(y % 4, 1), AllIf(And(y % 4, 1) == 0)) == Ctz(y)
  {
    var x := y % 4;
    LowTwoBits(y, 2);
    SmallAnd(x);
    MaskWord(2 - x / 2, And(x, 1) == 0);
    ShrByOne(x);
    FirstDigits(y);
    hide Ctz, And, Shr, AllIf;
  }

  lemma FirstDigits(y: nat)
    requires y % 4 != 0
    ensures Ctz(y) == 1 - y % 2
  {
    if y % 2 == 0 {
      assert y / 2 % 2 == 1;
      assert Ctz(y / 2) == 0;
    }
  }

  lemma LowTwoBits(y: nat, n: nat)
    requires n == 2
    ensures And(y, 3) == y % 4
  {
    AndCommutes(y, 3);
    Windows(n);
    MaskKeeps(n, y);
  }

  lemma ShrByOne(x: Word)
    ensures Shr(x, 1) == x / 2
  {
    assert Pow2(1) == 2;
  }

  /** __ctzsi2 */
  method CtzSi2(a: Word) returns (r: nat)
    requires a != 0
    ensures r == Ctz(a)
  {
    hide And, Pow2, Ctz, Shr;
    Windows(16);
    Windows(8);
    Windows(4);
    Windows(2);
    WordsIsPow2(32);
    var x, t := NarrowDown(a, 16, 0xFFFF);
    r := t;
    x, t := NarrowDown(x, 8, 0xFF);
    r := r + t;
    x, t := NarrowDown(x, 4, 0xF);
    r := r + t;
    x, t := NarrowDown(x, 2, 3);
    r := r + t;
    LastTrailing(x);
    x := And(x, 3);
    r := r + And(2 - Shr(x, 1), AllIf(And(x, 1) == 0));
  }

  // ---- both halves of a 64-bit word ----

  /** (a & f) | (b & ~f) chooses a half. */
  lemma Choose(a: Word, b: Word, c: bool)
    ensures Or(And(a, AllIf(c)), And(b, AllIf(!c))) == if c then a else b
  {
    MaskWord(a, c);
    MaskWord(b, !c);
    OrZero(a);
    OrZero(b);
  }

  /** __ctzdi2 */
  method CtzDi2(a: U64) returns (r: nat)
    requires a != 0
    ensures r == Ctz(a)
  {
    hide And, Or, Ctz;
    var none := Low(a) == 0;
    Choose(High(a), Low(a), none);
    MaskWord(32, none);
    AndCommutes(32, AllIf(none));
    CtzHalves(a, 32);
    r := CtzSi2(Or(And(High(a), AllIf(none)), And(Low(a), AllIf(!none))));
    r := r + And(AllIf(none), 32);
  }

  lemma CtzHalves(a: U64, w: nat)
    requires w == 32 && a != 0
    ensures Low(a) != 0 ==> Ctz(a) == Ctz(Low(a))
    ensures Low(a) == 0 ==> High(a) != 0 && Ctz(a) == w + Ctz(High(a))
  {
    HalvesOf(a);
    WordsIsPow2(w);
    if Low(a) == 0 {
      TrailingScaled(High(a), w, a);
    } else {
      CtzIgnores(Low(a), High(a), w, a);
    }
  }

  /** Bits above a number do not change its trailing zeros. */
  lemma {:induction false} CtzIgnores(low: nat, high: nat, w: nat, x: nat)
    requires 0 < low < Pow2(w) && x == low + Pow2(w) * high
    ensures x > 0 && Ctz(x) == Ctz(low)
  {
    Doubled(Pow2(w - 1), high);
    var h := Pow2(w - 1) * high;
    QuotientIs(x, 2, low / 2 + h, low % 2);
    if low % 2 == 0 { CtzIgnores(low / 2, high, w - 1, low / 2 + h); }
  }

  /** __clzdi2 */
  method ClzDi2(a: U64) returns (r: nat)
    requires a != 0
    ensures r == 64 - BitLength(a)
  {
    hide And, Or, BitLength;
    HalvesOf(a);
    var none := High(a) == 0;
    Choose(Low(a), High(a), none);
    OrCommutes(And(High(a), AllIf(!none)), And(Low(a), AllIf(none)));
    MaskWord(32, none);
    AndCommutes(32, AllIf(none));
    if !none { LengthOfWord(a); }
    r := ClzSi2(Or(And(High(a), AllIf(!none)), And(Low(a), AllIf(none))));
    r := r + And(AllIf(none), 32);
  }
}

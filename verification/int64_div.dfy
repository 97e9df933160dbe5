/** Unsigned 64-bit division (abstract-machine/klib/src/int64.c:350-409 and 469-677). */
module Division64 {
  import opened Words
  import opened ShiftMath
  import opened Words64

  // ---- the state of a shift-subtract division ----

  /** k steps before the end: the k lowest bits of n still wait at the top of q, below them
      stand the bits of the quotient so far (without the last one, which is in the carry),
      and r is what is left of the upper bits of n. */
  ghost predicate Progress(n: U64, d: U64, k: nat, q: U64, r: U64, carry: nat, quotient: nat) {
    && k < 64 && carry == quotient % 2 && quotient < Pow2(63 - k) && r < d
    && n / Pow2(k) == quotient * d + r
    && q == (n % Pow2(k)) * Pow2(64 - k) + quotient / 2
  }

  /** The comparison by sign bit is valid: the remainder never exceeds twice a divisor below
      2^63, and for larger divisors there is one step only. */
  ghost predicate SignTrick(n: U64, d: U64, k: nat) { d <= B63 || (k <= 1 && n >= B63) }

  /** d - r - 1 in 64 bits, shifted right by 63 with its sign: all ones or zero */
  function SignMask(d: U64, r: U64): U64 {
    var diff: int := d as int - r as int - 1;
    if (if diff < 0 then diff + B64 else diff) >= B63 then B64 - 1 else 0
  }

  lemma MaskSelects(d: U64, mask: U64)
    requires mask == 0 || mask == B64 - 1
    ensures And(d, mask) == if mask == 0 then 0 else d
    ensures And(mask, 1) == if mask == 0 then 0 else 1
  {
    AndCommutes(d, mask);
    AndCommutes(mask, 1);
    if mask == 0 {
      AndZero(d);
      AndZero(1);
    } else {
      AllOnes(d, 64);
      LowestBit(mask, 1);
    }
  }

  lemma AllOnes(d: U64, n: nat)
    requires n == 64
    ensures And(B64 - 1, d) == d
  {
    Pow64(n);
    MaskKeeps(n, d);
  }

  lemma LowestBit(a: nat, n: nat)
    requires n == 1
    ensures And(1, a) == a % 2
  {
    assert Pow2(n) == 2;
    MaskKeeps(n, a);
  }

  /** One step, on whole 64-bit values. */
  function NextRemainder(q: U64, r: U64): nat { 2 * r + q / B63 }

  lemma HalvePow(k: nat)
    requires 1 <= k <= 64
    ensures Pow2(k) == 2 * Pow2(k - 1) && Pow2(64 - (k - 1)) == 2 * Pow2(64 - k)
    ensures Pow2(k) * Pow2(64 - k) == B64 && Pow2(k - 1) * Pow2(64 - k) == B63
  {
    Pow2Add(k, 64 - k);
    Pow2Add(k - 1, 64 - k);
    Pow64(k + (64 - k));
    Pow64(k - 1 + (64 - k));
  }

  /** The bit of n that leaves q at its top */
  lemma TopBit(n: U64, k: nat, low: nat) returns (bit: nat)
    requires 1 <= k < 64 && low < Pow2(64 - k)
    ensures bit < 2 && n / Pow2(k - 1) == 2 * (n / Pow2(k)) + bit
    ensures n % Pow2(k) == bit * Pow2(k - 1) + n % Pow2(k - 1)
    ensures var q := (n % Pow2(k)) * Pow2(64 - k) + low; q / B63 == bit && q < B64
  {
    HalvePow(k);
    var p, t := Pow2(k - 1), Pow2(64 - k);
    hide Pow2;
    bit := TopOf(n, p, t, low);
  }

  lemma TopOf(n: U64, p: nat, t: nat, low: nat) returns (bit: nat)
    requires p > 0 && p * t == B63 && low < t
    ensures bit < 2 && n / p == 2 * (n / (2 * p)) + bit && n % (2 * p) == bit * p + n % p
    ensures var q := (n % (2 * p)) * t + low; q >= 0 && q / B63 == bit && q < B64
  {
    var m := n % (2 * p);
    bit := m / p;
    SplitRemainder(n, p);
    var rest := (m % p) * t + low;
    assert m == p * bit + m % p;
    Commutes(p, bit);
    Remultiply(bit, p, m % p, t, low);
    Room(m % p, p, t, low);
    QuotientIs(m * t + low, B63, bit, rest);
  }

  lemma DistributeOver(a: int, b: int, t: int)
    ensures (a + b) * t == a * t + b * t
  {}

  lemma MulAssoc(a: int, b: int, c: int)
    ensures (a * b) * c == a * (b * c)
  {}

  /** Splitting a division by 2p into one by p and one bit */
  lemma SplitRemainder(n: nat, p: nat)
    requires p > 0
    ensures n % (2 * p) / p < 2 && n % (2 * p) % p == n % p
    ensures n / p == 2 * (n / (2 * p)) + n % (2 * p) / p
  {
    var q, m := n / (2 * p), n % (2 * p);
    MultipleGrows(p, m / p - 1);
    Doubled(p, q);
    DistributeOver(2 * q, m / p, p);
    assert n == p * (2 * q + m / p) + m % p by {
      assert p * (2 * q) == 2 * (p * q);
      Expand(p, 2 * q, m / p);
    }
    QuotientIs(n, p, 2 * q + m / p, m % p);
    BelowTwo(m, p);
  }

  lemma SmallRemainder(a: nat, p: nat)
    requires a < p
    ensures a % p == a && a / p == 0
  {
    QuotientIs(a, p, 0, a);
  }

  lemma Expand(p: int, a: int, b: int)
    ensures p * (a + b) == p * a + p * b
  {}

  lemma BelowTwo(m: nat, p: nat)
    requires p > 0 && m < 2 * p
    ensures m / p < 2
  {
    assert p * (m / p) <= m;
    MultipleGrows(p, 2 - m / p);
    assert p * (2 - m / p) == 2 * p - p * (m / p) > 0;
  }

  /** The shifted-in value fits, and its comparison with d by sign bit is right. */
  lemma SignMaskCompares(n: U64, d: U64, k: nat, q: U64, r: U64, carry: nat, quotient: nat)
    requires k >= 1 && Progress(n, d, k, q, r, carry, quotient) && SignTrick(n, d, k)
    ensures NextRemainder(q, r) < B64
    ensures SignMask(d, NextRemainder(q, r)) == if NextRemainder(q, r) >= d then B64 - 1 else 0
  {
    if d > B63 {
      assert Pow2(1) == 2;
      QuotientSmall(n / 2, quotient, d, r);
      var bit := TopBit(n, k, quotient / 2) by { HalfFits(quotient, k); }
      assert Pow2(0) == 1;
    } else {
      assert q / B63 < 2;
    }
  }

  lemma HalfFits(quotient: nat, k: nat)
    requires k < 64 && quotient < Pow2(63 - k)
    ensures quotient / 2 < Pow2(64 - k)
  {
    HalvePow(k + 1);
  }

  lemma QuotientSmall(a: nat, q: nat, d: nat, r: nat)
    requires a == q * d + r && a < d
    ensures q == 0 && r == a
  {
    MultipleGrows(d, q);
    assert q * d == d * q;
  }

  /** One step of the division: r1 is the shifted remainder, q1 the shifted register. */
  lemma StepKeepsProgress(n: U64, d: U64, k: nat, q: U64, r: U64, carry: nat, quotient: nat, q1: U64, r1: U64)
    requires k >= 1 && Progress(n, d, k, q, r, carry, quotient)
    requires r1 == NextRemainder(q, r) && q1 == 2 * q % B64 + carry
    ensures r1 >= d ==> Progress(n, d, k - 1, q1, r1 - d, 1, 2 * quotient + 1)
    ensures r1 < d ==> Progress(n, d, k - 1, q1, r1, 0, 2 * quotient)
  {
    ShiftQuotient(n, k, q, quotient);
    DoubledQuotient(quotient, d);
    RemainderBelow(r, d, q / B63);
    Finish(n, d, k, q1, r1, quotient);
  }

  lemma RemainderBelow(r: nat, d: nat, bit: nat)
    requires r < d && bit < 2
    ensures 2 * r + bit < 2 * d
  {}

  lemma Finish(n: U64, d: U64, k: nat, q1: U64, r1: U64, quotient: nat)
    requires 1 <= k < 64 && 2 * quotient + 1 < Pow2(63 - (k - 1)) && r1 < 2 * d
    requires n / Pow2(k - 1) == 2 * (quotient * d) + r1
    requires q1 == (n % Pow2(k - 1)) * Pow2(64 - (k - 1)) + quotient
    ensures r1 >= d ==> Progress(n, d, k - 1, q1, r1 - d, 1, 2 * quotient + 1)
    ensures r1 < d ==> Progress(n, d, k - 1, q1, r1, 0, 2 * quotient)
  {
    DoubledQuotient(quotient, d);
    assert (2 * quotient + 1) / 2 == quotient && (2 * quotient + 1) % 2 == 1;
  }

  /** The register of n and quotient after its shift */
  lemma ShiftQuotient(n: U64, k: nat, q: U64, quotient: nat)
    requires 1 <= k < 64 && quotient < Pow2(63 - k)
    requires q == (n % Pow2(k)) * Pow2(64 - k) + quotient / 2
    ensures n / Pow2(k - 1) == 2 * (n / Pow2(k)) + q / B63
    ensures 2 * q % B64 + quotient % 2 == (n % Pow2(k - 1)) * Pow2(64 - (k - 1)) + quotient
    ensures quotient < Pow2(63 - (k - 1)) && 2 * quotient + 1 < Pow2(63 - (k - 1))
  {
    HalfFits(quotient, k);
    HalvePow(k);
    var bit := TopBit(n, k, quotient / 2);
    var p, t := Pow2(k - 1), Pow2(64 - k);
    var rest := (n % p) * t;
    Remultiply(bit, p, n % p, t, quotient / 2);
    Room(n % p, p, t, quotient / 2);
    assert q == bit * B63 + rest + quotient / 2;
    QuotientIs(2 * q, B64, bit, 2 * (rest + quotient / 2));
    Doubled(t, n % p);
    assert (n % p) * (2 * t) == 2 * rest;
    OnePower(k);
  }

  lemma OnePower(k: nat)
    requires 1 <= k < 64
    ensures Pow2(63 - (k - 1)) == 2 * Pow2(63 - k)
  {}

  lemma Remultiply(bit: nat, p: nat, m: nat, t: nat, h: nat)
    requires p * t == B63
    ensures (bit * p + m) * t + h == bit * B63 + m * t + h
  {
    DistributeOver(bit * p, m, t);
    MulAssoc(bit, p, t);
  }

  lemma Room(m: nat, p: nat, t: nat, h: nat)
    requires p * t == B63 && m < p && h < t
    ensures 0 <= m * t && m * t + h < B63
  {
    RemainderFits(t, p, m, h);
  }

  lemma DoubledQuotient(quotient: nat, d: nat)
    ensures (2 * quotient) * d == 2 * (quotient * d) && (2 * quotient + 1) * d == 2 * (quotient * d) + d
  {}

  // ---- setting up: both halves shifted apart by sr ----

  /** The two powers of a shift by s within a half */
  lemma Powers32(s: nat) returns (p: nat, t: nat)
    requires s < 32
    ensures p == Pow2(s) && t == Pow2(32 - s) && p >= 1 && t >= 1 && p * t == B32
  {
    p, t := Pow2(s), Pow2(32 - s);
    Pow2Add(s, 32 - s);
    WordsIsPow2(s + (32 - s));
  }

  lemma TimesQuotient(a: nat, p: nat, t: nat, w: nat) returns (high: nat, low: nat)
    requires p >= 1 && t >= 1 && w == p * t
    ensures high == (a / p) * w && low == (a % p) * t && low < w && a * t == high + low
  {
    var q, m := a / p, a % p;
    high, low := q * w, m * t;
    RemainderFits(t, p, m, 0);
    assert q * w == (t * p) * q;
    Regroup(t, p, q, m);
    assert t * m == low && t * p == w;
    assert a == p * q + m;
    assert t * a == a * t;
  }

  /** A left shift by t that wraps at p * t keeps what is below p. */
  lemma WrapAt(a: nat, p: nat, t: nat, w: nat)
    requires p >= 1 && t >= 1 && w == p * t
    ensures a * t % w == (a % p) * t && (a % p) * t < w
  {
    var high, low := TimesQuotient(a, p, t, w);
    assert w > 0 by { MultipleGrows(p, t); }
    assert high == w * (a / p);
    QuotientIs(a * t, w, a / p, low);
  }

  lemma ShlKeepsLow(a: Word, s: nat) returns (p: nat, t: nat)
    requires 1 <= s < 32
    ensures p == Pow2(s) && t == Pow2(32 - s) && p >= 1 && t >= 1 && p * t == B32
    ensures Shl(a, 32 - s) == (a % p) * t
  {
    p, t := Powers32(s);
    WrapAt(a, p, t, B32);
  }

  /** (high << (32 - s)) | (low >> s) */
  lemma ShiftPair(high: Word, low: Word, s: nat) returns (p: nat, t: nat, v: nat)
    requires 1 <= s < 32
    ensures p == Pow2(s) && t == Pow2(32 - s) && p >= 1 && t >= 1 && p * t == B32
    ensures v == (high % p) * t + low / p && v < B32
    ensures Or(Shl(high, 32 - s), Shr(low, s)) == v
  {
    hide Or, Pow2;
    p, t := ShlKeepsLow(high, s);
    var x, y := high % p, low / p;
    QuotientBelow(low, p, t);
    OrDisjoint(x, y, 32 - s);
    RemainderFits(t, p, x, y);
    var product := t * x;
    assert product == x * t;
    v := product + y;
  }

  lemma QuotientBelow(a: nat, p: nat, t: nat)
    requires p > 0 && a < p * t
    ensures a / p < t
  {
    MultipleGrows(p, t - a / p);
    assert p * (t - a / p) == p * t - p * (a / p);
  }

  /** A two-digit number shifted right by less than a digit */
  lemma SplitNear(n: nat, high: nat, low: nat, p: nat, t: nat, w: nat)
    requires p >= 1 && t >= 1 && w == p * t && n == high * w + low
    ensures n / p == (high / p) * w + (high % p) * t + low / p && n % p == low % p
  {
    var h, l := TimesQuotient(high, p, t, w);
    var u, m := low / p, low % p;
    assert p * (high * t) == high * w by { MulAssoc(high, p, t); MulAssoc(p, high, t); }
    Expand(p, high * t, u);
    QuotientIs(n, p, high * t + u, m);
  }

  /** A two-digit number shifted right by more than a digit */
  lemma SplitFar(n: nat, high: nat, low: nat, p: nat, w: nat)
    requires p >= 1 && w >= 1 && n == high * w + low && low < w
    ensures p * w >= 1 && n / (p * w) == high / p && n % (p * w) == (high % p) * w + low
  {
    var h, l := TimesQuotient(high, p, w, p * w);
    assert p * w >= 1 by { MultipleGrows(p, w); }
    RemainderFits(w, p, high % p, low);
    assert h == (p * w) * (high / p);
    QuotientIs(n, p * w, high / p, l + low);
  }

  /** q and r at the start of the loop */
  ghost predicate Loaded(n: U64, sr: nat, q: U64, r: U64) {
    sr <= 64 && r == n / Pow2(sr) && q == (n % Pow2(sr)) * Pow2(64 - sr)
  }

  lemma LoadedNear(n: U64, s: nat, p: nat, t: nat, q: U64, r: U64)
    requires 1 <= s < 32 && p == Pow2(s) && t == Pow2(32 - s) && p * t == B32
    requires q == ((Low(n) % p) * t) * B32 && r == (High(n) / p) * B32 + (High(n) % p) * t + Low(n) / p
    ensures Loaded(n, s, q, r)
  {
    hide Pow2;
    Pow2Add(32 - s, 32);
    WordsIsPow2(32);
    SplitNear(n, High(n), Low(n), p, t, B32);
    MulAssoc(Low(n) % p, t, B32);
  }

  lemma LoadedFar(n: U64, u: nat, p: nat, t: nat, q: U64, r: U64)
    requires 1 <= u < 32 && p == Pow2(u) && t == Pow2(32 - u) && p * t == B32
    requires q == ((High(n) % p) * t + Low(n) / p) * B32 + (Low(n) % p) * t && r == High(n) / p
    ensures Loaded(n, 32 + u, q, r)
  {
    hide Pow2;
    Pow2Add(u, 32);
    WordsIsPow2(32);
    SplitFar(n, High(n), Low(n), p, B32);
    var x := High(n) % p;
    var h, l := TimesQuotient(Low(n), p, t, B32);
    DistributeOver(x * B32, Low(n), t);
    DistributeOver(x * t, Low(n) / p, B32);
    MulAssoc(x, B32, t);
    MulAssoc(x, t, B32);
  }

  method LoadNear(n: U64, sr: nat) returns (qHigh: Word, qLow: Word, rHigh: Word, rLow: Word)
    requires 1 <= sr < 32
    ensures Loaded(n, sr, Make(qHigh, qLow), Make(rHigh, rLow))
  {
    hide Or, Pow2, Shl, Loaded;
    ghost var p, t := ShlKeepsLow(Low(n), sr);
    ghost var _, _, v := ShiftPair(High(n), Low(n), sr);
    qLow := 0;
    qHigh := Shl(Low(n), 32 - sr);
    rHigh := Shr(High(n), sr);
    rLow := Or(Shl(High(n), 32 - sr), Shr(Low(n), sr));
    LoadedNear(n, sr, p, t, Make(qHigh, qLow), Make(rHigh, rLow));
  }

  method LoadMiddle(n: U64) returns (qHigh: Word, qLow: Word, rHigh: Word, rLow: Word)
    ensures Loaded(n, 32, Make(qHigh, qLow), Make(rHigh, rLow))
  {
    WordsIsPow2(32);
    qLow := 0;
    qHigh := Low(n);
    rHigh := 0;
    rLow := High(n);
  }

  method LoadFar(n: U64, sr: nat) returns (qHigh: Word, qLow: Word, rHigh: Word, rLow: Word)
    requires 33 <= sr < 64
    ensures Loaded(n, sr, Make(qHigh, qLow), Make(rHigh, rLow))
  {
    hide Or, Pow2, Shl, Loaded;
    ghost var p, t := ShlKeepsLow(Low(n), sr - 32);
    ghost var _, _, v := ShiftPair(High(n), Low(n), sr - 32);
    qLow := Shl(Low(n), 64 - sr);
    qHigh := Or(Shl(High(n), 64 - sr), Shr(Low(n), sr - 32));
    rHigh := 0;
    rLow := Shr(High(n), sr - 32);
    LoadedFar(n, sr - 32, p, t, Make(qHigh, qLow), Make(rHigh, rLow));
  }

  // ---- the loop ----

  /** One bit moves from y into x. */
  lemma ShiftIn(x: Word, y: Word)
    ensures Or(Shl(x, 1), Shr(y, 31)) == 2 * x % B32 + y / 0x8000_0000
    ensures forall carry | 0 <= carry < 2 :: Or(Shl(x, 1), carry) == 2 * x % B32 + carry
  {
    hide Or;
    var p, t := ShlKeepsLow(x, 31);
    Powers();
    TopHalf(31);
    OrDisjoint(x % p, y / 0x8000_0000, 1);
    forall carry | 0 <= carry < 2 ensures Or(Shl(x, 1), carry) == 2 * x % B32 + carry {
      OrDisjoint(x % p, carry, 1);
    }
  }

  lemma TopHalf(n: nat)
    requires n == 31
    ensures Pow2(n) == 0x8000_0000
  {
    WordsIsPow2(n + 1);
  }

  /** Shifting two halves one after the other shifts the whole. */
  lemma DoubleHalves(high: Word, low: Word, bit: nat)
    requires bit < 2
    ensures (2 * high % B32 + low / 0x8000_0000) * B32 + (2 * low % B32 + bit) == 2 * Make(high, low) % B64 + bit
    ensures high / 0x8000_0000 == Make(high, low) / B63
  {
    var h, l := high / 0x8000_0000, low / 0x8000_0000;
    var h', l' := high - 0x8000_0000 * h, low - 0x8000_0000 * l;
    QuotientIs(2 * high, B32, h, 2 * h');
    QuotientIs(2 * low, B32, l, 2 * l');
    QuotientIs(2 * Make(high, low), B64, h, (2 * h' + l) * B32 + 2 * l');
    QuotientIs(Make(high, low), B63, h, h' * B32 + low);
  }

  /** carry goes into the lowest bit of a register shifted by one. */
  lemma CarryIn(q: U64, carry: nat)
    requires carry < 2
    ensures Or(2 * q % B64, carry) == 2 * q % B64 + carry
  {
    hide Or;
    DoubleModulo(q, B63);
    assert Pow2(1) == 2;
    OrDisjoint(q % B63, carry, 1);
  }

  lemma DoubleModulo(q: nat, p: nat)
    requires p > 0
    ensures 2 * q % (2 * p) == 2 * (q % p)
  {
    HalveModulo(2 * q, p);
  }

  /** r:q = (r:q << 1) | carry, half by half */
  method ShiftRegisters(rHigh0: Word, rLow0: Word, qHigh0: Word, qLow0: Word, carry: nat)
    returns (rHigh: Word, rLow: Word, qHigh: Word, qLow: Word)
    requires carry < 2
    ensures Make(rHigh, rLow) == 2 * Make(rHigh0, rLow0) % B64 + Make(qHigh0, qLow0) / B63
    ensures Make(qHigh, qLow) == 2 * Make(qHigh0, qLow0) % B64 + carry
  {
    hide Or, Shl;
    rHigh, rLow, qHigh, qLow := rHigh0, rLow0, qHigh0, qLow0;
    ShiftIn(rHigh0, rLow0);
    ShiftIn(rLow0, qHigh0);
    ShiftIn(qHigh0, qLow0);
    ShiftIn(qLow0, 0);
    DoubleHalves(rHigh0, rLow0, qHigh0 / 0x8000_0000);
    DoubleHalves(qHigh0, qLow0, carry);
    TopHalf(31);
    rHigh := Or(Shl(rHigh, 1), Shr(rLow, 31));
    rLow := Or(Shl(rLow, 1), Shr(qHigh, 31));
    qHigh := Or(Shl(qHigh, 1), Shr(qLow, 31));
    qLow := Or(Shl(qLow, 1), carry);
  }

  /** Branchless: if r >= d, subtract d and set the carry. */
  method SubtractIfFits(d: U64, r0: U64) returns (r: U64, carry: nat)
    requires SignMask(d, r0) == if r0 >= d then B64 - 1 else 0
    ensures r == (if r0 >= d then r0 - d else r0) && carry == if r0 >= d then 1 else 0
  {
    hide And;
    var s := SignMask(d, r0);
    MaskSelects(d, s);
    carry := And(s, 1);
    r := Subtract64(r0, And(d, s));
  }

  function Subtract64(a: U64, b: U64): U64 { if a >= b then a - b else a - b + B64 }

  /** The loop on halves, one bit of the dividend at a time, and the last shift of q */
  method ShiftSubtract(ghost n: U64, d: U64, sr: nat, qHigh0: Word, qLow0: Word, rHigh0: Word, rLow0: Word)
    returns (quotient: U64, rem: U64)
    requires sr < 64 && Loaded(n, sr, Make(qHigh0, qLow0), Make(rHigh0, rLow0))
    requires Make(rHigh0, rLow0) < d && SignTrick(n, d, sr)
    ensures quotient == n / d && rem == n % d
  {
    hide Or, Shl, Shr, Pow2, SignMask, And, Progress, NextRemainder;
    var qHigh, qLow, rHigh, rLow := qHigh0, qLow0, rHigh0, rLow0;
    var carry: nat := 0;
    ghost var found: nat := 0;
    StartProgress(n, d, sr, Make(qHigh, qLow), Make(rHigh, rLow));
    for k := sr downto 0
      invariant carry < 2
      invariant Progress(n, d, k, Make(qHigh, qLow), Make(rHigh, rLow), carry, found)
    {
      ghost var q, r := Make(qHigh, qLow), Make(rHigh, rLow);
      SignMaskCompares(n, d, k + 1, q, r, carry, found);
      ghost var carry0 := carry;
      NextIsShift(q, r);
      rHigh, rLow, qHigh, qLow := ShiftRegisters(rHigh, rLow, qHigh, qLow, carry);
      ghost var q1 := Make(qHigh, qLow);
      var r1 := Make(rHigh, rLow);
      StepKeepsProgress(n, d, k + 1, q, r, carry0, found, q1, r1);
      var r2: U64;
      r2, carry := SubtractIfFits(d, r1);
      rHigh, rLow := High(r2), Low(r2);
      found := if r1 >= d then 2 * found + 1 else 2 * found;
    }
    var q := Make(qHigh, qLow);
    CarryIn(q, carry);
    rem := Make(rHigh, rLow);
    EndProgress(n, d, q, rem, carry, found);
    quotient := Or(2 * q % B64, carry);
  }

  lemma NextIsShift(q: U64, r: U64)
    requires NextRemainder(q, r) < B64
    ensures NextRemainder(q, r) == 2 * r % B64 + q / B63
  {
    assert 2 * r <= NextRemainder(q, r);
  }

  lemma StartProgress(n: U64, d: U64, sr: nat, q: U64, r: U64)
    requires sr < 64 && Loaded(n, sr, q, r) && r < d
    ensures Progress(n, d, sr, q, r, 0, 0)
  {}

  lemma EndProgress(n: U64, d: U64, q: U64, r: U64, carry: nat, found: nat)
    requires Progress(n, d, 0, q, r, carry, found)
    ensures 2 * q % B64 + carry == n / d && r == n % d
  {
    LastRegister(n, d, 0, q, r, carry, found);
    hide Progress;
    QuotientIs(n, d, found, r);
  }

  lemma LastRegister(n: U64, d: U64, k: nat, q: U64, r: U64, carry: nat, found: nat)
    requires k == 0 && Progress(n, d, k, q, r, carry, found)
    ensures found < B63 && r < d && n == d * found + r && q == found / 2 && carry == found % 2
  {
    var p, t := Pow2(k), Pow2(64 - k);
    assert p == 1;
    hide Pow2;
    FewBits(found, 63 - k);
    Unscaled(n, p, t, found / 2);
    Commutes(found, d);
  }

  lemma Commutes(a: int, b: int)
    ensures a * b == b * a
  {}

  lemma Unscaled(n: nat, p: nat, t: nat, h: nat)
    requires p == 1
    ensures n / p == n && (n % p) * t + h == h
  {
    QuotientIs(n, p, n, 0);
  }

  lemma FewBits(x: nat, n: nat)
    requires n == 63 && x < Pow2(n)
    ensures x < B63
  {
    Pow64(n);
  }

  // ---- where the loop may start ----

  /** An unsigned difference wraps around below zero. */
  function Unsigned(x: int): Word
    requires -B32 <= x < B32
  {
    if x < 0 then x + B32 else x
  }

  /** With one bit more than the difference of the lengths, the upper part is below the divisor. */
  lemma StartsBelow(n: U64, d: U64, sr: nat)
    requires n > 0 && d > 0 && 1 <= sr < 64 && sr == 1 + BitLength(n) - BitLength(d)
    ensures n / Pow2(sr) < d && SignTrick(n, d, sr)
  {
    BitLengthBounds(n);
    BitLengthBounds(d);
    var p, u := Pow2(sr), Pow2(BitLength(d) - 1);
    Pow2Add(BitLength(d) - 1, sr);
    assert u * p == Pow2(BitLength(n));
    QuotientBelow(n, p, u) by { Commutes(u, p); }
    if d > B63 {
      LongNumbers(n, d, 64);
    }
  }

  lemma LongNumbers(n: U64, d: U64, w: nat)
    requires w == 64 && d > B63 && n > 0 && BitLength(n) >= BitLength(d)
    ensures BitLength(n) == BitLength(d) == w && n >= B63
  {
    Pow64(w);
    Pow64(w - 1);
    BitLengthAtMost(n, w);
    BitLengthAtMost(d, w);
    BitLengthBounds(d);
    BitLengthBounds(n);
    if BitLength(d) < w { Pow2Monotone(BitLength(d), w - 1); }
  }

  lemma {:induction false} LengthOfPair(high: nat, low: nat, k: nat)
    requires high > 0 && low < Pow2(k)
    ensures high * Pow2(k) >= 0 && BitLength(high * Pow2(k) + low) == k + BitLength(high)
  {
    if k > 0 {
      LengthOfPair(high, low / 2, k - 1);
      var p := high * Pow2(k - 1);
      assert high * Pow2(k) == 2 * p by {
        Doubled(Pow2(k - 1), high);
        Commutes(high, Pow2(k));
        Commutes(high, Pow2(k - 1));
      }
      assert (2 * p + low) / 2 == p + low / 2;
      MultipleGrows(high, Pow2(k - 1));
    }
  }

  lemma LengthOfWord(a: U64)
    requires High(a) > 0
    ensures BitLength(a) == 32 + BitLength(High(a))
  {
    LengthByHalves(a, 32);
  }

  lemma LengthByHalves(a: U64, k: nat)
    requires k == 32 && High(a) > 0
    ensures BitLength(a) == k + BitLength(High(a))
  {
    WordsIsPow2(k);
    LengthOfPair(High(a), Low(a), k);
  }

  lemma LengthWithin(a: nat, n: nat)
    requires 0 < a < B32 && n == 32
    ensures 1 <= BitLength(a) <= n
  {
    WordsIsPow2(n);
    BitLengthAtMost(a, n);
  }

  /** A power of two below 2^32 has an exponent below 32; exponents compare as powers do. */
  lemma Exponent(d: Word, n: nat)
    requires d > 0 && d == Pow2(Ctz(d)) && n == 32
    ensures Ctz(d) < n && (d > 1 ==> Ctz(d) >= 1)
  {
    WordsIsPow2(n);
    if Ctz(d) >= n { Pow2Monotone(n, Ctz(d)); }
  }

  /** d & (d - 1) as a test, and n & (d - 1) as a remainder */
  lemma PowerOfTwo(n: Word, d: Word)
    requires d > 0 && And(d, d - 1) == 0
    ensures d == Pow2(Ctz(d)) && Ctz(d) < 32 && (d > 1 ==> Ctz(d) >= 1)
    ensures And(n, d - 1) == n % d && Shr(n, Ctz(d)) == n / d
  {
    PowerOfTwoTest(d);
    Exponent(d, 32);
    AndCommutes(n, d - 1);
    MaskKeeps(Ctz(d), n);
  }

  // ---- the cases of the division by halves ----

  lemma HalvesOf(n: U64)
    ensures n == High(n) * B32 + Low(n) && Make(High(n), Low(n)) == n
  {}

  /** A divisor with an empty low half divides the high half. */
  lemma HighDivides(n: U64, d: U64)
    requires Low(d) == 0 && High(d) != 0
    ensures n / d == High(n) / High(d) && n % d == Make(High(n) % High(d), Low(n))
  {
    HalvesOf(n);
    HalvesOf(d);
    SplitFar(n, High(n), Low(n), High(d), B32);
  }

  /** __builtin_clz(d.s.high) - __builtin_clz(n.s.high), one bit more */
  lemma HighSetUp(n: U64, d: U64)
    requires High(n) != 0 && High(d) != 0
    ensures var sr := Clz(High(d)) - Clz(High(n));
            (if sr < 0 then n < d else n / Pow2(sr + 1) < d && SignTrick(n, d, sr + 1))
    ensures -32 < Clz(High(d)) - Clz(High(n)) < 32
    ensures Clz(High(d)) <= 31 && (Clz(High(d)) == 31 <==> High(d) == 1)
  {
    hide High, Low, BitLength, Pow2, SignTrick, Make;
    HalvesOf(n);
    HalvesOf(d);
    LengthOfWord(n);
    LengthOfWord(d);
    LengthWithin(High(n), 32);
    LengthWithin(High(d), 32);
    OneDigit(High(d));
    var sr := Clz(High(d)) - Clz(High(n));
    if sr < 0 {
      BitLengthBounds(n);
      BitLengthBounds(d);
      Pow2Monotone(BitLength(n), BitLength(d) - 1);
    } else {
      StartsBelow(n, d, sr + 1);
    }
  }

  lemma OneDigit(a: nat)
    ensures BitLength(a) == 1 <==> a == 1
  {}

  lemma BelowIsRemainder(n: nat, d: nat)
    requires n < d
    ensures n / d == 0 && n % d == n
  {
    QuotientIs(n, d, 0, n);
  }

  /** K X by K 0 */
  method DivideByHigh(n: U64, d: U64) returns (q: U64, rem: U64)
    requires High(n) != 0 && Low(d) == 0 && High(d) != 0
    ensures q == n / d && rem == n % d
  {
    hide And, Loaded, Pow2, Make, Ctz, BitLength, Clz, High, Low, Shr, SignTrick;
    HighDivides(n, d);
    if Low(n) == 0 {
      rem := Make(High(n) % High(d), 0);
      q := High(n) / High(d);
      return;
    }
    if And(High(d), High(d) - 1) == 0 {
      PowerOfTwo(High(n), High(d));
      rem := Make(And(High(n), High(d) - 1), Low(n));
      q := Shr(High(n), Ctz(High(d)));
      return;
    }
    HighSetUp(n, d);
    NotOne(High(d));
    var sr := Unsigned(Clz(High(d)) - Clz(High(n)));
    if sr > 30 {
      BelowIsRemainder(n, d);
      return 0, n;
    }
    sr := sr + 1;
    var qHigh, qLow, rHigh, rLow := LoadNear(n, sr);
    AtLoop(n, d, sr, Make(qHigh, qLow), Make(rHigh, rLow));
    q, rem := ShiftSubtract(n, d, sr, qHigh, qLow, rHigh, rLow);
  }

  lemma NotOne(d: Word)
    requires d > 0 && And(d, d - 1) != 0
    ensures d != 1
  {
    if d == 1 { AndCommutes(1, 0); AndZero(1); }
  }

  lemma AtLoop(n: U64, d: U64, sr: nat, q: U64, r: U64)
    requires Loaded(n, sr, q, r) && n / Pow2(sr) < d
    ensures r < d
  {}

  /** K X by 0 K */
  method DivideByLow(n: U64, d: U64) returns (q: U64, rem: U64)
    requires High(n) != 0 && Low(d) != 0 && High(d) == 0
    ensures q == n / d && rem == n % d
  {
    hide And, Loaded, Pow2, Make, Ctz, BitLength, Or, Shl, Shr, Clz, High, Low, SignTrick;
    if And(Low(d), Low(d) - 1) == 0 {
      PowerOfTwo(Low(n), Low(d));
      PowerOfTwo(High(n), Low(d));
      rem := And(Low(n), Low(d) - 1);
      if Low(d) == 1 {
        ByOne(n, d);
        return n, rem;
      }
      ghost var p, t, v := ShiftPair(High(n), Low(n), Ctz(Low(d)));
      var sr := Ctz(Low(d));
      var qHigh := Shr(High(n), sr);
      var qLow := Or(Shl(High(n), 32 - sr), Shr(Low(n), sr));
      LowPower(n, d, p, t, qHigh, qLow);
      return Make(qHigh, qLow), rem;
    }
    NotOne(Low(d));
    LowSetUp(n, d);
    var sr := 1 + 32 + Clz(Low(d)) - Clz(High(n));
    var qHigh, qLow, rHigh, rLow;
    if sr == 32 {
      qHigh, qLow, rHigh, rLow := LoadMiddle(n);
    } else if sr < 32 {
      qHigh, qLow, rHigh, rLow := LoadNear(n, sr);
    } else {
      qHigh, qLow, rHigh, rLow := LoadFar(n, sr);
    }
    AtLoop(n, d, sr, Make(qHigh, qLow), Make(rHigh, rLow));
    q, rem := ShiftSubtract(n, d, sr, qHigh, qLow, rHigh, rLow);
  }

  lemma ByOne(n: U64, d: U64)
    requires High(d) == 0 && Low(d) == 1
    ensures n / d == n && n % d == Low(n) % Low(d)
  {
    HalvesOf(d);
  }

  lemma LowPower(n: U64, d: U64, p: nat, t: nat, qHigh: Word, qLow: Word)
    requires High(d) == 0 && Low(d) == p && p >= 1 && t >= 1 && p * t == B32
    requires qHigh == High(n) / p && qLow == (High(n) % p) * t + Low(n) / p
    ensures Make(qHigh, qLow) == n / d && n % d == Low(n) % p
  {
    HalvesOf(n);
    HalvesOf(d);
    SplitNear(n, High(n), Low(n), p, t, B32);
  }

  lemma LowSetUp(n: U64, d: U64)
    requires High(n) != 0 && High(d) == 0 && Low(d) > 1
    ensures var sr := 1 + 32 + Clz(Low(d)) - Clz(High(n));
            2 <= sr < 64 && n / Pow2(sr) < d && SignTrick(n, d, sr)
  {
    LengthOfWord(n);
    LengthWithin(High(n), 32);
    LengthWithin(Low(d), 32);
    OneDigit(Low(d));
    HalvesOf(d);
    StartsBelow(n, d, 1 + 32 + Clz(Low(d)) - Clz(High(n)));
  }

  /** K X by K K */
  method DivideByBoth(n: U64, d: U64) returns (q: U64, rem: U64)
    requires High(n) != 0 && Low(d) != 0 && High(d) != 0
    ensures q == n / d && rem == n % d
  {
    hide Loaded, Pow2, Make, BitLength;
    HighSetUp(n, d);
    var sr := Unsigned(Clz(High(d)) - Clz(High(n)));
    if sr > 31 {
      BelowIsRemainder(n, d);
      return 0, n;
    }
    sr := sr + 1;
    var qHigh, qLow, rHigh, rLow;
    if sr == 32 {
      qHigh, qLow, rHigh, rLow := LoadMiddle(n);
    } else {
      qHigh, qLow, rHigh, rLow := LoadNear(n, sr);
    }
    AtLoop(n, d, sr, Make(qHigh, qLow), Make(rHigh, rLow));
    q, rem := ShiftSubtract(n, d, sr, qHigh, qLow, rHigh, rLow);
  }

  /** __udivmoddi4: the exact quotient and remainder for every non-zero divisor */
  method UdivmodDi4(a: U64, b: U64) returns (q: U64, rem: U64)
    requires b != 0
    ensures q == a / b && rem == a % b
  {
    HalvesOf(b);
    if High(a) == 0 {
      if High(b) == 0 {
        return Low(a) / Low(b), Low(a) % Low(b);
      }
      BelowIsRemainder(a, b);
      return 0, Low(a);
    }
    if Low(b) == 0 {
      q, rem := DivideByHigh(a, b);
    } else if High(b) == 0 {
      q, rem := DivideByLow(a, b);
    } else {
      q, rem := DivideByBoth(a, b);
    }
  }
}

/** How a shift of a word comes together from table entries for its four bytes. */
module ShiftMath {
  import opened Words

  /** The word an entry of the table for byte i is the shift of
      (abstract-machine/tools/minirv/gen-lut.c:22-24). */
  function EntryInput(kind: Shift, i: Byte): Word {
    if kind == ShiftLeft then i else i * 0x100_0000
  }

  function Entry(kind: Shift, i: Byte, k: nat): Bytes { Split(ShiftWord(kind, EntryInput(kind, i), k)) }

  // ---- left ----

  lemma ModuloIs(a: int, q: int, r: int)
    requires a == WORDS * q + r && 0 <= r < WORDS
    ensures a % WORDS == r
  {
    QuotientIs(a, WORDS, q, r);
  }

  lemma ShiftLeftOnce(a: Word, k: nat)
    ensures var s := ShiftWord(ShiftLeft, a, k); Sum(s, s) == ShiftWord(ShiftLeft, a, k + 1)
  {
    var t, p := a * Pow2(k), Pow2(k);
    assert a * Pow2(k + 1) == 2 * t by { Doubled(p, a); }
    var s := t % WORDS;
    ModuloIs(2 * t, if 2 * s >= WORDS then 2 * (t / WORDS) + 1 else 2 * (t / WORDS), Sum(s, s));
  }

  lemma {:induction false} ShiftLeftAdd(a: Word, i: nat, j: nat)
    ensures ShiftWord(ShiftLeft, ShiftWord(ShiftLeft, a, i), j) == ShiftWord(ShiftLeft, a, i + j)
  {
    if j > 0 {
      ShiftLeftAdd(a, i, j - 1);
      ShiftLeftOnce(ShiftWord(ShiftLeft, a, i), j - 1);
      ShiftLeftOnce(a, i + j - 1);
    }
  }

  /** a * 2^24 and a * 2^16, taken modulo 2^32, keep the lowest one or two bytes of a. */
  lemma ShiftLeftBytes(a: Bytes)
    ensures ShiftWord(ShiftLeft, Val(a), 24) == Val(Bytes(0, 0, 0, a.b0))
    ensures ShiftWord(ShiftLeft, Val(a), 16) == Val(Bytes(0, 0, a.b0, a.b1))
    ensures ShiftWord(ShiftLeft, Val(a), 8) == Val(Bytes(0, a.b0, a.b1, a.b2))
  {
    assert Pow2(8) == 256;
    assert Pow2(16) == 0x1_0000;
    assert Pow2(24) == 0x100_0000;
    ModuloIs(Val(a) * 0x100_0000, a.b1 + 256 * (a.b2 + 256 * a.b3), Val(Bytes(0, 0, 0, a.b0)));
    ModuloIs(Val(a) * 0x1_0000, a.b2 + 256 * a.b3, Val(Bytes(0, 0, a.b0, a.b1)));
    ModuloIs(Val(a) * 256, a.b3, Val(Bytes(0, a.b0, a.b1, a.b2)));
  }

  /** The entry for one byte, as a number that was reduced modulo 2^32. */
  lemma LeftEntry(i: Byte, k: nat) returns (a: nat)
    ensures a == i * Pow2(k) && Val(Entry(ShiftLeft, i, k)) == a % WORDS
  {
    a := i * Pow2(k);
  }

  lemma Distribute(x: Bytes, p: int, a0: int, a1: int, a2: int, a3: int)
    requires a0 == x.b0 * p && a1 == x.b1 * p && a2 == x.b2 * p && a3 == x.b3 * p
    ensures Val(x) * p == a0 + 0x100 * a1 + 0x1_0000 * a2 + 0x100_0000 * a3
  {}

  /** The four entries of sll, moved into place and added. */
  lemma ShiftLeftFromEntries(x: Bytes, k: nat)
    ensures var t0, t1 := Entry(ShiftLeft, x.b0, k), Entry(ShiftLeft, x.b1, k);
            var t2, t3 := Entry(ShiftLeft, x.b2, k), Entry(ShiftLeft, x.b3, k);
            Sum(Sum(Sum(Val(Bytes(0, 0, 0, t3.b0)), Val(Bytes(0, 0, t2.b0, t2.b1))), ShiftWord(ShiftLeft, Val(t1), 8)),
                Val(t0))
              == ShiftWord(ShiftLeft, Val(x), k)
  {
    var p := Pow2(k);
    var t0, t1 := Entry(ShiftLeft, x.b0, k), Entry(ShiftLeft, x.b1, k);
    var t2, t3 := Entry(ShiftLeft, x.b2, k), Entry(ShiftLeft, x.b3, k);
    var a0 := LeftEntry(x.b0, k);
    var a1 := LeftEntry(x.b1, k);
    var a2 := LeftEntry(x.b2, k);
    var a3 := LeftEntry(x.b3, k);
    Distribute(x, p, a0, a1, a2, a3);
    ShiftLeftBytes(t1);
    AddUp(Val(x) * p, a0, a1, a2, a3, t0, t1, t2, t3);
  }

  lemma AddUp(all: nat, a0: nat, a1: nat, a2: nat, a3: nat, t0: Bytes, t1: Bytes, t2: Bytes, t3: Bytes)
    requires Val(t0) == a0 % WORDS && Val(t1) == a1 % WORDS && Val(t2) == a2 % WORDS && Val(t3) == a3 % WORDS
    requires all == a0 + 0x100 * a1 + 0x1_0000 * a2 + 0x100_0000 * a3
    ensures Sum(Sum(Sum(Val(Bytes(0, 0, 0, t3.b0)), Val(Bytes(0, 0, t2.b0, t2.b1))),
                    Val(Bytes(0, t1.b0, t1.b1, t1.b2))),
                Val(t0))
         == all % WORDS
  {
    MovedEntry(t1, a1);
    MovedEntry(t2, a2);
    MovedEntry(t3, a3);
    hide Val, Sum;
    SumOfFour(0x100_0000 * a3, 0x1_0000 * a2, 0x100 * a1, a0);
  }

  lemma SumOfFour(a: nat, b: nat, c: nat, d: nat)
    ensures Sum(Sum(Sum(a % WORDS, b % WORDS), c % WORDS), d % WORDS) == (a + b + c + d) % WORDS
  {
    hide Sum;
    SumOfModulos(a, b);
    SumOfModulos(a + b, c);
    SumOfModulos(a + b + c, d);
  }

  /** A word moved up by whole bytes loses what leaves it. */
  lemma MovedEntry(t: Bytes, a: nat)
    requires Val(t) == a % WORDS
    ensures Val(Bytes(0, t.b0, t.b1, t.b2)) == 0x100 * a % WORDS
    ensures Val(Bytes(0, 0, t.b0, t.b1)) == 0x1_0000 * a % WORDS
    ensures Val(Bytes(0, 0, 0, t.b0)) == 0x100_0000 * a % WORDS
  {
    var w := a / WORDS;
    ModuloIs(0x100 * a, 0x100 * w + t.b3, Val(Bytes(0, t.b0, t.b1, t.b2)));
    ModuloIs(0x1_0000 * a, 0x1_0000 * w + (t.b2 + 256 * t.b3), Val(Bytes(0, 0, t.b0, t.b1)));
    ModuloIs(0x100_0000 * a, 0x100_0000 * w + (t.b1 + 256 * (t.b2 + 256 * t.b3)), Val(Bytes(0, 0, 0, t.b0)));
  }

  lemma SumOfModulos(x: nat, y: nat)
    ensures Sum(x % WORDS, y % WORDS) == (x + y) % WORDS
  {
    var u, v := x % WORDS, y % WORDS;
    ModuloIs(x + y, x / WORDS + y / WORDS + if u + v >= WORDS then 1 else 0, Sum(u, v));
  }

  // ---- right ----

  lemma DivDiv(a: nat, p: nat, q: nat)
    requires p > 0 && q > 0
    ensures p * q > 0 && a / (p * q) == a / p / q
  {
    var h := a / p;
    RemainderFits(p, q, h % q, a % p);
    Regroup(p, q, h / q, h % q);
    QuotientIs(a, p * q, h / q, p * (h % q) + a % p);
  }

  lemma RemainderFits(p: int, q: int, r: int, s: int)
    requires p > 0 && 0 <= r < q && 0 <= s < p
    ensures 0 <= p * r + s < p * q
  {
    assert p * (q - r) == p * q - p * r;
    MultipleGrows(p, q - r);
  }

  lemma Regroup(p: int, q: int, k: int, r: int)
    ensures p * (q * k + r) == (p * q) * k + p * r
  {}

  lemma {:induction false} Pow2Add(i: nat, j: nat)
    ensures Pow2(i + j) == Pow2(i) * Pow2(j)
  {
    if i > 0 {
      Pow2Add(i - 1, j);
      Doubled(Pow2(i - 1), Pow2(j));
    }
  }

  /** Shifting a byte right by r < 8 within two bytes: the upper one, then the lower one. */
  function Upper(i: Byte, r: nat): Byte
    requires r < 8
  {
    DivBound(i, Pow2(r));
    i / Pow2(r)
  }

  function Lower(i: Byte, r: nat): (l: nat)
    requires r < 8
  {
    i % Pow2(r) * Pow2(8 - r)
  }

  lemma Powers()
    ensures Pow2(0) == 1 && Pow2(1) == 2 && Pow2(2) == 4 && Pow2(3) == 8 && Pow2(4) == 16
    ensures Pow2(5) == 32 && Pow2(6) == 64 && Pow2(7) == 128 && Pow2(8) == 256
  {}

  lemma ByteShift(i: Byte, r: nat)
    requires r < 8
    ensures i * 256 == Pow2(r) * (256 * Upper(i, r) + Lower(i, r))
    ensures Upper(i, r) < Pow2(8 - r) && Lower(i, r) <= 256 - Pow2(8 - r)
  {
    Powers();
    Pow2Add(r, 8 - r);
    ByteSplit(i, Pow2(r), Pow2(8 - r));
    hide Pow2;
  }

  /** The same on numbers: p * t is the width of a byte. */
  lemma ByteSplit(i: nat, p: nat, t: nat)
    requires i < 256 && p >= 1 && t >= 1 && p * t == 256
    ensures 0 <= i % p * t <= 256 - t && i / p < t
    ensures i * 256 == p * (256 * (i / p) + i % p * t)
  {
    var q, m := i / p, i % p;
    Times(256, p, q);
    Times(m, p, t);
    Regroup(1, p, 256 * q, m * t);
    assert i == p * q + m;
    Below(p, t, m);
    MultipleGrows(p, t - q);
    assert p * (t - q) == p * t - p * q;
  }

  /** A factor moves across a product. */
  lemma Times(a: int, p: int, b: int)
    ensures p * (a * b) == a * (p * b)
  {}

  lemma Below(p: nat, t: nat, m: nat)
    requires m < p
    ensures 0 <= m * t <= p * t - t
  {
    assert (p - 1 - m) * t >= 0;
    assert (p - 1 - m) * t == p * t - t - m * t;
  }

  lemma Spread(p: int, a: int, b: int, c: int, d: int)
    ensures p * (0x1_0000 * a + 0x100 * b + c + d) == 0x1_0000 * (p * a) + 0x100 * (p * b) + p * c + p * d
  {}

  /** A byte at the top of a word, shifted right by r < 8. */
  lemma TopByteShift(i: Byte, r: nat)
    requires r < 8
    ensures i * 0x100_0000 / Pow2(r) == 0x100_0000 * Upper(i, r) + 0x1_0000 * Lower(i, r)
  {
    ByteShift(i, r);
    var p, h := Pow2(r), 256 * Upper(i, r) + Lower(i, r);
    Spread(p, h, 0, 0, 0);
    QuotientIs(i * 0x100_0000, p, 0x1_0000 * h, 0);
  }

  /** A word shifted right by r < 8, byte by byte: no two parts overlap. */
  lemma WordShift(x: Bytes, r: nat)
    requires r < 8
    ensures Lower(x.b3, r) + Upper(x.b2, r) < 256 && Lower(x.b2, r) + Upper(x.b1, r) < 256
    ensures Lower(x.b1, r) + Upper(x.b0, r) < 256
    ensures Val(x) / Pow2(r) == 0x100_0000 * Upper(x.b3, r) + 0x1_0000 * (Lower(x.b3, r) + Upper(x.b2, r))
                              + 0x100 * (Lower(x.b2, r) + Upper(x.b1, r)) + Lower(x.b1, r) + Upper(x.b0, r)
  {
    ByteShift(x.b0, r);
    ByteShift(x.b1, r);
    ByteShift(x.b2, r);
    ByteShift(x.b3, r);
    WordQuotient(x, Pow2(r), 256 * Upper(x.b3, r) + Lower(x.b3, r), 256 * Upper(x.b2, r) + Lower(x.b2, r),
                 256 * Upper(x.b1, r) + Lower(x.b1, r), Upper(x.b0, r));
  }

  lemma WordQuotient(x: Bytes, p: nat, h3: nat, h2: nat, h1: nat, u0: nat)
    requires p > 0 && u0 == x.b0 / p
    requires x.b1 * 256 == p * h1 && x.b2 * 256 == p * h2 && x.b3 * 256 == p * h3
    ensures Val(x) / p == 0x1_0000 * h3 + 0x100 * h2 + h1 + u0
  {
    Spread(p, h3, h2, h1, u0);
    QuotientIs(Val(x), p, 0x1_0000 * h3 + 0x100 * h2 + h1 + u0, x.b0 % p);
  }

  function Weight(q: nat): nat
    requires q < 4
  {
    match q case 0 => 1 case 1 => 0x100 case 2 => 0x1_0000 case _ => 0x100_0000
  }

  lemma WeightIs(q: nat)
    requires q < 4
    ensures Pow2(8 * q) == Weight(q)
  {
    assert Pow2(0) == 1;
    assert Pow2(8) == 0x100;
    assert Pow2(16) == 0x1_0000;
    assert Pow2(24) == 0x100_0000;
  }

  /** A shift by 8q + r goes by single bits first and by whole bytes then. */
  lemma SplitAmount(a: nat, q: nat, r: nat)
    requires q < 4
    ensures a / Pow2(8 * q + r) == a / Pow2(r) / Weight(q)
  {
    WeightIs(q);
    Pow2Add(r, 8 * q);
    DivDiv(a, Pow2(r), Pow2(8 * q));
  }

  /** The bytes of a table entry of srl. */
  function RightEntry(u: Byte, l: Byte, q: nat): Bytes
    requires q < 4
  {
    match q
    case 0 => Bytes(0, 0, l, u)
    case 1 => Bytes(0, l, u, 0)
    case 2 => Bytes(l, u, 0, 0)
    case _ => Bytes(u, 0, 0, 0)
  }

  lemma RightEntryIs(i: Byte, q: nat, r: nat)
    requires q < 4 && r < 8
    ensures Lower(i, r) < 256 && Entry(ShiftRight, i, 8 * q + r) == RightEntry(Upper(i, r), Lower(i, r), q)
  {
    ByteShift(i, r);
    TopByteShift(i, r);
    SplitAmount(i * 0x100_0000, q, r);
    TopBytes(Upper(i, r), Lower(i, r), q);
    SplitVal(RightEntry(Upper(i, r), Lower(i, r), q));
  }

  lemma TopBytes(u: Byte, l: Byte, q: nat)
    requires q < 4
    ensures (0x100_0000 * u + 0x1_0000 * l) / Weight(q) == Val(RightEntry(u, l, q))
  {}

  /** The three lower bytes of the result, as shift_right_template adds them up. */
  function LowThree(y0: Bytes, y1: Bytes, y2: Bytes): nat {
    (y2.b1 + y1.b2 + y0.b3) + 0x100 * (y2.b2 + y1.b3) + 0x1_0000 * y2.b3
  }

  /** The four entries of srl come together without a carry between bytes. */
  lemma ShiftRightFromEntries(x: Bytes, k: nat)
    requires k < 32
    ensures var y0, y1 := Entry(ShiftRight, x.b0, k), Entry(ShiftRight, x.b1, k);
            var y2, y3 := Entry(ShiftRight, x.b2, k), Entry(ShiftRight, x.b3, k);
            && y2.b1 + y1.b2 + y0.b3 < 256 && y2.b2 + y1.b3 < 256
            && LowThree(y0, y1, y2) + Val(y3) == Val(x) / Pow2(k)
  {
    hide Val, Upper, Lower, RightEntry, LowThree, Weight;
    var q, r := k / 8, k % 8;
    RightEntryIs(x.b0, q, r);
    RightEntryIs(x.b1, q, r);
    RightEntryIs(x.b2, q, r);
    RightEntryIs(x.b3, q, r);
    WordShift(x, r);
    SplitAmount(Val(x), q, r);
    WholeBytes(Upper(x.b0, r), Lower(x.b0, r), Upper(x.b1, r), Lower(x.b1, r), Upper(x.b2, r), Lower(x.b2, r),
               Upper(x.b3, r), Lower(x.b3, r), q);
  }

  lemma WholeBytes(u0: Byte, l0: Byte, u1: Byte, l1: Byte, u2: Byte, l2: Byte, u3: Byte, l3: Byte, q: nat)
    requires q < 4 && l3 + u2 < 256 && l2 + u1 < 256 && l1 + u0 < 256
    ensures var y0, y1, y2 := RightEntry(u0, l0, q), RightEntry(u1, l1, q), RightEntry(u2, l2, q);
            && y2.b1 + y1.b2 + y0.b3 < 256 && y2.b2 + y1.b3 < 256
            && LowThree(y0, y1, y2) + Val(RightEntry(u3, l3, q))
                 == (0x100_0000 * u3 + 0x1_0000 * (l3 + u2) + 0x100 * (l2 + u1) + l1 + u0) / Weight(q)
  {
    ByteQuotients(u3, l3 + u2, l2 + u1, l1 + u0);
    EntryVal(u3, l3, q);
    hide Val;
  }

  /** Dropping whole bytes of a word */
  lemma ByteQuotients(b3: Byte, b2: Byte, b1: Byte, b0: Byte)
    ensures var w := 0x100_0000 * b3 + 0x1_0000 * b2 + 0x100 * b1 + b0;
            && w / 1 == w && w / 0x100 == 0x1_0000 * b3 + 0x100 * b2 + b1
            && w / 0x1_0000 == 0x100 * b3 + b2 && w / 0x100_0000 == b3
  {
    var w := 0x100_0000 * b3 + 0x1_0000 * b2 + 0x100 * b1 + b0;
    QuotientIs(w, 0x100, 0x1_0000 * b3 + 0x100 * b2 + b1, b0);
    QuotientIs(w, 0x1_0000, 0x100 * b3 + b2, 0x100 * b1 + b0);
    QuotientIs(w, 0x100_0000, b3, 0x1_0000 * b2 + 0x100 * b1 + b0);
  }

  lemma EntryVal(u: Byte, l: Byte, q: nat)
    requires q < 4
    ensures Val(RightEntry(u, l, q)) == match q
            case 0 => 0x100_0000 * u + 0x1_0000 * l
            case 1 => 0x1_0000 * u + 0x100 * l
            case 2 => 0x100 * u + l
            case _ => u
  {}

  // ---- arithmetic right ----

  lemma DivideBack(a: int, p: nat, t: int)
    requires p > 0
    ensures (a - p * t) / p == a / p - t
  {
    assert p * (a / p - t) == p * (a / p) - p * t;
    QuotientIs(a - p * t, p, a / p - t, a % p);
  }

  /** Taking the sign bit off twice the weight takes the same off the shifted value. */
  lemma SignedShift(a: Word, k: nat) returns (t: int)
    requires k < 32
    ensures t == if a >= SIGN then Pow2(32 - k) else 0
    ensures Signed(a) / Pow2(k) == a / Pow2(k) - t
  {
    t := if a >= SIGN then Pow2(32 - k) else 0;
    Pow2Add(k, 32 - k);
    WordsIsPow2(k + (32 - k));
    DivideBack(a, Pow2(k), t);
  }

  lemma WordsIsPow2(n: nat)
    requires n == 32
    ensures Pow2(n) == WORDS
  {
    Powers();
    Pow2Add(n - 8, 8);
    Pow2Add(n - 16, 8);
    Pow2Add(n - 24, 8);
  }

  /** With the topmost entry taken from sra instead of srl, the result is the arithmetic shift. */
  lemma ShiftRightArithFromEntries(x: Bytes, k: nat)
    requires k < 32
    ensures var y0, y1, y2 := Entry(ShiftRight, x.b0, k), Entry(ShiftRight, x.b1, k), Entry(ShiftRight, x.b2, k);
            LowThree(y0, y1, y2) < WORDS &&
            Sum(LowThree(y0, y1, y2), Val(Entry(ShiftRightArith, x.b3, k))) == ShiftWord(ShiftRightArith, Val(x), k)
  {
    TopSign(x, k);
    hide Entry, Val, Signed;
    ShiftRightFromEntries(x, k);
    var low := LowThree(Entry(ShiftRight, x.b0, k), Entry(ShiftRight, x.b1, k), Entry(ShiftRight, x.b2, k));
    var y, total := Signed(EntryInput(ShiftRightArith, x.b3)) / Pow2(k), Signed(Val(x)) / Pow2(k);
    assert total == low + y;
    SumModulo(low, y);
  }

  /** The sign counts the same for the word and for its top byte alone. */
  lemma TopSign(x: Bytes, k: nat)
    requires k < 32
    ensures var top := EntryInput(ShiftRightArith, x.b3);
            Signed(Val(x)) / Pow2(k) - Val(x) / Pow2(k) == Signed(top) / Pow2(k) - Val(Entry(ShiftRight, x.b3, k))
  {
    var top := EntryInput(ShiftRightArith, x.b3);
    assert Val(x) >= SIGN <==> top >= SIGN;
    hide Val;
    var t := SignedShift(Val(x), k);
    var t' := SignedShift(top, k);
  }

  lemma SumModulo(low: Word, y: int)
    ensures Sum(low, y % WORDS) == (low + y) % WORDS
  {
    var z := y % WORDS;
    ModuloIs(low + y, y / WORDS + if low + z >= WORDS then 1 else 0, Sum(low, z));
  }
}

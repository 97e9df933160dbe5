/** 32-bit words, their bytes, and the arithmetic RV32I does on them. */
module Words {
  type Byte = x: int | 0 <= x < 256
  type Word = x: int | 0 <= x < 0x1_0000_0000
  const WORDS := 0x1_0000_0000
  const SIGN := 0x8000_0000

  // ---- bytes of a word, least significant first ----

  datatype Bytes = Bytes(b0: Byte, b1: Byte, b2: Byte, b3: Byte) {
    function Get(k: nat): Byte
      requires k < 4
    {
      if k == 0 then b0 else if k == 1 then b1 else if k == 2 then b2 else b3
    }

    function Set(k: nat, v: Byte): Bytes
      requires k < 4
    {
      if k == 0 then this.(b0 := v)
      else if k == 1 then this.(b1 := v)
      else if k == 2 then this.(b2 := v)
      else this.(b3 := v)
    }
  }

  function Val(w: Bytes): Word { w.b0 + 256 * (w.b1 + 256 * (w.b2 + 256 * w.b3)) }

  lemma LowestDigit(a0: Byte, a: int, b0: Byte, b: int)
    requires a0 + 256 * a == b0 + 256 * b
    ensures a0 == b0 && a == b
  {}

  lemma ValInjective(a: Bytes, b: Bytes)
    requires Val(a) == Val(b)
    ensures a == b
  {
    LowestDigit(a.b0, a.b1 + 256 * (a.b2 + 256 * a.b3), b.b0, b.b1 + 256 * (b.b2 + 256 * b.b3));
    LowestDigit(a.b1, a.b2 + 256 * a.b3, b.b1, b.b2 + 256 * b.b3);
    LowestDigit(a.b2, a.b3, b.b2, b.b3);
  }

  lemma SplitUnique(n: Word)
    ensures exists w :: Val(w) == n
    ensures forall a, b | Val(a) == n && Val(b) == n :: a == b
  {
    var n1 := n / 256;
    var n2 := n1 / 256;
    assert Val(Bytes(n % 256, n1 % 256, n2 % 256, n2 / 256)) == n;
    forall a, b | Val(a) == n && Val(b) == n ensures a == b {
      ValInjective(a, b);
    }
  }

  function Split(n: Word): (w: Bytes)
    ensures Val(w) == n
    ensures n < 256 ==> w == Bytes(n, 0, 0, 0)
  {
    if n < 256 then Bytes(n, 0, 0, 0)
    else
      SplitUnique(n);
      var w :| Val(w) == n;
      w
  }

  lemma SplitVal(w: Bytes)
    ensures Split(Val(w)) == w
  {
    ValInjective(Split(Val(w)), w);
  }

  /** Words of up to three bytes */
  lemma SmallVal(b0: Byte, b1: Byte, b2: Byte)
    ensures Val(Bytes(b0, b1, b2, 0)) == b0 + 0x100 * b1 + 0x1_0000 * b2
  {}

  lemma Complement(w: Bytes)
    ensures Val(Bytes(255 - w.b0, 255 - w.b1, 255 - w.b2, 255 - w.b3)) == WORDS - 1 - Val(w)
  {}

  // ---- wrap-around arithmetic ----

  function Sum(a: Word, b: Word): Word {
    var s: int := a as int + b as int;
    if s >= WORDS then s - WORDS else s
  }

  function Difference(a: Word, b: Word): Word {
    var d: int := a as int - b as int;
    if d < 0 then d + WORDS else d
  }

  /** Adding a sign-extended 12-bit immediate */
  function Offset(a: Word, off: int): Word
    requires -2048 <= off < 2048
  {
    var s: int := a as int + off;
    if s >= WORDS then s - WORDS else if s < 0 then s + WORDS else s
  }

  function SignExtend(imm: int): Word
    requires -2048 <= imm < 2048
  {
    if imm < 0 then imm + WORDS else imm
  }

  function Signed(a: Word): int { if a >= SIGN then a - WORDS else a }

  function Bit(b: bool): Word { if b then 1 else 0 }

  // ---- bitwise operations ----

  datatype Logic = LogicAnd | LogicOr | LogicXor

  function OnBits(op: Logic, a: int, b: int): int
    requires 0 <= a < 2 && 0 <= b < 2
  {
    match op
    case LogicAnd => a * b
    case LogicOr => if a == 1 || b == 1 then 1 else 0
    case LogicXor => if a == b then 0 else 1
  }

  /** The operation on the binary digits of two numbers. */
  function Bitwise(op: Logic, a: nat, b: nat): nat {
    if a == 0 && b == 0 then 0 else OnBits(op, a % 2, b % 2) + 2 * Bitwise(op, a / 2, b / 2)
  }

  function Pow2(n: nat): (p: nat)
    ensures p >= 1
  {
    if n == 0 then 1 else 2 * Pow2(n - 1)
  }

  lemma {:induction false} BitwiseBound(op: Logic, a: nat, b: nat, k: nat)
    requires a < Pow2(k) && b < Pow2(k)
    ensures Bitwise(op, a, b) < Pow2(k)
  {
    if k > 0 { BitwiseBound(op, a / 2, b / 2, k - 1); }
  }

  /** The low k bits and the bits above them are combined independently. */
  lemma {:induction false} BitwiseJoin(op: Logic, a0: nat, a: nat, b0: nat, b: nat, k: nat)
    requires a0 < Pow2(k) && b0 < Pow2(k)
    ensures Pow2(k) * a >= 0 && Pow2(k) * b >= 0
    ensures Bitwise(op, a0 + Pow2(k) * a, b0 + Pow2(k) * b) == Bitwise(op, a0, b0) + Pow2(k) * Bitwise(op, a, b)
  {
    if k > 0 {
      var p := Pow2(k - 1);
      BitwiseJoin(op, a0 / 2, a, b0 / 2, b, k - 1);
      Doubled(p, a);
      Doubled(p, b);
      Doubled(p, Bitwise(op, a, b));
      BitwiseStep(op, a0, p * a, b0, p * b);
    }
  }

  lemma BitwiseStep(op: Logic, a0: nat, a: nat, b0: nat, b: nat)
    ensures Bitwise(op, a0 + 2 * a, b0 + 2 * b) == OnBits(op, a0 % 2, b0 % 2) + 2 * Bitwise(op, a0 / 2 + a, b0 / 2 + b)
    ensures Bitwise(op, a0, b0) == OnBits(op, a0 % 2, b0 % 2) + 2 * Bitwise(op, a0 / 2, b0 / 2)
  {
    Halves(a0, a);
    Halves(b0, b);
  }

  lemma Halves(a0: nat, a: nat)
    ensures (a0 + 2 * a) % 2 == a0 % 2 && (a0 + 2 * a) / 2 == a0 / 2 + a
  {}

  lemma Doubled(p: int, a: int)
    ensures (2 * p) * a == 2 * (p * a)
  {}

  lemma HalveModulo(a: nat, p: nat)
    requires p > 0
    ensures a % (2 * p) == 2 * (a / 2 % p) + a % 2
  {
    var h := a / 2;
    Doubled(p, h / p);
    QuotientIs(a, 2 * p, h / p, 2 * (h % p) + a % 2);
  }

  lemma QuotientIs(a: int, d: int, q: int, r: int)
    requires d > 0 && a == d * q + r && 0 <= r < d
    ensures a / d == q && a % d == r
  {
    assert d * (q - a / d) == d * q - d * (a / d) == a % d - r;
    MultipleGrows(d, q - a / d);
  }

  lemma MultipleGrows(d: int, k: int)
    requires d > 0
    ensures k > 0 ==> d * k >= d
    ensures k < 0 ==> d * k <= -d
  {}

  function Byte8(op: Logic, a: Byte, b: Byte): Byte {
    BitwiseBound(op, a, b, 8);
    Bitwise(op, a, b)
  }

  function ZipBytes(op: Logic, a: Bytes, b: Bytes): Bytes {
    Bytes(Byte8(op, a.b0, b.b0), Byte8(op, a.b1, b.b1), Byte8(op, a.b2, b.b2), Byte8(op, a.b3, b.b3))
  }

  /** The bitwise operation on words is the one on their bytes. */
  lemma BitwiseOnWords(op: Logic, a: Bytes, b: Bytes)
    ensures Bitwise(op, Val(a), Val(b)) == Val(ZipBytes(op, a, b))
  {
    var a2: nat, b2: nat := a.b2 + 256 * a.b3, b.b2 + 256 * b.b3;
    var a1: nat, b1: nat := a.b1 + 256 * a2, b.b1 + 256 * b2;
    var r1 := JoinByte(op, a.b0, a1, b.b0, b1, Val(a), Val(b));
    var r2 := JoinByte(op, a.b1, a2, b.b1, b2, a1, b1);
    var r3 := JoinByte(op, a.b2, a.b3, b.b2, b.b3, a2, b2);
  }

  lemma JoinByte(op: Logic, a0: Byte, a: nat, b0: Byte, b: nat, a': nat, b': nat) returns (r: nat)
    requires a' == a0 + 256 * a && b' == b0 + 256 * b
    ensures Bitwise(op, a', b') == Byte8(op, a0, b0) + 256 * r && r == Bitwise(op, a, b)
  {
    assert Pow2(8) == 256;
    BitwiseJoin(op, a0, a, b0, b, 8);
    r := Bitwise(op, a, b);
  }

  /** A mask of k ones keeps the k lowest bits. */
  lemma {:induction false} MaskKeeps(k: nat, a: nat)
    ensures Bitwise(LogicAnd, Pow2(k) - 1, a) == a % Pow2(k)
  {
    if k == 0 {
      AndZero(a);
    } else {
      var p := Pow2(k - 1);
      assert (2 * p - 1) % 2 == 1 && (2 * p - 1) / 2 == p - 1;
      MaskKeeps(k - 1, a / 2);
      HalveModulo(a, p);
    }
  }

  lemma {:induction false} AndZero(a: nat)
    ensures Bitwise(LogicAnd, 0, a) == 0
  {
    if a > 0 { AndZero(a / 2); }
  }

  /** Exclusive or with k ones turns every one of the k lowest bits round. */
  lemma {:induction false} XorOnes(k: nat, a: nat)
    requires a < Pow2(k)
    ensures Bitwise(LogicXor, Pow2(k) - 1, a) == Pow2(k) - 1 - a
  {
    if k > 0 {
      var p := Pow2(k - 1);
      assert (2 * p - 1) % 2 == 1 && (2 * p - 1) / 2 == p - 1;
      XorOnes(k - 1, a / 2);
    }
  }

  // ---- shifts ----

  datatype Shift = ShiftLeft | ShiftRight | ShiftRightArith

  function ShiftWord(kind: Shift, a: Word, k: nat): Word {
    match kind
    case ShiftLeft => a * Pow2(k) % WORDS
    case ShiftRight => DivBound(a, Pow2(k)); a / Pow2(k)
    case ShiftRightArith => Signed(a) / Pow2(k) % WORDS
  }

  lemma DivBound(a: nat, p: nat)
    requires p >= 1
    ensures 0 <= a / p <= a
  {
    var q := a / p;
    assert p * q + a % p == a;
    AtLeastFactor(p, q);
  }

  lemma {:induction false} AtLeastFactor(p: nat, q: int)
    requires p >= 1
    ensures q >= 0 ==> p * q >= q
    ensures q < 0 ==> p * q < 0
  {
    if p > 1 {
      AtLeastFactor(p - 1, q);
      assert p * q == (p - 1) * q + q;
    }
  }
}

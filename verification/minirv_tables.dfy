/** Where the lookup tables come from: the generator of the large ones
    (abstract-machine/tools/minirv/gen-lut.c) and the read-only section the macro file puts
    them in (abstract-machine/tools/minirv/inst-replace.h:39-77). */
module MiniRvTables {
  import opened Words
  import opened ShiftMath
  import opened MiniRv
  import opened MiniRvProgram

  const LUT_SIZE := 0x4_8000
  const RODATA_SIZE := 0x4_8200

  function LogicTableOp(o: nat): Logic { if o == 0 then LogicAnd else if o == 1 then LogicOr else LogicXor }

  function ShiftTableKind(o: nat): Shift {
    if o == 0 then ShiftLeft else if o == 1 then ShiftRight else ShiftRightArith
  }

  /** Byte n of the file with the large tables */
  function LutByte(n: nat): Byte {
    if n < 0x3_0000 then Byte8(LogicTableOp(n / 0x1_0000), n / 256 % 256, n % 256)
    else
      var k := n - 0x3_0000;
      Entry(ShiftTableKind(k / 0x8000), k / 4 % 256, k / 1024 % 32).Get(k % 4)
  }

  /** The digits of a position in base 256 */
  lemma Digits(n: nat, o: nat, j: Byte, i: Byte)
    requires n == 0x1_0000 * o + 256 * j + i
    ensures n / 0x1_0000 == o && n / 256 % 256 == j && n % 256 == i
  {
    QuotientIs(n, 256, 256 * o + j, i);
    QuotientIs(256 * o + j, 256, o, j);
    QuotientIs(n, 0x1_0000, o, 256 * j + i);
  }

  lemma LogicPlace(n: nat, o: nat, j: Byte, i: Byte)
    requires o < 3 && n == 0x1_0000 * o + 256 * j + i
    ensures LutByte(n) == Byte8(LogicTableOp(o), j, i)
  {
    hide Byte8;
    Digits(n, o, j, i);
  }

  lemma WordDigits(n: nat, o: nat, j: nat, i: Byte, b: nat)
    requires n == 0x8000 * o + 1024 * j + 4 * i + b && j < 32 && b < 4
    ensures n / 0x8000 == o && n / 1024 % 32 == j && n / 4 % 256 == i && n % 4 == b
  {
    QuotientIs(n, 4, 0x2000 * o + 256 * j + i, b);
    QuotientIs(0x2000 * o + 256 * j + i, 256, 32 * o + j, i);
    QuotientIs(n, 1024, 32 * o + j, 4 * i + b);
    QuotientIs(32 * o + j, 32, o, j);
    QuotientIs(n, 0x8000, o, 1024 * j + 4 * i + b);
  }

  lemma ShiftPlace(n: nat, o: nat, j: nat, i: Byte, b: nat)
    requires o < 3 && j < 32 && b < 4 && n == 0x3_0000 + 0x8000 * o + 1024 * j + 4 * i + b
    ensures LutByte(n) == Entry(ShiftTableKind(o), i, j).Get(b)
  {
    hide Byte8, Entry;
    WordDigits(n - 0x3_0000, o, j, i, b);
  }

  // ---- gen-lut.c ----

  predicate Follows(fp: seq<Byte>) { forall n: nat | n < |fp| :: fp[n] == LutByte(n) }

  lemma Appended(fp: seq<Byte>, v: Byte)
    requires Follows(fp) && v == LutByte(|fp|)
    ensures Follows(fp + [v])
  {}

  /** gen_table with entries of one byte: the lowest one of the result */
  method GenLogicTable(fp: seq<Byte>, o: nat) returns (out: seq<Byte>)
    requires o < 3 && |fp| == 0x1_0000 * o && Follows(fp)
    ensures |out| == 0x1_0000 * (o + 1) && Follows(out)
  {
    hide Follows, LutByte, Byte8;
    out := fp;
    for j := 0 to 256
      invariant |out| == 0x1_0000 * o + 256 * j && Follows(out)
    {
      for i := 0 to 256
        invariant |out| == 0x1_0000 * o + 256 * j + i && Follows(out)
      {
        var res := Byte8(LogicTableOp(o), j, i);
        LogicPlace(|out|, o, j, i);
        Appended(out, Split(res).b0);
        out := out + [Split(res).b0];
      }
    }
  }

  /** gen_table with entries of four bytes */
  method GenShiftTable(fp: seq<Byte>, o: nat) returns (out: seq<Byte>)
    requires o < 3 && |fp| == 0x3_0000 + 0x8000 * o && Follows(fp)
    ensures |out| == 0x3_0000 + 0x8000 * (o + 1) && Follows(out)
  {
    hide Follows, LutByte, Split, ShiftWord;
    out := fp;
    for j := 0 to 32
      invariant |out| == 0x3_0000 + 0x8000 * o + 1024 * j && Follows(out)
    {
      for i := 0 to 256
        invariant |out| == 0x3_0000 + 0x8000 * o + 1024 * j + 4 * i && Follows(out)
      {
        var res := Split(ShiftWord(ShiftTableKind(o), EntryInput(ShiftTableKind(o), i), j));
        for b := 0 to 4
          invariant |out| == 0x3_0000 + 0x8000 * o + 1024 * j + 4 * i + b && Follows(out)
        {
          ShiftPlace(|out|, o, j, i, b);
          Appended(out, res.Get(b));
          out := out + [res.Get(b)];
        }
      }
    }
  }

  /** main */
  method GenLut() returns (lut: seq<Byte>)
    ensures |lut| == LUT_SIZE && Follows(lut)
  {
    lut := [];
    for o := 0 to 3
      invariant |lut| == 0x1_0000 * o && Follows(lut)
    {
      lut := GenLogicTable(lut, o);
    }
    for o := 0 to 3
      invariant |lut| == 0x3_0000 + 0x8000 * o && Follows(lut)
    {
      lut := GenShiftTable(lut, o);
    }
  }

  // ---- .rodata ----

  /** Byte n of the section: the small tables one after another, then the file, aligned to 256 */
  function RodataByte(n: nat): Byte {
    if n < 8 then Bit(n == 0)
    else if n < 264 then Bit(n != 8)
    else if n < 272 then SltTable(false)[n - 264]
    else if n < 280 then SltTable(true)[n - 272]
    else if n < 284 then Bit(n != 280)
    else if n < 512 then 0
    else LutByte(n - 512)
  }

  function RodataAt(base: Word, a: int): Byte { if a >= base then RodataByte(a - base) else 0 }

  function Placed(base: Word, check: Word): (t: Tables)
    requires base + RODATA_SIZE <= WORDS
  {
    Tables(map a: int | base <= a < base + RODATA_SIZE :: RodataAt(base, a),
           base, base + 8, base + 264, base + 272, base + 280, base + 512, check)
  }

  predicate Apart(a: int, size: nat, b: int, size': nat) { a + size <= b || b + size' <= a }

  lemma PlacedHolds(base: Word, check: Word, n: nat)
    requires base + RODATA_SIZE <= WORDS && n < RODATA_SIZE
    ensures Holds(Placed(base, check), base + n, RodataByte(n))
  {}

  lemma PlacedLogicByte(base: Word, check: Word, o: nat, j: Byte, i: Byte)
    requires base + RODATA_SIZE <= WORDS && o < 3
    ensures Holds(Placed(base, check), base + 0x200 + 0x1_0000 * o + 256 * j + i, Byte8(LogicTableOp(o), j, i))
  {
    hide Byte8, Entry;
    var n: nat := 0x1_0000 * o + 256 * j + i;
    LogicPlace(n, o, j, i);
    PlacedHolds(base, check, 512 + n);
  }

  lemma PlacedLogic(base: Word, check: Word, op: Logic, j: Byte, i: Byte)
    requires base + RODATA_SIZE <= WORDS
    ensures LogicEntry(Placed(base, check), op, j, i)
  {
    hide Byte8, Entry, Holds;
    PlacedLogicByte(base, check, match op case LogicAnd => 0 case LogicOr => 1 case LogicXor => 2, j, i);
  }

  lemma PlacedShiftByte(base: Word, check: Word, o: nat, k: nat, i: Byte, b: nat)
    requires base + RODATA_SIZE <= WORDS && o < 3 && k < 32 && b < 4
    ensures Holds(Placed(base, check), base + 0x3_0200 + 0x8000 * o + 1024 * k + 4 * i + b,
                  Entry(ShiftTableKind(o), i, k).Get(b))
  {
    hide Byte8, Entry;
    var n: nat := 0x3_0000 + 0x8000 * o + 1024 * k + 4 * i + b;
    ShiftPlace(n, o, k, i, b);
    PlacedHolds(base, check, 512 + n);
  }

  lemma PlacedShift(base: Word, check: Word, kind: Shift, k: nat, i: Byte)
    requires base + RODATA_SIZE <= WORDS && k < 32
    ensures ShiftEntry(Placed(base, check), kind, k, i)
  {
    hide Byte8, Entry, Holds;
    var o: nat := match kind case ShiftLeft => 0 case ShiftRight => 1 case ShiftRightArith => 2;
    PlacedShiftByte(base, check, o, k, i, 0);
    PlacedShiftByte(base, check, o, k, i, 1);
    PlacedShiftByte(base, check, o, k, i, 2);
    PlacedShiftByte(base, check, o, k, i, 3);
  }

  lemma SmallTables(base: Word, check: Word)
    requires base + RODATA_SIZE <= WORDS
    ensures var t := Placed(base, check);
            && (forall i: nat | i < 8 :: SameEntry(t, i)) && (forall i: nat | i < 256 :: ZeroEntry(t, i))
            && (forall unsigned, i: nat | i < 8 :: SltEntry(t, unsigned, i)) && forall i: nat | i < 4 :: OrEntry(t, i)
  {
    hide LutByte, Holds;
    var t := Placed(base, check);
    forall i: nat | i < 8 ensures SameEntry(t, i) { PlacedHolds(base, check, i); }
    forall i: nat | i < 256 ensures ZeroEntry(t, i) { PlacedHolds(base, check, 8 + i); }
    forall unsigned, i: nat | i < 8 ensures SltEntry(t, unsigned, i) {
      PlacedHolds(base, check, if unsigned then 272 + i else 264 + i);
    }
    forall i: nat | i < 4 ensures OrEntry(t, i) { PlacedHolds(base, check, 280 + i); }
  }

  /** Wherever the section is put, the tables in it are the ones the macros rely on. */
  lemma TablesGood(base: Word, check: Word)
    requires base + RODATA_SIZE <= WORDS && check + CHECK_SIZE <= WORDS
    requires Apart(base, RODATA_SIZE, check, CHECK_SIZE)
    ensures Good(Placed(base, check))
  {
    hide Holds, LutByte;
    var t := Placed(base, check);
    forall op, j: Byte, i: Byte ensures LogicEntry(t, op, j, i) {
      PlacedLogic(base, check, op, j, i);
    }
    forall kind, k: nat, i: Byte | k < 32 ensures ShiftEntry(t, kind, k, i) {
      PlacedShift(base, check, kind, k, i);
    }
    SmallTables(base, check);
  }

  /** Any stack apart from the section and from _check_same_array will do. */
  lemma StackPlaced(base: Word, check: Word, low: Word, high: Word)
    requires base + RODATA_SIZE <= WORDS && check + CHECK_SIZE <= WORDS && low <= high
    requires Apart(base, RODATA_SIZE, check, CHECK_SIZE)
    requires Apart(low, high - low, base, RODATA_SIZE) && Apart(low, high - low, check, CHECK_SIZE)
    ensures StackFree(Layout(Placed(base, check), low, high))
    ensures forall sp: Word | low + 28 <= sp <= high :: Setup(Placed(base, check), sp)
  {
    TablesGood(base, check);
    hide Good;
    forall sp: Word | low + 28 <= sp <= high ensures Setup(Placed(base, check), sp) {
      ScratchFits(Layout(Placed(base, check), low, high), sp);
    }
  }
}

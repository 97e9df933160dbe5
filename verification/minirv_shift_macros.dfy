/** The macros for shifts and for sub-word loads and stores
    (abstract-machine/tools/minirv/inst-replace.h:385-602). */
module MiniRvShift {
  import opened Words
  import opened ShiftMath
  import opened MiniRv
  import opened MiniRvArith

  /** .macro getshamt: the five lowest bits */
  method GetShamt(c: Cpu, rd: Reg, rs1: Reg)
    requires c.Valid() && rd != SP && rd != TP && rd != 0
    modifies c`x, c`mem, c`vars
    ensures c.Valid() && SameBut(old(c.vars), c.vars, {5})
    ensures c.x == old(c.x)[TP := c.x[TP]][rd := old(c.x)[rs1] % 32]
  {
    hide Val, Split;
    ghost var v := LowFive(c.t, c.x[rs1]);
    c.SbVar(rs1, 5, 0);
    c.LbuVar(rd, 5, 0);
    c.La(TP, LogicBase(c.t, LogicAnd) + 0x1f * 256);
    c.Plus(rd, rd, TP);
    c.LbuTable(rd, rd, v);
  }

  function TableRow(t: Tables): int { LogicBase(t, LogicAnd) + 0x1f * 256 }

  lemma LowFive(t: Tables, a: Word) returns (v: Byte)
    requires Good(t)
    ensures Holds(t, TableRow(t) + Split(a).b0, v) && v == a % 32
  {
    hide Byte8;
    var b := Split(a).b0;
    v := b % 32;
    MaskFive(b, 5);
    LowBits(Split(a));
    assert LogicEntry(t, LogicAnd, 31, b);
  }

  lemma LowBits(w: Bytes)
    ensures Val(w) % 32 == w.b0 % 32
  {}

  lemma MaskFive(b: Byte, k: nat)
    requires k == 5
    ensures Byte8(LogicAnd, 31, b) == b % 32
  {
    Powers();
    MaskKeeps(k, b);
  }

  lemma TimesFour(b: Word)
    requires b < 0x1_0000
    ensures ShiftWord(ShiftLeft, b, 2) == 4 * b
  {
    ShiftLeftOnce(b, 0);
    ShiftLeftOnce(b, 1);
  }

  /** .macro get_shift_byte_in_tp, where e is the entry the table holds */
  method GetShiftByte(c: Cpu, base: Reg, k: nat, ghost e: Bytes)
    requires c.Valid() && k < 4 && base != TP && WordHolds(c.t, c.x[base] + 4 * c.vars[4].Get(k), e)
    modifies c`x, c`mem, c`vars
    ensures c.Valid() && c.vars == old(c.vars) && c.x == old(c.x)[TP := Val(e)]
  {
    hide Val, Split;
    ghost var b := c.vars[4].Get(k);
    assert c.x[base] + 4 * b < WORDS;
    TimesFour(b);
    c.LbuVar(TP, 4, k);
    Slli(c, TP, TP, 2);
    c.Plus(TP, base, TP);
    assert c.x[TP] == c.x[base] + 4 * b;
    c.LwTable(TP, TP, e);
  }

  // ---- sll ----

  /** The sum sll forms from its four table entries */
  function LeftSum(e0: Bytes, e1: Bytes, e2: Bytes, e3: Bytes): Word {
    Sum(Sum(Sum(Val(Bytes(0, 0, 0, e3.b0)), Val(Bytes(0, 0, e2.b0, e2.b1))), ShiftWord(ShiftLeft, Val(e1), 8)), Val(e0))
  }

  /** The four entries a shift of w by k bits reads, in the row at `row`. */
  ghost predicate Row(t: Tables, row: Word, w: Bytes, e0: Bytes, e1: Bytes, e2: Bytes, e3: Bytes) {
    WordHolds(t, row + 4 * w.b0, e0) && WordHolds(t, row + 4 * w.b1, e1) &&
    WordHolds(t, row + 4 * w.b2, e2) && WordHolds(t, row + 4 * w.b3, e3)
  }

  /** The row of the shift tables for an amount: amount << 10 above the table, by way of a
      byte store and two doublings */
  method RowAddress(c: Cpu, rs2: Reg, lut: Word)
    requires c.Valid() && lut + 1024 * 32 <= WORDS
    modifies c`x, c`mem, c`vars
    ensures c.Valid() && SameBut(old(c.vars), c.vars, {5})
    ensures c.x == old(c.x)[TP := c.x[TP]][S0 := lut + 1024 * (old(c.x)[rs2] % 32)]
  {
    hide Val, Split;
    ghost var k := c.x[rs2] % 32;
    SmallVal(0, k, 0);
    GetShamt(c, S0, rs2);
    c.SwVar(ZERO, 5);
    c.SbVar(S0, 5, 1);
    assert c.vars[5] == Bytes(0, k, 0, 0);
    c.LwVar(S0, 5);
    assert c.x[S0] == 256 * k;
    TimesFour(256 * k);
    Slli(c, S0, S0, 2);
    c.La(TP, lut);
    c.Plus(S0, S0, TP);
  }

  /** The instructions of sll after the row is known */
  method SllFromRow(c: Cpu, rd: Reg, ghost e0: Bytes, ghost e1: Bytes, ghost e2: Bytes, ghost e3: Bytes)
    requires c.Valid() && rd != SP && Row(c.t, c.x[S0], c.vars[4], e0, e1, e2, e3)
    modifies c`x, c`mem, c`vars
    ensures c.Valid()
    ensures c.x == Put(old(c.x)[S0 := Val(old(c.vars)[1])][TP := c.x[TP]][GP := c.x[GP]], rd, LeftSum(e0, e1, e2, e3))
  {
    hide Val, Split;
    TopPart(c, e3);
    MiddlePart(c, e2);
    GetShiftByte(c, S0, 1, e1);
    Slli(c, TP, TP, 8);
    c.Plus(GP, GP, TP);
    GetShiftByte(c, S0, 0, e0);
    c.LwVar(S0, 1);
    c.Plus(rd, GP, TP);
  }

  method TopPart(c: Cpu, ghost e3: Bytes)
    requires c.Valid() && WordHolds(c.t, c.x[S0] + 4 * c.vars[4].b3, e3)
    modifies c`x, c`mem, c`vars
    ensures c.Valid() && c.vars == old(c.vars)[5 := Bytes(0, 0, 0, e3.b0)]
    ensures c.x == old(c.x)[TP := Val(e3)][GP := Val(Bytes(0, 0, 0, e3.b0))]
  {
    hide Val, Split;
    SplitVal(e3);
    c.SwVar(ZERO, 5);
    GetShiftByte(c, S0, 3, e3);
    c.SbVar(TP, 5, 3);
    assert c.vars[5] == Bytes(0, 0, 0, e3.b0);
    c.LwVar(GP, 5);
  }

  method MiddlePart(c: Cpu, ghost e2: Bytes)
    requires c.Valid() && WordHolds(c.t, c.x[S0] + 4 * c.vars[4].b2, e2)
    requires c.vars[5].b0 == 0 && c.vars[5].b1 == 0
    modifies c`x, c`mem, c`vars
    ensures c.Valid() && SameBut(old(c.vars), c.vars, {5, 6})
    ensures c.x == old(c.x)[TP := c.x[TP]][GP := Sum(old(c.x)[GP], Val(Bytes(0, 0, e2.b0, e2.b1)))]
  {
    hide Val, Split;
    SplitVal(e2);
    GetShiftByte(c, S0, 2, e2);
    ShVar(c, TP, 5);
    assert c.vars[5] == Bytes(0, 0, e2.b0, e2.b1);
    c.LwVar(TP, 5);
    c.Plus(GP, GP, TP);
  }

  /** .macro sll */
  method Sll(c: Cpu, rd: Reg, rs1: Reg, rs2: Reg)
    requires c.Valid() && rd != SP
    modifies c`x, c`mem, c`vars
    ensures c.Valid() && Done(old(c.x), c.x, rd, ShiftWord(ShiftLeft, old(c.x)[rs1], old(c.x)[rs2] % 32))
  {
    hide Val, Split;
    ghost var k := c.x[rs2] % 32;
    ghost var w := Split(c.x[rs1]);
    ghost var e0, e1, e2, e3 := LeftRow(c.t, w, k);
    SllBody(c, rd, rs1, rs2, e0, e1, e2, e3);
  }

  lemma LeftRow(t: Tables, w: Bytes, k: nat) returns (e0: Bytes, e1: Bytes, e2: Bytes, e3: Bytes)
    requires Good(t) && k < 32
    ensures Row(t, ShiftBase(t, ShiftLeft) + 1024 * k, w, e0, e1, e2, e3)
    ensures LeftSum(e0, e1, e2, e3) == ShiftWord(ShiftLeft, Val(w), k)
  {
    hide Entry, ShiftWord, Val;
    e0, e1 := Entry(ShiftLeft, w.b0, k), Entry(ShiftLeft, w.b1, k);
    e2, e3 := Entry(ShiftLeft, w.b2, k), Entry(ShiftLeft, w.b3, k);
    assert ShiftEntry(t, ShiftLeft, k, w.b0) && ShiftEntry(t, ShiftLeft, k, w.b1);
    assert ShiftEntry(t, ShiftLeft, k, w.b2) && ShiftEntry(t, ShiftLeft, k, w.b3);
    ShiftLeftFromEntries(w, k);
  }

  method SllBody(c: Cpu, rd: Reg, rs1: Reg, rs2: Reg, ghost e0: Bytes, ghost e1: Bytes, ghost e2: Bytes,
                 ghost e3: Bytes)
    requires c.Valid() && rd != SP
    requires Row(c.t, ShiftBase(c.t, ShiftLeft) + 1024 * (c.x[rs2] % 32), Split(c.x[rs1]), e0, e1, e2, e3)
    modifies c`x, c`mem, c`vars
    ensures c.Valid() && Done(old(c.x), c.x, rd, LeftSum(e0, e1, e2, e3))
  {
    hide Val, Split;
    c.SwVar(S0, 1);
    c.SwVar(rs1, 4);
    RowAddress(c, rs2, ShiftBase(c.t, ShiftLeft));
    SllFromRow(c, rd, e0, e1, e2, e3);
  }

  // ---- srl, sra, srli, srai ----

  /** The lowest byte of the result, put into the fetched entry it needs no more of */
  method LowestByte(c: Cpu, ghost e0: Bytes, ghost e1: Bytes, ghost e2: Bytes)
    requires c.Valid() && c.vars[5] == e2 && c.vars[6] == e1 && c.vars[7] == e0 && e2.b1 + e1.b2 + e0.b3 < 256
    modifies c`x, c`mem, c`vars
    ensures c.Valid() && c.x == old(c.x)[TP := c.x[TP]][GP := c.x[GP]]
    ensures c.vars == old(c.vars)[7 := Bytes(e2.b1 + e1.b2 + e0.b3, 0, 0, 0)]
  {
    hide Val, Split;
    c.LbuVar(GP, 5, 1);
    c.LbuVar(TP, 6, 2);
    c.Plus(GP, GP, TP);
    c.LbuVar(TP, 7, 3);
    c.Plus(GP, GP, TP);
    c.SwVar(GP, 7);
  }

  /** The three lower bytes of the result, gathered in one word */
  method LowBytes(c: Cpu, ghost e0: Bytes, ghost e1: Bytes, ghost e2: Bytes)
    requires c.Valid()
    requires WordHolds(c.t, c.x[S0] + 4 * c.vars[4].b0, e0) && WordHolds(c.t, c.x[S0] + 4 * c.vars[4].b1, e1)
    requires WordHolds(c.t, c.x[S0] + 4 * c.vars[4].b2, e2)
    requires e2.b1 + e1.b2 + e0.b3 < 256 && e2.b2 + e1.b3 < 256
    modifies c`x, c`mem, c`vars
    ensures c.Valid() && SameBut(old(c.vars), c.vars, {5, 6, 7})
    ensures c.x == old(c.x)[TP := c.x[TP]][GP := LowThree(e0, e1, e2)]
  {
    hide Val, Split;
    SmallVal(e2.b1 + e1.b2 + e0.b3, e2.b2 + e1.b3, e2.b3);
    FetchThree(c, e0, e1, e2);
    LowestByte(c, e0, e1, e2);
    UpperTwo(c, e1, e2);
    c.LwVar(GP, 7);
  }

  method FetchThree(c: Cpu, ghost e0: Bytes, ghost e1: Bytes, ghost e2: Bytes)
    requires c.Valid()
    requires WordHolds(c.t, c.x[S0] + 4 * c.vars[4].b0, e0) && WordHolds(c.t, c.x[S0] + 4 * c.vars[4].b1, e1)
    requires WordHolds(c.t, c.x[S0] + 4 * c.vars[4].b2, e2)
    modifies c`x, c`mem, c`vars
    ensures c.Valid() && c.vars == old(c.vars)[5 := e2][6 := e1][7 := e0] && c.x == old(c.x)[TP := c.x[TP]]
  {
    hide Val, Split;
    SplitVal(e0);
    SplitVal(e1);
    SplitVal(e2);
    GetShiftByte(c, S0, 2, e2);
    c.SwVar(TP, 5);
    GetShiftByte(c, S0, 1, e1);
    c.SwVar(TP, 6);
    GetShiftByte(c, S0, 0, e0);
    c.SwVar(TP, 7);
  }

  method UpperTwo(c: Cpu, ghost e1: Bytes, ghost e2: Bytes)
    requires c.Valid() && c.vars[5] == e2 && c.vars[6] == e1 && e2.b2 + e1.b3 < 256
    modifies c`x, c`mem, c`vars
    ensures c.Valid() && c.x == old(c.x)[TP := c.x[TP]][GP := c.x[GP]]
    ensures c.vars == old(c.vars)[7 := old(c.vars)[7].(b1 := e2.b2 + e1.b3, b2 := e2.b3)]
  {
    hide Val, Split;
    c.LbuVar(GP, 5, 2);
    c.LbuVar(TP, 6, 3);
    c.Plus(GP, GP, TP);
    c.SbVar(GP, 7, 1);
    c.LbuVar(GP, 5, 3);
    c.SbVar(GP, 7, 2);
  }

  /** The instructions of shift_right_template after the row is known. The table for the top
      byte lies `skip` bytes above the one for the others: nothing for srl, one table for sra. */
  method RightFromRow(c: Cpu, rd: Reg, arith: bool, ghost e0: Bytes, ghost e1: Bytes, ghost e2: Bytes, ghost e3: Bytes)
    requires c.Valid() && rd != SP
    requires WordHolds(c.t, c.x[S0] + 4 * c.vars[4].b0, e0) && WordHolds(c.t, c.x[S0] + 4 * c.vars[4].b1, e1)
    requires WordHolds(c.t, c.x[S0] + 4 * c.vars[4].b2, e2)
    requires WordHolds(c.t, c.x[S0] + (if arith then 0x8000 else 0) + 4 * c.vars[4].b3, e3)
    requires e2.b1 + e1.b2 + e0.b3 < 256 && e2.b2 + e1.b3 < 256
    modifies c`x, c`mem, c`vars
    ensures c.Valid()
    ensures c.x == Put(old(c.x)[S0 := Val(old(c.vars)[1])][TP := c.x[TP]][GP := c.x[GP]], rd,
                       Sum(LowThree(e0, e1, e2), Val(e3)))
  {
    hide Val, Split;
    ghost var row := c.x[S0];
    LowBytes(c, e0, e1, e2);
    if arith {
      c.La(TP, ShiftBase(c.t, ShiftRightArith) - ShiftBase(c.t, ShiftRight));
      c.Plus(S0, S0, TP);
      assert c.x[S0] == row + 0x8000;
    }
    GetShiftByte(c, S0, 3, e3);
    c.LwVar(S0, 1);
    c.Plus(rd, GP, TP);
  }

  function RightKind(arith: bool): Shift { if arith then ShiftRightArith else ShiftRight }

  ghost predicate RightRow(t: Tables, arith: bool, k: nat, w: Bytes, e0: Bytes, e1: Bytes, e2: Bytes, e3: Bytes) {
    var row := ShiftBase(t, ShiftRight) + 1024 * k;
    && WordHolds(t, row + 4 * w.b0, e0) && WordHolds(t, row + 4 * w.b1, e1) && WordHolds(t, row + 4 * w.b2, e2)
    && WordHolds(t, row + (if arith then 0x8000 else 0) + 4 * w.b3, e3)
    && e2.b1 + e1.b2 + e0.b3 < 256 && e2.b2 + e1.b3 < 256
  }

  lemma RightEntries(t: Tables, arith: bool, w: Bytes, k: nat) returns (e0: Bytes, e1: Bytes, e2: Bytes, e3: Bytes)
    requires Good(t) && k < 32
    ensures RightRow(t, arith, k, w, e0, e1, e2, e3)
    ensures Sum(LowThree(e0, e1, e2), Val(e3)) == ShiftWord(RightKind(arith), Val(w), k)
  {
    hide Entry, Val;
    var kind := RightKind(arith);
    e0, e1 := Entry(ShiftRight, w.b0, k), Entry(ShiftRight, w.b1, k);
    e2, e3 := Entry(ShiftRight, w.b2, k), Entry(kind, w.b3, k);
    assert ShiftEntry(t, ShiftRight, k, w.b0) && ShiftEntry(t, ShiftRight, k, w.b1);
    assert ShiftEntry(t, ShiftRight, k, w.b2) && ShiftEntry(t, kind, k, w.b3);
    ShiftRightFromEntries(w, k);
    DivBound(Val(w), Pow2(k));
    if arith { ShiftRightArithFromEntries(w, k); }
  }

  /** .macro srl and .macro sra: shift_right_template with a register amount */
  method ShiftRightReg(c: Cpu, arith: bool, rd: Reg, rs1: Reg, rs2: Reg)
    requires c.Valid() && rd != SP
    modifies c`x, c`mem, c`vars
    ensures c.Valid() && Done(old(c.x), c.x, rd, ShiftWord(RightKind(arith), old(c.x)[rs1], old(c.x)[rs2] % 32))
  {
    hide Val, Split;
    ghost var e0, e1, e2, e3 := RightEntries(c.t, arith, Split(c.x[rs1]), c.x[rs2] % 32);
    RightRegBody(c, arith, rd, rs1, rs2, e0, e1, e2, e3);
  }

  method RightRegBody(c: Cpu, arith: bool, rd: Reg, rs1: Reg, rs2: Reg,
                      ghost e0: Bytes, ghost e1: Bytes, ghost e2: Bytes, ghost e3: Bytes)
    requires c.Valid() && rd != SP && RightRow(c.t, arith, c.x[rs2] % 32, Split(c.x[rs1]), e0, e1, e2, e3)
    modifies c`x, c`mem, c`vars
    ensures c.Valid() && Done(old(c.x), c.x, rd, Sum(LowThree(e0, e1, e2), Val(e3)))
  {
    hide Val, Split;
    c.SwVar(S0, 1);
    c.SwVar(rs1, 4);
    RowAddress(c, rs2, ShiftBase(c.t, ShiftRight));
    RightFromRow(c, rd, arith, e0, e1, e2, e3);
  }

  /** .macro srli and .macro srai: shift_right_template with a constant amount */
  method ShiftRightImm(c: Cpu, arith: bool, rd: Reg, rs1: Reg, imm: nat)
    requires c.Valid() && rd != SP && rd != TP && imm < 32
    modifies c`x, c`mem, c`vars
    ensures c.Valid() && Done(old(c.x), c.x, rd, ShiftWord(RightKind(arith), old(c.x)[rs1], imm))
  {
    hide Val, Split;
    if imm == 24 {
      if arith {
        ghost var e := TopEntry(c.t, Split(c.x[rs1]), imm);
        SraiTop(c, rd, rs1, imm, e);
      } else {
        TopByteOf(Split(c.x[rs1]), imm);
        GetByte(c, rd, rs1, 3);
      }
      return;
    }
    ghost var e0, e1, e2, e3 := RightEntries(c.t, arith, Split(c.x[rs1]), imm);
    RightImmBody(c, arith, rd, rs1, imm, e0, e1, e2, e3);
  }

  method RightImmBody(c: Cpu, arith: bool, rd: Reg, rs1: Reg, imm: nat,
                      ghost e0: Bytes, ghost e1: Bytes, ghost e2: Bytes, ghost e3: Bytes)
    requires c.Valid() && rd != SP && imm < 32 && RightRow(c.t, arith, imm, Split(c.x[rs1]), e0, e1, e2, e3)
    modifies c`x, c`mem, c`vars
    ensures c.Valid() && Done(old(c.x), c.x, rd, Sum(LowThree(e0, e1, e2), Val(e3)))
  {
    hide Val, Split;
    c.SwVar(S0, 1);
    c.SwVar(rs1, 4);
    c.La(S0, ShiftBase(c.t, ShiftRight) + 1024 * imm);
    RightFromRow(c, rd, arith, e0, e1, e2, e3);
  }

  lemma TopByteOf(w: Bytes, k: nat)
    requires k == 24
    ensures ShiftWord(ShiftRight, Val(w), k) == w.b3
  {
    WeightIs(3);
    QuotientIs(Val(w), 0x100_0000, w.b3, w.b0 + 256 * (w.b1 + 256 * w.b2));
  }

  /** For a shift by 24 only the top byte matters, with its sign. */
  lemma TopEntry(t: Tables, w: Bytes, k: nat) returns (e: Bytes)
    requires Good(t) && k == 24
    ensures WordHolds(t, ShiftBase(t, ShiftRightArith) + 1024 * k + 4 * w.b3, e)
    ensures Val(e) == ShiftWord(ShiftRightArith, Val(w), k)
  {
    hide Val, Entry, ShiftWord;
    e := Entry(ShiftRightArith, w.b3, k);
    assert ShiftEntry(t, ShiftRightArith, k, w.b3);
    SignOfTop(w, k);
  }

  lemma SignOfTop(w: Bytes, k: nat)
    requires k == 24
    ensures Val(Entry(ShiftRightArith, w.b3, k)) == ShiftWord(ShiftRightArith, Val(w), k)
  {
    var top := Val(Bytes(0, 0, 0, w.b3));
    assert top == EntryInput(ShiftRightArith, w.b3);
    assert Val(w) >= SIGN <==> top >= SIGN;
    TopByteOf(w, k);
    TopByteOf(Bytes(0, 0, 0, w.b3), k);
    hide Val;
    var _ := SignedShift(Val(w), k);
    var _ := SignedShift(top, k);
  }

  /** The fast path of srai by 24 */
  method SraiTop(c: Cpu, rd: Reg, rs1: Reg, imm: nat, ghost e: Bytes)
    requires c.Valid() && rd != SP && rd != TP && imm == 24
    requires WordHolds(c.t, ShiftBase(c.t, ShiftRightArith) + 1024 * imm + 4 * Split(c.x[rs1]).b3, e)
    modifies c`x, c`mem, c`vars
    ensures c.Valid() && Done(old(c.x), c.x, rd, Val(e))
  {
    hide Val, Split;
    ghost var b: int := Split(c.x[rs1]).b3;
    TimesFour(b);
    c.SwVar(rs1, 4);
    c.La(TP, ShiftBase(c.t, ShiftRightArith) + 1024 * imm);
    c.LbuVar(rd, 4, 3);
    Slli(c, rd, rd, 2);
    c.Plus(TP, TP, rd);
    if rd == 0 {
      c.Lw(rd, TP, 0);
    } else {
      assert c.x[TP] == ShiftBase(c.t, ShiftRightArith) + 1024 * imm + 4 * b;
      c.LwTable(rd, TP, e);
    }
  }
}

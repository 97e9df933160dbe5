/** The macros for subtraction, comparison, logic and left shifts by a constant
    (abstract-machine/tools/minirv/inst-replace.h). Every method is the macro's instruction
    sequence; the assembler's .if conditions are its if statements. */
module MiniRvArith {
  import opened Words
  import opened ShiftMath
  import opened MiniRv

  /** The effect RV32I gives an instruction with result v, up to tp and gp. */
  predicate Done(x0: seq<Word>, x1: seq<Word>, rd: Reg, v: Word) {
    && |x0| == 32 && |x1| == 32 && x1[0] == 0
    && (rd != 0 ==> x1[rd] == v)
    && forall r: Reg | r != rd && r != TP && r != GP :: x1[r] == x0[r]
  }

  /** u differs from v in the given scratch words only. */
  predicate SameBut(v: seq<Bytes>, u: seq<Bytes>, touched: set<nat>) {
    |v| == 8 && |u| == 8 && forall n: nat | 1 <= n < 8 && n !in touched :: u[n] == v[n]
  }

  // ---- slli, getbyte, msb ----

  /** .macro slli */
  method Slli(c: Cpu, rd: Reg, rs1: Reg, imm: nat)
    requires c.Valid() && rd != SP && imm < 32
    modifies c`x, c`mem, c`vars
    ensures c.Valid()
    ensures imm < 16 || imm >= 24 ==> c.x == Put(old(c.x), rd, ShiftWord(ShiftLeft, old(c.x)[rs1], imm))
    ensures c.x == Put(old(c.x)[TP := c.x[TP]], rd, ShiftWord(ShiftLeft, old(c.x)[rs1], imm))
    ensures imm < 16 ==> c.vars == old(c.vars)
    ensures SameBut(old(c.vars), c.vars, {4, 6})
    decreases imm
  {
    hide Val, Split, ShiftWord;
    var a := c.x[rs1];
    ShiftByNothing(a);
    if imm == 0 {
      if rd != rs1 {
        c.PlusImm(rd, rs1, 0);
      }
      return;
    }
    if imm >= 24 {
      BytesThenBits(a, imm);
      ByteToTop(c, rd, rs1);
      Slli(c, rd, rd, imm - 24);
      return;
    }
    if imm >= 16 {
      BytesThenBits(a, imm);
      HalfToTop(c, rd, rs1);
      Slli(c, rd, rd, imm - 16);
      return;
    }
    DoubleTimes(c, rd, rs1, imm);
  }

  lemma ShiftByNothing(a: Word)
    ensures ShiftWord(ShiftLeft, a, 0) == a
  {}

  /** The instructions of slli that shift by single bits */
  method DoubleTimes(c: Cpu, rd: Reg, rs1: Reg, imm: nat)
    requires c.Valid() && rd != SP && imm >= 1
    modifies c`x
    ensures c.Valid() && c.x == Put(old(c.x), rd, ShiftWord(ShiftLeft, old(c.x)[rs1], imm))
  {
    hide ShiftWord;
    var a := c.x[rs1];
    ShiftByNothing(a);
    ShiftLeftOnce(a, 0);
    c.Plus(rd, rs1, rs1);
    for i := 1 to imm
      invariant c.Valid() && c.x == Put(old(c.x), rd, ShiftWord(ShiftLeft, a, i))
    {
      ShiftLeftOnce(a, i);
      c.Plus(rd, rd, rd);
    }
  }

  /** Moving bytes and then shifting by what is left of imm is shifting by imm. */
  lemma BytesThenBits(a: Word, imm: nat)
    ensures var w := Split(a);
            && (imm >= 24 ==> ShiftWord(ShiftLeft, Val(Bytes(0, 0, 0, w.b0)), imm - 24) == ShiftWord(ShiftLeft, a, imm))
            && (imm >= 16 ==>
                  ShiftWord(ShiftLeft, Val(Bytes(0, 0, w.b0, w.b1)), imm - 16) == ShiftWord(ShiftLeft, a, imm))
  {
    ShiftLeftBytes(Split(a));
    if imm >= 24 { ShiftLeftAdd(a, 24, imm - 24); }
    if imm >= 16 { ShiftLeftAdd(a, 16, imm - 16); }
  }

  /** The instructions of slli that shift by 24 */
  method ByteToTop(c: Cpu, rd: Reg, rs1: Reg)
    requires c.Valid() && rd != SP
    modifies c`x, c`mem, c`vars
    ensures c.Valid() && SameBut(old(c.vars), c.vars, {4})
    ensures c.x == Put(old(c.x), rd, Val(Bytes(0, 0, 0, Split(old(c.x)[rs1]).b0)))
  {
    hide Val, Split;
    c.SwVar(ZERO, 4);
    c.SbVar(rs1, 4, 3);
    assert c.vars[4] == Bytes(0, 0, 0, Split(c.x[rs1]).b0);
    c.LwVar(rd, 4);
  }

  /** The instructions of slli that shift by 16 */
  method HalfToTop(c: Cpu, rd: Reg, rs1: Reg)
    requires c.Valid() && rd != SP
    modifies c`x, c`mem, c`vars
    ensures c.Valid() && SameBut(old(c.vars), c.vars, {4, 6})
    ensures var w := Split(old(c.x)[rs1]);
            c.x == Put(old(c.x)[TP := c.x[TP]], rd, Val(Bytes(0, 0, w.b0, w.b1)))
  {
    hide Val, Split;
    c.SwVar(ZERO, 4);
    ghost var w := Split(c.x[rs1]);
    ShVar(c, rs1, 4);
    assert c.vars[4] == Bytes(0, 0, w.b0, w.b1);
    c.LwVar(rd, 4);
  }

  /** .macro sh to the upper half of SP_VAR(n) */
  method ShVar(c: Cpu, rs: Reg, n: nat)
    requires c.Valid() && 1 <= n < 6
    modifies c`x, c`mem, c`vars
    ensures c.Valid()
    ensures c.x == old(c.x)[TP := c.x[TP]]
    ensures var w := Split(old(c.x)[rs]);
            c.vars == old(c.vars)[n := old(c.vars)[n].Set(2, w.b0).Set(3, w.b1)][6 := w]
  {
    hide Val, Split;
    c.SbVar(rs, n, 2);
    GetByte(c, TP, rs, 1);
    c.SbVar(TP, n, 3);
  }

  /** .macro getbyte */
  method GetByte(c: Cpu, rd: Reg, rs1: Reg, k: nat)
    requires c.Valid() && rd != SP && k < 4
    modifies c`x, c`mem, c`vars
    ensures c.Valid()
    ensures c.x == Put(old(c.x), rd, Split(old(c.x)[rs1]).Get(k))
    ensures c.vars == old(c.vars)[6 := Split(old(c.x)[rs1])]
  {
    hide Val, Split;
    c.SwVar(rs1, 6);
    c.LbuVar(rd, 6, k);
  }

  lemma TopBit(w: Bytes)
    ensures Split(2 * w.b3).b1 == Bit(Val(w) >= SIGN)
  {
    SplitVal(Bytes(2 * w.b3 % 256, 2 * w.b3 / 256, 0, 0));
  }

  lemma ShiftByOne(a: Word)
    requires a < 0x8000_0000
    ensures ShiftWord(ShiftLeft, a, 1) == 2 * a
  {
    ShiftLeftOnce(a, 0);
  }

  /** .macro msb */
  method Msb(c: Cpu, rd: Reg, rs1: Reg)
    requires c.Valid() && rd != SP
    modifies c`x, c`mem, c`vars
    ensures c.Valid()
    ensures c.x == Put(old(c.x), rd, Bit(old(c.x)[rs1] >= SIGN))
    ensures SameBut(old(c.vars), c.vars, {6})
  {
    hide Val, Split;
    TopBit(Split(c.x[rs1]));
    ShiftByOne(Split(c.x[rs1]).b3);
    GetByte(c, rd, rs1, 3);
    Slli(c, rd, rd, 1);
    GetByte(c, rd, rd, 1);
  }

  // ---- not, sub ----

  /** One of the four groups of .macro not */
  method NotByte(c: Cpu, k: nat)
    requires c.Valid() && k < 4 && c.x[TP] == LogicBase(c.t, LogicXor) + 0xff * 256
    modifies c`x, c`mem, c`vars
    ensures c.Valid()
    ensures c.x == old(c.x)[GP := c.x[GP]]
    ensures c.vars == old(c.vars)[7 := old(c.vars)[7].Set(k, 255 - old(c.vars)[6].Get(k))]
  {
    hide Val, Split;
    ghost var b := c.vars[6].Get(k);
    assert Pow2(8) == 256;
    XorOnes(8, b);
    assert LogicEntry(c.t, LogicXor, 255, b);
    c.LbuVar(GP, 6, k);
    c.Plus(GP, GP, TP);
    c.LbuTable(GP, GP, 255 - b);
    c.SbVar(GP, 7, k);
  }

  /** The four groups */
  method NotBytes(c: Cpu)
    requires c.Valid()
    modifies c`x, c`mem, c`vars
    ensures c.Valid() && c.x == old(c.x)[TP := c.x[TP]][GP := c.x[GP]]
    ensures var w := old(c.vars)[6];
            c.vars == old(c.vars)[7 := Bytes(255 - w.b0, 255 - w.b1, 255 - w.b2, 255 - w.b3)]
  {
    hide Val, Split;
    c.La(TP, LogicBase(c.t, LogicXor) + 0xff * 256);
    NotByte(c, 3);
    NotByte(c, 2);
    NotByte(c, 1);
    NotByte(c, 0);
  }

  /** .macro not */
  method Not(c: Cpu, rd: Reg, rs1: Reg)
    requires c.Valid() && rd != SP
    modifies c`x, c`mem, c`vars
    ensures c.Valid()
    ensures c.x == Put(old(c.x)[TP := c.x[TP]], rd, WORDS - 1 - old(c.x)[rs1])
    ensures SameBut(old(c.vars), c.vars, {3, 6, 7})
  {
    hide Val, Split;
    Complement(Split(c.x[rs1]));
    c.SwVar(GP, 3);
    c.SwVar(rs1, 6);
    NotBytes(c);
    c.LwVar(GP, 3);
    c.LwVar(rd, 7);
  }

  /** .macro sub: sp, too, may be its target, since rd is written last. */
  method Sub(c: Cpu, rd: Reg, rs1: Reg, rs2: Reg)
    requires c.Valid() && rs1 != TP
    modifies c`x, c`mem, c`vars
    ensures c.ValidAt(old(c.x)[SP]) && (rd != SP ==> c.Valid())
    ensures c.x == Put(old(c.x)[TP := c.x[TP]], rd, Difference(old(c.x)[rs1], old(c.x)[rs2]))
    ensures SameBut(old(c.vars), c.vars, {3, 6, 7})
  {
    hide Val, Split;
    Not(c, TP, rs2);
    c.Add(rd, rs1, TP);
    c.Addi(rd, rd, 1);
  }

  // ---- slt, sltu ----

  predicate Less(unsigned: bool, a: Word, b: Word) {
    if unsigned then a < b else Signed(a) < Signed(b)
  }

  function SignIndex(a: Word, b: Word): nat {
    4 * Bit(a >= SIGN) + 2 * Bit(b >= SIGN) + Bit(Difference(a, b) >= SIGN)
  }

  /** The sign bits of both operands and of their difference decide every comparison. */
  lemma SignsDecide(unsigned: bool, a: Word, b: Word)
    ensures SignIndex(a, b) < 8 && SltTable(unsigned)[SignIndex(a, b)] == Bit(Less(unsigned, a, b))
  {}

  /** .macro slt and .macro sltu */
  method Slt(c: Cpu, unsigned: bool, rd: Reg, rs1: Reg, rs2: Reg)
    requires c.Valid() && rd != SP
    modifies c`x, c`mem, c`vars
    ensures c.Valid() && Done(old(c.x), c.x, rd, Bit(Less(unsigned, old(c.x)[rs1], old(c.x)[rs2])))
  {
    hide Val, Split;
    SignsDecide(unsigned, c.x[rs1], c.x[rs2]);
    assert SltEntry(c.t, unsigned, SignIndex(c.x[rs1], c.x[rs2]));
    SltTemplate(c, SltBase(c.t, unsigned), rd, rs1, rs2, Bit(Less(unsigned, c.x[rs1], c.x[rs2])));
  }

  /** .macro slt_template */
  method SltTemplate(c: Cpu, lut: Word, rd: Reg, rs1: Reg, rs2: Reg, ghost v: Byte)
    requires c.Valid() && rd != SP && Holds(c.t, lut + SignIndex(c.x[rs1], c.x[rs2]), v)
    modifies c`x, c`mem, c`vars
    ensures c.Valid() && Done(old(c.x), c.x, rd, v)
  {
    hide Val, Split;
    c.SwVar(S0, 1);
    c.SwVar(S1, 2);
    c.SwVar(rs2, 4);
    c.PlusImm(S0, rs1, 0);
    c.LwVar(S1, 4);
    SltIndex(c);
    c.La(TP, lut);
    c.Plus(TP, TP, GP);
    c.LwVar(S1, 2);
    c.LwVar(S0, 1);
    c.LbuTable(rd, TP, v);
  }

  /** The signs of the two operands, as two bits */
  method TwoSigns(c: Cpu)
    requires c.Valid()
    modifies c`x, c`mem, c`vars
    ensures c.Valid() && SameBut(old(c.vars), c.vars, {3, 6, 7})
    ensures c.x == old(c.x)[TP := c.x[TP]][GP := 2 * Bit(old(c.x)[S0] >= SIGN) + Bit(old(c.x)[S1] >= SIGN)]
  {
    hide Val, Split, ShiftWord;
    Msb(c, GP, S0);
    ShiftByOne(c.x[GP]);
    Slli(c, GP, GP, 1);
    Msb(c, TP, S1);
    c.Plus(GP, GP, TP);
  }

  /** The middle part of slt_template: the index into its table */
  method SltIndex(c: Cpu)
    requires c.Valid()
    modifies c`x, c`mem, c`vars
    ensures c.Valid()
    ensures c.x == old(c.x)[TP := c.x[TP]][GP := c.x[GP]]
    ensures c.x[GP] == SignIndex(old(c.x)[S0], old(c.x)[S1])
    ensures SameBut(old(c.vars), c.vars, {3, 6, 7})
  {
    hide Val, Split, ShiftWord;
    TwoSigns(c);
    ShiftByOne(c.x[GP]);
    Slli(c, GP, GP, 1);
    Sub(c, TP, S0, S1);
    Msb(c, TP, TP);
    c.Plus(GP, GP, TP);
  }

  // ---- and, or, xor ----

  /** .macro logic8_byte_internal, where v is what the table holds for the two bytes */
  method LogicByte(c: Cpu, lut: Reg, k: nat, ghost v: Byte)
    requires c.Valid() && k < 4 && lut != TP && c.vars[7].b2 == 0 && c.vars[7].b3 == 0
    requires Holds(c.t, c.x[lut] + 256 * c.vars[4].Get(k) + c.vars[5].Get(k), v)
    modifies c`x, c`mem, c`vars
    ensures c.Valid() && c.x == old(c.x)[TP := c.x[TP]]
    ensures c.vars == old(c.vars)[7 := c.vars[7]][6 := old(c.vars)[6].Set(k, v)]
    ensures c.vars[7].b2 == 0 && c.vars[7].b3 == 0
  {
    hide Val, Split;
    ghost var index := 256 * c.vars[4].Get(k) + c.vars[5].Get(k);
    assert 0 <= c.x[lut] + index < WORDS;
    SmallVal(c.vars[5].Get(k), c.vars[4].Get(k), 0);
    c.LbuVar(TP, 4, k);
    c.SbVar(TP, 7, 1);
    c.LbuVar(TP, 5, k);
    c.SbVar(TP, 7, 0);
    c.LwVar(TP, 7);
    assert c.x[TP] == index;
    c.Plus(TP, lut, TP);
    assert c.x[TP] == c.x[lut] + index;
    c.LbuTable(TP, TP, v);
    c.SbVar(TP, 6, k);
  }

  /** The registers for which .macro logic does not abort */
  predicate LogicOperands(rd: Reg, rs1: Reg, rs2: Reg) {
    rd != SP && rs1 != SP && rs2 != SP && rd != GP && rs1 != GP && rs2 != GP && rd != TP && rs1 != TP
  }

  /** .macro logic, with its .abort conditions as requirements; z holds the table's bytes. */
  method LogicTemplate(c: Cpu, lut: Word, rd: Reg, rs1: Reg, rs2: Reg, ghost z: Bytes)
    requires c.Valid() && (rd == ZERO || LogicOperands(rd, rs1, rs2))
    requires var a, b := Split(c.x[rs1]), Split(c.x[rs2]);
             forall k: nat | k < 4 :: Holds(c.t, lut + 256 * a.Get(k) + b.Get(k), z.Get(k))
    modifies c`x, c`mem, c`vars
    ensures c.Valid() && Done(old(c.x), c.x, rd, Val(z))
  {
    hide Val, Split;
    if rd == ZERO {
      return;
    }
    c.SwVar(rs1, 4);
    c.SwVar(rs2, 5);
    c.La(rd, lut);
    c.SwVar(ZERO, 7);
    LogicByte(c, rd, 3, z.Get(3));
    LogicByte(c, rd, 2, z.Get(2));
    LogicByte(c, rd, 1, z.Get(1));
    LogicByte(c, rd, 0, z.Get(0));
    c.LwVar(rd, 6);
  }

  lemma LogicTable(t: Tables, op: Logic, a: Word, b: Word) returns (z: Bytes)
    requires Good(t)
    ensures forall k: nat | k < 4 :: Holds(t, LogicBase(t, op) + 256 * Split(a).Get(k) + Split(b).Get(k), z.Get(k))
    ensures Bitwise(op, a, b) == Val(z)
  {
    hide Byte8, Val;
    z := ZipBytes(op, Split(a), Split(b));
    forall k: nat | k < 4
      ensures Holds(t, LogicBase(t, op) + 256 * Split(a).Get(k) + Split(b).Get(k), z.Get(k))
    {
      assert LogicEntry(t, op, Split(a).Get(k), Split(b).Get(k));
    }
    BitwiseOnWords(op, Split(a), Split(b));
  }

  /** def_logic(and), def_logic(or), def_logic(xor) */
  method LogicOp(c: Cpu, op: Logic, rd: Reg, rs1: Reg, rs2: Reg)
    requires c.Valid() && (rd == ZERO || LogicOperands(rd, rs1, rs2))
    modifies c`x, c`mem, c`vars
    ensures c.Valid() && Bitwise(op, old(c.x)[rs1], old(c.x)[rs2]) < WORDS
    ensures Done(old(c.x), c.x, rd, Bitwise(op, old(c.x)[rs1], old(c.x)[rs2]))
  {
    hide Val, Split;
    ghost var z := LogicTable(c.t, op, c.x[rs1], c.x[rs2]);
    LogicTemplate(c, LogicBase(c.t, op), rd, rs1, rs2, z);
  }
}

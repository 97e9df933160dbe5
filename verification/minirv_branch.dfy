/** The macros for equality tests and branches
    (abstract-machine/tools/minirv/inst-replace.h:213-383). */
module MiniRvBranch {
  import opened Words
  import opened ShiftMath
  import opened MiniRv
  import opened MiniRvArith

  // ---- seq ----

  /** .macro check_8bit_same: marks the slot of one byte, clears that of the other and looks
      again. What the array held before does not matter. */
  method CheckSame8(c: Cpu, rd: Reg, k: nat)
    requires c.Valid() && k < 4 && rd != SP && rd != TP && rd != S0 && rd != 0 && c.x[S0] == c.t.check
    modifies c`x, c`mem
    ensures c.Valid()
    ensures c.x == old(c.x)[TP := c.x[TP]][rd := Bit(c.vars[4].Get(k) != c.vars[5].Get(k))]
  {
    hide Val, Split;
    ghost var a, b := c.vars[4].Get(k), c.vars[5].Get(k);
    c.LbuVar(rd, 4, k);
    c.Plus(TP, S0, rd);
    c.PlusImm(rd, ZERO, 1);
    c.SbCheck(rd, TP, a);
    c.LbuVar(rd, 5, k);
    c.Plus(rd, S0, rd);
    c.SbCheck(ZERO, rd, b);
    c.LbuCheck(rd, TP, a);
  }

  function Differences(u: Bytes, v: Bytes): nat {
    Bit(u.b0 != v.b0) + Bit(u.b1 != v.b1) + Bit(u.b2 != v.b2) + Bit(u.b3 != v.b3)
  }

  /** The bytes of two words differ in no place exactly when the words are equal. */
  lemma EqualBytes(t: Tables, a: Word, b: Word)
    requires Good(t)
    ensures Holds(t, t.same + Differences(Split(a), Split(b)), Bit(a == b))
  {
    assert Val(Split(a)) == a && Val(Split(b)) == b;
    assert SameEntry(t, Differences(Split(a), Split(b)));
  }

  /** .macro seq */
  method Seq(c: Cpu, rd: Reg, rs1: Reg, rs2: Reg)
    requires c.Valid() && rd != SP
    modifies c`x, c`mem, c`vars
    ensures c.Valid() && Done(old(c.x), c.x, rd, Bit(old(c.x)[rs1] == old(c.x)[rs2]))
  {
    hide Val, Split;
    EqualBytes(c.t, c.x[rs1], c.x[rs2]);
    SeqBody(c, rd, rs1, rs2, Bit(c.x[rs1] == c.x[rs2]));
  }

  method SeqBody(c: Cpu, rd: Reg, rs1: Reg, rs2: Reg, ghost v: Byte)
    requires c.Valid() && rd != SP
    requires Holds(c.t, c.t.same + Differences(Split(c.x[rs1]), Split(c.x[rs2])), v)
    modifies c`x, c`mem, c`vars
    ensures c.Valid() && Done(old(c.x), c.x, rd, v)
  {
    hide Val, Split, Differences;
    c.SwVar(rs1, 4);
    c.SwVar(rs2, 5);
    c.SwVar(S0, 1);
    c.SwVar(S1, 2);
    CountDifferences(c);
    c.La(TP, c.t.same);
    c.Plus(TP, TP, GP);
    c.LwVar(S1, 2);
    c.LwVar(S0, 1);
    c.LbuTable(rd, TP, v);
  }

  /** One more group of .macro seq */
  method AddCheck(c: Cpu, k: nat)
    requires c.Valid() && k < 4 && c.x[S0] == c.t.check && c.x[GP] < 4
    modifies c`x, c`mem
    ensures c.Valid()
    ensures c.x == old(c.x)[TP := c.x[TP]][S1 := c.x[S1]][GP := c.x[GP]]
    ensures c.x[GP] == old(c.x)[GP] + Bit(c.vars[4].Get(k) != c.vars[5].Get(k))
  {
    hide Val, Split;
    CheckSame8(c, S1, k);
    c.Plus(GP, GP, S1);
  }

  method CountDifferences(c: Cpu)
    requires c.Valid()
    modifies c`x, c`mem
    ensures c.Valid() && c.x == old(c.x)[TP := c.x[TP]][S0 := c.x[S0]][S1 := c.x[S1]][GP := c.x[GP]]
    ensures c.x[GP] == Differences(c.vars[4], c.vars[5])
  {
    hide Val, Split;
    c.La(S0, c.t.check);
    CheckSame8(c, GP, 0);
    AddCheck(c, 1);
    AddCheck(c, 2);
    AddCheck(c, 3);
  }

  // ---- seqz ----

  /** .macro check_8bit_0 */
  method Check0(c: Cpu, rd: Reg, k: nat)
    requires c.Valid() && k < 4 && rd != SP && rd != S0 && rd != 0 && c.x[S0] == c.t.zero8
    modifies c`x
    ensures c.Valid() && c.x == old(c.x)[rd := Bit(c.vars[4].Get(k) != 0)]
  {
    hide Val, Split;
    ghost var b := c.vars[4].Get(k);
    assert ZeroEntry(c.t, b);
    c.LbuVar(rd, 4, k);
    c.Plus(rd, S0, rd);
    c.LbuTable(rd, rd, Bit(b != 0));
  }

  lemma CountOfZero(t: Tables, a: Word)
    requires Good(t)
    ensures Holds(t, t.same + NonZeroBytes(Split(a)), Bit(a == 0))
  {
    hide Val;
    EqualBytes(t, a, 0);
    ZeroDifferences(Split(a));
  }

  lemma ZeroDifferences(u: Bytes)
    ensures Differences(u, Bytes(0, 0, 0, 0)) == NonZeroBytes(u)
  {}

  /** .macro seqz */
  method Seqz(c: Cpu, rd: Reg, rs1: Reg)
    requires c.Valid() && rd != SP
    modifies c`x, c`mem, c`vars
    ensures c.Valid() && Done(old(c.x), c.x, rd, Bit(old(c.x)[rs1] == 0))
  {
    hide Val, NonZeroBytes;
    CountOfZero(c.t, c.x[rs1]);
    SeqzBody(c, rd, rs1, Bit(c.x[rs1] == 0));
  }

  method SeqzBody(c: Cpu, rd: Reg, rs1: Reg, ghost v: Byte)
    requires c.Valid() && rd != SP && Holds(c.t, c.t.same + NonZeroBytes(Split(c.x[rs1])), v)
    modifies c`x, c`mem, c`vars
    ensures c.Valid() && Done(old(c.x), c.x, rd, v)
  {
    hide Val, Split, NonZeroBytes;
    SeqzAddress(c, rs1);
    c.LbuTable(rd, TP, v);
  }

  method SeqzAddress(c: Cpu, rs1: Reg)
    requires c.Valid() && c.t.same + NonZeroBytes(Split(c.x[rs1])) < WORDS
    modifies c`x, c`mem, c`vars
    ensures c.Valid() && Done(old(c.x), c.x, TP, c.t.same + NonZeroBytes(Split(old(c.x)[rs1])))
  {
    hide Val, Split, NonZeroBytes, Bit, Setup, Good;
    c.SwVar(rs1, 4);
    c.SwVar(S0, 1);
    CountNonZero(c);
    ghost var n := c.x[GP];
    c.La(TP, c.t.same);
    c.Plus(TP, TP, GP);
    assert c.x[TP] == c.t.same + n;
    c.LwVar(S0, 1);
  }

  function NonZeroBytes(u: Bytes): nat { Bit(u.b0 != 0) + Bit(u.b1 != 0) + Bit(u.b2 != 0) + Bit(u.b3 != 0) }

  method CountNonZero(c: Cpu)
    requires c.Valid()
    modifies c`x
    ensures c.Valid() && c.x == old(c.x)[TP := c.x[TP]][S0 := c.x[S0]][GP := c.x[GP]]
    ensures c.x[GP] == NonZeroBytes(c.vars[4])
  {
    hide Val, Split;
    c.La(S0, c.t.zero8);
    Check0(c, GP, 0);
    Check0(c, TP, 1);
    c.Plus(GP, GP, TP);
    Check0(c, TP, 2);
    c.Plus(GP, GP, TP);
    Check0(c, TP, 3);
    c.Plus(GP, GP, TP);
  }

  // ---- branches ----

  datatype Cond = Eq | Ne | Lt | Ge | Ltu | Geu

  predicate Taken(cond: Cond, a: Word, b: Word) {
    match cond
    case Eq => a == b
    case Ne => a != b
    case Lt => Signed(a) < Signed(b)
    case Ge => Signed(a) >= Signed(b)
    case Ltu => a < b
    case Geu => a >= b
  }

  /** .macro branch_resolve: picks one of two addresses by the bit in tp and jumps there.
      `fall` is the address of the local label at the end of the macro. */
  method BranchResolve(c: Cpu, target: Word, highIsTarget: bool, fall: Word)
    requires c.Valid() && c.x[TP] < 2 && target % 2 == 0 && fall % 2 == 0
    modifies c`x, c`mem, c`vars, c`pc
    ensures c.Valid() && Done(old(c.x), c.x, 0, 0)
    ensures c.pc == if (old(c.x)[TP] == 1) == highIsTarget then target else fall
  {
    hide Val, Split;
    ghost var bit := c.x[TP];
    DoubleTwice(bit);
    Slli(c, TP, TP, 2);
    c.Plus(TP, SP, TP);
    var high, low := if highIsTarget then target else fall, if highIsTarget then fall else target;
    TwoAddresses(c, high, low);
    assert Offset(c.x[TP], -20) == Offset(c.x[SP], if bit == 1 then -16 else -20);
    c.Lw(TP, TP, -20);
    c.Jalr(ZERO, TP, 0);
  }

  /** The two addresses, one of which is loaded and jumped to */
  method TwoAddresses(c: Cpu, high: Word, low: Word)
    requires c.Valid()
    modifies c`x, c`mem, c`vars
    ensures c.Valid() && c.x == old(c.x)[GP := c.x[GP]]
    ensures c.ReadWord(Offset(c.x[SP], -16)) == high && c.ReadWord(Offset(c.x[SP], -20)) == low
  {
    hide Val, Split;
    c.La(GP, high);
    c.SwVar(GP, 4);
    c.La(GP, low);
    c.SwVar(GP, 5);
    c.VarWord(4);
    c.VarWord(5);
  }

  lemma DoubleTwice(b: Word)
    requires b < 2
    ensures ShiftWord(ShiftLeft, b, 2) == 4 * b
  {
    ShiftLeftOnce(b, 0);
    ShiftLeftOnce(b, 1);
  }

  /** The sign bits of b and b - 1 tell whether b is positive. */
  method NotPositive(c: Cpu, rs2: Reg)
    requires c.Valid() && rs2 != GP && rs2 != TP
    modifies c`x, c`mem, c`vars
    ensures c.Valid() && c.x == old(c.x)[TP := Bit(Signed(old(c.x)[rs2]) <= 0)][GP := c.x[GP]]
  {
    hide Val, Split;
    ghost var b := c.x[rs2];
    Msb(c, GP, rs2);
    c.PlusImm(TP, rs2, -1);
    Msb(c, TP, TP);
    c.Plus(GP, GP, TP);
    assert OrEntry(c.t, c.x[GP]);
    c.La(TP, c.t.or1);
    c.Plus(TP, GP, TP);
    c.LbuTable(TP, TP, Bit(Signed(b) <= 0));
  }

  /** .macro beq and .macro bne */
  method BranchEqual(c: Cpu, ne: bool, rs1: Reg, rs2: Reg, target: Word, fall: Word)
    requires c.Valid() && target % 2 == 0 && fall % 2 == 0
    requires rs1 != TP && rs1 != GP && rs2 != TP && rs2 != GP
    modifies c`x, c`mem, c`vars, c`pc
    ensures c.Valid() && Done(old(c.x), c.x, 0, 0)
    ensures c.pc == if Taken(if ne then Ne else Eq, old(c.x)[rs1], old(c.x)[rs2]) then target else fall
    decreases if rs1 == 0 then 1 else 0
  {
    hide Val, Split;
    if rs2 == ZERO {
      Seqz(c, TP, rs1);
    } else {
      if rs1 == ZERO {
        BranchEqual(c, ne, rs2, rs1, target, fall);
        return;
      } else {
        Seq(c, TP, rs1, rs2);
      }
    }
    BranchResolve(c, target, !ne, fall);
  }

  /** .macro blt */
  method Blt(c: Cpu, rs1: Reg, rs2: Reg, target: Word, fall: Word)
    requires c.Valid() && target % 2 == 0 && fall % 2 == 0
    requires rs1 != TP && rs1 != GP && rs2 != TP && rs2 != GP
    modifies c`x, c`mem, c`vars, c`pc
    ensures c.Valid() && Done(old(c.x), c.x, 0, 0)
    ensures c.pc == if Taken(Lt, old(c.x)[rs1], old(c.x)[rs2]) then target else fall
  {
    hide Val, Split;
    if rs2 == ZERO {
      Msb(c, TP, rs1);
      BranchResolve(c, target, true, fall);
    } else {
      if rs1 == ZERO {
        NotPositive(c, rs2);
        BranchResolve(c, target, false, fall);
      } else {
        Slt(c, false, TP, rs1, rs2);
        BranchResolve(c, target, true, fall);
      }
    }
  }

  /** .macro bge */
  method Bge(c: Cpu, rs1: Reg, rs2: Reg, target: Word, fall: Word)
    requires c.Valid() && target % 2 == 0 && fall % 2 == 0
    requires rs1 != TP && rs1 != GP && rs2 != TP && rs2 != GP
    modifies c`x, c`mem, c`vars, c`pc
    ensures c.Valid() && Done(old(c.x), c.x, 0, 0)
    ensures c.pc == if Taken(Ge, old(c.x)[rs1], old(c.x)[rs2]) then target else fall
  {
    hide Val, Split;
    if rs1 == ZERO {
      NotPositive(c, rs2);
      BranchResolve(c, target, true, fall);
    } else {
      Slt(c, false, TP, rs1, rs2);
      BranchResolve(c, target, false, fall);
    }
  }

  /** .macro bltu and .macro bgeu */
  method BranchUnsigned(c: Cpu, ge: bool, rs1: Reg, rs2: Reg, target: Word, fall: Word)
    requires c.Valid() && target % 2 == 0 && fall % 2 == 0
    requires rs1 != TP && rs1 != GP && rs2 != TP && rs2 != GP
    modifies c`x, c`mem, c`vars, c`pc
    ensures c.Valid() && Done(old(c.x), c.x, 0, 0)
    ensures c.pc == if Taken(if ge then Geu else Ltu, old(c.x)[rs1], old(c.x)[rs2]) then target else fall
  {
    hide Val, Split;
    Slt(c, true, TP, rs1, rs2);
    BranchResolve(c, target, !ge, fall);
  }

  /** Every branch macro jumps exactly when RV32I does. */
  method Branch(c: Cpu, cond: Cond, rs1: Reg, rs2: Reg, target: Word, fall: Word)
    requires c.Valid() && target % 2 == 0 && fall % 2 == 0
    requires rs1 != TP && rs1 != GP && rs2 != TP && rs2 != GP
    modifies c`x, c`mem, c`vars, c`pc
    ensures c.Valid() && Done(old(c.x), c.x, 0, 0)
    ensures c.pc == if Taken(cond, old(c.x)[rs1], old(c.x)[rs2]) then target else fall
  {
    hide Val, Split;
    match cond
    case Eq => BranchEqual(c, false, rs1, rs2, target, fall);
    case Ne => BranchEqual(c, true, rs1, rs2, target, fall);
    case Lt => Blt(c, rs1, rs2, target, fall);
    case Ge => Bge(c, rs1, rs2, target, fall);
    case Ltu => BranchUnsigned(c, false, rs1, rs2, target, fall);
    case Geu => BranchUnsigned(c, true, rs1, rs2, target, fall);
  }
}

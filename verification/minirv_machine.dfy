/** The MiniRV machine: eight instructions (nemu/src/isa/riscv32/inst.c:52-87), the lookup
    tables of the macro file (abstract-machine/tools/minirv/inst-replace.h:39-90, gen-lut.c)
    and the scratch words below the stack pointer. */
module MiniRv {
  import opened Words
  import opened ShiftMath

  type Reg = r: int | 0 <= r < 32
  const ZERO: Reg := 0
  const SP: Reg := 2
  const GP: Reg := 3
  const TP: Reg := 4
  const S0: Reg := 8
  const S1: Reg := 9

  /** R(rd) = v, with register 0 reset after every instruction */
  function Put(x: seq<Word>, rd: Reg, v: Word): (y: seq<Word>)
    requires |x| == 32
    ensures |y| == 32
  {
    if rd == 0 then x else x[rd := v]
  }

  // ---- memory ----

  type Memory = map<int, Byte>

  function At(m: Memory, a: int): Byte { if a in m then m[a] else 0 }

  function LoadBytes(m: Memory, a: int): Bytes { Bytes(At(m, a), At(m, a + 1), At(m, a + 2), At(m, a + 3)) }

  function StoreBytes(m: Memory, a: int, w: Bytes): Memory {
    m[a := w.b0][a + 1 := w.b1][a + 2 := w.b2][a + 3 := w.b3]
  }

  // ---- the tables ----

  /** The read-only section, the addresses of the tables in it, and the address of
      _check_same_array, which is writable. */
  datatype Tables = Tables(rom: Memory, same: Word, zero8: Word, slt1: Word, sltu1: Word, or1: Word, logic: Word,
                           check: Word)

  const CHECK_SIZE := 256

  predicate Holds(t: Tables, a: int, v: Byte) { 0 <= a < WORDS && a in t.rom && t.rom[a] == v }

  predicate SameEntry(t: Tables, i: nat) { Holds(t, t.same + i, Bit(i == 0)) }

  predicate ZeroEntry(t: Tables, i: nat) { Holds(t, t.zero8 + i, Bit(i != 0)) }

  function SltBase(t: Tables, unsigned: bool): Word { if unsigned then t.sltu1 else t.slt1 }

  function SltTable(unsigned: bool): seq<Byte> {
    if unsigned then [0, 1, 1, 1, 0, 0, 0, 1] else [0, 1, 0, 0, 1, 1, 0, 1]
  }

  predicate SltEntry(t: Tables, unsigned: bool, i: nat) {
    i < 8 && Holds(t, SltBase(t, unsigned) + i, SltTable(unsigned)[i])
  }

  predicate OrEntry(t: Tables, i: nat) { Holds(t, t.or1 + i, Bit(i != 0)) }

  /** _and8_table, _or8_table and _xor8_table follow one another. */
  function LogicBase(t: Tables, op: Logic): int {
    t.logic + 0x1_0000 * (match op case LogicAnd => 0 case LogicOr => 1 case LogicXor => 2)
  }

  predicate LogicEntry(t: Tables, op: Logic, j: Byte, i: Byte) {
    Holds(t, LogicBase(t, op) + 256 * j + i, Byte8(op, j, i))
  }

  /** _sll8_table, _srl8_table and _sra8_table come next, with word entries. */
  function ShiftBase(t: Tables, kind: Shift): int {
    t.logic + 0x3_0000 + 0x8000 * (match kind case ShiftLeft => 0 case ShiftRight => 1 case ShiftRightArith => 2)
  }

  predicate WordHolds(t: Tables, a: int, e: Bytes) {
    Holds(t, a, e.b0) && Holds(t, a + 1, e.b1) && Holds(t, a + 2, e.b2) && Holds(t, a + 3, e.b3)
  }

  predicate ShiftEntry(t: Tables, kind: Shift, k: nat, i: Byte) {
    WordHolds(t, ShiftBase(t, kind) + 1024 * k + 4 * i, Entry(kind, i, k))
  }

  ghost predicate Good(t: Tables) {
    && (forall i: nat | i < 8 :: SameEntry(t, i))
    && (forall i: nat | i < 256 :: ZeroEntry(t, i))
    && (forall unsigned, i: nat | i < 8 :: SltEntry(t, unsigned, i))
    && (forall i: nat | i < 4 :: OrEntry(t, i))
    && (forall op, j: Byte, i: Byte :: LogicEntry(t, op, j, i))
    && (forall kind, k: nat, i: Byte | k < 32 :: ShiftEntry(t, kind, k, i))
    && t.logic + 0x4_8000 <= WORDS && t.check + CHECK_SIZE <= WORDS
    && (forall a | t.check <= a < t.check + CHECK_SIZE :: a !in t.rom)
  }

  // ---- the scratch words ----

  predicate InScratch(sp: Word, a: int) { sp - 28 <= a < sp }

  predicate InCheck(t: Tables, a: int) { t.check <= a < t.check + CHECK_SIZE }

  /** The assumption of the macros: the seven words below sp are nobody else's. */
  ghost predicate Setup(t: Tables, sp: Word) {
    Good(t) && sp >= 28 && (forall a | InScratch(sp, a) :: a !in t.rom && !InCheck(t, a))
  }

  /** SP_VAR(n), for n from 1 to 7, holds v[n]; entry 0 is not used. */
  ghost predicate VarIs(m: Memory, sp: Word, v: seq<Bytes>, n: nat)
    requires |v| == 8 && 1 <= n < 8
  {
    v[n] == LoadBytes(m, sp - 4 * n)
  }

  ghost predicate VarsAre(m: Memory, sp: Word, v: seq<Bytes>) {
    |v| == 8 && forall n: nat | 1 <= n < 8 :: VarIs(m, sp, v, n)
  }

  /** The memory that belongs to the translated program */
  ghost predicate OutsideIs(t: Tables, m: Memory, sp: Word, outside: Memory, a: int) {
    !InScratch(sp, a) && !InCheck(t, a) ==> At(m, a) == At(outside, a)
  }

  /** What the translated program reads: a table, or memory of its own. */
  function ProgramByte(t: Tables, outside: Memory, a: int): Byte {
    if a in t.rom then t.rom[a] else At(outside, a)
  }

  function ProgramWord(t: Tables, outside: Memory, a: int): Word {
    Val(Bytes(ProgramByte(t, outside, a), ProgramByte(t, outside, a + 1),
              ProgramByte(t, outside, a + 2), ProgramByte(t, outside, a + 3)))
  }

  /** Addresses the translated program may use for data of its own */
  predicate Private(t: Tables, sp: Word, a: int) { !InScratch(sp, a) && !InCheck(t, a) }

  predicate PrivateWord(t: Tables, sp: Word, a: int) {
    Private(t, sp, a) && Private(t, sp, a + 1) && Private(t, sp, a + 2) && Private(t, sp, a + 3)
  }

  class Cpu {
    const t: Tables
    var x: seq<Word>
    var mem: Memory
    var pc: Word
    /** the scratch words, and the memory as far as it belongs to the translated program */
    ghost var vars: seq<Bytes>
    ghost var outside: Memory

    constructor (t: Tables, x: seq<Word>, mem: Memory, pc: Word)
      requires |x| == 32 && x[0] == 0 && Setup(t, x[SP])
      ensures this.t == t && this.x == x && this.mem == mem && this.pc == pc && outside == mem && Valid()
    {
      this.t, this.x, this.mem, this.pc := t, x, mem, pc;
      vars := seq(8, n => LoadBytes(mem, x[SP] - 4 * n));
      outside := mem;
      new;
      assert VarsAre(mem, x[SP], vars);
      assert forall a :: OutsideIs(t, mem, x[SP], outside, a);
    }

    ghost predicate Valid()
      reads this
    {
      && |x| == 32 && x[0] == 0
      && Setup(t, x[SP])
      && VarsAre(mem, x[SP], vars)
      && forall a :: OutsideIs(t, mem, x[SP], outside, a)
    }

    /** The same seen from a stack pointer that is no longer in the register */
    ghost predicate ValidAt(sp: Word)
      reads this
    {
      && |x| == 32 && x[0] == 0
      && Setup(t, sp)
      && VarsAre(mem, sp, vars)
      && forall a :: OutsideIs(t, mem, sp, outside, a)
    }

    function Read(a: int): Byte
      reads this
    {
      if a in t.rom then t.rom[a] else At(mem, a)
    }

    function ReadWord(a: int): Word
      reads this
    {
      Val(Bytes(Read(a), Read(a + 1), Read(a + 2), Read(a + 3)))
    }

    // ---- the eight instructions ----

    method Add(rd: Reg, rs1: Reg, rs2: Reg)
      requires |x| == 32
      modifies this`x
      ensures x == Put(old(x), rd, Sum(old(x)[rs1], old(x)[rs2]))
    {
      x := Put(x, rd, Sum(x[rs1], x[rs2]));
    }

    method Addi(rd: Reg, rs1: Reg, imm: int)
      requires |x| == 32 && -2048 <= imm < 2048
      modifies this`x
      ensures x == Put(old(x), rd, Offset(old(x)[rs1], imm))
    {
      x := Put(x, rd, Offset(x[rs1], imm));
    }

    method Lui(rd: Reg, imm: nat)
      requires |x| == 32 && imm < 0x10_0000
      modifies this`x
      ensures x == Put(old(x), rd, imm * 4096)
    {
      x := Put(x, rd, imm * 4096);
    }

    method Lw(rd: Reg, rs1: Reg, imm: int)
      requires |x| == 32 && -2048 <= imm < 2048
      modifies this`x
      ensures x == Put(old(x), rd, old(ReadWord(Offset(x[rs1], imm))))
    {
      x := Put(x, rd, ReadWord(Offset(x[rs1], imm)));
    }

    method Lbu(rd: Reg, rs1: Reg, imm: int)
      requires |x| == 32 && -2048 <= imm < 2048
      modifies this`x
      ensures x == Put(old(x), rd, old(Read(Offset(x[rs1], imm))))
    {
      x := Put(x, rd, Read(Offset(x[rs1], imm)));
    }

    method Sw(rs2: Reg, rs1: Reg, imm: int)
      requires |x| == 32 && -2048 <= imm < 2048
      modifies this`mem
      ensures mem == StoreBytes(old(mem), Offset(x[rs1], imm), Split(x[rs2]))
    {
      mem := StoreBytes(mem, Offset(x[rs1], imm), Split(x[rs2]));
    }

    method Sb(rs2: Reg, rs1: Reg, imm: int)
      requires |x| == 32 && -2048 <= imm < 2048
      modifies this`mem
      ensures mem == old(mem)[Offset(x[rs1], imm) := Split(x[rs2]).b0]
    {
      mem := mem[Offset(x[rs1], imm) := Split(x[rs2]).b0];
    }

    /** The link is the address behind the instruction itself. */
    method Jalr(rd: Reg, rs1: Reg, imm: int)
      requires |x| == 32 && -2048 <= imm < 2048
      modifies this`x, this`pc
      ensures x == Put(old(x), rd, Sum(old(pc), 4))
      ensures var a := Offset(old(x)[rs1], imm); pc == a - a % 2
    {
      var a, link := Offset(x[rs1], imm), Sum(pc, 4);
      pc := a - a % 2;
      x := Put(x, rd, link);
    }

    // ---- the same instructions on scratch words, tables and the rest of memory ----

    lemma VarWord(n: nat)
      requires Valid() && 1 <= n < 8
      ensures ReadWord(Offset(x[SP], -4 * n)) == Val(vars[n])
    {
      var a := x[SP] - 4 * n;
      assert Offset(x[SP], -4 * n) == a;
      assert VarIs(mem, x[SP], vars, n);
      ScratchByte(a);
      ScratchByte(a + 1);
      ScratchByte(a + 2);
      ScratchByte(a + 3);
    }

    lemma ScratchByte(a: int)
      requires Valid() && InScratch(x[SP], a)
      ensures Read(a) == At(mem, a)
    {}

    /** PUSH, and sw to SP_VAR(n) */
    method SwVar(rs: Reg, n: nat)
      requires Valid() && 1 <= n < 8
      modifies this`mem, this`vars
      ensures Valid() && vars == old(vars)[n := Split(x[rs])]
    {
      hide Good, Val, Split;
      Sw(rs, SP, -4 * n);
      vars := vars[n := Split(x[rs])];
      KeepView(old(mem), old(vars), n);
    }

    /** sb to SP_VAR_BYTE(n, k) */
    method SbVar(rs: Reg, n: nat, k: nat)
      requires Valid() && 1 <= n < 8 && k < 4
      modifies this`mem, this`vars
      ensures Valid() && vars == old(vars)[n := old(vars)[n].Set(k, Split(x[rs]).b0)]
    {
      hide Good, Val, Split;
      assert VarIs(mem, x[SP], vars, n);
      Sb(rs, SP, -4 * n + k);
      vars := vars[n := vars[n].Set(k, Split(x[rs]).b0)];
      KeepView(old(mem), old(vars), n);
    }

    lemma VarsKept(mem0: Memory)
      requires |x| == 32 && VarsAre(mem0, x[SP], vars)
      requires forall a | InScratch(x[SP], a) :: At(mem, a) == At(mem0, a)
      ensures VarsAre(mem, x[SP], vars)
    {
      forall n: nat | 1 <= n < 8 ensures VarIs(mem, x[SP], vars, n) {
        var a := x[SP] - 4 * n;
        assert InScratch(x[SP], a) && InScratch(x[SP], a + 1) && InScratch(x[SP], a + 2) && InScratch(x[SP], a + 3);
        assert VarIs(mem0, x[SP], vars, n);
      }
    }

    /** A change within one scratch word shows nowhere else. */
    lemma KeepView(mem0: Memory, vars0: seq<Bytes>, n: nat)
      requires |x| == 32 && x[0] == 0 && Setup(t, x[SP]) && VarsAre(mem0, x[SP], vars0) && |vars| == 8 && 1 <= n < 8
      requires forall a :: OutsideIs(t, mem0, x[SP], outside, a)
      requires forall a | !(x[SP] - 4 * n <= a < x[SP] - 4 * n + 4) :: At(mem, a) == At(mem0, a)
      requires VarIs(mem, x[SP], vars, n) && vars == vars0[n := vars[n]]
      ensures Valid()
    {
      forall i: nat | 1 <= i < 8 ensures VarIs(mem, x[SP], vars, i) {
        assert VarIs(mem0, x[SP], vars0, i);
      }
      forall a ensures OutsideIs(t, mem, x[SP], outside, a) {
        assert OutsideIs(t, mem0, x[SP], outside, a);
      }
    }

    /** POP, and lw from SP_VAR(n) */
    method LwVar(rd: Reg, n: nat)
      requires Valid() && rd != SP && 1 <= n < 8
      modifies this`x
      ensures Valid() && x == Put(old(x), rd, Val(vars[n]))
    {
      VarWord(n);
      Lw(rd, SP, -4 * n);
    }

    /** lbu from SP_VAR_BYTE(n, k) */
    method LbuVar(rd: Reg, n: nat, k: nat)
      requires Valid() && rd != SP && 1 <= n < 8 && k < 4
      modifies this`x
      ensures Valid() && x == Put(old(x), rd, vars[n].Get(k))
    {
      assert InScratch(x[SP], x[SP] - 4 * n + k);
      assert VarIs(mem, x[SP], vars, n);
      Lbu(rd, SP, -4 * n + k);
    }

    /** lbu from a table */
    method LbuTable(rd: Reg, rs: Reg, ghost v: Byte)
      requires Valid() && rd != SP && Holds(t, x[rs], v)
      modifies this`x
      ensures Valid() && x == Put(old(x), rd, v)
    {
      Lbu(rd, rs, 0);
    }

    /** lw from a shift table */
    method LwTable(rd: Reg, rs: Reg, ghost e: Bytes)
      requires Valid() && rd != SP && WordHolds(t, x[rs], e)
      modifies this`x
      ensures Valid() && x == Put(old(x), rd, Val(e))
    {
      hide Val, Good;
      assert Offset(x[rs], 0) == x[rs];
      Lw(rd, rs, 0);
    }

    /** lbu from _check_same_array */
    method LbuCheck(rd: Reg, rs: Reg, ghost i: Byte)
      requires Valid() && rd != SP && x[rs] == t.check + i
      modifies this`x
      ensures Valid() && x == Put(old(x), rd, At(mem, t.check + i))
    {
      assert InCheck(t, t.check + i);
      Lbu(rd, rs, 0);
    }

    /** lbu and sb on memory of the translated program */
    method LbuOut(rd: Reg, rs: Reg, imm: int)
      requires Valid() && rd != SP && -2048 <= imm < 2048
      requires Private(t, x[SP], Offset(x[rs], imm))
      modifies this`x
      ensures Valid() && x == Put(old(x), rd, ProgramByte(t, outside, old(Offset(x[rs], imm))))
    {
      assert OutsideIs(t, mem, x[SP], outside, Offset(x[rs], imm));
      Lbu(rd, rs, imm);
    }

    lemma PrivateByte(a: int)
      requires Valid() && Private(t, x[SP], a)
      ensures Read(a) == ProgramByte(t, outside, a)
    {
      assert OutsideIs(t, mem, x[SP], outside, a);
    }

    lemma WordRead(a: int)
      requires Valid() && PrivateWord(t, x[SP], a)
      ensures ReadWord(a) == ProgramWord(t, outside, a)
    {
      hide Val, Good;
      PrivateByte(a);
      PrivateByte(a + 1);
      PrivateByte(a + 2);
      PrivateByte(a + 3);
    }

    method LwOut(rd: Reg, rs: Reg, imm: int)
      requires Valid() && rd != SP && -2048 <= imm < 2048
      requires PrivateWord(t, x[SP], Offset(x[rs], imm))
      modifies this`x
      ensures Valid() && x == Put(old(x), rd, ProgramWord(t, outside, old(Offset(x[rs], imm))))
    {
      hide Val, Good;
      WordRead(Offset(x[rs], imm));
      Lw(rd, rs, imm);
    }

    method SwOut(rs2: Reg, rs: Reg, imm: int)
      requires Valid() && -2048 <= imm < 2048
      requires PrivateWord(t, x[SP], Offset(x[rs], imm))
      modifies this`mem, this`outside
      ensures Valid() && outside == StoreBytes(old(outside), Offset(x[rs], imm), Split(x[rs2]))
    {
      var a: int := Offset(x[rs], imm);
      Sw(rs2, rs, imm);
      outside := StoreBytes(outside, a, Split(x[rs2]));
      VarsKept(old(mem));
      forall b ensures OutsideIs(t, mem, x[SP], outside, b) {
        assert OutsideIs(t, old(mem), x[SP], old(outside), b);
      }
    }

    method SbOut(rs2: Reg, rs: Reg, imm: int)
      requires Valid() && -2048 <= imm < 2048
      requires Private(t, x[SP], Offset(x[rs], imm))
      modifies this`mem, this`outside
      ensures Valid() && outside == old(outside)[Offset(x[rs], imm) := Split(x[rs2]).b0]
    {
      var a := Offset(x[rs], imm);
      Sb(rs2, rs, imm);
      outside := outside[a := Split(x[rs2]).b0];
      VarsKept(old(mem));
      forall b ensures OutsideIs(t, mem, x[SP], outside, b) {
        assert OutsideIs(t, old(mem), x[SP], old(outside), b);
      }
    }

    /** add and addi inside macros */
    method Plus(rd: Reg, rs1: Reg, rs2: Reg)
      requires Valid() && rd != SP
      modifies this`x
      ensures Valid() && x == Put(old(x), rd, Sum(old(x)[rs1], old(x)[rs2]))
    {
      Add(rd, rs1, rs2);
    }

    method PlusImm(rd: Reg, rs1: Reg, imm: int)
      requires Valid() && rd != SP && -2048 <= imm < 2048
      modifies this`x
      ensures Valid() && x == Put(old(x), rd, Offset(old(x)[rs1], imm))
    {
      Addi(rd, rs1, imm);
    }

    method Upper(rd: Reg, imm: nat)
      requires Valid() && rd != SP && imm < 0x10_0000
      modifies this`x
      ensures Valid() && x == Put(old(x), rd, imm * 4096)
    {
      Lui(rd, imm);
    }

    /** jalr as the last instruction before the address `next` */
    method JumpAway(rd: Reg, rs1: Reg, imm: int, next: Word)
      requires Valid() && rd != SP && -2048 <= imm < 2048
      modifies this`x, this`pc
      ensures Valid() && x == Put(old(x), rd, next)
      ensures var a := Offset(old(x)[rs1], imm); pc == a - a % 2
    {
      LastBefore(next);
      pc := Difference(next, 4);
      Jalr(rd, rs1, imm);
    }

    lemma LastBefore(next: Word)
      ensures Sum(Difference(next, 4), 4) == next
    {}

    /** Execution goes on behind the instructions of a macro. */
    method FallThrough(next: Word)
      requires Valid()
      modifies this`pc
      ensures Valid() && pc == next
    {
      pc := next;
    }

    /** After sp has moved the scratch words are other words, and what the program may rely on is
        what memory holds. */
    ghost method Resettle()
      requires |x| == 32 && x[0] == 0 && Setup(t, x[SP])
      modifies this`vars, this`outside
      ensures Valid() && outside == mem
    {
      ghost var m, sp: int := mem, x[SP];
      vars := seq(8, n => LoadBytes(m, sp - 4 * n));
      outside := mem;
      assert VarsAre(mem, x[SP], vars);
      assert forall a :: OutsideIs(t, mem, x[SP], outside, a);
    }

    /** la: lui and addi with %hi and %lo, where %lo is sign-extended */
    method La(rd: Reg, a: Word)
      requires Valid() && rd != SP
      modifies this`x
      ensures Valid() && x == Put(old(x), rd, a)
    {
      var lo := if a % 4096 >= 2048 then a % 4096 - 4096 else a % 4096;
      var hi := (a - lo) / 4096;
      Lui(rd, if hi == 0x10_0000 then 0 else hi);
      Addi(rd, rd, lo);
    }

    /** sb to _check_same_array: the rest of memory does not notice. */
    method SbCheck(rs: Reg, base: Reg, ghost i: Byte)
      requires Valid() && x[base] == t.check + i
      modifies this`mem
      ensures Valid() && mem == old(mem)[t.check + i := Split(x[rs]).b0]
    {
      assert InCheck(t, t.check + i);
      Sb(rs, base, 0);
      VarsKept(old(mem));
      forall a ensures OutsideIs(t, mem, x[SP], outside, a) {
        assert OutsideIs(t, old(mem), x[SP], outside, a);
      }
    }
  }
}

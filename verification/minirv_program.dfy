/** Sub-word loads and stores (abstract-machine/tools/minirv/inst-replace.h:565-602), and the
    translation of whole programs. */
module MiniRvProgram {
  import opened Words
  import opened ShiftMath
  import opened MiniRv
  import opened MiniRvArith
  import opened MiniRvBranch
  import opened MiniRvShift

  // ---- lb, lh, lhu, sh ----

  function ExtendByte(b: Byte): Word { if b >= 128 then b + (WORDS - 0x100) else b }

  function ExtendHalf(b0: Byte, b1: Byte): Word { b0 + 256 * b1 + if b1 >= 128 then WORDS - 0x1_0000 else 0 }

  /** A byte at the top of a word, moved down by whole bytes with its sign */
  lemma MoveDown(b: Byte, k: nat)
    requires k == 16 || k == 24
    ensures var top := Val(Bytes(0, 0, 0, b));
            ShiftWord(ShiftRightArith, top, k) == if k == 24 then ExtendByte(b) else ExtendHalf(0, b)
  {
    WeightIs(k / 8);
    var s: int := if b >= 128 then b - 256 else b;
    var top := Val(Bytes(0, 0, 0, b));
    assert Signed(top) == 0x100_0000 * s;
    if k == 24 {
      QuotientIs(0x100_0000 * s, 0x100_0000, s, 0);
    } else {
      QuotientIs(0x100_0000 * s, 0x1_0000, 256 * s, 0);
    }
  }

  /** .macro lb */
  method Lb(c: Cpu, rd: Reg, base: Reg, off: int)
    requires c.Valid() && rd != SP && rd != TP && -2048 <= off < 2048 && Private(c.t, c.x[SP], Offset(c.x[base], off))
    modifies c`x, c`mem, c`vars
    ensures c.Valid()
    ensures Done(old(c.x), c.x, rd, ExtendByte(ProgramByte(c.t, c.outside, Offset(old(c.x)[base], off))))
  {
    hide Val, Split, ShiftWord;
    ghost var b := ProgramByte(c.t, c.outside, Offset(c.x[base], off));
    MoveDown(b, 24);
    c.SwVar(ZERO, 4);
    c.LbuOut(rd, base, off);
    c.SbVar(rd, 4, 3);
    assert rd != 0 ==> c.vars[4] == Bytes(0, 0, 0, b);
    c.LwVar(rd, 4);
    ShiftRightImm(c, true, rd, rd, 24);
  }

  /** .macro lhu */
  method Lhu(c: Cpu, rd: Reg, base: Reg, off: int)
    requires c.Valid() && rd != SP && rd != TP && base != TP && -2048 <= off < 2047
    requires Private(c.t, c.x[SP], Offset(c.x[base], off)) && Private(c.t, c.x[SP], Offset(c.x[base], off + 1))
    modifies c`x, c`mem, c`vars
    ensures c.Valid()
    ensures var a, a1 := Offset(old(c.x)[base], off), Offset(old(c.x)[base], off + 1);
            Done(old(c.x), c.x, rd, ProgramByte(c.t, c.outside, a) + 256 * ProgramByte(c.t, c.outside, a1))
  {
    hide Val, Split;
    ghost var b := ProgramByte(c.t, c.outside, Offset(c.x[base], off + 1));
    SmallVal(0, b, 0);
    c.SwVar(ZERO, 4);
    c.LbuOut(TP, base, off + 1);
    c.SbVar(TP, 4, 1);
    assert c.vars[4] == Bytes(0, b, 0, 0);
    c.LwVar(TP, 4);
    c.LbuOut(rd, base, off);
    c.Plus(rd, rd, TP);
  }

  /** .macro lh */
  method Lh(c: Cpu, rd: Reg, base: Reg, off: int)
    requires c.Valid() && rd != SP && rd != GP && base != TP && base != GP && -2048 <= off < 2047
    requires Private(c.t, c.x[SP], Offset(c.x[base], off)) && Private(c.t, c.x[SP], Offset(c.x[base], off + 1))
    modifies c`x, c`mem, c`vars
    ensures c.Valid()
    ensures var a, a1 := Offset(old(c.x)[base], off), Offset(old(c.x)[base], off + 1);
            Done(old(c.x), c.x, rd, ExtendHalf(ProgramByte(c.t, c.outside, a), ProgramByte(c.t, c.outside, a1)))
  {
    hide Val, Split, ShiftWord;
    ghost var b := ProgramByte(c.t, c.outside, Offset(c.x[base], off + 1));
    MoveDown(b, 16);
    c.SwVar(ZERO, 4);
    c.LbuOut(GP, base, off + 1);
    c.SbVar(GP, 4, 3);
    assert c.vars[4] == Bytes(0, 0, 0, b);
    c.LwVar(GP, 4);
    ShiftRightImm(c, true, GP, GP, 16);
    c.LbuOut(rd, base, off);
    c.Plus(rd, rd, GP);
  }

  /** .macro sh */
  method Sh(c: Cpu, rs: Reg, base: Reg, off: int)
    requires c.Valid() && base != TP && -2048 <= off < 2047
    requires Private(c.t, c.x[SP], Offset(c.x[base], off)) && Private(c.t, c.x[SP], Offset(c.x[base], off + 1))
    modifies c`x, c`mem, c`vars, c`outside
    ensures c.Valid() && Done(old(c.x), c.x, 0, 0)
    ensures var a, a1, w := Offset(old(c.x)[base], off), Offset(old(c.x)[base], off + 1), Split(old(c.x)[rs]);
            c.outside == old(c.outside)[a := w.b0][a1 := w.b1]
  {
    hide Val, Split;
    c.SbOut(rs, base, off);
    GetByte(c, TP, rs, 1);
    c.SbOut(TP, base, off + 1);
  }

  // ---- RV32I programs ----

  datatype AluOp = AddOp | SubOp | SltOp(unsigned: bool) | LogicalOp(logic: Logic) | ShiftOp(kind: Shift)

  datatype LoadKind = LoadByte | LoadByteU | LoadHalf | LoadHalfU | LoadWord

  datatype StoreKind = StoreByte | StoreHalf | StoreWord

  datatype Instr =
    | Alu(op: AluOp, rd: Reg, rs1: Reg, rs2: Reg)
    | AluImm(op: AluOp, rd: Reg, rs1: Reg, imm: int)
    | LoadUpper(rd: Reg, imm20: int)
    | Load(load: LoadKind, rd: Reg, rs1: Reg, imm: int)
    | Store(store: StoreKind, rs2: Reg, rs1: Reg, imm: int)
    | BranchTo(cond: Cond, rs1: Reg, rs2: Reg, to: nat)
    | Jump(rd: Reg, to: nat)
    | JumpReg(rd: Reg, rs1: Reg, imm: int)

  /** A place in the program, or an address outside of it */
  datatype Place = Here(index: nat) | Away(address: Word)

  /** Registers as the source program sees them, its memory, the place of the next instruction,
      and the addresses whose contents mean nothing to it: those it must not read before it has
      written them. */
  datatype State = State(x: seq<Word>, mem: Memory, at: Place, junk: iset<int>)

  /** The instructions, and the addresses their translations start at; the last address is
      the end of the code. */
  datatype Program = Program(code: seq<Instr>, labels: seq<Word>)

  /** The tables, and the part of memory in which sp moves */
  datatype Layout = Layout(t: Tables, low: Word, high: Word)

  predicate Temporary(r: Reg) { r == TP || r == GP }

  predicate Target(r: Reg) { !Temporary(r) && r != SP }

  function LoadWidth(load: LoadKind): nat {
    match load case LoadByte => 1 case LoadByteU => 1 case LoadHalf => 2 case LoadHalfU => 2 case LoadWord => 4
  }

  function StoreWidth(store: StoreKind): nat {
    match store case StoreByte => 1 case StoreHalf => 2 case StoreWord => 4
  }

  /** Twelve bits of offset; a half word is accessed as two bytes, the second at offset + 1. */
  predicate Reaches(imm: int, width: nat) { -2048 <= imm < 2048 && (width == 2 ==> imm < 2047) }

  /** The target of add, addi, lui and lw, which stand for themselves, and of sub, which writes its
      target last, may also be sp. */
  predicate TargetOrSp(rd: Reg, itself: bool) { Target(rd) || (rd == SP && itself) }

  /** What the macros demand of one instruction: tp and gp are not used, sp is written by add, addi,
      sub, lui and lw only, and the logic macros take no sp at all. */
  predicate Translatable(i: Instr, n: nat) {
    match i
    case Alu(op, rd, rs1, rs2) =>
      && TargetOrSp(rd, op == AddOp || op == SubOp) && !Temporary(rs1) && !Temporary(rs2)
      && (op.LogicalOp? && rd != ZERO ==> rs1 != SP && rs2 != SP)
    case AluImm(op, rd, rs1, imm) =>
      TargetOrSp(rd, op == AddOp) && !Temporary(rs1) && op != SubOp && (op.LogicalOp? && rd != ZERO ==> rs1 != SP) &&
      (if op.ShiftOp? then 0 <= imm < 32 else -2048 <= imm < 2048)
    case LoadUpper(rd, imm20) => TargetOrSp(rd, true) && 0 <= imm20 < 0x10_0000
    case Load(load, rd, rs1, imm) =>
      TargetOrSp(rd, load == LoadWord) && !Temporary(rs1) && Reaches(imm, LoadWidth(load))
    case Store(store, rs2, rs1, imm) => !Temporary(rs2) && !Temporary(rs1) && Reaches(imm, StoreWidth(store))
    case BranchTo(_, rs1, rs2, to) => !Temporary(rs1) && !Temporary(rs2) && to < n
    case Jump(rd, to) => Target(rd) && to < n
    case JumpReg(rd, rs1, imm) => Target(rd) && !Temporary(rs1) && -2048 <= imm < 2048
  }

  /** Instructions that change nothing, for which a macro may emit nothing */
  predicate MayVanish(i: Instr) {
    match i
    case Alu(op, rd, _, _) => op.LogicalOp? && rd == ZERO
    case AluImm(op, rd, rs1, imm) =>
      (op.LogicalOp? && rd == ZERO) || (op == ShiftOp(ShiftLeft) && imm == 0 && rd == rs1)
    case _ => false
  }

  predicate WellFormed(p: Program) {
    && |p.labels| == |p.code| + 1
    && (forall i | 0 <= i < |p.labels| :: p.labels[i] % 2 == 0)
    && (forall i, j | 0 <= i <= j < |p.labels| :: p.labels[i] <= p.labels[j])
    && (forall i | 0 <= i < |p.code| :: p.labels[i] == p.labels[i + 1] ==> MayVanish(p.code[i]))
    && (forall i | 0 <= i < |p.code| :: Translatable(p.code[i], |p.labels|))
  }

  // ---- what RV32I says (RISC-V Unprivileged ISA, sections 2.4 to 2.6) ----

  function AluResult(op: AluOp, a: Word, b: Word): Word {
    match op
    case AddOp => Sum(a, b)
    case SubOp => Difference(a, b)
    case SltOp(unsigned) => Bit(Less(unsigned, a, b))
    case LogicalOp(logic) => BitwiseOnWords(logic, Split(a), Split(b)); Bitwise(logic, a, b)
    case ShiftOp(kind) => ShiftWord(kind, a, b % 32)
  }

  function LoadResult(t: Tables, load: LoadKind, m: Memory, a: Word): Word {
    var b0, b1 := ProgramByte(t, m, a), ProgramByte(t, m, Sum(a, 1));
    match load
    case LoadByte => ExtendByte(b0)
    case LoadByteU => b0
    case LoadHalf => ExtendHalf(b0, b1)
    case LoadHalfU => b0 + 256 * b1
    case LoadWord => ProgramWord(t, m, a)
  }

  function StoreResult(store: StoreKind, m: Memory, a: Word, v: Word): Memory {
    var w := Split(v);
    match store
    case StoreByte => m[a := w.b0]
    case StoreHalf => m[a := w.b0][Sum(a, 1) := w.b1]
    case StoreWord => StoreBytes(m, a, w)
  }

  /** The addresses of the stack below sp */
  predicate BelowSp(y: Layout, sp: Word, a: int) { y.low <= a < sp }

  ghost function StackBelow(y: Layout, sp: Word): iset<int> { iset a: int | BelowSp(y, sp, a) }

  ghost function Written(store: StoreKind, a: Word): iset<int> {
    match store
    case StoreByte => iset{a}
    case StoreHalf => iset{a, Sum(a, 1)}
    case StoreWord => iset{a, a + 1, a + 2, a + 3}
  }

  /** An instruction that gives rd a value. Where sp goes, what it has passed is junk: what is
      taken from the stack is lost, and what is added to it has not been written. */
  ghost function WithRegister(y: Layout, s: State, rd: Reg, v: Word, at: Place): State
    requires |s.x| == 32
  {
    State(Put(s.x, rd, v), s.mem, at, if rd == SP then s.junk + StackBelow(y, v) else s.junk)
  }

  ghost function WithMemory(s: State, store: StoreKind, a: Word, v: Word, at: Place): State {
    State(s.x, StoreResult(store, s.mem, a, v), at, s.junk - Written(store, a))
  }

  predicate InCode(p: Program, s: State) { s.at.Here? && s.at.index < |p.code| && |s.x| == 32 }

  /** One instruction of the source program. */
  ghost function Step(y: Layout, p: Program, s: State): State
    requires WellFormed(p) && InCode(p, s)
  {
    var i := s.at.index;
    var next, link := Here(i + 1), p.labels[i + 1];
    match p.code[i]
    case Alu(op, rd, rs1, rs2) => WithRegister(y, s, rd, AluResult(op, s.x[rs1], s.x[rs2]), next)
    case AluImm(op, rd, rs1, imm) => WithRegister(y, s, rd, AluResult(op, s.x[rs1], SignExtend(imm)), next)
    case LoadUpper(rd, imm20) => WithRegister(y, s, rd, imm20 * 4096, next)
    case Load(load, rd, rs1, imm) => WithRegister(y, s, rd, LoadResult(y.t, load, s.mem, Offset(s.x[rs1], imm)), next)
    case Store(store, rs2, rs1, imm) => WithMemory(s, store, Offset(s.x[rs1], imm), s.x[rs2], next)
    case BranchTo(cond, rs1, rs2, to) => s.(at := if Taken(cond, s.x[rs1], s.x[rs2]) then Here(to) else next)
    case Jump(rd, to) => WithRegister(y, s, rd, link, Here(to))
    case JumpReg(rd, rs1, imm) => WithRegister(y, s, rd, link, Landing(p, EvenTarget(s.x[rs1], imm)))
  }

  function EvenTarget(a: Word, imm: int): Word
    requires -2048 <= imm < 2048
  {
    Offset(a, imm) - Offset(a, imm) % 2
  }

  /** The instruction whose translation starts at an address */
  function Landing(p: Program, a: Word): (r: Place)
    requires WellFormed(p)
    ensures AddressOf(p, r) == a
  {
    LandingFrom(p, a, 0)
  }

  function LandingFrom(p: Program, a: Word, i: nat): (r: Place)
    requires |p.labels| == |p.code| + 1 && i <= |p.code|
    ensures AddressOf(p, r) == a
    decreases |p.code| - i
  {
    if p.labels[i] == a then Here(i) else if i == |p.code| then Away(a) else LandingFrom(p, a, i + 1)
  }

  function AddressOf(p: Program, at: Place): Word {
    match at
    case Here(i) => if i < |p.labels| then p.labels[i] else 0
    case Away(a) => a
  }

  /** The link of a jump leads back behind it. */
  lemma LinkReturns(p: Program, i: nat)
    requires WellFormed(p) && i < |p.code| && !MayVanish(p.code[i])
    ensures Landing(p, p.labels[i + 1]) == Here(i + 1)
  {
    assert p.labels[i] < p.labels[i + 1];
    LandsAt(p, i + 1, 0);
  }

  lemma {:induction false} LandsAt(p: Program, k: nat, i: nat)
    requires WellFormed(p) && 0 < k <= |p.code| && i <= k && p.labels[k - 1] < p.labels[k]
    ensures LandingFrom(p, p.labels[k], i) == Here(k)
    decreases k - i
  {
    if i < k {
      assert p.labels[i] <= p.labels[k - 1];
      LandsAt(p, k, i + 1);
    }
  }

  predicate Accesses(t: Tables, sp: Word, a: Word, width: nat) {
    Private(t, sp, a) && (width == 2 ==> Private(t, sp, Sum(a, 1))) && (width == 4 ==> PrivateWord(t, sp, a))
  }

  /** The words a load looks at mean something. */
  ghost predicate Defined(junk: iset<int>, a: Word, width: nat) {
    && a !in junk && (width == 2 ==> Sum(a, 1) !in junk)
    && (width == 4 ==> a + 1 !in junk && a + 2 !in junk && a + 3 !in junk)
  }

  /** Memory the program has no use for: the stack below sp, and _check_same_array */
  predicate Dead(y: Layout, sp: Word, a: int) { BelowSp(y, sp, a) || InCheck(y.t, a) }

  /** Memory the program may write: neither dead nor a table */
  predicate Writable(y: Layout, sp: Word, a: int) { !Dead(y, sp, a) && a !in y.t.rom }

  predicate Alive(y: Layout, sp: Word, a: Word, width: nat) {
    && Writable(y, sp, a) && (width == 2 ==> Writable(y, sp, Sum(a, 1)))
    && (width == 4 ==> Writable(y, sp, a + 1) && Writable(y, sp, a + 2) && Writable(y, sp, a + 3))
  }

  predicate OnStack(y: Layout, sp: Word) { y.low + 28 <= sp <= y.high }

  /** The instruction reads nothing it has not written, stores to nothing dead, and leaves sp in its
      part of memory. */
  ghost predicate Polite(y: Layout, i: Instr, s: State)
    requires |s.x| == 32
  {
    match i
    case Load(load, rd, rs1, imm) =>
      && -2048 <= imm < 2048 && Defined(s.junk, Offset(s.x[rs1], imm), LoadWidth(load))
      && (rd == SP ==> OnStack(y, LoadResult(y.t, load, s.mem, Offset(s.x[rs1], imm))))
    case Store(store, _, rs1, imm) =>
      -2048 <= imm < 2048 && Alive(y, s.x[SP], Offset(s.x[rs1], imm), StoreWidth(store))
    case Alu(op, rd, rs1, rs2) => rd == SP ==> OnStack(y, AluResult(op, s.x[rs1], s.x[rs2]))
    case LoadUpper(rd, imm20) => rd == SP ==> 0 <= imm20 < 0x10_0000 && OnStack(y, imm20 * 4096)
    case AluImm(op, rd, rs1, imm) =>
      -2048 <= imm < 2048 && (rd == SP ==> OnStack(y, AluResult(op, s.x[rs1], SignExtend(imm))))
    case _ => true
  }

  // ---- simulation ----

  /** All of the stack is free of tables and of _check_same_array. */
  ghost predicate StackFree(y: Layout) {
    Good(y.t) && forall a | y.low <= a < y.high :: a !in y.t.rom && !InCheck(y.t, a)
  }

  lemma ScratchFits(y: Layout, sp: Word)
    requires StackFree(y) && OnStack(y, sp)
    ensures Setup(y.t, sp)
  {}

  ghost predicate SameByte(m: Memory, m': Memory, junk: iset<int>, a: int) { a !in junk ==> At(m, a) == At(m', a) }

  /** Up to tp and gp the registers are those of the source program, and memory is the same where
      it means something. */
  ghost predicate Agree(y: Layout, x: seq<Word>, m: Memory, s: State) {
    && |x| == 32 && x[0] == 0 && |s.x| == 32 && StackFree(y) && OnStack(y, s.x[SP])
    && (forall r: Reg | !Temporary(r) :: x[r] == s.x[r])
    && (forall a | Dead(y, s.x[SP], a) :: a in s.junk)
    && (forall a :: SameByte(m, s.mem, s.junk, a))
  }

  /** The machine stands where the source program stands. */
  ghost predicate Related(y: Layout, c: Cpu, p: Program, s: State)
    reads c
  {
    c.Valid() && c.t == y.t && Agree(y, c.x, c.outside, s) && c.pc == AddressOf(p, s.at)
  }

  lemma RegisterWritten(y: Layout, x: seq<Word>, x': seq<Word>, m: Memory, s: State, rd: Reg, v: Word, at: Place)
    requires Agree(y, x, m, s) && Target(rd) && Done(x, x', rd, v)
    ensures Agree(y, x', m, WithRegister(y, s, rd, v, at))
  {}

  lemma AgreeMeans(y: Layout, x: seq<Word>, m: Memory, s: State)
    requires Agree(y, x, m, s)
    ensures |x| == 32 && |s.x| == 32 && forall r: Reg | !Temporary(r) :: x[r] == s.x[r]
  {}

  lemma RegisterPut(y: Layout, x: seq<Word>, m: Memory, s: State, rd: Reg, v: Word, at: Place)
    requires Agree(y, x, m, s) && Target(rd)
    ensures Agree(y, Put(x, rd, v), m, WithRegister(y, s, rd, v, at))
  {
    RegisterWritten(y, x, Put(x, rd, v), m, s, rd, v, at);
  }

  lemma PlaceOnly(y: Layout, x: seq<Word>, x': seq<Word>, m: Memory, s: State, at: Place)
    requires Agree(y, x, m, s) && Done(x, x', 0, 0)
    ensures Agree(y, x', m, s.(at := at))
  {}

  lemma SpMoved(y: Layout, x: seq<Word>, m: Memory, m': Memory, s: State, v: Word, at: Place)
    requires Agree(y, x, m, s) && OnStack(y, v) && forall a :: SameByte(m', s.mem, s.junk, a)
    ensures Agree(y, Put(x, SP, v), m', WithRegister(y, s, SP, v, at))
  {
    var after := WithRegister(y, s, SP, v, at);
    forall a | Dead(y, v, a) ensures a in after.junk {
      assert BelowSp(y, v, a) || Dead(y, s.x[SP], a);
    }
    forall a ensures SameByte(m', s.mem, after.junk, a) {
      assert SameByte(m', s.mem, s.junk, a);
    }
  }

  lemma DefinedAccess(y: Layout, x: seq<Word>, m: Memory, s: State, load: LoadKind, a: Word)
    requires Agree(y, x, m, s) && Defined(s.junk, a, LoadWidth(load))
    ensures Accesses(y.t, s.x[SP], a, LoadWidth(load))
    ensures LoadResult(y.t, load, m, a) == LoadResult(y.t, load, s.mem, a)
  {
    hide Val;
    forall b | b !in s.junk ensures Private(y.t, s.x[SP], b) && At(m, b) == At(s.mem, b) {
      assert SameByte(m, s.mem, s.junk, b);
    }
  }

  lemma AliveAccess(y: Layout, sp: Word, a: Word, width: nat)
    requires OnStack(y, sp) && Alive(y, sp, a, width)
    ensures Accesses(y.t, sp, a, width)
  {}

  lemma MemoryWritten(y: Layout, x: seq<Word>, x': seq<Word>, m: Memory, s: State, store: StoreKind, a: Word, v: Word,
                      at: Place)
    requires Agree(y, x, m, s) && Alive(y, s.x[SP], a, StoreWidth(store)) && Done(x, x', 0, 0)
    ensures Agree(y, x', StoreResult(store, m, a, v), WithMemory(s, store, a, v, at))
  {
    hide Split;
    var after := WithMemory(s, store, a, v, at);
    forall b ensures SameByte(StoreResult(store, m, a, v), after.mem, after.junk, b) {
      assert SameByte(m, s.mem, s.junk, b);
    }
  }

  lemma OffsetTwice(a: Word, imm: int)
    requires -2048 <= imm < 2048
    ensures imm < 2047 ==> Offset(a, imm + 1) == Sum(Offset(a, imm), 1)
  {}

  /** The translation of one arithmetic instruction */
  method RunAlu(c: Cpu, op: AluOp, rd: Reg, rs1: Reg, rs2: Reg)
    requires c.Valid() && Target(rd) && !Temporary(rs1) && rs2 != GP
    requires op.LogicalOp? && rd != ZERO ==> rs1 != SP && rs2 != SP
    modifies c`x, c`mem, c`vars
    ensures c.Valid() && Done(old(c.x), c.x, rd, AluResult(op, old(c.x)[rs1], old(c.x)[rs2]))
  {
    hide Val, Split, ShiftWord, Bitwise;
    match op
    case AddOp => c.Plus(rd, rs1, rs2);
    case SubOp => Sub(c, rd, rs1, rs2);
    case SltOp(unsigned) => Slt(c, unsigned, rd, rs1, rs2);
    case LogicalOp(logic) => LogicOp(c, logic, rd, rs1, rs2);
    case ShiftOp(ShiftLeft) => Sll(c, rd, rs1, rs2);
    case ShiftOp(ShiftRight) => ShiftRightReg(c, false, rd, rs1, rs2);
    case ShiftOp(ShiftRightArith) => ShiftRightReg(c, true, rd, rs1, rs2);
  }

  /** addi, slti, sltiu, andi, ori, xori, slli, srli, srai */
  method RunAluImm(c: Cpu, op: AluOp, rd: Reg, rs1: Reg, imm: int)
    requires c.Valid() && Target(rd) && Translatable(AluImm(op, rd, rs1, imm), 0)
    modifies c`x, c`mem, c`vars
    ensures c.Valid() && -2048 <= imm < 2048 && Done(old(c.x), c.x, rd, AluResult(op, old(c.x)[rs1], SignExtend(imm)))
  {
    hide Val, Split, ShiftWord, Bitwise;
    match op
    case AddOp =>
      assert Offset(c.x[rs1], imm) == Sum(c.x[rs1], SignExtend(imm));
      c.PlusImm(rd, rs1, imm);
    case SubOp => assert false;
    case ShiftOp(ShiftLeft) => Slli(c, rd, rs1, imm);
    case ShiftOp(ShiftRight) => ShiftRightImm(c, false, rd, rs1, imm);
    case ShiftOp(ShiftRightArith) => ShiftRightImm(c, true, rd, rs1, imm);
    case SltOp(_) =>
      c.PlusImm(TP, ZERO, imm);
      RunAlu(c, op, rd, rs1, TP);
    case LogicalOp(_) =>
      c.PlusImm(TP, ZERO, imm);
      RunAlu(c, op, rd, rs1, TP);
  }

  method RunLoad(c: Cpu, load: LoadKind, rd: Reg, rs1: Reg, imm: int)
    requires c.Valid() && Target(rd) && !Temporary(rs1) && Reaches(imm, LoadWidth(load))
    requires Accesses(c.t, c.x[SP], Offset(c.x[rs1], imm), LoadWidth(load))
    modifies c`x, c`mem, c`vars
    ensures c.Valid() && Done(old(c.x), c.x, rd, LoadResult(c.t, load, c.outside, Offset(old(c.x)[rs1], imm)))
  {
    hide Val, Split;
    OffsetTwice(c.x[rs1], imm);
    match load
    case LoadByte => Lb(c, rd, rs1, imm);
    case LoadByteU => c.LbuOut(rd, rs1, imm);
    case LoadHalf => Lh(c, rd, rs1, imm);
    case LoadHalfU => Lhu(c, rd, rs1, imm);
    case LoadWord => c.LwOut(rd, rs1, imm);
  }

  method RunStore(c: Cpu, store: StoreKind, rs2: Reg, rs1: Reg, imm: int)
    requires c.Valid() && !Temporary(rs1) && !Temporary(rs2) && Reaches(imm, StoreWidth(store))
    requires Accesses(c.t, c.x[SP], Offset(c.x[rs1], imm), StoreWidth(store))
    modifies c`x, c`mem, c`vars, c`outside
    ensures c.Valid() && Done(old(c.x), c.x, 0, 0)
    ensures c.outside == StoreResult(store, old(c.outside), Offset(old(c.x)[rs1], imm), old(c.x)[rs2])
  {
    hide Val, Split;
    OffsetTwice(c.x[rs1], imm);
    match store
    case StoreByte => c.SbOut(rs2, rs1, imm);
    case StoreHalf => Sh(c, rs2, rs1, imm);
    case StoreWord => c.SwOut(rs2, rs1, imm);
  }

  /** .macro jal, and .macro j for a jump that keeps no return address */
  method RunJump(c: Cpu, rd: Reg, to: Word, next: Word)
    requires c.Valid() && Target(rd) && to % 2 == 0
    modifies c`x, c`pc
    ensures c.Valid() && Done(old(c.x), c.x, rd, next) && c.pc == to
  {
    if rd == ZERO {
      c.La(TP, to);
      c.JumpAway(ZERO, TP, 0, next);
    } else {
      c.La(rd, to);
      c.JumpAway(rd, rd, 0, next);
    }
  }

  /** What is known of memory when sp moves away from where it was in s */
  lemma MemoryAgrees(y: Layout, c: Cpu, x: seq<Word>, s: State)
    requires c.t == y.t && Agree(y, x, c.outside, s) && c.ValidAt(s.x[SP])
    ensures forall a :: SameByte(c.mem, s.mem, s.junk, a)
  {
    forall a ensures SameByte(c.mem, s.mem, s.junk, a) {
      assert SameByte(c.outside, s.mem, s.junk, a) && OutsideIs(c.t, c.mem, s.x[SP], c.outside, a);
    }
  }

  lemma SumResult(a: Word, b: Word)
    ensures AluResult(AddOp, a, b) == Sum(a, b)
  {}

  lemma DifferenceResult(a: Word, b: Word)
    ensures AluResult(SubOp, a, b) == Difference(a, b)
  {}

  lemma OffsetResult(a: Word, imm: int)
    requires -2048 <= imm < 2048
    ensures AluResult(AddOp, a, SignExtend(imm)) == Offset(a, imm)
  {}

  /** sub with target sp */
  method SubSp(c: Cpu, rs1: Reg, rs2: Reg, ghost y: Layout, ghost p: Program, ghost s: State, ghost at: Place)
    requires Related(y, c, p, s) && !Temporary(rs1) && !Temporary(rs2)
    requires OnStack(y, Difference(s.x[rs1], s.x[rs2]))
    modifies c`x, c`mem, c`vars, c`outside
    ensures c.Valid() && Agree(y, c.x, c.outside, WithRegister(y, s, SP, Difference(s.x[rs1], s.x[rs2]), at))
  {
    hide Val, Split, StackFree, OnStack, WithRegister;
    Sub(c, SP, rs1, rs2);
    MemoryAgrees(y, c, old(c.x), s);
    ScratchFits(y, c.x[SP]);
    c.Resettle();
    SpMoved(y, old(c.x)[TP := c.x[TP]], old(c.outside), c.outside, s, c.x[SP], at);
  }

  /** add with target sp stands for itself. */
  method AluStep(c: Cpu, op: AluOp, rd: Reg, rs1: Reg, rs2: Reg, ghost y: Layout, ghost p: Program, ghost s: State,
                 ghost at: Place)
    requires Related(y, c, p, s) && Translatable(Alu(op, rd, rs1, rs2), 0) && Polite(y, Alu(op, rd, rs1, rs2), s)
    modifies c`x, c`mem, c`vars, c`outside
    ensures c.Valid() && Agree(y, c.x, c.outside, WithRegister(y, s, rd, AluResult(op, s.x[rs1], s.x[rs2]), at))
  {
    hide Val, Split, AluResult, LoadResult, StoreResult, StackFree, OnStack, WithRegister;
    if rd == SP && op == SubOp {
      DifferenceResult(c.x[rs1], c.x[rs2]);
      SubSp(c, rs1, rs2, y, p, s, at);
    } else if rd == SP {
      SumResult(c.x[rs1], c.x[rs2]);
      MemoryAgrees(y, c, c.x, s);
      ScratchFits(y, Sum(c.x[rs1], c.x[rs2]));
      c.Add(SP, rs1, rs2);
      c.Resettle();
      SpMoved(y, old(c.x), old(c.outside), c.outside, s, c.x[SP], at);
    } else {
      RunAlu(c, op, rd, rs1, rs2);
      RegisterWritten(y, old(c.x), c.x, c.outside, s, rd, AluResult(op, s.x[rs1], s.x[rs2]), at);
    }
  }

  method AluImmStep(c: Cpu, op: AluOp, rd: Reg, rs1: Reg, imm: int, ghost y: Layout, ghost p: Program, ghost s: State,
                    ghost at: Place)
    requires Related(y, c, p, s) && Translatable(AluImm(op, rd, rs1, imm), 0) && Polite(y, AluImm(op, rd, rs1, imm), s)
    modifies c`x, c`mem, c`vars, c`outside
    ensures c.Valid() && Agree(y, c.x, c.outside, WithRegister(y, s, rd, AluResult(op, s.x[rs1], SignExtend(imm)), at))
  {
    hide Val, Split, AluResult, LoadResult, StoreResult, StackFree, OnStack, WithRegister;
    if rd == SP {
      OffsetResult(c.x[rs1], imm);
      MemoryAgrees(y, c, c.x, s);
      ScratchFits(y, Offset(c.x[rs1], imm));
      c.Addi(SP, rs1, imm);
      c.Resettle();
      SpMoved(y, old(c.x), old(c.outside), c.outside, s, c.x[SP], at);
    } else {
      RunAluImm(c, op, rd, rs1, imm);
      RegisterWritten(y, old(c.x), c.x, c.outside, s, rd, AluResult(op, s.x[rs1], SignExtend(imm)), at);
    }
  }

  /** lw with target sp */
  method LoadSp(c: Cpu, rs1: Reg, imm: int, ghost y: Layout, ghost p: Program, ghost s: State, ghost at: Place)
    requires Related(y, c, p, s) && -2048 <= imm < 2048 && !Temporary(rs1)
    requires Accesses(y.t, s.x[SP], Offset(s.x[rs1], imm), 4)
    requires LoadResult(y.t, LoadWord, c.outside, Offset(s.x[rs1], imm))
          == LoadResult(y.t, LoadWord, s.mem, Offset(s.x[rs1], imm))
    requires OnStack(y, LoadResult(y.t, LoadWord, s.mem, Offset(s.x[rs1], imm)))
    modifies c`x, c`vars, c`outside
    ensures c.Valid()
    ensures var v := LoadResult(y.t, LoadWord, s.mem, Offset(s.x[rs1], imm));
            Agree(y, c.x, c.outside, WithRegister(y, s, SP, v, at))
  {
    hide Val, Split, StackFree, OnStack, WithRegister;
    MemoryAgrees(y, c, c.x, s);
    c.WordRead(Offset(c.x[rs1], imm));
    ScratchFits(y, c.ReadWord(Offset(c.x[rs1], imm)));
    c.Lw(SP, rs1, imm);
    c.Resettle();
    SpMoved(y, old(c.x), old(c.outside), c.outside, s, c.x[SP], at);
  }

  method LoadStep(c: Cpu, load: LoadKind, rd: Reg, rs1: Reg, imm: int, ghost y: Layout, ghost p: Program,
                  ghost s: State, ghost at: Place)
    requires Related(y, c, p, s) && Translatable(Load(load, rd, rs1, imm), 0) && Polite(y, Load(load, rd, rs1, imm), s)
    modifies c`x, c`mem, c`vars, c`outside
    ensures c.Valid()
    ensures Agree(y, c.x, c.outside, WithRegister(y, s, rd, LoadResult(y.t, load, s.mem, Offset(s.x[rs1], imm)), at))
  {
    hide Val, Split, LoadResult, StackFree, OnStack, WithRegister, Defined, Accesses;
    DefinedAccess(y, c.x, c.outside, s, load, Offset(s.x[rs1], imm));
    if rd == SP {
      LoadSp(c, rs1, imm, y, p, s, at);
    } else {
      RunLoad(c, load, rd, rs1, imm);
      RegisterWritten(y, old(c.x), c.x, c.outside, s, rd, LoadResult(y.t, load, s.mem, Offset(s.x[rs1], imm)), at);
    }
  }

  /** lui, also with target sp */
  method UpperStep(c: Cpu, rd: Reg, imm20: int, ghost y: Layout, ghost p: Program, ghost s: State, ghost at: Place)
    requires Related(y, c, p, s) && Translatable(LoadUpper(rd, imm20), 0) && Polite(y, LoadUpper(rd, imm20), s)
    modifies c`x, c`vars, c`outside
    ensures c.Valid() && Agree(y, c.x, c.outside, WithRegister(y, s, rd, imm20 * 4096, at))
  {
    hide StackFree, OnStack, WithRegister;
    if rd == SP {
      MemoryAgrees(y, c, c.x, s);
      ScratchFits(y, imm20 * 4096);
      c.Lui(SP, imm20);
      c.Resettle();
      SpMoved(y, old(c.x), old(c.outside), c.outside, s, c.x[SP], at);
    } else {
      c.Upper(rd, imm20);
      RegisterPut(y, old(c.x), c.outside, s, rd, imm20 * 4096, at);
    }
  }

  method StoreStep(c: Cpu, store: StoreKind, rs2: Reg, rs1: Reg, imm: int, ghost y: Layout, ghost p: Program,
                   ghost s: State, ghost at: Place)
    requires Related(y, c, p, s) && Translatable(Store(store, rs2, rs1, imm), 0)
    requires Polite(y, Store(store, rs2, rs1, imm), s)
    modifies c`x, c`mem, c`vars, c`outside
    ensures c.Valid() && Agree(y, c.x, c.outside, WithMemory(s, store, Offset(s.x[rs1], imm), s.x[rs2], at))
  {
    hide Val, Split, StoreResult, StackFree, OnStack, WithMemory, Alive, Accesses;
    AliveAccess(y, s.x[SP], Offset(s.x[rs1], imm), StoreWidth(store));
    RunStore(c, store, rs2, rs1, imm);
    MemoryWritten(y, old(c.x), c.x, old(c.outside), s, store, Offset(s.x[rs1], imm), s.x[rs2], at);
  }

  /** The translation of one instruction does what the instruction does, and ends where the
      translation of the next one starts. */
  method RunInstr(c: Cpu, p: Program, i: nat, ghost y: Layout, ghost s: State) returns (at: Place)
    requires WellFormed(p) && InCode(p, s) && s.at == Here(i) && Related(y, c, p, s) && Polite(y, p.code[i], s)
    modifies c
    ensures at == Step(y, p, s).at && |Step(y, p, s).x| == 32 && Related(y, c, p, Step(y, p, s))
  {
    hide Val, Split, AluResult, LoadResult, StoreResult, StackFree, OnStack, Setup, VarsAre, OutsideIs, Done,
      Defined, Alive, Dead, Written, Taken, SameByte, Agree, MayVanish, Accesses, Less, Cpu.Valid;
    at := Here(i + 1);
    var next := p.labels[i + 1];
    AgreeMeans(y, c.x, c.outside, s);
    assert Translatable(p.code[i], |p.labels|);
    match p.code[i]
    case Alu(op, rd, rs1, rs2) => AluStep(c, op, rd, rs1, rs2, y, p, s, at); c.FallThrough(next);
    case AluImm(op, rd, rs1, imm) => AluImmStep(c, op, rd, rs1, imm, y, p, s, at); c.FallThrough(next);
    case LoadUpper(rd, imm20) => UpperStep(c, rd, imm20, y, p, s, at); c.FallThrough(next);
    case Load(load, rd, rs1, imm) => LoadStep(c, load, rd, rs1, imm, y, p, s, at); c.FallThrough(next);
    case Store(store, rs2, rs1, imm) => StoreStep(c, store, rs2, rs1, imm, y, p, s, at); c.FallThrough(next);
    case BranchTo(cond, rs1, rs2, to) =>
      if Taken(cond, c.x[rs1], c.x[rs2]) { at := Here(to); }
      Branch(c, cond, rs1, rs2, p.labels[to], next);
      PlaceOnly(y, old(c.x), c.x, c.outside, s, at);
    case Jump(rd, to) =>
      at := Here(to);
      RunJump(c, rd, p.labels[to], next);
      RegisterWritten(y, old(c.x), c.x, c.outside, s, rd, next, at);
    case JumpReg(rd, rs1, imm) =>
      at := Landing(p, EvenTarget(c.x[rs1], imm));
      c.JumpAway(rd, rs1, imm, next);
      RegisterPut(y, old(c.x), c.outside, s, rd, next, at);
  }

  // ---- whole runs ----

  /** n steps of the source program, or fewer if it leaves its code */
  ghost function Steps(y: Layout, p: Program, s: State, n: nat): State
    requires WellFormed(p)
    decreases n
  {
    if n == 0 || !InCode(p, s) then s else Steps(y, p, Step(y, p, s), n - 1)
  }

  /** All of the n steps are polite. */
  ghost predicate PoliteRun(y: Layout, p: Program, s: State, n: nat)
    requires WellFormed(p)
    decreases n
  {
    n == 0 || !InCode(p, s) || (Polite(y, p.code[s.at.index], s) && PoliteRun(y, p, Step(y, p, s), n - 1))
  }

  /** From `now` it takes `left` polite steps to `goal`. */
  ghost predicate Ahead(y: Layout, p: Program, now: State, left: nat, goal: State) {
    WellFormed(p) && PoliteRun(y, p, now, left) && Steps(y, p, now, left) == goal
  }

  lemma OneStep(y: Layout, p: Program, s: State, n: nat, goal: State)
    requires Ahead(y, p, s, n, goal) && InCode(p, s) && n > 0
    ensures WellFormed(p) && Polite(y, p.code[s.at.index], s) && Ahead(y, p, Step(y, p, s), n - 1, goal)
  {
    hide Step, Polite;
  }

  lemma Arrived(y: Layout, p: Program, s: State, n: nat, goal: State)
    requires Ahead(y, p, s, n, goal) && (n == 0 || !InCode(p, s))
    ensures s == goal
  {}

  /** Forward simulation: running the translation of a program for any number of steps ends
      with the registers, the memory and the place of the program itself. */
  method Run(c: Cpu, p: Program, start: nat, n: nat, ghost y: Layout, ghost s: State)
    requires WellFormed(p) && s.at == Here(start) && Related(y, c, p, s) && PoliteRun(y, p, s, n)
    modifies c
    ensures Related(y, c, p, Steps(y, p, s, n))
  {
    ghost var now, goal := s, Steps(y, p, s, n);
    var left: nat := n;
    var at := Here(start);
    assert |s.x| == 32 && Ahead(y, p, now, left, goal);
    hide Step, Steps, Polite, PoliteRun, Ahead, Related, Agree, AddressOf, WellFormed, Translatable, Cpu.Valid;
    while left > 0 && at.Here? && at.index < |p.code|
      invariant Related(y, c, p, now) && now.at == at && |now.x| == 32 && Ahead(y, p, now, left, goal)
      decreases left
    {
      OneStep(y, p, now, left, goal);
      at := RunInstr(c, p, at.index, y, now);
      now := Step(y, p, now);
      left := left - 1;
    }
    Arrived(y, p, now, left, goal);
  }
}

/** What the instructions of a source program mean, said without the definitions the translation is
    proved against (RISC-V Unprivileged ISA, sections 2.4 to 2.6). */
module MiniRvLaws {
  import opened Words
  import opened MiniRv
  import opened MiniRvBranch
  import opened MiniRvProgram

  // ---- places: falling through, branches, calls ----

  predicate Transfers(i: Instr) { i.BranchTo? || i.Jump? || i.JumpReg? }

  function TargetRegister(i: Instr): Reg {
    match i
    case Alu(_, rd, _, _) => rd
    case AluImm(_, rd, _, _) => rd
    case LoadUpper(rd, _) => rd
    case Load(_, rd, _, _) => rd
    case Store(_, _, _, _) => ZERO
    case BranchTo(_, _, _, _) => ZERO
    case Jump(rd, _) => rd
    case JumpReg(rd, _, _) => rd
  }

  /** What every instruction leaves alone, and where those that are no jumps and no branches go on */
  lemma StepFrame(y: Layout, p: Program, s: State)
    requires WellFormed(p) && InCode(p, s)
    ensures var i := p.code[s.at.index];
            && |Step(y, p, s).x| == 32
            && (forall r: Reg | r == ZERO || r != TargetRegister(i) :: Step(y, p, s).x[r] == s.x[r])
            && (!i.Store? ==> Step(y, p, s).mem == s.mem)
            && (!Transfers(i) ==> Step(y, p, s).at == Here(s.at.index + 1))
  {
    hide AluResult, LoadResult, StoreResult, Landing, Taken;
  }

  /** A branch goes to its target or to the next instruction; the signed orders are the unsigned
      ones with the sign bits flipped. */
  lemma BranchPlace(y: Layout, p: Program, s: State)
    requires WellFormed(p) && InCode(p, s) && p.code[s.at.index].BranchTo?
    ensures var i := p.code[s.at.index];
            var a: int, b: int := s.x[i.rs1], s.x[i.rs2];
            var a', b' := (a + SIGN) % WORDS, (b + SIGN) % WORDS;
            var taken := match i.cond
                         case Eq => a == b
                         case Ne => a < b || a > b
                         case Lt => a' < b'
                         case Ge => !(a' < b')
                         case Ltu => a < b
                         case Geu => !(a < b);
            Step(y, p, s).at == Here(if taken then i.to else s.at.index + 1)
  {
    FlippedSign(s.x[p.code[s.at.index].rs1]);
    FlippedSign(s.x[p.code[s.at.index].rs2]);
  }

  lemma FlippedSign(a: Word)
    ensures (a + SIGN) % WORDS == Signed(a) + SIGN
  {
    QuotientIs(a + SIGN, WORDS, if a >= SIGN then 1 else 0, Signed(a) + SIGN);
  }

  /** jal and jalr, when they keep a link, keep the address of the instruction behind them. */
  lemma JumpLinks(y: Layout, p: Program, s: State)
    requires WellFormed(p) && InCode(p, s)
    requires p.code[s.at.index].Jump? || p.code[s.at.index].JumpReg?
    requires TargetRegister(p.code[s.at.index]) != ZERO
    ensures Landing(p, Step(y, p, s).x[TargetRegister(p.code[s.at.index])]) == Here(s.at.index + 1)
  {
    LinkReturns(p, s.at.index);
  }

  /** Call and return: whatever happens in between, `jr rd` with the register as the call left it
      goes to the instruction behind the call. */
  lemma CallReturns(y: Layout, p: Program, call: State, ret: State)
    requires WellFormed(p) && InCode(p, call) && InCode(p, ret)
    requires p.code[call.at.index].Jump? || p.code[call.at.index].JumpReg?
    requires var rd := TargetRegister(p.code[call.at.index]);
             rd != ZERO && p.code[ret.at.index] == JumpReg(ZERO, rd, 0) && ret.x[rd] == Step(y, p, call).x[rd]
    ensures Step(y, p, ret).at == Here(call.at.index + 1)
  {
    JumpLinks(y, p, call);
    assert p.labels[call.at.index + 1] % 2 == 0;
  }

  /** The target of a jump */
  lemma JumpPlace(y: Layout, p: Program, s: State)
    requires WellFormed(p) && InCode(p, s)
    ensures p.code[s.at.index].Jump? ==> Step(y, p, s).at == Here(p.code[s.at.index].to)
    ensures p.code[s.at.index].JumpReg? ==>
              var a := s.x[p.code[s.at.index].rs1] + p.code[s.at.index].imm;
              AddressOf(p, Step(y, p, s).at) == (a - a % 2) % WORDS
  {
    if p.code[s.at.index].JumpReg? {
      assert Translatable(p.code[s.at.index], |p.labels|);
      EvenTargetIs(s.x[p.code[s.at.index].rs1], p.code[s.at.index].imm);
    }
  }

  lemma EvenTargetIs(x: Word, imm: int)
    requires -2048 <= imm < 2048
    ensures EvenTarget(x, imm) == (x + imm - (x + imm) % 2) % WORDS
  {
    var a: int := x + imm;
    var k := if a >= WORDS then 1 else if a < 0 then -1 else 0;
    QuotientIs(a - a % 2, WORDS, k, a - a % 2 - WORDS * k);
  }

  // ---- arithmetic ----

  function BitOf(n: nat, k: nat): (bit: nat)
    ensures bit < 2
  {
    if k == 0 then n % 2 else BitOf(n / 2, k - 1)
  }

  lemma {:induction false} BitwiseBits(op: Logic, a: nat, b: nat, k: nat)
    ensures BitOf(Bitwise(op, a, b), k) == OnBits(op, BitOf(a, k), BitOf(b, k))
  {
    BitwiseLast(op, a, b);
    hide Bitwise;
    if k > 0 { BitwiseBits(op, a / 2, b / 2, k - 1); }
  }

  lemma BitwiseLast(op: Logic, a: nat, b: nat)
    ensures Bitwise(op, a, b) % 2 == OnBits(op, a % 2, b % 2)
    ensures Bitwise(op, a, b) / 2 == Bitwise(op, a / 2, b / 2)
  {
    BitwiseUnfolds(op, a, b);
    OneBit(op, a % 2, b % 2);
    hide *;
    QuotientIs(Bitwise(op, a, b), 2, Bitwise(op, a / 2, b / 2), OnBits(op, a % 2, b % 2));
  }

  lemma BitwiseUnfolds(op: Logic, a: nat, b: nat)
    ensures Bitwise(op, a, b) == OnBits(op, a % 2, b % 2) + 2 * Bitwise(op, a / 2, b / 2)
  {}

  lemma OneBit(op: Logic, a: int, b: int)
    requires 0 <= a < 2 && 0 <= b < 2
    ensures 0 <= OnBits(op, a, b) < 2
  {}

  /** and, or and xor bit by bit */
  lemma LogicMeaning(a: Word, b: Word, k: nat)
    ensures BitOf(AluResult(LogicalOp(LogicAnd), a, b), k) == 1 <==> BitOf(a, k) == 1 && BitOf(b, k) == 1
    ensures BitOf(AluResult(LogicalOp(LogicOr), a, b), k) == 1 <==> BitOf(a, k) == 1 || BitOf(b, k) == 1
    ensures BitOf(AluResult(LogicalOp(LogicXor), a, b), k) == 1 <==> BitOf(a, k) != BitOf(b, k)
  {
    BitwiseBits(LogicAnd, a, b, k);
    BitwiseBits(LogicOr, a, b, k);
    BitwiseBits(LogicXor, a, b, k);
  }

  /** add, sub, slt and sltu as arithmetic modulo 2^32 */
  lemma AluMeaning(a: Word, b: Word)
    ensures AluResult(AddOp, a, b) == (a + b) % WORDS
    ensures AluResult(SubOp, a, b) == (a - b) % WORDS
    ensures AluResult(SltOp(true), a, b) == if a < b then 1 else 0
    ensures AluResult(SltOp(false), a, b) == if (a + SIGN) % WORDS < (b + SIGN) % WORDS then 1 else 0
  {
    QuotientIs(a + b, WORDS, if a + b >= WORDS then 1 else 0, Sum(a, b));
    QuotientIs(a - b, WORDS, if a < b then -1 else 0, Difference(a, b));
    FlippedSign(a);
    FlippedSign(b);
  }

  /** The amount of a shift is the lower five bits of the operand; sll multiplies modulo 2^32, srl and
      sra divide and round down, sra as a signed number. */
  lemma ShiftMeaning(a: Word, b: Word)
    ensures var p := Pow2(b % 32);
            && AluResult(ShiftOp(ShiftLeft), a, b) == (a * p) % WORDS
            && p * AluResult(ShiftOp(ShiftRight), a, b) <= a < p * AluResult(ShiftOp(ShiftRight), a, b) + p
            && var q := Signed(AluResult(ShiftOp(ShiftRightArith), a, b));
               p * q <= Signed(a) < p * q + p
  {
    var p := Pow2(b % 32);
    DividesDown(a, p);
    DividesDown(Signed(a), p);
    SignedQuotientFits(Signed(a), p);
  }

  lemma DividesDown(a: int, p: nat)
    requires p >= 1
    ensures p * (a / p) <= a < p * (a / p) + p
  {}

  lemma SignedQuotientFits(a: int, p: nat)
    requires p >= 1 && -SIGN <= a < SIGN
    ensures 0 <= a / p % WORDS < WORDS && Signed(a / p % WORDS) == a / p
  {
    var q := a / p;
    assert p * q + a % p == a;
    if q >= 0 {
      AtLeastFactor(p, q);
    } else {
      assert p * (q + 1) == p * q + p;
      if q < -1 { AtMostFactor(p, q + 1); }
    }
    QuotientIs(q, WORDS, if q < 0 then -1 else 0, if q < 0 then q + WORDS else q);
  }

  lemma {:induction false} AtMostFactor(p: nat, q: int)
    requires p >= 1 && q < 0
    ensures p * q <= q
  {
    if p > 1 {
      AtMostFactor(p - 1, q);
      assert p * q == (p - 1) * q + q;
    }
  }

  /** A twelve-bit immediate stands for itself. */
  lemma ImmediateMeaning(imm: int)
    requires -2048 <= imm < 2048
    ensures Signed(SignExtend(imm)) == imm
  {}

  // ---- loads and stores ----

  predicate OutsideTables(t: Tables, a: Word) {
    a !in t.rom && a + 1 !in t.rom && a + 2 !in t.rom && a + 3 !in t.rom && Sum(a, 1) !in t.rom
  }

  /** What was stored is loaded again, cut to the width and extended as the load says. */
  lemma LoadAfterStore(t: Tables, m: Memory, a: Word, v: Word)
    requires OutsideTables(t, a)
    ensures LoadResult(t, LoadWord, StoreResult(StoreWord, m, a, v), a) == v
    ensures LoadResult(t, LoadHalfU, StoreResult(StoreHalf, m, a, v), a) == v % 0x1_0000
    ensures LoadResult(t, LoadByteU, StoreResult(StoreByte, m, a, v), a) == v % 0x100
    ensures Extends(LoadResult(t, LoadHalf, StoreResult(StoreHalf, m, a, v), a), v % 0x1_0000, 0x1_0000)
    ensures Extends(LoadResult(t, LoadByte, StoreResult(StoreByte, m, a, v), a), v % 0x100, 0x100)
  {
    LowDigits(v);
    hide Split;
  }

  /** r is the number v of a narrow type with `range` values, as a signed one. */
  predicate Extends(r: Word, v: nat, range: nat) {
    Signed(r) == if v >= range / 2 then v - range else v
  }

  lemma LowDigits(v: Word)
    ensures Split(v).b0 == v % 0x100
    ensures Split(v).b0 + 256 * Split(v).b1 == v % 0x1_0000
    ensures Split(v).b1 == v / 0x100 % 0x100 && Split(v).b2 == v / 0x1_0000 % 0x100 && Split(v).b3 == v / 0x100_0000
  {
    var w := Split(v);
    assert Val(w) == v;
    hide Split;
    QuotientIs(v, 0x100, w.b1 + 256 * (w.b2 + 256 * w.b3), w.b0);
    QuotientIs(w.b1 + 256 * (w.b2 + 256 * w.b3), 0x100, w.b2 + 256 * w.b3, w.b1);
    QuotientIs(v, 0x1_0000, w.b2 + 256 * w.b3, w.b0 + 256 * w.b1);
    QuotientIs(w.b2 + 256 * w.b3, 0x100, w.b3, w.b2);
    QuotientIs(v, 0x100_0000, w.b3, w.b0 + 256 * (w.b1 + 256 * w.b2));
  }

  /** Words lie in memory with the lowest byte first. */
  lemma LittleEndian(t: Tables, m: Memory, a: Word, v: Word)
    requires OutsideTables(t, a) && a + 3 < WORDS
    ensures var m' := StoreResult(StoreWord, m, a, v);
            && LoadResult(t, LoadByteU, m', a) == v % 0x100
            && LoadResult(t, LoadByteU, m', a + 1) == v / 0x100 % 0x100
            && LoadResult(t, LoadByteU, m', a + 2) == v / 0x1_0000 % 0x100
            && LoadResult(t, LoadByteU, m', a + 3) == v / 0x100_0000
  {
    LowDigits(v);
    hide Split;
  }

  /** A store changes the bytes it writes and no others. */
  lemma StoreFrame(m: Memory, store: StoreKind, a: Word, v: Word, b: int)
    requires b !in Written(store, a)
    ensures At(StoreResult(store, m, a, v), b) == At(m, b)
  {
    hide Split;
  }

  lemma WrittenBytes(store: StoreKind, a: Word, b: int)
    requires a + 3 < WORDS
    ensures b in Written(store, a) <==> a <= b < a + StoreWidth(store)
  {}

  // ---- what the simulation asks is little ----

  predicate Ordinary(r: Reg) { r != SP && r != GP && r != TP }

  predicate Source(r: Reg) { r != GP && r != TP }

  /** The instructions of ordinary code: arithmetic and jumps on any registers but sp, gp and tp,
      loads and stores also at offsets from sp. */
  lemma OrdinaryTranslatable(rd: Reg, rs1: Reg, rs2: Reg, base: Reg, imm: int, to: nat, n: nat)
    requires Ordinary(rd) && Ordinary(rs1) && Ordinary(rs2) && Source(base) && -2048 <= imm < 2047 && to < n
    ensures forall op :: Translatable(Alu(op, rd, rs1, rs2), n)
    ensures forall op: AluOp | op != SubOp && (op.ShiftOp? ==> 0 <= imm < 32) ::
              Translatable(AluImm(op, rd, rs1, imm), n)
    ensures forall imm20 | 0 <= imm20 < 0x10_0000 :: Translatable(LoadUpper(rd, imm20), n)
    ensures forall load :: Translatable(Load(load, rd, base, imm), n)
    ensures forall store :: Translatable(Store(store, rs2, base, imm), n)
    ensures forall cond :: Translatable(BranchTo(cond, rs1, rs2, to), n)
    ensures Translatable(Jump(rd, to), n) && Translatable(JumpReg(rd, rs1, imm), n)
    ensures Translatable(AluImm(AddOp, SP, SP, imm), n)
  {}

  /** Memory at and above sp or below the whole stack, apart from the tables and _check_same_array */
  predicate Data(y: Layout, sp: Word, a: Word, width: nat) {
    && (a >= sp || a + width <= y.low) && a + width <= WORDS
    && (forall b | a <= b < a + width :: b !in y.t.rom)
    && (a + width <= y.t.check || y.t.check + CHECK_SIZE <= a)
  }

  /** The bytes mean something to the program. */
  ghost predicate Sound(s: State, a: Word, width: nat) {
    a + width <= WORDS && forall b | a <= b < a + width :: b !in s.junk
  }

  /** Stores to data are polite, and so are loads of data that was written, and everything else that
      does not move sp. */
  lemma PoliteEnough(y: Layout, i: Instr, s: State)
    requires |s.x| == 32 && Translatable(i, 1) && TargetRegister(i) != SP
    requires i.Store? ==> Data(y, s.x[SP], Offset(s.x[i.rs1], i.imm), StoreWidth(i.store))
    requires i.Load? ==> Sound(s, Offset(s.x[i.rs1], i.imm), LoadWidth(i.load))
    ensures Polite(y, i, s)
  {
    if i.Load? {
      var a := Offset(s.x[i.rs1], i.imm);
      assert Sound(s, a, LoadWidth(i.load));
    }
  }

  /** sp may move anywhere in its part of memory that leaves room for the scratch words. */
  lemma SpMovesFreely(y: Layout, s: State, imm: int)
    requires |s.x| == 32 && -2048 <= imm < 2048
    requires y.low + 28 <= s.x[SP] + imm <= y.high
    ensures Polite(y, AluImm(AddOp, SP, SP, imm), s)
  {
    OffsetResult(s.x[SP], imm);
  }

  /** What is written is not junk; nothing but sp makes junk, and only below itself. */
  lemma JunkStep(y: Layout, p: Program, s: State, a: int)
    requires WellFormed(p) && InCode(p, s)
    ensures var i, after := p.code[s.at.index], Step(y, p, s);
            && (i.Store? ==> (a in after.junk <==> a in s.junk && a !in Written(i.store, Offset(s.x[i.rs1], i.imm))))
            && (!i.Store? && TargetRegister(i) != SP ==> (a in after.junk <==> a in s.junk))
            && (TargetRegister(i) == SP ==> (a in after.junk <==> a in s.junk || y.low <= a < after.x[SP]))
  {
    hide AluResult, LoadResult, StoreResult, Landing, Taken;
    assert Translatable(p.code[s.at.index], |p.labels|);
  }

  /** A fresh machine stands for the program in the same registers and memory, of which only what is
      below sp and _check_same_array is junk. */
  method Start(y: Layout, p: Program, x: seq<Word>, mem: Memory, start: nat) returns (c: Cpu, ghost s: State)
    requires StackFree(y) && |x| == 32 && x[0] == 0 && y.low + 28 <= x[SP] <= y.high && start < |p.labels|
    ensures s.x == x && s.mem == mem && s.at == Here(start)
    ensures forall a :: a in s.junk <==> y.low <= a < x[SP] || InCheck(y.t, a)
    ensures fresh(c) && Related(y, c, p, s)
  {
    ScratchFits(y, x[SP]);
    s := State(x, mem, Here(start), iset a: int | Dead(y, x[SP], a));
    c := new Cpu(y.t, x, mem, p.labels[start]);
    forall a ensures SameByte(c.outside, s.mem, s.junk, a) {}
  }
}

/**
A reference RV64IM machine after the RISC-V unprivileged specification (version
20191213), chapters 2, 5 and 7, over unbounded integers: 31 registers beside a
constant zero, a byte memory, address ranges that refuse stores, and what has
been handed to the environment.
*/
module Isa {
  import opened Words
  import opened Memory
  import opened Formats
  import opened Encodings
  import opened OpcodeMap

  // ----- section 2.4, integer computation -----

  function RegResult(r: RegOp, x: Word, y: Word): Word {
    match r
    case ADD => Wrap(x + y)
    case SUB => Wrap(x - y)
    case SLL => Wrap(x * Pow2(y % 64))
    case SLT => FromBool(Signed(x) < Signed(y))
    case SLTU => FromBool(x < y)
    case XOR => Xor(x, y)
    case SRL => Wrap(x / Pow2(y % 64))
    case SRA => Wrap(Signed(x) / Pow2(y % 64))
    case OR => Or(x, y)
    case AND => And(x, y)
  }

  function ImmResult(i: ImmOp, imm: int, x: Word): Word {
    match i
    case ADDI => RegResult(ADD, x, Wrap(imm))
    case SLTI => RegResult(SLT, x, Wrap(imm))
    case SLTIU => RegResult(SLTU, x, Wrap(imm))
    case XORI => RegResult(XOR, x, Wrap(imm))
    case ORI => RegResult(OR, x, Wrap(imm))
    case ANDI => RegResult(AND, x, Wrap(imm))
    case SLLI => RegResult(SLL, x, Wrap(imm))
    case SRLI => RegResult(SRL, x, Wrap(imm))
    case SRAI => RegResult(SRA, x, Wrap(imm))
  }

  // ----- section 5.2, computation on 32-bit words -----

  function RegWordResult(rw: RegWordOp, x: Word, y: Word): Word {
    match rw
    case ADDW => Sext32(x + y)
    case SUBW => Sext32(x - y)
    case SLLW => Sext32(x * Pow2(y % 32))
    case SRLW => Sext32(Zext32(x) / Pow2(y % 32))
    case SRAW => Sext32(Signed32(x) / Pow2(y % 32))
  }

  function ImmWordResult(iw: ImmWordOp, imm: int, x: Word): Word {
    match iw
    case ADDIW => RegWordResult(ADDW, x, Wrap(imm))
    case SLLIW => RegWordResult(SLLW, x, Wrap(imm))
    case SRLIW => RegWordResult(SRLW, x, Wrap(imm))
    case SRAIW => RegWordResult(SRAW, x, Wrap(imm))
  }

  // ----- chapter 7, multiplication and division -----

  function Abs(a: int): nat {
    if a < 0 then -a else a
  }

  /** Division by zero gives all ones; the one overflowing quotient wraps. */
  function Divide(a: int, b: int): int {
    if b == 0 then -1
    else if (a < 0) != (b < 0) then -(Abs(a) / Abs(b))
    else Abs(a) / Abs(b)
  }

  /** The remainder by zero is the dividend; otherwise it has the dividend's sign. */
  function Remainder(a: int, b: int): int {
    if b == 0 then a
    else if a < 0 then 0 - Abs(a) % Abs(b)
    else Abs(a) % Abs(b)
  }

  function MulResult(m: MulOp, x: Word, y: Word): Word {
    match m
    case MUL => Wrap(Signed(x) * Signed(y))
    case MULH => Wrap(Signed(x) * Signed(y) / 0x1_0000_0000_0000_0000)
    case MULHU => Wrap(x * y / 0x1_0000_0000_0000_0000)
    case MULHSU => Wrap(Signed(x) * y / 0x1_0000_0000_0000_0000)
    case DIV => Wrap(Divide(Signed(x), Signed(y)))
    case DIVU => Wrap(Divide(x, y))
    case REM => Wrap(Remainder(Signed(x), Signed(y)))
    case REMU => Wrap(Remainder(x, y))
  }

  function MulWordResult(mw: MulWordOp, x: Word, y: Word): Word {
    match mw
    case MULW => Sext32(Signed32(x) * Signed32(y))
    case DIVW => Sext32(Divide(Signed32(x), Signed32(y)))
    case DIVUW => Sext32(Divide(Zext32(x), Zext32(y)))
    case REMW => Sext32(Remainder(Signed32(x), Signed32(y)))
    case REMUW => Sext32(Remainder(Zext32(x), Zext32(y)))
  }

  // ----- the machine -----

  /** `x` holds registers x1 to x31; x0 is not stored. */
  datatype State = State(pc: Word, x: seq<Word>, mem: Mem, readOnly: Intervals, sent: seq<seq<Byte>>)

  datatype Cause = FetchFault | LoadFault(at: Word) | StoreFault(at: Word) | JumpMisaligned(target: Word)
                 | IllegalInstruction | Breakpoint | EnvironmentCall

  /** A fault and a halt leave the state in which they occurred. */
  datatype Result = Next(s: State) | Fault(s: State, cause: Cause) | Halt(s: State, code: int)

  predicate WellFormed(s: State) {
    |s.x| == 31
  }

  function Get(s: State, r: Register): Word
    requires WellFormed(s)
  {
    if r == 0 then 0 else s.x[r - 1]
  }

  /** Write a register and go on to `pc`; writes to x0 are lost. */
  function SetX(s: State, r: Register, v: Word, pc: Word): (s': State)
    requires WellFormed(s)
    ensures WellFormed(s')
  {
    if r == 0 then s.(pc := pc) else s.(pc := pc, x := s.x[r - 1 := v])
  }

  /** Targets must be multiples of four, there being no compressed instructions. */
  function Jump(s: State, target: Word, landed: State): Result {
    if target % 4 != 0 then Fault(s, JumpMisaligned(target)) else Next(landed)
  }

  predicate Protected(readOnly: Intervals, a: Word, n: nat) {
    exists i :: 0 <= i < n && Banned(readOnly, At(a, i))
  }

  predicate BranchTaken(b: BranchOp, x: Word, y: Word) {
    match b
    case BEQ => x == y
    case BNE => x != y
    case BLT => Signed(x) < Signed(y)
    case BGE => Signed(y) <= Signed(x)
    case BLTU => x < y
    case BGEU => y <= x
  }

  function Bytes(l: LoadOp): nat {
    if l.LB? || l.LBU? then 1 else if l.LH? || l.LHU? then 2 else if l.LD? then 8 else 4
  }

  function LoadResult(l: LoadOp, bs: seq<Byte>): Word
    requires |bs| == Bytes(l)
  {
    var v := LittleEndian(bs);
    match l
    case LB => Wrap(TwosComplement(v, 0x100))
    case LH => Wrap(TwosComplement(v, 0x1_0000))
    case LW => Wrap(TwosComplement(v, 0x1_0000_0000))
    case LD | LBU | LHU | LWU => Wrap(v)
  }

  function StoreBytes(s: StoreOp): nat {
    if s.SB? then 1 else if s.SH? then 2 else if s.SW? then 4 else 8
  }

  function Execute(s: State, w: Word32, op: Op): (r: Result)
    requires WellFormed(s)
    ensures WellFormed(r.s)
  {
    var x, y := Get(s, Rs1Of(w)), Get(s, Rs2Of(w));
    var rd, next := RdOf(w), At(s.pc, 4);
    match op
    case Reg(r) => Next(SetX(s, rd, RegResult(r, x, y), next))
    case Imm(i) => Next(SetX(s, rd, ImmResult(i, ImmI(w), x), next))
    case RegW(rw) => Next(SetX(s, rd, RegWordResult(rw, x, y), next))
    case ImmW(iw) => Next(SetX(s, rd, ImmWordResult(iw, ImmI(w), x), next))
    case Mul(m) => Next(SetX(s, rd, MulResult(m, x, y), next))
    case MulW(mw) => Next(SetX(s, rd, MulWordResult(mw, x, y), next))
    case LUI => Next(SetX(s, rd, Wrap(ImmU(w)), next))
    case AUIPC => Next(SetX(s, rd, At(s.pc, ImmU(w)), next))
    case JAL => Jump(s, At(s.pc, ImmJ(w)), SetX(s, rd, next, At(s.pc, ImmJ(w))))
    case JALR =>
      var target := At(x, ImmI(w)) / 2 * 2;
      Jump(s, target, SetX(s, rd, next, target))
    case Branch(b) =>
      if BranchTaken(b, x, y) then Jump(s, At(s.pc, ImmB(w)), s.(pc := At(s.pc, ImmB(w)))) else Next(s.(pc := next))
    case Loads(l) =>
      var a := At(x, ImmI(w));
      if Mapped(s.mem, a, Bytes(l)) then Next(SetX(s, rd, LoadResult(l, Slice(s.mem, a, Bytes(l))), next))
      else Fault(s, LoadFault(a))
    case Stores(st) =>
      var a := At(x, ImmS(w));
      if Protected(s.readOnly, a, StoreBytes(st)) then Fault(s, StoreFault(a))
      else Next(s.(pc := next, mem := Store(s.mem, a, ToBytes(y, StoreBytes(st)))))
    case FENCE => Next(s.(pc := next))
    case SCALL => Fault(s, EnvironmentCall)
    case FP(_) => Fault(s, IllegalInstruction)
    case ILLEGAL => Fault(s, if w == 0x0010_0073 then Breakpoint else IllegalInstruction)
  }

  function WordAt(mem: Mem, pc: Word): Word32
    requires Mapped(mem, pc, 4)
  {
    LittleEndianBound(Slice(mem, pc, 4));
    Pow2Values();
    LittleEndian(Slice(mem, pc, 4))
  }

  function Step(s: State): (r: Result)
    requires WellFormed(s)
    ensures WellFormed(r.s)
  {
    if Mapped(s.mem, s.pc, 4) then
      Execute(s, WordAt(s.mem, s.pc), Lookup(WordAt(s.mem, s.pc)))
    else Fault(s, FetchFault)
  }
}

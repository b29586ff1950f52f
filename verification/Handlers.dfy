/**
The value each integer handler writes to its destination register, in the
handlers' own terms: wrapped sums, masked shift amounts, truncating division.
`b` is the fetched word, `x` and `y` are the registers named by rs1 and rs2.
*/
module Handlers {
  import opened Words
  import opened Instruction
  import opened Encodings
  import opened MultiplyHigh

  const UINT64_MAX: Word := 0xFFFF_FFFF_FFFF_FFFF

  const INT64_MIN: int := -0x8000_0000_0000_0000

  function RegValue(r: RegOp, b: Word, x: Word, y: Word): Word {
    match r
    case ADD => Wrap(x + y)
    case SUB => Wrap(x - y)
    case SLL => Shl(x, And(y, 63))
    case SLT => FromBool(Signed(x) < Signed(y))
    case SLTU => FromBool(x < Wrap(IImm(b)))
    case XOR => Xor(x, y)
    case SRL => Wrap(Shr(x, And(y, 63)))
    case SRA => Wrap(Shr(Signed(x), And(y, 63)))
    case OR => Or(x, y)
    case AND => And(x, y)
  }

  function ImmValue(i: ImmOp, b: Word, x: Word): Word {
    match i
    case ADDI => Wrap(x + IImm(b))
    case SLTI => FromBool(Signed(x) < IImm(b))
    case SLTIU => FromBool(x < Wrap(IImm(b)))
    case XORI => Xor(Wrap(IImm(b)), x)
    case ORI => Or(Wrap(IImm(b)), x)
    case ANDI => And(Wrap(IImm(b)), x)
    case SLLI => Shl(x, Shamt(b))
    case SRLI => Wrap(Shr(x, Shamt(b)))
    case SRAI => Wrap(Shr(Signed(x), Shamt(b)))
  }

  function RegWordValue(rw: RegWordOp, x: Word, y: Word): Word {
    match rw
    case ADDW => Sext32(Wrap(x + y))
    case SUBW => Sext32(Wrap(x - y))
    case SLLW => Shl(x, And(y, 63))
    case SRLW => Sext32(Shr(Zext32(x), And(y, 0x1F)))
    case SRAW => Sext32(Shr(Signed32(x), And(y, 0x1F)))
  }

  function ImmWordValue(iw: ImmWordOp, b: Word, x: Word): Word {
    match iw
    case ADDIW => Sext32(Wrap(IImm(b) + x))
    case SLLIW => Sext32(Shl(x, Shamt(b)))
    case SRLIW => Sext32(Shr(Zext32(x), Shamt(b)))
    case SRAIW => Sext32(Shr(Signed32(x), Shamt(b)))
  }

  /** `a / b` as C computes it: the quotient is rounded towards zero. */
  function Quot(a: int, b: int): int
    requires b != 0
  {
    if a >= 0 then
      if b > 0 then a / b else -(a / -b)
    else
      if b > 0 then -(-a / b) else -a / -b
  }

  /** `a % b` as C computes it. */
  function Rem(a: int, b: int): int
    requires b != 0
  {
    a - b * Quot(a, b)
  }

  function MulValue(m: MulOp, x: Word, y: Word): Word {
    var lhs, rhs := Signed(x), Signed(y);
    match m
    case MUL => Wrap(x * y)
    case MULH => Wrap(High(lhs, rhs))
    case MULHU => Wrap(High(x, y))
    case MULHSU => Wrap(High(lhs, y))
    case DIV =>
      if rhs == 0 then UINT64_MAX
      else if lhs == INT64_MIN && rhs == -1 then Wrap(lhs)
      else Wrap(Quot(lhs, rhs))
    case DIVU => if y == 0 then UINT64_MAX else Wrap(x / y)
    case REM =>
      if rhs == 0 then Wrap(lhs)
      else if lhs == INT64_MIN && rhs == -1 then 0
      else Wrap(Rem(lhs, rhs))
    case REMU => if y == 0 then x else Wrap(x % y)
  }

  function MulWordValue(mw: MulWordOp, x: Word, y: Word): Word {
    match mw
    case MULW => Sext32(Wrap(x * y))
    case DIVW => if Signed32(y) == 0 then UINT64_MAX else Sext32(Quot(Signed32(x), Signed32(y)))
    case DIVUW => if Zext32(y) == 0 then UINT64_MAX else Sext32(Zext32(x) / Zext32(y))
    case REMW => if Signed32(y) == 0 then Wrap(Signed32(x)) else Sext32(Rem(Signed32(x), Signed32(y)))
    case REMUW => if Zext32(y) == 0 then Sext32(Zext32(x)) else Sext32(Zext32(x) % Zext32(y))
  }

  /** Whether a branch is taken. */
  predicate Taken(b: BranchOp, x: Word, y: Word) {
    match b
    case BEQ => x == y
    case BNE => x != y
    case BLT => Signed(x) < Signed(y)
    case BGE => Signed(x) >= Signed(y)
    case BLTU => x < y
    case BGEU => x >= y
  }

  function LoadWidth(l: LoadOp): int {
    match l
    case LB | LBU => 1
    case LH | LHU => 2
    case LW | LWU => 4
    case LD => 8
  }

  predicate LoadSigned(l: LoadOp) {
    l.LB? || l.LH? || l.LW? || l.LD?
  }

  function StoreWidth(s: StoreOp): int {
    match s
    case SB => 1
    case SH => 2
    case SW => 4
    case SD => 8
  }
}

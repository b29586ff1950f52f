/**
The opcode map of the specification, by major opcode and function fields.
*/
module OpcodeMap {
  import opened Words
  import opened Formats
  import opened Encodings

  /** The parts of a word that choose the instruction. */
  datatype Choice = Choice(major: int, f3: int, f7: int, rs2: int, whole: Word32)

  function ChoiceOf(w: Word32): Choice {
    Choice(Opcode(w), Funct3(w), Funct7(w), Rs2Of(w), w)
  }

  function Lookup(w: Word32): Op {
    Chosen(ChoiceOf(w))
  }

  function Chosen(c: Choice): Op {
    match c.major
    case 0x37 => LUI
    case 0x17 => AUIPC
    case 0x6f => JAL
    case 0x67 => if c.f3 == 0 then JALR else ILLEGAL
    case 0x63 => BranchRow(c.f3)
    case 0x03 => LoadRow(c.f3)
    case 0x23 => StoreRow(c.f3)
    case 0x13 => ImmediateRow(c.f3, c.f7)
    case 0x1b => ImmediateWordRow(c.f3, c.f7)
    case 0x33 => RegisterRow(c.f3, c.f7)
    case 0x3b => RegisterWordRow(c.f3, c.f7)
    case 0x0f => if c.f3 == 0 then FENCE else ILLEGAL
    case 0x73 => if c.whole == 0x73 then SCALL else ILLEGAL
    case 0x07 => if c.f3 == 2 then FP(FloatMem(FLW)) else if c.f3 == 3 then FP(FloatMem(FLD)) else ILLEGAL
    case 0x27 => if c.f3 == 2 then FP(FloatMem(FSW)) else if c.f3 == 3 then FP(FloatMem(FSD)) else ILLEGAL
    case 0x43 => if c.f7 % 4 == 1 then FP(FloatArith(FMADD_D)) else ILLEGAL
    case 0x53 => FloatRegisterRow(c.f3, c.f7, c.rs2)
    case _ => ILLEGAL
  }

  function BranchRow(f3: int): Op {
    match f3
    case 0 => Branch(BEQ)
    case 1 => Branch(BNE)
    case 4 => Branch(BLT)
    case 5 => Branch(BGE)
    case 6 => Branch(BLTU)
    case 7 => Branch(BGEU)
    case _ => ILLEGAL
  }

  function LoadRow(f3: int): Op {
    match f3
    case 0 => Loads(LB)
    case 1 => Loads(LH)
    case 2 => Loads(LW)
    case 3 => Loads(LD)
    case 4 => Loads(LBU)
    case 5 => Loads(LHU)
    case 6 => Loads(LWU)
    case _ => ILLEGAL
  }

  function StoreRow(f3: int): Op {
    match f3
    case 0 => Stores(SB)
    case 1 => Stores(SH)
    case 2 => Stores(SW)
    case 3 => Stores(SD)
    case _ => ILLEGAL
  }

  /** The upper six bits tell the 64-bit shifts apart; the seventh belongs to the shift amount. */
  function ImmediateRow(f3: int, f7: int): Op {
    match f3
    case 0 => Imm(ADDI)
    case 1 => if f7 / 2 == 0 then Imm(SLLI) else ILLEGAL
    case 2 => Imm(SLTI)
    case 3 => Imm(SLTIU)
    case 4 => Imm(XORI)
    case 5 => if f7 / 2 == 0 then Imm(SRLI) else if f7 / 2 == 0x10 then Imm(SRAI) else ILLEGAL
    case 6 => Imm(ORI)
    case 7 => Imm(ANDI)
    case _ => ILLEGAL
  }

  function ImmediateWordRow(f3: int, f7: int): Op {
    match f3
    case 0 => ImmW(ADDIW)
    case 1 => if f7 == 0 then ImmW(SLLIW) else ILLEGAL
    case 5 => if f7 == 0 then ImmW(SRLIW) else if f7 == 0x20 then ImmW(SRAIW) else ILLEGAL
    case _ => ILLEGAL
  }

  function RegisterRow(f3: int, f7: int): Op {
    if f7 == 0 then
      match f3
      case 0 => Reg(ADD)
      case 1 => Reg(SLL)
      case 2 => Reg(SLT)
      case 3 => Reg(SLTU)
      case 4 => Reg(XOR)
      case 5 => Reg(SRL)
      case 6 => Reg(OR)
      case _ => Reg(AND)
    else if f7 == 0x20 then
      if f3 == 0 then Reg(SUB) else if f3 == 5 then Reg(SRA) else ILLEGAL
    else if f7 == 1 then
      match f3
      case 0 => Mul(MUL)
      case 1 => Mul(MULH)
      case 2 => Mul(MULHSU)
      case 3 => Mul(MULHU)
      case 4 => Mul(DIV)
      case 5 => Mul(DIVU)
      case 6 => Mul(REM)
      case _ => Mul(REMU)
    else ILLEGAL
  }

  function RegisterWordRow(f3: int, f7: int): Op {
    if f7 == 0 then
      if f3 == 0 then RegW(ADDW) else if f3 == 1 then RegW(SLLW) else if f3 == 5 then RegW(SRLW) else ILLEGAL
    else if f7 == 0x20 then
      if f3 == 0 then RegW(SUBW) else if f3 == 5 then RegW(SRAW) else ILLEGAL
    else if f7 == 1 then
      if f3 == 0 then MulW(MULW)
      else if f3 == 4 then MulW(DIVW)
      else if f3 == 5 then MulW(DIVUW)
      else if f3 == 6 then MulW(REMW)
      else if f3 == 7 then MulW(REMUW)
      else ILLEGAL
    else ILLEGAL
  }

  function FloatRegisterRow(f3: int, f7: int, rs2: int): Op {
    if f7 < 0x10 then FloatArithmeticRow(f7)
    else if f7 < 0x60 then FloatCompareRow(f3, f7, rs2)
    else FloatConvertRow(f3, f7, rs2)
  }

  function FloatArithmeticRow(f7: int): Op {
    match f7
    case 0x00 => FP(FloatArith(FADD_S))
    case 0x04 => FP(FloatArith(FSUB_S))
    case 0x08 => FP(FloatArith(FMUL_S))
    case 0x0c => FP(FloatArith(FDIV_S))
    case 0x01 => FP(FloatArith(FADD_D))
    case 0x05 => FP(FloatArith(FSUB_D))
    case 0x09 => FP(FloatArith(FMUL_D))
    case 0x0d => FP(FloatArith(FDIV_D))
    case _ => ILLEGAL
  }

  function FloatCompareRow(f3: int, f7: int, rs2: int): Op {
    match f7
    case 0x11 => if f3 == 0 then FP(FloatCmp(FSGNJ_D)) else ILLEGAL
    case 0x20 => if rs2 == 1 then FP(FloatCvt(FCVT_S_D)) else ILLEGAL
    case 0x21 => if rs2 == 0 then FP(FloatCvt(FCVT_D_S)) else ILLEGAL
    case 0x51 =>
      if f3 == 0 then FP(FloatCmp(FLE_D))
      else if f3 == 1 then FP(FloatCmp(FLT_D))
      else if f3 == 2 then FP(FloatCmp(FEQ_D))
      else ILLEGAL
    case _ => ILLEGAL
  }

  function FloatConvertRow(f3: int, f7: int, rs2: int): Op {
    match f7
    case 0x61 =>
      if rs2 == 0 then FP(FloatCvt(FCVT_W_D))
      else if rs2 == 1 then FP(FloatCvt(FCVT_WU_D))
      else if rs2 == 2 then FP(FloatCvt(FCVT_L_D))
      else ILLEGAL
    case 0x68 => if rs2 == 0 then FP(FloatCvt(FCVT_S_W)) else if rs2 == 2 then FP(FloatCvt(FCVT_S_L)) else ILLEGAL
    case 0x69 => if rs2 == 0 then FP(FloatCvt(FCVT_D_W)) else if rs2 == 2 then FP(FloatCvt(FCVT_D_L)) else ILLEGAL
    case 0x71 => if rs2 == 0 && f3 == 0 then FP(FloatCmp(FMV_X_D)) else ILLEGAL
    case 0x78 => if rs2 == 0 && f3 == 0 then FP(FloatCmp(FMV_S_X)) else ILLEGAL
    case 0x79 => if rs2 == 0 && f3 == 0 then FP(FloatCmp(FMV_D_X)) else ILLEGAL
    case _ => ILLEGAL
  }
}

/**
The instructions the simulator knows, with their mask and match constants.
*/
module Encodings {
  import opened Words

  datatype RegOp = ADD | SUB | SLL | SLT | SLTU | XOR | SRL | SRA | OR | AND

  datatype ImmOp = ADDI | SLTI | SLTIU | XORI | ORI | ANDI | SLLI | SRLI | SRAI

  datatype RegWordOp = ADDW | SUBW | SLLW | SRLW | SRAW

  datatype ImmWordOp = ADDIW | SLLIW | SRLIW | SRAIW

  datatype MulOp = MUL | MULH | MULHU | MULHSU | DIV | DIVU | REM | REMU

  datatype MulWordOp = MULW | DIVW | DIVUW | REMW | REMUW

  datatype BranchOp = BEQ | BNE | BLT | BGE | BLTU | BGEU

  datatype LoadOp = LB | LH | LW | LD | LBU | LHU | LWU

  datatype StoreOp = SB | SH | SW | SD

  // The floating-point instructions; only their encodings matter here.

  datatype FloatMemOp =
    FLD | FLW | FSD | FSW

  datatype FloatArithOp =
    FMUL_D | FDIV_D | FMUL_S | FDIV_S | FADD_D | FSUB_D | FADD_S | FSUB_S | FMADD_D

  datatype FloatCmpOp =
    FSGNJ_D | FEQ_D | FLE_D | FLT_D | FMV_S_X | FMV_X_D | FMV_D_X

  datatype FloatCvtOp =
    FCVT_L_D | FCVT_S_L | FCVT_S_W | FCVT_S_D | FCVT_D_S | FCVT_D_W | FCVT_D_L | FCVT_W_D | FCVT_WU_D

  datatype FloatOp =
    | FloatMem(fm: FloatMemOp) | FloatArith(fa: FloatArithOp) | FloatCmp(fc: FloatCmpOp)
    | FloatCvt(fv: FloatCvtOp)

  datatype Op =
    | Reg(r: RegOp) | Imm(i: ImmOp) | RegW(rw: RegWordOp) | ImmW(iw: ImmWordOp) | Mul(m: MulOp)
    | MulW(mw: MulWordOp) | Branch(b: BranchOp) | Loads(l: LoadOp) | Stores(s: StoreOp) | LUI | AUIPC | JAL
    | JALR | SCALL | FENCE | FP(f: FloatOp) | ILLEGAL

  /** One table entry: the word names `op` when its bits under `mask` are `want`. */
  datatype Desc = Desc(want: Word, mask: Word, op: Op)

  function Encoding(op: Op): Desc {
    match op
    case Reg(r) => RegEncoding(r)
    case Imm(i) => ImmEncoding(i)
    case RegW(rw) => RegWEncoding(rw)
    case ImmW(iw) => ImmWEncoding(iw)
    case Mul(m) => MulEncoding(m)
    case MulW(mw) => MulWEncoding(mw)
    case Branch(b) => BranchEncoding(b)
    case Loads(l) => LoadsEncoding(l)
    case Stores(s) => StoresEncoding(s)
    case LUI => Desc(0x37, 0x7f, LUI)
    case AUIPC => Desc(0x17, 0x7f, AUIPC)
    case JAL => Desc(0x6f, 0x7f, JAL)
    case JALR => Desc(0x67, 0x707f, JALR)
    case SCALL => Desc(0x73, 0xffffffff, SCALL)
    case FENCE => Desc(0xf, 0x707f, FENCE)
    case FP(f) => FloatEncoding(f)
    case ILLEGAL => CatchAll()
  }

  /** The last entry of every table, which each word matches. */
  function CatchAll(): Desc {
    Desc(0, 0, ILLEGAL)
  }

  function RegEncoding(r: RegOp): Desc {
    match r
    case ADD => Desc(0x33, 0xfe00707f, Reg(ADD))
    case SUB => Desc(0x40000033, 0xfe00707f, Reg(SUB))
    case SLL => Desc(0x1033, 0xfe00707f, Reg(SLL))
    case SLT => Desc(0x2033, 0xfe00707f, Reg(SLT))
    case SLTU => Desc(0x3033, 0xfe00707f, Reg(SLTU))
    case XOR => Desc(0x4033, 0xfe00707f, Reg(XOR))
    case SRL => Desc(0x5033, 0xfe00707f, Reg(SRL))
    case SRA => Desc(0x40005033, 0xfe00707f, Reg(SRA))
    case OR => Desc(0x6033, 0xfe00707f, Reg(OR))
    case AND => Desc(0x7033, 0xfe00707f, Reg(AND))
  }

  function ImmEncoding(i: ImmOp): Desc {
    match i
    case ADDI => Desc(0x13, 0x707f, Imm(ADDI))
    case SLTI => Desc(0x2013, 0x707f, Imm(SLTI))
    case SLTIU => Desc(0x3013, 0x707f, Imm(SLTIU))
    case XORI => Desc(0x4013, 0x707f, Imm(XORI))
    case ORI => Desc(0x6013, 0x707f, Imm(ORI))
    case ANDI => Desc(0x7013, 0x707f, Imm(ANDI))
    case SLLI => Desc(0x1013, 0xfc00707f, Imm(SLLI))
    case SRLI => Desc(0x5013, 0xfc00707f, Imm(SRLI))
    case SRAI => Desc(0x40005013, 0xfc00707f, Imm(SRAI))
  }

  function RegWEncoding(rw: RegWordOp): Desc {
    match rw
    case ADDW => Desc(0x3b, 0xfe00707f, RegW(ADDW))
    case SUBW => Desc(0x4000003b, 0xfe00707f, RegW(SUBW))
    case SLLW => Desc(0x103b, 0xfe00707f, RegW(SLLW))
    case SRLW => Desc(0x503b, 0xfe00707f, RegW(SRLW))
    case SRAW => Desc(0x4000503b, 0xfe00707f, RegW(SRAW))
  }

  function ImmWEncoding(iw: ImmWordOp): Desc {
    match iw
    case ADDIW => Desc(0x1b, 0x707f, ImmW(ADDIW))
    case SLLIW => Desc(0x101b, 0xfe00707f, ImmW(SLLIW))
    case SRLIW => Desc(0x501b, 0xfe00707f, ImmW(SRLIW))
    case SRAIW => Desc(0x4000501b, 0xfe00707f, ImmW(SRAIW))
  }

  function MulEncoding(m: MulOp): Desc {
    match m
    case MUL => Desc(0x2000033, 0xfe00707f, Mul(MUL))
    case MULH => Desc(0x2001033, 0xfe00707f, Mul(MULH))
    case MULHU => Desc(0x2003033, 0xfe00707f, Mul(MULHU))
    case MULHSU => Desc(0x2002033, 0xfe00707f, Mul(MULHSU))
    case DIV => Desc(0x2004033, 0xfe00707f, Mul(DIV))
    case DIVU => Desc(0x2005033, 0xfe00707f, Mul(DIVU))
    case REM => Desc(0x2006033, 0xfe00707f, Mul(REM))
    case REMU => Desc(0x2007033, 0xfe00707f, Mul(REMU))
  }

  function MulWEncoding(mw: MulWordOp): Desc {
    match mw
    case MULW => Desc(0x200003b, 0xfe00707f, MulW(MULW))
    case DIVW => Desc(0x200403b, 0xfe00707f, MulW(DIVW))
    case DIVUW => Desc(0x200503b, 0xfe00707f, MulW(DIVUW))
    case REMW => Desc(0x200603b, 0xfe00707f, MulW(REMW))
    case REMUW => Desc(0x200703b, 0xfe00707f, MulW(REMUW))
  }

  function BranchEncoding(b: BranchOp): Desc {
    match b
    case BEQ => Desc(0x63, 0x707f, Branch(BEQ))
    case BNE => Desc(0x1063, 0x707f, Branch(BNE))
    case BLT => Desc(0x4063, 0x707f, Branch(BLT))
    case BGE => Desc(0x5063, 0x707f, Branch(BGE))
    case BLTU => Desc(0x6063, 0x707f, Branch(BLTU))
    case BGEU => Desc(0x7063, 0x707f, Branch(BGEU))
  }

  function LoadsEncoding(l: LoadOp): Desc {
    match l
    case LB => Desc(0x3, 0x707f, Loads(LB))
    case LH => Desc(0x1003, 0x707f, Loads(LH))
    case LW => Desc(0x2003, 0x707f, Loads(LW))
    case LD => Desc(0x3003, 0x707f, Loads(LD))
    case LBU => Desc(0x4003, 0x707f, Loads(LBU))
    case LHU => Desc(0x5003, 0x707f, Loads(LHU))
    case LWU => Desc(0x6003, 0x707f, Loads(LWU))
  }

  function StoresEncoding(s: StoreOp): Desc {
    match s
    case SB => Desc(0x23, 0x707f, Stores(SB))
    case SH => Desc(0x1023, 0x707f, Stores(SH))
    case SW => Desc(0x2023, 0x707f, Stores(SW))
    case SD => Desc(0x3023, 0x707f, Stores(SD))
  }

  function FloatEncoding(f: FloatOp): Desc {
    match f
    case FloatMem(fm) => FloatMemEncoding(fm)
    case FloatArith(fa) => FloatArithEncoding(fa)
    case FloatCmp(fc) => FloatCmpEncoding(fc)
    case FloatCvt(fv) => FloatCvtEncoding(fv)
  }

  function FloatMemEncoding(fm: FloatMemOp): Desc {
    match fm
    case FLD => Desc(0x3007, 0x707f, FP(FloatMem(FLD)))
    case FLW => Desc(0x2007, 0x707f, FP(FloatMem(FLW)))
    case FSD => Desc(0x3027, 0x707f, FP(FloatMem(FSD)))
    case FSW => Desc(0x2027, 0x707f, FP(FloatMem(FSW)))
  }

  function FloatArithEncoding(fa: FloatArithOp): Desc {
    match fa
    case FMUL_D => Desc(0x12000053, 0xfe00007f, FP(FloatArith(FMUL_D)))
    case FDIV_D => Desc(0x1a000053, 0xfe00007f, FP(FloatArith(FDIV_D)))
    case FMUL_S => Desc(0x10000053, 0xfe00007f, FP(FloatArith(FMUL_S)))
    case FDIV_S => Desc(0x18000053, 0xfe00007f, FP(FloatArith(FDIV_S)))
    case FADD_D => Desc(0x2000053, 0xfe00007f, FP(FloatArith(FADD_D)))
    case FSUB_D => Desc(0xa000053, 0xfe00007f, FP(FloatArith(FSUB_D)))
    case FADD_S => Desc(0x53, 0xfe00007f, FP(FloatArith(FADD_S)))
    case FSUB_S => Desc(0x8000053, 0xfe00007f, FP(FloatArith(FSUB_S)))
    case FMADD_D => Desc(0x2000043, 0x600007f, FP(FloatArith(FMADD_D)))
  }

  function FloatCmpEncoding(fc: FloatCmpOp): Desc {
    match fc
    case FSGNJ_D => Desc(0x22000053, 0xfe00707f, FP(FloatCmp(FSGNJ_D)))
    case FEQ_D => Desc(0xa2002053, 0xfe00707f, FP(FloatCmp(FEQ_D)))
    case FLE_D => Desc(0xa2000053, 0xfe00707f, FP(FloatCmp(FLE_D)))
    case FLT_D => Desc(0xa2001053, 0xfe00707f, FP(FloatCmp(FLT_D)))
    case FMV_S_X => Desc(0xf0000053, 0xfff0707f, FP(FloatCmp(FMV_S_X)))
    case FMV_X_D => Desc(0xe2000053, 0xfff0707f, FP(FloatCmp(FMV_X_D)))
    case FMV_D_X => Desc(0xf2000053, 0xfff0707f, FP(FloatCmp(FMV_D_X)))
  }

  function FloatCvtEncoding(fv: FloatCvtOp): Desc {
    match fv
    case FCVT_L_D => Desc(0xc2200053, 0xfff0007f, FP(FloatCvt(FCVT_L_D)))
    case FCVT_S_L => Desc(0xd0200053, 0xfff0007f, FP(FloatCvt(FCVT_S_L)))
    case FCVT_S_W => Desc(0xd0000053, 0xfff0007f, FP(FloatCvt(FCVT_S_W)))
    case FCVT_S_D => Desc(0x40100053, 0xfff0007f, FP(FloatCvt(FCVT_S_D)))
    case FCVT_D_S => Desc(0x42000053, 0xfff0007f, FP(FloatCvt(FCVT_D_S)))
    case FCVT_D_W => Desc(0xd2000053, 0xfff0007f, FP(FloatCvt(FCVT_D_W)))
    case FCVT_D_L => Desc(0xd2200053, 0xfff0007f, FP(FloatCvt(FCVT_D_L)))
    case FCVT_W_D => Desc(0xc2000053, 0xfff0007f, FP(FloatCvt(FCVT_W_D)))
    case FCVT_WU_D => Desc(0xc2100053, 0xfff0007f, FP(FloatCvt(FCVT_WU_D)))
  }
}

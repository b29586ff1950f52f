/**
The instructions in the order in which they are registered, group by group.
*/
module InstructionList {
  import opened Words
  import opened Encodings
  import opened Decoder
  import opened OpcodeMap
  import opened DecodeMeaning

  const FREQUENT: seq<Op> := [
    Imm(ADDI), Loads(LW), Loads(LD), Stores(SW), Stores(SD), JAL, Branch(BNE), Reg(ADD), ImmW(ADDIW), LUI
  ]

  const REGISTER_FORMS: seq<Op> := [
    Reg(SUB), Reg(SLL), Reg(SLT), Reg(SLTU), Reg(XOR), Reg(SRL), Reg(SRA), Reg(OR), Reg(AND)
  ]

  const IMMEDIATE_FORMS: seq<Op> := [
    Imm(SLLI), Imm(SLTI), Imm(SLTIU), Imm(XORI), Imm(SRLI), Imm(SRAI), Imm(ORI), Imm(ANDI)
  ]

  const BRANCH_FORMS: seq<Op> := [
    Branch(BEQ), Branch(BLT), Branch(BGE), Branch(BLTU), Branch(BGEU)
  ]

  const MEMORY_FORMS: seq<Op> := [
    Loads(LB), Loads(LH), Loads(LBU), Loads(LHU), Loads(LWU), Stores(SB), Stores(SH), JALR, AUIPC
  ]

  const WORD_FORMS: seq<Op> := [
    RegW(ADDW), RegW(SUBW), RegW(SLLW), RegW(SRLW), RegW(SRAW), ImmW(SLLIW), ImmW(SRLIW), ImmW(SRAIW)
  ]

  const MULTIPLY_FORMS: seq<Op> := [
    Mul(MUL), MulW(MULW), Mul(MULH), Mul(MULHU), Mul(MULHSU), Mul(DIV), Mul(DIVU), MulW(DIVW), MulW(DIVUW),
    Mul(REM), Mul(REMU), MulW(REMW), MulW(REMUW)
  ]

  const SYSTEM_FORMS: seq<Op> := [
    SCALL, FENCE
  ]

  const FLOAT_MOVES: seq<Op> := [
    FP(FloatMem(FLD)), FP(FloatMem(FLW)), FP(FloatMem(FSD)), FP(FloatMem(FSW)), FP(FloatCmp(FMV_S_X))
  ]

  const FLOAT_ARITHMETIC: seq<Op> := [
    FP(FloatArith(FMUL_D)), FP(FloatArith(FDIV_D)), FP(FloatArith(FMUL_S)), FP(FloatArith(FDIV_S)),
    FP(FloatArith(FADD_D)), FP(FloatArith(FSUB_D)), FP(FloatArith(FADD_S)), FP(FloatArith(FSUB_S)),
    FP(FloatCmp(FMV_X_D)), FP(FloatCmp(FMV_D_X)), FP(FloatCvt(FCVT_L_D))
  ]

  const FLOAT_CONVERSIONS: seq<Op> := [
    FP(FloatCvt(FCVT_S_L)), FP(FloatCvt(FCVT_S_W)), FP(FloatCvt(FCVT_S_D)), FP(FloatCvt(FCVT_D_S)),
    FP(FloatCvt(FCVT_D_W)), FP(FloatCvt(FCVT_D_L)), FP(FloatCvt(FCVT_W_D)), FP(FloatCvt(FCVT_WU_D))
  ]

  const FLOAT_REST: seq<Op> := [
    FP(FloatCmp(FSGNJ_D)), FP(FloatCmp(FEQ_D)), FP(FloatCmp(FLE_D)), FP(FloatCmp(FLT_D)),
    FP(FloatArith(FMADD_D))
  ]

  const LISTED: seq<Op> :=
    FREQUENT + REGISTER_FORMS + IMMEDIATE_FORMS + BRANCH_FORMS + MEMORY_FORMS + WORD_FORMS + MULTIPLY_FORMS +
    SYSTEM_FORMS + FLOAT_MOVES + FLOAT_ARITHMETIC + FLOAT_CONVERSIONS + FLOAT_REST

  lemma {:induction false} EveryOpIsListed(op: Op)
    requires op != ILLEGAL
    ensures op in LISTED
  {
    match op
    case Imm(ADDI) | Loads(LW) | Loads(LD) | Stores(SW) | Stores(SD) | JAL | Branch(BNE) | Reg(ADD) |
      ImmW(ADDIW) | LUI =>
      assert op in FREQUENT;
    case Reg(SUB) | Reg(SLL) | Reg(SLT) | Reg(SLTU) | Reg(XOR) | Reg(SRL) | Reg(SRA) | Reg(OR) | Reg(AND) =>
      assert op in REGISTER_FORMS;
    case Imm(SLLI) | Imm(SLTI) | Imm(SLTIU) | Imm(XORI) | Imm(SRLI) | Imm(SRAI) | Imm(ORI) | Imm(ANDI) =>
      assert op in IMMEDIATE_FORMS;
    case Branch(BEQ) | Branch(BLT) | Branch(BGE) | Branch(BLTU) | Branch(BGEU) =>
      assert op in BRANCH_FORMS;
    case Loads(LB) | Loads(LH) | Loads(LBU) | Loads(LHU) | Loads(LWU) | Stores(SB) | Stores(SH) | JALR | AUIPC =>
      assert op in MEMORY_FORMS;
    case RegW(ADDW) | RegW(SUBW) | RegW(SLLW) | RegW(SRLW) | RegW(SRAW) | ImmW(SLLIW) | ImmW(SRLIW) | ImmW(SRAIW) =>
      assert op in WORD_FORMS;
    case Mul(MUL) | MulW(MULW) | Mul(MULH) | Mul(MULHU) | Mul(MULHSU) | Mul(DIV) | Mul(DIVU) | MulW(DIVW) |
      MulW(DIVUW) | Mul(REM) | Mul(REMU) | MulW(REMW) | MulW(REMUW) =>
      assert op in MULTIPLY_FORMS;
    case SCALL | FENCE =>
      assert op in SYSTEM_FORMS;
    case FP(f) => EveryFloatIsListed(f);
  }

  lemma {:induction false} EveryFloatIsListed(f: FloatOp)
    ensures FP(f) in LISTED
  {
    match f
    case FloatMem(FLD) | FloatMem(FLW) | FloatMem(FSD) | FloatMem(FSW) | FloatCmp(FMV_S_X) =>
      assert FP(f) in FLOAT_MOVES;
    case FloatArith(FMUL_D) | FloatArith(FDIV_D) | FloatArith(FMUL_S) | FloatArith(FDIV_S) |
      FloatArith(FADD_D) | FloatArith(FSUB_D) | FloatArith(FADD_S) | FloatArith(FSUB_S) |
      FloatCmp(FMV_X_D) | FloatCmp(FMV_D_X) | FloatCvt(FCVT_L_D) =>
      assert FP(f) in FLOAT_ARITHMETIC;
    case FloatCvt(FCVT_S_L) | FloatCvt(FCVT_S_W) | FloatCvt(FCVT_S_D) | FloatCvt(FCVT_D_S) |
      FloatCvt(FCVT_D_W) | FloatCvt(FCVT_D_L) | FloatCvt(FCVT_W_D) | FloatCvt(FCVT_WU_D) =>
      assert FP(f) in FLOAT_CONVERSIONS;
    case FloatCmp(FSGNJ_D) | FloatCmp(FEQ_D) | FloatCmp(FLE_D) | FloatCmp(FLT_D) |
      FloatArith(FMADD_D) =>
      assert FP(f) in FLOAT_REST;
  }

  lemma {:induction false} IllegalIsNotListed()
    ensures ILLEGAL !in LISTED
  {
    assert ILLEGAL !in FREQUENT;
    assert ILLEGAL !in REGISTER_FORMS;
    assert ILLEGAL !in IMMEDIATE_FORMS;
    assert ILLEGAL !in BRANCH_FORMS;
    assert ILLEGAL !in MEMORY_FORMS;
    assert ILLEGAL !in WORD_FORMS;
    assert ILLEGAL !in MULTIPLY_FORMS;
    assert ILLEGAL !in SYSTEM_FORMS;
    assert ILLEGAL !in FLOAT_MOVES;
    assert ILLEGAL !in FLOAT_ARITHMETIC;
    assert ILLEGAL !in FLOAT_CONVERSIONS;
    assert ILLEGAL !in FLOAT_REST;
  }

  /** The table that the simulator scans. */
  function Table(): seq<Desc> {
    Entries(LISTED) + [CatchAll()]
  }

  /** The scan of the registered table names every word as the opcode map does. */
  lemma {:induction false} NamedIsLookup(b: Word)
    ensures Named(Entries(LISTED), b) == Lookup(Zext32(b))
  {
    IllegalIsNotListed();
    EntriesDisjoint(LISTED);
    var op := Lookup(Zext32(b));
    if op != ILLEGAL {
      EveryOpIsListed(op);
      EntryMeaning(b, op);
      var i :| 0 <= i < |LISTED| && LISTED[i] == op;
      assert Entries(LISTED)[i] == Encoding(op);
      MaskInUse(op);
      NamedByMatch(Entries(LISTED), b, Encoding(op));
    } else {
      NamedByAnEntry(Entries(LISTED), b);
      if d :| d in Entries(LISTED) && Matches(b, d) {
        EntryOfListed(LISTED, d);
        EntryMeaning(b, d.op);
      }
    }
  }

  /** Wherever a scan of the table stops, it stops inside, at the instruction the opcode map gives. */
  lemma {:induction false} TableNames(b: Word, p: nat)
    requires FirstMatch(Table(), b, p)
    ensures Table()[p].op == Lookup(Zext32(b))
  {
    hide Lookup, Entries, Matches, FirstMatch;
    assert FirstMatch(Entries(LISTED) + [CatchAll()], b, p);
    ScanNames(Entries(LISTED), b, p);
    NamedIsLookup(b);
  }

  lemma {:induction false} TableEnds()
    ensures Table() != [] && Table()[|Table()| - 1] == CatchAll()
  {
    hide Entries;
  }

  /** Any other registration order, catch-all last, names every word the same. */
  lemma {:induction false} AnyOrder(ops: seq<Op>, b: Word)
    requires multiset(ops) == multiset(LISTED)
    ensures Named(Entries(ops), b) == Named(Entries(LISTED), b)
  {
    IllegalIsNotListed();
    ReorderedList(LISTED, ops, b);
  }
}

/**
Every table entry matches exactly the words that the opcode map of the
specification gives to its instruction.
*/
module DecodeMeaning {
  import opened Words
  import opened Encodings
  import opened Decoder
  import opened OpcodeMap
  import opened Masks

  ghost predicate Admits(d: Desc, c: Choice) {
    Kept(d.mask, c) == d.want
  }

  // ----- one row of the opcode map at a time -----

  /** An entry under the mask that covers opcode and both function fields admits exactly one cell of the map. */
  lemma {:induction false} OneCell(d: Desc, c: Choice, major: int, f3: int, f7: int)
    requires InRange(c) && d.mask == 0xfe00707f
    requires 0 <= major < 0x80 && 0 <= f3 < 8 && 0 <= f7 < 0x80
    requires d.want == major + 0x1000 * f3 + 0x200_0000 * f7
    ensures Admits(d, c) <==> c.major == major && c.f3 == f3 && c.f7 == f7
  {
    KeptFields(d.mask, c);
    SumParts(major, f3, 0, f7);
  }

  lemma {:induction false} BranchEntry(b: BranchOp, c: Choice)
    requires InRange(c)
    ensures Admits(BranchEncoding(b), c) <==>
      c.major == 0x63 && BranchRow(c.f3) == Branch(b)
  {
    KeptFields(BranchEncoding(b).mask, c);
  }

  lemma {:induction false} LoadEntry(l: LoadOp, c: Choice)
    requires InRange(c)
    ensures Admits(LoadsEncoding(l), c) <==>
      c.major == 0x03 && LoadRow(c.f3) == Loads(l)
  {
    KeptFields(LoadsEncoding(l).mask, c);
  }

  lemma {:induction false} StoreEntry(s: StoreOp, c: Choice)
    requires InRange(c)
    ensures Admits(StoresEncoding(s), c) <==>
      c.major == 0x23 && StoreRow(c.f3) == Stores(s)
  {
    KeptFields(StoresEncoding(s).mask, c);
  }

  lemma {:induction false} ImmEntry(i: ImmOp, c: Choice)
    requires InRange(c)
    ensures Admits(ImmEncoding(i), c) <==>
      c.major == 0x13 && ImmediateRow(c.f3, c.f7) == Imm(i)
  {
    KeptFields(ImmEncoding(i).mask, c);
  }

  lemma {:induction false} ImmWordEntry(iw: ImmWordOp, c: Choice)
    requires InRange(c)
    ensures Admits(ImmWEncoding(iw), c) <==>
      c.major == 0x1b && ImmediateWordRow(c.f3, c.f7) == ImmW(iw)
  {
    KeptFields(ImmWEncoding(iw).mask, c);
  }

  lemma {:induction false} RegEntry(r: RegOp, c: Choice)
    requires InRange(c)
    ensures Admits(RegEncoding(r), c) <==>
      c.major == 0x33 && RegisterRow(c.f3, c.f7) == Reg(r)
  {
    hide Admits;
    var f3 := match r
      case ADD | SUB => 0
      case SLL => 1
      case SLT => 2
      case SLTU => 3
      case XOR => 4
      case SRL | SRA => 5
      case OR => 6
      case AND => 7;
    OneCell(RegEncoding(r), c, 0x33, f3, if r == SUB || r == SRA then 0x20 else 0);
  }

  lemma {:induction false} RegWordEntry(rw: RegWordOp, c: Choice)
    requires InRange(c)
    ensures Admits(RegWEncoding(rw), c) <==>
      c.major == 0x3b && RegisterWordRow(c.f3, c.f7) == RegW(rw)
  {
    hide Admits;
    var f3 := match rw case ADDW | SUBW => 0 case SLLW => 1 case SRLW | SRAW => 5;
    OneCell(RegWEncoding(rw), c, 0x3b, f3, if rw == SUBW || rw == SRAW then 0x20 else 0);
  }

  lemma {:induction false} MulEntry(m: MulOp, c: Choice)
    requires InRange(c)
    ensures Admits(MulEncoding(m), c) <==>
      c.major == 0x33 && RegisterRow(c.f3, c.f7) == Mul(m)
  {
    hide Admits;
    var f3 := match m
      case MUL => 0
      case MULH => 1
      case MULHSU => 2
      case MULHU => 3
      case DIV => 4
      case DIVU => 5
      case REM => 6
      case REMU => 7;
    OneCell(MulEncoding(m), c, 0x33, f3, 1);
  }

  lemma {:induction false} MulWordEntry(mw: MulWordOp, c: Choice)
    requires InRange(c)
    ensures Admits(MulWEncoding(mw), c) <==>
      c.major == 0x3b && RegisterWordRow(c.f3, c.f7) == MulW(mw)
  {
    hide Admits;
    var f3 := match mw case MULW => 0 case DIVW => 4 case DIVUW => 5 case REMW => 6 case REMUW => 7;
    OneCell(MulWEncoding(mw), c, 0x3b, f3, 1);
  }

  lemma {:induction false} FloatArithEntry(fa: FloatArithOp, c: Choice)
    requires InRange(c)
    ensures Admits(FloatArithEncoding(fa), c) <==>
      if fa == FMADD_D then c.major == 0x43 && c.f7 % 4 == 1
      else c.major == 0x53 && c.f7 < 0x10 && FloatArithmeticRow(c.f7) == FP(FloatArith(fa))
  {
    KeptFields(FloatArithEncoding(fa).mask, c);
  }

  lemma {:induction false} ArithmeticOnly(f7: int)
    ensures FloatArithmeticRow(f7) == ILLEGAL
         || (FloatArithmeticRow(f7).FP? && FloatArithmeticRow(f7).f.FloatArith?)
  {
  }

  /** The function fields, and for moves the rs2 field, of a comparison, sign injection or move. */
  ghost predicate InCmpCell(fc: FloatCmpOp, c: Choice) {
    match fc
    case FSGNJ_D => c.f7 == 0x11 && c.f3 == 0
    case FLE_D => c.f7 == 0x51 && c.f3 == 0
    case FLT_D => c.f7 == 0x51 && c.f3 == 1
    case FEQ_D => c.f7 == 0x51 && c.f3 == 2
    case FMV_X_D => c.f7 == 0x71 && c.f3 == 0 && c.rs2 == 0
    case FMV_S_X => c.f7 == 0x78 && c.f3 == 0 && c.rs2 == 0
    case FMV_D_X => c.f7 == 0x79 && c.f3 == 0 && c.rs2 == 0
  }

  /** The same for the mask that covers the rs2 field too. */
  lemma {:induction false} OneMove(d: Desc, c: Choice, f7: int)
    requires InRange(c) && d.mask == 0xfff0707f
    requires 0 <= f7 < 0x80 && d.want == 0x53 + 0x200_0000 * f7
    ensures Admits(d, c) <==> c.major == 0x53 && c.f3 == 0 && c.rs2 == 0 && c.f7 == f7
  {
    KeptFields(d.mask, c);
    SumParts(0x53, 0, 0, f7);
  }

  lemma {:induction false} FloatCmpFields(fc: FloatCmpOp, c: Choice)
    requires InRange(c)
    ensures Admits(FloatCmpEncoding(fc), c) <==> c.major == 0x53 && InCmpCell(fc, c)
  {
    hide Admits;
    var d := FloatCmpEncoding(fc);
    match fc
    case FSGNJ_D => OneCell(d, c, 0x53, 0, 0x11);
    case FLE_D => OneCell(d, c, 0x53, 0, 0x51);
    case FLT_D => OneCell(d, c, 0x53, 1, 0x51);
    case FEQ_D => OneCell(d, c, 0x53, 2, 0x51);
    case FMV_X_D => OneMove(d, c, 0x71);
    case FMV_S_X => OneMove(d, c, 0x78);
    case FMV_D_X => OneMove(d, c, 0x79);
  }

  lemma {:induction false} FloatCmpRow(fc: FloatCmpOp, c: Choice)
    ensures InCmpCell(fc, c) <==> FloatRegisterRow(c.f3, c.f7, c.rs2) == FP(FloatCmp(fc))
  {
    hide FloatArithmeticRow;
    ArithmeticOnly(c.f7);
  }

  lemma {:induction false} FloatCmpEntry(fc: FloatCmpOp, c: Choice)
    requires InRange(c)
    ensures Admits(FloatCmpEncoding(fc), c) <==>
      c.major == 0x53 && FloatRegisterRow(c.f3, c.f7, c.rs2) == FP(FloatCmp(fc))
  {
    hide Admits, FloatCmpEncoding, FloatRegisterRow, InCmpCell;
    FloatCmpFields(fc, c);
    FloatCmpRow(fc, c);
  }

  /** The upper function field and the rs2 field of a conversion. */
  ghost function CvtCell(fv: FloatCvtOp): (int, int) {
    match fv
    case FCVT_L_D => (0x61, 2)
    case FCVT_S_L => (0x68, 2)
    case FCVT_S_W => (0x68, 0)
    case FCVT_S_D => (0x20, 1)
    case FCVT_D_S => (0x21, 0)
    case FCVT_D_W => (0x69, 0)
    case FCVT_D_L => (0x69, 2)
    case FCVT_W_D => (0x61, 0)
    case FCVT_WU_D => (0x61, 1)
  }

  lemma {:induction false} FloatCvtFields(fv: FloatCvtOp, c: Choice)
    requires InRange(c)
    ensures Admits(FloatCvtEncoding(fv), c) <==> c.major == 0x53 && CvtCell(fv) == (c.f7, c.rs2)
  {
    KeptFields(FloatCvtEncoding(fv).mask, c);
  }

  lemma {:induction false} FloatCvtRow(fv: FloatCvtOp, c: Choice)
    ensures CvtCell(fv) == (c.f7, c.rs2) <==> FloatRegisterRow(c.f3, c.f7, c.rs2) == FP(FloatCvt(fv))
  {
    hide FloatArithmeticRow;
    ArithmeticOnly(c.f7);
  }

  lemma {:induction false} FloatCvtEntry(fv: FloatCvtOp, c: Choice)
    requires InRange(c)
    ensures Admits(FloatCvtEncoding(fv), c) <==>
      c.major == 0x53 && FloatRegisterRow(c.f3, c.f7, c.rs2) == FP(FloatCvt(fv))
  {
    hide Admits, FloatCvtEncoding, FloatRegisterRow, CvtCell;
    FloatCvtFields(fv, c);
    FloatCvtRow(fv, c);
  }

  lemma {:induction false} FloatMemEntry(fm: FloatMemOp, c: Choice)
    requires InRange(c)
    ensures Admits(FloatMemEncoding(fm), c) <==>
      if fm.FLW? || fm.FLD? then c.major == 0x07 && c.f3 == (if fm.FLW? then 2 else 3)
      else c.major == 0x27 && c.f3 == (if fm.FSW? then 2 else 3)
  {
    KeptFields(FloatMemEncoding(fm).mask, c);
  }

  /** The kind of an instruction fixes its major opcode. */
  lemma {:induction false} MajorOfChosen(c: Choice)
    ensures Chosen(c).Branch? ==> c.major == 0x63
    ensures Chosen(c).Loads? ==> c.major == 0x03
    ensures Chosen(c).Stores? ==> c.major == 0x23
    ensures Chosen(c).Imm? ==> c.major == 0x13
    ensures Chosen(c).ImmW? ==> c.major == 0x1b
    ensures Chosen(c).Reg? || Chosen(c).Mul? ==> c.major == 0x33
    ensures Chosen(c).RegW? || Chosen(c).MulW? ==> c.major == 0x3b
    ensures Chosen(c).FP? ==> c.major == 0x53 || c.major == 0x43 || c.major == 0x07 || c.major == 0x27
  {
  }

  lemma {:induction false} SinglesChosen(c: Choice)
    requires InRange(c)
    ensures Chosen(c) == LUI <==> c.major == 0x37
    ensures Chosen(c) == AUIPC <==> c.major == 0x17
    ensures Chosen(c) == JAL <==> c.major == 0x6f
  {
  }

  lemma {:induction false} MinorsChosen(c: Choice)
    requires InRange(c)
    ensures Chosen(c) == JALR <==> c.major + 0x1000 * c.f3 == 0x67
    ensures Chosen(c) == FENCE <==> c.major + 0x1000 * c.f3 == 0xf
  {
  }

  lemma {:induction false} CallChosen(c: Choice)
    requires InRange(c)
    ensures Chosen(c) == SCALL <==> c.whole == 0x73
  {
    if c.whole == 0x73 {
      assert c.major == 0x73;
    } else {
      OtherThanCall(c);
    }
  }

  lemma {:induction false} OtherThanCall(c: Choice)
    requires c.whole != 0x73
    ensures Chosen(c) != SCALL
  {
  }

  lemma {:induction false} FloatRegisterChosen(f: FloatOp, c: Choice)
    requires InRange(c) && c.major == 0x53
    ensures Admits(FloatEncoding(f), c) <==> FloatRegisterRow(c.f3, c.f7, c.rs2) == FP(f)
  {
    match f
    case FloatMem(fm) => FloatMemEntry(fm, c);
    case FloatArith(fa) => FloatArithEntry(fa, c);
    case FloatCmp(fc) => FloatCmpEntry(fc, c);
    case FloatCvt(fv) => FloatCvtEntry(fv, c);
  }

  lemma {:induction false} FloatElsewhere(f: FloatOp, c: Choice)
    requires InRange(c) && c.major != 0x53
    ensures Admits(FloatEncoding(f), c) <==> Chosen(c) == FP(f)
  {
    MajorOfChosen(c);
    match f
    case FloatMem(fm) => FloatMemEntry(fm, c);
    case FloatArith(fa) => FloatArithEntry(fa, c);
    case FloatCmp(fc) => FloatCmpEntry(fc, c);
    case FloatCvt(fv) => FloatCvtEntry(fv, c);
  }

  /** The entry of `op` accepts exactly the choices that the opcode map gives to `op`. */
  lemma {:induction false} EntryChosen(op: Op, c: Choice)
    requires InRange(c) && op != ILLEGAL
    ensures Admits(Encoding(op), c) <==> Chosen(c) == op
  {
    MajorOfChosen(c);
    match op
    case Reg(r) => RegEntry(r, c);
    case Imm(i) => ImmEntry(i, c);
    case RegW(rw) => RegWordEntry(rw, c);
    case ImmW(iw) => ImmWordEntry(iw, c);
    case Mul(m) => MulEntry(m, c);
    case MulW(mw) => MulWordEntry(mw, c);
    case Branch(b) => BranchEntry(b, c);
    case Loads(l) => LoadEntry(l, c);
    case Stores(s) => StoreEntry(s, c);
    case FP(f) =>
      if c.major == 0x53 {
        FloatRegisterChosen(f, c);
      } else {
        FloatElsewhere(f, c);
      }
    case LUI | AUIPC | JAL => SinglesChosen(c);
    case JALR | FENCE => MinorsChosen(c);
    case SCALL => CallChosen(c);
  }

  lemma {:induction false} MaskInUse(op: Op)
    requires op != ILLEGAL
    ensures InUse(Encoding(op).mask)
    ensures Encoding(op).op == op
  {
  }

  /** The entry of `op` matches exactly the words that the opcode map gives to `op`. */
  lemma {:induction false} EntryMeaning(b: Word, op: Op)
    requires op != ILLEGAL
    ensures Matches(b, Encoding(op)) <==> Lookup(Zext32(b)) == op
  {
    MaskInUse(op);
    MaskKeeps(b, Encoding(op).mask);
    EntryChosen(op, ChoiceOf(Zext32(b)));
  }

  // ----- lists of instructions -----

  /** The entries of a list of instructions, without the catch-all. */
  function Entries(ops: seq<Op>): (t: seq<Desc>)
    ensures |t| == |ops| && forall i :: 0 <= i < |ops| ==> t[i] == Encoding(ops[i])
  {
    seq(|ops|, i requires 0 <= i < |ops| => Encoding(ops[i]))
  }

  lemma {:induction false} EntryOfListed(ops: seq<Op>, d: Desc)
    requires ILLEGAL !in ops && d in Entries(ops)
    ensures d.op in ops && d.op != ILLEGAL && d == Encoding(d.op)
  {
    var i :| 0 <= i < |ops| && d == Entries(ops)[i];
    MaskInUse(ops[i]);
  }

  lemma {:induction false} EntriesDisjoint(ops: seq<Op>)
    requires ILLEGAL !in ops
    ensures Disjoint(Entries(ops))
  {
    forall d, e, b: Word | d in Entries(ops) && e in Entries(ops) && Matches(b, d) && Matches(b, e)
      ensures d == e
    {
      EntryOfListed(ops, d);
      EntryOfListed(ops, e);
      EntryMeaning(b, d.op);
      EntryMeaning(b, e.op);
    }
  }

  /** The order in which instructions are registered does not matter. */
  lemma {:induction false} ReorderedList(ops: seq<Op>, other: seq<Op>, b: Word)
    requires ILLEGAL !in ops
    requires multiset(ops) == multiset(other)
    ensures Named(Entries(other), b) == Named(Entries(ops), b)
  {
    EntriesDisjoint(ops);
    EntriesPermuted(ops, other);
    OrderIndependent(Entries(ops), Entries(other), b);
  }

  lemma {:induction false} EntriesPermuted(ops: seq<Op>, other: seq<Op>)
    requires multiset(ops) == multiset(other)
    ensures multiset(Entries(ops)) == multiset(Entries(other))
    decreases |ops|
  {
    if ops == [] {
      assert |other| == |multiset(other)| == 0;
    } else {
      var k := TakeOut(ops, other);
      var x, front, back := ops[..1], other[..k], other[k + 1..];
      EntriesPermuted(ops[1..], front + back);
      assert ops == x + ops[1..];
      assert other == front + x + back;
      EntriesConcat(x, ops[1..]);
      EntriesConcat(front + x, back);
      EntriesConcat(front, x);
      EntriesConcat(front, back);
    }
  }

  lemma {:induction false} EntriesConcat(a: seq<Op>, b: seq<Op>)
    ensures Entries(a + b) == Entries(a) + Entries(b)
  {
  }

  lemma {:induction false} TakeOut(ops: seq<Op>, other: seq<Op>) returns (k: nat)
    requires ops != [] && multiset(ops) == multiset(other)
    ensures k < |other| && other[k] == ops[0]
    ensures multiset(ops[1..]) == multiset(other[..k] + other[k + 1..])
  {
    assert ops == [ops[0]] + ops[1..];
    assert ops[0] in multiset(other);
    k :| 0 <= k < |other| && other[k] == ops[0];
    assert other == other[..k] + [ops[0]] + other[k + 1..];
    assert multiset(other[..k] + other[k + 1..]) == multiset(other) - multiset{ops[0]};
    assert multiset(ops[1..]) == multiset(ops) - multiset{ops[0]};
  }
}

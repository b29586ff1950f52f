/**
The simulator against the reference machine: when one step of either is one step
of the other, instruction by instruction, and what that gives for whole runs.
*/
module Refinement {
  import opened Words
  import opened Memory
  import opened HostSystem
  import opened MemoryLaws
  import opened Instruction
  import opened InstructionMeaning
  import opened Formats
  import opened Encodings
  import opened OpcodeMap
  import opened DecodeMeaning
  import opened Handlers
  import opened HandlerMeaning
  import opened Simulator
  import Isa
  import Environment

  /** What the reference machine sees of the simulator. */
  function Abs(m: Machine): (s: Isa.State)
    requires WellFormed(m)
    ensures Isa.WellFormed(s)
  {
    Isa.State(m.pc, m.regs[1..], m.mem, m.forbid, m.out)
  }

  /** The same next state, or the same end for the same reason in the same state. */
  predicate Agrees(o: Outcome, r: Isa.Result) {
    WellFormed(o.m) &&
    match o
    case Running(m) => r == Isa.Next(Abs(m))
    case Raised(m, InvalidAddress(_, _)) => r == Isa.Fault(Abs(m), Isa.FetchFault)
    case Raised(m, Refused(first, _)) => r == Isa.Fault(Abs(m), Isa.StoreFault(first))
    case Raised(m, Misaligned(target)) => r == Isa.Fault(Abs(m), Isa.JumpMisaligned(target))
    case Exited(m, code) => r == Isa.Halt(Abs(m), code)
    case FloatingPoint(_, _) => false
  }

  /** The states in which the comparison is made: x0 is zero and the program counter is a multiple of four. */
  predicate Regular(m: Machine) {
    WellFormed(m) && m.regs[0] == 0 && m.pc % 4 == 0
  }

  /** What must hold before `op`, fetched as the word `w`, for the simulator to do what is specified. */
  predicate Conforms(m: Machine, w: Word32, op: Op)
    requires WellFormed(m)
  {
    var x, y := m.regs[Rs1Of(w)], m.regs[Rs2Of(w)];
    match op
    case Reg(SLTU) => RdOf(w) == 0 || !StrictlyApart(x, Rs2Of(w), y)
    case RegW(SLLW) => RdOf(w) == 0 || SllwFits(x, y % 64)
    case Loads(l) => Mapped(m.mem, At(x, ImmI(w)), LoadWidth(l))
    case Stores(s) =>
      var a := At(x, ImmS(w));
      !Accepts(m.forbid, a, StoreWidth(s)) || !Isa.Protected(m.forbid, a, StoreWidth(s))
    case SCALL => m.regs[17] == 169 ==> !Accepts(m.forbid, m.regs[10], 8) || !Isa.Protected(m.forbid, m.regs[10], 8)
    case ILLEGAL => false
    case _ => true
  }

  // ----- registers -----

  lemma {:induction false} GetAgrees(m: Machine, r: Register)
    requires WellFormed(m) && m.regs[0] == 0
    ensures Isa.Get(Abs(m), r) == m.regs[r]
  {
  }

  /** Two register writes leave the same state exactly when the values agree or are lost. */
  lemma {:induction false} WriteAgrees(m: Machine, rd: Register, v: Word, u: Word, pc: Word)
    requires WellFormed(m)
    ensures Abs(m.(pc := pc, regs := WriteReg(m.regs, rd, v))) == Isa.SetX(Abs(m), rd, u, pc) <==> rd == 0 || v == u
  {
    var wrote, set_ := WriteReg(m.regs, rd, v)[1..], Isa.SetX(Abs(m), rd, u, pc).x;
    if rd != 0 {
      assert wrote[rd - 1] == v && set_[rd - 1] == u;
      if v == u {
        assert wrote == set_;
      }
    }
  }

  // ----- fetch -----

  lemma {:induction false} FetchAgrees(m: Machine)
    requires WellFormed(m)
    ensures FetchAt(m.mem, m.pc).Fetched? <==> Mapped(m.mem, m.pc, 4)
    ensures Mapped(m.mem, m.pc, 4) ==> FetchAt(m.mem, m.pc).bits == Sext32(Isa.WordAt(m.mem, m.pc))
  {
    FetchIsLoad(m.mem, m.pc);
    if Mapped(m.mem, m.pc, 4) {
      WordIsLoad(m.mem, m.pc);
    }
  }

  lemma {:induction false} WordIsLoad(mem: Mem, pc: Word)
    requires Mapped(mem, pc, 4)
    ensures Load(mem, pc, true, 4) == Sext32(Isa.WordAt(mem, pc))
  {
    PresentMapped(mem, pc, 4);
    WidenWord(Slice(mem, pc, 4), Isa.WordAt(mem, pc));
  }

  lemma {:induction false} WidenWord(bs: seq<Byte>, w: Word32)
    requires |bs| == 4 && w == LittleEndian(bs)
    ensures Widen(bs, true, 4) == Sext32(w)
  {
    SextIsExtend(w);
  }

  lemma {:induction false} LowOfSext(w: Word32)
    ensures Zext32(Sext32(w)) == w
  {
  }

  // ----- decoded words -----

  /** In a word decoded as `sltu` the immediate field is the number of the second register. */
  lemma {:induction false} SltuImmediate(w: Word32)
    requires Lookup(w) == Reg(SLTU)
    ensures ImmI(w) == Rs2Of(w)
  {
    MajorOfChosen(ChoiceOf(w));
    assert Funct7(w) == 0;
    UpperBits(w);
  }

  lemma {:induction false} UpperBits(w: Word32)
    ensures w / 0x10_0000 == Rs2Of(w) + 0x20 * Funct7(w)
  {
    Digits(w, 0x10_0000, 0x20, 0x200_0000);
  }

  /** The masks of the immediate word shifts leave only amounts below 32. */
  lemma {:induction false} ShortShifts(w: Word32, iw: ImmWordOp)
    requires Lookup(w) == ImmW(iw) && iw != ADDIW
    ensures ImmI(w) % 64 < 32
  {
    MajorOfChosen(ChoiceOf(w));
    assert Funct7(w) == 0 || Funct7(w) == 0x20;
    UpperBits(w);
  }

  // ----- jump targets -----

  lemma {:induction false} TargetTest(t: Word)
    requires t % 2 == 0
    ensures And(t, 2) != 0 <==> t % 4 != 0
  {
    SecondBit(t);
    EvenBit(t);
  }

  lemma {:induction false} ClearBit0(t: Word)
    ensures And(t, Not(1)) == t / 2 * 2 && t / 2 * 2 % 2 == 0
  {
    DropBit0(t, 0x7FFF_FFFF_FFFF_FFFF);
    KeepUpper(t / 2);
  }

  lemma {:induction false} KeepUpper(q: nat)
    requires q < 0x8000_0000_0000_0000
    ensures BitAnd(q, 0x7FFF_FFFF_FFFF_FFFF) == q
  {
    var p := Pow2(63);
    assert p == 0x8000_0000_0000_0000 by {
      Pow2Values();
    }
    AndAll(q, 63);
    assert p - 1 == 0x7FFF_FFFF_FFFF_FFFF;
  }

  lemma {:induction false} DropBit0(t: nat, mask: nat)
    ensures BitAnd(t, 2 * mask) == 2 * BitAnd(t / 2, mask)
  {
    hide BitAnd;
    AndStep(t, 2 * mask);
    Quotient(2 * mask, 2, mask, 0);
  }

  lemma {:induction false} JumpAgrees(m: Machine, t: Word, regs: seq<Word>, s: Isa.State)
    requires WellFormed(m) && t % 2 == 0 && |regs| == 32
    requires Abs(m.(pc := t, regs := regs)) == s
    ensures Agrees(SetPc(m, t, regs), Isa.Jump(Abs(m), t, s))
  {
    TargetTest(t);
  }

  lemma {:induction false} EvenSum(pc: Word, d: int)
    requires pc % 4 == 0 && d % 2 == 0
    ensures At(pc, d) % 2 == 0
  {
    Quotient(pc + d, 2, 2 * (pc / 4) + d / 2, 0);
    WrapMod4(pc + d);
  }

  // ----- instruction by instruction -----

  ghost predicate SameStep(m: Machine, w: Word32, op: Op, h: Host)
    requires WellFormed(m)
  {
    Agrees(Exec(m, op, Sext32(w), h), Environment.Answered(Isa.Execute(Abs(m), w, op), h))
  }

  lemma {:induction false} RegStep(m: Machine, w: Word32, r: RegOp, h: Host)
    requires Regular(m) && r != SLTU
    ensures SameStep(m, w, Reg(r), h)
  {
    hide RegValue, Isa.RegResult, Rd, Rs1, Rs2;
    FieldsAgree(w);
    GetAgrees(m, Rs1Of(w));
    GetAgrees(m, Rs2Of(w));
    var b, x, y := Sext32(w), m.regs[Rs1Of(w)], m.regs[Rs2Of(w)];
    RegAgrees(r, b, x, y);
    WriteAgrees(m, RdOf(w), RegValue(r, b, x, y), Isa.RegResult(r, x, y), At(m.pc, 4));
  }

  lemma {:induction false} SltuStep(m: Machine, w: Word32, h: Host)
    requires Regular(m) && Lookup(w) == Reg(SLTU)
    ensures SameStep(m, w, Reg(SLTU), h) <==> Conforms(m, w, Reg(SLTU))
  {
    hide RegValue, Isa.RegResult, Rd, Rs1, Rs2;
    FieldsAgree(w);
    GetAgrees(m, Rs1Of(w));
    GetAgrees(m, Rs2Of(w));
    var b, x, y := Sext32(w), m.regs[Rs1Of(w)], m.regs[Rs2Of(w)];
    SltuCase(w, x, y);
    WriteAgrees(m, RdOf(w), RegValue(SLTU, b, x, y), Isa.RegResult(SLTU, x, y), At(m.pc, 4));
  }

  lemma {:induction false} SltuCase(w: Word32, x: Word, y: Word)
    requires Lookup(w) == Reg(SLTU)
    ensures RegValue(SLTU, Sext32(w), x, y) == Isa.RegResult(SLTU, x, y) <==> !StrictlyApart(x, Rs2Of(w), y)
  {
    IImmAgrees(w);
    SltuImmediate(w);
    SltuAgreesIff(Sext32(w), x, y);
  }

  lemma {:induction false} ImmStep(m: Machine, w: Word32, i: ImmOp, h: Host)
    requires Regular(m)
    ensures SameStep(m, w, Imm(i), h)
  {
    hide ImmValue, Isa.ImmResult, IImm, Rd, Rs1, Rs2;
    FieldsAgree(w);
    IImmAgrees(w);
    RangesI(w);
    GetAgrees(m, Rs1Of(w));
    var b, x := Sext32(w), m.regs[Rs1Of(w)];
    ImmAgrees(i, b, x);
    WriteAgrees(m, RdOf(w), ImmValue(i, b, x), Isa.ImmResult(i, ImmI(w), x), At(m.pc, 4));
  }

  lemma {:induction false} RegWordStep(m: Machine, w: Word32, rw: RegWordOp, h: Host)
    requires Regular(m)
    ensures SameStep(m, w, RegW(rw), h) <==> Conforms(m, w, RegW(rw))
  {
    hide RegWordValue, Isa.RegWordResult, SllwFits, Rd, Rs1, Rs2;
    FieldsAgree(w);
    GetAgrees(m, Rs1Of(w));
    GetAgrees(m, Rs2Of(w));
    var x, y := m.regs[Rs1Of(w)], m.regs[Rs2Of(w)];
    WriteAgrees(m, RdOf(w), RegWordValue(rw, x, y), Isa.RegWordResult(rw, x, y), At(m.pc, 4));
    if rw == SLLW {
      SllwAgreesIff(x, y);
    } else {
      RegWordAgrees(rw, x, y);
    }
  }

  lemma {:induction false} ImmWordStep(m: Machine, w: Word32, iw: ImmWordOp, h: Host)
    requires Regular(m) && Lookup(w) == ImmW(iw)
    ensures SameStep(m, w, ImmW(iw), h)
  {
    hide ImmWordValue, Isa.ImmWordResult, IImm, Rd, Rs1, Rs2;
    FieldsAgree(w);
    IImmAgrees(w);
    RangesI(w);
    GetAgrees(m, Rs1Of(w));
    var b, x := Sext32(w), m.regs[Rs1Of(w)];
    if iw != ADDIW {
      ShortShifts(w, iw);
    }
    ImmWordAgrees(iw, b, x);
    WriteAgrees(m, RdOf(w), ImmWordValue(iw, b, x), Isa.ImmWordResult(iw, ImmI(w), x), At(m.pc, 4));
  }

  lemma {:induction false} MulStep(m: Machine, w: Word32, mu: MulOp, h: Host)
    requires Regular(m)
    ensures SameStep(m, w, Mul(mu), h)
  {
    hide MulValue, Isa.MulResult, Rd, Rs1, Rs2;
    FieldsAgree(w);
    GetAgrees(m, Rs1Of(w));
    GetAgrees(m, Rs2Of(w));
    var x, y := m.regs[Rs1Of(w)], m.regs[Rs2Of(w)];
    MulAgrees(mu, x, y);
    WriteAgrees(m, RdOf(w), MulValue(mu, x, y), Isa.MulResult(mu, x, y), At(m.pc, 4));
  }

  lemma {:induction false} MulWordStep(m: Machine, w: Word32, mw: MulWordOp, h: Host)
    requires Regular(m)
    ensures SameStep(m, w, MulW(mw), h)
  {
    hide MulWordValue, Isa.MulWordResult, Rd, Rs1, Rs2;
    FieldsAgree(w);
    GetAgrees(m, Rs1Of(w));
    GetAgrees(m, Rs2Of(w));
    var x, y := m.regs[Rs1Of(w)], m.regs[Rs2Of(w)];
    MulWordAgrees(mw, x, y);
    WriteAgrees(m, RdOf(w), MulWordValue(mw, x, y), Isa.MulWordResult(mw, x, y), At(m.pc, 4));
  }

  lemma {:induction false} LuiStep(m: Machine, w: Word32, h: Host)
    requires Regular(m)
    ensures SameStep(m, w, LUI, h)
  {
    hide UImm, ImmU, Rd, Rs1, Rs2;
    FieldsAgree(w);
    UImmAgrees(w);
    WriteAgrees(m, RdOf(w), Wrap(ImmU(w)), Wrap(ImmU(w)), At(m.pc, 4));
  }

  lemma {:induction false} AuipcStep(m: Machine, w: Word32, h: Host)
    requires Regular(m)
    ensures SameStep(m, w, AUIPC, h)
  {
    hide UImm, ImmU, Rd, Rs1, Rs2;
    FieldsAgree(w);
    UImmAgrees(w);
    WriteAgrees(m, RdOf(w), At(m.pc, ImmU(w)), At(m.pc, ImmU(w)), At(m.pc, 4));
  }

  lemma {:induction false} JalStep(m: Machine, w: Word32, h: Host)
    requires Regular(m)
    ensures SameStep(m, w, JAL, h)
  {
    hide UjImm, ImmJ, SetPc, Isa.Jump, Rd, Rs1, Rs2;
    FieldsAgree(w);
    UjImmAgrees(w);
    RangesJ(w);
    var t, link := At(m.pc, ImmJ(w)), At(m.pc, 4);
    EvenSum(m.pc, ImmJ(w));
    WriteAgrees(m, RdOf(w), link, link, t);
    JumpAgrees(m, t, WriteReg(m.regs, RdOf(w), link), Isa.SetX(Abs(m), RdOf(w), link, t));
  }

  lemma {:induction false} JalrStep(m: Machine, w: Word32, h: Host)
    requires Regular(m)
    ensures SameStep(m, w, JALR, h)
  {
    hide IImm, ImmI, SetPc, Isa.Jump, Rd, Rs1, Rs2;
    FieldsAgree(w);
    IImmAgrees(w);
    GetAgrees(m, Rs1Of(w));
    var sum, link := At(m.regs[Rs1Of(w)], ImmI(w)), At(m.pc, 4);
    ClearBit0(sum);
    var t := sum / 2 * 2;
    WriteAgrees(m, RdOf(w), link, link, t);
    JumpAgrees(m, t, WriteReg(m.regs, RdOf(w), link), Isa.SetX(Abs(m), RdOf(w), link, t));
  }

  lemma {:induction false} BranchStep(m: Machine, w: Word32, br: BranchOp, h: Host)
    requires Regular(m)
    ensures SameStep(m, w, Branch(br), h)
  {
    hide SbImm, ImmB, SetPc, Isa.Jump, Rd, Rs1, Rs2;
    FieldsAgree(w);
    SbImmAgrees(w);
    RangesB(w);
    GetAgrees(m, Rs1Of(w));
    GetAgrees(m, Rs2Of(w));
    var t := At(m.pc, ImmB(w));
    EvenSum(m.pc, ImmB(w));
    JumpAgrees(m, t, m.regs, Abs(m).(pc := t));
  }

  lemma {:induction false} FenceStep(m: Machine, w: Word32, h: Host)
    requires Regular(m)
    ensures SameStep(m, w, FENCE, h)
  {
  }

  lemma {:induction false} LoadValueAgrees(l: LoadOp, bs: seq<Byte>)
    requires |bs| == LoadWidth(l)
    ensures Widen(bs, LoadSigned(l), LoadWidth(l)) == Isa.LoadResult(l, bs)
  {
    hide LittleEndian, Wrap, Pow2;
    assert Pow2(8) == 0x100 && Pow2(16) == 0x1_0000 && Pow2(32) == 0x1_0000_0000
        && Pow2(64) == 0x1_0000_0000_0000_0000 by {
      Pow2Values();
    }
    LittleEndianBound(bs);
    var v := LittleEndian(bs);
    SmallWrap(v);
    if LoadSigned(l) && !l.LD? {
      ExtendIsSigned(v, LoadWidth(l), Pow2(8 * LoadWidth(l)));
    }
  }

  lemma {:induction false} ExtendIsSigned(v: Word, n: int, m: int)
    requires (n == 1 && m == 0x100) || (n == 2 && m == 0x1_0000) || (n == 4 && m == 0x1_0000_0000)
    requires v < m
    ensures Extend(v, true, n) == Wrap(TwosComplement(v, m))
  {
    hide Wrap;
    SmallWrap(v);
  }

  lemma {:induction false} MappedLoad(mem: Mem, a: Word, l: LoadOp)
    requires Mapped(mem, a, LoadWidth(l))
    ensures LoadWidth(l) == Isa.Bytes(l)
    ensures Load(mem, a, LoadSigned(l), LoadWidth(l)) == Isa.LoadResult(l, Slice(mem, a, LoadWidth(l)))
  {
    PresentMapped(mem, a, LoadWidth(l));
    LoadValueAgrees(l, Slice(mem, a, LoadWidth(l)));
  }

  /** A load from a fully mapped range gives the specified value; from any other it should trap and does not. */
  lemma {:induction false} LoadStep(m: Machine, w: Word32, l: LoadOp, h: Host)
    requires Regular(m)
    ensures SameStep(m, w, Loads(l), h) <==> Conforms(m, w, Loads(l))
  {
    hide IImm, ImmI, Load, Slice, Isa.LoadResult, Rd, Rs1, Rs2;
    FieldsAgree(w);
    IImmAgrees(w);
    GetAgrees(m, Rs1Of(w));
    var a := At(m.regs[Rs1Of(w)], ImmI(w));
    if Mapped(m.mem, a, LoadWidth(l)) {
      MappedLoad(m.mem, a, l);
      WriteAgrees(m, RdOf(w), Load(m.mem, a, LoadSigned(l), LoadWidth(l)),
                  Isa.LoadResult(l, Slice(m.mem, a, LoadWidth(l))), At(m.pc, 4));
    }
  }

  lemma {:induction false} EndsAreInside(forbid: Intervals, a: Word, n: int)
    requires Width(n) && !Accepts(forbid, a, n)
    ensures Isa.Protected(forbid, a, n)
  {
    assert At(a, 0) == a;
    assert Banned(forbid, At(a, 0)) || Banned(forbid, At(a, n - 1));
  }

  /** A store that touches a protected byte must trap; the test on its two ends may miss an inner one. */
  lemma {:induction false} StoreStep(m: Machine, w: Word32, s: StoreOp, h: Host)
    requires Regular(m)
    ensures SameStep(m, w, Stores(s), h) <==> Conforms(m, w, Stores(s))
  {
    hide SImm, ImmS, Rd, Rs1, Rs2;
    FieldsAgree(w);
    SImmAgrees(w);
    GetAgrees(m, Rs1Of(w));
    GetAgrees(m, Rs2Of(w));
    var a := At(m.regs[Rs1Of(w)], ImmS(w));
    if !Accepts(m.forbid, a, StoreWidth(s)) {
      EndsAreInside(m.forbid, a, StoreWidth(s));
    }
  }

  // ----- system calls -----

  lemma {:induction false} PutPermitted(mem: Mem, forbid: Intervals, a: Word, bs: seq<Byte>)
    ensures var k := Environment.Permitted(forbid, a, |bs|);
      Put(mem, forbid, a, bs) == (Store(mem, a, bs[..k]), if k == |bs| then Done else NoPermission(At(a, k), At(a, k)))
  {
    var k := Environment.Permitted(forbid, a, |bs|);
    forall i | 0 <= i < |bs|
      ensures Accepts(forbid, At(a, i), 1) <==> !Banned(forbid, At(a, i))
    {
      AtAhead(At(a, i), 0);
    }
    if k == |bs| {
      assert bs[..k] == bs;
      PutAll(mem, forbid, a, bs);
    } else {
      PutRefused(mem, forbid, a, bs, k);
    }
  }

  lemma {:induction false} ReadCallAgrees(m: Machine, h: Host)
    requires Regular(m)
    ensures Agrees(ExecRead(m, h), Environment.Read(Abs(m), h))
  {
    hide Put, Store, Received;
    GetAgrees(m, 11);
    GetAgrees(m, 12);
    var bs := if h.failed then [] else Received(h.input, m.regs[12]);
    PutPermitted(m.mem, m.forbid, m.regs[11], bs);
    SmallWrap(|bs|);
    var v := if h.failed then Wrap(-1) else |bs|;
    WriteAgrees(m.(mem := Put(m.mem, m.forbid, m.regs[11], bs).0), 10, v, v, At(m.pc, 4));
  }

  lemma {:induction false} CollectIsZeroFilled(mem: Mem, a: Word, n: nat)
    ensures Collect(mem, a, n) == ZeroFilled(mem, a, n)
  {
    forall i | 0 <= i < n
      ensures ByteAt(mem, At(a, i)) == if At(a, i) in mem then mem[At(a, i)] else 0
    {
      if At(a, i) in mem {
        MappedByte(mem, At(a, i));
      } else {
        AtAhead(At(a, i), 0);
        assert Present(mem, At(a, i), 0) == [] && Present(mem, At(a, i), 1) == [];
      }
    }
  }

  lemma {:induction false} WriteCallAgrees(m: Machine, h: Host)
    requires Regular(m) && m.regs[17] == 64
    ensures Agrees(ExecCall(m, h), Environment.Write(Abs(m), h))
  {
    hide Collect, ZeroFilled;
    GetAgrees(m, 11);
    GetAgrees(m, 12);
    CollectIsZeroFilled(m.mem, m.regs[11], m.regs[12]);
    var sent := Collect(m.mem, m.regs[11], m.regs[12]);
    WriteAgrees(m.(out := m.out + [sent]), 10, h.result, h.result, At(m.pc, 4));
  }

  lemma {:induction false} TimeCallAgreesIff(m: Machine, h: Host)
    requires Regular(m)
    ensures Agrees(ExecClock(m, h), Environment.TimeOfDay(Abs(m), h)) <==>
      !Accepts(m.forbid, m.regs[10], 8) || !Isa.Protected(m.forbid, m.regs[10], 8)
  {
    hide Store, ToBytes, Accepts, Isa.Protected;
    GetAgrees(m, 10);
    var a := m.regs[10];
    if !Accepts(m.forbid, a, 8) {
      EndsAreInside(m.forbid, a, 8);
      WriteAgrees(m, 10, h.result, h.result, m.pc);
    } else {
      WriteAgrees(m.(mem := Store(m.mem, a, ToBytes(h.clock, 8))), 10, h.result, h.result, At(m.pc, 4));
    }
  }

  /** A system call does what is specified, save that the time of day can be stored across a protected byte. */
  lemma {:induction false} CallStep(m: Machine, w: Word32, h: Host)
    requires Regular(m)
    ensures SameStep(m, w, SCALL, h) <==> Conforms(m, w, SCALL)
  {
    hide ExecRead, ExecClock, Collect, Environment.Read, Environment.Write, Environment.TimeOfDay,
         Accepts, Isa.Protected;
    GetAgrees(m, 17);
    match m.regs[17]
    case 63 => ReadCallAgrees(m, h);
    case 64 => WriteCallAgrees(m, h);
    case 169 => TimeCallAgreesIff(m, h);
    case _ => WriteAgrees(m, 10, h.result, h.result, At(m.pc, 4));
  }

  lemma {:induction false} ExecAgreesIff(m: Machine, w: Word32, h: Host)
    requires Regular(m) && !Lookup(w).FP?
    ensures SameStep(m, w, Lookup(w), h) <==> Conforms(m, w, Lookup(w))
  {
    match Lookup(w)
    case Reg(r) =>
      if r == SLTU {
        SltuStep(m, w, h);
      } else {
        RegStep(m, w, r, h);
      }
    case Imm(i) => ImmStep(m, w, i, h);
    case RegW(rw) => RegWordStep(m, w, rw, h);
    case ImmW(iw) => ImmWordStep(m, w, iw, h);
    case Mul(mu) => MulStep(m, w, mu, h);
    case MulW(mw) => MulWordStep(m, w, mw, h);
    case Branch(br) => BranchStep(m, w, br, h);
    case Loads(l) => LoadStep(m, w, l, h);
    case Stores(s) => StoreStep(m, w, s, h);
    case LUI => LuiStep(m, w, h);
    case AUIPC => AuipcStep(m, w, h);
    case JAL => JalStep(m, w, h);
    case JALR => JalrStep(m, w, h);
    case FENCE => FenceStep(m, w, h);
    case SCALL => CallStep(m, w, h);
    case ILLEGAL =>
  }

  // ----- one step -----

  /** Not fetched, or decoded as anything but a floating-point instruction. */
  predicate Integer(m: Machine) {
    Mapped(m.mem, m.pc, 4) ==> !Lookup(Isa.WordAt(m.mem, m.pc)).FP?
  }

  /** What must hold before a step for it to be the specified one. */
  predicate Faithful(m: Machine)
    requires WellFormed(m)
  {
    Mapped(m.mem, m.pc, 4) ==>
      var w := Isa.WordAt(m.mem, m.pc); Conforms(m, w, Lookup(w))
  }

  /** A step of the simulator is the specified step exactly when the deviations listed in `Conforms` do not arise. */
  lemma {:induction false} StepAgreesIff(m: Machine, h: Host)
    requires Regular(m) && Integer(m)
    ensures Agrees(Step(m, h), Environment.Step(Abs(m), h)) <==> Faithful(m)
  {
    hide Exec, Isa.Execute, Conforms, FetchAt, Isa.WordAt, Sext32, Zext32, Lookup;
    FetchAgrees(m);
    if Mapped(m.mem, m.pc, 4) {
      var w := Isa.WordAt(m.mem, m.pc);
      LowOfSext(w);
      ConformsCounted(m, Bump(m.counts, Lookup(w)), w, Lookup(w));
      ExecAgreesIff(m.(counts := Bump(m.counts, Lookup(w))), w, h);
    }
  }

  /** The counters play no part in whether an instruction is executed as specified. */
  lemma {:induction false} ConformsCounted(m: Machine, counts: map<Op, nat>, w: Word32, op: Op)
    requires WellFormed(m)
    ensures Conforms(m.(counts := counts), w, op) <==> Conforms(m, w, op)
  {
  }

  /** Steps keep the states regular, whatever they execute. */
  lemma {:induction false} StepKeepsRegular(m: Machine, h: Host)
    requires Regular(m)
    ensures Step(m, h).Running? ==> Regular(Step(m, h).m)
  {
    FetchAgrees(m);
    if !Mapped(m.mem, m.pc, 4) {
      return;
    }
    var w := Isa.WordAt(m.mem, m.pc);
    LowOfSext(w);
    var counted := m.(counts := Bump(m.counts, Lookup(w)));
    ExecKeepsAligned(counted, Lookup(w), w, h);
  }

  lemma {:induction false} ExecKeepsAligned(m: Machine, op: Op, w: Word32, h: Host)
    requires Regular(m)
    ensures Exec(m, op, Sext32(w), h).Running? ==> Exec(m, op, Sext32(w), h).m.pc % 4 == 0
  {
    hide Rd, Rs1, Rs2, IImm, SbImm, UjImm, ImmI, ImmB, ImmJ, And, At;
    NextAligned(m.pc);
    match op
    case JAL =>
      UjImmAgrees(w);
      RangesJ(w);
      LandsAligned(m.pc, ImmJ(w));
    case JALR =>
      ClearedTarget(At(m.regs[Rs1(Sext32(w))], IImm(Sext32(w))));
    case Branch(br) =>
      SbImmAgrees(w);
      RangesB(w);
      LandsAligned(m.pc, ImmB(w));
    case _ =>
  }

  lemma {:induction false} ClearedTarget(sum: Word)
    ensures And(And(sum, Not(1)), 2) == 0 ==> And(sum, Not(1)) % 4 == 0
  {
    hide And, Not;
    ClearBit0(sum);
    TargetTest(sum / 2 * 2);
  }

  lemma {:induction false} NextAligned(pc: Word)
    requires pc % 4 == 0
    ensures At(pc, 4) % 4 == 0
  {
    WrapMod4(pc + 4);
  }

  lemma {:induction false} LandsAligned(pc: Word, d: int)
    requires pc % 4 == 0 && d % 2 == 0
    ensures And(At(pc, d), 2) == 0 ==> At(pc, d) % 4 == 0
  {
    EvenSum(pc, d);
    TargetTest(At(pc, d));
  }

  // ----- whole runs -----

  /** Every state the run passes through is an integer state in which the deviations do not arise. */
  predicate FaithfulRun(m: Machine, hs: seq<Host>)
    requires WellFormed(m)
    decreases |hs|
  {
    hs == [] || (Integer(m) && Faithful(m) && (Step(m, hs[0]).Running? ==> FaithfulRun(Step(m, hs[0]).m, hs[1..])))
  }

  /** Along such a run the simulator and the reference machine stay in step, up to and including a trap. */
  lemma {:induction false} RunRefines(m: Machine, hs: seq<Host>)
    requires Regular(m) && FaithfulRun(m, hs)
    ensures Agrees(Run(m, hs), Environment.Run(Abs(m), hs))
    decreases |hs|
  {
    hide Step, Environment.Step, Faithful, Integer;
    if hs != [] {
      StepAgreesIff(m, hs[0]);
      if Step(m, hs[0]).Running? {
        StepKeepsRegular(m, hs[0]);
        RunRefines(Step(m, hs[0]).m, hs[1..]);
      }
    }
  }

  /** Every state the run passes through is an integer state. */
  predicate IntegerRun(m: Machine, hs: seq<Host>)
    requires WellFormed(m)
    decreases |hs|
  {
    hs == [] || (Integer(m) && (Step(m, hs[0]).Running? ==> IntegerRun(Step(m, hs[0]).m, hs[1..])))
  }

  /** After any number of steps the two machines are in the same place. */
  ghost predicate Lockstep(m: Machine, hs: seq<Host>)
    requires WellFormed(m)
  {
    forall n | 0 <= n <= |hs| :: Agrees(Run(m, hs[..n]), Environment.Run(Abs(m), hs[..n]))
  }

  /** The machines stay in step exactly as long as no deviation arises. */
  lemma {:induction false} LockstepIff(m: Machine, hs: seq<Host>)
    requires Regular(m) && IntegerRun(m, hs)
    ensures Lockstep(m, hs) <==> FaithfulRun(m, hs)
    decreases |hs|
  {
    hide Step, Environment.Step, Agrees, Faithful, Integer, Lockstep;
    if hs == [] {
      NoSteps(m);
    } else {
      StepAgreesIff(m, hs[0]);
      FirstStep(m, hs);
      if Agrees(Step(m, hs[0]), Environment.Step(Abs(m), hs[0])) && Step(m, hs[0]).Running? {
        StepKeepsRegular(m, hs[0]);
        LockstepIff(Step(m, hs[0]).m, hs[1..]);
      }
    }
  }

  lemma {:induction false} NoSteps(m: Machine)
    requires WellFormed(m)
    ensures Lockstep(m, [])
  {
  }

  /** Being in step is agreeing on the first step and being in step after it. */
  lemma {:induction false} FirstStep(m: Machine, hs: seq<Host>)
    requires WellFormed(m) && hs != []
    ensures Lockstep(m, hs) <==>
      && Agrees(Step(m, hs[0]), Environment.Step(Abs(m), hs[0]))
      && (Step(m, hs[0]).Running? ==> Lockstep(Step(m, hs[0]).m, hs[1..]))
  {
    hide Step, Environment.Step, Abs;
    var o, r := Step(m, hs[0]), Environment.Step(Abs(m), hs[0]);
    forall n | 0 <= n < |hs|
      ensures Run(m, hs[..n + 1]) == if o.Running? then Run(o.m, hs[1..][..n]) else o
      ensures Environment.Run(Abs(m), hs[..n + 1]) == if r.Next? then Environment.Run(r.s, hs[1..][..n]) else r
    {
      assert hs[..n + 1][0] == hs[0] && hs[..n + 1][1..] == hs[1..][..n];
    }
    assert Agrees(Run(m, hs[..0]), Environment.Run(Abs(m), hs[..0]));
    if Agrees(o, r) {
      if Lockstep(m, hs) && o.Running? {
        forall n | 0 <= n <= |hs[1..]|
          ensures Agrees(Run(o.m, hs[1..][..n]), Environment.Run(Abs(o.m), hs[1..][..n]))
        {
          assert Agrees(Run(m, hs[..n + 1]), Environment.Run(Abs(m), hs[..n + 1]));
        }
      }
      if o.Running? ==> Lockstep(o.m, hs[1..]) {
        forall n | 0 <= n <= |hs|
          ensures Agrees(Run(m, hs[..n]), Environment.Run(Abs(m), hs[..n]))
        {
          if n > 0 {
            var k := n - 1;
            assert o.Running? ==> Agrees(Run(o.m, hs[1..][..k]), Environment.Run(Abs(o.m), hs[1..][..k]));
            assert Agrees(Run(m, hs[..k + 1]), Environment.Run(Abs(m), hs[..k + 1]));
          }
        }
      }
    } else {
      OneStepEach(m, hs);
    }
  }

  lemma {:induction false} OneStepEach(m: Machine, hs: seq<Host>)
    requires WellFormed(m) && hs != []
    ensures Run(m, hs[..1]) == Step(m, hs[0])
    ensures Environment.Run(Abs(m), hs[..1]) == Environment.Step(Abs(m), hs[0])
  {
    hide Step, Environment.Step;
    assert hs[..1][1..] == [];
  }
}

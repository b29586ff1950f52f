/**
Where the simulator departs from the reference machine: what it does instead, in
every state, and a concrete step for each. `Refinement.StepAgreesIff` says that
there are no other departures.
*/
module Deviations {
  import opened Words
  import opened Memory
  import opened HostSystem
  import opened MemoryLaws
  import opened Formats
  import opened Encodings
  import opened Instruction
  import opened InstructionMeaning
  import opened OpcodeMap
  import opened Simulator
  import opened Refinement
  import opened Programs
  import Isa
  import Environment
  import HandlerMeaning
  import Loader

  // ----- what is done instead -----

  /** `sltu` tells whether the first register is below the number of the second. */
  lemma {:induction false} SltuAsCoded(m: Machine, h: Host, w: Word32)
    requires WellFormed(m) && Holds(m.mem, m.pc, w) && Lookup(w) == Reg(SLTU)
    ensures Step(m, h) == Running(Wrote(m, RdOf(w), if m.regs[Rs1Of(w)] < Rs2Of(w) then 1 else 0, Reg(SLTU)))
  {
    hide Step, Lookup, Holds, Bump, IImm, ImmI, Rd, Rs1, Rs2, RdOf, Rs1Of, Rs2Of, Sext32;
    StepOf(m, h, w);
    FieldsAgree(w);
    IImmAgrees(w);
    SltuImmediate(w);
    SmallWrap(Rs2Of(w));
  }

  /** `sllw` shifts all 64 bits by the low six bits of the second register. */
  lemma {:induction false} SllwAsCoded(m: Machine, h: Host, w: Word32)
    requires WellFormed(m) && Holds(m.mem, m.pc, w) && Lookup(w) == RegW(SLLW)
    ensures var x, n := m.regs[Rs1Of(w)], m.regs[Rs2Of(w)] % 64;
      Step(m, h) == Running(Wrote(m, RdOf(w), Wrap(x * Pow2(n)), RegW(SLLW)))
  {
    hide Step, Lookup, Holds, Bump, Rd, Rs1, Rs2, RdOf, Rs1Of, Rs2Of, Sext32, And, Shl, Pow2, Wrap;
    StepOf(m, h, w);
    FieldsAgree(w);
    HandlerMeaning.ShiftAmount(m.regs[Rs2Of(w)]);
    HandlerMeaning.ShlMeaning(m.regs[Rs1Of(w)], m.regs[Rs2Of(w)] % 64);
  }

  /** The value of a load of the bytes that are there: signed at the full width, or unsigned. */
  function ClosedUp(mem: Mem, a: Word, n: nat, sign: bool): Word {
    var v := LittleEndian(Present(mem, a, n));
    Wrap(if sign then TwosComplement(v, Pow2(8 * n)) else v)
  }

  /** No load traps: what is unmapped is left out, and the sign is that of the full width. */
  lemma {:induction false} LoadAsCoded(m: Machine, h: Host, w: Word32, l: LoadOp)
    requires WellFormed(m) && Holds(m.mem, m.pc, w) && Lookup(w) == Loads(l)
    ensures var a := At(m.regs[Rs1Of(w)], ImmI(w)); var sign := l == LB || l == LH || l == LW || l == LD;
      Step(m, h) == Running(Wrote(m, RdOf(w), ClosedUp(m.mem, a, Isa.Bytes(l), sign), Loads(l)))
  {
    hide Step, Lookup, Holds, Bump, IImm, ImmI, Rd, Rs1, Rs2, RdOf, Rs1Of, Rs2Of, Sext32, Load, Present, LittleEndian,
         Pow2, Wrap, At, TwosComplement;
    StepOf(m, h, w);
    FieldsAgree(w);
    IImmAgrees(w);
    var a := At(m.regs[Rs1Of(w)], ImmI(w));
    LoadMeaning(m.mem, a, Isa.Bytes(l));
    SmallWrap(LittleEndian(Present(m.mem, a, Isa.Bytes(l))));
  }

  /** A store of n bytes whose two ends are free is done in full; any other traps, naming the two ends. */
  lemma {:induction false} StoreAsCoded(m: Machine, h: Host, w: Word32, s: StoreOp)
    requires WellFormed(m) && Holds(m.mem, m.pc, w) && Lookup(w) == Stores(s)
    ensures var a, n := At(m.regs[Rs1Of(w)], ImmS(w)), Isa.StoreBytes(s);
      var last, counted := At(a, n - 1), m.(counts := Bump(m.counts, Stores(s)));
      Step(m, h) == if Banned(m.forbid, a) || Banned(m.forbid, last) then Raised(counted, Refused(a, last))
                    else Running(counted.(pc := At(m.pc, 4), mem := Store(m.mem, a, ToBytes(m.regs[Rs2Of(w)], n))))
  {
    hide Step, Lookup, Holds, Bump, SImm, ImmS, Rd, Rs1, Rs2, RdOf, Rs1Of, Rs2Of, Sext32, Store, ToBytes, Banned, At;
    StepOf(m, h, w);
    FieldsAgree(w);
    SImmAgrees(w);
  }

  /** The time-of-day call sets the result register, then stores eight bytes under the same test. */
  lemma {:induction false} TimeAsCoded(m: Machine, h: Host)
    requires WellFormed(m) && m.regs[17] == 169
    ensures var a, last := m.regs[10], At(m.regs[10], 7);
      var set_ := m.(regs := WriteReg(m.regs, 10, h.result));
      ExecCall(m, h) == if Banned(m.forbid, a) || Banned(m.forbid, last) then Raised(set_, Refused(a, last))
                        else Running(set_.(pc := At(m.pc, 4), mem := Store(m.mem, a, ToBytes(h.clock, 8))))
  {
    hide Store, ToBytes, Banned, At;
  }

  /** Every word that is no instruction sends the machine to address 0, whatever the state, instead of trapping. */
  lemma {:induction false} IllegalGoesToZero(m: Machine, h: Host, w: Word32)
    requires WellFormed(m) && Holds(m.mem, m.pc, w) && Lookup(w) == ILLEGAL
    ensures Step(m, h) == Running(m.(pc := 0, counts := Bump(m.counts, ILLEGAL)))
    ensures Environment.Step(Abs(m), h)
         == Isa.Fault(Abs(m), if w == 0x0010_0073 then Isa.Breakpoint else Isa.IllegalInstruction)
  {
    hide Lookup, Bump, Sext32;
    StepOf(m, h, w);
  }

  /** A failed fetch traps with the program counter and the first unmapped address, and changes nothing. */
  lemma {:induction false} FetchTraps(m: Machine, h: Host, i: nat)
    requires WellFormed(m) && i < 4 && Mapped(m.mem, m.pc, i) && At(m.pc, i) !in m.mem
    ensures Step(m, h) == Raised(m, InvalidAddress(m.pc, At(m.pc, i)))
  {
    FetchIsLoad(m.mem, m.pc);
    FirstUnmapped(m.mem, m.pc, i);
  }

  lemma {:induction false} FirstUnmapped(mem: Mem, pc: Word, i: nat)
    requires i < 4 && Mapped(mem, pc, i) && At(pc, i) !in mem
    ensures FetchAt(mem, pc) == Unmapped(At(pc, i))
  {
    hide Load;
    AtAhead(pc, 0);
    assert i > 0 ==> At(pc, 0) in mem;
    assert i > 1 ==> At(pc, 1) in mem;
    assert i > 2 ==> At(pc, 2) in mem;
  }

  /** A floating-point instruction is counted and ends the modelled run. */
  lemma {:induction false} FloatEnds(m: Machine, h: Host, w: Word32, f: FloatOp)
    requires WellFormed(m) && Holds(m.mem, m.pc, w) && Lookup(w) == FP(f)
    ensures Step(m, h) == FloatingPoint(m.(counts := Bump(m.counts, FP(f))), f)
  {
    hide Lookup, Bump, Sext32;
    StepOf(m, h, w);
  }

  // ----- a concrete step for each -----

  // sltu x3,x1,x2   sllw x3,x1,x2   lh x3,0(x1)   sd x2,0(x1)   sb x2,0(x1)   ecall

  const SLTU_WORD: Word32 := 0x0020_B1B3
  const SLLW_WORD: Word32 := 0x0020_91BB
  const LH_WORD: Word32 := 0x0000_9183
  const SD_WORD: Word32 := 0x0020_B023
  const SB_WORD: Word32 := 0x0020_8023
  const CALL_WORD: Word32 := 0x73

  lemma {:induction false} SltuDecodes()
    ensures Lookup(SLTU_WORD) == Reg(SLTU)
    ensures Rs1Of(SLTU_WORD) == 1 && Rs2Of(SLTU_WORD) == 2 && RdOf(SLTU_WORD) == 3
  {
  }

  lemma {:induction false} SllwDecodes()
    ensures Lookup(SLLW_WORD) == RegW(SLLW)
    ensures Rs1Of(SLLW_WORD) == 1 && Rs2Of(SLLW_WORD) == 2 && RdOf(SLLW_WORD) == 3
  {
  }

  lemma {:induction false} LoadDecodes()
    ensures Lookup(LH_WORD) == Loads(LH) && Rs1Of(LH_WORD) == 1 && ImmI(LH_WORD) == 0
  {
  }

  lemma {:induction false} StoresDecode()
    ensures Lookup(SB_WORD) == Stores(SB) && Rs1Of(SB_WORD) == 1 && ImmS(SB_WORD) == 0
    ensures Lookup(SD_WORD) == Stores(SD) && Rs1Of(SD_WORD) == 1 && ImmS(SD_WORD) == 0
  {
  }

  lemma {:induction false} CallDecodes()
    ensures Lookup(CALL_WORD) == SCALL
  {
  }

  lemma {:induction false} ZeroIsIllegal()
    ensures Lookup(0) == ILLEGAL
  {
  }

  lemma {:induction false} NotConforming(m: Machine, h: Host, w: Word32)
    requires Regular(m) && Holds(m.mem, m.pc, w)
    requires !Lookup(w).FP? && !Conforms(m, w, Lookup(w))
    ensures !Agrees(Step(m, h), Environment.Step(Abs(m), h))
  {
    hide Step, Environment.Step, Conforms, Lookup, Agrees;
    StepAgreesIff(m, h);
  }

  /** 5 < 7, but 5 is compared with 2, the number of the second register. */
  lemma {:induction false} SltuDiffers(m: Machine, h: Host)
    requires Regular(m) && Holds(m.mem, m.pc, SLTU_WORD) && m.regs[1] == 5 && m.regs[2] == 7
    ensures !Agrees(Step(m, h), Environment.Step(Abs(m), h))
  {
    hide Step, Environment.Step, Agrees, Holds, Lookup;
    SltuDecodes();
    NotConforming(m, h, SLTU_WORD);
  }

  lemma {:induction false} OneShiftedOut()
    ensures !HandlerMeaning.SllwFits(1, 32)
  {
    hide Pow2;
    Pow2Values();
  }

  /** Shifting 1 left by 32 gives 2^32 where the amount should have been cut to 0. */
  lemma {:induction false} SllwDiffers(m: Machine, h: Host)
    requires Regular(m) && Holds(m.mem, m.pc, SLLW_WORD) && m.regs[1] == 1 && m.regs[2] == 32
    ensures !Agrees(Step(m, h), Environment.Step(Abs(m), h))
  {
    hide Step, Environment.Step, Agrees, Holds, Lookup, HandlerMeaning.SllwFits;
    SllwDecodes();
    OneShiftedOut();
    NotConforming(m, h, SLLW_WORD);
  }

  /** A half-word whose low byte is unmapped is loaded without a trap, and its high byte counts as the low one. */
  lemma {:induction false} LoadOfGap(m: Machine, h: Host)
    requires Regular(m) && Holds(m.mem, m.pc, LH_WORD)
    requires m.regs[1] !in m.mem && At(m.regs[1], 1) in m.mem && m.mem[At(m.regs[1], 1)] == 7
    ensures !Agrees(Step(m, h), Environment.Step(Abs(m), h))
    ensures Load(m.mem, m.regs[1], true, 2) == 7
  {
    hide Step, Environment.Step, Agrees, Holds, Lookup;
    LoadDecodes();
    var a := m.regs[1];
    assert At(a, 0) == a;
    NotConforming(m, h, LH_WORD);
    assert Present(m.mem, a, 0) == [];
    assert Present(m.mem, a, 1) == [];
    assert Present(m.mem, a, 2) == [7];
    assert LittleEndian([7]) == 7;
  }

  lemma {:induction false} StepBack(a: Word)
    ensures At(a, 0) == a && At(At(a, 1), -1) == a
  {
  }

  lemma {:induction false} Straddles(forbid: Intervals, a: Word, lo: Word)
    requires forbid == map[lo := lo] && At(a, 1) == lo
    ensures Accepts(forbid, At(a, 0), 8) && Isa.Protected(forbid, At(a, 0), 8)
  {
    hide At;
    StepBack(a);
    NarrowIntervalIsExposed(lo, lo, lo);
    assert lo in forbid && forbid[lo] == lo;
    assert Banned(forbid, At(a, 1));
  }

  /** A forbidden byte between the two ends of a store is overwritten. */
  lemma {:induction false} StoreAcross(m: Machine, h: Host, lo: Word)
    requires Regular(m) && Holds(m.mem, m.pc, SD_WORD) && m.forbid == map[lo := lo] && At(m.regs[1], 1) == lo
    ensures !Agrees(Step(m, h), Environment.Step(Abs(m), h))
  {
    hide Step, Environment.Step, Agrees, Holds, Lookup, Accepts, Isa.Protected, Wrap;
    StoresDecode();
    Straddles(m.forbid, m.regs[1], lo);
    NotConforming(m, h, SD_WORD);
  }

  /** The same can happen when the time of day is stored by a system call. */
  lemma {:induction false} TimeAcross(m: Machine, h: Host, lo: Word)
    requires Regular(m) && Holds(m.mem, m.pc, CALL_WORD) && m.forbid == map[lo := lo]
    requires m.regs[17] == 169 && At(m.regs[10], 1) == lo
    ensures !Agrees(Step(m, h), Environment.Step(Abs(m), h))
  {
    hide Step, Environment.Step, Agrees, Holds, Lookup, Accepts, Isa.Protected, Wrap;
    CallDecodes();
    StepBack(m.regs[10]);
    Straddles(m.forbid, m.regs[10], lo);
    NotConforming(m, h, CALL_WORD);
  }

  /** With eight read-only bytes loaded at 0x1000 a store to the byte after them traps, though no section holds it. */
  lemma {:induction false} StoreAfterSection(m: Machine, h: Host, none: Loader.Section, text: Loader.Section,
                                             rodata: Loader.Section)
    requires none.name == "" && text.name == ".text"
    requires rodata == Loader.Section(".rodata", Loader.Range(0x1000, [1, 2, 3, 4, 5, 6, 7, 8]))
    requires Loader.NamesFit([none, text, rodata])
    requires Regular(m) && Holds(m.mem, m.pc, SB_WORD) && m.regs[1] == 0x1008
    requires m.forbid == LoadedImage([none, text, rodata], []).forbid
    ensures Step(m, h) == Raised(m.(counts := Bump(m.counts, Stores(SB))), Refused(0x1008, 0x1008))
  {
    hide Lookup, Bump, Accepts, Loader.ReadElf, Loader.NamesFit, Holds, Step, SImm, ImmS, Rs1, Rs2, Rd;
    StoresDecode();
    Loader.NextByteRefused(none, text, rodata);
    StepOf(m, h, SB_WORD);
    SImmAgrees(SB_WORD);
    FieldsAgree(SB_WORD);
    AtAhead(0x1008, 0);
  }

  /** The zero word is one of them. */
  lemma {:induction false} ZeroGoesToZero(m: Machine, h: Host)
    requires WellFormed(m) && Holds(m.mem, m.pc, 0)
    ensures Step(m, h) == Running(m.(pc := 0, counts := Bump(m.counts, ILLEGAL)))
  {
    hide Lookup, Bump, Step, Holds;
    ZeroIsIllegal();
    IllegalGoesToZero(m, h, 0);
  }
}

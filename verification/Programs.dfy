/**
Short programs and loaded data: what fetching, decoding, executing and loading
give together.
*/
module Programs {
  import opened Words
  import opened Memory
  import opened HostSystem
  import opened MemoryLaws
  import opened Formats
  import opened Instruction
  import opened InstructionMeaning
  import opened Encodings
  import opened OpcodeMap
  import opened HandlerMeaning
  import opened Simulator
  import opened Refinement
  import opened Runs
  import Isa
  import Loader

  /** The word `w` is in memory at `pc`. */
  predicate Holds(mem: Mem, pc: Word, w: Word32) {
    Mapped(mem, pc, 4) && Isa.WordAt(mem, pc) == w
  }

  lemma {:induction false} StepOf(m: Machine, h: Host, w: Word32)
    requires WellFormed(m) && Holds(m.mem, m.pc, w)
    ensures Step(m, h) == Exec(m.(counts := Bump(m.counts, Lookup(w))), Lookup(w), Sext32(w), h)
  {
    hide Exec, Lookup, Sext32, Zext32;
    FetchAgrees(m);
    LowOfSext(w);
  }

  /** A step that only writes a register. */
  function Wrote(m: Machine, rd: Register, v: Word, op: Op): Machine
    requires WellFormed(m)
  {
    m.(pc := At(m.pc, 4), regs := WriteReg(m.regs, rd, v), counts := Bump(m.counts, op))
  }

  lemma {:induction false} UpperLookup(w: Word32)
    ensures Opcode(w) == 0x37 ==> Lookup(w) == LUI
    ensures Opcode(w) == 0x17 ==> Lookup(w) == AUIPC
  {
  }

  lemma {:induction false} UpperStep(m: Machine, h: Host, imm: int, rd: Register, op: Major)
    requires op == 0x37 || op == 0x17
    requires -0x8000_0000 <= imm < 0x8000_0000 && imm % 0x1000 == 0
    requires WellFormed(m) && Holds(m.mem, m.pc, EncodeU(imm, rd, op))
    ensures Step(m, h) == Running(if op == 0x37 then Wrote(m, rd, Wrap(imm), LUI)
                                  else Wrote(m, rd, Wrap(imm + m.pc), AUIPC))
  {
    hide EncodeU, Rd, Rs1, Rs2, UImm, ImmU, RdOf, Opcode, Lookup, Step, Holds, Bump, Sext32;
    var w := EncodeU(imm, rd, op);
    DecodeEncodeU(imm, rd, op);
    UpperLookup(w);
    StepOf(m, h, w);
    FieldsAgree(w);
    UImmAgrees(w);
  }

  lemma {:induction false} LowerLookup(w: Word32)
    requires Funct3(w) == 0
    ensures Opcode(w) == 0x1b ==> Lookup(w) == ImmW(ADDIW)
    ensures Opcode(w) == 0x13 ==> Lookup(w) == Imm(ADDI)
  {
  }

  lemma {:induction false} LowerStep(m: Machine, h: Host, imm: int, rd: Register, op: Major)
    requires op == 0x1b || op == 0x13
    requires -0x800 <= imm < 0x800
    requires WellFormed(m) && Holds(m.mem, m.pc, EncodeI(imm, rd, 0, rd, op))
    ensures Step(m, h) == Running(if op == 0x1b then Wrote(m, rd, Sext32(Wrap(imm + m.regs[rd])), ImmW(ADDIW))
                                  else Wrote(m, rd, Wrap(m.regs[rd] + imm), Imm(ADDI)))
  {
    hide EncodeI, Rd, Rs1, Rs2, IImm, ImmI, RdOf, Rs1Of, Opcode, Funct3, Lookup, Step, Holds, Bump, Sext32;
    var w := EncodeI(imm, rd, 0, rd, op);
    DecodeEncodeI(imm, rd, 0, rd, op);
    LowerLookup(w);
    StepOf(m, h, w);
    FieldsAgree(w);
    IImmAgrees(w);
  }

  lemma {:induction false} OneStep(m: Machine, hs: seq<Host>)
    requires WellFormed(m) && |hs| == 1
    ensures Run(m, hs) == Step(m, hs[0])
  {
    hide Step;
    assert hs[1..] == [];
  }

  lemma {:induction false} TwoSteps(m: Machine, h: Host, h': Host)
    requires WellFormed(m)
    ensures Run(m, [h, h']) == if Step(m, h).Running? then Step(Step(m, h).m, h') else Step(m, h)
  {
    hide Step;
    assert [h, h'][1..] == [h'];
    OneStep(Step(m, h).m, [h']);
  }

  // ----- splitting numbers over two immediates -----

  /** The low twelve bits, read as a signed number. */
  function Low(v: int): int {
    TwosComplement(v % 0x1000, 0x1000)
  }

  /** What is left for the upper immediate, carrying the borrow of a negative low part. */
  function High(v: int): int {
    TwosComplement((v - Low(v)) % 0x1_0000_0000, 0x1_0000_0000)
  }

  /** The distances that an upper and a lower immediate can bridge. */
  predicate InWindow(d: int) {
    -0x8000_0800 <= d < 0x7FFF_F800
  }

  lemma {:induction false} SplitFits(v: int)
    ensures -0x800 <= Low(v) < 0x800
    ensures -0x8000_0000 <= High(v) < 0x8000_0000 && High(v) % 0x1000 == 0
    ensures (High(v) + Low(v)) % 0x1_0000_0000 == v % 0x1_0000_0000
    ensures InWindow(v) ==> High(v) + Low(v) == v
  {
    LowCarry(v);
    Centre(v - Low(v));
    LowMultiple(v, (High(v) + Low(v) - v) / 0x1_0000_0000);
  }

  lemma {:induction false} LowCarry(v: int)
    ensures -0x800 <= Low(v) < 0x800 && (v - Low(v)) % 0x1000 == 0
  {
  }

  lemma {:induction false} Centre(u: int)
    requires u % 0x1000 == 0
    ensures var c := TwosComplement(u % 0x1_0000_0000, 0x1_0000_0000);
      && -0x8000_0000 <= c < 0x8000_0000 && c % 0x1000 == 0
      && c == u + 0x1_0000_0000 * ((c - u) / 0x1_0000_0000)
      && (-0x8000_0000 <= u < 0x8000_0000 ==> c == u)
  {
  }

  lemma {:induction false} ConstantValue(v: Word32)
    ensures Sext32(Wrap(Low(v) + Wrap(High(v)))) == Sext32(v)
  {
    SplitFits(v);
    var low, high := Low(v), High(v);
    SextWrap(low + Wrap(high));
    SumOfWrap(low, high);
    assert (high + low) % 0x1_0000_0000 == v % 0x1_0000_0000;
  }

  /** `lui` then `addiw` leave the sign extension of any 32-bit number in `rd`, and change nothing else. */
  lemma {:induction false} BuildsConstant(m: Machine, v: Word32, rd: Register, h: Host, h': Host)
    requires WellFormed(m) && rd != 0
    requires Holds(m.mem, m.pc, EncodeU(High(v), rd, 0x37))
    requires Holds(m.mem, At(m.pc, 4), EncodeI(Low(v), rd, 0, rd, 0x1b))
    ensures Run(m, [h, h'])
         == Running(m.(pc := At(m.pc, 8), regs := m.regs[rd := Sext32(v)],
                       counts := Bump(Bump(m.counts, LUI), ImmW(ADDIW))))
  {
    hide Step, EncodeU, EncodeI, Low, High, Holds, Bump;
    SplitFits(v);
    UpperStep(m, h, High(v), rd, 0x37);
    var m' := Step(m, h).m;
    LowerStep(m', h', Low(v), rd, 0x1b);
    TwoSteps(m, h, h');
    ConstantValue(v);
    TwoAhead(m.pc);
    assert WriteReg(WriteReg(m.regs, rd, Wrap(High(v))), rd, Sext32(v)) == m.regs[rd := Sext32(v)];
  }

  lemma {:induction false} TwoAhead(pc: Word)
    ensures At(At(pc, 4), 4) == At(pc, 8)
  {
  }

  lemma {:induction false} AddressValue(pc: Word, d: int)
    requires InWindow(d)
    ensures Wrap(Wrap(High(d) + pc) + Low(d)) == At(pc, d)
  {
    SplitFits(d);
    WrapSum(Low(d), High(d) + pc);
  }

  /** `auipc` then `addi` leave any address within the window around the first of them in `rd`. */
  lemma {:induction false} BuildsAddress(m: Machine, d: int, rd: Register, h: Host, h': Host)
    requires WellFormed(m) && rd != 0 && InWindow(d)
    requires Holds(m.mem, m.pc, EncodeU(High(d), rd, 0x17))
    requires Holds(m.mem, At(m.pc, 4), EncodeI(Low(d), rd, 0, rd, 0x13))
    ensures Run(m, [h, h'])
         == Running(m.(pc := At(m.pc, 8), regs := m.regs[rd := At(m.pc, d)],
                       counts := Bump(Bump(m.counts, AUIPC), Imm(ADDI))))
  {
    hide Step, EncodeU, EncodeI, Low, High, Holds, Bump;
    SplitFits(d);
    UpperStep(m, h, High(d), rd, 0x17);
    var m' := Step(m, h).m;
    LowerStep(m', h', Low(d), rd, 0x13);
    TwoSteps(m, h, h');
    AddressValue(m.pc, d);
    TwoAhead(m.pc);
    assert WriteReg(WriteReg(m.regs, rd, Wrap(High(d) + m.pc)), rd, At(m.pc, d)) == m.regs[rd := At(m.pc, d)];
  }

  ghost predicate Reachable(pc: Word, t: Word) {
    exists u, i | -0x8000_0000 <= u < 0x8000_0000 && u % 0x1000 == 0 && -0x800 <= i < 0x800 :: Lands(pc, u, i, t)
  }

  predicate Lands(pc: Word, u: int, i: int, t: Word) {
    Wrap(Wrap(u + pc) + i) == t
  }

  /** No other address can be reached by the pair. */
  lemma {:induction false} ReachableIff(pc: Word, t: Word)
    ensures Reachable(pc, t) <==> InWindow(Signed(Wrap(t - pc)))
  {
    hide Lands, Wrap, Signed, High, Low;
    var d := Signed(Wrap(t - pc));
    if InWindow(d) {
      SplitFits(d);
      WindowLands(pc, t, d);
    }
    if Reachable(pc, t) {
      var u, i :| -0x8000_0000 <= u < 0x8000_0000 && u % 0x1000 == 0 && -0x800 <= i < 0x800 && Lands(pc, u, i, t);
      LandsInWindow(pc, t, u, i);
    }
  }

  lemma {:induction false} WindowLands(pc: Word, t: Word, d: int)
    requires d == Signed(Wrap(t - pc)) && InWindow(d)
    ensures Lands(pc, High(d), Low(d), t)
  {
    hide High, Low;
    AddressValue(pc, d);
  }

  lemma {:induction false} LandsInWindow(pc: Word, t: Word, u: int, i: int)
    requires -0x8000_0000 <= u < 0x8000_0000 && u % 0x1000 == 0 && -0x800 <= i < 0x800 && Lands(pc, u, i, t)
    ensures InWindow(Signed(Wrap(t - pc)))
  {
    hide Wrap, InWindow;
    var sum := i + (u + pc);
    assert sum == pc + (u + i);
    WrapSum(i, u + pc);
    assert t == Wrap(sum);
    SumInWindow(u, i);
    Distance(pc, u + i);
  }

  lemma {:induction false} SumInWindow(u: int, i: int)
    requires -0x8000_0000 <= u < 0x8000_0000 && u % 0x1000 == 0 && -0x800 <= i < 0x800
    ensures InWindow(u + i)
  {
  }

  lemma {:induction false} Distance(pc: Word, d: int)
    requires InWindow(d)
    ensures Signed(Wrap(Wrap(pc + d) - pc)) == d
  {
  }

  // ----- a buffer through two system calls -----

  /** The machine about to make system call `number` for `len` bytes, all else as it was. */
  function Calling(m: Machine, number: Word, len: Word): Machine
    requires WellFormed(m)
  {
    m.(regs := m.regs[17 := number][12 := len])
  }

  /** How many bytes a `read` of `len` gets when the host has `input` ready. */
  function Delivered(input: seq<Byte>, len: Word): (n: Word)
    ensures n <= |input| && n <= len && (n == |input| || n == len)
  {
    if |input| <= len then |input| else len
  }

  /**
  A `read` of `len` bytes into a permitted buffer stores what the host has ready,
  or its first `len` bytes, returns their number and changes nothing else; a
  `write` over what was received hands the same bytes back.
  */
  lemma {:induction false} ReadThenWrite(m: Machine, len: Word, h: Host, h': Host)
    requires WellFormed(m) && !h.failed
    requires forall i :: 0 <= i < len ==> Accepts(m.forbid, At(m.regs[11], i), 1)
    ensures var n, got := Delivered(h.input, len), ExecCall(Calling(m, 63, len), h);
      && got.Running? && got.m.regs[10] == n
      && (forall i | 0 <= i < n :: At(m.regs[11], i) in got.m.mem && got.m.mem[At(m.regs[11], i)] == h.input[i])
      && (forall k: Word | Offset(k, m.regs[11]) >= n :: SameByte(m.mem, got.m.mem, k))
      && ExecCall(Calling(got.m, 64, got.m.regs[10]), h').m.out == m.out + [h.input[..n]]
  {
    hide Accepts, Put, Collect, Store, At, Offset;
    var n, bs, c := Delivered(h.input, len), Received(h.input, len), Calling(m, 63, len);
    assert bs == h.input[..n];
    assert c.regs[17] == 63 && c.regs[11] == m.regs[11] && c.regs[12] == len;
    BufferRoundTrip(m.mem, m.forbid, m.regs[11], bs);
    SmallWrap(|bs|);
    var got := ExecCall(c, h).m;
    assert got.mem == Put(m.mem, m.forbid, m.regs[11], bs).0;
    assert got.regs[10] == |bs| && got.regs[11] == m.regs[11];
    assert Calling(got, 64, |bs|).regs[12] == |bs|;
    PutAll(m.mem, m.forbid, m.regs[11], bs);
    forall i | 0 <= i < n
      ensures At(m.regs[11], i) in got.mem && got.mem[At(m.regs[11], i)] == h.input[i]
    {
      OffsetAt(At(m.regs[11], i), m.regs[11], i);
      StoreLookup(m.mem, m.regs[11], bs, At(m.regs[11], i));
    }
  }

  /** A `read` that fails on the host returns -1 and stores nothing. */
  lemma {:induction false} FailedRead(m: Machine, h: Host)
    requires WellFormed(m) && m.regs[17] == 63 && h.failed
    ensures ExecCall(m, h)
         == Running(m.(pc := At(m.pc, 4), regs := WriteReg(m.regs, 10, 0xFFFF_FFFF_FFFF_FFFF)))
  {
  }

  /** A `read` into a buffer with a refused byte traps there, with exactly the bytes before it stored. */
  lemma {:induction false} RefusedRead(m: Machine, h: Host, k: nat)
    requires WellFormed(m) && m.regs[17] == 63 && !h.failed
    requires k < Delivered(h.input, m.regs[12]) && !Accepts(m.forbid, At(m.regs[11], k), 1)
    requires forall i :: 0 <= i < k ==> Accepts(m.forbid, At(m.regs[11], i), 1)
    ensures var a := At(m.regs[11], k);
      ExecCall(m, h) == Raised(m.(mem := Store(m.mem, m.regs[11], h.input[..k])), Refused(a, a))
  {
    hide Accepts, Put, Store, At;
    var bs := Received(h.input, m.regs[12]);
    PutRefused(m.mem, m.forbid, m.regs[11], bs, k);
    assert bs[..k] == h.input[..k];
  }

  // ----- the machine at the start -----

  /** What construction leaves: the stack pointer and the eight bytes it points at, and nothing else changed. */
  lemma {:induction false} StartedMeaning(mem: Mem, forbid: Intervals, entry: Word, initial: seq<Word>,
                                          counts: map<Op, nat>)
    requires |initial| == 32
    ensures var m := Started(mem, forbid, entry, initial, counts); var top := 0xFFFF_FFFF_FEFF_FB50;
      && m.pc == entry && m.regs[2] == top && m.forbid == forbid && m.counts == counts && m.out == []
      && (forall r | 0 <= r < 32 && r != 2 :: m.regs[r] == initial[r])
      && (forall k: Word | top <= k < top + 8 :: k in m.mem && m.mem[k] == 0)
      && (forall k: Word | !(top <= k < top + 8) :: SameByte(mem, m.mem, k))
  {
    var top := 0xFFFF_FFFF_FEFF_FB50;
    hide Store, ToBytes;
    EightZeros();
    forall k: Word
      ensures top <= k < top + 8 ==> k in Store(mem, top, ToBytes(0, 8)) && Store(mem, top, ToBytes(0, 8))[k] == 0
      ensures !(top <= k < top + 8) ==> SameByte(mem, Store(mem, top, ToBytes(0, 8)), k)
    {
      StoreLookup(mem, top, ToBytes(0, 8), k);
    }
  }

  lemma {:induction false} EightZeros()
    ensures forall i | 0 <= i < 8 :: ToBytes(0, 8)[i] == 0
  {
    AllZeros(8);
  }

  lemma {:induction false} AllZeros(n: nat)
    ensures forall i | 0 <= i < n :: ToBytes(0, n)[i] == 0
  {
    if n > 0 {
      AllZeros(n - 1);
    }
  }

  // ----- loaded read-only data -----

  /**
  A read-only section of at least six bytes, once loaded, keeps the bytes it has
  in the file from the start of the machine through every run, system calls included.
  */
  lemma {:induction false} ReadOnlyDataSurvives(sections: seq<Loader.Section>, segments: seq<Loader.Range>, k: nat,
                                                a: Word, entry: Word, initial: seq<Word>, counts: map<Op, nat>,
                                                hs: seq<Host>)
    requires Loader.NamesFit(sections) && Loader.ApartAmong(sections, Loader.Plan(sections))
    requires k < |sections| && Loader.Loaded(sections, k) && Loader.ReadOnly(sections[k].name)
    requires Loader.OwnStart(sections, Loader.Plan(sections), k)
    requires var s := sections[k].range; |s.bytes| >= 6 && s.start + |s.bytes| < 0x1_0000_0000_0000_0000
    requires Loader.Covers(sections[k].range, a)
    requires |initial| == 32
    requires Accepts(LoadedImage(sections, segments).forbid, STACK_START, 8)
    ensures var img := LoadedImage(sections, segments);
      var mem := Run(Started(img.mem, img.forbid, entry, initial, counts), hs).m.mem;
      a in mem && mem[a] == Loader.ByteOf(sections[k].range, a)
  {
    hide Run, Store, ToBytes, Accepts, Loader.CopyAll, Loader.Plan, Loader.ApartAmong, Loader.Loaded, Loader.OwnStart,
         Loader.ReadOnly, Loader.LoadSections, Loader.Covers, Loader.ByteOf;
    var s, img := sections[k].range, LoadedImage(sections, segments);
    Loader.PlanWithin(sections, |sections|);
    Loader.PlanMeaning(sections);
    Loader.IntervalOf(Loader.Image(map[], map[]), sections, Loader.Plan(sections), k);
    Loader.SectionHeld(sections, segments, k, a);
    Inside(s, a);
    StoreKeeps(img.mem, img.forbid, STACK_START, ToBytes(0, 8), s.start, a);
    RunKeepsGuarded(Started(img.mem, img.forbid, entry, initial, counts), hs, s.start, a);
  }

  /** What the file leaves in an empty memory. */
  function LoadedImage(sections: seq<Loader.Section>, segments: seq<Loader.Range>): Loader.Image
    requires Loader.NamesFit(sections)
  {
    Loader.ReadElf(Loader.Image(map[], map[]), sections, segments)
  }

  lemma {:induction false} Inside(s: Loader.Range, a: Word)
    requires s.start + |s.bytes| < 0x1_0000_0000_0000_0000 && Loader.Covers(s, a)
    ensures At(s.start, |s.bytes|) == s.start + |s.bytes|
    ensures s.start <= a <= s.start + |s.bytes|
  {
  }
}

/**
One step of the simulator as a function on values: fetch, decode, count, execute.
Exceptions end a run; what the host system answers to a call is an input.
*/
module Simulator {
  import opened Words
  import opened Memory
  import opened HostSystem
  import opened Instruction
  import opened Encodings
  import opened OpcodeMap
  import opened Handlers

  const STACK_START: Word := 0xffff_ffff_feff_fb50

  /** Registers, memory, forbidden intervals, per-instruction counters, and buffers handed to the host. */
  datatype Machine = Machine(pc: Word, regs: seq<Word>, mem: Mem, forbid: Intervals, counts: map<Op, nat>,
                             out: seq<seq<Byte>>)

  datatype Trap = InvalidAddress(head: Word, at: Word) | Refused(first: Word, last: Word) | Misaligned(target: Word)

  datatype Outcome = Running(m: Machine) | Raised(m: Machine, t: Trap) | Exited(m: Machine, code: int)
                   | FloatingPoint(m: Machine, f: FloatOp)

  predicate WellFormed(m: Machine) {
    |m.regs| == 32
  }

  /** A write to register 0 is dropped. */
  function WriteReg(regs: seq<Word>, i: Word, v: Word): (r: seq<Word>)
    requires i < |regs|
    ensures |r| == |regs| && r[0] == regs[0]
    ensures forall k :: 0 < k < |regs| ==> r[k] == if k == i then v else regs[k]
  {
    if i != 0 then regs[i := v] else regs
  }

  function Bump(counts: map<Op, nat>, op: Op): map<Op, nat> {
    counts[op := if op in counts then counts[op] + 1 else 1]
  }

  /** What every instruction leaves alone: the table of intervals, the counters, and whatever x0 holds. */
  predicate Undisturbed(m: Machine, after: Machine)
    requires WellFormed(m)
  {
    && WellFormed(after)
    && after.forbid == m.forbid && after.counts == m.counts
    && after.regs[0] == m.regs[0]
  }

  function Advance(m: Machine, regs: seq<Word>): Machine {
    m.(regs := regs, pc := At(m.pc, 4))
  }

  /** `set_pc`: bit 1 of the target is tested before anything is written. */
  function SetPc(m: Machine, target: Word, regs: seq<Word>): Outcome
  {
    if And(target, 2) != 0 then Raised(m, Misaligned(target)) else Running(m.(pc := target, regs := regs))
  }

  function ExecLoad(m: Machine, a: Word, l: LoadOp, rd: Word): (o: Outcome)
    requires WellFormed(m) && rd < 32
    ensures Undisturbed(m, o.m)
  {
    Running(Advance(m, WriteReg(m.regs, rd, Load(m.mem, a, LoadSigned(l), LoadWidth(l)))))
  }

  function ExecStore(m: Machine, a: Word, n: int, v: Word): (o: Outcome)
    requires WellFormed(m) && Width(n)
    ensures Undisturbed(m, o.m)
  {
    if Accepts(m.forbid, a, n) then Running(Advance(m.(mem := Store(m.mem, a, ToBytes(v, n))), m.regs))
    else Raised(m, Refused(a, At(a, n - 1)))
  }

  // ----- system calls -----

  function ExecRead(m: Machine, h: Host): (o: Outcome)
    requires WellFormed(m)
    ensures Undisturbed(m, o.m)
  {
    var bs := if h.failed then [] else Received(h.input, m.regs[12]);
    var (mem', r) := Put(m.mem, m.forbid, m.regs[11], bs);
    match r
    case Done =>
      Running(Advance(m.(mem := mem'), WriteReg(m.regs, 10, if h.failed then Wrap(-1) else Wrap(|bs|))))
    case NoPermission(first, last) => Raised(m.(mem := mem'), Refused(first, last))
  }

  function ExecClock(m: Machine, h: Host): (o: Outcome)
    requires WellFormed(m)
    ensures Undisturbed(m, o.m)
  {
    var a := m.regs[10];
    var regs := WriteReg(m.regs, 10, h.result);
    if Accepts(m.forbid, a, 8) then Running(Advance(m.(mem := Store(m.mem, a, ToBytes(h.clock, 8))), regs))
    else Raised(m.(regs := regs), Refused(a, At(a, 7)))
  }

  function ExecCall(m: Machine, h: Host): (o: Outcome)
    requires WellFormed(m)
    ensures Undisturbed(m, o.m)
  {
    match m.regs[17]
    case 64 =>
      var sent := Collect(m.mem, m.regs[11], m.regs[12]);
      Running(Advance(m.(out := m.out + [sent]), WriteReg(m.regs, 10, h.result)))
    case 63 => ExecRead(m, h)
    case 1062 => Running(Advance(m, WriteReg(m.regs, 10, h.result)))
    case 93 => Exited(m, 0)
    case 214 => Running(Advance(m, m.regs))
    case 62 => Running(Advance(m, m.regs))
    case 80 => Running(Advance(m, WriteReg(m.regs, 10, h.result)))
    case 57 => Running(Advance(m, m.regs))
    case 169 => ExecClock(m, h)
    case _ => Exited(m, 1)
  }

  // ----- the start -----

  /** The machine that construction hands over: stack pointer set, the word there cleared, other registers as found. */
  function Started(mem: Mem, forbid: Intervals, entry: Word, initial: seq<Word>, counts: map<Op, nat>): (m: Machine)
    requires |initial| == 32
    ensures WellFormed(m)
  {
    Machine(entry, WriteReg(initial, 2, STACK_START), Store(mem, STACK_START, ToBytes(0, 8)), forbid, counts, [])
  }

  // ----- one instruction -----

  function Exec(m: Machine, op: Op, b: Word, h: Host): (o: Outcome)
    requires WellFormed(m)
    ensures Undisturbed(m, o.m)
  {
    var x, y, rd := m.regs[Rs1(b)], m.regs[Rs2(b)], Rd(b);
    match op
    case Reg(r) => Running(Advance(m, WriteReg(m.regs, rd, RegValue(r, b, x, y))))
    case Imm(i) => Running(Advance(m, WriteReg(m.regs, rd, ImmValue(i, b, x))))
    case RegW(rw) => Running(Advance(m, WriteReg(m.regs, rd, RegWordValue(rw, x, y))))
    case ImmW(iw) => Running(Advance(m, WriteReg(m.regs, rd, ImmWordValue(iw, b, x))))
    case Mul(mu) => Running(Advance(m, WriteReg(m.regs, rd, MulValue(mu, x, y))))
    case MulW(mw) => Running(Advance(m, WriteReg(m.regs, rd, MulWordValue(mw, x, y))))
    case LUI => Running(Advance(m, WriteReg(m.regs, rd, Wrap(UImm(b)))))
    case AUIPC => Running(Advance(m, WriteReg(m.regs, rd, Wrap(UImm(b) + m.pc))))
    case JAL => SetPc(m, At(m.pc, UjImm(b)), WriteReg(m.regs, rd, At(m.pc, 4)))
    case JALR => SetPc(m, And(At(x, IImm(b)), Not(1)), WriteReg(m.regs, rd, At(m.pc, 4)))
    case Branch(br) => if Taken(br, x, y) then SetPc(m, At(m.pc, SbImm(b)), m.regs) else Running(Advance(m, m.regs))
    case Loads(l) => ExecLoad(m, At(x, IImm(b)), l, rd)
    case Stores(s) => ExecStore(m, At(x, SImm(b)), StoreWidth(s), y)
    case FENCE => Running(Advance(m, m.regs))
    case SCALL => ExecCall(m, h)
    case FP(f) => FloatingPoint(m, f)
    case ILLEGAL => Running(m.(pc := 0))
  }

  /** The instruction that the word at the program counter names, once it has been fetched. */
  function OpOf(bits: Word): Op {
    Lookup(Zext32(bits))
  }

  function Step(m: Machine, h: Host): (o: Outcome)
    requires WellFormed(m)
    ensures WellFormed(o.m)
  {
    match FetchAt(m.mem, m.pc)
    case Unmapped(at) => Raised(m, InvalidAddress(m.pc, at))
    case Fetched(b) => Exec(m.(counts := Bump(m.counts, OpOf(b))), OpOf(b), b, h)
  }

  /** One step for each host answer, until a step does not leave the machine running. */
  function Run(m: Machine, hs: seq<Host>): (o: Outcome)
    requires WellFormed(m)
    ensures WellFormed(o.m)
    decreases |hs|
  {
    if hs == [] then Running(m)
    else
      match Step(m, hs[0])
      case Running(m') => Run(m', hs[1..])
      case o => o
  }
}

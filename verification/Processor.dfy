/**
The processor object: a register file, a memory unit, the instruction table and
the counters, all changed in place. Its methods are tied to the functions of
`Simulator` on the values they start from.
*/
module Processor {
  import opened Words
  import opened MultiplyHigh
  import opened Memory
  import opened HostSystem
  import opened MemoryLaws
  import opened MemoryUnit
  import opened Instruction
  import opened Encodings
  import opened Decoder
  import opened DecodeMeaning
  import opened OpcodeMap
  import opened InstructionList
  import opened Handlers
  import opened Simulator

  class RegisterFile {
    const data: array<Word>

    /** The storage starts out as whatever it happens to hold. */
    constructor (initial: seq<Word>)
      ensures fresh(data) && data[..] == initial
    {
      var a := new Word[|initial|](i requires 0 <= i < |initial| => initial[i]);
      data := a;
    }

    method Write(i: Word, value: Word)
      requires i < data.Length
      modifies data
      ensures data[..] == WriteReg(old(data[..]), i, value)
    {
      if i != 0 {
        data[i] := value;
      }
    }
  }

  /** Counters at zero for a list of instructions. */
  ghost function ZeroCounts(ops: seq<Op>): map<Op, nat> {
    map op | op in ops :: 0
  }

  lemma {:induction false} NoneRegistered()
    ensures Entries([]) == [] && ZeroCounts([]) == map[]
  {
  }

  lemma {:induction false} OneRegistered(ops: seq<Op>, op: Op)
    ensures Entries(ops + [op]) == Entries(ops) + [Encoding(op)]
    ensures ZeroCounts(ops + [op]) == ZeroCounts(ops)[op := 0]
    ensures op in ZeroCounts(ops) ==> ZeroCounts(ops)[op := 0] == ZeroCounts(ops)
  {
  }

  ghost function NoneCounted(): map<Op, nat> {
    ZeroCounts(LISTED + [ILLEGAL])
  }

  /** How an instruction ends: with the next program counter, or by leaving the run. */
  datatype Status = Go(npc: Word) | Trapped(t: Trap) | Exit(code: int) | Float(f: FloatOp)

  /** `o` is what happened when an instruction ended with `e` and left `after`, the old counter still in place. */
  ghost predicate Ends(o: Outcome, e: Status, after: Machine) {
    match o
    case Running(m) => e == Go(m.pc) && after == m.(pc := after.pc)
    case Raised(m, t) => e == Trapped(t) && after == m
    case Exited(m, code) => e == Exit(code) && after == m
    case FloatingPoint(m, f) => e == Float(f) && after == m
  }

  class Cpu {
    var pc: Word
    const xpr: RegisterFile
    const mmu: Mmu
    var instructions: seq<Desc>
    var insnCount: map<Op, nat>
    var cInsn: Word
    var cDesc: Desc
    var sent: seq<seq<Byte>>

    ghost predicate Valid()
      reads this
    {
      xpr.data.Length == 32 && instructions == Table()
    }

    ghost function View(): Machine
      reads this, xpr.data, mmu
    {
      Machine(pc, xpr.data[..], mmu.mem, mmu.forbid, insnCount, sent)
    }

    // ----- start -----

    /** The stack pointer is set; every other register keeps what the storage held. */
    constructor (memory: Mmu, entry: Word, initial: seq<Word>)
      requires |initial| == 32
      ensures Valid() && mmu == memory && fresh(xpr) && fresh(xpr.data)
      ensures View() == Machine(entry, WriteReg(initial, 2, STACK_START), memory.mem, memory.forbid, NoneCounted(), [])
    {
      pc, mmu := entry, memory;
      xpr := new RegisterFile(initial);
      instructions, insnCount, sent := [], map[], [];
      cInsn, cDesc := 0, CatchAll();
      new;
      xpr.Write(2, STACK_START);
      IllegalIsNotListed();
      RegisterInstructions(LISTED);
    }

    /** The word at the initial stack pointer is cleared, if that is permitted. */
    method ClearStackTop() returns (r: Access)
      modifies mmu
      ensures View() == old(View()).(mem := if r.Done? then Store(old(mmu.mem), STACK_START, ToBytes(0, 8))
                                            else old(mmu.mem))
      ensures r == if Accepts(mmu.forbid, STACK_START, 8) then Done else NoPermission(STACK_START, At(STACK_START, 7))
    {
      r := mmu.Write(STACK_START, 0, 8);
    }

    /** The listed instructions are registered in order, then the catch-all. */
    method RegisterInstructions(ops: seq<Op>)
      requires instructions == [] && insnCount == map[] && ILLEGAL !in ops
      modifies this`instructions, this`insnCount
      ensures instructions == Entries(ops) + [CatchAll()] && insnCount == ZeroCounts(ops + [ILLEGAL])
    {
      hide Encoding, Entries, ZeroCounts;
      NoneRegistered();
      for i := 0 to |ops|
        invariant instructions == Entries(ops[..i])
        invariant insnCount == ZeroCounts(ops[..i])
      {
        MaskInUse(ops[i]);
        RegisterInsn(Encoding(ops[i]));
        OneRegistered(ops[..i], ops[i]);
        assert ops[..i + 1] == ops[..i] + [ops[i]];
      }
      assert ops[..|ops|] == ops;
      RegisterInsn(CatchAll());
      OneRegistered(ops, ILLEGAL);
    }

    /** A counter is inserted at zero; one that is there already is left alone. */
    method RegisterInsn(desc: Desc)
      modifies this`instructions, this`insnCount
      ensures instructions == old(instructions) + [desc]
      ensures insnCount == if desc.op in old(insnCount) then old(insnCount) else old(insnCount)[desc.op := 0]
    {
      instructions := instructions + [desc];
      if desc.op !in insnCount {
        insnCount := insnCount[desc.op := 0];
      }
    }

    // ----- registers -----

    method WriteRd(v: Word)
      requires Valid()
      modifies xpr.data
      ensures View() == old(View()).(regs := WriteReg(old(View()).regs, Rd(cInsn), v))
    {
      xpr.Write(Rd(cInsn), v);
    }

    /** Of the even targets it lets through the multiples of four; bit 0 of an odd one plays no part. */
    method SetNpc(target: Word) returns (e: Status)
      ensures e == Go(target) || e == Trapped(Misaligned(target))
      ensures e.Go? <==> target / 2 % 2 == 0
      ensures target % 2 == 0 ==> (e.Go? <==> target % 4 == 0)
    {
      SecondBit(target);
      if target % 2 == 0 {
        EvenBit(target);
      }
      if And(target, 2) != 0 {
        return Trapped(Misaligned(target));
      }
      return Go(target);
    }

    // ----- multiplication through the limb routines -----

    method Multiply(mu: MulOp, x: Word, y: Word) returns (v: Word)
      ensures v == MulValue(mu, x, y)
    {
      match mu
      case MULH =>
        var r := Mulh(Signed(x), Signed(y));
        v := Wrap(r);
      case MULHU =>
        v := Mulhu(x, y);
      case MULHSU =>
        var r := Mulhsu(Signed(x), y);
        v := Wrap(r);
      case _ =>
        v := MulValue(mu, x, y);
    }

    // ----- loads, stores, jumps -----

    method DoLoad(l: LoadOp, a: Word) returns (e: Status)
      requires Valid()
      modifies xpr.data
      ensures Ends(ExecLoad(old(View()), a, l, Rd(cInsn)), e, View())
    {
      var v := mmu.Read(a, LoadSigned(l), LoadWidth(l));
      WriteRd(v);
      e := Go(At(pc, 4));
    }

    method DoStore(a: Word, n: int, v: Word) returns (e: Status)
      requires Valid() && Width(n)
      modifies mmu
      ensures Ends(ExecStore(old(View()), a, n, v), e, View())
    {
      var r := mmu.Write(a, v, n);
      match r
      case Done => e := Go(At(pc, 4));
      case NoPermission(first, last) => e := Trapped(Refused(first, last));
    }

    /** The link is written only when the target has been accepted. */
    method DoJump(target: Word) returns (e: Status)
      requires Valid()
      modifies xpr.data
      ensures Ends(SetPc(old(View()), target, WriteReg(old(View()).regs, Rd(cInsn), At(pc, 4))), e, View())
    {
      var tmp := At(pc, 4);
      SecondBit(target);
      e := SetNpc(target);
      if e.Go? {
        WriteRd(tmp);
      }
    }

    method DoBranch(target: Word) returns (e: Status)
      requires Valid()
      ensures Ends(SetPc(View(), target, View().regs), e, View())
    {
      SecondBit(target);
      e := SetNpc(target);
    }

    // ----- system calls -----

    /** Host bytes are stored one by one; a `char` is sign-extended on its way to the store. */
    method SimRead(addr: Word, buf: seq<Byte>) returns (r: Access)
      modifies mmu
      ensures mmu.forbid == old(mmu.forbid)
      ensures (mmu.mem, r) == Put(old(mmu.mem), mmu.forbid, addr, buf)
    {
      hide Accepts, ToBytes, Put, Wrap;
      for i := 0 to |buf|
        invariant mmu.forbid == old(mmu.forbid)
        invariant forall j :: 0 <= j < i ==> Accepts(mmu.forbid, At(addr, j), 1)
        invariant mmu.mem == Store(old(mmu.mem), addr, buf[..i])
      {
        CharByte(buf[i]);
        r := mmu.Write(At(addr, i), SignedChar(buf[i]), 1);
        AtZero(At(addr, i));
        if r != Done {
          PutRefused(old(mmu.mem), mmu.forbid, addr, buf, i);
          return;
        }
        StoreOne(Store(old(mmu.mem), addr, buf[..i]), At(addr, i), buf[i]);
        assert buf[..i + 1][..i] == buf[..i];
      }
      assert buf[..|buf|] == buf;
      PutAll(old(mmu.mem), mmu.forbid, addr, buf);
      r := Done;
    }

    /** The bytes handed to the host are read one by one. */
    method SimWrite(addr: Word, len: Word) returns (buf: seq<Byte>)
      ensures buf == Collect(mmu.mem, addr, len)
    {
      buf := [];
      for i := 0 to len
        invariant buf == Collect(mmu.mem, addr, i)
      {
        var v := mmu.Read(At(addr, i), false, 1);
        assert v == ByteAt(mmu.mem, At(addr, i));
        buf := buf + [v];
      }
    }

    method DoCall(h: Host) returns (e: Status)
      requires Valid()
      modifies this`sent, xpr.data, mmu
      ensures Ends(ExecCall(old(View()), h), e, View())
    {
      var num, addr, len := xpr.data[17], xpr.data[11], xpr.data[12];
      e := Go(At(pc, 4));
      match num
      case 64 =>
        var buf := SimWrite(addr, len);
        sent := sent + [buf];
        xpr.Write(10, h.result);
      case 63 =>
        var bs := if h.failed then [] else Received(h.input, len);
        var r := SimRead(addr, bs);
        match r {
          case Done => xpr.Write(10, if h.failed then Wrap(-1) else Wrap(|bs|));
          case NoPermission(first, last) => e := Trapped(Refused(first, last));
        }
      case 1062 => xpr.Write(10, h.result);
      case 93 => e := Exit(0);
      case 214 =>
      case 62 =>
      case 80 => xpr.Write(10, h.result);
      case 57 =>
      case 169 =>
        var at := xpr.data[10];
        xpr.Write(10, h.result);
        var r := mmu.WriteBare(at, ToBytes(h.clock, 8));
        match r {
          case Done =>
          case NoPermission(first, last) => e := Trapped(Refused(first, last));
        }
      case _ => e := Exit(1);
    }

    // ----- the cycle -----

    /** Scan the table for the current word and count the instruction found. */
    method DecodeInsn()
      requires Valid()
      modifies this`cDesc, this`insnCount
      ensures cDesc.op == OpOf(cInsn)
      ensures insnCount == Bump(old(insnCount), cDesc.op)
    {
      hide Table, Lookup, Matches;
      TableEnds();
      var p := Scan(instructions, cInsn);
      TableNames(cInsn, p);
      cDesc := instructions[p];
      insnCount := insnCount[cDesc.op := if cDesc.op in insnCount then insnCount[cDesc.op] + 1 else 1];
    }

    /** The instructions that only compute a register. */
    method DoCompute(h: Host) returns (e: Status)
      requires Valid()
      requires var op := cDesc.op;
        op.Reg? || op.Imm? || op.RegW? || op.ImmW? || op.Mul? || op.MulW? || op.LUI? || op.AUIPC?
      modifies xpr.data
      ensures Ends(Exec(old(View()), cDesc.op, cInsn, h), e, View())
    {
      hide RegValue, ImmValue, RegWordValue, ImmWordValue, MulValue, MulWordValue, ExecCall, UImm, Table;
      var b := cInsn;
      var x, y := xpr.data[Rs1(b)], xpr.data[Rs2(b)];
      var v: Word;
      match cDesc.op {
        case Reg(r) => v := RegValue(r, b, x, y);
        case Imm(i) => v := ImmValue(i, b, x);
        case RegW(rw) => v := RegWordValue(rw, x, y);
        case ImmW(iw) => v := ImmWordValue(iw, b, x);
        case Mul(mu) => v := Multiply(mu, x, y);
        case MulW(mw) => v := MulWordValue(mw, x, y);
        case LUI => v := Wrap(UImm(b));
        case AUIPC => v := Wrap(UImm(b) + pc);
      }
      WriteRd(v);
      e := Go(At(pc, 4));
    }

    method ExecuteInsn(h: Host) returns (e: Status)
      requires Valid()
      modifies this`sent, xpr.data, mmu
      ensures Ends(Exec(old(View()), cDesc.op, cInsn, h), e, View())
    {
      hide ExecCall, ExecLoad, ExecStore, SetPc, IImm, SImm, SbImm, UImm, UjImm, Table, And;
      var b := cInsn;
      var x, y := xpr.data[Rs1(b)], xpr.data[Rs2(b)];
      e := Go(At(pc, 4));
      match cDesc.op
      case JAL => e := DoJump(At(pc, UjImm(b)));
      case JALR => e := DoJump(And(At(x, IImm(b)), Not(1)));
      case Branch(br) =>
        if Taken(br, x, y) {
          e := DoBranch(At(pc, SbImm(b)));
        }
      case Loads(l) => e := DoLoad(l, At(x, IImm(b)));
      case Stores(s) => e := DoStore(At(x, SImm(b)), StoreWidth(s), y);
      case FENCE =>
      case SCALL => e := DoCall(h);
      case FP(f) => e := Float(f);
      case ILLEGAL => e := Go(0);
      case _ => e := DoCompute(h);
    }

    /** One cycle: fetch, decode, execute, and move on if the instruction did not end the run. */
    method Cycle(h: Host) returns (e: Status)
      requires Valid()
      modifies this, xpr.data, mmu
      ensures Valid()
      ensures Ends(Simulator.Step(old(View()), h), e, View().(pc := if e.Go? then old(pc) else pc))
      ensures e.Go? ==> pc == e.npc
    {
      hide Exec, FetchAt, Bump, OpOf, Table;
      var f := mmu.LoadInsn(pc);
      match f
      case Unmapped(at) => return Trapped(InvalidAddress(pc, at));
      case Fetched(bits) =>
        cInsn := bits;
        DecodeInsn();
        e := ExecuteInsn(h);
        if e.Go? {
          pc := e.npc;
        }
    }

    /**
    `steps` cycles, or cycles without end when `steps` is zero: then `hs` gives
    the host's answers for as much of the run as is looked at.
    */
    method Steps(steps: int, hs: seq<Host>) returns (e: Status)
      requires Valid()
      requires steps > 0 ==> |hs| == steps
      requires steps < 0 ==> hs == []
      modifies this, xpr.data, mmu
      ensures Valid()
      ensures Ends(Run(old(View()), hs), e, View())
      ensures e.Go? ==> pc == e.npc
    {
      var step := 0;
      e := Go(pc);
      while step < |hs|
        invariant 0 <= step <= |hs|
        invariant Valid() && e == Go(pc)
        invariant Run(old(View()), hs) == Run(View(), hs[step..])
      {
        e := Cycle(hs[step]);
        if !e.Go? {
          return;
        }
        assert hs[step..][1..] == hs[step + 1..];
        step := step + 1;
      }
    }
  }

  /**
  Building the processor over a loaded memory: the stack pointer is set and the
  word it points at cleared. A refusal to clear it ends the attempt.
  */
  method Boot(memory: Mmu, entry: Word, initial: seq<Word>) returns (cpu: Cpu, r: Access)
    requires |initial| == 32
    modifies memory
    ensures cpu.Valid() && fresh(cpu) && fresh(cpu.xpr.data) && cpu.mmu == memory
    ensures r == if Accepts(old(memory.forbid), STACK_START, 8) then Done
                 else NoPermission(STACK_START, At(STACK_START, 7))
    ensures var m := Started(old(memory.mem), old(memory.forbid), entry, initial, NoneCounted());
      cpu.View() == if r.Done? then m else m.(mem := old(memory.mem))
  {
    cpu := new Cpu(memory, entry, initial);
    r := cpu.ClearStackTop();
  }

  /** `buf[i]` as the 64-bit argument of a store. */
  function SignedChar(b: Byte): Word {
    Wrap(if b < 0x80 then b else b - 0x100)
  }

  lemma {:induction false} CharByte(b: Byte)
    ensures ToBytes(SignedChar(b), 1) == [b]
  {
    assert ToBytes(SignedChar(b) / 0x100, 0) == [];
  }
}

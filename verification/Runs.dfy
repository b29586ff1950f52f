/**
What holds over every run of the simulator, system calls, traps and illegal
words included.
*/
module Runs {
  import opened Words
  import opened Memory
  import opened HostSystem
  import opened MemoryLaws
  import opened Instruction
  import opened InstructionMeaning
  import opened Formats
  import opened Encodings
  import opened Handlers
  import opened Simulator
  import opened Refinement
  import Isa

  // ----- splitting runs -----

  /** Running on from where a first part stopped is running both parts. */
  lemma {:induction false} RunSplits(m: Machine, first: seq<Host>, second: seq<Host>)
    requires WellFormed(m)
    ensures Run(m, first + second)
         == if Run(m, first).Running? then Run(Run(m, first).m, second) else Run(m, first)
    decreases |first|
  {
    hide Step;
    if first == [] {
      assert first + second == second;
    } else {
      assert (first + second)[0] == first[0] && (first + second)[1..] == first[1..] + second;
      if Step(m, first[0]).Running? {
        RunSplits(Step(m, first[0]).m, first[1..], second);
      }
    }
  }

  // ----- regular states -----

  /** From a regular start every fetch finds x0 zero and the program counter a multiple of four. */
  lemma {:induction false} RunKeepsRegular(m: Machine, hs: seq<Host>)
    requires Regular(m)
    ensures Run(m, hs).Running? ==> Regular(Run(m, hs).m)
    decreases |hs|
  {
    hide Step;
    if hs != [] && Step(m, hs[0]).Running? {
      StepKeepsRegular(m, hs[0]);
      RunKeepsRegular(Step(m, hs[0]).m, hs[1..]);
    }
  }

  lemma {:induction false} StepKeepsFixed(m: Machine, h: Host)
    requires WellFormed(m)
    ensures Step(m, h).m.regs[0] == m.regs[0]
    ensures Step(m, h).m.forbid == m.forbid
  {
    hide Exec;
  }

  /** However a run ends, x0 holds what it held before and the table of intervals is the same. */
  lemma {:induction false} RunKeepsFixed(m: Machine, hs: seq<Host>)
    requires WellFormed(m)
    ensures Run(m, hs).m.regs[0] == m.regs[0]
    ensures Run(m, hs).m.forbid == m.forbid
    decreases |hs|
  {
    hide Step;
    if hs != [] {
      StepKeepsFixed(m, hs[0]);
      if Step(m, hs[0]).Running? {
        RunKeepsFixed(Step(m, hs[0]).m, hs[1..]);
      }
    }
  }

  /** The storage is not cleared, so x0 reads zero along every run of a started machine only if it was zero there. */
  lemma {:induction false} ZeroFromStartIff(mem: Mem, forbid: Intervals, entry: Word, initial: seq<Word>,
                                            counts: map<Op, nat>)
    requires |initial| == 32
    ensures var m := Started(mem, forbid, entry, initial, counts);
      && ((forall hs :: Run(m, hs).m.regs[0] == 0) <==> initial[0] == 0)
      && (Regular(m) <==> initial[0] == 0 && entry % 4 == 0)
  {
    var m := Started(mem, forbid, entry, initial, counts);
    assert m.regs[0] == initial[0];
    forall hs
      ensures Run(m, hs).m.regs[0] == initial[0]
    {
      RunKeepsFixed(m, hs);
    }
    assert Run(m, []).m.regs[0] == initial[0];
  }

  // ----- jumps -----

  /** Where a jump or a taken branch goes. */
  function Target(m: Machine, op: Op, w: Word32): Word
    requires WellFormed(m)
    requires op == JAL || op == JALR || op.Branch?
  {
    if op == JAL then At(m.pc, ImmJ(w))
    else if op == JALR then At(m.regs[Rs1Of(w)], ImmI(w)) / 2 * 2
    else At(m.pc, ImmB(w))
  }

  predicate Jumps(m: Machine, op: Op, w: Word32)
    requires WellFormed(m)
  {
    op == JAL || op == JALR || (op.Branch? && Taken(op.b, m.regs[Rs1Of(w)], m.regs[Rs2Of(w)]))
  }

  /**
  A misaligned target traps before anything is written. An aligned one is taken,
  and computed from the registers as they were, even when the link overwrites the base.
  */
  lemma {:induction false} JumpOutcome(m: Machine, op: Op, w: Word32, h: Host)
    requires Regular(m) && Jumps(m, op, w)
    ensures var o, t := Exec(m, op, Sext32(w), h), Target(m, op, w);
      if t % 4 != 0 then o == Raised(m, Misaligned(t))
      else o == Running(m.(pc := t,
                           regs := if op.Branch? then m.regs else WriteReg(m.regs, RdOf(w), At(m.pc, 4))))
  {
    hide And, ImmI, ImmB, ImmJ, IImm, SbImm, UjImm, Rd, Rs1, Rs2, Sext32, At;
    FieldsAgree(w);
    EvenTarget(m, op, w);
    TargetTest(Target(m, op, w));
    match op
    case JAL => UjImmAgrees(w);
    case JALR =>
      IImmAgrees(w);
      ClearBit0(At(m.regs[Rs1Of(w)], ImmI(w)));
    case Branch(_) => SbImmAgrees(w);
  }

  lemma {:induction false} EvenTarget(m: Machine, op: Op, w: Word32)
    requires Regular(m)
    requires op == JAL || op == JALR || op.Branch?
    ensures Target(m, op, w) % 2 == 0
  {
    hide ImmI, ImmB, ImmJ, At;
    match op
    case JAL =>
      RangesJ(w);
      EvenSum(m.pc, ImmJ(w));
    case JALR =>
    case Branch(_) =>
      RangesB(w);
      EvenSum(m.pc, ImmB(w));
  }

  // ----- forbidden intervals -----

  /** The byte at `k` is neither changed, added nor removed. */
  predicate SameByte(before: Mem, after: Mem, k: Word) {
    (k in before <==> k in after) && (k in before ==> before[k] == after[k])
  }

  /** `k` lies in a forbidden interval too wide for a store to straddle. */
  predicate Guarded(forbid: Intervals, lo: Word, k: Word) {
    lo in forbid && lo <= k <= forbid[lo] && forbid[lo] - lo >= 6
  }

  lemma {:induction false} StoreKeeps(mem: Mem, forbid: Intervals, a: Word, bs: seq<Byte>, lo: Word, k: Word)
    requires Guarded(forbid, lo, k) && 1 <= |bs| <= 8 && Accepts(forbid, a, |bs|)
    ensures SameByte(mem, Store(mem, a, bs), k)
  {
    WideIntervalIsSafe(forbid, lo, a, |bs|, k);
    StoreLookup(mem, a, bs, k);
  }

  lemma {:induction false} PutKeeps(mem: Mem, forbid: Intervals, a: Word, bs: seq<Byte>, lo: Word, k: Word)
    requires Guarded(forbid, lo, k)
    ensures SameByte(mem, Put(mem, forbid, a, bs).0, k)
    decreases |bs|
  {
    if bs != [] {
      var n := |bs| - 1;
      PutKeeps(mem, forbid, a, bs[..n], lo, k);
      var (before, r) := Put(mem, forbid, a, bs[..n]);
      if Accepts(forbid, At(a, n), 1) {
        StoreKeeps(before, forbid, At(a, n), [bs[n]], lo, k);
      }
    }
  }

  lemma {:induction false} ExecKeepsGuarded(m: Machine, op: Op, b: Word, h: Host, lo: Word, k: Word)
    requires WellFormed(m) && Guarded(m.forbid, lo, k)
    ensures SameByte(m.mem, Exec(m, op, b, h).m.mem, k)
  {
    hide Load, And, Rd, Rs1, Rs2, Guarded, SameByte, ExecCall, ExecStore;
    hide RegValue, ImmValue, RegWordValue, ImmWordValue, MulValue, MulWordValue;
    SameByteReflexive(m.mem, k);
    match op
    case Stores(s) => StoreExecKeeps(m, At(m.regs[Rs1(b)], SImm(b)), StoreWidth(s), m.regs[Rs2(b)], lo, k);
    case SCALL => CallKeeps(m, h, lo, k);
    case _ =>
  }

  lemma {:induction false} StoreExecKeeps(m: Machine, a: Word, n: int, v: Word, lo: Word, k: Word)
    requires WellFormed(m) && Guarded(m.forbid, lo, k) && Width(n)
    ensures SameByte(m.mem, ExecStore(m, a, n, v).m.mem, k)
  {
    hide Store, Accepts, Guarded;
    if Accepts(m.forbid, a, n) {
      StoreKeeps(m.mem, m.forbid, a, ToBytes(v, n), lo, k);
    }
  }

  lemma {:induction false} CallKeeps(m: Machine, h: Host, lo: Word, k: Word)
    requires WellFormed(m) && Guarded(m.forbid, lo, k)
    ensures SameByte(m.mem, ExecCall(m, h).m.mem, k)
  {
    hide Put, Store, Accepts, Guarded, Collect, ToBytes, Received, SameByte;
    SameByteReflexive(m.mem, k);
    PutKeeps(m.mem, m.forbid, m.regs[11], if h.failed then [] else Received(h.input, m.regs[12]), lo, k);
    if Accepts(m.forbid, m.regs[10], 8) {
      StoreKeeps(m.mem, m.forbid, m.regs[10], ToBytes(h.clock, 8), lo, k);
    }
  }

  lemma {:induction false} StepKeepsGuarded(m: Machine, h: Host, lo: Word, k: Word)
    requires WellFormed(m) && Guarded(m.forbid, lo, k)
    ensures SameByte(m.mem, Step(m, h).m.mem, k)
  {
    hide Exec, SameByte, Guarded;
    match FetchAt(m.mem, m.pc)
    case Unmapped(_) => SameByteReflexive(m.mem, k);
    case Fetched(b) => ExecKeepsGuarded(m.(counts := Bump(m.counts, OpOf(b))), OpOf(b), b, h, lo, k);
  }

  lemma {:induction false} SameByteReflexive(mem: Mem, k: Word)
    ensures SameByte(mem, mem, k)
  {
  }

  /** No run, however it ends, touches a byte of a wide forbidden interval. */
  lemma {:induction false} RunKeepsGuarded(m: Machine, hs: seq<Host>, lo: Word, k: Word)
    requires WellFormed(m) && Guarded(m.forbid, lo, k)
    ensures SameByte(m.mem, Run(m, hs).m.mem, k)
    decreases |hs|
  {
    hide Step;
    if hs != [] {
      StepKeepsFixed(m, hs[0]);
      StepKeepsGuarded(m, hs[0], lo, k);
      if Step(m, hs[0]).Running? {
        RunKeepsGuarded(Step(m, hs[0]).m, hs[1..], lo, k);
      }
    }
  }

  /** Where every interval is wide, no store and no system call deviates from what is specified. */
  lemma {:induction false} WideConforms(m: Machine, w: Word32, op: Op)
    requires WellFormed(m) && AllWide(m.forbid)
    requires op.Stores? || op == SCALL
    ensures Conforms(m, w, op)
  {
    match op
    case Stores(s) => EndsProtect(m.forbid, At(m.regs[Rs1Of(w)], ImmS(w)), StoreWidth(s));
    case SCALL => EndsProtect(m.forbid, m.regs[10], 8);
  }

  lemma {:induction false} EndsProtect(forbid: Intervals, a: Word, n: int)
    requires AllWide(forbid) && Width(n)
    ensures Accepts(forbid, a, n) ==> !Isa.Protected(forbid, a, n)
  {
    EndsDecide(forbid, a, n);
    forall i | 0 <= i < n && Accepts(forbid, At(a, i), 1)
      ensures !Banned(forbid, At(a, i))
    {
    }
  }

  // ----- counters -----

  /** The instructions decoded along a run, in order. */
  function Decoded(m: Machine, hs: seq<Host>): seq<Op>
    requires WellFormed(m)
    decreases |hs|
  {
    if hs == [] then []
    else
      match FetchAt(m.mem, m.pc)
      case Unmapped(_) => []
      case Fetched(b) => [OpOf(b)] + (if Step(m, hs[0]).Running? then Decoded(Step(m, hs[0]).m, hs[1..]) else [])
  }

  function CountOf(counts: map<Op, nat>, op: Op): nat {
    if op in counts then counts[op] else 0
  }

  lemma {:induction false} StepCounts(m: Machine, h: Host)
    requires WellFormed(m)
    ensures Step(m, h).m.counts
         == match FetchAt(m.mem, m.pc)
            case Unmapped(_) => m.counts
            case Fetched(b) => Bump(m.counts, OpOf(b))
  {
    hide Exec;
  }

  lemma {:induction false} BumpCounts(counts: map<Op, nat>, decoded: Op, op: Op)
    ensures CountOf(Bump(counts, decoded), op) == CountOf(counts, op) + multiset([decoded])[op]
  {
  }

  lemma {:induction false} TakeFirst(first: Op, rest: seq<Op>, op: Op)
    ensures multiset([first] + rest)[op] == multiset([first])[op] + multiset(rest)[op]
  {
  }

  /** Each counter has grown by the number of times its instruction was decoded. */
  lemma {:induction false} CountersCount(m: Machine, hs: seq<Host>, op: Op)
    requires WellFormed(m)
    ensures CountOf(Run(m, hs).m.counts, op) == CountOf(m.counts, op) + multiset(Decoded(m, hs))[op]
    decreases |hs|
  {
    hide Step, OpOf, FetchAt, Bump, CountOf;
    if hs != [] {
      StepCounts(m, hs[0]);
      StepDecodes(m, hs[0]);
      match FetchAt(m.mem, m.pc)
      case Unmapped(_) =>
      case Fetched(b) =>
        BumpCounts(m.counts, OpOf(b), op);
        if Step(m, hs[0]).Running? {
          var m' := Step(m, hs[0]).m;
          CountersCount(m', hs[1..], op);
          TakeFirst(OpOf(b), Decoded(m', hs[1..]), op);
        }
    }
  }

  ghost function Total(counts: map<Op, nat>): nat
    decreases |counts|
  {
    if counts == map[] then 0
    else
      var op :| op in counts;
      counts[op] + Total(counts - {op})
  }

  lemma {:induction false} RemoveBoth(counts: map<Op, nat>, a: Op, b: Op)
    requires a in counts && b in counts && a != b
    ensures counts - {a} - {b} == counts - {b} - {a}
    ensures b in counts - {a} && (counts - {a})[b] == counts[b]
    ensures a in counts - {b} && (counts - {b})[a] == counts[a]
    ensures |counts - {a}| < |counts| && |counts - {b}| < |counts|
  {
    assert counts == (counts - {a})[a := counts[a]] == (counts - {b})[b := counts[b]];
  }

  /** The total does not depend on the order in which counters are added up. */
  lemma {:induction false} TotalWithout(counts: map<Op, nat>, op: Op)
    requires op in counts
    ensures Total(counts) == counts[op] + Total(counts - {op})
    decreases |counts|
  {
    var first :| first in counts && Total(counts) == counts[first] + Total(counts - {first});
    if first != op {
      RemoveBoth(counts, first, op);
      TotalWithout(counts - {first}, op);
      TotalWithout(counts - {op}, first);
    }
  }

  lemma {:induction false} BumpAddsOne(counts: map<Op, nat>, op: Op)
    ensures Total(Bump(counts, op)) == Total(counts) + 1
  {
    TotalWithout(Bump(counts, op), op);
    if op in counts {
      TotalWithout(counts, op);
      assert Bump(counts, op) - {op} == counts - {op};
    } else {
      assert Bump(counts, op) - {op} == counts;
    }
  }

  /** Together the counters have grown by the number of instructions decoded. */
  lemma {:induction false} CountersAddUp(m: Machine, hs: seq<Host>)
    requires WellFormed(m)
    ensures Total(Run(m, hs).m.counts) == Total(m.counts) + |Decoded(m, hs)|
    ensures Run(m, hs).Running? ==> |Decoded(m, hs)| == |hs|
    decreases |hs|
  {
    hide Step, Bump, Total;
    if hs != [] {
      StepCounts(m, hs[0]);
      StepDecodes(m, hs[0]);
      match FetchAt(m.mem, m.pc) {
        case Unmapped(_) =>
        case Fetched(b) => BumpAddsOne(m.counts, OpOf(b));
      }
      if Step(m, hs[0]).Running? {
        CountersAddUp(Step(m, hs[0]).m, hs[1..]);
      }
    }
  }

  lemma {:induction false} StepDecodes(m: Machine, h: Host)
    requires WellFormed(m)
    ensures Step(m, h).Running? ==> FetchAt(m.mem, m.pc).Fetched?
  {
    hide Exec;
  }
}

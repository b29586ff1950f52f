/**
The whole program: load a file, build the processor, run it; and what the
processor object then holds, in terms of the reference machine.
*/
module Simulation {
  import opened Words
  import opened Memory
  import opened HostSystem
  import opened MemoryUnit
  import opened Simulator
  import opened Refinement
  import opened Processor
  import opened Programs
  import opened Runs
  import opened Encodings
  import opened InstructionList
  import Isa
  import Environment
  import Loader

  /** The reference machine's name for the reason of a trap. */
  function CauseOf(t: Trap): Isa.Cause {
    match t
    case InvalidAddress(_, _) => Isa.FetchFault
    case Refused(first, _) => Isa.StoreFault(first)
    case Misaligned(target) => Isa.JumpMisaligned(target)
  }

  /** A processor that ended with `e` and now holds `m` is where the reference machine's run ended. */
  predicate Reached(r: Isa.Result, e: Status, m: Machine) {
    WellFormed(m) && r.s == Abs(m) &&
    match r
    case Next(s) => e == Go(s.pc)
    case Fault(_, cause) => e.Trapped? && CauseOf(e.t) == cause
    case Halt(_, code) => e == Exit(code)
  }

  /** What `Cpu.Steps` promises, restated: as long as no deviation arises it goes where the reference machine goes. */
  lemma {:induction false} StepsReach(m: Machine, hs: seq<Host>, e: Status, after: Machine)
    requires Regular(m) && FaithfulRun(m, hs)
    requires Ends(Run(m, hs), e, after) && (e.Go? ==> after.pc == e.npc)
    ensures Reached(Environment.Run(Abs(m), hs), e, after)
  {
    hide Run, FaithfulRun, Environment.Run;
    RunRefines(m, hs);
    EndReached(Run(m, hs), e, after, Environment.Run(Abs(m), hs));
  }

  lemma {:induction false} EndReached(o: Outcome, e: Status, after: Machine, r: Isa.Result)
    requires Ends(o, e, after) && Agrees(o, r) && (e.Go? ==> after.pc == e.npc)
    ensures Reached(r, e, after)
  {
  }

  /** Every instruction of the table has a counter, at zero before the run. */
  lemma {:induction false} NoneCountedYet(op: Op)
    ensures op in NoneCounted() && NoneCounted()[op] == 0
  {
    hide LISTED;
    if op != ILLEGAL {
      EveryOpIsListed(op);
    }
  }

  /** From a start each counter holds the number of times its instruction was decoded. */
  lemma {:induction false} CountersFromStart(mem: Mem, forbid: Intervals, entry: Word, initial: seq<Word>,
                                             hs: seq<Host>, op: Op)
    requires |initial| == 32
    ensures var m := Started(mem, forbid, entry, initial, NoneCounted());
      CountOf(Run(m, hs).m.counts, op) == multiset(Decoded(m, hs))[op]
  {
    hide Started, Run, Decoded, NoneCounted;
    NoneCountedYet(op);
    StartedMeaning(mem, forbid, entry, initial, NoneCounted());
    CountersCount(Started(mem, forbid, entry, initial, NoneCounted()), hs, op);
  }

  /**
  The main program, run without end: `hs` gives the host's answers for as much of
  the run as is looked at. When the word at the stack pointer may not be cleared,
  nothing is run.
  */
  method Simulate(sections: seq<Loader.Section>, segments: seq<Loader.Range>, entry: Word, initial: seq<Word>,
                  hs: seq<Host>) returns (cpu: Cpu, e: Status)
    requires Loader.NamesFit(sections) && |initial| == 32
    ensures cpu.Valid()
    ensures var img := LoadedImage(sections, segments);
      var m := Started(img.mem, img.forbid, entry, initial, NoneCounted());
      if !Accepts(img.forbid, STACK_START, 8) then
        e == Trapped(Refused(STACK_START, At(STACK_START, 7))) && cpu.View() == m.(mem := img.mem)
      else
        && Ends(Run(m, hs), e, cpu.View())
        && (Regular(m) && FaithfulRun(m, hs) ==> Reached(Environment.Run(Abs(m), hs), e, cpu.View()))
  {
    hide Run, FaithfulRun, Environment.Run, Ends, Reached, Started, NoneCounted, Accepts,
         Loader.ReadElf, Loader.NamesFit;
    var memory := new Mmu();
    memory.ReadElf(sections, segments);
    var r;
    cpu, r := Boot(memory, entry, initial);
    ghost var m := cpu.View();
    if r != Done {
      return cpu, Trapped(Refused(STACK_START, At(STACK_START, 7)));
    }
    e := cpu.Steps(0, hs);
    if Regular(m) && FaithfulRun(m, hs) {
      StepsReach(m, hs, e, cpu.View());
    }
  }
}

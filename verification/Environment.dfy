/**
The reference machine in its environment: what a program asks of the system with
an environment call, stated for the reference machine's own states.
*/
module Environment {
  import opened Words
  import opened Memory
  import opened MemoryLaws
  import opened HostSystem
  import opened Isa

  /** How many of the `n` bytes from `a` on come before the first protected one. */
  function Permitted(readOnly: Intervals, a: Word, n: nat): (k: nat)
    ensures k <= n && forall i :: 0 <= i < k ==> !Banned(readOnly, At(a, i))
    ensures k < n ==> Banned(readOnly, At(a, k))
  {
    if n == 0 then 0
    else
      var k := Permitted(readOnly, a, n - 1);
      if k < n - 1 || Banned(readOnly, At(a, n - 1)) then k else n
  }

  /** Bytes from the host go to memory up to the first protected address; reaching one is a store fault there. */
  function Read(s: State, h: Host): (r: Result)
    requires WellFormed(s)
    ensures WellFormed(r.s)
  {
    var a := Get(s, 11);
    var bs := if h.failed then [] else Received(h.input, Get(s, 12));
    var k := Permitted(s.readOnly, a, |bs|);
    var filled := s.(mem := Store(s.mem, a, bs[..k]));
    if k < |bs| then Fault(filled, StoreFault(At(a, k)))
    else Next(SetX(filled, 10, if h.failed then Wrap(-1) else |bs|, At(s.pc, 4)))
  }

  /** The bytes of a range, zero where nothing is mapped, are handed to the host. */
  function Write(s: State, h: Host): (r: Result)
    requires WellFormed(s)
    ensures WellFormed(r.s)
  {
    Next(SetX(s.(sent := s.sent + [ZeroFilled(s.mem, Get(s, 11), Get(s, 12))]), 10, h.result, At(s.pc, 4)))
  }

  /** The result register is set before the eight bytes of the time are stored. */
  function TimeOfDay(s: State, h: Host): (r: Result)
    requires WellFormed(s)
    ensures WellFormed(r.s)
  {
    var a := Get(s, 10);
    if Protected(s.readOnly, a, 8) then Fault(SetX(s, 10, h.result, s.pc), StoreFault(a))
    else Next(SetX(s.(mem := Store(s.mem, a, ToBytes(h.clock, 8))), 10, h.result, At(s.pc, 4)))
  }

  /** The call numbers of the proxy kernel; an unknown one ends the run with code 1. */
  function Call(s: State, h: Host): (r: Result)
    requires WellFormed(s)
    ensures WellFormed(r.s)
  {
    match Get(s, 17)
    case 57 => Next(s.(pc := At(s.pc, 4)))
    case 62 => Next(s.(pc := At(s.pc, 4)))
    case 63 => Read(s, h)
    case 64 => Write(s, h)
    case 80 => Next(SetX(s, 10, h.result, At(s.pc, 4)))
    case 93 => Halt(s, 0)
    case 169 => TimeOfDay(s, h)
    case 214 => Next(s.(pc := At(s.pc, 4)))
    case 1062 => Next(SetX(s, 10, h.result, At(s.pc, 4)))
    case _ => Halt(s, 1)
  }

  /** An environment call is answered; every other fault stands. */
  function Answered(r: Result, h: Host): (r': Result)
    requires WellFormed(r.s)
    ensures WellFormed(r'.s)
  {
    if r.Fault? && r.cause == EnvironmentCall then Call(r.s, h) else r
  }

  function Step(s: State, h: Host): (r: Result)
    requires WellFormed(s)
    ensures WellFormed(r.s)
  {
    Answered(Isa.Step(s), h)
  }

  /** One step for each host answer, or as many as there are before a fault or a halt. */
  function Run(s: State, hs: seq<Host>): (r: Result)
    requires WellFormed(s)
    ensures WellFormed(r.s)
    decreases |hs|
  {
    if hs == [] then Next(s)
    else
      match Step(s, hs[0])
      case Next(s') => Run(s', hs[1..])
      case r => r
  }
}

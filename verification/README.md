# A verified model of the RV64IM simulator

This project models the integer part of a RISC-V simulator written in C++: a
program loader, a sparse byte memory with write-protected intervals, a decoder
that scans a mask-and-match table, the RV64IM instruction handlers, system
calls, and the fetch-decode-execute loop. Against it stands an independent
reference machine, `Isa`, written from chapters 2, 5 and 7 of the RISC-V
Unprivileged ISA (version 20191213) over mathematical integers.

The main result is `Refinement.StepAgreesIff`: one step of the simulator is one
step of the reference machine *exactly when* none of six named conditions
arises, and `Refinement.LockstepIff` and `Refinement.RunRefines` carry this to
whole runs: system calls, output handed to the host, traps and exits included,
with the state in which a run ends. The conditions are where the code departs
from the specification; module `Deviations` says what the code does instead, in
every state, and shows a concrete step for each. `Simulation.Simulate` is the main program, from the file to the end of the run.

How the layers fit together:

- `Words`: machine words as integers, wrap-around, bitwise operators bit by bit,
  and what turns shifts and masks into division and remainder.
- `MultiplyHigh`: the upper half of a 128-bit product from 32-bit limbs.
- `Memory`, `MemoryUnit` (Mmu.dfy), `MemoryLaws`: loads, stores, fetches and
  permissions as values; the class whose loops compute them; the laws they obey.
- `Loader`: sections and segments copied in, first writer wins.
- `Instruction`, `Formats`, `InstructionMeaning`: the accessors as coded on the
  sign-extended 64-bit word, the formats of sections 2.2 and 2.3, and their agreement.
- `Encodings`, `Decoder`, `OpcodeMap`, `Masks`, `DecodeMeaning`,
  `InstructionList`: the table, the scan, the opcode map by fields, and the
  proof that the scan computes the map in any registration order.
- `Handlers`, `HandlerMeaning`, `ArithmeticLaws`: the values handlers write as
  coded, their agreement with `Isa`, and laws between handlers.
- `Isa`, `Environment`, `HostSystem` (Host.dfy): the reference machine, what its
  environment calls ask for, and what the host contributes.
- `Simulator`, `Processor`, `Refinement`, `Runs`, `Programs`, `Deviations`,
  `Simulation`: the step and run functions, the classes that update registers,
  memory and counters in place and are proved to follow those functions, and the
  theorems over runs.

Integers are unbounded in Dafny, so every wrap-around is written out. Signed
overflow is taken as two's-complement wrap. C++ exceptions are outcomes that end
a run. What the host system answers to a system call is an input of the step
(`HostSystem.Host`). Every lemma is marked `{:induction false}`: no proof rests on
automatic induction.

Where the code and what it is meant to do disagree, the model follows the code:

- `sltu` compares with the immediate field, which in its words is the *number* of
  the second register (func.h:173); `HandlerMeaning.SltuAgreesIff` says when that matters.
- `sllw` shifts all 64 bits by up to 63 places (func.h:534); `HandlerMeaning.SllwAgreesIff`.
- A load skips unmapped bytes and closes up the rest instead of trapping
  (mmu.cpp:226-238); `MemoryLaws.PartlyMappedLoad`.
- A store is checked at its two end addresses only (mmu.cpp:282);
  `MemoryLaws.SafeExactlyWhenWide` gives the width, 7 bytes, from which that suffices.
  The eight bytes that the time-of-day call stores are checked the same way (mmu.cpp:312).
- An illegal word sends the machine to address 0 (cpu.h:73-77) where a trap is due;
  `Deviations.IllegalGoesToZero`.
- The loader passes the number of a section's name where the number of the
  section is meant (mmu.cpp:70-76); `Loader.SectionsLoadedIff`.
- The forbidden interval of a read-only section ends one past its last byte
  (mmu.cpp:161-169). A store to the byte after the section is refused
  (`Loader.NextByteRefused`, `Deviations.StoreAfterSection`), and six bytes of
  read-only data are already safe. If the end of the section goes round the
  address space, the interval is empty and nothing is protected
  (`Loader.EndGoesRound`). `Loader.RefusesIff` says exactly what is refused;
  no section has exactly its own bytes protected (`Loader.ProtectionNeverExact`).

The third partial sum of `mulhu` has 2^64-2 as its exact maximum
(`MultiplyHigh.SumBoundsAreExact`).

## Model

| member | source | states |
|---|---|---|
| MultiplyHigh.Mulhu | multi.h:6-25 | returns the true 128-bit product divided by 2^64, for all operands |
| MultiplyHigh.FirstFits | multi.h:13 | the first 64-bit sum of partial products never wraps, with its bound |
| MultiplyHigh.SecondFits | multi.h:17 | nor does the second |
| MultiplyHigh.ThirdFits | multi.h:20 | nor does the third, for any limbs |
| MultiplyHigh.ThirdIsHigh | multi.h:13-22 | the third sum is the upper half of the product, at most 2^64-2 |
| MultiplyHigh.SumBoundsAreExact | multi.h:13-20 | each of the three bounds is attained |
| MultiplyHigh.Mulh | multi.h:27-32 | the floor of the signed product over 2^64, for every pair including the least value and zero |
| MultiplyHigh.Mulhsu | multi.h:34-39 | the same for a signed and an unsigned operand |
| Memory.BytesRoundTrip | mmu.cpp:221-230 | cutting a little-endian number into bytes inverts assembling it |
| Memory.ValueRoundTrip | mmu.cpp:286-299 | assembling the bytes of a value gives it back modulo the width |
| Memory.StoreLookup | mmu.cpp:286-304 | a store sets exactly the addresses of its range, round past 2^64, and leaves all others |
| MemoryUnit.Mmu.Ban | mmu.cpp:204-212 | true exactly when some interval contains the address, whatever order they are visited in |
| MemoryUnit.Mmu.Read | mmu.cpp:214-261 | the or-and-shift loop with its sign masks returns the little-endian value of the mapped bytes, sign- or zero-extended |
| MemoryUnit.Mmu.Write | mmu.cpp:263-304 | accepted exactly when both ends are permitted; then the range holds the low bytes of the value, else memory is untouched |
| MemoryUnit.Mmu.WriteBare | mmu.cpp:307-331 | the same for a byte buffer of any length |
| MemoryUnit.Mmu.LoadInsn | mmu.cpp:396-428 | promoting bytes to `int` before shifting yields the word sign-extended to 64 bits; stops at the first unmapped byte |
| MemoryUnit.WithSignExtends | mmu.cpp:240-256 | testing one bit and or-ing a mask is two's-complement sign extension |
| MemoryUnit.TopByte | mmu.cpp:407-417 | the fourth byte, shifted into the sign bit of an `int`, brings the sign extension with it |
| MemoryLaws.LoadAfterStore | mmu.cpp:214-304 | a load of any width inside a stored range returns exactly the matching bytes |
| MemoryLaws.LoadStored | mmu.cpp:333-393 | a full-width load returns the stored value cut to its width and extended |
| MemoryLaws.LoadElsewhere | mmu.cpp:214-304 | a load of a range disjoint from a store does not see it |
| MemoryLaws.FetchIsLoad | mmu.cpp:375-428 | fetch succeeds exactly on four mapped bytes, then equals a signed 32-bit load, else reports the first unmapped byte |
| MemoryLaws.FetchAfterStore | mmu.cpp:343-428 | a stored 32-bit word is the next word fetched there |
| MemoryLaws.LoadMeaning | mmu.cpp:214-261 | the value of any load, whatever is mapped: the bytes present closed up, unsigned or signed at the full width |
| MemoryLaws.PartlyMappedLoad | mmu.cpp:221-255 | a load over gaps, signed or not, is the load with zeros in the gaps if and only if nothing but zeros follows a gap |
| MemoryLaws.WideIntervalIsSafe | mmu.cpp:204-304 | an accepted store of up to 8 bytes misses every byte of an interval at least 7 wide, wrapping spans included |
| MemoryLaws.NarrowIntervalIsExposed | mmu.cpp:282-283 | in a table of one narrower interval every byte of it can be overwritten by one accepted store |
| MemoryLaws.SafeExactlyWhenWide | mmu.cpp:282-283 | the interval of a one-interval table is safe from all stores if and only if it is at least 7 wide or empty |
| MemoryLaws.SafeByteIff | mmu.cpp:204-283 | in any table a byte is safe from all stores if and only if each placement of a store over it meets an interval at one of its ends |
| MemoryLaws.EndsDecide | mmu.cpp:282-283 | over wide intervals a wide store is accepted if and only if every byte of it would be |
| MemoryLaws.WideStoreIsByteStores | mmu.cpp:282-352 | over wide intervals a store and its single-byte stores are accepted together and leave the same memory |
| MemoryLaws.PutRefused | func.h:66-76 | byte-by-byte storing stops at the first refused address with exactly the earlier bytes stored |
| MemoryLaws.BufferRoundTrip | func.h:54-76 | bytes put at permitted addresses are collected unchanged and no other address changes |
| Loader.CopyMeaning | mmu.cpp:175-181 | copying a range fills only unmapped addresses, each with its first byte for that address, round past 2^64 |
| Loader.CopyPlaces | mmu.cpp:175-181 | byte i of a range goes to the address i after its start |
| Loader.FirstWriterWins | mmu.cpp:175-200 | after any list of ranges an address holds its earlier contents, else the byte of the first range containing it |
| Loader.SameUnion | mmu.cpp:175-200 | two lists of non-contradicting ranges load the same memory if and only if they cover the same unmapped addresses |
| Loader.AnyLoadOrder | mmu.cpp:175-200 | pairwise disjoint ranges can be loaded in any order |
| Loader.OrderMatters | mmu.cpp:180-197 | two ranges commute if and only if they agree on every fresh address they share |
| Loader.SegmentsDecide | mmu.cpp:66-80 | when segments repeat the bytes of the sections loaded, memory is that of the segments whatever sections those were |
| Loader.IntervalOf | mmu.cpp:156-169 | a read-only section whose start no other loaded one shares gets its interval if and only if it is loaded |
| Loader.IntervalsMeaning | mmu.cpp:156-169 | the interval table after loading: one entry for each start, ending where the first read-only section loaded from there ends |
| Loader.RefusesIff | mmu.cpp:156-212 | an interval refuses the section's own bytes and the next one, and nothing at all when the end goes round |
| Loader.ProtectedIff | mmu.cpp:156-212 | a section's bytes are all refused if and only if its end does not go round |
| Loader.ProtectionNeverExact | mmu.cpp:156-212 | no section has exactly its own bytes refused |
| Loader.RefusedIff | mmu.cpp:156-283 | a byte store after loading is refused if and only if the interval of a read-only section that claimed its start refuses it |
| Loader.NextByteRefused | mmu.cpp:161-169 | a concrete store refused just outside a read-only section |
| Loader.EndGoesRound | mmu.cpp:161-169 | a concrete read-only section that is not protected |
| Loader.SectionHeld | mmu.cpp:149-201 | when the sections loaded do not overlap each has its bytes in memory whatever the segments hold |
| Loader.IntervalAddedIff | mmu.cpp:156-170 | for every name: loading a section adds an interval if and only if it is `.rodata` or `.rodatal`, and none is lost |
| Loader.PlanMeaning | mmu.cpp:66-78 | which sections the loader loads: those numbered like a name in use |
| Loader.LoadedNames | mmu.cpp:57-78 | which of the four names in the table causes which of sections 0 to 3 to be loaded, and that no other section is |
| Loader.SectionsLoadedIff | mmu.cpp:66-78 | the named sections are what is loaded if and only if the non-empty ones among them are numbered like the names in use; only sections on either side must not overlap |
| Loader.LateSectionMissed | mmu.cpp:66-78 | a non-empty named section numbered 4 or more always breaks that condition |
| Loader.DataSectionMissed | mmu.cpp:66-78 | a concrete table whose `.data` byte stays out of memory |
| MemoryUnit.Mmu.ReadElf | mmu.cpp:50-83 | the nested name search followed by the segments produces the specified image |
| MemoryUnit.Mmu.LoadNamed | mmu.cpp:68-77 | the search loads the section numbered like the name, or nothing |
| MemoryUnit.Mmu.LoadData | mmu.cpp:149-182 | bytes first-writer-wins, and an interval for the two read-only names |
| MemoryUnit.Mmu.LoadProg | mmu.cpp:185-201 | all segments are copied in order |
| MemoryUnit.Mmu.CopyIn | mmu.cpp:175-181 | the insertion loop follows the value that `CopyMeaning` characterises |
| InstructionMeaning.FieldsAgree | structs.h:69-78 | on the sign-extended word the three accessors are the fields of section 2.2 |
| InstructionMeaning.IImmAgrees | structs.h:64 | the accessor is the I-immediate of section 2.3, for every word |
| InstructionMeaning.SImmAgrees | structs.h:65 | the same for the S-immediate |
| InstructionMeaning.SbImmAgrees | structs.h:66 | the same for the B-immediate |
| InstructionMeaning.UImmAgrees | structs.h:67 | the same for the U-immediate |
| InstructionMeaning.UjImmAgrees | structs.h:68 | the same for the J-immediate |
| InstructionMeaning.IImmRoundTrip | structs.h:64 | every I-immediate survives assembling, storing, fetching and extraction |
| InstructionMeaning.SImmRoundTrip | structs.h:65 | every S-immediate does |
| InstructionMeaning.SbImmRoundTrip | structs.h:66 | every even B-immediate does |
| InstructionMeaning.UImmRoundTrip | structs.h:67 | every U-immediate that is a multiple of 4096 does |
| InstructionMeaning.UjImmRoundTrip | structs.h:68 | every even J-immediate does |
| InstructionMeaning.ImmediateRanges | structs.h:64-68 | whatever word is fetched, immediates are in range, B and J even, U a multiple of 4096 |
| Instruction.ShamtValue | structs.h:129 | the shift amount is the immediate modulo 64 |
| Decoder.Scan | cpu.h:173-195 | stops inside any table that ends with the catch-all, at the first match |
| Decoder.ScanNames | cpu.h:173-195 | where it stops, the entry is the one a front-to-back reading names |
| Decoder.NamedByMatch | cpu.h:179 | a disjoint table names a word by its one matching entry, wherever it stands |
| Decoder.OrderIndependent | cpu.h:115-132 | permuting a disjoint table, catch-all last, changes no word's name |
| Masks.MaskKeeps | cpu.h:179 | and-ing the 64-bit word with a mask in use keeps exactly the fields that mask covers |
| DecodeMeaning.EntryMeaning | encoding.h:4-293 | each entry matches exactly the words the opcode map gives to its instruction |
| DecodeMeaning.EntriesDisjoint | encoding.h:4-293 | no word matches two entries |
| DecodeMeaning.ReorderedList | insn_list.h:1-123 | any registration order of any such list decodes alike |
| InstructionList.EveryOpIsListed | insn_list.h:1-123 | no instruction of the opcode map is missing from the list |
| InstructionList.NamedIsLookup | insn_list.h:1-123 | the registered table names every fetched word as the opcode map does |
| InstructionList.TableNames | cpu.h:173-195 | wherever a scan of the registered table stops, it has found the instruction of the opcode map |
| InstructionList.AnyOrder | insn_list.h:1-123 | every permutation of the list decodes every word the same |
| HandlerMeaning.RegAgrees | func.h:141-212 | register-register handlers except sltu write the specified value |
| HandlerMeaning.SltuAgreesIff | func.h:170-175 | `sltu` is right if and only if the immediate and the register lie on the same side of rs1 |
| HandlerMeaning.BitwiseRegisters | func.h:176-212 | `xor`, `or` and `and` act on each bit position by itself |
| HandlerMeaning.BitwiseImmediates | func.h:248-289 | so do `xori`, `ori` and `andi`, on the sign-extended immediate |
| HandlerMeaning.ImmAgrees | func.h:224-289 | immediate handlers write the specified value |
| HandlerMeaning.RegWordAgrees | func.h:514-555 | word handlers except sllw write the specified value |
| HandlerMeaning.SllwAgreesIff | func.h:530-537 | `sllw` is right if and only if the operand fits the shift in 32 bits |
| HandlerMeaning.ImmWordAgrees | func.h:562-594 | immediate word handlers write the specified value |
| HandlerMeaning.MulAgrees | func.h:612-786 | multiply and divide handlers write the specified value in every corner case |
| HandlerMeaning.MulWordAgrees | func.h:622-786 | so do their word forms |
| HandlerMeaning.QuotMeaning | func.h:669-786 | C's truncating operators are the specified quotient and remainder |
| ArithmeticLaws.DivRemIdentity | func.h:669-757 | divisor times DIV plus REM is the dividend modulo 2^64, divisor 0 and overflow included |
| ArithmeticLaws.RemSigned | func.h:728-757 | REM is smaller than the divisor and has the dividend's sign |
| ArithmeticLaws.DivuRemuIdentity | func.h:669-757 | the unsigned identity, exact for non-zero divisors |
| ArithmeticLaws.DivwRemwIdentity | func.h:698-786 | the signed identity modulo 2^32 |
| ArithmeticLaws.RemwSigned | func.h:758-786 | REMW is smaller than the divisor and has the dividend's sign |
| ArithmeticLaws.DivuwRemuwIdentity | func.h:698-786 | the unsigned identity modulo 2^32 |
| ArithmeticLaws.UnsignedPair | func.h:612-668 | MULHU and MUL together are the exact product |
| ArithmeticLaws.SignedPair | func.h:612-668 | MULH and MUL together are the exact signed product |
| ArithmeticLaws.MixedPair | func.h:612-668 | MULHSU and MUL together are the exact signed-by-unsigned product |
| ArithmeticLaws.RegWordForms | func.h:514-555 | word results have bits 63 to 31 equal and depend only on the operands modulo 2^32 |
| ArithmeticLaws.ImmWordForms | func.h:562-594 | so do immediate word results |
| ArithmeticLaws.MulWordForms | func.h:622-786 | so do word products, quotients and remainders |
| Simulator.WriteReg | structs.h:89-93 | only the named register changes, and register 0 never does |
| Simulator.Exec | func.h:78-793 | no instruction disturbs the intervals, the counters, or what x0 holds |
| Processor.RegisterFile.Write | structs.h:89-93 | the array afterwards is the specified register file |
| Processor.Cpu.constructor | cpu.h:152-170 | table registered, stack pointer set, every other register as the storage held it, counters zero |
| Processor.Cpu.ClearStackTop | cpu.h:163 | the word at the stack pointer is cleared if that is permitted |
| Processor.Boot | cpu.h:152-170 | the machine that construction produces, or the refusal |
| Processor.Cpu.RegisterInstructions | cpu.h:115-132 | the table is the list in order with the catch-all last, one zero counter per name |
| Processor.Cpu.RegisterInsn | cpu.h:134-141 | an entry is appended; an existing counter is left alone |
| Processor.Cpu.SetNpc | structs.h:113-117 | of the even targets exactly the multiples of four are let through, unchanged; the trap carries the target; nothing else happens |
| Processor.Cpu.DoLoad | func.h:364-423 | follows the specified load |
| Processor.Cpu.DoStore | func.h:431-463 | follows the specified store, nothing written on a refusal |
| Processor.Cpu.DoJump | func.h:469-488 | the link is written only once the target is accepted |
| Processor.Cpu.DoBranch | func.h:298-353 | follows the specified taken branch |
| Processor.Cpu.SimRead | func.h:66-76 | a loop of one-byte stores through a signed `char` stores the host's bytes up to the first refusal |
| Processor.Cpu.SimWrite | func.h:54-65 | a loop of one-byte loads collects the buffer |
| Processor.Cpu.DoCall | func.h:78-137 | each system call number has the specified effect |
| Processor.Cpu.DecodeInsn | cpu.h:173-206 | finds the instruction of the opcode map and counts it once |
| Processor.Cpu.DoCompute | func.h:141-786 | register-writing instructions follow the specified step, through the limb routines |
| Processor.Cpu.ExecuteInsn | cpu.h:247-250 | every instruction follows the specified step |
| Processor.Cpu.Cycle | cpu.h:213-229 | one iteration is one specified step; a trap leaves the program counter where it was |
| Processor.Cpu.Steps | cpu.h:208-240 | the loop is the specified run for as many steps as asked for, and leaves the program counter at the next one |
| Refinement.FetchAgrees | cpu.h:221 | fetch fails exactly where the reference machine faults, and delivers its word sign-extended |
| Refinement.SltuImmediate | func.h:170-175 | in a word decoded as `sltu` the immediate is the number of rs2 |
| Refinement.ShortShifts | encoding.h:64-69 | the masks of the immediate word shifts leave only amounts below 32 |
| Refinement.RegStep | func.h:141-212 | register-register instructions except sltu are the specified step |
| Refinement.SltuStep | func.h:170-175 | `sltu` is the specified step if and only if rd is x0 or the comparison comes out alike |
| Refinement.ImmStep | func.h:224-289 | immediate instructions are the specified step |
| Refinement.RegWordStep | func.h:514-555 | word instructions are the specified step; for `sllw` if and only if rd is x0 or the result fits |
| Refinement.ImmWordStep | func.h:562-594 | immediate word instructions are the specified step |
| Refinement.MulStep | func.h:612-757 | multiplications and divisions are the specified step |
| Refinement.MulWordStep | func.h:622-786 | so are their word forms |
| Refinement.LuiStep | func.h:499-506 | `lui` is the specified step |
| Refinement.AuipcStep | func.h:490-497 | `auipc` is the specified step |
| Refinement.FenceStep | func.h:788-793 | `fence` is the specified step |
| Refinement.JalStep | func.h:469-478 | `jal` is the specified step, misaligned targets included |
| Refinement.JalrStep | func.h:480-488 | `jalr` is the specified step, also with rd = rs1 |
| Refinement.BranchStep | func.h:298-353 | all branches are the specified step |
| Refinement.LoadStep | func.h:364-423 | a load is the specified step if and only if its whole range is mapped |
| Refinement.StoreStep | func.h:431-463 | a store is the specified step if and only if it does not straddle a protected byte |
| Refinement.PutPermitted | func.h:66-76 | bytes from the host are stored up to the first protected address, which is the one reported |
| Refinement.ReadCallAgrees | func.h:66-76 | `read` fills the buffer, or faults there, as the environment specifies |
| Refinement.WriteCallAgrees | func.h:54-65 | `write` hands over the buffer with zeros for unmapped bytes, as specified |
| Refinement.TimeCallAgreesIff | func.h:120-130 | `gettimeofday` is as specified if and only if its eight bytes do not straddle a protected one |
| Refinement.CallStep | func.h:78-137 | every system call is the specified one, with that exception |
| Refinement.ExecAgreesIff | func.h:78-793 | an instruction is executed as specified if and only if `Conforms` holds before it |
| Refinement.StepAgreesIff | cpu.h:213-229 | one step, a system call included, is one step of the reference machine in its environment if and only if no deviation arises |
| Refinement.StepKeepsRegular | cpu.h:213-229 | steps keep x0 zero and the program counter a multiple of four |
| Refinement.RunRefines | cpu.h:208-240 | along a run without deviations both machines stay in step, up to and including a trap or an exit and the state it leaves |
| Refinement.LockstepIff | cpu.h:208-240 | over runs without floating point the machines agree after every number of steps if and only if no state on the way shows a deviation |
| Runs.RunSplits | cpu.h:208-240 | running m and then n steps is running m+n |
| Runs.RunKeepsRegular | cpu.h:208-240 | over every run from a regular start every fetch is aligned and finds x0 zero |
| Runs.RunKeepsFixed | cpu.h:208-240 | however a run ends, x0 and the interval table are what they were |
| Runs.ZeroFromStartIff | structs.h:89-99 | x0 reads zero along every run of a started machine if and only if its storage held zero there |
| Runs.WideConforms | mmu.cpp:282-312 | where every interval is wide no store and no system call deviates |
| Runs.JumpOutcome | func.h:298-488 | a misaligned target traps with nothing written; an aligned one is reached, computed from the old registers |
| Runs.StepKeepsGuarded | mmu.cpp:263-331 | no step changes, adds or removes a byte of a wide forbidden interval |
| Runs.RunKeepsGuarded | mmu.cpp:204-331 | nor does any run, however it ends, system calls included |
| Runs.CountersCount | cpu.h:197-200 | each counter has grown by the number of steps decoded to its name |
| Runs.CountersAddUp | cpu.h:197-240 | the counters have grown by the number of instructions decoded, which is the number of steps of a run that did not end |
| Programs.BuildsConstant | func.h:499-569 | `lui` and `addiw` with the carry-adjusted split leave the sign extension of any 32-bit number |
| Programs.BuildsAddress | func.h:224-497 | `auipc` and `addi` leave any address in the window around the first of them |
| Programs.ReachableIff | func.h:224-497 | an address can be built that way if and only if it lies in that window |
| Programs.ReadThenWrite | func.h:54-137 | `read` stores the host's bytes, or the first `len` of them, returns their number and changes no other byte; `write` hands the same bytes back |
| Programs.FailedRead | func.h:66-76 | a read that fails on the host returns -1 and stores nothing |
| Programs.RefusedRead | func.h:66-76 | a read into a refused byte traps there with exactly the bytes before it stored |
| Programs.StartedMeaning | cpu.h:32-163 | a started machine has its stack pointer set, the eight bytes there zero, and everything else as it was |
| Programs.ReadOnlyDataSurvives | mmu.cpp:149-331 | a loaded read-only section of six or more bytes keeps its file contents from the start of the machine through every run |
| Deviations.SltuAsCoded | func.h:170-175 | what every `sltu` step does: the first register against the number of the second |
| Deviations.SllwAsCoded | func.h:530-537 | what every `sllw` step does: all 64 bits shifted by six bits' worth |
| Deviations.LoadAsCoded | func.h:364-423 | what every load step does, mapped or not: the bytes present closed up, signed at the full width |
| Deviations.StoreAsCoded | func.h:431-463 | what every store step does: done in full when both ends are free, else a trap naming the two ends |
| Deviations.TimeAsCoded | func.h:120-130 | what every time-of-day call does: the result register first, then eight bytes under the same test |
| Deviations.FetchTraps | mmu.cpp:407-421 | a failed fetch reports the program counter and the first unmapped address and changes nothing |
| Deviations.SltuDiffers | func.h:170-175 | a concrete `sltu` step that is not the specified one |
| Deviations.SllwDiffers | func.h:530-537 | a concrete `sllw` step that is not |
| Deviations.LoadOfGap | mmu.cpp:231-238 | a concrete half-word load over a gap that should trap and yields its high byte |
| Deviations.StoreAcross | mmu.cpp:282-283 | a concrete store over a forbidden byte that should trap |
| Deviations.TimeAcross | func.h:120-130 | a concrete time-of-day call that stores over a forbidden byte |
| Deviations.StoreAfterSection | mmu.cpp:161-169 | a concrete byte store after the end of a read-only section that traps |
| Deviations.IllegalGoesToZero | cpu.h:73-77 | every unlisted word moves the machine to address 0 where the specification traps, whatever the state |
| Deviations.ZeroGoesToZero | cpu.h:73-77 | the zero word is an instance |
| Simulation.StepsReach | cpu.h:208-240 | where the step loop ends, with the state it leaves, is where the reference machine ends as long as no deviation arises |
| Simulation.CountersFromStart | cpu.h:134-200 | from a start each counter holds the number of times its instruction was decoded |
| Simulation.Simulate | riscv-simulator.cpp:27-46 | loading, construction and running together follow the simulator's run, and the reference machine's as long as no deviation arises |

## Left out

- Floating point: only the encodings are modelled; a step that decodes to a floating-point instruction ends the modelled run.
- Host effects: the bytes read, the numbers returned and the clock are inputs of a step; `fstat` is a returned number only.
- Loader.SectionsLoadedIff: sections that are loaded, or named, must share no addresses; when they do, `FirstWriterWins` and `SameUnion` say what results.
- MemoryUnit.Mmu.ReadElf: names of the four kinds must have numbers inside the header table; otherwise the code reads past it and there is no behaviour to model.
- MemoryUnit.Mmu.Read: the test `iter != end() || iter->first == cur_addr`, which dereferences `end()`, is taken to mean that the key is present; the same holds for stores.
- Processor.Cpu.Steps: `step(0)` runs for ever; the model describes every finite beginning of such a run. The `int` step and counter variables do not overflow in it.
- Refinement.StepAgreesIff: is stated for states in which x0 is zero, because the register storage is never cleared (structs.h:99) and x0 reads whatever it holds.
- The trap for shift amounts of 64 or more cannot occur, since the amount is masked with 63 first, and is not modelled.
- `ebreak`: not among the listed instructions; the simulator treats it as illegal, the reference machine faults with a breakpoint.
- ELF header, symbol and string tables: ranges of bytes and section names are given.
- Printing, disassembly, register and memory dumps, and the debug switches.
- Entries of encoding.h that are not in insn_list.h: never registered.
- Reading the file name and the greeting of the main program, the makefile and the benchmark programs.

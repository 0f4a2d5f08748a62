# A verified model of the DOS emulator's core

This project models the parts of the emulator that guests trust blindly, and proves what
those guests rely on: guest memory, the conventional-memory arena and its MCB chain, the
DPMI host (calls into real mode, interrupt delivery, descriptor table, extended memory), the
arithmetic, string and interrupt instructions of the 80386 interpreter, file-name wildcards,
program loading, and the FAT12 reader.

Objects the emulator changes in place are classes changed in place here. Each of their
methods is specified by a function on plain values, and what the emulator promises is proved
about those functions, over all inputs and, for the DPMI host, over all runs.

| files | what they hold |
|---|---|
| `Widths`, `Bits`, `FlatMemory` | integer widths and truncations; binary digits; the flat 2^32-byte map and what loads and stores do to it |
| `PagedMemory` | class `Memory`: lazily allocated 64 KiB pages, refining the flat map |
| `Blocks`, `Arena` | the block list, the published chain, and class `Dos` with AH=48h, 49h, 4Ah and 52h |
| `Machine`, `Stack`, `Gates`, `Cpu` | the processor state, stacks, interrupt gates, and class `Cpu` |
| `Alu`, `Limbs`, `Bcd`, `Shifts`, `Strings` | what the flags, long arithmetic, decimal adjustment, shifts and REP loops mean |
| `Protocol`, `ProtocolProofs`, `ProtocolRuns`, `Landing`, `Arguments`, `RealCalls`, `Dpmi` | INT 31h 0301h/0302h, interrupt delivery and the deferred IRET, over whole runs; class `Dpmi` |
| `Ldt`, `Heap` | classes `Ldt` and `Heap`: descriptors and extended memory |
| `Glob`, `MzLoader`, `Fat12` | wildcards, MZ and COM loading, FAT12 chains |

A run (`ProtocolRuns.Run`) is any sequence of events. Between two services of the host the
guest may do anything to registers, memory, descriptor tables and the A20 gate; the host's
own state changes only through its services. Servicing an interrupt in real mode either
completes with any processor and memory state at all, or makes one call into real mode.

`dafny verify dfyconfig.toml` checks everything.

## Where the code does less than one might expect

Each of these is stated, with its condition, by the member named.

- The host pushes a real-mode procedure's return address at a paragraph address that folds at
  one megabyte; the guest pops it through a segment that folds only while A20 is off. The
  return is certain exactly when A20 is off or both words lie below one megabyte
  (`Landing.ReturnIsCertainExactly`).
- Functions 0301h and 0302h copy the client's words from straight above its stack pointer. On a
  16-bit stack that wraps within them those are not the words the client would pop
  (`Arguments.CopiesOwnStackExactly`).
- Function 0008h keeps an old granularity bit, so a limit below one megabyte reads back as
  asked exactly when that bit was clear (`DescriptorTable.LimitEdited`).
- `alloc_mem` rounds with a 32-bit sum, so a request is covered exactly when it is at most
  0xFFFFF000 (`ExtendedMemory.RoundedCovers`).
- Function 0500h reports only what lies above all blocks; that is the largest request that
  will be met exactly when no free block is larger (`ExtendedMemory.ReportIsLargest`).
- `wildmatch` tries a literal match before a star, so it is right for every pattern exactly on
  names without a `*` (`Glob.RightExactlyOnStarFree`); on other names even `*` can refuse
  (`Glob.Dos83Match`).
- AH=4Ah on a segment DOS never handed out claims one paragraph and keeps it even if the call
  fails. If it succeeds with any size but one paragraph, and there was room for more, it leaves a
  stray MCB in the paragraph after the segment (`Arena.Dos.Resize`).
- AH=52h writes into DOS's own block, which AH=49h lets a guest free. The chain can be walked
  afterwards exactly when no MCB lies in the two paragraphs it writes
  (`Arena.ListOfListsReadsBack`, with a failing arena in `Arena.ListOfListsCanBreak`).
- The unwind of a deferred IRET takes its flags from the client's own frame, so a client
  resumed that way finds the CF it was interrupted with, not success
  (`ProtocolRuns.DeferredInterruptResumes`).
- The FAT12 walk is cut by its hop cap exactly when the chain never ends
  (`Fat12.CutExactlyOnLoops`).
- With a full descriptor table `alloc_sel` returns 0, and `entry_sel`, which does not look, writes its
  descriptor over the null slot. The address 0204h then reports is sure to work exactly when a slot
  is left or no GDT is loaded (`DescriptorTable.DefaultReachedExactly`,
  `DescriptorTable.NullSlotKeptExactly`).

## Model

| member | source | states |
|---|---|---|
| PagedMemory.Memory.constructor | src/memory.h:28 | the page table starts empty and stands for the all-zero map of every 32-bit address |
| PagedMemory.Memory.Read8 | src/memory.h:46 | a byte read is the flat map's byte; a page never written reads as zero and no page is allocated |
| PagedMemory.Memory.Read16 | src/memory.h:47-54 | the fast in-page path and the page-crossing path are the same little-endian read of the flat map, wrapping at 2^32 |
| PagedMemory.Memory.Read32 | src/memory.h:55-63 | likewise for four bytes |
| PagedMemory.Memory.Page | src/memory.h:121-128 | allocating a page changes no byte and no other slot |
| PagedMemory.Memory.Write8 | src/memory.h:65 | exactly one byte of the flat map changes |
| PagedMemory.Memory.Write16 | src/memory.h:66-72 | both paths store two bytes, wherever the page boundary falls |
| PagedMemory.Memory.Write32 | src/memory.h:73-82 | both paths store four bytes |
| PagedMemory.Memory.WriteBlock | src/memory.h:92-101 | the page-by-page `memcpy` loop is the byte-by-byte copy, across any number of pages and around 2^32 |
| FlatMemory.LoadAfterStore | src/memory.h:46-82 | a store followed by a load of the same width gives the value modulo 256^n, at any address |
| FlatMemory.LoadAfterStoreApart | src/memory.h:46-82 | a store changes no load whose circular interval does not meet it |
| FlatMemory.LoadSplit | src/memory.h:47-63 | a wide read is its two half-width reads, so mixed widths agree |
| FlatMemory.StoreSplit | src/memory.h:66-82 | a wide write is its two half-width writes |
| FlatMemory.FillIs | src/memory.h:92-101 | byte i of a block copy is at address a + i modulo 2^32 and everything else is unchanged |
| Arena.Dos.constructor | src/dos.h:26-32 | the initial arena is normal, published, and owns exactly the DPMI entry block, owner 8 |
| Arena.Dos.Find | src/dos.cpp:199-202 | the first block whose data starts at the segment, or none |
| Arena.Dos.Split | src/dos.cpp:208-218 | front part plus a free remainder one paragraph shorter; an empty remainder is allowed, and a block too small is left alone |
| Arena.Dos.Own | src/dos.cpp:222-239 | claims exactly the wanted range, cut off at the end of the free block that contains it; otherwise nothing changes |
| Arena.Dos.Coalesce | src/dos.cpp:245-253 | afterwards no two free blocks are neighbours, the arena is still tiled, and the used blocks are the same |
| Arena.Dos.Largest | src/dos.cpp:255-259 | the size of the largest free block |
| Arena.Dos.Pick | src/dos.cpp:275-280 | the lowest fitting block, or with `biggest` the lowest of the largest |
| Arena.Dos.AllocAt | src/dos.cpp:273-287 | succeeds if and only if max(paras, 1) fits the largest free block; the used blocks gain exactly the new one, at the chosen place |
| Arena.Dos.Free | src/dos.cpp:289-296 | succeeds exactly on a used block's own segment and removes exactly that block from the used ones |
| Arena.Dos.Resize | src/dos.cpp:298-328 | succeeds exactly up to the block's own size plus the free block above and its MCB; what is used afterwards, in every case including a segment DOS never handed out; and exactly when that case leaves a stray MCB in the paragraph after the segment |
| Arena.ResizeKeepsData | src/dos.cpp:298-328 | on whatever segment, a block in use before and after a resize keeps its bytes |
| Arena.Dos.Publish | src/dos.cpp:338-351 | every block's MCB is in memory and no other byte changed |
| Arena.Dos.AllocateMemory | src/dos.cpp:1044-1055 | AH=48h: on failure BX is the largest free block |
| Arena.Dos.FreeMemory | src/dos.cpp:1056-1058 | AH=49h: error 9 exactly when no used block begins at ES; on success AX is left alone |
| Arena.Dos.ResizeMemory | src/dos.cpp:1111-1134 | AH=4Ah: BX on failure is exactly the maximum that would have succeeded; on success AX is left alone |
| Arena.Dos.ListOfLists | src/dos.cpp:903-908 | AH=52h: the words it answers with, the 32 bytes it writes and no others; a walk from the word at ES:BX-2 reads back exactly the block list if and only if no MCB lies where it writes |
| Arena.ListOfListsReadsBack | src/dos.cpp:903-908 | the same for every published arena: the walk is the arena if and only if no MCB is in paragraphs 00F8h and 00F9h, and broken otherwise |
| Arena.ListOfListsCanBreak | src/dos.cpp:903-908 | an arena a guest can make, by freeing DOS's own block and allocating below it, on which AH=52h breaks the chain |
| Arena.HostBlockClears | src/dos.h:27-31 | while DOS's own block is in place no MCB can lie there |
| Blocks.UsedDisjoint | src/dos.h:26-32 | two allocations never share a paragraph |
| Blocks.Conserved | src/dos.cpp:208-253 | data paragraphs and MCBs always add up to the whole arena |
| Blocks.UsedDecides | src/dos.cpp:245-351 | a normal arena is a function of its used blocks: same used blocks, same published chain |
| Blocks.WalkReadsBack | src/dos.cpp:338-351 | following the MCBs from 0x0090 by signature and size terminates and yields exactly the blocks |
| Blocks.ReadMcb | src/dos.cpp:343-350 | the sixteen bytes of a published MCB: signature, owner, size, and zeros |
| Blocks.DataKept | src/dos.cpp:338-351 | a call that rewrites only MCBs keeps every byte of every block in use after it |
| Arena.FreeUndoesAlloc | src/dos.cpp:273-296 | freeing what an allocation returned restores the chain there was before |
| Stack.PushedFrame | src/cpu.h:196-201 | words pushed come back in reverse order, for 2- and 4-byte slots, narrow and wide stacks, and wrapping stack pointers |
| Stack.SlotsApart | src/cpu.h:110-115 | two slots a slot apart on one stack share no byte, even where the stack wraps or A20 folds |
| Stack.AddressIs | src/cpu.h:110-115 | an address folds at one megabyte exactly in real mode with A20 off through a segment loaded as a paragraph |
| Stack.TableIs | src/cpu.h:129-137 | the table and the entry a selector names |
| Processor.Cpu.ReadDescriptor | src/cpu.h:129-147 | the descriptor put together from its scattered fields |
| Processor.Cpu.LoadCs | src/cpu.h:164-184 | CS cache, size bit and IP mask after `set_seg` |
| Processor.Cpu.LoadSs | src/cpu.h:164-184 | SS cache and size bit |
| Processor.Cpu.Push16 | src/cpu.h:198 | stack pointer and memory after a 16-bit push |
| Processor.Cpu.Pop16 | src/cpu.h:199 | value and stack pointer after a 16-bit pop |
| Processor.Cpu.FarReturn | src/cpu.h:207-219 | `far_ret` with its immediate, popping the outer stack on a return to an outer ring |
| Processor.Cpu.ReturnFarDropping | src/cpu.cpp:823-824 | RETF imm16 |
| Processor.Cpu.CallFar | src/cpu.cpp:839 | CALL far |
| Gates.FarCallReturns | src/cpu.cpp:823-839 | a far call and a far return of its width from a balanced callee: the caller goes on after the call with its arguments gone from the stack |
| Gates.FarCallEnters | src/cpu.cpp:839 | a far call goes on at its destination, in the segment's width, with nothing else changed |
| Gates.RetfOutward | src/cpu.h:207-219 | a RETF imm16 to an outer ring: where it goes on, and the stack it finds behind the bytes it drops, with as many gone from that one too |
| Processor.Cpu.ReturnFar | src/cpu.cpp:825 | RETF |
| Processor.Cpu.InterruptReturn | src/cpu.cpp:830-832 | IRET, keeping the replaced flags aside |
| Processor.Cpu.InterruptThroughGate | src/cpu.cpp:156-193 | taken exactly in protected mode on a present 286 or 386 gate inside the IDT; otherwise nothing changes |
| Gates.InterruptEnters | src/cpu.cpp:156-193 | INT n by the eight bytes of the table entry: when a gate is taken, the selector and offset it goes on at for each gate type, IF and TF, the frame in words of the gate's width, no other register changed |
| Processor.Cpu.Interrupt | src/cpu.cpp:141-204 | all of `interrupt`: the guest's gate, else the host's layers, else the vector table at address 0 |
| Gates.RealInterruptReturns | src/cpu.cpp:195-204 | in real mode an INT through that table and an IRET from a balanced handler resume the program |
| Gates.TableEnters | src/cpu.cpp:195-204 | INT n through the vector table at address 0: offset and segment from bytes 4n to 4n+3, IF and TF clear, the frame, no other register changed |
| Processor.Cpu.SwitchStack | src/cpu.cpp:175-182 | the inner ring's stack out of the TSS |
| Gates.InterruptStack | src/cpu.cpp:173-186 | the stack under the gate's frame: the one there was, or the TSS's for the ring of the new selector, by its fields |
| Gates.InterruptReturns | src/cpu.cpp:156-193 | INT through a 16- or 32-bit gate and an IRET of its width from a balanced handler restore CS, IP, SS, the stack pointer and flags with bit 1 set, with or without the ring switch |
| Gates.ImmediateReturn | src/cpu.cpp:156-193 | the same with no assumption about the handler, when the pushed words miss the two descriptors an IRET reloads |
| Gates.ResumedFlags | src/cpu.cpp:830-832 | the flags of a resumed program are those it had, with bit 1 set |
| Processor.Cpu.Operate | src/cpu.cpp:310-363 | `alu8` and `aluv`: the result and all six status flags, set in the source's order |
| Alu.Adds | src/cpu.cpp:310-363 | result and CF together are the sum; OF exactly when the signed sum does not fit; ZF and SF |
| Alu.Takes | src/cpu.cpp:310-363 | result and borrow are the difference; OF exactly when the signed difference does not fit; ZF and SF; SF differs from OF exactly when it is negative |
| Alu.Logics | src/cpu.cpp:310-363 | each result bit of AND, OR and XOR is that operation on the operands' bits; CF, OF and AF are cleared |
| Alu.HalfCarry | src/cpu.cpp:310-363 | AF exactly when the low four bits carry or borrow, for every sum and difference and width |
| Alu.OtherFlags | src/cpu.cpp:310-363 | no operation touches any other flag |
| Alu.Conditions | src/cpu.cpp:366-385 | after CMP or SUB each of the sixteen conditions says of the operands what its name says |
| Alu.ParityFlag | src/cpu.cpp:119 | PF exactly when the low byte has an even number of ones |
| Processor.Cpu.IncDec | src/cpu.cpp:583-587 | INC and DEC set every status flag but CF |
| Limbs.IncDecFlags | src/cpu.cpp:583-587 | the five flags INC and DEC set, by the new value; CF and all other flags kept |
| Limbs.CarrySurvives | src/cpu.cpp:583-587 | any number of INC, DEC and LOOP between limbs keeps the carry |
| Limbs.ChainAdds | src/cpu.cpp:337-363 | n ADC steps on limbs of any width compute A + B + c0, with CF the carry |
| Limbs.ChainSubtracts | src/cpu.cpp:337-363 | n SBB steps compute A - B - c0 modulo W^n, with CF the borrow |
| Limbs.ChainCompares | src/cpu.cpp:366-385 | after an SBB chain from a clear carry B/AE order the numbers unsigned and L/GE signed |
| Processor.Cpu.AdjustDecimal | src/cpu.cpp:647-665 | DAA and DAS: AL and the flags |
| Bcd.AdjustIs | src/cpu.cpp:647-665 | what is added to or taken from any AL, valid digits or not, and CF |
| Bcd.AdjustFlags | src/cpu.cpp:647-665 | AF, ZF, SF and PF afterwards, and that no other flag changes |
| Bcd.DigitsAdd | src/cpu.cpp:647-665 | one ADC, DAA step adds two packed bytes and the carry in decimal |
| Bcd.DigitsSubtract | src/cpu.cpp:647-665 | one SBB, DAS step subtracts them, CF the decimal borrow |
| Bcd.DecimalChainAdds | src/cpu.cpp:647-665 | n such steps yield valid digits of A + B + c0 with CF the decimal carry |
| Bcd.DecimalChainSubtracts | src/cpu.cpp:647-665 | n such steps yield A - B - c0 modulo 100^n with CF the decimal borrow |
| Processor.Cpu.ShiftRotate | src/cpu.cpp:779-803 | the one-bit loop over the count modulo 32, with CF set on every turn; a count of zero touches neither operand nor flags |
| Shifts.ShlIs | src/cpu.cpp:779-803 | SHL is multiplication by 2^n modulo 2^w; CF the last bit out |
| Shifts.ShrIs | src/cpu.cpp:779-803 | SHR is floor division; CF the last bit out |
| Shifts.SarIs | src/cpu.cpp:779-803 | SAR is floor division of the signed value; CF the last bit out |
| Shifts.LeftIs | src/cpu.cpp:779-803 | rotating left by n exchanges the high n bits and the rest |
| Shifts.RolRorInverse | src/cpu.cpp:779-803 | ROL and ROR by the same count undo each other |
| Shifts.RclRcrInverse | src/cpu.cpp:779-803 | RCL and RCR undo each other on operand and CF together |
| Shifts.Periods | src/cpu.cpp:779-803 | rotates repeat after w turns, rotates through CF after w + 1 |
| Shifts.RotatedCarry | src/cpu.cpp:779-803 | the CF a rotate leaves is the bit it moved around the end |
| Shifts.ShlFlags | src/cpu.cpp:779-803 | after SHL CF is the last bit out, ZF, SF and PF are as v * 2^n modulo 2^w asks for, no other flag changes |
| Shifts.ShrFlags | src/cpu.cpp:779-803 | the same for SHR and v / 2^n |
| Shifts.SarFlags | src/cpu.cpp:779-803 | the same for SAR and the signed quotient |
| Shifts.RotatedFlags | src/cpu.cpp:779-803 | the same for the four rotates |
| Processor.Cpu.StringOnce | src/cpu.cpp:711-759 | one MOVS, STOS, LODS, CMPS or SCAS |
| Processor.Cpu.RepeatString | src/cpu.cpp:760-769 | the REP loop, with its stop on ZF for comparisons |
| Strings.RepMovs | src/cpu.cpp:711-769 | count zero, indices advanced by count times width with wrap, every element copied as it was and nothing else written, when no write disturbs a later source |
| Strings.RightDirection | src/cpu.cpp:711-769 | copying upwards to a lower address, downwards to a higher one, or between separate ranges never disturbs a source |
| Strings.CopyRepeats | src/cpu.cpp:711-769 | the other direction, upwards or downwards and at every width: a copy to a place `gap` bytes ahead, no less than an element, repeats the first `gap` bytes |
| Strings.RepStos | src/cpu.cpp:711-769 | every element that no later one cuts into is the accumulator, also when the index wraps onto elements already filled; nothing else is written |
| Strings.RepLods | src/cpu.cpp:711-769 | the accumulator is the last element, and a byte load leaves AH alone |
| Strings.RepCompare | src/cpu.cpp:711-769 | REPE and REPNE stop just past the first hit or at the end of the count, leave memory alone, and leave the flags of the last pair |
| Strings.ScasFinds | src/cpu.cpp:711-769 | REPNE SCAS: ZF exactly when the accumulator occurs; then the count left over and DI locate its first occurrence |
| DpmiHost.Dpmi.PmInt | src/dpmi.cpp:205-219 | a handler is entered exactly when one is hooked and the host is not serving, with a frame of the client's width |
| DpmiHost.Dpmi.UnwindIntFrame | src/dpmi.cpp:223-229 | pops IP, CS and flags and resumes there |
| DpmiHost.Dpmi.LoadCallFrame | src/dpmi.cpp:257-288 | the registers, flags and segments of the call structure |
| DpmiHost.Dpmi.StoreCallFrame | src/dpmi.cpp:292-301 | the same fields written back |
| DpmiHost.Dpmi.RealModeCall | src/dpmi.cpp:314-366 | 0301h and 0302h: refusal at depth four, or real mode with the structure's registers, copied words and return address |
| DpmiHost.Dpmi.RealModeReturn | src/dpmi.cpp:371-393 | registers to the structure, the client restored, an owed IRET performed |
| DpmiHost.Dpmi.PmIntDefault | src/dpmi.cpp:241-254 | the default handler unwinds at once, or marks the call just opened; the index is always valid |
| ProtocolProofs.FrameRoundTrip | src/dpmi.cpp:257-301 | a stored structure loads back as the same registers, flags and selectors |
| ProtocolProofs.FrameElsewhere | src/dpmi.cpp:292-301 | storing it changes only its first 42 bytes |
| ProtocolProofs.PmIntFrame | src/dpmi.cpp:205-219 | delivery leaves the client's place on its own stack and changes nothing else of it |
| ProtocolProofs.PmIntEnters | src/dpmi.cpp:205-219 | a delivered interrupt goes on at the hooked selector and offset, in the width of that segment, with IF clear and no other flag or register changed but the stack pointer |
| ProtocolProofs.UnwindResumes | src/dpmi.cpp:223-229 | unwinding that frame resumes the client where it was |
| ProtocolRuns.RunKeepsHost | src/dpmi.cpp:314-393 | in every run calls are at most four deep and no service is left marked as under way |
| ProtocolRuns.RunKeepsOuter | src/dpmi.cpp:314-393 | in every run that stays above depth d the outer d calls are untouched |
| ProtocolRuns.CallReturns | src/dpmi.cpp:314-393 | whatever runs inside, a call's return restores the client's whole state but CF and puts registers and result flags in the structure |
| ProtocolRuns.StrayReturn | src/dpmi.cpp:372 | a return with no call open changes nothing |
| ProtocolRuns.ChainedInterruptResumes | src/dpmi.cpp:205-254 | a hooked interrupt whose handler, after any run that is back at the depth it began with, chains to the default and is served at once: the client resumes exactly where it was |
| ProtocolRuns.DeferredInterruptResumes | src/dpmi.cpp:205-393 | the same when the default service makes a call: the IRET it owes is performed by the return, and the interrupted client resumes where it was |
| ProtocolRuns.FramesBalance | src/dpmi.cpp:223-393 | in every run each frame chained to the default handler is popped exactly once or still owed by exactly one open call |
| ProtocolRuns.AsksOnce | src/dpmi.cpp:625-628 | in every run the host asks DOS for its scratch stack at most once |
| Landing.ProcStarts | src/dpmi.cpp:314-366 | the procedure starts in real mode at the address, on the stack, with the registers the client named |
| Landing.ProcRegisters | src/dpmi.cpp:314-336 | every register and segment the procedure starts with, and the stack, by the structure's fields |
| Landing.FifthCallRefused | src/dpmi.cpp:317-319 | a fifth nested call changes AX and CF and nothing else |
| Arguments.WordsArrive | src/dpmi.cpp:344-352 | each word the client asked to have copied is where the procedure looks for it, as the client's stack held it before the call, if neither DOS nor an earlier copy wrote over it |
| Arguments.FlagsArrive | src/dpmi.cpp:353 | a procedure ending in IRET finds the structure's flags under its return address |
| Arguments.OnlyTheStack | src/dpmi.cpp:344-355 | the call writes the procedure's stack and nothing else |
| Arguments.CopiesOwnStackExactly | src/dpmi.cpp:345-349 | a copied word is the one the client would pop if and only if the stack is wide or does not wrap before it |
| Landing.ProcedureLands | src/cpu.h:207-219 | a balanced RETF or IRET lands on the host's trap |
| Landing.ReturnIsCertainExactly | src/cpu.h:110-115 | the return address is certain to be found, for all memory contents, if and only if A20 is off or both its words lie below one megabyte |
| RealCalls.RealModeCall | src/dpmi.cpp:314-393 | 0301h and 0302h end to end: lands on the trap, client unchanged but for CF, structure holds the procedure's registers and the flags it computed |
| RealCalls.ReturnAtOnce | src/dpmi.cpp:314-393 | a procedure that returns at once needs only a return address that can be reached: nothing else is assumed of memory or stacks |
| DpmiHost.Dpmi.GetHandler | src/dpmi.cpp:714-728 | 0204h: what was hooked, or an address that reaches the host's own service of that vector whenever its descriptor is in place, which it is on first use if a slot is left or no GDT is loaded |
| DpmiHost.Dpmi.SetHandler | src/dpmi.cpp:729-733 | 0205h: from then on that vector alone is delivered to the new handler |
| ProtocolRuns.HookedVectorRuns | src/dpmi.cpp:205-219 | after 0205h, and any run without another for that vector, an interrupt goes on at the handler given |
| ProtocolRuns.NotDelivered | src/dpmi.cpp:205-207 | an interrupt nobody hooked, or one that comes while the host serves one by default, changes nothing |
| DescriptorTable.DefaultLands | src/dpmi.cpp:24-37 | a far jump through the entry descriptor to the default address reaches the host's service of exactly that vector |
| DescriptorTable.DefaultReachedExactly | src/dpmi.cpp:182-188 | the address 0204h reports on first use is sure to reach that service, whatever the tables hold, if and only if a slot is left or no GDT is loaded |
| DescriptorTable.NullSlotKeptExactly | src/dpmi.cpp:182-188 | making the entry descriptor leaves the null slot alone if and only if a slot is left, or the null slot already held it |
| DescriptorTable.SetDescReads | src/cpu.h:129-147 | `read_desc` of a selector of the host's after `set_desc`: same base, kind and size; the limit exact, or rounded up to a page above 0xFFFFF; eight bytes written |
| DescriptorTable.OtherSlots | src/dpmi.h:174 | an edit of one slot leaves the descriptor of every other selector as it was |
| DescriptorTable.BaseEdited | src/dpmi.cpp:651-658 | 0007h changes the base and nothing else |
| DescriptorTable.LimitEdited | src/dpmi.cpp:659-667 | 0008h: the limit reads back as asked if and only if the old one was byte-granular or the new one exceeds 0xFFFFF; everything else stays |
| DescriptorTable.RightsEdited | src/dpmi.cpp:668-673 | 0009h: type, size, presence and granularity as given; base and limit digits stay |
| DescriptorTable.AliasReads | src/dpmi.cpp:674-681 | 000Ah: the new slot describes the same memory as data |
| DescriptorTable.GrantsDistinct | src/dpmi.cpp:44-53 | all selectors ever granted are ring-3 LDT selectors in range, accepted by `desc_ok`, and no two grants share a slot |
| DescriptorTable.UsableSlots | src/cpu.h:156-160 | `desc_ok` accepts exactly the selectors of slots 1 to 1023 of the host's table |
| DescriptorTable.ClearedIs | src/dpmi.cpp:636-642 | 0000h: exactly the granted slots become empty data descriptors |
| DescriptorTable.Ldt.AllocSel | src/dpmi.cpp:44-53 | a grant of `count` slots, or zero and no change |
| DescriptorTable.Ldt.SetDescriptor | src/dpmi.cpp:57-68 | the writes of `set_desc` |
| DescriptorTable.Ldt.AllocateDescriptors | src/dpmi.cpp:636-642 | 0000h, CX zero meaning one |
| DescriptorTable.Ldt.GetBase | src/dpmi.cpp:645-650 | 0006h reads the base the processor would use |
| DescriptorTable.Ldt.SetLimit | src/dpmi.cpp:659-667 | the writes of 0008h |
| DescriptorTable.Ldt.SetRights | src/dpmi.cpp:668-673 | the writes of 0009h |
| DescriptorTable.Ldt.CreateAlias | src/dpmi.cpp:674-681 | the loop of 000Ah |
| DescriptorTable.Ldt.EntrySelector | src/dpmi.cpp:182-188 | the entry descriptor is made once, on first use |
| ExtendedMemory.Heap.AllocMem | src/dpmi.cpp:583-600 | refuses exactly when no free block fits and none can be added; takes the first block that fits, or else extends the heap; the range was nobody's and is now the caller's, and every other used block stays |
| ExtendedMemory.Heap.FreeMem | src/dpmi.cpp:602-621 | exactly the freed range leaves use, other used blocks stay, and no free block starts where the freed one ends |
| ExtendedMemory.Heap.Merge | src/dpmi.cpp:609-619 | the merging loop terminates and keeps the partition |
| ExtendedMemory.RoundedCovers | src/dpmi.cpp:584-585 | whole pages; a request is covered if and only if it is at most 0xFFFFF000 |
| ExtendedMemory.AbsorbedKeeps | src/dpmi.cpp:612-617 | one merge keeps the non-empty blocks an exact partition of the heap and leaves fewer of them |
| ExtendedMemory.CarvedKeeps | src/dpmi.cpp:588-595 | so does carving a block out of a free one |
| ExtendedMemory.FreeUndoesAlloc | src/dpmi.cpp:583-621 | freeing what an allocation returned gives every address back to whom it belonged before, and the same request would be met again |
| ExtendedMemory.ReportIsLargest | src/dpmi.cpp:773-780 | 0500h's figure is the largest request that will be met if and only if no free block is larger |
| Glob.Wildmatch | src/dos.cpp:505-517 | the loop is the step function below, and on names without a star decides the pattern's meaning |
| Glob.WildmatchIs | src/dos.cpp:505-517 | for every pattern and star-free name: accepted exactly when `*` and `?` mean so |
| Glob.FitsIs | src/dos.cpp:507-509 | `?` fits every byte, any other byte itself in either case |
| Glob.PlainMatch | src/dos.cpp:505-517 | a pattern without wildcards means the names that are the same but for case |
| Glob.CaseBlind | src/dos.cpp:505-517 | the case of a name never matters |
| Glob.RightExactlyOnStarFree | src/dos.cpp:509-510 | the matcher is right for every pattern if and only if the name contains no star |
| Glob.Dos83Match | src/dos.cpp:520-530 | name and extension each match as their patterns mean; for "*" and "*.*", exactly which names are accepted |
| Glob.AllFiles | src/dos.cpp:520-530 | "*.*" and "*" match every star-free name |
| Fat12.NextDecodes | tools/fat12x.cpp:38-42 | every entry of a packed 12-bit table is read back |
| Fat12.WalkBounded | tools/fat12x.cpp:44-55 | at most nclusters + 1 clusters, whatever the table holds |
| Fat12.ChainWhole | tools/fat12x.cpp:44-55 | for every chain that stays in the volume and ends, the cap never cuts: the walk is that chain |
| Fat12.CutExactlyOnLoops | tools/fat12x.cpp:47 | a walk inside the volume is cut if and only if the chain never ends |
| Fat12.FileReadBack | tools/fat12x.cpp:38-55 | a file written to a formatted disk is read back: the clusters its chain names, whole, in order and nothing else, up to any end mark |
| Fat12.Chain | tools/fat12x.cpp:44-55 | the bytes of the clusters visited, in order, cut to the file's size |
| Fat12.ReadableWhen | tools/fat12x.cpp:38-55 | when every cluster in the image has its table entry there too |
| MzLoader.Relocate | src/loader.cpp:128-133 | the in-place fixup loop |
| MzLoader.EachWordAdded | src/loader.cpp:128-133 | each word of a table without overlaps has the segment added once modulo 2^16 |
| MzLoader.FieldsRead | src/loader.cpp:115-117 | every header field of a file as a linker writes it is read back |
| MzLoader.FileReads | src/loader.cpp:115-130 | so is the relocation table, entry by entry, and the lengths of header and image |
| MzLoader.WordFromFile | src/loader.cpp:115-133 | each word the table names holds, at segment times 16 plus offset, the file's word plus the segment |
| MzLoader.ByteFromFile | src/loader.cpp:115-125 | every other byte of the image is the file's |
| MzLoader.ParagraphsCover | src/dos.cpp:410 | the paragraphs claimed for an overlay cover it and no more |
| MzLoader.OthersKept | src/loader.cpp:128-133 | no byte outside those words changes |
| MzLoader.OnlyFixupsDiffer | src/loader.cpp:125-133 | images of one file at two segments differ by the segment difference at the fixups and nowhere else |
| MzLoader.LoadProgram | src/loader.cpp:108-154 | memory and entry registers for MZ and COM files, and the refusal of a large COM file |
| MzLoader.PlaceOverlay | src/dos.cpp:372-404 | image, fixups by the caller's factor, and the two error returns |
| MzLoader.LoadOverlay | src/dos.cpp:372-415 | the same, and then the range the image covers is claimed for the program, which rewrites MCBs and nothing else |

## Left out

- Arena.Dos.Resize: does not promise that only MCBs change where the code leaves a stray one (`Scars`); it says which paragraph that is.
- MzLoader.LoadProgram: requires an MZ header whose image and relocation entries lie in the file, because the source reads and subtracts without looking; `LoadOverlay` has no such precondition.
- Fat12.Chain: requires the table entry of each cluster it visits to lie in the image, because the source indexes without looking.
- Processor.Cpu.Interrupt: whether the host's layers serve a vector is a parameter, and what they then do is modelled only for the calls listed above.
- Processor.Cpu.RepeatString: INS and OUTS are not modelled; their other end is the A20 and keyboard ports.
- Processor.Cpu.StringOnce: likewise without INS and OUTS.
- Strings.CopyRepeats: does not say what a copy leaves whose target is less than one element ahead of its source.
- DpmiHost.Dpmi.RealModeCall: the segment DOS grants for the host's scratch stack, and the bytes that allocation changes, are parameters.
- DpmiHost.Dpmi.PmIntDefault: what servicing the interrupt does is a parameter, any completed state or one call into real mode; a service that runs a nested program (EXEC) is not covered.
- DpmiHost.Dpmi.GetHandler: exception handlers (0202h and 0203h) work on a second table in the same way and are not modelled.
- Strings.RightDirection: states the no-overlap condition for runs of elements that neither wrap nor fold; `RepMovs` itself has no such restriction.
- Registers are one record inside class `Cpu`, the shape `save` and `restore` copy, not eight separate arrays; `rm_` is an array, the block lists and handlers are sequences the methods reassign.
- The C++ class `Dpmi` is three classes here, one for the protocol, one for the descriptor table and one for extended memory; they share guest memory.
- Mode switches (`switch_to_pm`, 0306h), real-mode callbacks (0303h, 0304h), 0300h, descriptor copies 000Bh and 000Ch, and DOS memory through 0100h.
- The boot sector and directory entries of a FAT12 image: a volume's geometry and a file's first cluster come as given.
- AAA, AAS, AAM, AAD, MUL, DIV, bit tests, ModR/M decoding and the rest of the opcode map; OF after shifts and ZF, SF, PF after rotates are what the code computes, not what the hardware does.
- x87 arithmetic, port I/O (with it the A20 gate's switch; the gate itself is in the model), CPUID and RDTSC, tracing, watchpoints and histograms.
- EXEC, PSP and environment building, COFF detection, and everything that touches the host's files or console; `exec` puts the old block list back without publishing it.
- Guest programs that overwrite the host's tables, stacks or MCBs: where a theorem needs them intact it says so.

# A verified model of a small RISC-V system

This project models the hard parts of a bare-metal RV32 system (boot loader, kernel, threads,
network stack, libc) in Dafny 4.11 and proves what its protocols, data structures and fast paths
promise. `dafny verify dfyconfig.toml` checks everything.

Code that changes state in place is a class or a method over arrays; each such method is proved
against a specification function or relation, and the theorems are about those specifications.
Physical memory, packet buffers and address spaces are arrays or maps of bytes or 32-bit words;
integer widths, wrap-around and truncation are written out.

## What is proved

**Netboot** (`Netboot`, `NetbootSafety`, `NetbootLimit`, `NetbootProgress`, `NetbootCode`,
`NetbootSession`). Host, device and a network that may lose, delay, duplicate and reorder datagrams are one
state machine. In every run, with any retries and whole-session restarts, when the device starts executing
it starts at the first image's address, every byte of every image is in place, and no other byte of memory
was written (`BootSafety`). Sequence numbers have 32 bits, and this holds exactly as long as the host's
counter has not passed 2^32 + 3 (`BootSafetyIff`): at 2^32 + 4 a reply from the very first exchange can have
acknowledged a WRITE that was lost (`StaleReplyBoots`). The one demand on the images, that they agree where
they overlap, is exactly what makes the promise satisfiable (`LoadableIffConsistent`), and every such boot
can happen (`CanBoot`). The device's handler, working in its packet buffer, and the host's five-try loop and
chunk loop are proved against the steps of the machine; what these come to is told by the answers met
(`SendOutcome`).

**Page tables and boot** (`Sv32`, `Vmm`, `Kernel`, `UserSpace`, `UserEntry`, `Boot`). All pages and tables
live in one flat physical memory; the specification is the translation walk of section 4.3.2 of the RISC-V
Privileged Architecture. `vm_map_4k` and `vm_map_4m` map exactly the page or megapage asked for, or change
nothing, memory and allocator included; with flags that are no leaf they map nothing, unless the flags of a
megapage call make its frame a page table. For every linker layout `start` and `start_user_program` together
never get a failing map call, and reach user mode exactly when there are enough free pages and the program
fits its four (`EnterUserMode`). Afterwards each address translates as its section demands, nothing else is
mapped, and nothing of the kernel is both writable and executable (`KernelTranslation`, `UserRights`); no
two user pages share a frame, and none, the frame buffer's included, has the directory, a page table or the
kernel stack behind it (`UserFramesAreSeparate`). The allocator never learns that the frame buffer is in
use, but no layout lets it hand out a frame of it (`AllocatorMissesFramebuffer`); what can overlap it is the
kernel image itself, exactly when it reaches over the frame buffer's place in RAM
(`FramebufferOverImageIff`). The program's first instruction then finds the program at its pc, its stack
pointer and zeros in the registers, and sscratch set for the next trap (`UserModeBegins`).

**Preemptive threads.** `RunQueue` breaks `thread_create` and `thread_exit` into single pointer writes with
a timer interrupt possible before every step that finds interrupts on: wherever one can be taken, the links
form one doubly linked ring of exactly the live threads, the current one among them; and a thread at
distance d runs after exactly d switches, whatever is created or exits meanwhile (`BoundedWaiting`).
`RunQueueCode` is the same code in place. `ContextSwitch` follows the registers of an interrupted thread
into its trap frame, the compiler's own frame of `interrupt_handler` and the context frame, and back.
`ThreadSystem`, `ThreadSwitch`, `ThreadCreate` and `Preempt` put this together: stacks, thread structures,
links and frames are words of one memory, and over any schedule of interrupts, creations and exits a thread
continues with exactly the pc and registers it was interrupted with (`PreemptionIsTransparent`) and the
stack it had in use (`StackSurvives`), with interrupts on (`InterruptsStayOn`); an interrupt that finds no
timer pending is not noticed at all (`SpuriousReturns`). The creator of a thread gets it in a0 and nothing
else changed (`CreatorGetsThread`), and the new thread enters fn(arg) on its own stack, with thread_exit to
return to, in supervisor mode with interrupts on (`NewThreadStarts`). Interrupts are masked inside
`thread_create` and `thread_exit`, so there each is one step. `ThreadCode` is the assembly register by
register, and `thread_create` and `thread_exit` word by word. `Cooperative` has the switch and the start of
ex10's threads.

**XOS traps** (`Rv32`, `XosTrap`). Over every sequence of traps from user mode each saves into the same
frame, sscratch is the kernel stack top whenever user code runs, an interrupt changes nothing, a legal
system call only a0 and pc, and an illegal one never gets past its ecall; the legal numbers are 0, 1 and 2,
and each reaches its handler (`SyscallReaches`).

**IPv6** (`Checksum`, `Ipv6`, `Ipv6Code`). Every UDP and ICMPv6 reply, of even or odd length, verifies: the
sum over pseudo-header and payload folds to 0xFFFF in either byte order, the field is never zero and the
32-bit accumulator never wraps. Every Neighbor Solicitation for the interface is answered with a valid
Neighbor Advertisement, for exactly those MACs that do not begin 33:33:ff, so for every unicast one. Which
frames are delivered and which are answered is characterised exactly, byte by byte (`DeliversIff`,
`AnswersIff`). A peer with the same stack gets out of a UDP reply exactly the data that went in.

**SHA-256** (`Fips180`, `Sha256`, `FipsMeaning`, `FipsExample`). The buffered hash equals FIPS 180-4 on the
concatenation of its updates. That the tables and functions behind this are those of the standard is proved
apart: the constants are roots of primes, the functions are given bit by bit, and the digest of "abc" is the
printed one (`AbcDigest`).

**libc** (`LibcMemory`, `Strtoul`, `NumberForms`, `Printf`, `PrintfEngine`, `PrintParse`, `FormatParse`,
`FormatPieces`, `FormatFields`). The word-at-a-time copies are byte copies with all word accesses aligned;
for every pair of buffers it is stated exactly when `memmove` and `memcpy` are right for all contents. The
printf engine puts out what its format denotes: texts and fields in order, conversion number i with argument
number i (`RendersPieces`), each field as its directive asks (`FormatFields`); `vsnprintf` truncates it
correctly; `strtoul` reads every written number in its base (`ReadForm`), saturates exactly and sets ERANGE
exactly on overflow; and what printf prints for an integer strtoul reads back, starting from the written
format (`PrintAndParse`).

Where the code departs from what one would expect, the code is what is modelled: left-justified numbers lose
their sign (`SignShownIff`, `LeftJustifiedParsesIff`), `memmove` compares addresses as signed numbers
(`RightForAllContentsIff`), "-4294967295" is taken for an overflow by strtoul (`NegationIff`), an illegal
system call repeats for ever (`IllegalSyscallNeverReturns`), sequence numbers wrap (`StaleReplyBoots`), the
digits of a precision join those of the width (`ParsesWritten`), a kernel image of more than 12MB would lie
under the frame buffer (`FramebufferOverImageIff`).

## Model

| member | source | states |
|---|---|---|
| `NetbootSafety.BootSafety` | tools/netboot.c:140-200 | in every run over a losing, delaying, duplicating, reordering network, with the 32-bit counter incremented fewer than 2^32 + 3 times, a device that executes was entered at the first image's address with every image byte in place and nothing else written |
| `NetbootLimit.BootSafetyIff` | tools/netboot.c:140-173 | all runs of all images are safe below a given value of the host's counter if and only if that value is at most 2^32 + 4 |
| `NetbootLimit.StaleReplyBoots` | tools/netboot.c:160-169 | for every image of one chunk and every memory there is a run at 2^32 + 4 in which the device executes and not a byte was loaded |
| `NetbootSafety.RunKeepsInv` | tools/netboot.c:280-307 | the invariant over host, device and network holds after any number of steps, session restarts included, and sequence numbers never go down |
| `NetbootSafety.HostKeepsInv` | tools/netboot.c:140-200 | every step of send_msg, send_file and the session loop keeps the invariant: the file position is backed by device memory |
| `NetbootSafety.TransmitKeeps` | tools/netboot.c:142-146 | each send under a fresh number keeps datagrams distinguishable and sends EXEC only when all is loaded |
| `NetbootSafety.WaitingKeepsPosition` | tools/netboot.c:151-170 | an accepted reply proves that the datagram in flight, and no older one, was processed |
| `NetbootSafety.ReadingKeepsPosition` | tools/netboot.c:188-199 | a chunk read is the slice the position moved over, and the session reaches EXEC only after every file |
| `NetbootSafety.DeliverKeepsInv` | boot/netboot.c:43-96 | processing any datagram ever sent, again or late, keeps the invariant |
| `NetbootSafety.WriteChunk` | boot/netboot.c:69-76 | a WRITE of an image slice makes its range right and spoils nothing already right, so repeating it is harmless |
| `NetbootProgress.CanBoot` | tools/netboot.c:280-305 | from every initial state there is a run in which the device boots |
| `NetbootProgress.FinishSession` | tools/netboot.c:286-300 | from any file position a session can be carried through to EXEC |
| `NetbootProgress.LoadableIffConsistent` | tools/netboot.c:286-292 | some memory holds all images if and only if they agree where they overlap |
| `NetbootCode.HandlePacket` | boot/netboot.c:43-96 | the handler, rewriting the message in its buffer and memory in place, has exactly the effect of the protocol step |
| `NetbootCode.QueryReply` | boot/netboot.c:35-41 | a query is answered with its own sequence number, status OK and the node name |
| `NetbootCode.Sender.SendMsg` | tools/netboot.c:140-173 | at most five datagrams, each with the next number; result, datagrams and number are those of the protocol steps |
| `NetbootCode.Sender.SendFile` | tools/netboot.c:175-200 | the chunks go out in order, each at its own address; it ends at the end of the file or out of the session, where the protocol steps end |
| `NetbootCode.Sender.SendChunk` | tools/netboot.c:193-198 | one chunk is one read step and the send steps |
| `NetbootCode.FileTurn` | tools/netboot.c:188-199 | how the protocol steps of a file fall into chunks |
| `NetbootCode.TryingTurn` | tools/netboot.c:142-171 | what one turn of the retry loop leaves: success, failure, or the next try with one more datagram out |
| `NetbootCode.Turn` | tools/netboot.c:142-171 | one turn of the retry loop is one send step and one answer or timeout step |
| `NetbootSession.SendOutcome` | tools/netboot.c:140-173 | send_msg succeeds exactly when one of five tries gets a status OK under its own number before a write failed or another status came; each try sends the message with the next number; the host then goes on as main does, and after EXEC is done exactly under -x |
| `NetbootSession.LocatesIff` | tools/netboot.c:82-138 | a session starts exactly on a status under the number asked last |
| `NetbootSession.DeviceAnswersIff` | boot/netboot.c:35-96 | which datagrams the device answers, under which number, with which status and data |
| `NetbootSession.DeviceActsIff` | boot/netboot.c:69-90 | memory changes by a WRITE to the control port alone, and the device leaves by an EXEC alone |
| `Sv32.MapInTable` | xos/src/vmm.c:52-60 | a leaf written into an empty slot of an existing table maps that page and changes no other translation |
| `Sv32.AddEmptyTable` | xos/src/vmm.c:46-50 | a fresh zeroed table behind an empty directory slot changes no translation and keeps the tables distinct |
| `Sv32.AddEmptyTableTakes` | xos/src/vmm.c:46-50 | it takes one directory slot and one frame, and touches nothing below the allocator's top |
| `Sv32.MapMegapage` | xos/src/vmm.c:70-77 | an aligned leaf in an empty directory slot maps exactly that megapage |
| `Sv32.StoreNoLeaf` | xos/src/vmm.c:57-57 | flags that are no leaf map nothing in a page table |
| `Sv32.StoreNoMegapage` | xos/src/vmm.c:74-74 | nor in a directory, unless they make the frame a page table |
| `Sv32.WriteOutsideTables` | xos/src/kernel.c:60-69 | stores to frames of the allocator's callers change no translation |
| `Sv32.PteRoundTrip` | xos/src/vmm.c:29-57 | an entry built from an address and flag bits decodes to these |
| `Sv32.BitsOfEntry` | hw/inc/hw/riscv.h:156-163 | V, R, W, X, U, G, A and D are bits 0 to 7 of an entry |
| `Sv32.UnmappedIff` | xos/src/vmm.c:40-55 | a page is unmapped exactly when the words the code looks at are invalid |
| `Sv32.WalkDependsOnlyOnTables` | xos/src/vmm.c:16-23 | memory below the allocator's top takes no part in translation |
| `Sv32.HandOutFrame` | xos/src/vmm.c:16-23 | giving out a frame disturbs no translation and keeps callers' frames apart from tables |
| `Vmm.Memory.constructor` | xos/src/vmm.c:11-14 | the allocator starts with the given range and nothing handed out |
| `Vmm.Memory.PpageAllocZ` | xos/src/vmm.c:16-23 | a new zeroed frame never handed out before, everything else untouched; no frame exactly when the range is empty |
| `Vmm.Memory.AddTable` | xos/src/vmm.c:46-50 | the allocation branch of vm_map_4k adds an empty table or, out of pages, changes nothing |
| `Vmm.Memory.VmMap4k` | xos/src/vmm.c:31-61 | each result exactly when it should come; on success the walk changes for exactly the mapped page; otherwise memory and allocator are unchanged |
| `Vmm.Memory.FillSlot` | xos/src/vmm.c:52-60 | "already here" exactly when the page was mapped, so never after a fresh table |
| `Vmm.Memory.VmMap4m` | xos/src/vmm.c:63-78 | each result exactly when it should come; on success the walk changes for exactly the mapped megapage; otherwise nothing changes |
| `Kernel.Start` | xos/src/kernel.c:111-139 | no map call fails; a page table results exactly when the pages suffice, mapping exactly what the layout asks, in frames above the allocator's new top |
| `Kernel.MapRam` | xos/src/kernel.c:116-137 | the four loops map all of RAM section by section, at the cost of one table per directory slot |
| `Kernel.MapPages` | xos/src/kernel.c:118-132 | a loop of 4KB mappings gets through exactly when the tables it needs can be allocated |
| `Kernel.MapNext` | xos/src/kernel.c:118-121 | one iteration only ever fails for want of a page table |
| `Kernel.MapMegapages` | xos/src/kernel.c:133-137 | the rest of RAM is mapped by megapages without any allocation or failure |
| `Kernel.MapMega` | xos/src/kernel.c:134-137 | one megapage call succeeds and maps the next 1024 pages |
| `Kernel.NewDirectory` | xos/src/kernel.c:111-114 | the first frame allocated is an empty directory |
| `Kernel.MapMmio` | xos/src/kernel.c:138-139 | the MMIO megapage completes the kernel's map |
| `Kernel.SlotsClosedForm` | xos/src/vmm.c:46-50 | how many page tables a run of pages costs |
| `Kernel.TablesOfRam` | xos/src/kernel.c:116-132 | so the page tables for all of RAM number one per directory slot from the text to the last 4KB page |
| `UserEntry.StartUserProgram` | xos/src/kernel.c:40-78 | no map call fails; it gets through exactly when eight frames are left and the program fits, with the user half mapped as listed, the kernel half as before, the program copied and the entry frame filled in |
| `UserEntry.CopyProgram` | xos/src/kernel.c:57-63 | the memcpy through the new mapping puts every word where user mode finds it, or faults behind the fourth page |
| `UserEntry.StoreWord` | xos/src/kernel.c:60-61 | one store through the page table changes that word of a user frame and keeps the address space |
| `UserEntry.KernelStack` | xos/src/kernel.c:65-69 | the kernel stack page is new, and its top holds an entry frame with pc and sp and zeros |
| `UserSpace.MapUserPages` | xos/src/kernel.c:46-53 | five fresh frames and one table behind the user pages |
| `UserSpace.MapUserPage` | xos/src/kernel.c:47-53 | each of these calls finds its page free and takes one more frame |
| `UserSpace.MapFresh` | xos/src/kernel.c:47-53 | mapping a new page to a new frame |
| `UserSpace.MapFramebuffer` | xos/src/kernel.c:31-38 | all 150 pages are mapped, at the cost of one table |
| `UserSpace.AllocFrame` | xos/src/kernel.c:65-67 | an allocation between map calls, such as the kernel stack page, leaves the address space alone |
| `UserSpace.KernelTranslation` | xos/src/kernel.c:116-139 | byte by byte, in the entry bits of the specification: text is readable and executable and not writable, rodata readable alone, the rest of RAM and MMIO readable and writable and not executable; RAM at va - 0x80000000, MMIO to itself, nothing else, nothing for user mode, A and D set |
| `UserSpace.UserRights` | xos/src/kernel.c:31-55 | the four program pages are user-readable, writable and executable, stack and frame buffer pages user-readable and writable and not executable, each at its address; the kernel's pages are as before, nothing else is mapped |
| `Boot.EnterUserMode` | xos/src/kernel.c:40-145 | for every layout: user mode is reached exactly when the pages suffice and the program fits, with frames separate, program copied and entry frame ready |
| `Boot.BootedFramesSeparate` | xos/src/kernel.c:31-67 | the separation of user frames, kernel frames, image and frame buffer, all at once |
| `Boot.UserFramesAreSeparate` | xos/src/kernel.c:31-67 | no two user pages, program or frame buffer, share a frame, and none has the directory, a table or the kernel stack behind it |
| `Boot.ProgramMissesImage` | xos/src/kernel.c:46-53 | no program page has a frame of the kernel image or of the frame buffer behind it |
| `Boot.AllocatorMissesFramebuffer` | xos/src/kernel.c:31-38 | whatever the layout, no frame from the allocator lies in the frame buffer |
| `Boot.FramebufferOverImageIff` | xos/src/kernel.c:31-38 | the frame buffer lies over the kernel image exactly for an image that reaches over its place in RAM |
| `Boot.UserModeBegins` | xos/src/kernel.c:65-77 | user_mode_entry begins the program: pc and stack pointer as set, other registers zero, the program at its pc |
| `UserSpace.FramebufferClashIff` | xos/src/kernel.c:31-38 | for any allocator top, program frames meet the frame buffer exactly when it lies in a given interval (which no layout reaches) |
| `RunQueue.RingWheneverInterruptible` | example/ex11-threads-preemptive.c:64-128 | whenever interrupts are on the links are one ring of exactly the live threads with the current one in it; supervisor mode is never left |
| `RunQueue.RunsInterruptibly` | example/ex11-threads-preemptive.c:64-128 | once interrupts are on, every thread that runs has them on, after creations, exits and switches alike |
| `RunQueue.StepKeepsInv` | example/ex11-threads-preemptive.c:64-128 | every single pointer write, interrupt and return keeps the invariant |
| `RunQueue.CreateKeepsInv` | example/ex11-threads-preemptive.c:67-75 | the half-linked states of thread_create, up to a longer ring |
| `RunQueue.ExitKeepsInv` | example/ex11-threads-preemptive.c:98-124 | the half-unlinked states of thread_exit, down to a shorter ring; sstatus is ready for the next sret |
| `RunQueue.SwitchKeepsInv` | example/ex11-threads-preemptive.c:217-225 | interrupt, switch and return keep the ring and leave interrupts on |
| `RunQueue.LinkNext` | example/ex11-threads-preemptive.c:72-74 | the next links after a new thread was put behind the last |
| `RunQueue.LinkPrev` | example/ex11-threads-preemptive.c:73-75 | the prev links after a new thread was put behind the last |
| `RunQueue.Unlinked` | example/ex11-threads-preemptive.c:117-121 | the links after the current thread left |
| `RunQueue.StepMovesUp` | example/ex10-threads-cooperative.c:114-117 | a switch moves every waiting thread up by one, no other step moves any |
| `RunQueue.BoundedWaiting` | example/ex10-threads-cooperative.c:62-117 | a thread at distance d runs after exactly d switches and not before |
| `RunQueueCode.Scheduler.constructor` | example/ex11-threads-preemptive.c:51-60 | thread0 alone is a ring |
| `RunQueueCode.Scheduler.ThreadCreate` | example/ex11-threads-preemptive.c:64-75 | the new thread is last in the run order, linked between the last and the current one |
| `RunQueueCode.Scheduler.LinkIn` | example/ex11-threads-preemptive.c:72-75 | the four pointer writes, in order |
| `RunQueueCode.Scheduler.ThreadExit` | example/ex11-threads-preemptive.c:98-124 | the last thread stays; any other leaves the ring to its successor, with its own links cleared |
| `RunQueueCode.Scheduler.LinkOut` | example/ex11-threads-preemptive.c:117-121 | the four pointer writes, in order |
| `RunQueueCode.Scheduler.InterruptHandler` | example/ex11-threads-preemptive.c:217-225 | the current thread goes to the end of the run order, if the timer is pending |
| `ContextSwitch.InterruptParks` | hw/src/trap-entry-single-stack.S:28-60 | an interrupt leaves the thread's whole register state in memory, and writes only below its sp and in its context frame |
| `ContextSwitch.SavedResumes` | hw/src/context-switch.S:27-46 | a parked thread continues with exactly its pc and all its registers, whatever the registers before |
| `ContextSwitch.SavedNeedsOnly` | hw/src/context-switch.S:9-25 | which words of memory that depends on |
| `ContextSwitch.EnterSaves` | hw/src/trap-entry-single-stack.S:29-60 | the trap frame holds the caller-saved registers and the pc |
| `ContextSwitch.SaveContextKeeps` | hw/src/context-switch.S:9-25 | the context frame holds the callee-saved registers, the stack is untouched |
| `ContextSwitch.LoadedContext` | hw/src/context-switch.S:27-43 | the registers of the context frame are loaded |
| `ContextSwitch.TrapExitCompletes` | hw/src/trap-entry-single-stack.S:63-90 | trap_exit completes the register file and goes to the saved pc |
| `ContextSwitch.EpilogueRestores` | example/ex11-threads-preemptive.c:217-225 | the compiled handler's epilogue, whatever it saved |
| `ContextSwitch.IgnoredReturns` | hw/src/trap-entry-single-stack.S:28-90 | an interrupt that switches nothing gives back pc and all registers, and writes only below sp |
| `ContextSwitch.CframeRows` | hw/src/context-switch.S:9-43 | the frame's rows cover ra, sp, gp, tp and s0 to s11, each in its own word |
| `ThreadSystem.LinkInMemory` | example/ex11-threads-preemptive.c:72-75 | in memory, the longer ring and no word changed outside link fields |
| `ThreadSystem.LinkOutMemory` | example/ex11-threads-preemptive.c:117-121 | in memory, the shorter ring and no word changed outside link fields |
| `ThreadSwitch.RunsKeepsInv` | example/ex11-threads-preemptive.c:28-34 | thread code that keeps to its own stack and shared data, allocations included, keeps the invariant |
| `ThreadSwitch.SpuriousReturns` | example/ex11-threads-preemptive.c:217-225 | an interrupt that finds no timer pending changes no register, pc, ring or parked thread |
| `ThreadSwitch.TimerSwitches` | example/ex11-threads-preemptive.c:217-225 | a timer interrupt parks the current thread as it is and arrives in the next one as that was parked, interrupts on |
| `ThreadSwitch.ExitSwitches` | example/ex11-threads-preemptive.c:98-124 | an exit closes the ring in memory and arrives in the next thread as that was parked, interrupts on |
| `ThreadSwitch.ExitClearsLinks` | example/ex11-threads-preemptive.c:117-121 | both link fields of the thread that exits are zero in memory |
| `ThreadCreate.CreateAppends` | example/ex11-threads-preemptive.c:64-95 | the new thread is last in the ring, ready to start, and no other thread is disturbed |
| `ThreadCreate.CreatorGetsThread` | example/ex11-threads-preemptive.c:94-95 | the creator gets the last thread of the ring, a new one, in a0, with interrupts on, its pc and every other register unchanged |
| `ThreadCreate.NewThreadIsNamed` | example/ex11-threads-preemptive.c:69-71 | the new structure has the magic number and the id, through all later writes |
| `ThreadCreate.NewStackWords` | example/ex11-threads-preemptive.c:21-26 | each of the 1024 words of the new stack: the fill pattern, and in the frame return address, argument, entry and zeros |
| `ThreadCreate.NewFrameAt` | example/ex11-threads-preemptive.c:82-89 | the trap frame written is that of a thread about to enter fn(arg) |
| `ThreadCreate.NewContextAt` | example/ex11-threads-preemptive.c:77-84 | the context written returns into trap_exit on that frame |
| `ThreadCreate.LayoutAdds` | example/ex11-threads-preemptive.c:18-34 | a new structure and a new stack are apart from all others |
| `Preempt.PreemptionIsTransparent` | hw/src/trap-entry-single-stack.S:29-90 | under any schedule an interrupted thread continues with exactly its pc and registers |
| `Preempt.StackSurvives` | hw/src/trap-entry-single-stack.S:29-90 | and the part of its stack in use is, word for word, what it was |
| `Preempt.InterruptsStayOn` | example/ex11-threads-preemptive.c:64-128 | in every run that begins with interrupts on each thread runs with them on |
| `Preempt.NewThreadStarts` | example/ex11-threads-preemptive.c:77-94 | the first dispatch of a new thread enters fn(arg) with sp, ra, tp, mode and interrupts as promised and zeros in every other register |
| `Preempt.WaitingKeepsSnapshot` | hw/src/context-switch.S:8-46 | while a thread waits nothing changes what it will continue with |
| `Preempt.StepKeepsInv` | example/ex11-threads-preemptive.c:64-128 | every event keeps the invariant over registers, stacks, structures and links, and none gets stuck |
| `Preempt.BlocksStayApart` | example/ex11-threads-preemptive.c:28-34 | a block that alloc gave to a thread lies below every structure created later |
| `Preempt.InitHasInv` | example/ex11-threads-preemptive.c:234-240 | the state after thread_init has the invariant |
| `Preempt.StacksGoDown` | example/ex11-threads-preemptive.c:18-26 | every creation, and nothing else, takes the next 4096 bytes below |
| `ThreadCode.Cpu.TrapEntry` | hw/src/trap-entry-single-stack.S:29-60 | the stores and CSR moves, one by one, have the modelled effect |
| `ThreadCode.Cpu.Switch` | hw/src/context-switch.S:8-46 | the stores, loads and return have the modelled effect |
| `ThreadCode.Cpu.TrapExit` | hw/src/trap-entry-single-stack.S:63-90 | the loads and sret have the modelled effect |
| `ThreadCode.Cpu.ThreadCreate` | example/ex11-threads-preemptive.c:64-95 | the words written, in order, are the modelled new thread; heap, stack and id counter move on |
| `ThreadCode.Cpu.CallThreadCreate` | example/ex11-threads-preemptive.c:64-95 | the code, with its result in a0, leaves the machine in the state of the creation step |
| `ThreadCode.Cpu.ThreadExit` | example/ex11-threads-preemptive.c:98-124 | the last thread stays; any other writes the modelled links, saves its context and loads the next one's |
| `ThreadCode.Cpu.StartContext` | example/ex11-threads-preemptive.c:77-89 | stack, context and trap frame, word by word |
| `ThreadCode.Cpu.Alloc` | example/ex11-threads-preemptive.c:28-34 | a cleared block at the old top of the heap, of any size rounded up to 32 bytes |
| `ThreadCode.Cpu.AllocStack` | example/ex11-threads-preemptive.c:21-26 | a filled stack below the old one |
| `Cooperative.YieldComesBack` | example/ex10-threads-cooperative.c:114-117 | a thread that yields finds ra, sp, gp, tp and s0 to s11 as they were when it is switched back to |
| `Cooperative.NewThreadEnters` | hw/src/context-switch.S:48-56 | the first switch to a new thread goes through context_entry into fn(arg), on its stack, with the jump to thread_exit to return to |
| `Cooperative.StartContextAt` | example/ex10-threads-cooperative.c:74-82 | the context written is that of a thread about to enter context_entry |
| `Rv32.StoresAt` | xos/src/entry.S:17-55 | a block of stores puts each register at its offset and changes nothing else |
| `Rv32.Save` | xos/src/entry.S:17-55 | a block of store instructions, one by one, is the modelled block |
| `Rv32.Restore` | xos/src/entry.S:76-112 | a block of load instructions, one by one, is the modelled block |
| `Rv32.LoadsAt` | xos/src/entry.S:76-112 | a block of loads sets each register from its offset and changes no other |
| `XosTrap.TrapKeepsUserState` | xos/src/entry.S:8-118 | an interrupt preserves pc and all registers, a legal system call changes only a0 and pc, an illegal one only a0, to 0x46; sscratch is restored |
| `XosTrap.EveryTrapUsesTheSameFrame` | xos/src/entry.S:161-165 | after user_mode_entry every trap of any run saves into that frame |
| `XosTrap.RunKeepsStackTop` | xos/src/entry.S:72-74 | sscratch is the kernel stack top whenever user code runs |
| `XosTrap.IllegalSyscallNeverReturns` | xos/src/entry.S:156-159 | an illegal ecall repeats for ever with only a0 changed |
| `XosTrap.HandlerSees` | xos/src/entry.S:135-145 | the handler finds arguments, frame and kernel thread pointer where it should |
| `XosTrap.SyscallReaches` | xos/src/entry.S:131-145 | exactly the numbers 0, 1 and 2 are legal, and they reach sys_exit, sys_xputc and sys_thread_create |
| `XosTrap.Cpu.SyscallEntry` | xos/src/entry.S:135-145 | the dispatch, register by register |
| `XosTrap.EntrySaves` | xos/src/entry.S:8-59 | the frame holds every user register, the user sp and the pc |
| `XosTrap.ExitRestores` | xos/src/entry.S:69-118 | every register and the pc come from the frame |
| `XosTrap.RowsCoverRegisters` | xos/src/entry.S:17-55 | each register but zero and sp has exactly one word of the frame |
| `XosTrap.Cpu.TrapEntry` | xos/src/entry.S:8-59 | the instructions, one by one, have the modelled effect |
| `XosTrap.Cpu.TrapExit` | xos/src/entry.S:69-118 | the instructions, one by one, have the modelled effect |
| `Checksum.ChecksumVerifies` | net/ipv6.c:137-144 | with the complement stored, the bytes fold to 0xFFFF in both byte orders, and the field is not zero |
| `Checksum.ByteOrderIndependent` | net/ipv6.c:118-131 | little-endian summing finds 0xFFFF exactly when network-order summing does |
| `Checksum.FoldStep` | net/ipv6.c:127-129 | adding the carries back keeps the one's-complement value and shrinks the sum |
| `Checksum.FoldTwice` | net/ipv6.c:139-141 | a folded partial sum can be carried on with |
| `Checksum.Sum` | net/ipv6.c:118-131 | the loop computes the folded word sum of even or odd length, with no wrap in 32 bits |
| `Checksum.FoldDown` | net/ipv6.c:127-130 | the last loop ends in 16 bits with the one's-complement value |
| `Ipv6.ReplyVerifies` | net/ipv6.c:281-350 | every reply, of any length, verifies at its receiver and carries a non-zero checksum |
| `Ipv6.ReplyFields` | net/ipv6.c:322-350 | the fields of a reply: back to the sender, from this interface, length, type, hop limit 255 |
| `Ipv6.SolicitationAnswered` | net/ipv6.c:162-195 | a solicitation is answered with a valid advertisement exactly when the MAC does not begin 33:33:ff |
| `Ipv6.UnicastSolicitationAnswered` | net/ipv6.c:241-269 | so for every unicast MAC |
| `Ipv6.AdvertisementAnswers` | net/ipv6.c:179-194 | the advertisement has S and O set, the target, this MAC, and a checksum that holds |
| `Ipv6.GroupMac` | net/ipv6.c:41-62 | group address and multicast MAC, derived from the MAC alone, are those of the link-local address |
| `Ipv6.DeliversIff` | net/ipv6.c:146-160 | a datagram is delivered exactly when the frame is for the interface's MAC and address, or for one of its two groups, and the UDP length fits; with its data, port and the way it came |
| `Ipv6.AnswersIff` | net/ipv6.c:162-269 | a frame is answered exactly when it is so addressed and is a solicitation of this address or an echo request that fits; with a valid advertisement or echo reply |
| `Ipv6.AllNodesDatagramDelivered` | net/ipv6.c:261-262 | a datagram to MAC 33:33:00:00:00:01 and address ff02::1, as a netboot query is, is delivered |
| `Ipv6.UdpReplyFields` | net/ipv6.c:281-311 | ports, length, data and checksum of a UDP reply at their offsets |
| `Ipv6.LinkLocalBytes` | net/ipv6.c:25-38 | the link-local address is fe80::/64 and the EUI-64, with one bit of the first MAC byte flipped and no other |
| `Ipv6.DefaultAddresses` | net/ipv6.c:75-101 | the addresses the source starts with are those of its default MAC |
| `Ipv6.EchoComesBack` | net/ipv6.c:196-205 | the echo reply, of any length, has the request's code, identifier and data, and verifies |
| `Ipv6.ReplyIsDelivered` | net/ipv6.c:146-160 | a peer's stack delivers exactly the data of a UDP reply, on the port asked from |
| `Ipv6Code.ChecksumIp6` | net/ipv6.c:137-144 | the two partial sums over the packet are the sum over pseudo-header and payload |
| `Ipv6Code.Stack.constructor` | net/ipv6.c:104-115 | net_init leaves the addresses that RFC 4291 and RFC 2464 derive from the MAC |
| `Ipv6Code.Stack.LinkLocalFromMac` | net/ipv6.c:25-38 | the address written is fe80::/64 with the modified EUI-64 |
| `Ipv6Code.Stack.GroupFromMac` | net/ipv6.c:41-52 | the address written is the solicited-node group of that link-local address |
| `Ipv6Code.Stack.TxIp6Reply` | net/ipv6.c:322-350 | the frame sent is the specified reply; too long a payload sends nothing |
| `Ipv6Code.Stack.TxUdpReply` | net/ipv6.c:281-311 | the frame sent is the specified UDP reply; too long a payload sends nothing |
| `Ipv6Code.Stack.RxEth` | net/ipv6.c:241-269 | what is dropped, delivered or sent, as a function of the frame received |
| `Ipv6Code.Stack.RxIp6` | net/ipv6.c:212-239 | the same from the IPv6 header on |
| `Ipv6Code.Stack.RxIcmp6` | net/ipv6.c:162-209 | the same for ICMPv6, turning echo requests round in their buffer |
| `Ipv6Code.Stack.RxUdp6` | net/ipv6.c:146-160 | the same for UDP, with its length checks |
| `Sha256.HashChunks` | external/sha256.c:87-157 | only the concatenation of the updates matters: the digest is that of FIPS 180-4 |
| `Sha256.Context.Init` | external/sha256.c:87-98 | the empty message has been hashed; the state is the initial value |
| `Sha256.Context.Update` | external/sha256.c:100-112 | the message grows by the bytes given, at any point of a block |
| `Sha256.Context.Absorb` | external/sha256.c:103-111 | one byte more, with a compression at each block boundary |
| `Sha256.Context.Final` | external/sha256.c:114-157 | the digest is that of the whole message |
| `Sha256.Context.PadTail` | external/sha256.c:117-131 | both padding cases lead to the last block of the padded message |
| `Sha256.Context.PutLength` | external/sha256.c:135-142 | the length in bits, big-endian |
| `Sha256.Context.Transform` | external/sha256.c:44-85 | one compression of section 6.2.2 |
| `Sha256.Context.RunRounds` | external/sha256.c:55-75 | the 64 rounds |
| `Sha256.Schedule` | external/sha256.c:47-53 | the message schedule |
| `Sha256.Context.Output` | external/sha256.c:147-156 | the state words, each most significant byte first |
| `Sha256.HashAppend` | external/sha256.c:106-110 | one block more is one compression more |
| `Sha256.PadSplit` | external/sha256.c:120-131 | how the padded message falls into blocks, for a remainder below 56 and from 56 on |
| `Sha256.Length64Wraps` | external/sha256.c:134-142 | a wrap of the 64-bit counter does not show in the length field |
| `Fips180.PaddingIsLeast` | external/sha256.c:119-131 | the padding is the shortest that fills a block |
| `FipsMeaning.ConstantsAreCubeRoots` | external/sha256.c:32-41 | constant i is the first 32 bits of the fraction of the cube root of the i-th prime |
| `FipsMeaning.PrimesInOrder` | external/sha256.c:32-41 | the primes meant are all primes up to 311, in order |
| `FipsMeaning.InitialValueIsSquareRoots` | external/sha256.c:90-97 | the initial words are the same of the square roots of the first eight |
| `FipsMeaning.RotRRotates` | external/sha256.c:21-22 | bit k of a rotation is bit k + n modulo 32 |
| `FipsMeaning.BigSigma0Bit` | external/sha256.c:26-26 | EP0 bit by bit |
| `FipsMeaning.BigSigma1Bit` | external/sha256.c:27-27 | EP1 bit by bit |
| `FipsMeaning.SmallSigma0Bit` | external/sha256.c:28-28 | SIG0 bit by bit |
| `FipsMeaning.SmallSigma1Bit` | external/sha256.c:29-29 | SIG1 bit by bit |
| `FipsMeaning.ChSelects` | external/sha256.c:24-24 | CH has the bits of y where x has ones and of z where it has zeros |
| `FipsMeaning.MajTakesMajority` | external/sha256.c:25-25 | MAJ has the bits on which x and y agree, and else those of z |
| `FipsMeaning.LengthFieldValue` | external/sha256.c:134-142 | the last eight bytes are the number of bits as a big-endian number |
| `FipsExample.AbcDigest` | external/sha256.c:44-157 | the digest of "abc" is the one that FIPS 180-2 prints |
| `LibcMemory.Memmove` | libc/src/string/memmove.c:23-74 | both directions with all their fast paths are byte copies in that direction |
| `LibcMemory.Memcpy` | libc/src/string/memcpy.c:23-51 | it is an upward byte copy |
| `LibcMemory.Memset` | libc/src/string/memset.c:17-47 | exactly the range is filled with the low byte |
| `LibcMemory.MemmoveMoves` | libc/src/string/memmove.c:23-74 | dest gets the old source bytes and all else stays, for any alignment and overlap that does not straddle 0x80000000 |
| `LibcMemory.RightForAllContentsIff` | libc/src/string/memmove.c:31-71 | for any two buffers, the copy is right for all contents exactly when the size fits and the overlap is in the direction handled |
| `LibcMemory.SpoilsOnlyAcrossTheMiddle` | libc/src/string/memmove.c:31-31 | the signed comparison picks the wrong direction exactly for overlaps across 0x80000000 |
| `LibcMemory.WitnessGoesWrong` | libc/src/string/memmove.c:26-41 | a memory for which the copy goes wrong whenever it can |
| `LibcMemory.CopyUpIsMove` | libc/src/string/memmove.c:40-41 | an upward copy moves when the destination does not start inside the source |
| `LibcMemory.CopyDownIsMove` | libc/src/string/memmove.c:61-62 | a downward copy moves when the destination does not end inside the source |
| `LibcMemory.WordUp` | libc/src/string/memmove.c:43-47 | a word moved at once is four bytes moved upwards |
| `LibcMemory.WordDown` | libc/src/string/memmove.c:64-68 | a word moved at once is four bytes moved downwards |
| `LibcMemory.AlignUp` | libc/src/string/memmove.c:32-42 | the head copy leaves both pointers word aligned, or nothing to copy by words |
| `LibcMemory.AlignDown` | libc/src/string/memmove.c:53-63 | the tail copy leaves both ends word aligned, or nothing to copy by words |
| `LibcMemory.FillWords` | libc/src/string/memset.c:33-37 | aligned word stores fill with the byte |
| `LibcMemory.Splat` | libc/src/string/memset.c:24-25 | the word made of the byte is four copies of it |
| `Strtoul.Strtoul` | libc/src/atoi.c:104-172 | EINVAL for a bad base; otherwise exact saturation, ERANGE exactly on overflow, endptr past the digits |
| `Strtoul.ScanDigits` | libc/src/atoi.c:134-165 | the digit loop against the mathematical value |
| `Strtoul.ScanPrefix` | libc/src/atoi.c:113-132 | blanks, sign, and the base from a prefix |
| `Strtoul.OverflowTest` | libc/src/atoi.c:154-162 | the three tests together detect exactly the digits that pass 32 bits |
| `Strtoul.DivideBack` | libc/src/atoi.c:154-155 | the divide-back test detects every multiply overflow and nothing else |
| `Strtoul.NegationIff` | libc/src/atoi.c:167-169 | a negated value comes back unless its magnitude is the largest word |
| `NumberForms.ReadForm` | libc/src/atoi.c:104-172 | any number as it is written, blanks, sign, prefix and digits, with other text behind: its value, sign, saturation and end |
| `NumberForms.ReadsForm` | libc/src/atoi.c:113-132 | "0" and octal, "0x" and hexadecimal, or decimal digits under base 0, hexadecimal with or without "0x" under 16, plain digits under others |
| `NumberForms.DigitTable` | libc/src/atoi.c:134-148 | a digit is worth its place in the alphabet, in either case, and nothing else is a digit |
| `NumberForms.Instances` | libc/src/atoi.c:113-132 | "017" under 0 is 15, "0x1F" under 0 and 16 is 31 |
| `Printf.FieldWidth` | libc/src/printf.c:591-613 | a right-justified field has exactly the larger of width and digits with sign |
| `Printf.SignShownIff` | libc/src/printf.c:583-590 | a negative number shows its sign exactly when not left-justified |
| `Printf.WordDigits` | libc/src/printf.c:114-163 | the digits of any word fit the buffer |
| `PrintfEngine.LonglongToString` | libc/src/printf.c:114-145 | the buffer holds the decimal digits of the magnitude, with the sign apart |
| `PrintfEngine.LonglongToHexstring` | libc/src/printf.c:150-163 | the buffer holds the hexadecimal digits |
| `PrintfEngine.Engine` | libc/src/printf.c:392-622 | the goto-driven engine puts out what the recursive renderer says, counts it, and makes the stores of %n |
| `PrintfEngine.ScanSpec` | libc/src/printf.c:431-490 | flags, width and modifiers |
| `PrintfEngine.PutField` | libc/src/printf.c:437-574 | one conversion: its text, and for %n the store in the width asked for |
| `PrintfEngine.PutJustified` | libc/src/printf.c:580-613 | one justified field |
| `PrintfEngine.Sink.Put` | libc/src/printf.c:59-73 | as much as fits is kept, the full length reported |
| `PrintfEngine.Vsnprintf` | libc/src/printf.c:75-89 | full length returned, as much of the text as the length allows and a NUL in the buffer, the rest of it untouched |
| `PrintfEngine.Vsprintf` | libc/src/printf.c:49-51 | the whole text and a NUL, in any buffer that holds them |
| `PrintfEngine.Convert` | libc/src/printf.c:431-576 | one conversion specification: its field, its count, and its store with the width that the modifiers ask for |
| `PrintParse.PrintThenParse` | libc/src/atoi.c:104-172 | any word printed by d, i, u, x or X, with any width, '0', '+' or blank flag, is read back the same |
| `PrintParse.DigitsRoundTrip` | libc/src/printf.c:114-163 | printed digits denote their number |
| `FormatParse.PrintAndParse` | libc/src/printf.c:392-622 | a word printed by vsnprintf with any flags (not '-'), width, precision, size and conversion d, i, u, x or X comes back from strtoul, cut to its size |
| `FormatParse.ParsesWritten` | libc/src/printf.c:431-490 | a directive, anywhere in a format, is parsed as exactly what is written: flags in any order, width, size, conversion; the digits of a precision count as more digits of the width |
| `FormatParse.RendersField` | libc/src/printf.c:409-577 | a format of one directive denotes exactly its field |
| `FormatParse.FieldIsText` | libc/src/printf.c:580-613 | a number's field has no NUL in it and a bounded length |
| `FormatPieces.RendersPieces` | libc/src/printf.c:404-576 | a format of any texts and directives puts out the texts and, for conversion number i, the field of argument number i, in order; %n stores what is out before it; a directive without an end puts out nothing |
| `FormatPieces.PrintPieces` | libc/src/printf.c:75-89 | in the buffer of vsnprintf each piece is where those before it end |
| `FormatPieces.PiecesComeBack` | libc/src/printf.c:490-536 | every number among the pieces is read back by strtoul as its own argument |
| `FormatFields.SignedField` | libc/src/printf.c:490-503 | d and i: the decimal numeral of the magnitude, laid out with the sign asked for |
| `FormatFields.UnsignedField` | libc/src/printf.c:504-514 | u: the decimal numeral |
| `FormatFields.HexFields` | libc/src/printf.c:515-536 | x, X and p: the hexadecimal numeral in the right case, with its prefix outside the width |
| `FormatFields.TextFields` | libc/src/printf.c:446-457 | s, c, a percent sign, n, and characters that are no conversion |
| `FormatFields.JustifyLaysOut` | libc/src/printf.c:580-613 | blanks or zeros, sign and text, in a field no wider than asked or needed |
| `FormatFields.DigitsAreNumeral` | libc/src/printf.c:114-163 | the digits printed are the numeral of their number: one case, no zero in front |
| `PrintParse.LeftJustifiedParsesIff` | libc/src/printf.c:583-590 | left-justified, exactly the non-negative words, and the smallest integer, are read back |

## Left out

- Device I/O: UART, timer and Ethernet registers, CSR plumbing and DMA slots; the timer is an interrupt that may fire, frames are byte sequences.
- Sockets, poll, files and argument parsing of tools/netboot.c: a send, a reply, a timeout, a failed write and a chunk read are events. The session loop of main is steps of the machine, not a method. A datagram shorter than a header counts as one with the wrong magic number.
- NetbootSafety.BootSafety: past a counter of 2^32 + 3 it is false, as NetbootLimit.BootSafetyIff shows; corruption of datagrams and other senders are not modelled, nor is a second boot. The host's sockets are one inbox: a reply can reach a later socket, as port numbers are used again.
- The bootloader's own memory: images are assumed to lie outside it.
- TLB contents and memory ordering: a page-table write takes effect in the walk at once. The bit operations on entries are written with division and remainder.
- UserEntry.StartUserProgram: the program is a sequence of words, its last one padded with the zeros of the fresh page; the sstatus bits around the copy are not modelled, and a fault ends the model.
- Vmm.Memory.VmMap4k: flags that are valid but no leaf leave entries that break the invariant for later calls; the contract then says only that nothing was mapped.
- Vmm.Memory.VmMap4m: the same, and flags of a pointer make the frame given a page table, whose contents are not looked into.
- NetbootCode.HandlePacket: a WRITE that runs off the end of the address space wraps to address 0, as compiled code does; C gives it no meaning.
- RunQueueCode.Scheduler.ThreadCreate: the links only; context, stack and trap frame are in ThreadCode and ThreadCreate.
- ThreadCreate.CreatorGetsThread: the compiled thread_create may also clobber caller-saved registers, which are left to the caller's next piece of thread code.
- RunQueue counts heap addresses in units; sizes and contents of thread structures are in ThreadSystem, where thread_create and thread_exit are single steps because interrupts are masked in them.
- Preempt.PreemptionIsTransparent: thread code is assumed to keep tp, to leave room for one interrupt above the bottom of its stack, to leave thread structures and other live threads' stacks alone, and memory not to run out; the code checks none of these. interrupt_handler is modelled by the calling convention: an arbitrary stack frame with arbitrary callee-saved registers, or none.
- The exception path of the trap entries, which prints and halts.
- The whole-memory invariant of ex11 is not repeated for ex10, whose stacks lie 8192 bytes apart; its switch and its thread start are in Cooperative, its ring in RunQueue.
- XosTrap: the C handlers are arbitrary code that obeys the calling convention and leaves the saved frame alone.
- Ipv6: incoming checksums and hop limits are not looked at, as in the code; the received length includes link padding, as in the code. The rx buffer begins with two zero bytes of padding, as its driver leaves them.
- PrintfEngine.Engine: one argument per conversion, of the type the conversion expects, with its low 32 bits; formats with an embedded NUL, an output function that fails, and texts of 2^31 characters and more are not modelled.
- PrintfEngine.Vsnprintf: a length of 0 is outside the precondition, since the code then writes before the buffer.
- Floating-point printing is compiled out; simple string helpers would only add easy members.
- Graphics, fonts, Mandelbrot demos, the device-tree reader, the console, and the earlier mappers of ex20 and ex25.

# Guest memory, register caches and tables of virt86

virt86 puts one interface over several hypervisors. Most of it hands requests on;
this project models the parts that hold state of their own or transform data, and
proves what they keep over every input and every run.

**Guest memory.** A virtual machine keeps a list of memory regions in which a later
entry takes precedence (`Regions`). Mapping appends, unmapping trims, splits or erases
entries in place (`Mapping`, `VirtualMachines`). A physical access looks for one region
that holds all of it (`PhysicalMemory`). Page tables live in that same memory; four
walks turn a linear address into a physical one (`Paging`, `PageTables`). A linear access is
split at page boundaries, each chunk translated once and copied (`LinearMemory`,
`VirtualProcessors`). Every layer is proved against a simpler one: the list against a
newest-wins map from addresses to host addresses, one byte at a time; the walks against
the tables of the Intel SDM, volume 3A, sections 4.3, 4.4.2 and 4.5, written out
independently over that map; the chunked access against the access that translates every
byte by itself. The layers meet in one chain: argument checks keep regions page-aligned,
aligned regions make an access inside one page see the per-byte map, walks keep page
offsets and treat all addresses of a page alike, hence a linear access is per-byte.

**Register caches.** `SubRegisters` and `FpuRegisters` hold the aliasing rules of the
general purpose registers and of the byte buffers behind the x87, MMX and SSE registers,
`KvmRegisters` and `HaxmRegisters` the register structures of the two backends with the
widths their fields have. They say exactly which values a register reads back and relate
the backends over every sequence of writes. The virtual processors keep copies of these
structures with dirty and changed flags (`HaxmCache`, `KvmCache`). Both caches are proved
against a machine without a cache for every sequence of calls, with hypervisor calls that
fail along the way. For KVM the cache is first proved to be a small state of three parts,
what a caller sees, the hypervisor's copy and the flagged groups; from it follow when the
cache acts like no cache at all and which writes a run keeps.

**Interrupt queue.** `Interrupts` is a state machine in which any number of threads
enqueue and any number run the virtual processor, one atomic action at a time.

**Tables and lists.** `Gdt` has the descriptor tables in guest memory, which entries
their accessors take, and descriptor packing, `HaxmMsrs` the batched access to model
specific registers, `CpuidMerge` the merge of custom CPUID results into the defaults.
`Bits` and `ByteBuffers` relate shifts, masks and byte order to division and remainder
once for all modules.

The code is modelled as it is. Where it departs from what its comments, its callers or the
processor manual lead one to expect, an if-and-only-if says for which inputs it does what
is expected, and a lemma gives an input, or a family of inputs, for which it does not. The
one exception is HAXM's failing push, where a method's contract says what is lost.

| departure | exactly when | input |
|---|---|---|
| unmapping enlarges regions that the range does not touch | `Regions.SubtractIsPointwise`, `Regions.TrimmedIffTouching` | `Regions.UnmapFarAwayEnlarges` |
| a range that wraps around passes the bounds check | `Mapping.MapKeepsValidIff` | `Mapping.WrappingMapIsAccepted` |
| unmapping a range that wraps around never ends | `VirtualMachines.PassEndsIff` | `VirtualMachines.UnmapNeverEnds` |
| an access across a page boundary needs one region for all of it | `PhysicalMemory.AccessAgreesIff` | `PhysicalMemory.AccessAcrossRegions` |
| PAE paging takes its directory index from address bits 11:3 | `Paging.PaeAgreesIff` | `Paging.OneLargePageWalks` |
| PAE paging treats addresses of one page differently | `Paging.PaeUniformIff` | `Paging.PaeIsNotPageUniform` |
| system descriptor bases and gate offsets are sign-extended | `Gdt.SystemBaseRoundTripIff`, `Gdt.OffsetRoundTripIff`, `Gdt.StoredSystemDescriptorIff` | `Gdt.HighBaseIsExtended` |
| outside IA-32e mode a system base takes in bytes that were not read | `Gdt.LegacySystemBaseIff` | `Gdt.LegacyBaseTakesScratch` |
| a descriptor table's last entry is refused | `Gdt.LastEntryIsRefusedIff` | `Gdt.LastEntryIsRefused` |
| a refused descriptor has been written already | `Gdt.RefusalWritesIff` | `Gdt.RefusedEntryIsWritten` |
| two threads that run one virtual processor take from an empty queue | `Interrupts.SafeIffOneRunner` | `Interrupts.TwoRunnersFault` |
| HAXM writes SPL, BPL, SIL and DIL through the 16-bit field | `SubRegisters.CellWritesAgreeIff` | `SubRegisters.SplClearsSecondByte` |
| segments on KVM and EFER lose bits | `KvmRegisters.ReadBackIff`, `HaxmRegisters.ReadBackIff` | `KvmRegisters.AttributesAreCut` |
| FPU control values lose their segments on KVM, half of their pointers on HAXM | `FpuRegisters.KvmFpuControlReadBackIff`, `FpuRegisters.HaxmFpuControlReadBackIff` | `HaxmCache.FpuPointerIsCut` |
| HAXM ignores a failing push | `HaxmCache.HaxmVirtualProcessor.UpdateRegisters` | |
| KVM starts with a zeroed cache marked as current | `KvmCache.KvmVirtualProcessor.constructor` | `KvmCache.FirstRunForgets` |
| KVM stores FPU control registers without setting the FPU flag | `KvmCache.StepIsUncached`, `KvmCache.ControlKeptIff` | `KvmCache.ControlIsForgotten` |
| bulk register access overruns the arrays | `HaxmMsrs.BulkIsEachIff` | `HaxmMsrs.ThirtyThreeOverrun` |
| the CPUID leaf counter is off by one in a first run of function 0xFFFFFFFF | `CpuidMerge.LeafIsPositionIff`, `CpuidMerge.PicksByPositionIff` | `CpuidMerge.SentinelGetsLeafOne` |

Integers are unbounded in the model; `Bits.Wrap` marks where 64-bit arithmetic wraps
around. Host memory is one byte for each 64-bit host address, so that overlapping and
aliased host blocks are covered. The widths of KVM's own structures are those of the
public header linux/kvm.h, which is not part of the repository. `hide` only narrows what
the solver looks at.

## Model

| member | source | states |
|---|---|---|
| Regions.SubtractIsPointwise | modules/core/src/vm/vm.cpp:283-331 | unmapping a range makes every address in it unmapped and leaves every other address at its host address, newest-wins order included, if and only if no region that lies apart from the range claims the gap between them wrongly |
| Regions.SubtractAt | modules/core/src/vm/vm.cpp:283-331 | the same at one address, with the exact condition |
| Regions.SubtractTouching | modules/core/src/vm/vm.cpp:290-326 | when the range overlaps or adjoins every region, unmapping is pointwise subtraction on all addresses |
| Regions.TrimmedIffTouching | modules/core/src/vm/vm.cpp:306-315 | a single region is trimmed to itself minus the range if and only if the range overlaps or adjoins it |
| Regions.PiecesClaim | modules/core/src/vm/vm.cpp:298-326 | what the pieces of a region resolve: its own addresses outside the range and the gap, each to the host address it had |
| Regions.SubtractResolves | modules/core/src/vm/vm.cpp:283-331 | after the pass the newest region that claims an address decides its host address |
| Regions.UnmapFarAwayEnlarges | modules/core/src/vm/vm.cpp:306 | departure: unmapping page 0x8000 maps the pages after a region at 0x1000 |
| Regions.SubtractKeepsValid | modules/core/src/vm/vm.cpp:283-331 | unmapping an aligned range keeps every region non-empty and page-aligned in base, size and host address |
| Mapping.MapAcceptedIff | modules/core/src/vm/vm.cpp:60-89 | the checks accept a request exactly when host address, base and size are page-aligned, the size is positive and supported, and first and last address, computed with wraparound, are in bounds |
| Mapping.UnmapAcceptedIff | modules/core/src/vm/vm.cpp:99-119 | the checks of an unmap accept exactly the aligned, non-empty ranges of a supported size, wherever they end |
| Mapping.MapRefusal | modules/core/src/vm/vm.cpp:60-91 | which refusal each map request meets, in terms of remainders and bounds |
| Mapping.UnmapRefusal | modules/core/src/vm/vm.cpp:99-119 | which refusal each unmap request meets |
| Mapping.MapKeepsValidIff | modules/core/src/vm/vm.cpp:60-97 | a successful map keeps the list valid if and only if its range does not wrap around |
| Mapping.WrappingMapIsAccepted | modules/core/src/vm/vm.cpp:88 | departure: every aligned range that starts in bounds and wraps around passes the checks |
| Mapping.RunKeepsValid | modules/core/src/vm/vm.cpp:60-126 | over every run of maps and unmaps without wraparound, regions stay non-empty and page-aligned |
| Mapping.RequestKeepsBoundsIff | modules/core/src/vm/vm.cpp:60-126 | a successful request keeps all regions below the guest address bound, except exactly when it unmaps a range beyond the bound while something is mapped |
| Mapping.RunKeepsBounds | modules/core/src/vm/vm.cpp:60-126 | over every run whose ranges start in bounds and do not wrap, all regions stay in bounds |
| Mapping.SubtractBounds | modules/core/src/vm/vm.cpp:283-331 | the exact case in which unmapping moves a region's end beyond the bound |
| VirtualMachines.VirtualMachine.MapGuestMemory | modules/core/src/vm/vm.cpp:60-97 | status and list after the call; a status other than OK leaves the list alone; validity is kept if and only if the range does not wrap |
| VirtualMachines.VirtualMachine.UnmapGuestMemory | modules/core/src/vm/vm.cpp:99-126 | status and list after the call on every request the pass ends on; for a range that does not wrap, validity is kept and unmapping is pointwise subtraction if and only if gaps are harmless |
| VirtualMachines.VirtualMachine.SubtractMemoryRange | modules/core/src/vm/vm.cpp:283-331 | on every list and range on which it ends at all, the in-place loop leaves the list that subtracts the range from each region in order, second visit to a split region included |
| VirtualMachines.PassStep | modules/core/src/vm/vm.cpp:294-326 | each round leaves the list the pass will produce as it was and gets closer to the end |
| VirtualMachines.PassEndsIff | modules/core/src/vm/vm.cpp:283-331 | the loop ends if and only if the range does not wrap around or no region is to be split by it; then it leaves the subtracted list |
| VirtualMachines.NeverEnds | modules/core/src/vm/vm.cpp:316-326 | departure: for a range that wraps around and a region to split, no number of rounds ends the loop |
| VirtualMachines.FirstPartAgain | modules/core/src/vm/vm.cpp:316-326 | the first part of a split region, visited a second time, is left as it is when the range does not wrap and split again when it does |
| VirtualMachines.UnmapNeverEnds | modules/core/src/vm/vm.cpp:285 | departure: a request that passes the checks and on which the loop never ends |
| VirtualMachines.VirtualMachine.MemRead | modules/core/src/vm/vm.cpp:202-223 | the search from newest to oldest succeeds as specified and copies exactly the block found; the rest of the buffer and, on failure, all of it is unchanged |
| VirtualMachines.VirtualMachine.MemWrite | modules/core/src/vm/vm.cpp:225-246 | the same for host memory, byte by byte |
| PhysicalMemory.InPageAccess | modules/core/src/vm/vm.cpp:202-246 | over valid regions an access inside one page succeeds exactly when its first byte is mapped and touches exactly the bytes of the newest-wins map |
| PhysicalMemory.AccessAgreesIff | modules/core/src/vm/vm.cpp:202-246 | any access that does not wrap agrees with the per-byte map if and only if, where a region holds all of it, every newer region that owns one of its bytes sends it to the same host address, and otherwise some byte is in no region |
| PhysicalMemory.HolderIsFound | modules/core/src/vm/vm.cpp:207-221 | the search finds the newest region that holds the whole access, and nothing where there is none |
| PhysicalMemory.InPageAgrees | modules/core/src/vm/vm.cpp:202-246 | accesses inside one page always agree with the per-byte map |
| PhysicalMemory.PickedIsLargeEnough | modules/core/src/vm/vm.cpp:213-218 | the branch that reduces the remaining size is dead: a region that passes the test holds the whole access |
| PhysicalMemory.FoundAccess | modules/core/src/vm/vm.cpp:202-246 | a found access has its full size and keeps the page offset |
| PhysicalMemory.AccessAcrossRegions | modules/core/src/vm/vm.cpp:202-246 | departure: an access across a page boundary fails over adjoining regions and bypasses a newer region under its last bytes |
| Paging.Concatenates | modules/core/src/vp/vp.cpp:131-145 | BuildAddress puts table bits above and linear address bits below without overlap or wraparound |
| Paging.EntryIsPresent | modules/core/src/vp/vp.cpp:147-163 | reading an aligned entry gives the little-endian value in the per-byte physical memory, and fails when a byte is unmapped or the present bit is clear |
| Paging.TranslationAgrees | modules/core/src/vp/vp.cpp:165-213 | the whole translation, choice of mode by CR0.PG, CR4.PAE and EFER.LME included, is the manual's, except in PAE mode for addresses whose bits 11:3 and 29:21 differ |
| Paging.TranslationNeedsRegisters | modules/core/src/vp/vp.cpp:165-196 | a translation fails without reading memory when CR0, CR4 or EFER cannot be read, and with paging also when CR3 cannot; without paging it needs no CR3 |
| Paging.FourLevelAgrees | modules/core/src/vp/vp.cpp:327-398 | the 4-level walk is that of section 4.5, with 4-KByte, 2-MByte and 1-GByte pages, on every memory and register state |
| Paging.DirectoryAgrees | modules/core/src/vp/vp.cpp:361-398 | its page directory and page table levels, entered with any directory base |
| Paging.ThirtyTwoBitAgrees | modules/core/src/vp/vp.cpp:215-266 | the 32-bit walk is that of section 4.3, PSE included |
| Paging.LargePage32 | modules/core/src/vp/vp.cpp:241-246 | a 4-MByte page's 40-bit address from its two frame fields |
| Paging.PaeAgreesIff | modules/core/src/vp/vp.cpp:268-325 | the PAE walk gives the answer of section 4.4.2 on every memory if and only if the address's bits 11:3 equal its bits 29:21 |
| Paging.PaeAgrees | modules/core/src/vp/vp.cpp:268-325 | under that condition the walks agree |
| Paging.OneLargePageWalks | modules/core/src/vp/vp.cpp:297 | departure: on tables that map one 2-MByte page, for which addresses the manual and the code find it |
| Paging.PaeIsNotPageUniform | modules/core/src/vp/vp.cpp:297 | departure: in PAE mode address 0 is mapped and address 8 of the same page is not |
| Paging.PaeUniformIff | modules/core/src/vp/vp.cpp:268-325 | in PAE mode two addresses of one page are translated alike on every memory if and only if they agree on bits 11:3 |
| Paging.TranslationIsPageUniform | modules/core/src/vp/vp.cpp:165-266 | in all modes but PAE two addresses of one 4-KByte page walk the same entries, both fail or both reach the same physical page, and keep their own low 12 bits |
| Paging.FourLevelUniform | modules/core/src/vp/vp.cpp:327-398 | the same for the 4-level walk, across every page size |
| Paging.TranslationFrame | modules/core/src/vp/vp.cpp:147-398 | a translation depends on memory only through the bytes of the entries it walks |
| PageTables.InstalledPageTranslates | modules/core/src/vp/vp.cpp:327-398 | after the two, three or four entries of a path are written to guest memory, the address translates to the last entry's frame plus its offset in a 1-GByte, 2-MByte or 4-KByte page |
| PageTables.InstalledPageTranslates32 | modules/core/src/vp/vp.cpp:215-266 | the same for 4-KByte and 4-MByte pages of 32-bit paging |
| PageTables.PathIsWalked | modules/core/src/vp/vp.cpp:327-398 | the manual's walk follows a path whose entries are present |
| PageTables.InstalledReads | modules/core/src/vp/vp.cpp:147-163 | entries written to bytes that no two share are each read back with their value |
| LinearMemory.AccessIsPerByte | modules/core/src/vp/vp.cpp:400-443 | outside PAE mode a linear access reaches all bytes exactly when each address of the range, wrapping at 2^64, translates to a mapped byte; byte i is the one behind address i, and it stops at the first unmapped one |
| LinearMemory.ChunkedIsPerByteIff | modules/core/src/vp/vp.cpp:400-443 | in any mode chunked and per-byte access agree for all addresses and sizes if and only if pages are contiguous |
| LinearMemory.ContiguousOutsidePae | modules/core/src/vp/vp.cpp:400-443 | valid regions and a mode other than PAE make all pages contiguous |
| LinearMemory.ByteTargetsMeaning | modules/core/src/vp/vp.cpp:400-443 | the per-byte semantics is the longest mapped prefix of the range |
| LinearMemory.TranslationKeepsOffset | modules/core/src/vp/vp.cpp:165-398 | every mode's translation keeps the low 12 bits |
| LinearMemory.WriteStoresPrefix | modules/core/src/vp/vp.cpp:445-488 | a write disjoint from the entries it walks stores the matching prefix of the value in exactly the bytes reached: all of it on success, the chunks before the failing one otherwise |
| LinearMemory.WriteThenRead | modules/core/src/vp/vp.cpp:400-488 | after a successful write to distinct bytes disjoint from the tables, a read of the range succeeds and returns the value, for any length and in every mode |
| VirtualProcessors.VirtualProcessor.WriteAndReadBack | modules/core/src/vp/vp.cpp:400-488 | the two methods in sequence: the write succeeds exactly when every byte can be reached, the read then succeeds, its buffer holds the value, and the value is untouched |
| LinearMemory.WriteLeavesOthers | modules/core/src/vp/vp.cpp:445-488 | a byte the write does not reach keeps its contents, on success and on failure |
| LinearMemory.TargetsFrame | modules/core/src/vp/vp.cpp:400-488 | memory that agrees on the walked entries sends an access to the same bytes |
| VirtualProcessors.VirtualProcessor.LMemRead | modules/core/src/vp/vp.cpp:400-443 | the loop succeeds exactly when every chunk can be reached, fills the buffer with the bytes up to the failing chunk and nothing else, reports the count only on success, and ends |
| VirtualProcessors.VirtualProcessor.LMemWrite | modules/core/src/vp/vp.cpp:445-488 | the loop is the chunked write, each chunk translated in the memory the earlier ones left |
| VirtualProcessors.ReadIsPerByte | modules/core/src/vp/vp.cpp:400-443 | what LMemRead promises is, outside PAE mode, that it succeeds exactly when each byte of the range is mapped, that value[i] then is the byte behind address i, and that the buffer beyond the range is untouched |
| VirtualProcessors.CursorStep | modules/core/src/vp/vp.cpp:406-436 | a chunk is not empty, stays in one page, and the next one starts where it ends, also across 2^64 |
| VirtualProcessors.PageEnd | modules/core/src/vp/vp.cpp:406-416 | the mask arithmetic gives the page's last address, also on the last page |
| VirtualProcessors.ReadStep | modules/core/src/vp/vp.cpp:419-440 | a round of the reading loop ends the access as specified or moves the cursor and keeps what remains of it |
| VirtualProcessors.WrittenStep | modules/core/src/vp/vp.cpp:464-485 | a round of the writing loop keeps what remains of the write |
| Gdt.DescriptorRoundTrip | modules/core/src/vp/gdt.cpp:32-61 | the getters return the base, scaled limit and attributes that Set packed |
| Gdt.DescriptorLayout | modules/core/src/vp/gdt.cpp:32-44 | the packed descriptor is the number section 3.4.5 of the SDM lays out |
| Gdt.SystemDescriptorLayout | modules/core/src/vp/gdt.cpp:65-80 | the second half of an LDT or TSS descriptor holds the base's upper half and zeros, the first half is a descriptor of the lower half |
| Gdt.GateLayout | modules/core/src/vp/gdt.cpp:99-103 | the three parts of a gate offset lie where section 6.14.1 of the SDM puts them, and the other bytes stay |
| Gdt.SystemBaseRoundTripIff | modules/core/src/vp/gdt.cpp:65-82 | an LDT or TSS base survives if and only if bit 31 is clear or the upper half is all ones |
| Gdt.HighBaseIsExtended | modules/core/src/vp/gdt.cpp:81 | departure: base 0x80000000 reads back as 0xFFFFFFFF80000000 |
| Gdt.OffsetRoundTripIff | modules/core/src/vp/gdt.cpp:99-107 | the same for gate offsets |
| Gdt.SetThenGet | modules/core/src/vp/vp.cpp:607-689 | after SetGDTEntry returns OK, GetGDTEntry on that selector returns OK and the same 8 or 16 bytes, also when the entry crosses into another region |
| Gdt.GetOkIff | modules/core/src/vp/vp.cpp:607-648 | GetGDTEntry returns OK if and only if GDTR can be read, the first eight bytes end within the limit and are mapped, and the descriptor is code or data or has one of the types taken in the mode, with sixteen bytes within the limit and mapped in IA-32e mode; the entry then is the bytes at base plus selector; and exactly when it returns Failed |
| Gdt.SetOkIff | modules/core/src/vp/vp.cpp:650-689 | the same for SetGDTEntry on the entry it is given, with the memory it leaves in every case |
| Gdt.EntryIsPerByte | modules/core/src/vp/vp.cpp:607-648 | each byte returned is the one the newest-wins map has at base plus selector plus its index, wherever the access agrees with that map |
| Gdt.RefusalWritesIff | modules/core/src/vp/vp.cpp:657 | departure: a refused entry leaves memory as it was if and only if it is refused before the first write or its first eight bytes were there already |
| Gdt.RefusedEntryIsWritten | modules/core/src/vp/vp.cpp:657 | departure: an entry of type 0 that is refused and written |
| Gdt.LastEntryIsRefusedIff | modules/core/src/vp/vp.cpp:610 | departure: an entry within the table's limit is refused if and only if it is the one that ends at the limit |
| Gdt.LastEntryIsRefused | modules/core/src/vp/vp.cpp:610 | departure: a table whose last entry is refused |
| Gdt.ReadSegmentIff | modules/core/src/vp/vp.cpp:715-770 | ReadSegment succeeds if and only if the entry is read and is code, data, an LDT or a TSS of a type its mode allows |
| Gdt.StoredDescriptorReadsBack | modules/core/src/vp/vp.cpp:715-770 | ReadSegment then yields the base, scaled limit and attributes given to Set |
| Gdt.LegacySystemBaseIff | modules/core/src/vp/vp.cpp:715-770 | departure: outside IA-32e mode a segment read back from a stored LDT or TSS descriptor has the descriptor's 32-bit base if and only if bit 31 is clear and the bytes that were not read are zero |
| Gdt.LegacyBaseTakesScratch | modules/core/src/vp/vp.cpp:731 | departure: a descriptor with base zero that reads as base 2^32 |
| Gdt.StoredSystemDescriptorIff | modules/core/src/vp/vp.cpp:715-770 | in IA-32e mode a packed and stored LDT or TSS descriptor reads back its limit and attributes, and its base if and only if bit 31 is clear or the upper half is all ones |
| Gdt.StoredSystemSegment | modules/core/src/vp/vp.cpp:715-770 | what ReadSegment makes of a stored LDT or TSS descriptor in either mode |
| Gdt.KvmSegmentRoundTripIff | modules/kvm/src/kvm_helpers.cpp:34-61 | a segment survives a KVM register write and read if and only if its attribute bits 11:8 are clear |
| Gdt.KvmFieldsOfDescriptor | modules/kvm/src/kvm_helpers.cpp:49-61 | each field KVM gets for a descriptor's segment, in terms of the access byte and the flags |
| Gdt.StoredDescriptorSurvivesKvm | modules/kvm/src/kvm_helpers.cpp:34-61 | a segment read from a packed code or data descriptor does |
| Interrupts.EveryRunKeeps | modules/core/src/vp/vp.cpp:43-61 | under every interleaving of any number of threads: mutual exclusion, first in first out, at most one injection attempt in each run, and none in a run in which CanInjectInterrupt did not say yes |
| Interrupts.ReachableStates | modules/core/src/vp/vp.cpp:805-835 | from the start, attempts followed by the queue are the vectors in enqueue order, no runner has made more than one attempt since its run began, and one only if CanInjectInterrupt said yes in it |
| Interrupts.RefusalHolds | modules/core/src/vp/vp.cpp:808-815 | after CanInjectInterrupt says no a runner makes no attempt, whatever every thread does, until it begins its next run |
| Interrupts.AttemptNeedsYes | modules/core/src/vp/vp.cpp:808-815 | over any interleaving in which CanInjectInterrupt never says yes to a runner, that runner makes no attempt |
| Interrupts.RunInjectsFront | modules/core/src/vp/vp.cpp:805-835 | when it says yes and nothing comes between, the run takes exactly the front of the queue and releases the mutex |
| Interrupts.EnqueueAppends | modules/core/src/vp/vp.cpp:57-61 | an enqueue appends its vector and releases the mutex |
| Interrupts.OneRunnerIsSafe | modules/core/src/vp/vp.cpp:805-835 | with one runner the unlocked size checks still hold when front is taken |
| Interrupts.TwoRunnersFault | modules/core/src/vp/vp.cpp:818-835 | departure: an interleaving of two runners in which front is taken on an empty queue |
| Interrupts.SafeIffOneRunner | modules/core/src/vp/vp.cpp:805-835 | front is never taken on an empty queue, under every interleaving, if and only if there is at most one runner |
| SubRegisters.LastWriteIsRead | modules/kvm/src/kvm_vp.cpp:418-671 | over any sequence of writes an alias reads as the last value written through it if no overlapping alias was written since |
| SubRegisters.WritesStayInReach | modules/core/include/virt86/util/bytemanip.hpp:32-42 | 8 and 16-bit writes preserve the other bits, 32-bit writes zero-extend |
| SubRegisters.WrittenIsRead | modules/core/include/virt86/util/bytemanip.hpp:32-42 | a write through a part is read back, truncated to it |
| SubRegisters.OtherAliasKept | modules/kvm/src/kvm_vp.cpp:544-671 | a write through an alias that does not overlap leaves an alias alone |
| SubRegisters.OverlapIsVisible | modules/kvm/src/kvm_vp.cpp:544-671 | two aliases overlap if and only if a write through one can be seen through the other |
| SubRegisters.CellReadsAgree | modules/haxm/src/common/haxm_vp.cpp:323-455 | HAXM reads of the overlaid fields are the KVM reads of the word they make up |
| SubRegisters.CellWritesAgreeIff | modules/haxm/src/common/haxm_vp.cpp:457-592 | a HAXM write does what the KVM write does, except exactly for SPL, BPL, SIL and DIL over a register whose bits 15:8 are not clear |
| SubRegisters.SplClearsSecondByte | modules/haxm/src/common/haxm_vp.cpp:479-482 | departure: a write to SPL that clears bits 15:8 |
| SubRegisters.BackendsAgree | modules/haxm/src/common/haxm_vp.cpp:323-592 | after any writes that avoid SPL, BPL, SIL and DIL both backends read every alias alike |
| FpuRegisters.StoredST | modules/kvm/src/kvm_helpers.cpp:73-81 | the ten bytes stored for an ST register in its sixteen-byte buffer are read back, and the first eight are the MM register |
| FpuRegisters.StoredMM | modules/kvm/src/kvm_helpers.cpp:83-89 | the eight bytes stored for an MM register are read back and are the significand of the ST register, whose sign and exponent stay |
| FpuRegisters.StoredXMM | modules/kvm/src/kvm_helpers.cpp:91-107 | both halves of an XMM register are read back |
| FpuRegisters.StoredBytes | modules/kvm/src/kvm_helpers.cpp:78-107 | which bytes of the buffer each store changes, and to what |
| FpuRegisters.KvmFpuReadBack | modules/kvm/src/kvm_vp.cpp:518-540 | every x87, MMX and SSE register reads back the member it was written with |
| FpuRegisters.KvmFpuOtherKept | modules/kvm/src/kvm_vp.cpp:645-668 | and leaves every register that shares no bytes with it |
| FpuRegisters.KvmOverlay | modules/kvm/src/kvm_helpers.cpp:73-89 | an MM write shows in the ST register under it and an ST write in the MM register |
| FpuRegisters.FpuReadsAgree | modules/haxm/src/common/haxm_helpers.cpp:55-85 | the HAXM area, with two arrays of XMM registers, reads every register as the KVM area does |
| FpuRegisters.FpuWritesAgree | modules/haxm/src/common/haxm_helpers.cpp:60-99 | and writes every register as the KVM area does |
| FpuRegisters.KvmFpuControlReadBackIff | modules/kvm/src/kvm_vp.cpp:675-701 | FPU control values read back if and only if the tag word fits eight bits and both segments are zero |
| FpuRegisters.HaxmFpuControlReadBackIff | modules/haxm/src/common/haxm_vp.cpp:596-626 | FPU control values read back if and only if the tag word fits eight bits and both pointers fit 32 |
| FpuRegisters.KvmFpuFrames | modules/kvm/src/kvm_vp.cpp:690-701 | setting the control values leaves MXCSR and every x87, MMX and SSE register, and writing a register leaves control values and MXCSR |
| FpuRegisters.HaxmFpuFrames | modules/haxm/src/common/haxm_vp.cpp:611-626 | the same for HAXM, with the MXCSR mask |
| FpuRegisters.FpuControlsAgreeIff | modules/haxm/src/common/haxm_vp.cpp:611-626 | setting the control values does the same in both layouts if and only if the pointers fit 32 bits |
| Registers.MembersLie | modules/core/include/virt86/vp/regs.hpp:183-221 | where the members of the value union lie in its bytes |
| Registers.SupportedAre121 | modules/kvm/src/kvm_vp.cpp:418-671 | the supported registers, listed: 121, each once |
| KvmRegisters.ReadBackIff | modules/kvm/src/kvm_vp.cpp:418-671 | every supported register reads back the member it was written with, except exactly a segment with attribute bits 11:8 set and an EFER value above 32 bits |
| KvmRegisters.OtherKept | modules/kvm/src/kvm_vp.cpp:418-671 | a write leaves every register that shares no bits with the one written |
| KvmRegisters.LastValueIsRead | modules/kvm/src/kvm_vp.cpp:405-671 | over any sequence of writes the last value written is read as long as no register that shares bits was written since |
| KvmRegisters.ReadAll | modules/kvm/src/kvm_vp.cpp:392-403 | an array read returns the register's own value at each index, for the registers before the first unsupported one |
| KvmRegisters.WriteAllPrefix | modules/kvm/src/kvm_vp.cpp:405-416 | an array write is a write of the registers before the first unsupported one, and succeeds exactly when there is none |
| KvmRegisters.ArrayWriteIsRead | modules/kvm/src/kvm_vp.cpp:405-416 | each register written by an array reads back its own value unless a later one shares bits |
| KvmRegisters.ArrayWriteLeaves | modules/kvm/src/kvm_vp.cpp:405-416 | an array write leaves every register that shares bits with none it writes |
| KvmRegisters.AttributesAreCut | modules/kvm/src/kvm_vp.cpp:616 | departure: a segment and an EFER value that do not read back |
| HaxmRegisters.ReadBackIff | modules/haxm/src/common/haxm_vp.cpp:323-592 | every supported register reads back the member it was written with, SPL and its like included, except exactly an EFER value above 32 bits |
| HaxmRegisters.OtherKept | modules/haxm/src/common/haxm_vp.cpp:457-592 | a write leaves every register that shares no bits with the one written, SPL and its like included |
| HaxmRegisters.ReadAll | modules/haxm/src/common/haxm_vp.cpp:289-304 | an array read returns the register's own value at each index, for the registers before the first unsupported one |
| HaxmRegisters.ArrayWriteIsRead | modules/haxm/src/common/haxm_vp.cpp:306-321 | each register written by an array reads back its own value unless a later one shares bits |
| HaxmRegisters.ArrayWriteLeaves | modules/haxm/src/common/haxm_vp.cpp:306-321 | an array write leaves every register that shares bits with none it writes |
| HaxmRegisters.RegisterFilesAgree | modules/haxm/src/common/haxm_vp.cpp:323-592 | after any sequence of register writes that avoids SPL, BPL, SIL and DIL both backends hold the same registers and read each alike, except exactly a segment whose attribute bits 11:8 are set |
| HaxmRegisters.WriteAgrees | modules/haxm/src/common/haxm_vp.cpp:457-592 | one register write does the same in both backends' structures |
| HaxmRegisters.ReadAgreesIff | modules/haxm/src/common/haxm_vp.cpp:323-455 | the exact case in which the backends read a register differently |
| Registers.LegalWithoutFailure | modules/haxm/src/common/haxm_vp.cpp:79-87 | a sequence of legal calls without failures has the outcomes and the final machine of the uncached one |
| HaxmCache.HaxmVirtualProcessor.Execute | modules/haxm/src/common/haxm_vp.cpp:279-321 | every sequence of single and array reads and writes, FPU and MXCSR operations and runs: each call fails and changes nothing a caller sees, or does what the uncached machine does |
| HaxmCache.HaxmVirtualProcessor.Perform | modules/haxm/src/common/haxm_vp.cpp:596-652 | the same for one call |
| HaxmCache.HaxmVirtualProcessor.UpdateRegisters | modules/haxm/src/common/haxm_vp.cpp:125-135 | pushes clear the flags whether they succeed or not; nothing is lost if and only if each pending group was pushed or equal anyway |
| HaxmCache.HaxmVirtualProcessor.RefreshRegisters | modules/haxm/src/common/haxm_vp.cpp:137-149 | a fetch changes nothing a caller sees, and a failing one leaves the cache dirty |
| HaxmCache.HaxmVirtualProcessor.HaxmRegWrite | modules/haxm/src/common/haxm_vp.cpp:457-592 | the new cached machine, and which flag is set |
| HaxmCache.HaxmVirtualProcessor.HaxmRegWrites | modules/haxm/src/common/haxm_vp.cpp:306-321 | the array write stops at the first register that is not supported and keeps what it wrote before |
| HaxmCache.HaxmVirtualProcessor.HaxmRegReads | modules/haxm/src/common/haxm_vp.cpp:289-304 | values[i] is the value of regs[i], up to the first register that is not supported; all are there exactly when every one is supported |
| HaxmCache.SetIsGot | modules/haxm/src/common/haxm_vp.cpp:596-652 | MXCSR and its mask are got as set, FPU control values and registers exactly under the conditions above |
| HaxmCache.OthersGetAlike | modules/haxm/src/common/haxm_vp.cpp:279-652 | a call that sets something leaves what every other call gets |
| HaxmCache.GetsChangeNothing | modules/haxm/src/common/haxm_vp.cpp:279-652 | a call that gets something changes nothing |
| HaxmCache.FpuPointerIsCut | modules/haxm/src/common/haxm_vp.cpp:618 | departure: an FPU instruction pointer of 2^32 reads back as zero |
| HaxmCache.HaxmVirtualProcessor.RunImpl | modules/haxm/src/common/haxm_vp.cpp:79-87 | which machine the guest runs on, failed pushes included |
| HaxmCache.HaxmVirtualProcessor.constructor | modules/haxm/src/common/haxm_vp.cpp:36-49 | the cache starts out dirty, so a caller sees the hypervisor's state |
| KvmCache.KvmVirtualProcessor.Execute | modules/kvm/src/kvm_vp.cpp:171-270 | every sequence of calls, SetFPUControl and arrays included, from any state and with fetches, pushes and runs failing anywhere, is legal for the cached machine: what a caller sees, the hypervisor's copy and the flagged groups |
| KvmCache.KvmVirtualProcessor.Perform | modules/kvm/src/kvm_vp.cpp:382-416 | the same for one call |
| KvmCache.KvmVirtualProcessor.UpdateRegisters | modules/kvm/src/kvm_vp.cpp:219-246 | from any state and with pushes failing at any point, a group reaches the hypervisor, and its flag is cleared, exactly when it is flagged and no push up to it fails; what a caller sees and what the next run starts from stay the same |
| KvmCache.KvmVirtualProcessor.RefreshRegisters | modules/kvm/src/kvm_vp.cpp:248-266 | a fetch that fails at any point changes nothing a caller sees and leaves the cache dirty |
| KvmCache.KvmVirtualProcessor.KvmRegWrite | modules/kvm/src/kvm_vp.cpp:544-671 | the new cached machine, and which group is flagged |
| KvmCache.KvmVirtualProcessor.KvmRegReads | modules/kvm/src/kvm_vp.cpp:392-403 | values[i] is the value of regs[i], up to the first register that is not supported; all are there exactly when every one is supported |
| KvmCache.KvmVirtualProcessor.KvmRegWrites | modules/kvm/src/kvm_vp.cpp:405-416 | the array write stops at the first register that is not supported, keeps what it wrote before and flags those groups |
| KvmCache.SetIsGot | modules/kvm/src/kvm_vp.cpp:675-714 | MXCSR is got as set, FPU control values and registers exactly under the conditions above |
| KvmCache.OthersGetAlike | modules/kvm/src/kvm_vp.cpp:382-722 | a call that sets something leaves what every other call gets |
| KvmCache.GetsChangeNothing | modules/kvm/src/kvm_vp.cpp:382-722 | a call that gets something changes nothing |
| KvmCache.FlagsIff | modules/kvm/src/kvm_vp.cpp:544-714 | a call flags a group exactly when it writes a register of it that it gets to, or MXCSR |
| KvmCache.PushedBeforeIff | modules/kvm/src/kvm_vp.cpp:219-246 | a group is pushed exactly when it is flagged and the pushes of it and of every flagged group before it succeed |
| KvmCache.ZeroCacheReadsZero | modules/kvm/src/kvm_vp.cpp:47-64 | every register of the constructor's cache but the debug registers reads zero |
| KvmCache.KvmVirtualProcessor.RunImpl | modules/kvm/src/kvm_vp.cpp:171-181 | the guest starts from the machine of the pushed groups, or the call fails and changes neither what a caller sees nor what the next run starts from |
| KvmCache.KvmVirtualProcessor.SetFPUControl | modules/kvm/src/kvm_vp.cpp:690-701 | the new state: the control registers a caller sees change, the flags do not |
| KvmCache.KvmVirtualProcessor.constructor | modules/kvm/src/kvm_vp.cpp:47-64 | departure: a caller sees a cache of zeros and an unset debug group while a run starts from the hypervisor's state; the two agree if and only if they are equal |
| KvmCache.RunIsUncached | modules/kvm/src/kvm_vp.cpp:171-270 | over any sequence of calls without SetFPUControl from a coherent state, with failures anywhere, each call fails and changes nothing or does what the uncached machine does: no pending write is lost |
| KvmCache.StepIsUncached | modules/kvm/src/kvm_vp.cpp:171-270 | one call keeps the state coherent except exactly when SetFPUControl changes the control registers while the FPU group is not flagged |
| KvmCache.ControlKeptIff | modules/kvm/src/kvm_vp.cpp:690-701 | whatever calls and failures lie between, a control write is kept by the next successful run if and only if the FPU group is flagged when that run starts or the hypervisor holds the same control registers |
| KvmCache.FlaggedIff | modules/kvm/src/kvm_vp.cpp:544-714 | between runs the FPU group is flagged exactly when it was before or some call that went through writes an FPU register or MXCSR |
| KvmCache.ControlIsSeen | modules/kvm/src/kvm_vp.cpp:675-701 | until the next successful run a caller reads the control registers written last |
| KvmCache.ControlIsForgotten | modules/kvm/src/kvm_vp.cpp:690-701 | departure: a control write alone is gone after the next run, one followed by an MXCSR write is kept |
| KvmCache.FirstRunForgets | modules/kvm/src/kvm_vp.cpp:52 | departure: before the first run RAX reads as zero, and a write to RBX makes that run start with RAX zero |
| HaxmMsrs.BulkIsEachIff | modules/haxm/src/common/haxm_vp.cpp:681-736 | with successful calls a bulk access goes through every entry once exactly when the count is at most 32 or a multiple of 32, and overruns the arrays otherwise |
| HaxmMsrs.BulkStatusIs | modules/haxm/src/common/haxm_vp.cpp:681-736 | the status and the entries gone through for every count and every answer of the hypervisor: Failed exactly when a batch that fits fails |
| HaxmMsrs.ThirtyThreeOverrun | modules/haxm/src/common/haxm_vp.cpp:691 | departure: 33 registers overrun the arrays after the first batch |
| HaxmMsrs.FitsIff | modules/haxm/src/common/haxm_vp.cpp:691 | batches of the size the loops use leave nothing over under exactly that condition |
| HaxmMsrs.SetEachAppend | modules/haxm/src/common/haxm_vp.cpp:713-736 | setting two batches one after the other is setting their entries from left to right |
| HaxmMsrs.SetEachLookup | modules/haxm/src/common/haxm_vp.cpp:713-736 | after a loop of single writes each register holds the value written to it last and the others are as before |
| HaxmMsrs.BatchStored | modules/haxm/src/common/haxm_vp.cpp:718-732 | a batch extends the prefix of registers set so far |
| HaxmMsrs.MsrAccess.GetMSRs | modules/haxm/src/common/haxm_vp.cpp:681-711 | the status, which entries hold their register's value, and that the others are unchanged, for every count and every failing call |
| HaxmMsrs.MsrAccess.SetMSRs | modules/haxm/src/common/haxm_vp.cpp:713-736 | the registers afterwards are those a left-to-right loop over the entries that went through sets |
| CpuidMerge.Merge | modules/kvm/src/kvm_vp.cpp:104-154 | one entry per default, in order; its flag is set exactly for functions 4, 7, 0xB and 0xD; and for every function but 0xFFFFFFFF it has its position within its run as index and the registers of the last custom result with that function and position, or else the default's |
| CpuidMerge.PicksByPositionIff | modules/kvm/src/kvm_vp.cpp:104-154 | an entry gets its position as index and the last custom result in its place if and only if it is not in a first run of the sentinel and, where its function is the sentinel, a plain custom result is in its place or the first sentinel run among the custom results reaches neither its position nor the one before |
| CpuidMerge.OrdinaryByPosition | modules/kvm/src/kvm_vp.cpp:104-154 | every entry whose function is not 0xFFFFFFFF is by position, whatever the custom results are |
| CpuidMerge.PickedEntry | modules/kvm/src/kvm_vp.cpp:133-151 | such an entry is the one by position |
| CpuidMerge.LeafIsPositionIff | modules/kvm/src/kvm_vp.cpp:107-131 | the counter both loops keep is the position within the run, plus one exactly in a first run of the sentinel function |
| CpuidMerge.SentinelGetsLeafOne | modules/kvm/src/kvm_vp.cpp:107-116 | departure: the first of two entries with function 0xFFFFFFFF gets leaf index 1 |
| CpuidMerge.KeyInjective | modules/kvm/src/kvm_vp.cpp:117 | map keys of different functions or leaf indices differ |
| CpuidMerge.TableFindsLastMatch | modules/kvm/src/kvm_vp.cpp:107-140 | a look-up in the map finds the last match |

## Left out

- VirtualMachines.VirtualMachine.UnmapGuestMemory: requires that the hypervisor does not accept a request on which the loop never ends; `VirtualMachines.PassEndsIff` says which those are. What a range that wraps around and does end leaves mapped is stated as the subtracted list only.
- VirtualMachines.VirtualMachine.SubtractMemoryRange: requires that the loop ends, for the same reason.
- PhysicalMemory.AccessAgreesIff: not for accesses whose last address wraps around 2^64; the search itself is modelled for them, too.
- LinearMemory.AccessIsPerByte: not for PAE mode, where the code is not per-byte; `LinearMemory.ChunkedIsPerByteIff` has the exact condition for every mode.
- HaxmCache.HaxmVirtualProcessor.Execute: takes pushes to succeed, because HAXM ignores their failures; the contracts of UpdateRegisters and RunImpl say exactly what a failing one loses.
- KvmCache.RunIsUncached: not with SetFPUControl, after which a run may start from other control registers; `KvmCache.StepIsUncached` and `KvmCache.ControlKeptIff` have the exact conditions.
- CpuidMerge.Merge: takes both lists to be shorter than 2^32 - 1 entries, so that leaf counts fit the upper half of a key.
- Gdt.SetThenGet: the table accessors and page walks are on values, with results in place of out-parameters; the caller's entry, which a short read leaves partly as it was, is a parameter.
- Hypervisor calls, `mmap`, handles, files and platform constructors: their answers are parameters of the methods.
- The WHPX and HvF backends.
- Caller buffers that overlap guest memory: buffers are arrays apart from host memory.
- Bytes of a value union beyond the member a register reads: they are zero in the model and stay as they were in the source.
- `MapGuestMemoryImpl`, memory flags, dirty page queries and `GetMemoryRegion`, which has no caller here.
- Permission, reserved-bit and canonical-address checks of paging, and accessed and dirty bits: the code makes none.
- The data race of reading a queue's size without its mutex: the read is one atomic action.
- `Step` beyond the queue, exit handlers and I/O callbacks, interrupt windows, and the hypervisor's answer to a prepared interrupt.
- RIP and FLAGS with `fixupFlags`, HAXM's access to EFER through a model specific register, and the TSC offset.
- MXCSR masks on KVM, which does not support them, beyond that answer.
- IDT entries, breakpoints, the host's CPUID, ELF parsing and version detection.

# VWFL boot model

VWFL boots a Windows kernel under KVM: it loads PE images into a flat guest-memory array, relocates and
links them, builds x86-64 page tables, threads linked lists of guest virtual addresses through that
memory, and serves a debugger that translates those addresses back. This project models that computation
in Dafny and proves what it promises.

Guest memory is a class with one byte array behind `write_memory` and `read_memory` (`GuestMemory.Vm`).
Every loop of the program that writes memory is a method with its loop invariants, proved equal to a
function of the old contents; the theorems are about those functions. Words are bounded integers, bit
operations are modelled bit by bit (`Bits`) and proved to be the arithmetic they are used for. A Rust call
ends in a value, an `Err` or a panic (`Words.Outcome`): slices out of range and overflowing additions
panic, as in a build with overflow checks.

| modules | part of the program |
|---|---|
| `Words`, `Bits`, `Text` | machine words, little-endian bytes, bit operations, file stems and ordinals |
| `GuestMemory` | guest physical memory |
| `PageWalk`, `SelfMap` | the four-level walk, and the recursive slot 493 |
| `PageTables`, `PagingSetup`, `Windows`, `Rights` | the tables `setup_kernel_paging` builds, their denotation, what it means per window, and who may do what there |
| `RangeTable`, `Debugger` | the hand-written range table and breakpoint skipping; bulk reads and writes by virtual address |
| `PeFile`, `RvaMap`, `Relocation`, `Overlap`, `Exports`, `SharedSlot`, `Imports` | the PE parser, in-place relocation and when it can be undone |
| `PeLayout`, `Placement`, `ExportPrinter`, `ImportPrinter` | the PE format byte by byte: headers, section table, and printed directories the parser inverts |
| `Forwarder`, `Binding`, `GuestBinding` | symbol resolution through forwarders, and import binding, in memory and seen by the guest |
| `Loader`, `LoaderRun`, `FileView`, `GuestView`, `Boot` | loading one image, loading runs, and the file seen from memory and from the guest |
| `BootLists`, `BootTraversal`, `BootLayout` | the linked lists of the loader block, as written, as the guest follows them, and all together |
| `Acpi`, `AcpiTree`, `AcpiDevices` | the checksummed tables, the tree they form, and the devices they advertise |

## What the code turns out to do

- PD[503] holds an unaligned table address, which the walk masks down to the IOAPIC's table. So
  K_VIRT+0xFEE00000 reaches the IOAPIC page, the local APIC page sits at K_VIRT+0xFF000000, and the HPET
  page appears a second time at K_VIRT+0xFEF00000. IOAPIC and HPET are at their own addresses (`Windows.DeviceWindow`).
- The 32 HAL pages are all mapped if and only if the HAL's directory index is at most 480; above 481 the
  spilled entries become visible in the table of the shared-data slot (`Windows.HalWindowFits`,
  `Windows.OnlySharedPageMapped`).
- Every mapped address is writable, and the shared-data page is the one page user mode may access, so it may
  write it. Outside the self map only stack window and device pages are barred from execution (`Rights.EverythingIsWritable`,
  `Rights.OnlySharedPageIsUser`, `Rights.OnlyStackAndDevicesMayNotRun`).
- In the I/O APIC structure of the MADT the address field, bytes 4 to 7, is 0; 0xFEC00000 stands in the field
  behind it, the first interrupt number (`AcpiDevices.InterruptRecords`; section 5.2.12.3 of the ACPI
  specification). The comment in `acpi.rs` gives 0xFEC00000 as the address.
- The debugger's range table agrees with the page walk on every address it knows except exactly
  0x1C0000000 to 0x1C1FFFFFF and the shared-data offsets 0x1000 to 0x1FFFFF
  (`RangeTable.RangeTableRefinesWalk`).
- In `handle_guest_debug` the branch that forces rip one byte on when translation fails cannot be
  reached; the read behind it fails only for the last byte of memory (`RangeTable.ForcedSkips`).
- The kernel and the HAL are disjoint if and only if the kernel's aligned size is at most 0x1E00000
  (`LoaderRun.KernelMustFitBelowHal`). The loader does not check it: a larger kernel loads, and the HAL over
  its end (`LoaderRun.OversizedKernelOverlaps`).
- The loader block is written at 0x4000000 after loading. The images behind the kernel stay below it if and
  only if their extents come to at most 0x2000000, which no more than sixteen images of any size do
  (`LoaderRun.ImagesMustFitBelowLoaderBlock`).
- Relocating an image away and home restores every memory if and only if no two target words overlap in
  part, for the increasing targets a relocation table lists (`Overlap.ComesHomeExactlyWhenClean`); the loops
  do not check it. Undone from the last target to the first, any relocation restores memory
  (`Overlap.UndoneBackwards`).
- Bounded resolution is exact for a chain if and only if the chain has at most ten hops
  (`Forwarder.BoundBites`); longer ones exist at every length (`Forwarder.LongChainIsLost`).
- Finding every used export by its name is equivalent to names and indices in use determining each other:
  of two names for one slot the parser keeps the later, and of two slots for one name the search returns
  the first (`Exports.DirectExactlyWhenNamesMatch`). `SharedSlot.EarlierNameIsLost` is a file where a name is lost.

## Model

| member | source | states |
|---|---|---|
| GuestMemory.Vm.constructor | vwfl/src/vm.rs:30-33 | guest memory starts as zeros over the whole range |
| GuestMemory.Vm.WriteMemory | vwfl/src/vm.rs:123-127 | fails exactly when the range leaves memory, else replaces exactly those bytes |
| GuestMemory.Vm.ReadMemory | vwfl/src/vm.rs:129-133 | fails exactly when the range leaves memory and then leaves the buffer alone |
| PageWalk.VirtToPhys | vwfl/src/gdb.rs:22-62 | the shift-and-mask walk computes the arithmetic page walk, and the address itself when unmapped |
| PageWalk.WalkWithinLeaf | vwfl/src/gdb.rs:22-62 | inside one 4 KB, 2 MB or 1 GB page translation is a shift |
| PageWalk.LeafUnchanged | vwfl/src/gdb.rs:22-62 | a write that misses the entries a walk meets does not change where it leads |
| SelfMap.PatchedPteBase | vwfl/src/main.rs:79-84 | the value patched into MmPteBase is the base of slot 493 |
| SelfMap.SelfMapReachesPte | vwfl/src/main.rs:79-84 | in any self-mapped memory, walking PteBase + 8 * v[47:12] reaches the entry that maps v, for every v with a 4 KB leaf |
| SelfMap.SelfMapClimbs | vwfl/src/main.rs:310 | applied two, three and four times the map reaches the PDE, the PDPTE and the PML4E of v |
| SelfMap.SelfMapReachesPde | vwfl/src/main.rs:310 | for a 2 MB leaf, two applications reach the entry whose frame maps v |
| PagingSetup.SetupKernelPaging | vwfl/src/main.rs:284-357 | after all writes every word of the region is the table word of its slot, and nothing else changed; WalkIsDenotation and Rights say what these words do |
| PageTables.WalkIsDenotation | vwfl/src/main.rs:284-357 | full denotation: the walk of every address, the self-map slot included, is one piecewise function |
| PageTables.TablesStayBuilt | vwfl/src/main.rs:284-357 | writes outside the region keep the tables |
| Windows.KernelWindow | vwfl/src/main.rs:304-319 | slots 496 and 511 map their first gigabyte to physical memory itself |
| Windows.StackWindow | vwfl/src/main.rs:342-346 | slot 509 maps STACK_PBASE plus the low 30 bits |
| Windows.HalWindow | vwfl/src/main.rs:321-326 | each HAL page that fits the directory maps HAL_PBASE and its offset |
| Windows.HalAtItsBase | vwfl/src/main.rs:321-326 | at its own base, on a 2 MB boundary in the second gigabyte of the window, the guest finds the HAL's 64 MB, as far as they stay in it |
| Windows.HalWindowFits | vwfl/src/main.rs:321-326 | all 32 pages are mapped if and only if the index is at most 480 |
| Windows.UserWindow | vwfl/src/main.rs:348-354 | the shared-data table: one page, and exactly the spilled HAL entries |
| Windows.OnlySharedPageMapped | vwfl/src/main.rs:348-354 | only the shared page is mapped there if and only if the HAL index is at most 481 |
| Windows.DeviceWindow | vwfl/src/main.rs:328-339 | where the five device mappings lead, the masked PD[503] included |
| Windows.KernelSlotIdentity | vwfl/src/main.rs:304-339 | the kernel's slot is the identity exactly on its first gigabyte and on the IOAPIC's and HPET's own pages |
| Windows.BuiltTablesAreSelfMapped | vwfl/src/main.rs:310 | the built tables are an instance of the self-map theorems |
| Windows.GuestSeesItsTables | vwfl/src/main.rs:79-84 | the guest finds, through the patched base, the entry that maps any mapped address |
| Windows.BridgeCode | vwfl/src/main.rs:301 | VMCALL stands at SYSTEM_BASE + 0x150000 |
| Rights.EverythingIsWritable | vwfl/src/main.rs:303-354 | every entry on the walk of any mapped address grants writing |
| Rights.OnlySharedPageIsUser | vwfl/src/main.rs:348-354 | every entry on the walk grants user access if and only if the address is on the shared-data page; spilled HAL pages stay closed |
| Rights.OnlyStackAndDevicesMayNotRun | vwfl/src/main.rs:328-346 | outside the self map, some entry forbids execution if and only if the address is in the stack's slot or leads to a device page; the last one asks for uncached access if and only if it leads to a device page |
| Rights.SelfMapForbidsNothing | vwfl/src/main.rs:310 | in the self map execution is forbidden if and only if an entry behind the self-map entry forbids it |
| RangeTable.RangesOnTables | vwfl/src/debug.rs:200-235 | what the page tables make of each address the range table knows |
| RangeTable.RangeCoverage | vwfl/src/debug.rs:200-235 | the range table knows exactly four address ranges |
| RangeTable.RangeTableRefinesWalk | vwfl/src/debug.rs:200-235 | range table and debugger walk agree if and only if the address is outside the HAL alias and the shared-data tail; so does each overlapping range by itself, the HAL alias excepted |
| RangeTable.SkipPadding | vwfl/src/debug.rs:100-110 | the loop, the same in both handlers, ends at the one first address that is unmapped or not 0xCC; it terminates below the last range |
| RangeTable.SafeReadBytes | vwfl/src/debug.rs:245-253 | the bytes, or nothing when the range leaves memory |
| RangeTable.HandleGuestDebug | vwfl/src/debug.rs:51-118 | the new rip for INT 3 (CC), CD 03, INT 2D (CD 2D), other code, unreadable code and overflow |
| RangeTable.ForcedSkips | vwfl/src/debug.rs:56-80 | the read fails exactly at the last byte of memory |
| Debugger.ReadAddrs | vwfl/src/gdb.rs:137-143 | one translation, one copy; 0 bytes and an untouched buffer when it leaves memory |
| Debugger.WriteAddrs | vwfl/src/gdb.rs:145-149 | one translation, one splice, or no change |
| Debugger.ContiguousExactlyWhenSeamless | vwfl/src/gdb.rs:137-149 | translation is a shift over a range if and only if it is one at the 4 KB boundaries inside it |
| Debugger.BulkIsBytewise | vwfl/src/gdb.rs:137-143 | over a range seamless at its page boundaries the bulk read is the bytewise read, failure included |
| Debugger.OnePageIsContiguous | vwfl/src/gdb.rs:137-149 | every range inside one leaf page is contiguous |
| Debugger.WindowsAreContiguous | vwfl/src/gdb.rs:137-149 | so is every range inside the kernel or stack gigabyte on the built tables |
| Debugger.AcrossPagesMayDiffer | vwfl/src/gdb.rs:137-149 | an instance: the byte after the IOAPIC page's last is not the next physical one |
| Debugger.WriteReadsBack | vwfl/src/gdb.rs:145-149 | written data read back when the write misses the entries of its own walk |
| Debugger.WriteReadsBackOnTables | vwfl/src/gdb.rs:145-149 | on the built tables it is enough to miss the paging region, at any address |
| RvaMap.FindFileOffset | vwfl/src/pe.rs:298-327 | the section-table search: first claiming row, header fallback, panics |
| RvaMap.FindOffset | vwfl/src/pe.rs:284-296 | the parsed sections decide whether the table is consulted |
| RvaMap.ReadCString | vwfl/src/pe.rs:329-335 | text up to the first NUL or the end of the file |
| RvaMap.StoredString | vwfl/src/pe.rs:329-335 | a stored NUL-terminated string reads back whole |
| PeLayout.TableReads | vwfl/src/pe.rs:298-314 | headers and section table written at the offsets of the PE format read back as count and rows, each field its own |
| PeLayout.DirectoryReads | vwfl/src/pe.rs:266-282 | so does a data directory |
| PeLayout.OffsetByRows | vwfl/src/pe.rs:298-327 | over such a table an RVA goes where its first claiming row puts it, an RVA no row claims to itself below 4096, and nowhere above |
| Relocation.ApplyRelocation | vwfl/src/pe.rs:338-386 | the nested loops add delta at every target of the block data in order, with all exits and the size underflow |
| Relocation.AddAllIsRelocated | vwfl/src/pe.rs:354-384 | closed form: each target word grows by multiplicity * delta mod 2^64, every other byte stays |
| Relocation.RelocatedIsUnique | vwfl/src/pe.rs:354-384 | the closed form determines memory |
| Relocation.OrderIsIrrelevant | vwfl/src/pe.rs:354-384 | block and entry order do not matter |
| Relocation.RelocationsCompose | vwfl/src/pe.rs:369-379 | group action: d1 then d2 is d1 + d2 mod 2^64 |
| Relocation.ZeroDelta | vwfl/src/pe.rs:344-345 | the early exit agrees with running the loops |
| Relocation.ThereAndBack | vwfl/src/pe.rs:369-379 | delta and then its negation restores memory |
| Relocation.RebaseTwice | vwfl/src/pe.rs:338-386 | rebasing to v1 and then to v2 is rebasing to v2 |
| Relocation.RebaseHome | vwfl/src/pe.rs:338-386 | moving an image away and home restores it |
| Overlap.UndoneBackwards | vwfl/src/pe.rs:369-379 | undone in the opposite order any relocation restores memory, overlapping or not |
| Overlap.CarryThrough | vwfl/src/pe.rs:376-378 | adding one to a word byte by byte: how far the carry runs, and that it is lost at the end |
| Overlap.ComesBackExactlyWhenClean | vwfl/src/pe.rs:369-379 | for increasing targets in a memory of any size, there and back restores every memory for every delta if and only if no two targets overlap |
| Overlap.ComesHomeExactlyWhenClean | vwfl/src/pe.rs:338-386 | the same for images: moved anywhere and home, every memory is restored if and only if the targets do not overlap |
| Overlap.PrintedOverlap | vwfl/src/pe.rs:338-386 | a printed section with two entries four bytes apart does not come home, at any load address in memory |
| Relocation.ParsePrinted | vwfl/src/pe.rs:354-384 | the block parser inverts a printer of blocks |
| Relocation.PrintedRelocation | vwfl/src/pe.rs:338-386 | a printed section relocates to the closed form over the addresses its entries name |
| Relocation.PointersFollowTheImage | vwfl/src/pe.rs:338-386 | with the blocks printed in the first section named .reloc, relocation succeeds, a pointer to image base + x becomes a pointer to new base + x, and bytes no target covers stay |
| Relocation.NoRelocSection | vwfl/src/pe.rs:344-348 | with no section of that name relocation fails, except to the image's own base, and memory stays |
| Exports.ReadExports | vwfl/src/pe.rs:134-195 | the two passes of the export parser, with every error and panic |
| Exports.NameMapKeepsLast | vwfl/src/pe.rs:153-167 | of several names for one slot the last is kept |
| Exports.SearchFindsLeast | vwfl/src/forwarder.rs:40-48 | the search returns the entry of the least matching slot, or there is none |
| Exports.LookupByName | vwfl/src/forwarder.rs:46-48 | the entry found is that of the least slot the name stands for, with its RVA, forwarder and ordinal; none is found exactly when it stands for none |
| Exports.DirectExactlyWhenNamesMatch | vwfl/src/pe.rs:134-195 | every used row is found by its name, as name, ordinal and address table give it, if and only if names and indices in use determine each other |
| SharedSlot.EarlierNameIsLost | vwfl/src/pe.rs:154-166 | a parsable file with two names for one used slot, the earlier of which is not found |
| Exports.LookupByOrdinal | vwfl/src/forwarder.rs:40-45 | "#n" finds index n - base when ordinals do not wrap |
| ExportPrinter.ParsePrinted | vwfl/src/pe.rs:134-195 | the parser inverts a byte-level printer of export directories: one entry per used slot, in order, with its ordinal, the last name printed for its slot or else "#" and its ordinal, and its code RVA or its forwarder text, as printed |
| ExportPrinter.ParsePrintedSection | vwfl/src/pe.rs:134-195 | so does it for a directory printed anywhere into a section of a described image |
| Imports.ReadImports | vwfl/src/pe.rs:200-261 | both loops of the import parser, with every error and panic, and their termination |
| Imports.ThunksShape | vwfl/src/pe.rs:227-250 | the k-th function has slot first_thunk + 8k and the k-th thunk's name; a null thunk follows |
| Imports.ParseImports | vwfl/src/pe.rs:200-261 | from the data directory on, parsing inverts layout for any list of imports by name or ordinal |
| ImportPrinter.ParsePrinted | vwfl/src/pe.rs:200-261 | the parser inverts a byte-level printer of whole import directories, with and without lookup tables, wherever one stands in the file |
| ImportPrinter.ParsePrintedSection | vwfl/src/pe.rs:200-261 | so does it for a directory printed anywhere into a section of a described image |
| Text.ParseOfDecimal | vwfl/src/forwarder.rs:40-41 | a printed ordinal parses back |
| Text.DigitsOfDecimal | vwfl/src/forwarder.rs:40-41 | the printed digits are those of the number, without a leading zero |
| Text.StemDropsExtension | vwfl/src/forwarder.rs:30-35 | names are compared without their extension |
| Forwarder.LookSays | vwfl/src/forwarder.rs:30-60 | the search gives the one answer that the first module of the stem and the first entry of the name or ordinal give: base + RVA, the next query, a panic, or none |
| Forwarder.ResolveStep | vwfl/src/forwarder.rs:23-65 | that answer is the result, and a forwarder is followed with one hop less |
| Forwarder.ResolveInModules | vwfl/src/forwarder.rs:30-60 | for loaded modules: the module's v_base plus the entry's RVA, or the forwarder's text split at its first dot and resolved one hop deeper |
| Forwarder.UnknownModule | vwfl/src/forwarder.rs:32-35 | without a module of that stem there is no answer |
| Forwarder.UnknownFunction | vwfl/src/forwarder.rs:38-48 | nor without an entry of that name or ordinal |
| Forwarder.ResolveIsBoundedChain | vwfl/src/forwarder.rs:19-65 | an address is returned if and only if a chain of at most ten hops ends in it |
| Forwarder.ChainIsUnique | vwfl/src/forwarder.rs:19-65 | a query has one chain and one end |
| Forwarder.CyclesGiveNothing | vwfl/src/forwarder.rs:19-65 | a forwarder cycle resolves to nothing and has no chain |
| Forwarder.VisitedCount | vwfl/src/forwarder.rs:50-56 | a chain visits as many different forwarding exports as it has hops |
| Forwarder.BoundIsExact | vwfl/src/forwarder.rs:23-27 | with at most ten forwarding exports the bounded answer is the unbounded one |
| Forwarder.BoundBites | vwfl/src/forwarder.rs:23-27 | otherwise the answer is lost exactly for longer chains |
| Forwarder.LongChainIsLost | vwfl/src/forwarder.rs:23-27 | for every n above ten, a module with n forwarding exports and a chain of n hops to an address that is not found; eleven forwarders suffice |
| Forwarder.OrderOfModules | vwfl/src/forwarder.rs:32-35 | with distinct stems the module order does not matter |
| Forwarder.OrdinalImportsKeepOrdinal | vwfl/src/forwarder.rs:40-45 | ordinal imports are looked up by their ordinal |
| Loader.AlignedIsMask | vwfl/src/loader.rs:72-73 | the mask rounds up to 2 MB |
| Loader.ComputeSize | vwfl/src/loader.rs:72 | the largest section end, truncated to 32 bits, 64 KB without sections |
| Loader.LoadSections | vwfl/src/loader.rs:141-154 | header, sections in order, relocation; failure keeps the bytes written so far |
| Loader.LoadStaysInside | vwfl/src/loader.rs:141-154 | loading changes nothing outside the image's extent, even when it fails half way |
| LoaderRun.KernelLoader.LoadFileFixed | vwfl/src/loader.rs:67-93 | one step of the run: cursor, HAL gap, memory and module list |
| LoaderRun.KernelLoader.LoadFileDynamic | vwfl/src/loader.rs:95-121 | one step with both cursors |
| LoaderRun.KernelLoader.LoadDirectory | vwfl/src/loader.rs:29-65 | the run over the four essentials, then the listed images, stopping at the first failure; a completed one leaves kernel, HAL, kd, kdcom and the drivers in place, in this order |
| LoaderRun.PlanInPlace | vwfl/src/loader.rs:29-65 | a completed load: which image each module is, its name, its two bases, entry point and size |
| LoaderRun.DriversInOrder | vwfl/src/loader.rs:95-121 | drivers stand one behind the other in both address spaces, in the order of the list |
| LoaderRun.RunKeepsPacked | vwfl/src/loader.rs:29-121 | every run keeps extents aligned and disjoint and all memory below the cursor |
| LoaderRun.RunIsPacked | vwfl/src/loader.rs:29-121 | whole runs: extents 2 MB aligned, pairwise disjoint, in load order |
| LoaderRun.LaterLoadsDoNotInterfere | vwfl/src/loader.rs:29-121 | the rest of a run changes no byte of a module already loaded |
| LoaderRun.KernelMustFitBelowHal | vwfl/src/loader.rs:78-79 | kernel and HAL are disjoint if and only if the kernel's extent is at most 0x1E00000 |
| LoaderRun.OversizedKernelOverlaps | vwfl/src/loader.rs:67-93 | a completed run whose HAL is loaded over the end of its kernel |
| LoaderRun.ImagesMustFitBelowLoaderBlock | vwfl/src/loader.rs:29-121 | a completed run ends at the HAL's base plus all extents behind the kernel, and these images stay below the loader block if and only if the extents come to at most 0x2000000 |
| LoaderRun.SeventeenImagesReachLoaderBlock | vwfl/src/loader.rs:29-121 | with more than sixteen images of any size behind the kernel they do not |
| LoaderRun.DriversShareOffset | vwfl/src/loader.rs:95-107 | v_base - p_base is one constant for all drivers |
| FileView.SearchFindsRow | vwfl/src/pe.rs:298-327 | with disjoint rows the search finds the row that claims the RVA |
| FileView.OffsetOfSection | vwfl/src/pe.rs:284-327 | the RVA map sends a section's raw bytes, as one run, to where the file stores them |
| FileView.OutsideSections | vwfl/src/pe.rs:284-296 | an RVA in no parsed section has no offset, whatever the section table says |
| FileView.LoadIsCopyThenAdd | vwfl/src/loader.rs:141-150 | loading is copying, then adding the delta at every relocation target |
| FileView.MemoryHoldsFile | vwfl/src/loader.rs:141-150 | at any base, a section byte no relocation covers is the file's at the mapped offset, and, when targets do not overlap in part, a target word is the file's plus the delta as often as it is a target |
| FileView.HeaderSurvives | vwfl/src/loader.rs:142-150 | header bytes no section and no relocation covers survive |
| GuestView.KernelAndHalPlaced | vwfl/src/loader.rs:33-41 | kernel and HAL have v_base - p_base equal to K_VIRT, whatever else is loaded |
| GuestView.PatchAndMap | vwfl/src/main.rs:74-88 | the MmPteBase patch and the tables, nothing else |
| GuestView.GuestReadsLoadedBytes | vwfl/src/main.rs:313-319 | walk(v_base + rva) = p_base + rva in the first gigabyte, and the byte there is the loaded one |
| GuestView.GuestReadsPteBase | vwfl/src/main.rs:76-84 | the guest finds the self-map base in its own variable |
| Boot.RunHoldsFiles | vwfl/src/loader.rs:29-121 | at the end of a whole run every module holds its file, relocated to the base it was loaded at |
| Boot.BootToPaging | vwfl/src/main.rs:65-88 | loading, patch and paging in order: the modules are in place, memory is the loaded one patched and mapped, and the entry is the kernel's entry point moved to its base |
| Boot.GuestReadsTheFile | vwfl/src/main.rs:65-88 | end to end: after a completed load of kernel, HAL, debugger modules and drivers, the patch and paging, the guest reads the file at 0xFFFFF80000200000 and 0xFFFFF80002000000 + RVA, by bytes where no relocation applies and relocated by words where one does |
| Binding.BindAll | vwfl/src/loader.rs:123-138 | binding module by module, slot by slot, stopping at the first failure |
| Binding.BindingIsOverSlots | vwfl/src/loader.rs:126-136 | parsable modules bind as one list of slots |
| Binding.BindIsExact | vwfl/src/loader.rs:123-138 | with disjoint slots each resolved slot holds its address, each unresolved slot and all other memory stay |
| Binding.SlotsAreImports | vwfl/src/loader.rs:126-132 | a slot is bound if and only if some module imports it: at the module's p_base plus the slot's RVA, for the descriptor's DLL and the function's name |
| Binding.BindingByImports | vwfl/src/loader.rs:123-138 | after binding, the word at p_base + slot RVA of every import of every module is the address its DLL and name resolve to, or the old word; bytes outside resolved slots stay |
| Binding.ExactIsUnique | vwfl/src/loader.rs:123-138 | exact binding determines memory |
| Binding.BindOrderIsIrrelevant | vwfl/src/loader.rs:123-138 | module order does not change the bound memory |
| GuestBinding.BindingKeepsTables | vwfl/src/loader.rs:123-138 | binding slots clear of the paging region keeps the page tables |
| GuestBinding.GuestReadsBoundSlots | vwfl/src/main.rs:222-224 | at every slot in the first gigabyte the guest reads the resolved address, or the old word |
| GuestBinding.GuestReadsImports | vwfl/src/loader.rs:126-132 | at v_base + slot RVA of a module in the kernel window the guest reads what the import resolves to, or the old word |
| GuestBinding.KernelAndHalInWindow | vwfl/src/loader.rs:33-41 | kernel and HAL are such modules after a completed load |
| GuestBinding.GuestCallsTheExport | vwfl/src/loader.rs:130-132 | an import of an unforwarded export leads the guest to the exporting module's v_base plus the export's RVA |
| BootLists.BlocksAreIndependent | vwfl/src/main.rs:210-220 | stores to disjoint windows do not disturb each other |
| BootLists.LinkHalExtensions | vwfl/src/main.rs:183-197 | the extension list's stores in order; nothing for an empty list |
| BootLists.RingIsLinked | vwfl/src/main.rs:183-197 | the links form a ring with Blink inverse to Flink |
| BootLists.LinkModules | vwfl/src/main.rs:199-220 | the stores of both module rings and the boot-driver header |
| BootLists.ModulesAreLinked | vwfl/src/main.rs:199-220 | load order closes through its header, the 0x10 ring closes without one, the boot list is empty |
| BootTraversal.LinkMemory | vwfl/src/main.rs:263-271 | record, links and header of the memory descriptor list |
| BootTraversal.MemoryIsLinked | vwfl/src/loaderblock.rs:313-321 | the ring closes and every record reads its type, first page and page count behind its links |
| BootTraversal.GuestLinks | vwfl/src/main.rs:210-220 | Flink and Blink read through the page tables are inverse |
| BootTraversal.FollowRing | vwfl/src/main.rs:210-220 | following Flink from the head visits every node in order and returns after as many steps as nodes |
| BootLayout.BootModulesTraversable | vwfl/src/main.rs:164-220 | for the node layout of the boot, any number of modules, the guest walks both rings both ways |
| BootTraversal.HalExtensionsTraversable | vwfl/src/main.rs:175-197 | the extension list likewise |
| BootTraversal.MemoryTraversable | vwfl/src/main.rs:245-271 | the memory descriptor list likewise, and the guest reads the runs off it in order |
| BootLayout.StaysLinked | vwfl/src/main.rs:183-271 | a ring survives whatever is written off its links |
| BootLayout.BootListsTraversable | vwfl/src/main.rs:162-271 | after all three loops in order every ring can be walked both ways in the final memory, and the memory runs read off theirs |
| BootLayout.ListsByAddress | vwfl/src/main.rs:162-271 | the addresses the guest stands at after k steps from each list's head |
| Acpi.SumOfUpdate | vwfl/src/acpi.rs:118-122 | replacing one byte changes the sum by the difference |
| Acpi.UpdateChecksum | vwfl/src/acpi.rs:118-122 | all other bytes stay and the table sums to 0 mod 256 |
| Acpi.WriteHeader | vwfl/src/acpi.rs:110-116 | header fields set, bytes from 24 on kept |
| Acpi.BuildMadt | vwfl/src/acpi.rs:25-51 | the declared 80 bytes are there after the entries are appended, checksummed |
| Acpi.BuildFadt | vwfl/src/acpi.rs:53-71 | both DSDT pointers and the timer fields, checksummed |
| Acpi.BuildXsdt | vwfl/src/acpi.rs:84-91 | the three pointers in order, checksummed |
| Acpi.BuildRsdp | vwfl/src/acpi.rs:93-106 | both sums are 0 although the second covers the first checksum |
| Acpi.BuildHpet | vwfl/src/acpi.rs:73-82 | event timer block, base address and tick, checksummed |
| AcpiTree.Setup | vwfl/src/acpi.rs:4-108 | six tables at their offsets, none overlapping another, nothing else written; failure leaves memory alone |
| AcpiTree.TreeReadsBack | vwfl/src/acpi.rs:4-108 | following shifted pointers from the root reaches tables of the declared length that sum to 0 |
| AcpiTree.GuestFollowsTree | vwfl/src/main.rs:143-144 | at the boot addresses the guest follows the same pointers through the page tables |
| AcpiDevices.InterruptRecords | vwfl/src/acpi.rs:31-48 | the MADT's structures, by their own lengths, fill the table exactly: one processor, the I/O APIC, the timer's override to input 2, the NMI, with these fields |
| AcpiDevices.AddressesRead | vwfl/src/acpi.rs:30-38 | the addresses a guest reads for I/O APIC, local APIC and timer |
| AcpiDevices.DevicesWhereAdvertised | vwfl/src/main.rs:328-339 | under the page tables the timer is at its advertised address, the local APIC's leads to the I/O APIC's page, and the I/O APIC's to physical 0 |
| AcpiDevices.TimerPortAgrees | vwfl/src/acpi.rs:53-71 | both timer blocks of the FADT name port 0x408, of 32 bits |

## Left out

- Foreign calls: KVM and its memory slots (a physical address is an offset into the buffer, as the loader and the debuggers use it; the slots agree below 3 GB), the vCPU loop, registers, MSRs, CPUID and interrupts. Of the registers only cr3 (the PML4 base) and rip appear, as parameters.
- The GDB stub, the WinDbg bridge and the serial queue beyond `read_addrs` and `write_addrs`.
- The object parser: sections are inputs, with address = image base + RVA, data no longer than the virtual size (`Loader.WellFormed`) and, where file and memory are compared, the section table's own ranges (`FileView.Described`).
- File reading and directory listing: `load_directory` takes the parsed images in order.
- Text encoding: names are compared byte for byte, and case folding is ASCII only.
- The trap frame, register restore and IDT stubs of `handle_diagnostic_trap`: only its padding loop is modelled, which is the loop of `SkipPadding`.
- Fields of the loader block, module entries, KPCR, NLS tables, hive, GDT and TSS beyond links and memory records.
- Disjointness of the boot layout as a whole: module nodes share addresses with the NLS and API-set buffers, which are written before the lists. Module nodes reach the paging region after 0x3FC0 modules; the boot-layout theorems stop there. What main writes between the module and memory lists is any change that leaves the lists and the tables alone.
- Boot.GuestReadsTheFile: speaks of memory right after the tables are built; import binding and later writes come after it. Relocated words are stated where they lie within one section's raw data and no targets overlap in part.
- Exports.LookupByName: names that start with '#' are excluded because the resolver reads those as ordinals.
- GuestMemory.Vm.WriteMemory: does not model the 64-bit wrap of offset + length; offsets are mathematical integers and simply out of range. The same holds for v_base + rva in the resolver and the entry point.
- The last two rows of the memory map tables in main are never used by the loop, which stops at seven; the model links the rows it is given.

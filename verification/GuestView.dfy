/** The kernel and the HAL through the page tables: the guest reads the bytes that were loaded. */
module GuestView {
  import opened Words
  import opened GuestMemory
  import opened PeFile
  import opened PageWalk
  import opened PageTables
  import opened PagingSetup
  import opened Windows
  import opened Loader
  import opened LoaderRun
  import SelfMap

  const MM_PTE_BASE := KRNL_PBASE + 0xCF_B358

  /** The image's virtual base is its physical base in the identity window. */
  predicate InWindow(image: LoadedModule) {
    image.vBase == K_VIRT + image.pBase
  }

  /** Kernel and HAL stand at equal distance from the identity window, whatever else is loaded. */
  lemma KernelAndHalPlaced(m: seq<byte>, kernel: Job, hal: Job, rest: seq<Job>)
    requires kernel.IsKernel() && kernel.fixed == Some(KRNL_VBASE) && hal.fixed == Some(HAL_BASE) && !hal.IsKernel()
    requires Run(Start(m), [kernel, hal] + rest).1.Done?
    ensures var ms := Run(Start(m), [kernel, hal] + rest).0.modules;
            && |ms| >= 2 && ms[0].pe == kernel.pe && ms[1].pe == hal.pe
            && ms[0].pBase == KRNL_PBASE && ms[1].pBase == HAL_PBASE
            && InWindow(ms[0]) && InWindow(ms[1])
  {
    hide LoadImage;
    hide Extent;
    hide ImageSize;
    RunSplits(Start(m), [kernel, hal], rest);
    RunOfTwo(Start(m), kernel, hal);
    RunKeepsModules(Run(Start(m), [kernel, hal]).0, rest);
    hide Run;
  }

  lemma {:induction false} RunKeepsModules(st: State, jobs: seq<Job>)
    ensures st.modules <= Run(st, jobs).0.modules && |Run(st, jobs).0.mem| == |st.mem|
    decreases jobs
  {
    hide LoadImage;
    hide Extent;
    hide ImageSize;
    if jobs != [] && Step(st, jobs[0]).1.Done? { RunKeepsModules(Step(st, jobs[0]).0, jobs[1..]); }
  }

  /** The boot steps after loading: the MmPteBase patch, then the page tables. */
  ghost predicate BootedFrom(loaded: seq<byte>, booted: seq<byte>, halBase: u64) {
    && |loaded| == MEM_SIZE && |booted| == MEM_SIZE
    && TablesBuilt(booted, HalIndex(halBase))
    && OutsideUntouched(PutWord(loaded, MM_PTE_BASE, SelfMap.PTE_BASE), booted)
  }

  method PatchAndMap(vm: Vm, halBase: u64)
    requires vm.Valid()
    modifies vm.mem
    ensures BootedFrom(old(vm.Contents()), vm.Contents(), halBase)
  {
    hide TablesBuilt;
    var ok := vm.WriteMemory(MM_PTE_BASE, ToLe(SelfMap.PTE_BASE, 8));
    SetupKernelPaging(vm, halBase);
  }

  /**
   Guest view: every byte of an image in the kernel window (the kernel and the HAL, by
   KernelAndHalPlaced) that lies in the first gigabyte is reached at its virtual address, and outside
   the patched word and the page tables it is the byte the loader put there.
   */
  lemma GuestReadsLoadedBytes(loaded: seq<byte>, booted: seq<byte>, halBase: u64, image: LoadedModule, rva: nat)
    requires BootedFrom(loaded, booted, halBase)
    requires InWindow(image) && image.pBase + rva < SIZE_1G
    ensures var p := image.pBase + rva;
            && Walk(booted, CR3, image.vBase + rva) == Some(p)
            && (!(MM_PTE_BASE <= p < MM_PTE_BASE + 8) && !(PAGING <= p < PAGING + PAGING_SIZE) ==>
                booted[p] == loaded[p])
  {
    hide TablesBuilt;
    hide Walk;
    KernelWindow(booted, HalIndex(halBase), image.pBase + rva);
  }

  /** The guest finds the self-map base in its own MmPteBase variable. */
  lemma GuestReadsPteBase(loaded: seq<byte>, booted: seq<byte>, halBase: u64)
    requires BootedFrom(loaded, booted, halBase)
    ensures Walk(booted, CR3, KRNL_VBASE + 0xCF_B358) == Some(MM_PTE_BASE)
    ensures Word64(booted, MM_PTE_BASE) == SelfMap.PTE_BASE
  {
    hide TablesBuilt;
    KernelWindow(booted, HalIndex(halBase), MM_PTE_BASE);
    hide Walk;
    WordAfterPut(loaded, MM_PTE_BASE, SelfMap.PTE_BASE);
    SameWord(booted, PutWord(loaded, MM_PTE_BASE, SelfMap.PTE_BASE), MM_PTE_BASE);
  }
}

/** Loading, patching and paging together: what the guest reads is what the files hold. */
module Boot {
  import opened Words
  import opened GuestMemory
  import opened PeFile
  import opened RvaMap
  import opened PageWalk
  import opened PageTables
  import opened Relocation
  import opened Loader
  import opened LoaderRun
  import opened FileView
  import opened GuestView

  // ----- A whole run

  /** A directory run under the loader's conditions: loadable images, a kernel that fits below the HAL. */
  ghost predicate Directory(jobs: seq<Job>) {
    jobs != [] && Proper(jobs[0], jobs[1..]) && Extent(jobs[0].pe) <= 0x1E0_0000
  }

  /** A completed run loads one module per job, in order. */
  lemma {:induction false} OneModulePerJob(st: State, jobs: seq<Job>)
    requires Run(st, jobs).1.Done?
    ensures |Run(st, jobs).0.modules| == |st.modules| + |jobs|
    decreases jobs
  {
    hide LoadImage, Extent, ImageSize;
    if jobs != [] { OneModulePerJob(Step(st, jobs[0]).0, jobs[1..]); }
  }

  /** The state before job `i` of a completed run, and the module its step appends. */
  lemma StepOfRun(st: State, jobs: seq<Job>, i: nat)
    requires Run(st, jobs).1.Done? && i < |jobs|
    ensures var before := Run(st, jobs[..i]);
            && before.1.Done? && |before.0.modules| == |st.modules| + i
            && Step(before.0, jobs[i]).1.Done? && Run(st, jobs[..i + 1]) == Step(before.0, jobs[i])
  {
    hide Step;
    assert jobs == jobs[..i] + jobs[i..] && jobs == jobs[..i + 1] + jobs[i + 1..];
    assert jobs[..i + 1] == jobs[..i] + [jobs[i]];
    RunSplits(st, jobs[..i], jobs[i..]);
    RunSplits(st, jobs[..i + 1], jobs[i + 1..]);
    RunSplits(st, jobs[..i], [jobs[i]]);
    OneModulePerJob(st, jobs[..i]);
    RunOfOne(Run(st, jobs[..i]).0, jobs[i]);
  }

  lemma RunOfOne(st: State, job: Job)
    ensures Run(st, [job]).1.Done? <==> Step(st, job).1.Done?
    ensures Run(st, [job]).1.Done? ==> Run(st, [job]) == Step(st, job)
  {
    hide Step;
    assert [job][1..] == [];
    assert Step(st, job).1.Done? ==> Step(st, job).1.value == ();
  }

  /** The section table describes the sections, and their raw data do not overlap. */
  ghost predicate Parsed(pe: Pe, ptr: nat, rows: seq<Row>) {
    Described(pe, ptr, rows) && DisjointSections(pe, pe.sections)
  }

  /** At the end of a run every module's section bytes and words are those of its file, relocated to its base. */
  lemma RunHoldsFiles(m: seq<byte>, jobs: seq<Job>, i: nat, ptr: nat, rows: seq<Row>, k: nat, b: nat)
    requires Directory(jobs) && Run(Start(m), jobs).1.Done? && i < |jobs|
    requires Parsed(jobs[i].pe, ptr, rows)
    requires k < |jobs[i].pe.sections| && b < |jobs[i].pe.sections[k].data|
    ensures var st, pe := Run(Start(m), jobs).0, jobs[i].pe;
            && |st.modules| == |jobs| && st.modules[i].pe == pe
            && HoldsSection(st.mem, pe, st.modules[i].pBase, st.modules[i].vBase, k, b)
  {
    hide Run, Step, LoadImage, Extent, Described, DisjointSections, HoldsSection;
    var job, pe := jobs[i], jobs[i].pe;
    OneModulePerJob(Start(m), jobs);
    StepOfRun(Start(m), jobs, i);
    var before := Run(Start(m), jobs[..i]).0;
    StepLoads(before, job);
    var after := Run(Start(m), jobs[..i + 1]).0;
    Later(m, jobs, i);
    var loaded := after.modules[i];
    LoadHolds(before.mem, pe, ptr, rows, before.p, loaded.vBase, k, b);
    SectionInExtent(pe, pe.sections[k]);
    HoldsElsewhere(after.mem, Run(Start(m), jobs).0.mem, pe, loaded.pBase, loaded.vBase, k, b);
  }

  /** Byte `b` of section `k` as memory should hold it and, where eight are left, the word there. */
  ghost predicate HoldsSection(m: seq<byte>, pe: Pe, pBase: nat, vBase: nat, k: nat, b: nat)
    requires k < |pe.sections|
  {
    var rva := SectionRva(pe, k, b);
    && pBase + rva < |m| && HoldsByte(m, pe, pBase, rva)
    && (b + 8 <= |pe.sections[k].data| ==> HoldsWord(m, pe, pBase, vBase, rva))
  }

  lemma LoadHolds(m: seq<byte>, pe: Image, ptr: nat, rows: seq<Row>, pBase: nat, vBase: u64, k: nat, b: nat)
    requires Parsed(pe, ptr, rows) && LoadImage(m, pe, pBase, vBase).1.Done?
    requires k < |pe.sections| && b < |pe.sections[k].data|
    ensures HoldsSection(LoadImage(m, pe, pBase, vBase).0, pe, pBase, vBase, k, b)
  {
    hide LoadImage, Described, DisjointSections, HoldsByte, HoldsWord;
    MemoryHoldsFile(m, pe, ptr, rows, pBase, vBase, k, b);
  }

  /** What a memory holds of a section, so does one that agrees with it on the section's bytes. */
  lemma HoldsElsewhere(m: seq<byte>, m': seq<byte>, pe: Pe, pBase: nat, vBase: nat, k: nat, b: nat)
    requires k < |pe.sections| && b < |pe.sections[k].data| && |m'| == |m| && HoldsSection(m, pe, pBase, vBase, k, b)
    requires var lo, hi := pBase + SectionRva(pe, k, 0), pBase + SectionRva(pe, k, |pe.sections[k].data|);
             forall x | lo <= x < hi && x < |m| :: m'[x] == m[x]
    ensures HoldsSection(m', pe, pBase, vBase, k, b)
  {
    hide Rva, RelocTargets, Covered, FileByte, FileWord, Word64;
    var x := pBase + SectionRva(pe, k, b);
    if b + 8 <= |pe.sections[k].data| { SameWord(m', m, x); }
  }

  lemma Later(m: seq<byte>, jobs: seq<Job>, i: nat)
    requires Directory(jobs) && Run(Start(m), jobs).1.Done? && i < |jobs|
    requires Run(Start(m), jobs[..i + 1]).1.Done?
    ensures Loadable(jobs[i])
    ensures var mid, end := Run(Start(m), jobs[..i + 1]).0, Run(Start(m), jobs).0;
            && mid.modules <= end.modules && |end.mem| == |mid.mem|
            && forall j, x :: 0 <= j < |mid.modules| && mid.modules[j].pBase <= x < End(mid.modules[j]) && x < |mid.mem|
                 ==> end.mem[x] == mid.mem[x]
  {
    hide Run, Loadable, Extent;
    var a, b := jobs[1..i + 1], jobs[i + 1..];
    assert [jobs[0]] + a == jobs[..i + 1] && jobs[..i + 1] + b == jobs;
    assert forall j :: j in a || j in b ==> j in jobs[1..];
    assert i > 0 ==> jobs[i] == a[i - 1];
    LaterLoadsDoNotInterfere(m, jobs[0], a, b);
  }

  // ----- Seen from the guest

  /** The boot steps after loading write none of the `n` bytes from `p`. */
  predicate Kept(p: nat, n: nat) {
    && (p + n <= MM_PTE_BASE || MM_PTE_BASE + 8 <= p)
    && (p + n <= PAGING || PAGING + PAGING_SIZE <= p)
  }

  /** The guest reads the byte at `rva` where the image is mapped: the file's, unless a relocation covers it. */
  ghost predicate GuestByte(m: seq<byte>, pe: Pe, pBase: nat, vBase: nat, rva: nat) {
    var p := pBase + rva;
    p < SIZE_1G && Kept(p, 1) ==> Walk(m, CR3, vBase + rva) == Some(p) && p < |m| && HoldsByte(m, pe, pBase, rva)
  }

  /** The guest reads the word at `rva`: where it is a relocation target, the file's word, relocated. */
  ghost predicate GuestWord(m: seq<byte>, pe: Pe, pBase: nat, vBase: nat, rva: nat) {
    var p := pBase + rva;
    p + 8 <= SIZE_1G && Kept(p, 8) ==>
      HoldsWord(m, pe, pBase, vBase, rva) && ReadVirtual(m, CR3, vBase + rva) == Some(Word64(m, p))
  }

  /** Images the loader can load without one reaching out of its extent, the kernel below the HAL. */
  ghost predicate Bootable(kernel: Image, hal: Image, kd: Image, kdcom: Image, drivers: seq<Job>) {
    && Extent(kernel) <= 0x1E0_0000
    && (forall pe: Image :: pe in [kernel, hal, kd, kdcom] ==> Fits(pe) && RelocatesInside(pe))
    && (forall j :: j in drivers ==> j.fixed.None? && Fits(j.pe) && RelocatesInside(j.pe))
  }

  lemma PlanIsDirectory(kernel: Image, hal: Image, kd: Image, kdcom: Image, kVBase: u64, drivers: seq<Job>)
    requires Bootable(kernel, hal, kd, kdcom, drivers)
    ensures Directory(Plan(kernel, hal, kd, kdcom, kVBase, drivers))
  {
    hide Extent, Fits, RelocatesInside;
    var jobs := Plan(kernel, hal, kd, kdcom, kVBase, drivers);
    assert kernel in [kernel, hal, kd, kdcom];
    forall j | j in jobs[1..]
      ensures Loadable(j) && !j.IsKernel()
    {
      var i :| 1 <= i < |jobs| && jobs[i] == j;
      if i >= 4 {
        assert drivers[i - 4] == j;
      } else {
        assert j.pe in [kernel, hal, kd, kdcom];
      }
    }
  }

  /** What main does from the loader to the page tables; the run starts at the kernel's entry. */
  method BootToPaging(vm: Vm, kernel: Image, hal: Image, kd: Image, kdcom: Image, drivers: seq<Job>)
    returns (r: Outcome<()>, modules: seq<LoadedModule>, entry: nat)
    requires vm.Valid() && forall j :: j in drivers ==> j.fixed.None?
    modifies vm.mem
    ensures r.Done? ==>
              && InPlace(modules, kernel, hal, kd, kdcom, KRNL_VBASE, drivers)
              && Run(Start(old(vm.Contents())), Plan(kernel, hal, kd, kdcom, KRNL_VBASE, drivers)).1.Done?
              && BootedFrom(Run(Start(old(vm.Contents())), Plan(kernel, hal, kd, kdcom, KRNL_VBASE, drivers)).0.mem,
                            vm.Contents(), HAL_BASE)
              && (kernel.entryPoint >= kernel.imageBase ==>
                    entry == KRNL_VBASE + (kernel.entryPoint - kernel.imageBase))
  {
    hide Run, BootedFrom, Extent;
    var loader := new KernelLoader();
    r := loader.LoadDirectory(vm, kernel, hal, kd, kdcom, drivers, KRNL_PBASE, KRNL_VBASE);
    modules, entry := loader.modules, 0;
    if r.Done? {
      entry := modules[0].entry;
      PatchAndMap(vm, modules[1].vBase);
    }
  }

  /**
   End to end: after the whole directory is loaded, MmPteBase patched and the tables built, the guest
   reading the kernel's or the HAL's sections in the first gigabyte reads the file, relocated to the
   address it reads at: byte by byte where no relocation applies, word by word where one does.
   */
  lemma {:induction false} GuestReadsTheFile(m: seq<byte>, booted: seq<byte>, kernel: Image, hal: Image, kd: Image,
                                             kdcom: Image, drivers: seq<Job>, ofHal: bool,
                                             ptr: nat, rows: seq<Row>, k: nat, b: nat)
    requires Bootable(kernel, hal, kd, kdcom, drivers)
    requires Run(Start(m), Plan(kernel, hal, kd, kdcom, KRNL_VBASE, drivers)).1.Done?
    requires BootedFrom(Run(Start(m), Plan(kernel, hal, kd, kdcom, KRNL_VBASE, drivers)).0.mem, booted, HAL_BASE)
    requires var pe := if ofHal then hal else kernel;
             Parsed(pe, ptr, rows) && k < |pe.sections| && b < |pe.sections[k].data|
    ensures var pe := if ofHal then hal else kernel;
            var vBase := if ofHal then 0xFFFF_F800_0200_0000 else 0xFFFF_F800_0020_0000;
            var rva, pBase := SectionRva(pe, k, b), vBase - K_VIRT;
            && GuestByte(booted, pe, pBase, vBase, rva)
            && (b + 8 <= |pe.sections[k].data| ==> GuestWord(booted, pe, pBase, vBase, rva))
  {
    hide Run, BootedFrom, Parsed, HoldsSection, GuestByte, GuestWord, Extent, Bootable, Directory;
    var jobs, i := Plan(kernel, hal, kd, kdcom, KRNL_VBASE, drivers), if ofHal then 1 else 0;
    PlanIsDirectory(kernel, hal, kd, kdcom, KRNL_VBASE, drivers);
    DriversAreDynamic(kernel, hal, kd, kdcom, drivers);
    PlanInPlace(m, kernel, hal, kd, kdcom, KRNL_VBASE, drivers);
    var st := Run(Start(m), jobs).0;
    RunHoldsFiles(m, jobs, i, ptr, rows, k, b);
    GuestHoldsByte(st.mem, booted, st.modules[i], k, b);
    if b + 8 <= |st.modules[i].pe.sections[k].data| { GuestHoldsWord(st.mem, booted, st.modules[i], k, b); }
  }

  lemma DriversAreDynamic(kernel: Image, hal: Image, kd: Image, kdcom: Image, drivers: seq<Job>)
    requires Bootable(kernel, hal, kd, kdcom, drivers)
    ensures forall j :: j in drivers ==> j.fixed.None?
  {}

  /** What loaded memory holds of a section in the kernel window, the guest reads. */
  lemma GuestHoldsByte(loaded: seq<byte>, booted: seq<byte>, image: LoadedModule, k: nat, b: nat)
    requires BootedFrom(loaded, booted, HAL_BASE) && InWindow(image)
    requires k < |image.pe.sections| && HoldsSection(loaded, image.pe, image.pBase, image.vBase, k, b)
    ensures GuestByte(booted, image.pe, image.pBase, image.vBase, SectionRva(image.pe, k, b))
  {
    hide TablesBuilt, Walk, SectionRva, RelocTargets, Covered, FileByte, HoldsWord;
    var rva := SectionRva(image.pe, k, b);
    if image.pBase + rva < SIZE_1G { GuestReadsLoadedBytes(loaded, booted, HAL_BASE, image, rva); }
  }

  lemma GuestHoldsWord(loaded: seq<byte>, booted: seq<byte>, image: LoadedModule, k: nat, b: nat)
    requires BootedFrom(loaded, booted, HAL_BASE) && InWindow(image)
    requires k < |image.pe.sections| && b + 8 <= |image.pe.sections[k].data|
    requires HoldsSection(loaded, image.pe, image.pBase, image.vBase, k, b)
    ensures GuestWord(booted, image.pe, image.pBase, image.vBase, SectionRva(image.pe, k, b))
  {
    hide TablesBuilt, Walk, SectionRva, RelocTargets, CleanWindows, Grown, Count, FileWord, HoldsByte, Word64;
    var rva := SectionRva(image.pe, k, b);
    var p := image.pBase + rva;
    if p + 8 <= SIZE_1G && Kept(p, 8) {
      forall x | p <= x < p + 8
        ensures booted[x] == loaded[x]
      {
        GuestReadsLoadedBytes(loaded, booted, HAL_BASE, image, x - image.pBase);
      }
      SameWord(booted, loaded, p);
      GuestReadsLoadedBytes(loaded, booted, HAL_BASE, image, rva);
    }
  }
}

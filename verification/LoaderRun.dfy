/** Whole loading runs: where every image lands, and that no load disturbs an earlier one. */
module LoaderRun {
  import opened Words
  import opened GuestMemory
  import opened PeFile
  import opened Relocation
  import opened Loader

  /** One image to load: the four essentials at fixed addresses, the rest wherever the cursor stands. */
  datatype Job = Job(name: string, pe: Image, fixed: Option<u64>) {
    predicate IsKernel() { fixed.Some? && name == NTOSKRNL }
  }

  datatype State = State(mem: seq<byte>, p: u64, v: u64, modules: seq<LoadedModule>)

  /** One load as a function of the loader's state; cursor additions are checked. */
  function Step(st: State, job: Job): (State, Outcome<()>) {
    var p := st.p + Extent(job.pe);
    var v := if job.fixed.Some? then st.v else st.v + Extent(job.pe);
    if p >= TWO64 || v >= TWO64 then (st, Panic)
    else
      var pCursor := if job.IsKernel() then HAL_PBASE else p;
      var vBase := if job.fixed.Some? then job.fixed.value else st.v;
      var (mem, entry) := LoadImage(st.mem, job.pe, st.p, vBase);
      match entry
      case Fail => (State(mem, pCursor, v, st.modules), Fail)
      case Panic => (State(mem, pCursor, v, st.modules), Panic)
      case Done(e) =>
        var loaded := LoadedModule(job.name, vBase, st.p, e, ImageSize(job.pe), job.pe);
        (State(mem, pCursor, v, st.modules + [loaded]), Done(()))
  }

  /** Jobs in order, until one does not succeed. */
  function Run(st: State, jobs: seq<Job>): (State, Outcome<()>)
    decreases jobs
  {
    if jobs == [] then (st, Done(()))
    else
      var (st', r) := Step(st, jobs[0]);
      if r.Done? then Run(st', jobs[1..]) else (st', r)
  }

  const KD_BASE := 0xFFFF_F800_0060_0000
  const KDCOM_BASE := 0xFFFF_F800_0080_0000
  const HAL_BASE := 0xFFFF_F800_0200_0000

  /** The order `load_directory` works in. */
  function Plan(kernel: Image, hal: Image, kd: Image, kdcom: Image, kVBase: u64, drivers: seq<Job>): (jobs: seq<Job>)
    ensures |jobs| == 4 + |drivers| && jobs[4..] == drivers
  {
    [Job(NTOSKRNL, kernel, Some(kVBase)), Job("hal.dll", hal, Some(HAL_BASE)),
     Job("kd.dll", kd, Some(KD_BASE)), Job("kdcom.dll", kdcom, Some(KDCOM_BASE))] + drivers
  }

  class KernelLoader {
    var modules: seq<LoadedModule>

    constructor ()
      ensures modules == []
    {
      modules := [];
    }

    method LoadFileFixed(vm: Vm, name: string, pe: Image, p: u64, vBase: u64, ghost v: u64)
      returns (r: Outcome<()>, p': u64)
      requires vm.Valid()
      modifies this, vm.mem
      ensures (State(vm.Contents(), p', v, modules), r)
           == Step(State(old(vm.Contents()), p, v, old(modules)), Job(name, pe, Some(vBase)))
    {
      hide LoadImage;
      hide ImageSize;
      var size := ComputeSize(pe);
      var aligned := Aligned(size);
      if p + aligned >= TWO64 { return Panic, p; }
      p' := p + aligned;
      if name == NTOSKRNL { p' := HAL_PBASE; }
      var entry := LoadSections(vm, pe, p, vBase);
      if entry.IsFailure() { return entry.PropagateFailure(), p'; }
      modules := modules + [LoadedModule(name, vBase, p, entry.value, size, pe)];
      return Done(()), p';
    }

    method LoadFileDynamic(vm: Vm, name: string, pe: Image, p: u64, v: u64) returns (r: Outcome<()>, p': u64, v': u64)
      requires vm.Valid()
      modifies this, vm.mem
      ensures (State(vm.Contents(), p', v', modules), r)
           == Step(State(old(vm.Contents()), p, v, old(modules)), Job(name, pe, None))
    {
      hide LoadImage;
      hide ImageSize;
      var size := ComputeSize(pe);
      var aligned := Aligned(size);
      if p + aligned >= TWO64 || v + aligned >= TWO64 { return Panic, p, v; }
      p', v' := p + aligned, v + aligned;
      var entry := LoadSections(vm, pe, p, v);
      if entry.IsFailure() { return entry.PropagateFailure(), p', v'; }
      modules := modules + [LoadedModule(name, v, p, entry.value, size, pe)];
      return Done(()), p', v';
    }

    /** The essentials in their fixed order, then the other images as listed. */
    method LoadDirectory(vm: Vm, kernel: Image, hal: Image, kd: Image, kdcom: Image, drivers: seq<Job>,
                         kPBase: u64, kVBase: u64)
      returns (r: Outcome<()>)
      requires vm.Valid()
      requires forall j :: j in drivers ==> j.fixed.None?
      modifies this, vm.mem
      ensures var (st, outcome) := Run(State(old(vm.Contents()), kPBase, DRIVERS_VIRT, old(modules)),
                                       Plan(kernel, hal, kd, kdcom, kVBase, drivers));
              r == outcome && vm.Contents() == st.mem && modules == st.modules
      ensures r.Done? && old(modules) == [] && kPBase == 0x20_0000 ==>
                InPlace(modules, kernel, hal, kd, kdcom, kVBase, drivers)
    {
      hide Step, InPlace;
      var p: u64, v: u64 := kPBase, DRIVERS_VIRT;
      ghost var m0, modules0 := vm.Contents(), modules;
      ghost var jobs := Plan(kernel, hal, kd, kdcom, kVBase, drivers);
      ghost var whole := Run(State(vm.Contents(), p, v, modules), jobs);
      var essentials := [(NTOSKRNL, kernel, kVBase), ("hal.dll", hal, HAL_BASE),
                         ("kd.dll", kd, KD_BASE), ("kdcom.dll", kdcom, KDCOM_BASE)];
      for i := 0 to 4
        invariant v == DRIVERS_VIRT
        invariant Run(State(vm.Contents(), p, v, modules), jobs[i..]) == whole
      {
        var (name, pe, fixedV) := essentials[i];
        assert jobs[i..][0] == Job(name, pe, Some(fixedV)) && jobs[i..][1..] == jobs[i + 1..];
        r, p := LoadFileFixed(vm, name, pe, p, fixedV, v);
        if !r.Done? { return; }
      }
      for i := 0 to |drivers|
        invariant Run(State(vm.Contents(), p, v, modules), jobs[4 + i..]) == whole
      {
        var job := drivers[i];
        assert job in drivers && jobs[4 + i..][0] == job && jobs[4 + i..][1..] == jobs[4 + i + 1..];
        r, p, v := LoadFileDynamic(vm, job.name, job.pe, p, v);
        if !r.Done? { return; }
      }
      assert jobs[|jobs|..] == [];
      if modules0 == [] && kPBase == KRNL_PBASE { PlanInPlace(m0, kernel, hal, kd, kdcom, kVBase, drivers); }
      return Done(());
    }
  }

  // ----- Placement

  /** One past the memory set aside for a module. */
  function End(m: LoadedModule): nat { m.pBase + Aligned(m.size) }

  /** Extents lie in load order below the cursor, 2 MB aligned, none overlapping. */
  ghost predicate Packed(st: State) {
    && st.p % EXTENT == 0
    && (forall m :: m in st.modules ==> m.pBase % EXTENT == 0 && End(m) <= st.p)
    && (forall i, j :: 0 <= i < j < |st.modules| ==> End(st.modules[i]) <= st.modules[j].pBase)
  }

  predicate Loadable(job: Job) {
    Fits(job.pe) && RelocatesInside(job.pe)
  }

  /** One load touches nothing outside the extent at the cursor, which the next cursor covers. */
  lemma StepIsLocal(st: State, job: Job)
    requires Loadable(job)
    ensures var st' := Step(st, job).0;
            && SameOutside(st.mem, st'.mem, st.p, st.p + Extent(job.pe))
            && (!job.IsKernel() ==> st.p <= st'.p && SameOutside(st.mem, st'.mem, st.p, st'.p))
            && st.modules <= st'.modules
  {
    hide LoadImage;
    hide Extent;
    hide ImageSize;
    var vBase := if job.fixed.Some? then job.fixed.value else st.v;
    LoadStaysInside(st.mem, job.pe, st.p, vBase);
  }

  lemma StepKeepsPacked(st: State, job: Job)
    requires Packed(st) && (job.IsKernel() ==> st.p + Extent(job.pe) <= HAL_PBASE)
    ensures Packed(Step(st, job).0)
  {
    hide LoadImage;
    hide ImageSize;
    SumIsAligned(st.p, Extent(job.pe));
  }

  lemma SumIsAligned(a: nat, b: nat)
    requires a % EXTENT == 0 && b % EXTENT == 0
    ensures (a + b) % EXTENT == 0
  {}

  /** Jobs that may follow the kernel. */
  predicate Followers(jobs: seq<Job>) {
    forall j :: j in jobs ==> Loadable(j) && !j.IsKernel()
  }

  /** Over any run of loadable images after the kernel, the packing is kept and memory below the cursor stays. */
  lemma {:induction false} RunKeepsPacked(st: State, jobs: seq<Job>)
    requires Packed(st) && Followers(jobs)
    ensures var st' := Run(st, jobs).0;
            && Packed(st') && st.p <= st'.p && st.modules <= st'.modules
            && SameOutside(st.mem, st'.mem, st.p, st'.p)
    decreases jobs
  {
    if jobs != [] {
      var job, rest := jobs[0], jobs[1..];
      assert job in jobs && forall j :: j in rest ==> j in jobs;
      StepKeepsPacked(st, job);
      StepIsLocal(st, job);
      hide Step;
      hide Packed;
      hide Loadable;
      if Step(st, job).1.Done? { RunKeepsPacked(Step(st, job).0, rest); }
    }
  }

  lemma {:induction false} RunSplits(st: State, a: seq<Job>, b: seq<Job>)
    ensures Run(st, a + b) == if Run(st, a).1.Done? then Run(Run(st, a).0, b) else Run(st, a)
    decreases a
  {
    hide Step;
    if a == [] {
      assert a + b == b;
    } else {
      assert (a + b)[0] == a[0] && (a + b)[1..] == a[1..] + b;
      if Step(st, a[0]).1.Done? { RunSplits(Step(st, a[0]).0, a[1..], b); }
    }
  }

  function Start(m: seq<byte>): State { State(m, KRNL_PBASE, DRIVERS_VIRT, []) }

  /** A directory run: the kernel first, then images that are not the kernel again. */
  predicate Proper(kernel: Job, rest: seq<Job>) {
    kernel.IsKernel() && Loadable(kernel) && Followers(rest)
  }

  /** All extents of a whole run are 2 MB aligned and pairwise disjoint, in load order. */
  lemma RunIsPacked(m: seq<byte>, kernel: Job, rest: seq<Job>)
    requires Proper(kernel, rest) && Extent(kernel.pe) <= 0x1E0_0000
    ensures Packed(Run(Start(m), [kernel] + rest).0)
  {
    var jobs := [kernel] + rest;
    assert jobs[0] == kernel && jobs[1..] == rest;
    StepKeepsPacked(Start(m), kernel);
    hide Step;
    hide Packed;
    if Step(Start(m), kernel).1.Done? { RunKeepsPacked(Step(Start(m), kernel).0, rest); }
  }

  /** Non-interference: once a prefix of the run is loaded, the rest of the run changes no byte of its modules. */
  lemma LaterLoadsDoNotInterfere(m: seq<byte>, kernel: Job, a: seq<Job>, b: seq<Job>)
    requires Proper(kernel, a) && Followers(b) && Extent(kernel.pe) <= 0x1E0_0000
    requires Run(Start(m), [kernel] + a).1.Done?
    ensures var mid, end := Run(Start(m), [kernel] + a).0, Run(Start(m), [kernel] + a + b).0;
            && mid.modules <= end.modules && |end.mem| == |mid.mem|
            && forall i, x :: 0 <= i < |mid.modules| && mid.modules[i].pBase <= x < End(mid.modules[i]) && x < |mid.mem|
                 ==> end.mem[x] == mid.mem[x]
  {
    RunIsPacked(m, kernel, a);
    RunSplits(Start(m), [kernel] + a, b);
    RunKeepsPacked(Run(Start(m), [kernel] + a).0, b);
    hide Run;
  }

  lemma RunOfTwo(st: State, a: Job, b: Job)
    ensures Run(st, [a, b]) == if Step(st, a).1.Done? then Step(Step(st, a).0, b) else Step(st, a)
  {
    hide Step;
    assert [a, b][1..] == [b] && [b][1..] == [];
    assert Run(Step(st, a).0, [b]) == Step(Step(st, a).0, b) by {
      assert Step(Step(st, a).0, b).1.Done? ==> Step(Step(st, a).0, b).1.value == ();
    }
  }

  /** The size condition is exact: when the HAL takes room, it is disjoint from the kernel if and only if it holds. */
  lemma KernelMustFitBelowHal(m: seq<byte>, kernel: Job, hal: Job)
    requires kernel.IsKernel() && !hal.IsKernel() && Extent(hal.pe) > 0
    requires Run(Start(m), [kernel, hal]).1.Done?
    ensures var ms := Run(Start(m), [kernel, hal]).0.modules;
            && |ms| == 2 && ms[0].pe == kernel.pe && ms[1].pe == hal.pe
            && (End(ms[0]) <= ms[1].pBase || End(ms[1]) <= ms[0].pBase <==> Extent(kernel.pe) <= 0x1E0_0000)
  {
    hide LoadImage;
    hide ImageSize;
    hide Aligned;
    hide Run;
    RunOfTwo(Start(m), kernel, hal);
  }

  const OVERSIZED: Image := Pe(0, 0, [Section("s", 0, 0x200_0000, [])], [], [])
  const SMALL: Image := Pe(0, 0, [], [], [])

  lemma LoadsAsIs(m: seq<byte>, pe: Image, pBase: nat, vBase: u64)
    requires |m| == MEM_SIZE && pBase + 0x200_0000 <= MEM_SIZE && pe in [OVERSIZED, SMALL]
    ensures LoadImage(m, pe, pBase, vBase).1.Done?
  {
    if pe == OVERSIZED { assert pe.sections[1..] == []; }
    assert RelocData(pe).None? by {
      assert pe == OVERSIZED ==> pe.sections[0].name == "s" && pe.sections[1..] == [];
    }
  }

  lemma OversizedExtent()
    ensures Extent(OVERSIZED) == 0x200_0000 && Extent(SMALL) == 0x20_0000
  {
    assert OVERSIZED.sections[0] in OVERSIZED.sections;
  }

  /** A kernel one extent too large loads without complaint, and the HAL is loaded over its end. */
  lemma OversizedKernelOverlaps(m: seq<byte>, kVBase: u64)
    requires |m| == MEM_SIZE
    ensures var jobs := [Job(NTOSKRNL, OVERSIZED, Some(kVBase)), Job("hal.dll", SMALL, Some(HAL_BASE))];
            var ms := Run(Start(m), jobs).0.modules;
            && Run(Start(m), jobs).1.Done? && |ms| == 2
            && ms[0].pBase < ms[1].pBase < End(ms[0])
  {
    hide LoadImage, Extent, ImageSize, Run;
    var kernel, hal := Job(NTOSKRNL, OVERSIZED, Some(kVBase)), Job("hal.dll", SMALL, Some(HAL_BASE));
    OversizedExtent();
    LoadsAsIs(m, OVERSIZED, KRNL_PBASE, kVBase);
    LoadsAsIs(Step(Start(m), kernel).0.mem, SMALL, HAL_PBASE, HAL_BASE);
    RunOfTwo(Start(m), kernel, hal);
    assert Extent(OVERSIZED) == Aligned(ImageSize(OVERSIZED)) by { ExtentIsAligned(OVERSIZED); }
  }

  lemma ExtentIsAligned(pe: Image)
    ensures Extent(pe) == Aligned(ImageSize(pe))
  {}

  // ----- Who ends up where

  /** A loaded module: its image, its bases, and its entry point as far above the base as the image says. */
  ghost predicate Stands(m: LoadedModule, name: string, pe: Image, pBase: nat, vBase: nat) {
    && m.name == name && m.pe == pe && m.pBase == pBase && m.vBase == vBase && m.size == ImageSize(pe)
    && (pe.entryPoint >= pe.imageBase ==> m.entry == vBase + (pe.entryPoint - pe.imageBase))
  }

  lemma StepLoads(st: State, job: Job)
    requires Step(st, job).1.Done?
    ensures |Step(st, job).0.modules| == |st.modules| + 1 && st.modules <= Step(st, job).0.modules
    ensures var loaded := Step(st, job).0.modules[|st.modules|];
            && loaded.pe == job.pe && loaded.pBase == st.p && End(loaded) == st.p + Extent(job.pe)
            && loaded.vBase == (if job.fixed.Some? then job.fixed.value else st.v)
            && LoadImage(st.mem, job.pe, st.p, loaded.vBase).1.Done?
            && Step(st, job).0.mem == LoadImage(st.mem, job.pe, st.p, loaded.vBase).0
            && Stands(loaded, job.name, job.pe, st.p, loaded.vBase)
    ensures var st' := Step(st, job).0;
            && st'.p == (if job.IsKernel() then HAL_PBASE else st.p + Extent(job.pe))
            && st'.v == (if job.fixed.Some? then st.v else st.v + Extent(job.pe))
  {
    hide CopyImage, ImageSize, Relocate, RelocationOutcome;
    EntryAbove(job.pe);
  }

  lemma EntryAbove(pe: Pe)
    ensures pe.entryPoint >= pe.imageBase ==> (pe.entryPoint - pe.imageBase) % TWO64 == pe.entryPoint - pe.imageBase
  {}

  lemma RoomBefore(jobs: seq<Job>, k: nat)
    requires k < |jobs|
    ensures TotalExtent(jobs[..k]) == if k == 0 then 0 else Extent(jobs[0].pe) + TotalExtent(jobs[1..][..k - 1])
  {
    hide Extent;
    if k > 0 { assert jobs[..k][0] == jobs[0] && jobs[..k][1..] == jobs[1..][..k - 1]; }
  }

  /** Drivers stand one behind the other, in physical and in virtual memory. */
  lemma {:induction false} DriversInOrder(st: State, drivers: seq<Job>)
    requires Run(st, drivers).1.Done? && forall j :: j in drivers ==> j.fixed.None?
    ensures var st' := Run(st, drivers).0;
            && |st'.modules| == |st.modules| + |drivers| && st.modules <= st'.modules
            && forall k :: 0 <= k < |drivers| ==>
                 var room := TotalExtent(drivers[..k]);
                 Stands(st'.modules[|st.modules| + k], drivers[k].name, drivers[k].pe, st.p + room, st.v + room)
    decreases drivers
  {
    hide Step, Stands, LoadImage, Extent, TotalExtent;
    if drivers != [] {
      var job, rest, st1 := drivers[0], drivers[1..], Step(st, drivers[0]).0;
      assert job in drivers && forall j :: j in rest ==> j in drivers;
      StepLoads(st, job);
      DriversInOrder(st1, rest);
      forall k | 0 <= k < |drivers|
        ensures var room := TotalExtent(drivers[..k]);
                Stands(Run(st, drivers).0.modules[|st.modules| + k],
                       drivers[k].name, drivers[k].pe, st.p + room, st.v + room)
      {
        RoomBefore(drivers, k);
      }
    }
  }

  /**
   A completed directory, from the kernel's place: kernel and HAL first, at their bases; the debugger
   modules behind the HAL at theirs; then the drivers, one behind the other from the drivers' base.
   */
  ghost predicate InPlace(ms: seq<LoadedModule>, kernel: Image, hal: Image, kd: Image, kdcom: Image,
                          kVBase: u64, drivers: seq<Job>) {
    var behindHal := 0x200_0000 + Extent(hal);
    var behindKd := behindHal + Extent(kd);
    var behindKdcom := behindKd + Extent(kdcom);
    && |ms| == 4 + |drivers|
    && Stands(ms[0], "ntoskrnl.exe", kernel, 0x20_0000, kVBase)
    && Stands(ms[1], "hal.dll", hal, 0x200_0000, 0xFFFF_F800_0200_0000)
    && Stands(ms[2], "kd.dll", kd, behindHal, 0xFFFF_F800_0060_0000)
    && Stands(ms[3], "kdcom.dll", kdcom, behindKd, 0xFFFF_F800_0080_0000)
    && forall k :: 0 <= k < |drivers| ==>
         var room := TotalExtent(drivers[..k]);
         Stands(ms[4 + k], drivers[k].name, drivers[k].pe, behindKdcom + room, 0xFFFF_F800_4000_0000 + room)
  }

  lemma RunOfFour(st: State, a: Job, b: Job, c: Job, d: Job, rest: seq<Job>)
    requires Run(st, [a, b, c, d] + rest).1.Done?
    ensures Step(st, a).1.Done? && Step(Step(st, a).0, b).1.Done?
    ensures var st2 := Step(Step(st, a).0, b).0;
            && Step(st2, c).1.Done? && Step(Step(st2, c).0, d).1.Done?
            && Run(st, [a, b, c, d] + rest) == Run(Step(Step(st2, c).0, d).0, rest)
  {
    hide Step, Run;
    assert [a, b, c, d] + rest == [a] + ([b] + ([c] + ([d] + rest)));
    RunOfCons(st, a, [b] + ([c] + ([d] + rest)));
    RunOfCons(Step(st, a).0, b, [c] + ([d] + rest));
    RunOfCons(Step(Step(st, a).0, b).0, c, [d] + rest);
    RunOfCons(Step(Step(Step(st, a).0, b).0, c).0, d, rest);
  }

  lemma RunOfCons(st: State, job: Job, rest: seq<Job>)
    requires Run(st, [job] + rest).1.Done?
    ensures Step(st, job).1.Done? && Run(st, [job] + rest) == Run(Step(st, job).0, rest)
  {
    hide Step;
    assert ([job] + rest)[1..] == rest;
  }

  lemma PlanInPlace(m: seq<byte>, kernel: Image, hal: Image, kd: Image, kdcom: Image, kVBase: u64, drivers: seq<Job>)
    requires Run(Start(m), Plan(kernel, hal, kd, kdcom, kVBase, drivers)).1.Done?
    requires forall j :: j in drivers ==> j.fixed.None?
    ensures InPlace(Run(Start(m), Plan(kernel, hal, kd, kdcom, kVBase, drivers)).0.modules,
                    kernel, hal, kd, kdcom, kVBase, drivers)
  {
    hide Step, Run, Stands, LoadImage, Extent;
    var jobs := Plan(kernel, hal, kd, kdcom, kVBase, drivers);
    var a, b, c, d := jobs[0], jobs[1], jobs[2], jobs[3];
    assert jobs == [a, b, c, d] + drivers;
    RunOfFour(Start(m), a, b, c, d, drivers);
    var st1 := Step(Start(m), a).0;
    var st2 := Step(st1, b).0;
    var st3 := Step(st2, c).0;
    StepLoads(Start(m), a);
    StepLoads(st1, b);
    StepLoads(st2, c);
    StepLoads(st3, d);
    DriversInOrder(Step(st3, d).0, drivers);
  }

  // ----- The loader block, which the cursor does not know about

  /** The room a list of images takes. */
  function TotalExtent(jobs: seq<Job>): nat {
    if jobs == [] then 0 else Extent(jobs[0].pe) + TotalExtent(jobs[1..])
  }

  /** A completed run without the kernel moves the cursor by the extents; the last module ends where it stands. */
  lemma {:induction false} RunMovesCursor(st: State, jobs: seq<Job>)
    requires Run(st, jobs).1.Done? && forall j :: j in jobs ==> !j.IsKernel()
    ensures var st' := Run(st, jobs).0;
            && st'.p == st.p + TotalExtent(jobs) && |st'.modules| == |st.modules| + |jobs|
            && (forall i :: |st.modules| <= i < |st'.modules| ==> End(st'.modules[i]) <= st'.p)
            && (jobs != [] ==> End(st'.modules[|st'.modules| - 1]) == st'.p)
            && st.modules <= st'.modules
    decreases jobs
  {
    hide LoadImage, ImageSize, Aligned;
    if jobs != [] {
      var st1 := Step(st, jobs[0]).0;
      assert jobs[0] in jobs && forall j :: j in jobs[1..] ==> j in jobs;
      RunMovesCursor(st1, jobs[1..]);
      hide Step;
      assert Run(st, jobs).0.modules[|st.modules|] == st1.modules[|st.modules|];
    }
  }

  /** The images behind the kernel. */
  ghost predicate BelowLoaderBlock(modules: seq<LoadedModule>) {
    forall i :: 1 <= i < |modules| ==> End(modules[i]) <= LPB_PBASE
  }

  /**
   The loader never checks its cursor against the loader block, which main writes afterwards: the images
   behind the kernel stay below it if and only if their extents come to at most 32 MB.
   */
  lemma ImagesMustFitBelowLoaderBlock(m: seq<byte>, kernel: Job, rest: seq<Job>)
    requires kernel.IsKernel() && forall j :: j in rest ==> !j.IsKernel()
    requires Run(Start(m), [kernel] + rest).1.Done?
    ensures var st := Run(Start(m), [kernel] + rest).0;
            && st.p == HAL_PBASE + TotalExtent(rest)
            && (BelowLoaderBlock(st.modules) <==> TotalExtent(rest) <= 0x200_0000)
  {
    hide LoadImage, ImageSize, Aligned, TotalExtent;
    assert ([kernel] + rest)[1..] == rest;
    var st1 := Step(Start(m), kernel).0;
    assert st1.p == HAL_PBASE && |st1.modules| == 1;
    hide Step;
    RunMovesCursor(st1, rest);
    NoRoomNeeded();
  }

  lemma NoRoomNeeded()
    ensures TotalExtent([]) == 0
  {}

  lemma {:induction false} ExtentsAddUp(jobs: seq<Job>)
    requires forall j :: j in jobs ==> ImageSize(j.pe) > 0
    ensures TotalExtent(jobs) >= |jobs| * EXTENT
    decreases jobs
  {
    hide ImageSize;
    if jobs != [] {
      assert jobs[0] in jobs && forall j :: j in jobs[1..] ==> j in jobs;
      ExtentsAddUp(jobs[1..]);
      assert Aligned(ImageSize(jobs[0].pe)) >= EXTENT;
    }
  }

  /** With seventeen images of any size behind the kernel, the last ones lie over the loader block or above it. */
  lemma SeventeenImagesReachLoaderBlock(m: seq<byte>, kernel: Job, rest: seq<Job>)
    requires kernel.IsKernel() && forall j :: j in rest ==> !j.IsKernel() && ImageSize(j.pe) > 0
    requires Run(Start(m), [kernel] + rest).1.Done? && |rest| > 16
    ensures !BelowLoaderBlock(Run(Start(m), [kernel] + rest).0.modules)
  {
    hide Run, ImageSize, BelowLoaderBlock;
    ImagesMustFitBelowLoaderBlock(m, kernel, rest);
    ExtentsAddUp(rest);
  }

  /** The virtual and physical cursors move together: one constant separates them for all drivers. */
  lemma {:induction false} DriversShareOffset(st: State, jobs: seq<Job>)
    requires forall j :: j in jobs ==> j.fixed.None?
    ensures var st' := Run(st, jobs).0;
            && st.modules <= st'.modules && st'.v - st'.p == st.v - st.p
            && forall i :: |st.modules| <= i < |st'.modules| ==>
                             st'.modules[i].vBase - st'.modules[i].pBase == st.v - st.p
    decreases jobs
  {
    hide LoadImage;
    hide Extent;
    hide ImageSize;
    if jobs != [] {
      var (st1, r) := Step(st, jobs[0]);
      assert jobs[0] in jobs;
      if r.Done? { DriversShareOffset(st1, jobs[1..]); }
    }
  }
}

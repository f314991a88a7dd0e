/** `setup_kernel_paging`: the writes that build the tables, in the program's order. */
module PagingSetup {
  import opened Words
  import opened Bits
  import opened GuestMemory
  import opened PageWalk
  import opened PageTables

  /** The paging region as 64-bit words. */
  ghost function Region(m: seq<byte>): (r: seq<u64>)
    requires |m| == MEM_SIZE
    ensures |r| == SLOTS
    ensures forall k :: 0 <= k < SLOTS ==> r[k] == Slot(m, k)
  {
    seq(SLOTS, k requires 0 <= k < SLOTS => Slot(m, k))
  }

  ghost predicate OutsideUntouched(m: seq<byte>, m': seq<byte>) {
    SameOutside(m, m', PAGING, PAGING + PAGING_SIZE)
  }

  lemma PutSlot(m: seq<byte>, k: nat, e: u64)
    requires |m| == MEM_SIZE && k < SLOTS
    ensures var m' := PutWord(m, PAGING + 8 * k, e);
            Region(m') == Region(m)[k := e] && OutsideUntouched(m, m')
  {
    WordAfterPut(m, PAGING + 8 * k, e);
  }

  /** Stores table entry `e` in slot `k`. */
  method PutEntry(vm: Vm, address: nat, e: u64, ghost k: nat)
    requires vm.Valid() && k < SLOTS && address == PAGING + 8 * k
    modifies vm.mem
    ensures Region(vm.Contents()) == Region(old(vm.Contents()))[k := e]
    ensures OutsideUntouched(old(vm.Contents()), vm.Contents())
  {
    PutSlot(vm.Contents(), k, e);
    var ok := vm.WriteMemory(address, ToLe(e, 8));
  }

  /** A frame or table address with flag bits below it. */
  function Flagged(base: u64, flags: nat): (e: u64)
    requires base % 256 == 0 && flags < 256
    ensures e == base + flags
  {
    PowersUsed();
    OrIsSum(base, flags, 8);
    Or(base, flags)
  }

  function NoExecute(e: u64): (r: u64)
    requires e < NX
    ensures r == e + NX
  {
    PowersUsed();
    OrIsSum(NX, e, 63);
    Or(e, NX)
  }

  /** A 2 MB page of the identity, HAL or stack windows. */
  function LargePage(base: nat, j: nat): (e: u64)
    requires base % SIZE_2M == 0 && base < 0x1_0000_0000 && j < 512
    ensures e == base + j * SIZE_2M + 0x83
  {
    assert base + j * SIZE_2M == (base / SIZE_2M + j) * 0x2000 * 256;
    Flagged(base + j * SIZE_2M, 0x83)
  }

  lemma ClearedRegion(m: seq<byte>, zeros: seq<byte>, bridge: seq<byte>)
    requires |m| == MEM_SIZE
    requires |zeros| == PAGING_SIZE && forall i :: 0 <= i < |zeros| ==> zeros[i] == 0
    requires bridge == [0x0F, 0x01, 0xC1]
    ensures var r := Region(Splice(Splice(m, PAGING, zeros), BRIDGE, bridge));
            forall k :: 0 <= k < SLOTS ==> r[k] == if k == 0xA000 then 0xC1_010F else 0
    ensures OutsideUntouched(m, Splice(Splice(m, PAGING, zeros), BRIDGE, bridge))
  {
    hide Splice, Slot;
    var m' := Splice(Splice(m, PAGING, zeros), BRIDGE, bridge);
    forall x | PAGING <= x < PAGING + PAGING_SIZE
      ensures m'[x] == if BRIDGE <= x < BRIDGE + 3 then bridge[x - BRIDGE] else 0
    {}
    forall k | 0 <= k < SLOTS
      ensures Slot(m', k) == if k == 0xA000 then 0xC1_010F else 0
    {
      if k == 0xA000 { BridgeSlot(m'); } else { ZeroSlot(m', k); }
    }
  }

  lemma ZeroSlot(m: seq<byte>, k: nat)
    requires |m| == MEM_SIZE && k < SLOTS
    requires forall x | PAGING + 8 * k <= x < PAGING + 8 * k + 8 :: m[x] == 0
    ensures Slot(m, k) == 0
  {
    var a := PAGING + 8 * k;
    var w := m[a..a + 8];
    assert forall i :: 0 <= i < 8 ==> w[i] == m[a + i];
    FromLeOfZeros(w);
  }

  lemma BridgeSlot(m: seq<byte>)
    requires |m| == MEM_SIZE && m[BRIDGE] == 0x0F && m[BRIDGE + 1] == 0x01 && m[BRIDGE + 2] == 0xC1
    requires forall x | BRIDGE + 3 <= x < BRIDGE + 8 :: m[x] == 0
    ensures Slot(m, 0xA000) == 0xC1_010F
  {
    assert m[BRIDGE..BRIDGE + 8] == [0x0F, 0x01, 0xC1, 0, 0, 0, 0, 0];
    BridgeWord();
  }

  lemma BridgeWord()
    ensures FromLe([0x0F, 0x01, 0xC1, 0, 0, 0, 0, 0]) == 0xC1_010F
  {
    var w: seq<byte> := [0x0F, 0x01, 0xC1, 0, 0, 0, 0, 0];
    assert w[1..] == [0x01, 0xC1, 0, 0, 0, 0, 0] && w[1..][1..] == [0xC1, 0, 0, 0, 0, 0];
    assert w[1..][1..][1..] == [0, 0, 0, 0, 0];
    FromLeOfZeros([0, 0, 0, 0, 0]);
  }

  method ClearRegion(vm: Vm)
    requires vm.Valid()
    modifies vm.mem
    ensures forall k :: 0 <= k < SLOTS ==> Region(vm.Contents())[k] == if k == 0xA000 then 0xC1_010F else 0
    ensures OutsideUntouched(old(vm.Contents()), vm.Contents())
  {
    var zeros: seq<byte> := seq(PAGING_SIZE, i => 0);
    ClearedRegion(vm.Contents(), zeros, [0x0F, 0x01, 0xC1]);
    var ok := vm.WriteMemory(PAGING, zeros);
    ok := vm.WriteMemory(BRIDGE, [0x0F, 0x01, 0xC1]);
  }

  method LinkPml4(vm: Vm)
    requires vm.Valid()
    modifies vm.mem
    ensures OutsideUntouched(old(vm.Contents()), vm.Contents())
    ensures forall k | 0 <= k < SLOTS :: Region(vm.Contents())[k] ==
              if 0x400 <= k < 0x600 && Pml4Word(k - 0x400) != 0 then Pml4Word(k - 0x400)
              else Region(old(vm.Contents()))[k]
  {
    hide Flagged;
    hide NoExecute;
    hide LargePage;
    PutEntry(vm, PML4 + 496 * 8, Flagged(PDPT_HIGH, 0x3), 0x400 + 496);
    PutEntry(vm, PML4 + 511 * 8, Flagged(PDPT_HIGH, 0x3), 0x400 + 511);
    PutEntry(vm, PML4, Flagged(PDPT_LOW, 0x3), 0x400);
    PutEntry(vm, PML4 + 509 * 8, NoExecute(Flagged(PDPT_STACK, 0x3)), 0x400 + 509);
    PutEntry(vm, PML4 + 495 * 8, Flagged(PDPT_USER, 0x7), 0x400 + 495);
    PutEntry(vm, PML4 + 493 * 8, Flagged(PML4, 0x3), 0x400 + 493);
  }

  /** Fills `count` consecutive slots from `first` with 2 MB pages from `base`. */
  method FillLargePages(vm: Vm, table: nat, index: nat, count: nat, base: nat, nx: bool, ghost first: nat)
    requires vm.Valid() && table + index * 8 == PAGING + 8 * first && first + count <= SLOTS
    requires count <= 512 && base % SIZE_2M == 0 && base < 0x1_0000_0000
    modifies vm.mem
    ensures OutsideUntouched(old(vm.Contents()), vm.Contents())
    ensures forall k | 0 <= k < SLOTS :: Region(vm.Contents())[k] ==
              if first <= k < first + count then base + (k - first) * SIZE_2M + 0x83 + (if nx then NX else 0)
              else Region(old(vm.Contents()))[k]
  {
    hide Flagged;
    hide NoExecute;
    hide LargePage;
    for j := 0 to count
      invariant OutsideUntouched(old(vm.Contents()), vm.Contents())
      invariant forall k | 0 <= k < SLOTS :: Region(vm.Contents())[k] ==
                  if first <= k < first + j then base + (k - first) * SIZE_2M + 0x83 + (if nx then NX else 0)
                  else Region(old(vm.Contents()))[k]
    {
      var e := LargePage(base, j);
      PutEntry(vm, table + (index + j) * 8, if nx then NoExecute(e) else e, first + j);
    }
  }

  method MapKernelAndHal(vm: Vm, halBase: u64)
    requires vm.Valid()
    modifies vm.mem
    ensures OutsideUntouched(old(vm.Contents()), vm.Contents())
    ensures var h := HalIndex(halBase);
            forall k | 0 <= k < SLOTS ::
              Region(vm.Contents())[k] ==
              if k == 0x600 then PD_KERNEL + 3
              else if k == 0x601 then PD_HAL + 3
              else if 0x1A00 <= k < 0x1C00 then (k - 0x1A00) * SIZE_2M + 0x83
              else if 0x2800 + h <= k < 0x2800 + h + 32 then HAL_PBASE + (k - 0x2800 - h) * SIZE_2M + 0x83
              else Region(old(vm.Contents()))[k]
  {
    hide Flagged;
    hide NoExecute;
    hide LargePage;
    PutEntry(vm, PDPT_HIGH, Flagged(PD_KERNEL, 0x3), 0x600);
    PutEntry(vm, PDPT_HIGH + 8, Flagged(PD_HAL, 0x3), 0x601);
    FillLargePages(vm, PD_KERNEL, 0, 512, 0, false, 0x1A00);
    IndexBits(halBase);
    var halIndex := And(Shr(halBase, 21), 0x1FF);
    FillLargePages(vm, PD_HAL, halIndex, 32, HAL_PBASE, false, 0x2800 + halIndex);
  }

  method MapMmio(vm: Vm)
    requires vm.Valid()
    modifies vm.mem
    ensures OutsideUntouched(old(vm.Contents()), vm.Contents())
    ensures forall k | 0 <= k < SLOTS :: Region(vm.Contents())[k] ==
              if k == 0x603 then PD_MMIO + 3
              else if 0xC000 + 502 <= k <= 0xC000 + 504 then MmioPdWord(k - 0xC000)
              else if k == 0xC200 || k == 0xC300 then IoapicPtWord(k - 0xC200)
              else if k == 0xC400 then 0xFEE0_0000 + 0x1B + NX
              else Region(old(vm.Contents()))[k]
  {
    hide Flagged;
    hide NoExecute;
    hide LargePage;
    PutEntry(vm, PDPT_HIGH + 3 * 8, Flagged(PD_MMIO, 0x3), 0x603);
    PutEntry(vm, PD_MMIO + 502 * 8, Flagged(PT_IOAPIC, 0x3), 0xC000 + 502);
    PutEntry(vm, PD_MMIO + 503 * 8, Flagged(PT_HPET, 0x3), 0xC000 + 503);
    PutEntry(vm, PD_MMIO + 504 * 8, Flagged(PT_APIC, 0x3), 0xC000 + 504);
    PutEntry(vm, PT_IOAPIC, NoExecute(Flagged(0xFEC0_0000, 0x1B)), 0xC200);
    PutEntry(vm, PT_HPET, NoExecute(Flagged(0xFED0_0000, 0x1B)), 0xC300);
    PutEntry(vm, PT_APIC, NoExecute(Flagged(0xFEE0_0000, 0x1B)), 0xC400);
  }

  method MapStackAndUser(vm: Vm)
    requires vm.Valid()
    modifies vm.mem
    ensures OutsideUntouched(old(vm.Contents()), vm.Contents())
    ensures forall k | 0 <= k < SLOTS :: Region(vm.Contents())[k] ==
              if k == 0x800 then PD_STACK + 3 + NX
              else if 0x1600 <= k < 0x1800 then STACK_PBASE + (k - 0x1600) * SIZE_2M + 0x83 + NX
              else if k == 0xA00 then PD_USER + 7
              else if k == 0x1800 then PT_USER + 7
              else if k == 0x2A00 then KUSER_PBASE + 7
              else Region(old(vm.Contents()))[k]
  {
    hide Flagged;
    hide NoExecute;
    hide LargePage;
    PutEntry(vm, PDPT_STACK, NoExecute(Flagged(PD_STACK, 0x3)), 0x800);
    FillLargePages(vm, PD_STACK, 0, 512, STACK_PBASE, true, 0x1600);
    PutEntry(vm, PDPT_USER, Flagged(PD_USER, 0x7), 0xA00);
    PutEntry(vm, PD_USER, Flagged(PT_USER, 0x7), 0x1800);
    PutEntry(vm, PT_USER, Flagged(KUSER_PBASE, 0x7), 0x2A00);
  }

  /** What the phases leave in slot `k`, last writer first. */
  function Layered(k: nat, h: nat): u64
    requires k < SLOTS && h < 512
  {
    if k == 0x800 then PD_STACK + 3 + NX
    else if 0x1600 <= k < 0x1800 then STACK_PBASE + (k - 0x1600) * SIZE_2M + 0x83 + NX
    else if k == 0xA00 then PD_USER + 7
    else if k == 0x1800 then PT_USER + 7
    else if k == 0x2A00 then KUSER_PBASE + 7
    else if k == 0x603 then PD_MMIO + 3
    else if 0xC000 + 502 <= k <= 0xC000 + 504 then MmioPdWord(k - 0xC000)
    else if k == 0xC200 || k == 0xC300 then IoapicPtWord(k - 0xC200)
    else if k == 0xC400 then 0xFEE0_0000 + 0x1B + NX
    else if k == 0x600 then PD_KERNEL + 3
    else if k == 0x601 then PD_HAL + 3
    else if 0x1A00 <= k < 0x1C00 then (k - 0x1A00) * SIZE_2M + 0x83
    else if 0x2800 + h <= k < 0x2800 + h + 32 then HAL_PBASE + (k - 0x2800 - h) * SIZE_2M + 0x83
    else if 0x400 <= k < 0x600 && Pml4Word(k - 0x400) != 0 then Pml4Word(k - 0x400)
    else if k == 0xA000 then 0xC1_010F
    else 0
  }

  lemma LayeredIsTableWord(k: nat, h: nat)
    requires k < SLOTS && h < 512
    ensures Layered(k, h) == TableWord(k, h)
  {
    var page := k / 512;
    assert page * 512 <= k < page * 512 + 512;
  }

  /** The build: no later write of the sequence clobbers an earlier one, except the spill TableWord shows. */
  method SetupKernelPaging(vm: Vm, halBase: u64)
    requires vm.Valid()
    modifies vm.mem
    ensures TablesBuilt(vm.Contents(), HalIndex(halBase))
    ensures OutsideUntouched(old(vm.Contents()), vm.Contents())
  {
    ClearRegion(vm);
    LinkPml4(vm);
    MapKernelAndHal(vm, halBase);
    MapMmio(vm);
    MapStackAndUser(vm);
    ghost var h := HalIndex(halBase);
    assert forall k :: 0 <= k < SLOTS ==> Region(vm.Contents())[k] == Layered(k, h);
    forall k | 0 <= k < SLOTS
      ensures Slot(vm.Contents(), k) == TableWord(k, h)
    {
      LayeredIsTableWord(k, h);
      assert Region(vm.Contents())[k] == Layered(k, h);
    }
  }
}

/** The tables `setup_kernel_paging` builds, word by word, and what they make of every address. */
module PageTables {
  import opened Words
  import opened GuestMemory
  import opened PageWalk
  import Bits
  import SelfMap

  const SYSTEM_BASE := 0x800_0000
  const KUSER_PBASE := 0x900_0000
  const STACK_PBASE := 0xA00_0000

  const K_VIRT := 0xFFFF_F800_0000_0000
  const KRNL_VBASE := K_VIRT + KRNL_PBASE
  const STACK_VIRT := 0xFFFF_FE80_0000_0000
  const KUSER_VIRT := 0xFFFF_F780_0000_0000

  const PAGING := SYSTEM_BASE + 0x10_0000
  const PAGING_SIZE := 0x8_0000
  const SLOTS := 0x1_0000

  const PML4 := PAGING + 0x2000
  const PDPT_HIGH := PAGING + 0x3000
  const PDPT_STACK := PAGING + 0x4000
  const PDPT_USER := PAGING + 0x5000
  const PDPT_LOW := PAGING + 0x6000
  const PD_STACK := PAGING + 0xB000
  const PD_USER := PAGING + 0xC000
  const PD_KERNEL := PAGING + 0xD000
  const PD_HAL := PAGING + 0x1_4000
  const PT_USER := PAGING + 0x1_5000
  const BRIDGE := PAGING + 0x5_0000
  const PD_MMIO := PAGING + 0x6_0000
  const PT_IOAPIC := PAGING + 0x6_1000
  const PT_HPET := PAGING + 0x6_1800
  const PT_APIC := PAGING + 0x6_2000

  const NX := 0x8000_0000_0000_0000

  /** cr3 as the vCPU setup loads it. */
  const CR3 := SYSTEM_BASE + 0x10_0000 + 0x2000

  /** The page-directory index of the HAL's base address. */
  function HalIndex(halBase: nat): (h: nat)
    ensures h < 512
  {
    halBase / SIZE_2M % 512
  }

  /** Word `k` of the 512 KB paging region. */
  function Slot(m: seq<byte>, k: nat): u64
    requires k < SLOTS && |m| == MEM_SIZE
  {
    Word64(m, PAGING + 8 * k)
  }

  function Pml4Word(i: nat): u64 {
    if i == 496 || i == 511 then PDPT_HIGH + 3
    else if i == 0 then PDPT_LOW + 3
    else if i == 509 then PDPT_STACK + 3 + NX
    else if i == 495 then PDPT_USER + 7
    else if i == 493 then PML4 + 3
    else 0
  }

  function HighWord(i: nat): u64 {
    if i == 0 then PD_KERNEL + 3 else if i == 1 then PD_HAL + 3 else if i == 3 then PD_MMIO + 3 else 0
  }

  /** PD_HAL and the page table right behind it, as one run of words: the HAL window may spill over. */
  function HalWord(i: nat, h: nat): u64
    requires h < 512
  {
    if i == 512 then KUSER_PBASE + 7
    else if h <= i < h + 32 then HAL_PBASE + (i - h) * SIZE_2M + 0x83
    else 0
  }

  function MmioPdWord(i: nat): u64 {
    if i == 502 then PT_IOAPIC + 3 else if i == 503 then PT_HPET + 3 else if i == 504 then PT_APIC + 3 else 0
  }

  function IoapicPtWord(i: nat): u64 {
    if i == 0 then 0xFEC0_0000 + 0x1B + NX else if i == 256 then 0xFED0_0000 + 0x1B + NX else 0
  }

  /** Entry `i` of page `page` of the region after the build, for HAL index `h`. */
  function TableEntry(page: nat, i: nat, h: nat): u64
    requires i < 512 && h < 512
  {
    if page == 0x02 then Pml4Word(i)
    else if page == 0x03 then HighWord(i)
    else if page == 0x04 then (if i == 0 then PD_STACK + 3 + NX else 0)
    else if page == 0x05 then (if i == 0 then PD_USER + 7 else 0)
    else if page == 0x0B then STACK_PBASE + i * SIZE_2M + 0x83 + NX
    else if page == 0x0C then (if i == 0 then PT_USER + 7 else 0)
    else if page == 0x0D then i * SIZE_2M + 0x83
    else if page == 0x14 then HalWord(i, h)
    else if page == 0x15 then HalWord(512 + i, h)
    else if page == 0x50 then (if i == 0 then 0xC1_010F else 0)
    else if page == 0x60 then MmioPdWord(i)
    else if page == 0x61 then IoapicPtWord(i)
    else if page == 0x62 then (if i == 0 then 0xFEE0_0000 + 0x1B + NX else 0)
    else 0
  }

  /** What word `k` of the region holds after the build. */
  function TableWord(k: nat, h: nat): u64
    requires k < SLOTS && h < 512
  {
    TableEntry(k / 512, k % 512, h)
  }

  ghost predicate TablesBuilt(m: seq<byte>, h: nat)
    requires h < 512
  {
    |m| == MEM_SIZE && forall k :: 0 <= k < SLOTS ==> Slot(m, k) == TableWord(k, h)
  }

  lemma BuiltSize(m: seq<byte>, h: nat)
    requires h < 512 && TablesBuilt(m, h)
    ensures |m| == MEM_SIZE
  {}

  /** Writes that stay out of the paging region leave the tables built. */
  lemma TablesStayBuilt(m: seq<byte>, m': seq<byte>, h: nat)
    requires h < 512 && TablesBuilt(m, h) && |m'| == |m|
    requires forall i :: PAGING <= i < PAGING + PAGING_SIZE ==> m'[i] == m[i]
    ensures TablesBuilt(m', h)
  {
    forall k | 0 <= k < SLOTS
      ensures Slot(m', k) == TableWord(k, h)
    {
      SameWord(m, m', PAGING + 8 * k);
      assert Slot(m, k) == TableWord(k, h);
    }
  }

  // ----- The meaning of the built tables

  /** Entry `i` of the table in page `page` of the region. */
  lemma FetchBuilt(m: seq<byte>, h: nat, page: nat, i: nat)
    requires h < 512 && TablesBuilt(m, h) && page < 128 && i < 512
    ensures var w := TableEntry(page, i, h);
            Fetch(m, PAGING + page * 0x1000, i) == if Present(w) then Some(w) else None
  {
    var k := page * 512 + i;
    assert k / 512 == page && k % 512 == i;
    assert Slot(m, k) == TableWord(k, h);
    assert PAGING + page * 0x1000 + i * 8 == PAGING + 8 * k;
  }

  // The tables one, two and three indices lead to; through the self slot, those one index less leads to

  function TopTable(i4: nat): Option<nat> {
    if i4 == 496 || i4 == 511 then Some(PDPT_HIGH)
    else if i4 == 0 then Some(PDPT_LOW)
    else if i4 == 509 then Some(PDPT_STACK)
    else if i4 == 495 then Some(PDPT_USER)
    else if i4 == SelfMap.SELF_INDEX then Some(PML4)
    else None
  }

  function MiddleTable(i4: nat, i3: nat): Option<nat> {
    if i4 == SelfMap.SELF_INDEX then TopTable(i3)
    else if i4 == 496 || i4 == 511 then
      if i3 == 0 then Some(PD_KERNEL) else if i3 == 1 then Some(PD_HAL) else if i3 == 3 then Some(PD_MMIO) else None
    else if i4 == 509 && i3 == 0 then Some(PD_STACK)
    else if i4 == 495 && i3 == 0 then Some(PD_USER)
    else None
  }

  /** A page table, or the frame of a 2 MB page. */
  function LowTable(i4: nat, i3: nat, i2: nat, h: nat): Option<nat>
    requires h < 512
  {
    if i4 == SelfMap.SELF_INDEX then MiddleTable(i3, i2)
    else if i4 == 496 || i4 == 511 then
      if i3 == 0 then Some(i2 * SIZE_2M)
      else if i3 == 1 && h <= i2 < h + 32 then Some(HAL_PBASE + (i2 - h) * SIZE_2M)
      else if i3 == 3 && (i2 == 502 || i2 == 503) then Some(PT_IOAPIC)
      else if i3 == 3 && i2 == 504 then Some(PT_APIC)
      else None
    else if i4 == 509 && i3 == 0 then Some(STACK_PBASE + i2 * SIZE_2M)
    else if i4 == 495 && i3 == 0 && i2 == 0 then Some(PT_USER)
    else None
  }

  /** The leaf at the end of path `t` in the built tables, as a closed form. */
  function DenoteLeaf(t: Path, h: nat): Option<Leaf>
    requires h < 512 && t.Valid()
  {
    if t.i4 == SelfMap.SELF_INDEX then
      match LowTable(t.i3, t.i2, t.i1, h)
      case None => None
      case Some(page) => Some(Leaf(page, Page4K))
    else if t.i4 == 496 || t.i4 == 511 then
      if t.i3 == 0 then Some(Leaf(t.i2 * SIZE_2M, Page2M))
      else if t.i3 == 1 && h <= t.i2 < h + 32 then Some(Leaf(HAL_PBASE + (t.i2 - h) * SIZE_2M, Page2M))
      else if t.i3 == 3 && (t.i2 == 502 || t.i2 == 503) && t.i1 == 0 then Some(Leaf(0xFEC0_0000, Page4K))
      else if t.i3 == 3 && (t.i2 == 502 || t.i2 == 503) && t.i1 == 256 then Some(Leaf(0xFED0_0000, Page4K))
      else if t.i3 == 3 && t.i2 == 504 && t.i1 == 0 then Some(Leaf(0xFEE0_0000, Page4K))
      else None
    else if t.i4 == 509 && t.i3 == 0 then Some(Leaf(STACK_PBASE + t.i2 * SIZE_2M, Page2M))
    else if t.i4 == 495 && t.i3 == 0 && t.i2 == 0 then
      if t.i1 == 0 then Some(Leaf(KUSER_PBASE, Page4K))
      else if 512 + t.i1 < h + 32 then Some(Leaf(HAL_PBASE + (512 + t.i1 - h) * SIZE_2M, Page4K))
      else None
    else None
  }

  /** What the built tables make of `v`. */
  function Denote(v: nat, h: nat): Option<nat>
    requires h < 512
  {
    Locate(DenoteLeaf(PathOf(v), h), v)
  }

  lemma TablesOfBuiltEntries()
    ensures Table(CR3) == PML4 && Table(PML4 + 3) == PML4
    ensures Table(PDPT_HIGH + 3) == PDPT_HIGH && Table(PDPT_LOW + 3) == PDPT_LOW
    ensures Table(PDPT_STACK + 3 + NX) == PDPT_STACK && Table(PDPT_USER + 7) == PDPT_USER
    ensures Table(PD_KERNEL + 3) == PD_KERNEL && Table(PD_HAL + 3) == PD_HAL && Table(PD_MMIO + 3) == PD_MMIO
    ensures Table(PD_STACK + 3 + NX) == PD_STACK && Table(PD_USER + 7) == PD_USER && Table(PT_USER + 7) == PT_USER
    ensures !Large(PD_USER + 7) && !Large(PT_USER + 7) && !Large(PD_MMIO + 3)
    ensures Table(PT_IOAPIC + 3) == PT_IOAPIC && Table(PT_HPET + 3) == PT_IOAPIC && Table(PT_APIC + 3) == PT_APIC
  {}

  lemma PagesOfBuiltEntries()
    ensures Page4K.Base(0xFEC0_0000 + 0x1B + NX) == 0xFEC0_0000 && Present(0xFEC0_0000 + 0x1B + NX)
    ensures Page4K.Base(0xFED0_0000 + 0x1B + NX) == 0xFED0_0000 && Present(0xFED0_0000 + 0x1B + NX)
    ensures Page4K.Base(0xFEE0_0000 + 0x1B + NX) == 0xFEE0_0000 && Present(0xFEE0_0000 + 0x1B + NX)
    ensures Page4K.Base(KUSER_PBASE + 7) == KUSER_PBASE && Present(KUSER_PBASE + 7)
  {
    hide PageSize.Base;
    DevicePage(0xFEC00);
    DevicePage(0xFED00);
    DevicePage(0xFEE00);
    SharedPage();
  }

  lemma DevicePage(j: nat)
    requires j < 0x10_0000
    ensures Page4K.Base(j * SIZE_4K + 0x1B + NX) == j * SIZE_4K && Present(j * SIZE_4K + 0x1B + NX)
  {
    var e := j * SIZE_4K + 0x1B + NX;
    Bits.ModIsUnique(e, 0x800, 0x10_0000_0000_0000, j * SIZE_4K + 0x1B);
    Bits.ModIsUnique(e, j * 0x800 + 0xD + 0x4000_0000_0000_0000, 2, 1);
    Mod4K(j, 0x1B);
  }

  lemma SharedPage()
    ensures Page4K.Base(KUSER_PBASE + 7) == KUSER_PBASE && Present(KUSER_PBASE + 7)
  {}

  /** Frame number `j` of 2 MB with flags 0x83. */
  lemma LargeEntry(j: nat)
    requires j < 2048
    ensures var e := j * SIZE_2M + 0x83;
            Present(e) && Large(e) && Page2M.Base(e) == j * SIZE_2M && Page4K.Base(e) == j * SIZE_2M
  {
    var e := j * SIZE_2M + 0x83;
    Bits.BitOfSum(e, j * 0x10_0000, 1, 0x83);
    Bits.BitOfSum(e, j * 0x2000, 128, 0x83);
    Bits.ModIsUnique(e, 0, 0x10_0000_0000_0000, e);
    Bits.ModIsUnique(e, j, SIZE_2M, 0x83);
    Bits.ModIsUnique(e, j * 512, SIZE_4K, 0x83);
  }

  lemma LargeEntryNx(j: nat)
    requires j < 2048
    ensures var e := j * SIZE_2M + 0x83 + NX;
            Present(e) && Large(e) && Page2M.Base(e) == j * SIZE_2M
  {
    LargeEntry(j);
    NxIsHigh(j * SIZE_2M + 0x83);
  }

  lemma NxIsHigh(e: nat)
    requires e < 0x10_0000_0000_0000
    ensures (e + NX) % 0x10_0000_0000_0000 == e
    ensures (e + NX) % 2 == e % 2 && (e + NX) / 128 % 2 == e / 128 % 2
  {
    assert (e + NX) / 128 == e / 128 + 0x100_0000_0000_0000;
  }

  // Below, one lemma per table: what entry the walk meets there

  lemma TopEntry(m: seq<byte>, h: nat, t: Path)
    requires h < 512 && TablesBuilt(m, h) && t.Valid()
    ensures Entry4(m, CR3, t) == if Pml4Word(t.i4) != 0 then Some(Pml4Word(t.i4)) else None
  {
    hide Fetch;
    TablesOfBuiltEntries();
    FetchBuilt(m, h, 0x02, t.i4);
  }

  lemma HighEntry(m: seq<byte>, h: nat, t: Path)
    requires h < 512 && TablesBuilt(m, h) && t.Valid() && (t.i4 == 496 || t.i4 == 511)
    ensures Entry3(m, CR3, t) == if HighWord(t.i3) != 0 then Some(HighWord(t.i3)) else None
  {
    hide Fetch;
    TopEntry(m, h, t);
    TablesOfBuiltEntries();
    FetchBuilt(m, h, 0x03, t.i3);
  }

  lemma LeafInKernelDirectory(m: seq<byte>, h: nat, t: Path)
    requires h < 512 && TablesBuilt(m, h) && t.Valid() && (t.i4 == 496 || t.i4 == 511) && t.i3 == 0
    ensures LeafOf(m, CR3, t) == DenoteLeaf(t, h)
  {
    hide Fetch;
    HighEntry(m, h, t);
    TablesOfBuiltEntries();
    FetchBuilt(m, h, 0x0D, t.i2);
    LargeEntry(t.i2);
    LeafFromDirectory(m, CR3, t, PD_KERNEL + 3, t.i2 * SIZE_2M + 0x83);
  }

  lemma LeafInHalDirectory(m: seq<byte>, h: nat, t: Path)
    requires h < 512 && TablesBuilt(m, h) && t.Valid() && (t.i4 == 496 || t.i4 == 511) && t.i3 == 1
    ensures LeafOf(m, CR3, t) == DenoteLeaf(t, h)
  {
    hide Fetch;
    HighEntry(m, h, t);
    TablesOfBuiltEntries();
    FetchBuilt(m, h, 0x14, t.i2);
    if h <= t.i2 < h + 32 {
      LargeEntry(16 + t.i2 - h);
      LeafFromDirectory(m, CR3, t, PD_HAL + 3, HAL_PBASE + (t.i2 - h) * SIZE_2M + 0x83);
    }
  }

  lemma MmioEntry(m: seq<byte>, h: nat, t: Path)
    requires h < 512 && TablesBuilt(m, h) && t.Valid() && (t.i4 == 496 || t.i4 == 511) && t.i3 == 3
    ensures Entry3(m, CR3, t) == Some(PD_MMIO + 3)
    ensures Entry2(m, CR3, t) == if MmioPdWord(t.i2) != 0 then Some(MmioPdWord(t.i2)) else None
  {
    hide Fetch;
    HighEntry(m, h, t);
    TablesOfBuiltEntries();
    FetchBuilt(m, h, 0x60, t.i2);
  }

  lemma MmioPage(m: seq<byte>, h: nat, i: nat)
    requires h < 512 && TablesBuilt(m, h) && i < 512
    ensures var e := Fetch(m, PT_IOAPIC, i);
            if i == 0 then e.Some? && Page4K.Base(e.value) == 0xFEC0_0000
            else if i == 256 then e.Some? && Page4K.Base(e.value) == 0xFED0_0000
            else e.None?
    ensures var e := Fetch(m, PT_APIC, i);
            if i == 0 then e.Some? && Page4K.Base(e.value) == 0xFEE0_0000 else e.None?
  {
    hide Fetch;
    PagesOfBuiltEntries();
    FetchBuilt(m, h, 0x61, i);
    FetchBuilt(m, h, 0x62, i);
  }

  lemma LeafInMmioDirectory(m: seq<byte>, h: nat, t: Path)
    requires h < 512 && TablesBuilt(m, h) && t.Valid() && (t.i4 == 496 || t.i4 == 511) && t.i3 == 3
    ensures LeafOf(m, CR3, t) == DenoteLeaf(t, h)
  {
    hide Fetch;
    MmioEntry(m, h, t);
    if 502 <= t.i2 <= 504 {
      LeafThroughMmio(m, h, t, MmioPdWord(t.i2));
    }
  }

  lemma LeafThroughMmio(m: seq<byte>, h: nat, t: Path, e2: u64)
    requires h < 512 && TablesBuilt(m, h) && t.Valid() && (t.i4 == 496 || t.i4 == 511) && t.i3 == 3
    requires Entry3(m, CR3, t) == Some(PD_MMIO + 3) && Entry2(m, CR3, t) == Some(e2)
    requires 502 <= t.i2 <= 504 && e2 == MmioPdWord(t.i2)
    ensures LeafOf(m, CR3, t) == DenoteLeaf(t, h)
  {
    hide Fetch;
    LeafFromDirectory(m, CR3, t, PD_MMIO + 3, e2);
    TablesOfBuiltEntries();
    MmioPage(m, h, t.i1);
  }

  lemma StackEntry(m: seq<byte>, h: nat, t: Path)
    requires h < 512 && TablesBuilt(m, h) && t.Valid() && t.i4 == 509
    ensures Entry3(m, CR3, t) == if t.i3 == 0 then Some(PD_STACK + 3 + NX) else None
  {
    hide Fetch;
    TopEntry(m, h, t);
    TablesOfBuiltEntries();
    FetchBuilt(m, h, 0x04, t.i3);
  }

  lemma LeafInStack(m: seq<byte>, h: nat, t: Path)
    requires h < 512 && TablesBuilt(m, h) && t.Valid() && t.i4 == 509
    ensures LeafOf(m, CR3, t) == DenoteLeaf(t, h)
  {
    hide Fetch;
    StackEntry(m, h, t);
    if t.i3 == 0 {
      TablesOfBuiltEntries();
      FetchBuilt(m, h, 0x0B, t.i2);
      LargeEntryNx(80 + t.i2);
      LeafFromDirectory(m, CR3, t, PD_STACK + 3 + NX, STACK_PBASE + t.i2 * SIZE_2M + 0x83 + NX);
    }
  }

  lemma UserEntry(m: seq<byte>, h: nat, t: Path)
    requires h < 512 && TablesBuilt(m, h) && t.Valid() && t.i4 == 495
    ensures Entry3(m, CR3, t) == if t.i3 == 0 then Some(PD_USER + 7) else None
  {
    hide Fetch;
    TopEntry(m, h, t);
    TablesOfBuiltEntries();
    FetchBuilt(m, h, 0x05, t.i3);
  }

  lemma UserPageTable(m: seq<byte>, h: nat, t: Path)
    requires h < 512 && TablesBuilt(m, h) && t.Valid() && t.i4 == 495
    ensures Entry2(m, CR3, t) == if t.i3 == 0 && t.i2 == 0 then Some(PT_USER + 7) else None
  {
    hide Fetch;
    UserEntry(m, h, t);
    if t.i3 == 0 {
      TablesOfBuiltEntries();
      FetchBuilt(m, h, 0x0C, t.i2);
    }
  }

  lemma UserPage(m: seq<byte>, h: nat, i: nat)
    requires h < 512 && TablesBuilt(m, h) && i < 512
    ensures var e := Fetch(m, PT_USER, i);
            if i == 0 then e.Some? && Page4K.Base(e.value) == KUSER_PBASE
            else if 512 + i < h + 32 then e.Some? && Page4K.Base(e.value) == HAL_PBASE + (512 + i - h) * SIZE_2M
            else e.None?
  {
    hide Fetch;
    PagesOfBuiltEntries();
    FetchBuilt(m, h, 0x15, i);
    if 0 < i && 512 + i < h + 32 { LargeEntry(16 + 512 + i - h); }
  }

  lemma LeafInUser(m: seq<byte>, h: nat, t: Path)
    requires h < 512 && TablesBuilt(m, h) && t.Valid() && t.i4 == 495
    ensures LeafOf(m, CR3, t) == DenoteLeaf(t, h)
  {
    hide Fetch;
    hide Large;
    hide Table;
    hide PageSize.Base;
    TablesOfBuiltEntries();
    UserEntry(m, h, t);
    UserPageTable(m, h, t);
    if t.i3 == 0 && t.i2 == 0 {
      LeafFromDirectory(m, CR3, t, PD_USER + 7, PT_USER + 7);
      UserPage(m, h, t.i1);
    }
  }

  lemma LeafElsewhere(m: seq<byte>, h: nat, t: Path)
    requires h < 512 && TablesBuilt(m, h) && t.Valid()
    requires t.i4 !in {493, 495, 496, 509, 511} || (t.i4 in {496, 511} && t.i3 !in {0, 1, 3})
    ensures LeafOf(m, CR3, t) == DenoteLeaf(t, h)
  {
    hide Fetch;
    TopEntry(m, h, t);
    if t.i4 == 0 {
      TablesOfBuiltEntries();
      FetchBuilt(m, h, 0x06, t.i3);
    } else if t.i4 == 496 || t.i4 == 511 {
      HighEntry(m, h, t);
    }
  }

  // The same level by level: the words a walk meets, zero where it meets none

  function MiddleWord(i4: nat, i3: nat): u64 {
    if i4 == SelfMap.SELF_INDEX then Pml4Word(i3)
    else if i4 == 496 || i4 == 511 then HighWord(i3)
    else if i4 == 509 && i3 == 0 then PD_STACK + 3 + NX
    else if i4 == 495 && i3 == 0 then PD_USER + 7
    else 0
  }

  function LowWord(i4: nat, i3: nat, i2: nat, h: nat): u64
    requires h < 512 && i2 < 512
  {
    if i4 == SelfMap.SELF_INDEX then MiddleWord(i3, i2)
    else if (i4 == 496 || i4 == 511) && i3 == 0 then i2 * SIZE_2M + 0x83
    else if (i4 == 496 || i4 == 511) && i3 == 1 then HalWord(i2, h)
    else if (i4 == 496 || i4 == 511) && i3 == 3 then MmioPdWord(i2)
    else if i4 == 509 && i3 == 0 then STACK_PBASE + i2 * SIZE_2M + 0x83 + NX
    else if i4 == 495 && i3 == 0 && i2 == 0 then PT_USER + 7
    else 0
  }

  function LastWord(t: Path, h: nat): u64
    requires h < 512 && t.Valid()
  {
    if t.i4 == SelfMap.SELF_INDEX then LowWord(t.i3, t.i2, t.i1, h)
    else if (t.i4 == 496 || t.i4 == 511) && t.i3 == 3 && (t.i2 == 502 || t.i2 == 503) then IoapicPtWord(t.i1)
    else if (t.i4 == 496 || t.i4 == 511) && t.i3 == 3 && t.i2 == 504 && t.i1 == 0 then 0xFEE0_0000 + 0x1B + NX
    else if t.i4 == 495 && t.i3 == 0 && t.i2 == 0 then HalWord(512 + t.i1, h)
    else 0
  }

  function Met(w: u64): Option<u64> { if w == 0 then None else Some(w) }

  lemma MiddleEntry(m: seq<byte>, h: nat, t: Path)
    requires h < 512 && TablesBuilt(m, h) && t.Valid()
    ensures Entry3(m, CR3, t) == Met(MiddleWord(t.i4, t.i3))
    ensures MiddleWord(t.i4, t.i3) != 0 ==> !Large(MiddleWord(t.i4, t.i3))
    ensures MiddleTable(t.i4, t.i3) == if MiddleWord(t.i4, t.i3) == 0 then None else Some(Table(MiddleWord(t.i4, t.i3)))
  {
    hide Fetch, Table;
    TopEntry(m, h, t);
    TablesOfBuiltEntries();
    if t.i4 == SelfMap.SELF_INDEX {
      FetchBuilt(m, h, 0x02, t.i3);
    } else if t.i4 == 496 || t.i4 == 511 {
      HighEntry(m, h, t);
    } else if t.i4 == 509 {
      StackEntry(m, h, t);
    } else if t.i4 == 495 {
      UserEntry(m, h, t);
    } else if t.i4 == 0 {
      FetchBuilt(m, h, 0x06, t.i3);
    }
  }
  lemma LowEntry(m: seq<byte>, h: nat, t: Path)
    requires h < 512 && TablesBuilt(m, h) && t.Valid()
    ensures Entry2(m, CR3, t) == Met(LowWord(t.i4, t.i3, t.i2, h))
  {
    hide Fetch, Table, Large;
    MiddleEntry(m, h, t);
    TablesOfBuiltEntries();
    if t.i4 == SelfMap.SELF_INDEX {
      var u := Path(t.i3, t.i2, t.i1, 0);
      TopEntry(m, h, t);
      MiddleEntry(m, h, u);
      MiddleThroughSelf(m, h, t);
    } else if t.i4 == 496 || t.i4 == 511 {
      KernelLow(m, h, t);
    } else if t.i4 == 509 && t.i3 == 0 {
      FetchBuilt(m, h, 0x0B, t.i2);
      LargeEntryNx(80 + t.i2);
    } else if t.i4 == 495 {
      UserPageTable(m, h, t);
    }
  }

  /** One level late through the self slot. */
  lemma MiddleThroughSelf(m: seq<byte>, h: nat, t: Path)
    requires h < 512 && TablesBuilt(m, h) && t.Valid() && t.i4 == SelfMap.SELF_INDEX
    ensures Entry2(m, CR3, t) == Entry3(m, CR3, Path(t.i3, t.i2, t.i1, 0))
    ensures Entry1(m, CR3, t) == Entry2(m, CR3, Path(t.i3, t.i2, t.i1, 0))
  {
    hide Fetch, Table, Large;
    var u := Path(t.i3, t.i2, t.i1, 0);
    BuiltIsSelfMapped(m, h);
    SelfMap.EntriesShift(m, CR3, u);
    TopEntryIsTable(m, h, u);
    TopEntryIsTable(m, h, t);
    if Entry4(m, CR3, u).None? { MiddleEntry(m, h, t); }
    assert SelfMap.Shift(u).i3 == t.i3 && SelfMap.Shift(u).i2 == t.i2 && SelfMap.Shift(u).i1 == t.i1;
    assert SelfMap.Shift(u) == t;
  }

  lemma BuiltIsSelfMapped(m: seq<byte>, h: nat)
    requires h < 512 && TablesBuilt(m, h)
    ensures SelfMap.SelfMapped(m, CR3)
  {
    hide Fetch;
    TablesOfBuiltEntries();
    FetchBuilt(m, h, 0x02, SelfMap.SELF_INDEX);
  }

  lemma TopEntryIsTable(m: seq<byte>, h: nat, t: Path)
    requires h < 512 && TablesBuilt(m, h) && t.Valid()
    ensures Entry4(m, CR3, t).Some? ==> !Large(Entry4(m, CR3, t).value)
  {
    hide Fetch;
    TopEntry(m, h, t);
  }

  lemma KernelLow(m: seq<byte>, h: nat, t: Path)
    requires h < 512 && TablesBuilt(m, h) && t.Valid() && (t.i4 == 496 || t.i4 == 511)
    ensures Entry2(m, CR3, t) == Met(LowWord(t.i4, t.i3, t.i2, h))
  {
    hide Fetch, Table, Large;
    MiddleEntry(m, h, t);
    TablesOfBuiltEntries();
    if t.i3 == 0 {
      FetchBuilt(m, h, 0x0D, t.i2);
      LargeEntry(t.i2);
    } else if t.i3 == 1 {
      FetchBuilt(m, h, 0x14, t.i2);
      if h <= t.i2 < h + 32 { LargeEntry(16 + t.i2 - h); }
    } else if t.i3 == 3 {
      MmioEntry(m, h, t);
    }
  }
  lemma LastEntry(m: seq<byte>, h: nat, t: Path)
    requires h < 512 && TablesBuilt(m, h) && t.Valid()
    ensures Entry1(m, CR3, t) == Met(LastWord(t, h))
  {
    hide Fetch, Table, Large;
    LowEntry(m, h, t);
    TablesOfBuiltEntries();
    if t.i4 == SelfMap.SELF_INDEX {
      LowEntry(m, h, Path(t.i3, t.i2, t.i1, 0));
      MiddleThroughSelf(m, h, t);
    } else if t.i4 == 495 {
      FetchBuilt(m, h, 0x15, t.i1);
      UserLast(t.i1, h);
    } else if t.i4 == 496 || t.i4 == 511 {
      KernelLast(m, h, t);
    } else if t.i4 == 509 {
      LargeEntryNx(80 + t.i2);
    }
  }

  lemma KernelLast(m: seq<byte>, h: nat, t: Path)
    requires h < 512 && TablesBuilt(m, h) && t.Valid() && (t.i4 == 496 || t.i4 == 511)
    ensures Entry1(m, CR3, t) == Met(LastWord(t, h))
  {
    hide Fetch, Table;
    LowEntry(m, h, t);
    if t.i3 < 2 {
      KernelLowIsLarge(t, h);
    } else if t.i3 == 3 && 502 <= t.i2 <= 504 {
      TablesOfBuiltEntries();
      PagesOfBuiltEntries();
      FetchBuilt(m, h, 0x61, t.i1);
      FetchBuilt(m, h, 0x62, t.i1);
      assert !Large(MmioPdWord(t.i2));
    }
  }

  lemma UserLast(i: nat, h: nat)
    requires i < 512 && h < 512
    ensures HalWord(512 + i, h) != 0 ==> Present(HalWord(512 + i, h))
  {
    hide Present;
    PagesOfBuiltEntries();
    if 0 < i && 512 + i < h + 32 { LargeEntry(16 + 512 + i - h); }
  }

  lemma KernelLowIsLarge(t: Path, h: nat)
    requires h < 512 && t.Valid() && (t.i4 == 496 || t.i4 == 511) && t.i3 < 2
    ensures var w := LowWord(t.i4, t.i3, t.i2, h); w != 0 ==> Large(w)
  {
    hide Large;
    if t.i3 == 0 {
      LargeEntry(t.i2);
    } else if h <= t.i2 < h + 32 {
      LargeEntry(16 + t.i2 - h);
    }
  }

  lemma MiddleTableOfWord(i4: nat, i3: nat)
    ensures var w := MiddleWord(i4, i3); MiddleTable(i4, i3) == if w == 0 then None else Some(Table(w))
  {
    hide Table, Large;
    TablesOfBuiltEntries();
  }

  /** What the third index leads to, as a table or a frame. */
  lemma LowTableOfWord(t: Path, h: nat)
    requires h < 512 && t.Valid()
    ensures var w := LowWord(t.i4, t.i3, t.i2, h);
            LowTable(t.i4, t.i3, t.i2, h) == if w == 0 then None else Some(Table(w))
  {
    hide PageSize.Base, Large, MiddleWord, MiddleTable;
    TablesOfBuiltEntries();
    MiddleTableOfWord(t.i3, t.i2);
    if (t.i4 == 496 || t.i4 == 511) && t.i3 == 0 {
      LargeEntry(t.i2);
    } else if (t.i4 == 496 || t.i4 == 511) && t.i3 == 1 && h <= t.i2 < h + 32 {
      LargeEntry(16 + t.i2 - h);
    } else if t.i4 == 509 {
      LargeEntryNx(80 + t.i2);
      LargeEntry(80 + t.i2);
      TableIgnoresNx(STACK_PBASE + t.i2 * SIZE_2M + 0x83);
    }
  }

  lemma TableIgnoresNx(e: nat)
    requires e < 0x10_0000_0000_0000
    ensures Table(e + NX) == Table(e)
  {
    NxIsHigh(e);
  }

  lemma LeafInSelf(m: seq<byte>, h: nat, t: Path)
    requires h < 512 && TablesBuilt(m, h) && t.Valid() && t.i4 == SelfMap.SELF_INDEX
    ensures LeafOf(m, CR3, t) == DenoteLeaf(t, h)
  {
    hide Fetch, Table, Large, LowWord, MiddleWord;
    var u := Path(t.i3, t.i2, t.i1, 0);
    BuiltIsSelfMapped(m, h);
    SelfMap.LeafOfShift(m, CR3, u);
    assert SelfMap.Shift(u) == t;
    TopEntryIsTable(m, h, u);
    MiddleEntry(m, h, u);
    LowEntry(m, h, u);
    LowTableOfWord(u, h);
  }

  lemma LeafIsDenotation(m: seq<byte>, h: nat, t: Path)
    requires h < 512 && TablesBuilt(m, h) && t.Valid()
    ensures LeafOf(m, CR3, t) == DenoteLeaf(t, h)
  {
    hide LeafOf, DenoteLeaf;
    if t.i4 == 496 || t.i4 == 511 {
      if t.i3 == 0 {
        LeafInKernelDirectory(m, h, t);
      } else if t.i3 == 1 {
        LeafInHalDirectory(m, h, t);
      } else if t.i3 == 3 {
        LeafInMmioDirectory(m, h, t);
      } else {
        LeafElsewhere(m, h, t);
      }
    } else if t.i4 == 509 {
      LeafInStack(m, h, t);
    } else if t.i4 == 495 {
      LeafInUser(m, h, t);
    } else if t.i4 == SelfMap.SELF_INDEX {
      LeafInSelf(m, h, t);
    } else {
      LeafElsewhere(m, h, t);
    }
  }

  /** Full denotation: the walk is the closed form, for every address. */
  lemma WalkIsDenotation(m: seq<byte>, h: nat, v: nat)
    requires h < 512 && TablesBuilt(m, h)
    ensures Walk(m, CR3, v) == Denote(v, h)
  {
    LeafIsDenotation(m, h, PathOf(v));
  }
}

/** `acpi::setup`: the six tables in guest memory, and the way the guest follows them. */
module AcpiTree {
  import opened Words
  import opened GuestMemory
  import opened PageWalk
  import opened PageTables
  import Windows
  import Acpi

  const ACPI_PBASE := 0x500_0000
  const ACPI_VBASE := K_VIRT + ACPI_PBASE

  /** One past the last byte of the last table, from the base. */
  const EXTENT := 0x524

  /** The tables stand at their offsets, each valid, each pointer holding its target's virtual address. */
  ghost predicate TreeAt(m: seq<byte>, p: nat, v: nat)
    requires p + EXTENT <= |m| && v + 0x500 < TWO64
  {
    && RootAt(m, p, v) && DirectoryAt(m, p, v) && DescriptionAt(m, p, v)
    && InterruptsAt(m, p) && TimerAt(m, p) && CodeAt(m, p)
  }

  ghost predicate RootAt(m: seq<byte>, p: nat, v: nat)
    requires p + EXTENT <= |m| && v + 0x500 < TWO64
  {
    Acpi.IsRsdp(m[p..p + 0x24], v + 0x100)
  }

  ghost predicate DirectoryAt(m: seq<byte>, p: nat, v: nat)
    requires p + EXTENT <= |m| && v + 0x500 < TWO64
  {
    var t := m[p + 0x100..p + 0x13C];
    && Acpi.IsTable(t, Acpi.XSDT, 60, 1)
    && t[36..44] == ToLe(v + 0x300, 8) && t[44..52] == ToLe(v + 0x200, 8) && t[52..60] == ToLe(v + 0x450, 8)
  }

  ghost predicate DescriptionAt(m: seq<byte>, p: nat, v: nat)
    requires p + EXTENT <= |m| && v + 0x500 < TWO64
  {
    var t := m[p + 0x300..p + 0x414];
    && Acpi.IsTable(t, Acpi.FACP, 276, 3)
    && Acpi.Described(t, v + 0x500)
  }

  ghost predicate InterruptsAt(m: seq<byte>, p: nat)
    requires p + EXTENT <= |m|
  {
    var t := m[p + 0x200..p + 0x250];
    Acpi.IsTable(t, Acpi.APIC, 80, 2) && t[36..40] == ToLe(Windows.LAPIC, 4) && t[44..80] == Acpi.MADT_ENTRIES
  }

  ghost predicate TimerAt(m: seq<byte>, p: nat)
    requires p + EXTENT <= |m|
  {
    var t := m[p + 0x450..p + 0x488];
    Acpi.IsTable(t, Acpi.HPET, 56, 1) && t[44..52] == ToLe(Windows.HPET, 8)
  }

  ghost predicate CodeAt(m: seq<byte>, p: nat)
    requires p + EXTENT <= |m|
  {
    Acpi.IsTable(m[p + 0x500..p + 0x524], Acpi.DSDT, 36, 1)
  }

  /** What one table write left alone: bytes, slices, and with them the tables standing elsewhere. */
  ghost predicate OnlyWrote(m: seq<byte>, m': seq<byte>, lo: nat, hi: nat) {
    SameOutside(m, m', lo, hi) && Acpi.SlicesKept(m, m', lo, hi)
  }

  lemma TablesElsewhereStand(m: seq<byte>, m': seq<byte>, p: nat, v: nat, lo: nat, hi: nat)
    requires p + EXTENT <= |m| && v + 0x500 < TWO64 && lo <= hi && OnlyWrote(m, m', lo, hi)
    ensures |m'| == |m|
    ensures hi <= p + 0x100 || p + 0x13C <= lo ==> DirectoryAt(m, p, v) == DirectoryAt(m', p, v)
    ensures hi <= p + 0x200 || p + 0x250 <= lo ==> InterruptsAt(m, p) == InterruptsAt(m', p)
    ensures hi <= p + 0x300 || p + 0x414 <= lo ==> DescriptionAt(m, p, v) == DescriptionAt(m', p, v)
    ensures hi <= p + 0x450 || p + 0x488 <= lo ==> TimerAt(m, p) == TimerAt(m', p)
    ensures hi <= p + 0x500 || p + 0x524 <= lo ==> CodeAt(m, p) == CodeAt(m', p)
  {
    hide Acpi.IsTable, ToLe, SameOutside;
  }

  lemma Widen(m: seq<byte>, m1: seq<byte>, m2: seq<byte>, lo: nat, hi: nat, a: nat, b: nat)
    requires SameOutside(m, m1, lo, hi) && OnlyWrote(m1, m2, a, b) && lo <= a <= b <= hi
    ensures SameOutside(m, m2, lo, hi)
  {
    hide Acpi.SlicesKept;
  }

  lemma Unwritten(m: seq<byte>, lo: nat, hi: nat)
    ensures SameOutside(m, m, lo, hi)
  {}

  method Store(vm: Vm, at: nat, t: array<byte>) returns (ok: bool)
    requires vm.Valid() && t != vm.mem
    modifies vm.mem
    ensures ok <==> at + t.Length <= MEM_SIZE
    ensures !ok ==> vm.Contents() == old(vm.Contents())
    ensures ok ==> vm.Contents()[at..at + t.Length] == t[..]
    ensures ok ==> OnlyWrote(old(vm.Contents()), vm.Contents(), at, at + t.Length)
  {
    ok := vm.WriteMemory(at, t[..]);
    if ok { Acpi.KeptBytesKeepSlices(old(vm.Contents()), vm.Contents(), at, at + t.Length); }
  }

  method PutCode(vm: Vm, p: nat) returns (ok: bool)
    requires vm.Valid()
    modifies vm.mem
    ensures ok <==> p + EXTENT <= MEM_SIZE
    ensures !ok ==> vm.Contents() == old(vm.Contents())
    ensures ok ==> CodeAt(vm.Contents(), p) && OnlyWrote(old(vm.Contents()), vm.Contents(), p + 0x500, p + 0x524)
  {
    hide OnlyWrote, Acpi.IsTable;
    var t := Acpi.BuildDsdt();
    assert t.Length == 36;
    ok := Store(vm, p + 0x500, t);
  }

  method PutInterrupts(vm: Vm, p: nat) returns (ok: bool)
    requires vm.Valid() && p + EXTENT <= MEM_SIZE
    modifies vm.mem
    ensures ok && InterruptsAt(vm.Contents(), p) && OnlyWrote(old(vm.Contents()), vm.Contents(), p + 0x200, p + 0x250)
  {
    hide OnlyWrote, ToLe;
    var t := Acpi.BuildMadt();
    assert t.Length == 80;
    ok := Store(vm, p + 0x200, t);
  }

  method PutDescription(vm: Vm, p: nat, v: nat) returns (ok: bool)
    requires vm.Valid() && p + EXTENT <= MEM_SIZE && v + 0x500 < TWO64
    modifies vm.mem
    ensures ok && DescriptionAt(vm.Contents(), p, v)
    ensures OnlyWrote(old(vm.Contents()), vm.Contents(), p + 0x300, p + 0x414)
  {
    hide OnlyWrote, ToLe;
    var t := Acpi.BuildFadt(v + 0x500);
    assert t.Length == 276;
    ok := Store(vm, p + 0x300, t);
  }

  method PutTimer(vm: Vm, p: nat) returns (ok: bool)
    requires vm.Valid() && p + EXTENT <= MEM_SIZE
    modifies vm.mem
    ensures ok && TimerAt(vm.Contents(), p) && OnlyWrote(old(vm.Contents()), vm.Contents(), p + 0x450, p + 0x488)
  {
    hide OnlyWrote, ToLe;
    var t := Acpi.BuildHpet();
    assert t.Length == 56;
    ok := Store(vm, p + 0x450, t);
  }

  method PutDirectory(vm: Vm, p: nat, v: nat) returns (ok: bool)
    requires vm.Valid() && p + EXTENT <= MEM_SIZE && v + 0x500 < TWO64
    modifies vm.mem
    ensures ok && DirectoryAt(vm.Contents(), p, v) && OnlyWrote(old(vm.Contents()), vm.Contents(), p + 0x100, p + 0x13C)
  {
    hide OnlyWrote, ToLe;
    var t := Acpi.BuildXsdt(v + 0x300, v + 0x200, v + 0x450);
    assert t.Length == 60;
    ok := Store(vm, p + 0x100, t);
  }

  method PutRoot(vm: Vm, p: nat, v: nat) returns (ok: bool)
    requires vm.Valid() && p + EXTENT <= MEM_SIZE && v + 0x500 < TWO64
    modifies vm.mem
    ensures ok && RootAt(vm.Contents(), p, v) && OnlyWrote(old(vm.Contents()), vm.Contents(), p + 0, p + 0x24)
  {
    hide OnlyWrote, ToLe;
    var t := Acpi.BuildRsdp(v + 0x100);
    assert t.Length == 36;
    ok := Store(vm, p + 0, t);
  }

  /**
   Writes the tree. The highest table comes first, so a base without room leaves memory untouched;
   address sums past 64 bits end the run.
   */
  method Setup(vm: Vm, p: nat, v: nat) returns (result: Outcome<u64>)
    requires vm.Valid()
    modifies vm.mem
    ensures result == if p + 0x500 >= TWO64 || v + 0x500 >= TWO64 then Panic
                      else if p + EXTENT > MEM_SIZE then Fail else Done(v)
    ensures SameOutside(old(vm.Contents()), vm.Contents(), p, if result.Done? then p + EXTENT else p)
    ensures result.Done? ==> TreeAt(vm.Contents(), p, v)
  {
    hide SameOutside, OnlyWrote, RootAt, DirectoryAt, DescriptionAt, InterruptsAt, TimerAt, CodeAt;
    ghost var m0, m := vm.Contents(), vm.Contents();
    Unwritten(m0, p, p);
    Unwritten(m0, p, p + EXTENT);
    if p + 0x500 >= TWO64 || v + 0x500 >= TWO64 { return Panic; }
    var ok := PutCode(vm, p);
    if !ok { return Fail; }
    Widen(m0, m, vm.Contents(), p, p + EXTENT, p + 0x500, p + 0x524);
    m := vm.Contents();
    ok := PutInterrupts(vm, p);
    TablesElsewhereStand(m, vm.Contents(), p, v, p + 0x200, p + 0x250);
    Widen(m0, m, vm.Contents(), p, p + EXTENT, p + 0x200, p + 0x250);
    m := vm.Contents();
    ok := PutDescription(vm, p, v);
    TablesElsewhereStand(m, vm.Contents(), p, v, p + 0x300, p + 0x414);
    Widen(m0, m, vm.Contents(), p, p + EXTENT, p + 0x300, p + 0x414);
    m := vm.Contents();
    ok := PutTimer(vm, p);
    TablesElsewhereStand(m, vm.Contents(), p, v, p + 0x450, p + 0x488);
    Widen(m0, m, vm.Contents(), p, p + EXTENT, p + 0x450, p + 0x488);
    m := vm.Contents();
    ok := PutDirectory(vm, p, v);
    TablesElsewhereStand(m, vm.Contents(), p, v, p + 0x100, p + 0x13C);
    Widen(m0, m, vm.Contents(), p, p + EXTENT, p + 0x100, p + 0x13C);
    m := vm.Contents();
    ok := PutRoot(vm, p, v);
    TablesElsewhereStand(m, vm.Contents(), p, v, p + 0, p + 0x24);
    Widen(m0, m, vm.Contents(), p, p + EXTENT, p + 0, p + 0x24);
    return Done(v);
  }

  // ----- Reading the tree back

  /** A reader at `a` finds the signature, a declared length, and that many bytes summing to 0. */
  ghost predicate ReadsAs(m: seq<byte>, a: int, sig: seq<byte>) {
    0 <= a && a + 8 <= |m| && m[a..a + 4] == sig && DeclaredBytesCheck(m, a, FromLe(m[a + 4..a + 8]))
  }

  ghost predicate DeclaredBytesCheck(m: seq<byte>, a: nat, n: nat) {
    36 <= n && a + n <= |m| && Acpi.Checks(m[a..a + n])
  }

  lemma TableReads(m: seq<byte>, a: nat, n: u32, sig: seq<byte>, rev: byte)
    requires a + n <= |m| && Acpi.IsTable(m[a..a + n], sig, n, rev)
    ensures a + 8 <= |m| && ReadsAs(m, a, sig) && FromLe(m[a + 4..a + 8]) == n
  {
    hide ToLe, FromLe, Acpi.Checks;
    SliceOfSlice(m, a, a + n, 0, 4);
    SliceOfSlice(m, a, a + n, 4, 8);
    LengthRoundTrip(n);
  }

  lemma LengthRoundTrip(n: u32)
    ensures FromLe(ToLe(n, 4)) == n
  {
    assert Pow256(4) == 0x1_0000_0000;
    FromLeOfToLe(n, 4);
  }

  lemma PointerReads(m: seq<byte>, a: nat, n: nat, off: nat, x: u64)
    requires a + n <= |m| && off + 8 <= n && m[a..a + n][off..off + 8] == ToLe(x, 8)
    ensures Word64(m, a + off) == x
  {
    hide ToLe, FromLe;
    SliceOfSlice(m, a, a + n, off, off + 8);
    assert Pow256(8) == TWO64;
    FromLeOfToLe(x, 8);
  }

  /** Where the pointer stored at `slot` leads, once shifted back from virtual to physical. */
  function Via(m: seq<byte>, slot: nat, p: nat, v: nat): int
    requires slot + 8 <= |m|
  {
    Word64(m, slot) - v + p
  }

  /** Every table the root leads to is found, whole, at the end of its pointer. */
  ghost predicate ReadableTree(m: seq<byte>, p: nat, v: nat) {
    && p + 36 <= |m| && m[p..p + 8] == Acpi.RSD_PTR
    && Acpi.Checks(m[p..p + 20]) && DeclaredBytesCheck(m, p, FromLe(m[p + 20..p + 24]))
    && var xsdt := Via(m, p + 24, p, v);
    && ReadsAs(m, xsdt, Acpi.XSDT) && xsdt + 60 <= |m|
    && var fadt, madt, hpet := Via(m, xsdt + 36, p, v), Via(m, xsdt + 44, p, v), Via(m, xsdt + 52, p, v);
    && ReadsAs(m, fadt, Acpi.FACP) && ReadsAs(m, madt, Acpi.APIC) && ReadsAs(m, hpet, Acpi.HPET)
    && fadt + 148 <= |m| && ReadsAs(m, Via(m, fadt + 140, p, v), Acpi.DSDT)
    && FromLe(m[fadt + 40..fadt + 44]) == Word64(m, fadt + 140) % 0x1_0000_0000
  }

  lemma RootReads(m: seq<byte>, p: nat, v: nat)
    requires p + EXTENT <= |m| && v + 0x500 < TWO64 && RootAt(m, p, v)
    ensures m[p..p + 8] == Acpi.RSD_PTR && Acpi.Checks(m[p..p + 20])
    ensures DeclaredBytesCheck(m, p, FromLe(m[p + 20..p + 24]))
    ensures Word64(m, p + 24) == v + 0x100
  {
    hide ToLe, FromLe, Acpi.Checks, Acpi.RSD_PTR;
    SliceOfSlice(m, p, p + 0x24, 0, 8);
    SliceOfSlice(m, p, p + 0x24, 0, 20);
    SliceOfSlice(m, p, p + 0x24, 20, 24);
    LengthRoundTrip(36);
    PointerReads(m, p, 0x24, 24, v + 0x100);
  }

  lemma DirectoryReads(m: seq<byte>, p: nat, v: nat)
    requires p + EXTENT <= |m| && v + 0x500 < TWO64 && DirectoryAt(m, p, v)
    ensures ReadsAs(m, p + 0x100, Acpi.XSDT)
    ensures Word64(m, p + 0x124) == v + 0x300 && Word64(m, p + 0x12C) == v + 0x200 && Word64(m, p + 0x134) == v + 0x450
  {
    hide ToLe, ReadsAs, Acpi.IsTable;
    TableReads(m, p + 0x100, 60, Acpi.XSDT, 1);
    PointerReads(m, p + 0x100, 60, 36, v + 0x300);
    PointerReads(m, p + 0x100, 60, 44, v + 0x200);
    PointerReads(m, p + 0x100, 60, 52, v + 0x450);
  }

  lemma DescriptionReads(m: seq<byte>, p: nat, v: nat)
    requires p + EXTENT <= |m| && v + 0x500 < TWO64 && DescriptionAt(m, p, v)
    ensures ReadsAs(m, p + 0x300, Acpi.FACP)
    ensures Word64(m, p + 0x38C) == v + 0x500
    ensures FromLe(m[p + 0x328..p + 0x32C]) == (v + 0x500) % 0x1_0000_0000
  {
    hide ToLe, ReadsAs, Acpi.IsTable;
    TableReads(m, p + 0x300, 276, Acpi.FACP, 3);
    PointerReads(m, p + 0x300, 276, 140, v + 0x500);
    SliceOfSlice(m, p + 0x300, p + 0x414, 40, 44);
    LengthRoundTrip((v + 0x500) % 0x1_0000_0000);
  }

  /** A written tree can be read back from its root by following pointers alone. */
  lemma TreeReadsBack(m: seq<byte>, p: nat, v: nat)
    requires p + EXTENT <= |m| && v + 0x500 < TWO64 && TreeAt(m, p, v)
    ensures ReadableTree(m, p, v)
  {
    hide ReadsAs, DeclaredBytesCheck, Acpi.IsTable, Acpi.Checks, RootAt, DirectoryAt, DescriptionAt, ToLe;
    RootReads(m, p, v);
    DirectoryReads(m, p, v);
    DescriptionReads(m, p, v);
    TableReads(m, p + 0x200, 80, Acpi.APIC, 2);
    TableReads(m, p + 0x450, 56, Acpi.HPET, 1);
    TableReads(m, p + 0x500, 36, Acpi.DSDT, 1);
  }

  // ----- The guest's view, through the page tables

  /** Every byte of the tables is mapped, at the shift the pointers assume. */
  lemma GuestReachesTree(m: seq<byte>, h: nat, o: nat)
    requires h < 512 && TablesBuilt(m, h) && o < EXTENT
    ensures Walk(m, CR3, ACPI_VBASE + o) == Some(ACPI_PBASE + o)
  {
    Windows.KernelWindow(m, h, ACPI_PBASE + o);
  }

  /** The guest reads the virtual address `x` at `slot`, and at `x` a whole table. */
  ghost predicate GuestPointer(m: seq<byte>, slot: nat, x: nat, sig: seq<byte>) {
    ReadVirtual(m, CR3, slot) == Some(x) && Walk(m, CR3, x).Some? && ReadsAs(m, Walk(m, CR3, x).value, sig)
  }

  /** From the root's virtual address the guest climbs to every table by reading virtual memory only. */
  lemma GuestFollowsTree(m: seq<byte>, h: nat)
    requires |m| == MEM_SIZE && h < 512 && TablesBuilt(m, h) && TreeAt(m, ACPI_PBASE, ACPI_VBASE)
    ensures GuestPointer(m, ACPI_VBASE + 24, ACPI_VBASE + 0x100, Acpi.XSDT)
    ensures GuestPointer(m, ACPI_VBASE + 0x100 + 36, ACPI_VBASE + 0x300, Acpi.FACP)
    ensures GuestPointer(m, ACPI_VBASE + 0x100 + 44, ACPI_VBASE + 0x200, Acpi.APIC)
    ensures GuestPointer(m, ACPI_VBASE + 0x100 + 52, ACPI_VBASE + 0x450, Acpi.HPET)
    ensures GuestPointer(m, ACPI_VBASE + 0x300 + 140, ACPI_VBASE + 0x500, Acpi.DSDT)
  {
    hide ReadsAs, Walk, RootAt, DirectoryAt, DescriptionAt, Acpi.IsTable, ToLe, Word64;
    var p, v := ACPI_PBASE, ACPI_VBASE;
    RootReads(m, p, v);
    DirectoryReads(m, p, v);
    DescriptionReads(m, p, v);
    TableReads(m, p + 0x200, 80, Acpi.APIC, 2);
    TableReads(m, p + 0x450, 56, Acpi.HPET, 1);
    TableReads(m, p + 0x500, 36, Acpi.DSDT, 1);
    GuestReachesTree(m, h, 24);
    GuestReachesTree(m, h, 0x100);
    GuestReachesTree(m, h, 0x124);
    GuestReachesTree(m, h, 0x12C);
    GuestReachesTree(m, h, 0x134);
    GuestReachesTree(m, h, 0x200);
    GuestReachesTree(m, h, 0x300);
    GuestReachesTree(m, h, 0x38C);
    GuestReachesTree(m, h, 0x450);
    GuestReachesTree(m, h, 0x500);
  }
}

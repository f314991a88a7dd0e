/** What the built tables mean for the parts of the address space the program uses. */
module Windows {
  import opened Words
  import opened GuestMemory
  import opened PageWalk
  import opened PageTables
  import SelfMap

  /** The offset in its page of the address with indices `t` and low bits `o`. */
  function OffsetAt(size: PageSize, t: Path, o: nat): nat {
    match size
    case Page4K => o
    case Page2M => t.i1 * SIZE_4K + o
    case Page1G => t.i2 * SIZE_2M + t.i1 * SIZE_4K + o
  }

  lemma OffsetOfAddress(size: PageSize, top: nat, t: Path, o: nat)
    requires t.Valid() && o < SIZE_4K
    ensures size.Offset(Address(top, t, o)) == OffsetAt(size, t, o)
  {
    match size
    case Page4K => PathOfAddress(top, t, o);
    case Page2M => Mod2M(top * 0x800_0000 + t.i4 * 0x4_0000 + t.i3 * 512 + t.i2, t.i1 * SIZE_4K + o);
    case Page1G => Mod1G(top * 0x4_0000 + t.i4 * 512 + t.i3, t.i2 * SIZE_2M + t.i1 * SIZE_4K + o);
  }

  /** The canonical high-half address with the given indices. */
  function HighAddress(t: Path, o: nat): nat { Address(0xFFFF, t, o) }

  /** Full denotation once more, for an address given by its indices. */
  lemma WalkAt(m: seq<byte>, h: nat, t: Path, o: nat)
    requires h < 512 && TablesBuilt(m, h) && t.Valid() && o < SIZE_4K
    ensures Walk(m, CR3, HighAddress(t, o)) ==
            match DenoteLeaf(t, h)
            case None => None
            case Some(leaf) => Some(leaf.page + OffsetAt(leaf.size, t, o))
  {
    PathOfAddress(0xFFFF, t, o);
    LeafIsDenotation(m, h, t);
    if DenoteLeaf(t, h).Some? { OffsetOfAddress(DenoteLeaf(t, h).value.size, 0xFFFF, t, o); }
  }

  /** An offset below 1 GB as page-directory index, page-table index and page offset. */
  lemma SplitWindow(off: nat)
    requires off < SIZE_1G
    ensures off == Index2(off) * SIZE_2M + Index1(off) * SIZE_4K + off % SIZE_4K
  {
    assert off / SIZE_4K == off / SIZE_2M * 512 + Index1(off);
  }

  /** The first gigabyte of the kernel's slot, and of its alias 511, is physical memory itself. */
  lemma KernelWindow(m: seq<byte>, h: nat, off: nat)
    requires h < 512 && TablesBuilt(m, h) && off < SIZE_1G
    ensures Walk(m, CR3, K_VIRT + off) == Some(off)
    ensures Walk(m, CR3, 0xFFFF_FF80_0000_0000 + off) == Some(off)
  {
    hide Walk;
    SplitWindow(off);
    var o := off % SIZE_4K;
    WalkAt(m, h, Path(496, 0, Index2(off), Index1(off)), o);
    WalkAt(m, h, Path(511, 0, Index2(off), Index1(off)), o);
  }

  lemma StackWindow(m: seq<byte>, h: nat, off: nat)
    requires h < 512 && TablesBuilt(m, h) && off < SIZE_1G
    ensures Walk(m, CR3, STACK_VIRT + off) == Some(STACK_PBASE + off)
  {
    hide Walk;
    SplitWindow(off);
    WalkAt(m, h, Path(509, 0, Index2(off), Index1(off)), off % SIZE_4K);
  }

  function UserPageAddress(i: nat): nat { KUSER_VIRT + i * SIZE_4K }

  /** The shared-data slot: one page, and whatever part of the HAL window spilled into its table. */
  lemma UserWindow(m: seq<byte>, h: nat, i: nat, o: nat)
    requires h < 512 && TablesBuilt(m, h) && i < 512 && o < SIZE_4K
    ensures Walk(m, CR3, UserPageAddress(i) + o) ==
            if i == 0 then Some(KUSER_PBASE + o)
            else if 512 + i < h + 32 then Some(HAL_PBASE + (512 + i - h) * SIZE_2M + o)
            else None
  {
    hide Walk;
    WalkAt(m, h, Path(495, 0, 0, i), o);
  }

  /** Only the shared page is mapped there exactly when at most one HAL entry spills (and is overwritten). */
  lemma OnlySharedPageMapped(m: seq<byte>, h: nat)
    requires h < 512 && TablesBuilt(m, h)
    ensures h <= 481 <==> forall i | 1 <= i < 512 :: Walk(m, CR3, UserPageAddress(i)) == None
  {
    hide Walk;
    forall i | 1 <= i < 512
      ensures Walk(m, CR3, UserPageAddress(i)) == None <==> h + 32 <= 512 + i
    {
      UserWindow(m, h, i, 0);
    }
    assert Walk(m, CR3, UserPageAddress(1)) == None <==> h <= 481;
  }

  function HalPageAddress(h: nat, j: nat): nat { K_VIRT + SIZE_1G + (h + j) * SIZE_2M }

  /** The HAL directory: 32 pages of 2 MB in the second gigabyte, at the HAL's own directory index. */
  lemma HalWindow(m: seq<byte>, h: nat, j: nat, i1: nat, o: nat)
    requires h < 512 && TablesBuilt(m, h) && j < 32 && h + j < 512 && i1 < 512 && o < SIZE_4K
    ensures Walk(m, CR3, HalPageAddress(h, j) + i1 * SIZE_4K + o) == Some(HAL_PBASE + j * SIZE_2M + i1 * SIZE_4K + o)
  {
    hide Walk;
    WalkAt(m, h, Path(496, 1, h + j, i1), o);
  }

  /** A HAL linked into the second gigabyte is mapped at its own base, 64 MB of it or up to the gigabyte's end. */
  lemma HalAtItsBase(m: seq<byte>, halBase: nat, off: nat)
    requires TablesBuilt(m, HalIndex(halBase)) && halBase % SIZE_2M == 0 && off < 0x400_0000
    requires K_VIRT + SIZE_1G <= halBase && halBase + off < K_VIRT + 2 * SIZE_1G
    ensures Walk(m, CR3, halBase + off) == Some(HAL_PBASE + off)
  {
    hide Walk, TablesBuilt;
    var h, x := HalIndex(halBase), off % SIZE_2M;
    var j, i1, o := off / SIZE_2M, x / SIZE_4K, x % SIZE_4K;
    IndexInGigabyte(halBase);
    HalWindow(m, h, j, i1, o);
  }

  lemma IndexInGigabyte(halBase: nat)
    requires halBase % SIZE_2M == 0 && K_VIRT + SIZE_1G <= halBase < K_VIRT + 2 * SIZE_1G
    ensures halBase == K_VIRT + SIZE_1G + HalIndex(halBase) * SIZE_2M
  {
    var d := halBase - K_VIRT - SIZE_1G;
    assert halBase / SIZE_2M == (K_VIRT + SIZE_1G) / SIZE_2M + d / SIZE_2M && d % SIZE_2M == 0;
  }

  /** All 32 pages are there exactly when they fit the directory. */
  lemma HalWindowFits(m: seq<byte>, h: nat)
    requires h < 512 && TablesBuilt(m, h)
    ensures h <= 480 <==> forall j | 0 <= j < 32 :: Walk(m, CR3, HalPageAddress(h, j)) == Some(HAL_PBASE + j * SIZE_2M)
  {
    hide Walk;
    forall j | 0 <= j < 32
      ensures Walk(m, CR3, HalPageAddress(h, j)) == Some(HAL_PBASE + j * SIZE_2M) <==> h + j < 512
    {
      if h + j < 512 {
        HalWindow(m, h, j, 0, 0);
      } else {
        WalkAt(m, h, Path(496, 2, h + j - 512, 0), 0);
      }
    }
    assert Walk(m, CR3, HalPageAddress(h, 31)) == Some(HAL_PBASE + 31 * SIZE_2M) <==> h + 31 < 512;
  }

  // ----- Devices

  const IOAPIC := 0xFEC0_0000
  const HPET := 0xFED0_0000
  const LAPIC := 0xFEE0_0000

  /**
   The three device pages. PD[503] holds an unaligned table address, so it names the IOAPIC's table
   again: two aliases appear 2 MB up, and the local APIC's page lands at 0xFF000000.
   */
  lemma DeviceWindow(m: seq<byte>, h: nat, o: nat)
    requires h < 512 && TablesBuilt(m, h) && o < SIZE_4K
    ensures Walk(m, CR3, K_VIRT + IOAPIC + o) == Some(IOAPIC + o)
    ensures Walk(m, CR3, K_VIRT + HPET + o) == Some(HPET + o)
    ensures Walk(m, CR3, K_VIRT + LAPIC + o) == Some(IOAPIC + o)
    ensures Walk(m, CR3, K_VIRT + HPET + SIZE_2M + o) == Some(HPET + o)
    ensures Walk(m, CR3, K_VIRT + 0xFF00_0000 + o) == Some(LAPIC + o)
  {
    hide Walk;
    WalkAt(m, h, Path(496, 3, 502, 0), o);
    WalkAt(m, h, Path(496, 3, 502, 256), o);
    WalkAt(m, h, Path(496, 3, 503, 0), o);
    WalkAt(m, h, Path(496, 3, 503, 256), o);
    WalkAt(m, h, Path(496, 3, 504, 0), o);
  }

  predicate OwnDevicePage(off: nat) {
    IOAPIC <= off < IOAPIC + SIZE_4K || HPET <= off < HPET + SIZE_4K
  }

  /** Where the kernel's slot is the identity: its first gigabyte and two device pages, nowhere else. */
  lemma KernelSlotIdentity(m: seq<byte>, h: nat, off: nat)
    requires h < 512 && TablesBuilt(m, h) && off < SIZE_512G
    ensures Walk(m, CR3, K_VIRT + off) == Some(off) <==> off < SIZE_1G || OwnDevicePage(off)
  {
    hide Walk, TablesBuilt, LowTable, MiddleTable;
    var t, o := Path(496, Index3(off), Index2(off), Index1(off)), off % SIZE_4K;
    AddressOfPath(off);
    SlotOffset(off);
    WalkAt(m, h, t, o);
  }

  lemma SlotOffset(off: nat)
    requires off < SIZE_512G
    ensures off == Index3(off) * SIZE_1G + Index2(off) * SIZE_2M + Index1(off) * SIZE_4K + off % SIZE_4K
  {
    AddressOfPath(off);
    assert Index4(off) == 0;
  }

  /** The hypercall instruction (VMCALL) stands in its page of the region. */
  lemma BridgeCode(m: seq<byte>, h: nat)
    requires h < 512 && TablesBuilt(m, h)
    ensures m[SYSTEM_BASE + 0x15_0000..SYSTEM_BASE + 0x15_0003] == [0x0F, 0x01, 0xC1]
  {
    var a, code := SYSTEM_BASE + 0x15_0000, [0x0F, 0x01, 0xC1, 0, 0, 0, 0, 0];
    assert Slot(m, 0xA000) == TableWord(0xA000, h) == 0xC1_010F;
    ToLeOfFromLe(m[a..a + 8]);
    assert ToLe(0xC1_010F, 8) == code by { CodeBytes(); }
    SliceOfSlice(m, a, a + 8, 0, 3);
    assert code[0..3] == [0x0F, 0x01, 0xC1];
  }

  lemma CodeBytes()
    ensures ToLe(0xC1_010F, 8) == [0x0F, 0x01, 0xC1, 0, 0, 0, 0, 0]
  {
    assert ToLe(0, 5) == [0, 0, 0, 0, 0];
    assert ToLe(0xC1, 6) == [0xC1] + ToLe(0, 5);
    assert ToLe(0xC101, 7) == [0x01] + ToLe(0xC1, 6);
  }

  // ----- The self map of the built tables

  lemma BuiltTablesAreSelfMapped(m: seq<byte>, h: nat)
    requires h < 512 && TablesBuilt(m, h)
    ensures SelfMap.SelfMapped(m, CR3)
    ensures forall i | 0 <= i < 512 :: Fetch(m, PML4, i).Some? ==> !Large(Fetch(m, PML4, i).value)
  {
    hide Fetch;
    TablesOfBuiltEntries();
    FetchBuilt(m, h, 0x02, SelfMap.SELF_INDEX);
    forall i | 0 <= i < 512
      ensures Fetch(m, PML4, i).Some? ==> !Large(Fetch(m, PML4, i).value)
    {
      FetchBuilt(m, h, 0x02, i);
    }
  }

  /** On the built tables the guest reaches the entry of every address through the patched base. */
  lemma GuestSeesItsTables(m: seq<byte>, h: nat, v: nat)
    requires h < 512 && TablesBuilt(m, h) && Walk(m, CR3, v).Some?
    ensures var size := LeafOf(m, CR3, PathOf(v)).value.size;
            var x := if size.Page4K? then SelfMap.PteVa(v) else SelfMap.Iterate(2, v);
            && !size.Page1G?
            && Walk(m, CR3, x).Some? && Walk(m, CR3, x).value + 8 <= |m|
            && Walk(m, CR3, v) == Some(size.Base(Word64(m, Walk(m, CR3, x).value)) + size.Offset(v))
  {
    BuiltTablesAreSelfMapped(m, h);
    TablesOfBuiltEntries();
    NoGigabytePages(m, h, PathOf(v));
    assert Entry4(m, CR3, PathOf(v)) == Fetch(m, PML4, Index4(v));
    if LeafOf(m, CR3, PathOf(v)).value.size.Page4K? {
      SelfMap.SelfMapReachesPte(m, CR3, v);
    } else {
      SelfMap.SelfMapReachesPde(m, CR3, v);
    }
  }

  lemma NoGigabytePages(m: seq<byte>, h: nat, t: Path)
    requires h < 512 && TablesBuilt(m, h) && t.Valid() && LeafOf(m, CR3, t).Some?
    ensures !LeafOf(m, CR3, t).value.size.Page1G?
  {
    if t.i4 == SelfMap.SELF_INDEX {
      BuiltTablesAreSelfMapped(m, h);
      TablesOfBuiltEntries();
      FetchBuilt(m, h, 0x02, t.i4);
      assert Entry3(m, CR3, t) == Fetch(m, PML4, t.i3);
    } else {
      LeafIsDenotation(m, h, t);
    }
  }
}

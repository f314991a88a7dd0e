/** Access rights: what the entries of a walk allow, and what the built tables allow where. */
module Rights {
  import opened Words
  import opened GuestMemory
  import opened PageWalk
  import opened PageTables
  import Bits
  import SelfMap
  import Windows

  // ----- The rights of any walk

  function Known(e: Option<u64>): seq<u64> {
    match e
    case None => []
    case Some(w) => [w]
  }

  /** The entries a walk along `t` meets, from the PML4 down. */
  function EntriesOn(m: seq<byte>, cr3: nat, t: Path): seq<u64> {
    Known(Entry4(m, cr3, t)) + Known(Entry3(m, cr3, t)) + Known(Entry2(m, cr3, t)) + Known(Entry1(m, cr3, t))
  }

  /** Bit `n` of an entry, by its weight. */
  predicate Bit(e: u64, weight: nat)
    requires weight > 0
  {
    e / weight % 2 == 1
  }

  // Intel SDM volume 3A, section 4.6: writable and user need every entry, no-execute one
  ghost predicate MayWrite(m: seq<byte>, cr3: nat, v: nat) {
    forall e :: e in EntriesOn(m, cr3, PathOf(v)) ==> Bit(e, 2)
  }

  ghost predicate UserMayAccess(m: seq<byte>, cr3: nat, v: nat) {
    forall e :: e in EntriesOn(m, cr3, PathOf(v)) ==> Bit(e, 4)
  }

  ghost predicate MayNotRun(m: seq<byte>, cr3: nat, v: nat) {
    exists e :: e in EntriesOn(m, cr3, PathOf(v)) && Bit(e, 0x8000_0000_0000_0000)
  }

  /** The last entry asks for uncached access (write-through and cache-disable). */
  ghost predicate Uncached(m: seq<byte>, cr3: nat, v: nat) {
    var es := EntriesOn(m, cr3, PathOf(v));
    es != [] && Bit(es[|es| - 1], 8) && Bit(es[|es| - 1], 16)
  }

  // ----- Flags of the words that are stored

  lemma TopBit(low: nat, nx: bool)
    requires low < NX
    ensures Bit(low + (if nx then NX else 0), NX) <==> nx
  {
    Bits.DivIsUnique(low + (if nx then NX else 0), if nx then 1 else 0, NX, low);
  }

  /** An entry: page `k`, flags below it, and bit 63 or not. */
  function Entry(k: nat, f: nat, nx: bool): u64
    requires k < 0x10_0000 && f < 0x1000
  {
    k * 0x1000 + f + (if nx then NX else 0)
  }

  lemma Flags(k: nat, f: nat, nx: bool)
    requires k < 0x10_0000 && f < 0x1000
    ensures var e := Entry(k, f, nx);
            && (Bit(e, 2) <==> f / 2 % 2 == 1) && (Bit(e, 4) <==> f / 4 % 2 == 1)
            && (Bit(e, 8) <==> f / 8 % 2 == 1) && (Bit(e, 16) <==> f / 16 % 2 == 1)
            && (Bit(e, NX) <==> nx)
  {
    var e, n := Entry(k, f, nx), if nx then k + 0x8_0000_0000_0000 else k;
    assert e == n * 0x1000 + f;
    Bits.BitOfSum(e, n * 0x400, 2, f);
    Bits.BitOfSum(e, n * 0x200, 4, f);
    Bits.BitOfSum(e, n * 0x100, 8, f);
    Bits.BitOfSum(e, n * 0x80, 16, f);
    TopBit(k * 0x1000 + f, nx);
  }

  /** A 2 MB frame of kernel memory, with or without bit 63. */
  lemma LargeFlags(e: u64, k: nat, nx: bool)
    requires k < 0x800 && e == k * SIZE_2M + 0x83 + (if nx then NX else 0)
    ensures Bit(e, 2) && !Bit(e, 4) && !Bit(e, 8) && !Bit(e, 16) && (Bit(e, NX) <==> nx)
  {
    hide Bit;
    assert e == Entry(k * 512, 0x83, nx);
    Flags(k * 512, 0x83, nx);
  }

  // ----- The built tables

  /** The words the walk of a mapped address meets. */
  lemma EntriesBuilt(m: seq<byte>, h: nat, t: Path)
    requires h < 512 && TablesBuilt(m, h) && t.Valid() && LeafOf(m, CR3, t).Some?
    ensures var top, middle := Pml4Word(t.i4), MiddleWord(t.i4, t.i3);
            var low, last := LowWord(t.i4, t.i3, t.i2, h), LastWord(t, h);
            && top != 0 && middle != 0 && low != 0
            && EntriesOn(m, CR3, t) == [top, middle, low] + (if last == 0 then [] else [last])
  {
    hide Fetch, Table, Large, Pml4Word, MiddleWord, LowWord, LastWord;
    TopEntry(m, h, t);
    MiddleEntry(m, h, t);
    LowEntry(m, h, t);
    LastEntry(m, h, t);
  }

  lemma TopFlags(i: nat)
    requires Pml4Word(i) != 0
    ensures var e := Pml4Word(i); Bit(e, 2) && (Bit(e, 4) <==> i == 495) && (Bit(e, NX) <==> i == 509)
  {
    hide Bit;
    Flags(0x8103, 3, false);
    Flags(0x8106, 3, false);
    Flags(0x8104, 3, true);
    Flags(0x8105, 7, false);
    Flags(0x8102, 3, false);
  }

  lemma MiddleFlags(i4: nat, i3: nat)
    requires MiddleWord(i4, i3) != 0
    ensures var e := MiddleWord(i4, i3);
            && Bit(e, 2)
            && (i4 != SelfMap.SELF_INDEX ==> (Bit(e, 4) <==> i4 == 495) && (Bit(e, NX) <==> i4 == 509))
  {
    hide Bit, Pml4Word;
    if i4 == SelfMap.SELF_INDEX { TopFlags(i3); }
    Flags(0x810D, 3, false);
    Flags(0x8114, 3, false);
    Flags(0x8160, 3, false);
    Flags(0x810B, 3, true);
    Flags(0x810C, 7, false);
  }

  lemma LowFlags(t: Path, h: nat)
    requires h < 512 && t.Valid() && LowWord(t.i4, t.i3, t.i2, h) != 0
    ensures var e := LowWord(t.i4, t.i3, t.i2, h);
            && Bit(e, 2)
            && (t.i4 != SelfMap.SELF_INDEX ==>
                  && (Bit(e, 4) <==> t.i4 == 495) && (Bit(e, NX) <==> t.i4 == 509)
                  && !Bit(e, 8) && !Bit(e, 16))
  {
    hide Bit, MiddleWord;
    if t.i4 == SelfMap.SELF_INDEX {
      MiddleFlags(t.i3, t.i2);
    } else if t.i4 == 509 {
      LargeFlags(LowWord(t.i4, t.i3, t.i2, h), STACK_PBASE / SIZE_2M + t.i2, true);
    } else if t.i4 == 495 {
      Flags(0x8115, 7, false);
    } else if t.i3 == 0 {
      LargeFlags(LowWord(t.i4, t.i3, t.i2, h), t.i2, false);
    } else if t.i3 == 1 {
      LargeFlags(LowWord(t.i4, t.i3, t.i2, h), HAL_PBASE / SIZE_2M + (t.i2 - h), false);
    } else {
      Flags(0x8161, 3, false);
      Flags(0x8161, 0x803, false);
      Flags(0x8162, 3, false);
    }
  }

  lemma LastFlags(t: Path, h: nat)
    requires h < 512 && t.Valid() && LastWord(t, h) != 0
    ensures var e := LastWord(t, h);
            && Bit(e, 2)
            && (t.i4 != SelfMap.SELF_INDEX ==>
                  && (Bit(e, 4) <==> t.i4 == 495 && t.i1 == 0) && (Bit(e, NX) <==> t.i4 != 495)
                  && (Bit(e, 8) <==> t.i4 != 495) && (Bit(e, 16) <==> t.i4 != 495))
  {
    hide Bit, LowWord;
    if t.i4 == SelfMap.SELF_INDEX {
      LowFlags(Path(t.i3, t.i2, t.i1, 0), h);
    } else if t.i4 == 495 {
      Flags(0x9000, 7, false);
      if t.i1 > 0 { LargeFlags(LastWord(t, h), HAL_PBASE / SIZE_2M + (512 + t.i1 - h), false); }
    } else {
      Flags(0xF_EC00, 0x1B, true);
      Flags(0xF_ED00, 0x1B, true);
      Flags(0xF_EE00, 0x1B, true);
    }
  }

  // ----- What the guest may do where

  predicate DeviceFrame(p: nat) {
    var page := p / SIZE_4K;
    page == Windows.IOAPIC / SIZE_4K || page == Windows.HPET / SIZE_4K || page == Windows.LAPIC / SIZE_4K
  }

  /** Every mapped address may be written, the tables themselves through the self map included. */
  lemma EverythingIsWritable(m: seq<byte>, h: nat, v: nat)
    requires h < 512 && TablesBuilt(m, h) && Walk(m, CR3, v).Some?
    ensures MayWrite(m, CR3, v)
  {
    hide EntriesOn, Bit, Pml4Word, MiddleWord, LowWord, LastWord, TablesBuilt, PathOf;
    var t := PathOf(v);
    EntriesBuilt(m, h, t);
    TopFlags(t.i4);
    MiddleFlags(t.i4, t.i3);
    LowFlags(t, h);
    if LastWord(t, h) != 0 { LastFlags(t, h); }
  }

  /** User mode reaches the shared-data page and nothing else; spilled HAL entries are not for it. */
  lemma OnlySharedPageIsUser(m: seq<byte>, h: nat, v: nat)
    requires h < 512 && TablesBuilt(m, h) && Walk(m, CR3, v).Some?
    ensures UserMayAccess(m, CR3, v) <==> PathOf(v) == PathOf(KUSER_VIRT)
  {
    hide EntriesOn, Bit, Pml4Word, MiddleWord, LowWord, TablesBuilt, PathOf;
    var t := PathOf(v);
    PathOfShared();
    EntriesBuilt(m, h, t);
    assert Pml4Word(t.i4) in EntriesOn(m, CR3, t);
    TopFlags(t.i4);
    MiddleFlags(t.i4, t.i3);
    LowFlags(t, h);
    LeafIsDenotation(m, h, t);
    if t.i4 == 495 {
      LastFlags(t, h);
      assert LastWord(t, h) in EntriesOn(m, CR3, t);
    }
  }

  lemma PathOfShared()
    ensures PathOf(KUSER_VIRT) == Path(495, 0, 0, 0)
  {}

  /** Outside the self map, running is forbidden on the stack and on the device pages and nowhere else. */
  lemma OnlyStackAndDevicesMayNotRun(m: seq<byte>, h: nat, v: nat)
    requires h < 512 && TablesBuilt(m, h) && Walk(m, CR3, v).Some? && Index4(v) != SelfMap.SELF_INDEX
    ensures MayNotRun(m, CR3, v) <==> Index4(v) == Index4(STACK_VIRT) || DeviceFrame(Walk(m, CR3, v).value)
    ensures Uncached(m, CR3, v) <==> DeviceFrame(Walk(m, CR3, v).value)
  {
    hide EntriesOn, Bit, Pml4Word, MiddleWord, LowWord, LastWord, TablesBuilt, Walk, LeafOf, DeviceFrame;
    hide Index3, Index2, Index1;
    var t := PathOf(v);
    MappedHasLeaf(m, v);
    EntriesBuilt(m, h, t);
    DevicePaths(m, h, v);
    FlagsAlong(t, h);
    var es := EntriesOn(m, CR3, t);
    assert es[0] in es && es[2] in es && (|es| == 4 ==> es[3] in es);
    assert Index4(STACK_VIRT) == 509;
  }

  lemma FlagsAlong(t: Path, h: nat)
    requires h < 512 && t.Valid() && t.i4 != SelfMap.SELF_INDEX
    requires Pml4Word(t.i4) != 0 && MiddleWord(t.i4, t.i3) != 0 && LowWord(t.i4, t.i3, t.i2, h) != 0
    ensures Bit(Pml4Word(t.i4), NX) <==> t.i4 == 509
    ensures Bit(MiddleWord(t.i4, t.i3), NX) <==> t.i4 == 509
    ensures var e := LowWord(t.i4, t.i3, t.i2, h); (Bit(e, NX) <==> t.i4 == 509) && !Bit(e, 8)
    ensures LastWord(t, h) != 0 ==>
              var e := LastWord(t, h);
              (Bit(e, NX) <==> t.i4 != 495) && (Bit(e, 8) <==> t.i4 != 495) && (Bit(e, 16) <==> t.i4 != 495)
  {
    hide Bit, Pml4Word, MiddleWord, LowWord, LastWord;
    TopFlags(t.i4);
    MiddleFlags(t.i4, t.i3);
    LowFlags(t, h);
    if LastWord(t, h) != 0 { LastFlags(t, h); }
  }

  /** The device frames are the leaves behind the fourth gigabyte's page directory. */
  lemma DevicePaths(m: seq<byte>, h: nat, v: nat)
    requires h < 512 && TablesBuilt(m, h) && Walk(m, CR3, v).Some? && Index4(v) != SelfMap.SELF_INDEX
    ensures var t := PathOf(v);
            && (DeviceFrame(Walk(m, CR3, v).value) <==> (t.i4 == 496 || t.i4 == 511) && t.i3 == 3)
            && (LastWord(t, h) != 0 <==> t.i4 == 495 || ((t.i4 == 496 || t.i4 == 511) && t.i3 == 3))
            && (t.i4 == 496 || t.i4 == 511 || t.i4 == 509 || t.i4 == 495)
  {
    hide TablesBuilt, PageSize.Offset, Index4, Index3, Index2, Index1, LeafOf;
    LeafIsDenotation(m, h, PathOf(v));
    LastOfMapped(PathOf(v), h);
    OffsetBelow(v);
  }

  lemma MappedHasLeaf(m: seq<byte>, v: nat)
    requires Walk(m, CR3, v).Some?
    ensures LeafOf(m, CR3, PathOf(v)).Some?
  {}

  lemma LastOfMapped(t: Path, h: nat)
    requires h < 512 && t.Valid() && t.i4 != SelfMap.SELF_INDEX && DenoteLeaf(t, h).Some?
    ensures LastWord(t, h) != 0 <==> t.i4 == 495 || ((t.i4 == 496 || t.i4 == 511) && t.i3 == 3)
  {}

  lemma OffsetBelow(v: nat)
    ensures Page4K.Offset(v) < SIZE_4K && Page2M.Offset(v) < SIZE_2M
  {}

  /** The self-map entry is a supervisor entry that forbids nothing else: rights there are those of the tables shown. */
  lemma SelfMapForbidsNothing(m: seq<byte>, h: nat, v: nat)
    requires h < 512 && TablesBuilt(m, h) && Walk(m, CR3, v).Some? && Index4(v) == SelfMap.SELF_INDEX
    ensures var es := EntriesOn(m, CR3, PathOf(v));
            MayNotRun(m, CR3, v) <==> exists i :: 1 <= i < |es| && Bit(es[i], NX)
  {
    hide EntriesOn, Bit, Pml4Word, MiddleWord, LowWord, LastWord, TablesBuilt, Walk, LeafOf, Index3, Index2, Index1;
    var t := PathOf(v);
    MappedHasLeaf(m, v);
    EntriesBuilt(m, h, t);
    TopFlags(t.i4);
    NotTheFirst(EntriesOn(m, CR3, t));
  }

  lemma NotTheFirst(es: seq<u64>)
    requires es != [] && !Bit(es[0], NX)
    ensures (exists e :: e in es && Bit(e, NX)) <==> exists i :: 1 <= i < |es| && Bit(es[i], NX)
  {
    hide Bit;
    if e :| e in es && Bit(e, NX) {
      var i :| 0 <= i < |es| && es[i] == e;
      assert i > 0;
    }
  }
}

/** The recursive slot: one PML4 entry that points back at the PML4 makes the tables visible to the guest. */
module SelfMap {
  import opened Words
  import opened Bits
  import opened GuestMemory
  import opened PageWalk

  const SELF_INDEX := 493

  /** The value patched into the kernel's MmPteBase. */
  const PTE_BASE := 0xFFFF_F680_0000_0000

  lemma PatchedPteBase()
    ensures Or(0xFFFF_0000_0000_0000, SELF_INDEX * Pow2(39)) == PTE_BASE
  {
    PowersUsed();
    Pow2OfSum(39, 9);
    OrIsSum(0xFFFF_0000_0000_0000, SELF_INDEX * Pow2(39), 48);
  }

  /** Where the guest kernel looks for the PTE of `v`. */
  function PteVa(v: nat): nat {
    PTE_BASE + 8 * (v / SIZE_4K % 0x10_0000_0000)
  }

  ghost predicate SelfMapped(m: seq<byte>, cr3: nat) {
    var e := Fetch(m, Table(cr3), SELF_INDEX);
    e.Some? && Table(e.value) == Table(cr3) && !Large(e.value)
  }

  /** Every index one level down, the self slot on top. */
  function Shift(t: Path): Path {
    Path(SELF_INDEX, t.i4, t.i3, t.i2)
  }

  lemma PteVaOfAddress(top: nat, t: Path, offset: nat)
    requires t.Valid() && offset < SIZE_4K
    ensures PteVa(Address(top, t, offset)) == Address(0xFFFF, Shift(t), t.i1 * 8)
  {
    var n := t.i4 * 0x800_0000 + t.i3 * 0x4_0000 + t.i2 * 512 + t.i1;
    assert Address(top, t, offset) == (top * 0x10_0000_0000 + n) * SIZE_4K + offset;
    Bits.DivIsUnique(Address(top, t, offset), top * 0x10_0000_0000 + n, SIZE_4K, offset);
    Bits.ModIsUnique(top * 0x10_0000_0000 + n, top, 0x10_0000_0000, n);
  }

  lemma PathOfPteVa(v: nat)
    ensures PathOf(PteVa(v)) == Shift(PathOf(v)) && PteVa(v) % SIZE_4K == Index1(v) * 8
  {
    var t := PathOf(v);
    AddressOfPath(v);
    PteVaOfAddress(v / 0x1_0000_0000_0000, t, v % SIZE_4K);
    PathOfAddress(0xFFFF, Shift(t), t.i1 * 8);
  }

  /** Walking the shifted path meets the entries one level late; a bit 7 met early ends the walk. */
  lemma EntriesShift(m: seq<byte>, cr3: nat, t: Path)
    requires SelfMapped(m, cr3)
    ensures Entry4(m, cr3, Shift(t)) == Fetch(m, Table(cr3), SELF_INDEX)
    ensures Entry3(m, cr3, Shift(t)) == Entry4(m, cr3, t)
    ensures Entry4(m, cr3, t).Some? && !Large(Entry4(m, cr3, t).value) ==>
              && Entry2(m, cr3, Shift(t)) == Entry3(m, cr3, t)
              && Entry1(m, cr3, Shift(t)) == Entry2(m, cr3, t)
  {}

  /** The leaf the guest finds by the shifted path, for every path and every self-mapped memory. */
  lemma LeafOfShift(m: seq<byte>, cr3: nat, t: Path)
    requires SelfMapped(m, cr3)
    ensures LeafOf(m, cr3, Shift(t)) ==
            match Entry4(m, cr3, t)
            case None => None
            case Some(e4) =>
              if Large(e4) then Some(Leaf(Page1G.Base(e4), Page1G)) else
              match Entry3(m, cr3, t)
              case None => None
              case Some(e3) =>
                if Large(e3) then Some(Leaf(Page2M.Base(e3), Page2M)) else
                match Entry2(m, cr3, t)
                case None => None
                case Some(e2) => Some(Leaf(Table(e2), Page4K))
  {
    EntriesShift(m, cr3, t);
  }

  /**
   For a 4 KB leaf under a PML4 entry with the reserved bit 7 clear, PteVa(v) translates to the
   entry that maps `v`, and the frame read there is the frame the walk of `v` uses.
   */
  lemma SelfMapReachesPte(m: seq<byte>, cr3: nat, v: nat)
    requires SelfMapped(m, cr3)
    requires Entry1(m, cr3, PathOf(v)).Some? && !Large(Entry4(m, cr3, PathOf(v)).value)
    ensures var x := Walk(m, cr3, PteVa(v));
            && x == Some(Table(Entry2(m, cr3, PathOf(v)).value) + Index1(v) * 8)
            && x.value + 8 <= |m|
            && Walk(m, cr3, v) == Some(Table(Word64(m, x.value)) + v % SIZE_4K)
  {
    PathOfPteVa(v);
    LeafOfShift(m, cr3, PathOf(v));
  }

  function Iterate(n: nat, v: nat): nat {
    if n == 0 then v else PteVa(Iterate(n - 1, v))
  }

  lemma PathOfIterate(v: nat)
    ensures PathOf(Iterate(2, v)) == Shift(Shift(PathOf(v))) && Iterate(2, v) % SIZE_4K == Index2(v) * 8
    ensures PathOf(Iterate(3, v)) == Shift(Shift(Shift(PathOf(v)))) && Iterate(3, v) % SIZE_4K == Index3(v) * 8
    ensures PathOf(Iterate(4, v)) == Shift(Shift(Shift(Shift(PathOf(v))))) && Iterate(4, v) % SIZE_4K == Index4(v) * 8
  {
    assert Iterate(1, v) == PteVa(v);
    PathOfPteVa(v);
    PathOfPteVa(Iterate(1, v));
    PathOfPteVa(Iterate(2, v));
    PathOfPteVa(Iterate(3, v));
  }

  lemma LeavesOfShifts(m: seq<byte>, cr3: nat, t: Path)
    requires SelfMapped(m, cr3)
    requires Entry4(m, cr3, t).Some? && !Large(Entry4(m, cr3, t).value)
    ensures Entry3(m, cr3, t).Some? ==>
              LeafOf(m, cr3, Shift(Shift(t))) == Some(Leaf(Table(Entry3(m, cr3, t).value), Page4K))
    ensures LeafOf(m, cr3, Shift(Shift(Shift(t)))) == Some(Leaf(Table(Entry4(m, cr3, t).value), Page4K))
    ensures LeafOf(m, cr3, Shift(Shift(Shift(Shift(t))))) == Some(Leaf(Table(cr3), Page4K))
  {
    EntriesShift(m, cr3, t);
    EntriesShift(m, cr3, Shift(t));
    EntriesShift(m, cr3, Shift(Shift(t)));
    LeafOfShift(m, cr3, Shift(t));
    LeafOfShift(m, cr3, Shift(Shift(t)));
    LeafOfShift(m, cr3, Shift(Shift(Shift(t))));
  }

  /** Each further application climbs one level: the addresses of the PDE, the PDPTE, the PML4E. */
  lemma SelfMapClimbs(m: seq<byte>, cr3: nat, v: nat)
    requires SelfMapped(m, cr3)
    requires Entry4(m, cr3, PathOf(v)).Some? && !Large(Entry4(m, cr3, PathOf(v)).value)
    ensures Entry3(m, cr3, PathOf(v)).Some? ==>
              Walk(m, cr3, Iterate(2, v)) == Some(Table(Entry3(m, cr3, PathOf(v)).value) + Index2(v) * 8)
    ensures Walk(m, cr3, Iterate(3, v)) == Some(Table(Entry4(m, cr3, PathOf(v)).value) + Index3(v) * 8)
    ensures Walk(m, cr3, Iterate(4, v)) == Some(Table(cr3) + Index4(v) * 8)
  {
    PathOfIterate(v);
    hide PathOf;
    hide Iterate;
    hide Fetch;
    var t := PathOf(v);
    LeavesOfShifts(m, cr3, t);
    if Entry3(m, cr3, t).Some? {
      WalkTo4K(m, cr3, Iterate(2, v), Shift(Shift(t)), Table(Entry3(m, cr3, t).value));
    }
    WalkTo4K(m, cr3, Iterate(3, v), Shift(Shift(Shift(t))), Table(Entry4(m, cr3, t).value));
    WalkTo4K(m, cr3, Iterate(4, v), Shift(Shift(Shift(Shift(t)))), Table(cr3));
  }

  lemma WalkTo4K(m: seq<byte>, cr3: nat, x: nat, t: Path, page: nat)
    requires PathOf(x) == t && LeafOf(m, cr3, t) == Some(Leaf(page, Page4K))
    ensures Walk(m, cr3, x) == Some(page + x % SIZE_4K)
  {}

  lemma EntryOf2M(m: seq<byte>, cr3: nat, t: Path)
    requires LeafOf(m, cr3, t).Some? && LeafOf(m, cr3, t).value.size.Page2M?
    ensures Entry4(m, cr3, t).Some? && Entry3(m, cr3, t).Some?
    ensures var a := Table(Entry3(m, cr3, t).value) + t.i2 * 8;
            a + 8 <= |m| && LeafOf(m, cr3, t).value.page == Page2M.Base(Word64(m, a))
  {}

  /** For a 2 MB leaf, the entry two applications reach is the one whose frame maps `v`. */
  lemma SelfMapReachesPde(m: seq<byte>, cr3: nat, v: nat)
    requires SelfMapped(m, cr3)
    requires LeafOf(m, cr3, PathOf(v)).Some? && LeafOf(m, cr3, PathOf(v)).value.size.Page2M?
    requires Entry4(m, cr3, PathOf(v)).Some? && !Large(Entry4(m, cr3, PathOf(v)).value)
    ensures var x := Walk(m, cr3, Iterate(2, v));
            && x.Some? && x.value + 8 <= |m|
            && Walk(m, cr3, v) == Some(Page2M.Base(Word64(m, x.value)) + v % SIZE_2M)
  {
    var t := PathOf(v);
    assert t.i2 == Index2(v);
    hide PathOf, Index2, Iterate, Table, LeafOf, Entry3, Entry4, Large, PageSize.Base, Word64;
    EntryOf2M(m, cr3, t);
    SelfMapClimbs(m, cr3, v);
    hide Walk;
    WalkTo2M(m, cr3, v, t);
  }

  lemma WalkTo2M(m: seq<byte>, cr3: nat, v: nat, t: Path)
    requires PathOf(v) == t && LeafOf(m, cr3, t).Some? && LeafOf(m, cr3, t).value.size.Page2M?
    ensures Walk(m, cr3, v) == Some(LeafOf(m, cr3, t).value.page + v % SIZE_2M)
  {
    hide LeafOf, PathOf;
  }
}

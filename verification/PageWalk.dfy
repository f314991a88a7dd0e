/**
 The 4-level page walk of the debugger (Intel SDM Volume 3A, section 4.5), first as arithmetic on
 the address and on the table entries, then as the bit-level method that computes it.
 */
module PageWalk {
  import opened Words
  import opened Bits
  import opened GuestMemory

  const SIZE_4K := 0x1000
  const SIZE_2M := 0x20_0000
  const SIZE_1G := 0x4000_0000
  const SIZE_512G := 0x80_0000_0000

  // Table indices of a virtual address, from the PML4 down to the page table
  function Index4(v: nat): nat { v / SIZE_512G % 512 }
  function Index3(v: nat): nat { v / SIZE_1G % 512 }
  function Index2(v: nat): nat { v / SIZE_2M % 512 }
  function Index1(v: nat): nat { v / SIZE_4K % 512 }

  /** The four indices a walk uses. */
  datatype Path = Path(i4: nat, i3: nat, i2: nat, i1: nat) {
    ghost predicate Valid() { i4 < 512 && i3 < 512 && i2 < 512 && i1 < 512 }
  }

  function PathOf(v: nat): (t: Path)
    ensures t.Valid()
  {
    Path(Index4(v), Index3(v), Index2(v), Index1(v))
  }

  datatype PageSize = Page4K | Page2M | Page1G {
    function Bytes(): nat {
      match this
      case Page4K => SIZE_4K
      case Page2M => SIZE_2M
      case Page1G => SIZE_1G
    }

    /** The offset of `v` in its page of this size. */
    function Offset(v: nat): (r: nat)
      ensures r < Bytes()
    {
      match this
      case Page4K => v % SIZE_4K
      case Page2M => v % SIZE_2M
      case Page1G => v % SIZE_1G
    }

    /** Bits 51..n of an entry, in place, for pages of 2^n bytes: the base it points at. */
    function Base(e: nat): nat {
      match this
      case Page4K => e % 0x10_0000_0000_0000 - e % 0x10_0000_0000_0000 % SIZE_4K
      case Page2M => e % 0x10_0000_0000_0000 - e % 0x10_0000_0000_0000 % SIZE_2M
      case Page1G => e % 0x10_0000_0000_0000 - e % 0x10_0000_0000_0000 % SIZE_1G
    }
  }

  /** The table an entry (or cr3) points at. */
  function Table(e: nat): nat { Page4K.Base(e) }

  predicate Present(e: nat) { e % 2 == 1 }
  predicate Large(e: nat) { e / 128 % 2 == 1 }

  /** Entry `i` of the table at `table`, if it lies in memory and is present. */
  function Fetch(m: seq<byte>, table: nat, i: nat): Option<u64> {
    if table + i * 8 + 8 > |m| then None
    else
      var e := Word64(m, table + i * 8);
      if Present(e) then Some(e) else None
  }

  // The present entry met at each level, if the walk gets that far
  function Entry4(m: seq<byte>, cr3: nat, t: Path): Option<u64> {
    Fetch(m, Table(cr3), t.i4)
  }

  function Entry3(m: seq<byte>, cr3: nat, t: Path): Option<u64> {
    match Entry4(m, cr3, t)
    case None => None
    case Some(e) => Fetch(m, Table(e), t.i3)
  }

  function Entry2(m: seq<byte>, cr3: nat, t: Path): Option<u64> {
    match Entry3(m, cr3, t)
    case None => None
    case Some(e) => if Large(e) then None else Fetch(m, Table(e), t.i2)
  }

  function Entry1(m: seq<byte>, cr3: nat, t: Path): Option<u64> {
    match Entry2(m, cr3, t)
    case None => None
    case Some(e) => if Large(e) then None else Fetch(m, Table(e), t.i1)
  }

  /** A translation: the physical address of the page and the page's size. */
  datatype Leaf = Leaf(page: nat, size: PageSize)

  function LeafOf(m: seq<byte>, cr3: nat, t: Path): Option<Leaf> {
    match Entry3(m, cr3, t)
    case None => None
    case Some(e3) =>
      if Large(e3) then Some(Leaf(Page1G.Base(e3), Page1G)) else
      match Entry2(m, cr3, t)
      case None => None
      case Some(e2) =>
        if Large(e2) then Some(Leaf(Page2M.Base(e2), Page2M)) else
        match Entry1(m, cr3, t)
        case None => None
        case Some(e1) => Some(Leaf(Page4K.Base(e1), Page4K))
  }

  /** The last two levels of a walk that has reached page directory entry `e2` through `e3`. */
  lemma LeafFromDirectory(m: seq<byte>, cr3: nat, t: Path, e3: u64, e2: u64)
    requires Entry3(m, cr3, t) == Some(e3) && !Large(e3)
    requires Fetch(m, Table(e3), t.i2) == Some(e2)
    ensures LeafOf(m, cr3, t) ==
            if Large(e2) then Some(Leaf(Page2M.Base(e2), Page2M)) else
            match Fetch(m, Table(e2), t.i1)
            case None => None
            case Some(e1) => Some(Leaf(Page4K.Base(e1), Page4K))
  {}

  /** The byte of a leaf's page that `v` addresses. */
  function Locate(leaf: Option<Leaf>, v: nat): Option<nat> {
    match leaf
    case None => None
    case Some(l) => Some(l.page + l.size.Offset(v))
  }

  /** The address `v` is mapped to, if any. */
  function Walk(m: seq<byte>, cr3: nat, v: nat): Option<nat> {
    Locate(LeafOf(m, cr3, PathOf(v)), v)
  }

  /** The word the guest reads at virtual address `v`. */
  function ReadVirtual(m: seq<byte>, cr3: nat, v: nat): Option<u64> {
    match Walk(m, cr3, v)
    case None => None
    case Some(p) => if p + 8 <= |m| then Some(Word64(m, p)) else None
  }

  /** The debugger's translation: an address that does not walk stands for itself. */
  function Translate(m: seq<byte>, cr3: nat, v: nat): nat {
    match Walk(m, cr3, v)
    case None => v
    case Some(p) => p
  }

  // ----- Address arithmetic

  /** The address with the given bits 63..48, table indices and page offset. */
  function Address(top: nat, t: Path, offset: nat): nat {
    top * 0x1_0000_0000_0000 + t.i4 * SIZE_512G + t.i3 * SIZE_1G + t.i2 * SIZE_2M + t.i1 * SIZE_4K + offset
  }

  lemma PathOfAddress(top: nat, t: Path, offset: nat)
    requires t.Valid() && offset < SIZE_4K
    ensures PathOf(Address(top, t, offset)) == t && Address(top, t, offset) % SIZE_4K == offset
  {
    var v := Address(top, t, offset);
    var q4 := top * 512 + t.i4;
    var q3 := q4 * 512 + t.i3;
    var q2 := q3 * 512 + t.i2;
    var q1 := q2 * 512 + t.i1;
    DivMod(v, q4, SIZE_512G, t.i3 * SIZE_1G + t.i2 * SIZE_2M + t.i1 * SIZE_4K + offset);
    DivMod(v, q3, SIZE_1G, t.i2 * SIZE_2M + t.i1 * SIZE_4K + offset);
    DivMod(v, q2, SIZE_2M, t.i1 * SIZE_4K + offset);
    DivMod(v, q1, SIZE_4K, offset);
    DivMod(q4, top, 512, t.i4);
    DivMod(q3, q4, 512, t.i3);
    DivMod(q2, q3, 512, t.i2);
    DivMod(q1, q2, 512, t.i1);
  }

  lemma DivMod(x: nat, q: nat, d: nat, r: nat)
    requires r < d && x == q * d + r
    ensures x / d == q && x % d == r
  {
    ModIsUnique(x, q, d, r);
    assert (x / d - q) * d == 0;
  }

  lemma AddressOfPath(v: nat)
    ensures v == Address(v / 0x1_0000_0000_0000, PathOf(v), v % SIZE_4K)
  {
    assert v / SIZE_2M == v / SIZE_4K / 512;
    assert v / SIZE_1G == v / SIZE_2M / 512;
    assert v / SIZE_512G == v / SIZE_1G / 512;
    assert v / 0x1_0000_0000_0000 == v / SIZE_512G / 512;
  }

  // ----- Page contiguity

  lemma SameIndices(v: nat, w: nat, size: PageSize)
    requires size.Page4K? ==> v / SIZE_4K == w / SIZE_4K
    requires size.Page2M? ==> v / SIZE_2M == w / SIZE_2M
    requires size.Page1G? ==> v / SIZE_1G == w / SIZE_1G
    ensures Index4(v) == Index4(w) && Index3(v) == Index3(w)
    ensures !size.Page1G? ==> Index2(v) == Index2(w)
    ensures size.Page4K? ==> Index1(v) == Index1(w)
  {
    if size.Page4K? {
      assert v / SIZE_2M == v / SIZE_4K / 512 && w / SIZE_2M == w / SIZE_4K / 512;
    }
    if !size.Page1G? {
      assert v / SIZE_1G == v / SIZE_2M / 512 && w / SIZE_1G == w / SIZE_2M / 512;
    }
    assert v / SIZE_512G == v / SIZE_1G / 512 && w / SIZE_512G == w / SIZE_1G / 512;
  }

  lemma SamePage(v: nat, i: nat, size: PageSize)
    requires size.Offset(v) + i < size.Bytes()
    ensures size.Page4K? ==> v / SIZE_4K == (v + i) / SIZE_4K
    ensures size.Page2M? ==> v / SIZE_2M == (v + i) / SIZE_2M
    ensures size.Page1G? ==> v / SIZE_1G == (v + i) / SIZE_1G
    ensures size.Offset(v + i) == size.Offset(v) + i
  {}

  lemma SamePath(v: nat, i: nat, size: PageSize)
    requires size.Offset(v) + i < size.Bytes()
    ensures PathOf(v).i4 == PathOf(v + i).i4 && PathOf(v).i3 == PathOf(v + i).i3
    ensures !size.Page1G? ==> PathOf(v).i2 == PathOf(v + i).i2
    ensures size.Page4K? ==> PathOf(v).i1 == PathOf(v + i).i1
    ensures size.Offset(v + i) == size.Offset(v) + i
  {
    hide Index4, Index3, Index2, Index1;
    SamePage(v, i, size);
    SameIndices(v, v + i, size);
  }

  /** A leaf depends only on the indices down to its own level. */
  lemma SameLeaf(m: seq<byte>, cr3: nat, t: Path, u: Path)
    requires t.i4 == u.i4 && t.i3 == u.i3
    requires LeafOf(m, cr3, t).Some?
    requires !LeafOf(m, cr3, t).value.size.Page1G? ==> t.i2 == u.i2
    requires LeafOf(m, cr3, t).value.size.Page4K? ==> t.i1 == u.i1
    ensures LeafOf(m, cr3, u) == LeafOf(m, cr3, t)
  {}

  /** Inside one page the walk is a shift: the next `i` bytes are the next `i` physical bytes. */
  lemma WalkWithinLeaf(m: seq<byte>, cr3: nat, v: nat, i: nat)
    requires LeafOf(m, cr3, PathOf(v)).Some?
    requires var size := LeafOf(m, cr3, PathOf(v)).value.size; size.Offset(v) + i < size.Bytes()
    ensures Walk(m, cr3, v + i) == Some(Walk(m, cr3, v).value + i)
  {
    hide LeafOf, PathOf, PageSize.Offset, PageSize.Bytes;
    SamePath(v, i, LeafOf(m, cr3, PathOf(v)).value.size);
    SameLeaf(m, cr3, PathOf(v), PathOf(v + i));
  }

  /** An unmapped 4 KB page is unmapped throughout. */
  lemma UnmappedPage(m: seq<byte>, cr3: nat, v: nat, i: nat)
    requires Walk(m, cr3, v).None? && v % SIZE_4K + i < SIZE_4K
    ensures Walk(m, cr3, v + i).None?
  {
    SameIndices(v, v + i, Page4K);
    assert PathOf(v + i) == PathOf(v);
  }

  /** A write to [lo, hi) misses every entry the walk along `t` meets. */
  ghost predicate MissesWalk(m: seq<byte>, cr3: nat, t: Path, lo: nat, hi: nat) {
    && MissesEntry(Table(cr3), t.i4, lo, hi)
    && (match Entry4(m, cr3, t)
        case None => true
        case Some(e4) => MissesEntry(Table(e4), t.i3, lo, hi))
    && (match Entry3(m, cr3, t)
        case None => true
        case Some(e3) => !Large(e3) ==> MissesEntry(Table(e3), t.i2, lo, hi))
    && (match Entry2(m, cr3, t)
        case None => true
        case Some(e2) => !Large(e2) ==> MissesEntry(Table(e2), t.i1, lo, hi))
  }

  predicate MissesEntry(table: nat, i: nat, lo: nat, hi: nat) {
    table + i * 8 + 8 <= lo || hi <= table + i * 8
  }

  lemma SameFetch(m: seq<byte>, m': seq<byte>, table: nat, i: nat, lo: nat, hi: nat)
    requires SameOutside(m, m', lo, hi) && MissesEntry(table, i, lo, hi)
    ensures Fetch(m', table, i) == Fetch(m, table, i)
  {
    if table + i * 8 + 8 <= |m| { SameWord(m, m', table + i * 8); }
  }

  /** A write that misses the entries a walk meets does not change where it leads. */
  lemma LeafUnchanged(m: seq<byte>, m': seq<byte>, cr3: nat, t: Path, lo: nat, hi: nat)
    requires SameOutside(m, m', lo, hi) && MissesWalk(m, cr3, t, lo, hi)
    ensures LeafOf(m', cr3, t) == LeafOf(m, cr3, t)
  {
    SameFetch(m, m', Table(cr3), t.i4, lo, hi);
    match Entry4(m, cr3, t)
    case None =>
    case Some(e4) => SameFetch(m, m', Table(e4), t.i3, lo, hi);
    match Entry3(m, cr3, t)
    case None =>
    case Some(e3) => if !Large(e3) { SameFetch(m, m', Table(e3), t.i2, lo, hi); }
    match Entry2(m, cr3, t)
    case None =>
    case Some(e2) => if !Large(e2) { SameFetch(m, m', Table(e2), t.i1, lo, hi); }
  }

  // ----- The walk as the debugger computes it, with shifts and masks

  lemma IndexBits(v: nat)
    ensures And(Shr(v, 39), 0x1FF) == Index4(v) && And(Shr(v, 30), 0x1FF) == Index3(v)
    ensures And(Shr(v, 21), 0x1FF) == Index2(v) && And(Shr(v, 12), 0x1FF) == Index1(v)
  {
    PowersUsed();
    ShrIsDiv(v, 39);
    ShrIsDiv(v, 30);
    ShrIsDiv(v, 21);
    ShrIsDiv(v, 12);
    LowBits(v / SIZE_512G, 9, 0x1FF);
    LowBits(v / SIZE_1G, 9, 0x1FF);
    LowBits(v / SIZE_2M, 9, 0x1FF);
    LowBits(v / SIZE_4K, 9, 0x1FF);
  }

  lemma LowBits(x: nat, n: nat, mask: nat)
    requires mask + 1 == Pow2(n)
    ensures And(x, mask) == x % Pow2(n)
  {
    assert Pow2(0) == 1;
    AndField(x, 0, n, mask);
  }

  lemma FlagBits(e: nat)
    ensures And(e, 1) == 0 <==> !Present(e)
    ensures And(e, 0x80) == 0 <==> !Large(e)
  {
    PowersUsed();
    AndBit(e, 0);
    AndBit(e, 7);
  }

  lemma BaseBits(e: nat, size: PageSize, n: nat, mask: nat)
    requires Pow2(n) == size.Bytes() && n <= 52 && mask + size.Bytes() == 0x10_0000_0000_0000
    ensures And(e, mask) == size.Base(e)
  {
    PowersUsed();
    AndField(e, n, 52, mask);
    ModOfMod(e, size);
  }

  lemma ModOfMod(e: nat, size: PageSize)
    ensures size.Offset(e % 0x10_0000_0000_0000) == size.Offset(e)
  {
    var k, x := e / 0x10_0000_0000_0000, e % 0x10_0000_0000_0000;
    match size
    case Page4K => Mod4K(k * 0x100_0000_0000, x);
    case Page2M => Mod2M(k * 0x8000_0000, x);
    case Page1G => Mod1G(k * 0x40_0000, x);
  }

  lemma Mod4K(k: nat, x: nat)
    ensures (k * SIZE_4K + x) % SIZE_4K == x % SIZE_4K
  {}

  lemma Mod2M(k: nat, x: nat)
    ensures (k * SIZE_2M + x) % SIZE_2M == x % SIZE_2M
  {}

  lemma Mod1G(k: nat, x: nat)
    ensures (k * SIZE_1G + x) % SIZE_1G == x % SIZE_1G
  {}

  lemma BaseIsAligned(e: nat, size: PageSize)
    ensures size.Base(e) % size.Bytes() == 0
  {
    var x := e % 0x10_0000_0000_0000;
    match size
    case Page4K => Mod4K(x / SIZE_4K, 0);
    case Page2M => Mod2M(x / SIZE_2M, 0);
    case Page1G => Mod1G(x / SIZE_1G, 0);
  }

  lemma TableBits(e: nat)
    ensures And(e, 0x000F_FFFF_FFFF_F000) == Table(e)
  {
    PowersUsed();
    BaseBits(e, Page4K, 12, 0x000F_FFFF_FFFF_F000);
  }

  /** What the walk returns at each page size: frame bits of the entry, offset bits of the address. */
  lemma JoinBits(e: nat, v: nat, size: PageSize, n: nat, mask: nat)
    requires Pow2(n) == size.Bytes() && n <= 52 && mask + size.Bytes() == 0x10_0000_0000_0000
    ensures Or(And(e, mask), And(v, size.Bytes() - 1)) == size.Base(e) + size.Offset(v)
  {
    BaseBits(e, size, n, mask);
    BaseIsAligned(e, size);
    LowBits(v, n, size.Bytes() - 1);
    OrIsSum(And(e, mask), And(v, size.Bytes() - 1), n);
  }

  lemma JoinPage(e: nat, v: nat)
    ensures Or(And(e, 0x000F_FFFF_C000_0000), And(v, 0x3FFF_FFFF)) == Page1G.Base(e) + Page1G.Offset(v)
    ensures Or(And(e, 0x000F_FFFF_FFE0_0000), And(v, 0x1F_FFFF)) == Page2M.Base(e) + Page2M.Offset(v)
    ensures Or(And(e, 0x000F_FFFF_FFFF_F000), And(v, 0xFFF)) == Page4K.Base(e) + Page4K.Offset(v)
  {
    PowersUsed();
    JoinBits(e, v, Page1G, 30, 0x000F_FFFF_C000_0000);
    JoinBits(e, v, Page2M, 21, 0x000F_FFFF_FFE0_0000);
    JoinBits(e, v, Page4K, 12, 0x000F_FFFF_FFFF_F000);
  }

  /** One table read of the walk: the caller gives up unless the entry is in memory and present. */
  method ReadEntry(vm: Vm, table: nat, i: nat) returns (ok: bool, e: u64)
    requires vm.Valid()
    ensures ok <==> Fetch(vm.Contents(), table, i).Some?
    ensures ok ==> Fetch(vm.Contents(), table, i) == Some(e)
  {
    var entry := new byte[8];
    e := 0;
    ok := vm.ReadMemory(table + i * 8, entry);
    if !ok { return; }
    assert entry[..] == vm.Contents()[table + i * 8..table + i * 8 + 8];
    assert Pow256(8) == TWO64;
    e := FromLe(entry[..]);
    FlagBits(e);
    ok := And(e, 1) != 0;
  }

  method VirtToPhys(vm: Vm, cr3: u64, vaddr: u64) returns (paddr: nat)
    requires vm.Valid()
    ensures paddr == Translate(vm.Contents(), cr3, vaddr)
  {
    IndexBits(vaddr);
    TableBits(cr3);
    var pml4 := And(cr3, 0x000F_FFFF_FFFF_F000);
    var ok, pml4e := ReadEntry(vm, pml4, And(Shr(vaddr, 39), 0x1FF));
    if !ok { return vaddr; }

    TableBits(pml4e);
    var pdpt := And(pml4e, 0x000F_FFFF_FFFF_F000);
    var pdpte;
    ok, pdpte := ReadEntry(vm, pdpt, And(Shr(vaddr, 30), 0x1FF));
    if !ok { return vaddr; }
    FlagBits(pdpte);
    if And(pdpte, 0x80) != 0 {
      JoinPage(pdpte, vaddr);
      return Or(And(pdpte, 0x000F_FFFF_C000_0000), And(vaddr, 0x3FFF_FFFF));
    }

    TableBits(pdpte);
    var pd := And(pdpte, 0x000F_FFFF_FFFF_F000);
    var pde;
    ok, pde := ReadEntry(vm, pd, And(Shr(vaddr, 21), 0x1FF));
    if !ok { return vaddr; }
    FlagBits(pde);
    if And(pde, 0x80) != 0 {
      JoinPage(pde, vaddr);
      return Or(And(pde, 0x000F_FFFF_FFE0_0000), And(vaddr, 0x1F_FFFF));
    }

    TableBits(pde);
    var pt := And(pde, 0x000F_FFFF_FFFF_F000);
    var pte;
    ok, pte := ReadEntry(vm, pt, And(Shr(vaddr, 12), 0x1FF));
    if !ok { return vaddr; }
    JoinPage(pte, vaddr);
    return Or(And(pte, 0x000F_FFFF_FFFF_F000), And(vaddr, 0xFFF));
  }
}

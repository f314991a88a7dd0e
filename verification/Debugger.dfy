/** The GDB stub's memory access: one translation of the start address, then one copy. */
module Debugger {
  import opened Words
  import opened GuestMemory
  import opened PageWalk
  import opened PageTables
  import opened Windows

  /** What a byte-by-byte reader finds at `v`. */
  function ByteAt(m: seq<byte>, cr3: nat, v: nat): Option<byte> {
    var p := Translate(m, cr3, v);
    if p < |m| then Some(m[p]) else None
  }

  /** Translation is a shift over `n` bytes from `v`. */
  ghost predicate Contiguous(m: seq<byte>, cr3: nat, v: nat, n: nat) {
    forall w | v <= w < v + n :: Translate(m, cr3, w) == Translate(m, cr3, v) + (w - v)
  }

  method ReadAddrs(vm: Vm, cr3: u64, start: u64, data: array<byte>) returns (n: nat)
    requires vm.Valid() && data != vm.mem
    modifies data
    ensures vm.Contents() == old(vm.Contents())
    ensures var p := Translate(vm.Contents(), cr3, start);
            if p + data.Length <= MEM_SIZE
            then n == data.Length && data[..] == vm.Contents()[p..p + data.Length]
            else n == 0 && data[..] == old(data[..])
  {
    var paddr := VirtToPhys(vm, cr3, start);
    var ok := vm.ReadMemory(paddr, data);
    n := if ok then data.Length else 0;
  }

  method WriteAddrs(vm: Vm, cr3: u64, start: u64, data: seq<byte>) returns (ok: bool)
    requires vm.Valid()
    modifies vm.mem
    ensures var m, p := old(vm.Contents()), Translate(old(vm.Contents()), cr3, start);
            && (ok <==> p + |data| <= MEM_SIZE)
            && vm.Contents() == if ok then Splice(m, p, data) else m
  {
    var paddr := VirtToPhys(vm, cr3, start);
    ok := vm.WriteMemory(paddr, data);
  }

  /** At every 4 KB boundary inside the range the next page follows the one before in physical memory. */
  ghost predicate Seamless(m: seq<byte>, cr3: nat, v: nat, n: nat) {
    forall w | v < w < v + n && w % SIZE_4K == 0 :: Translate(m, cr3, w) == Translate(m, cr3, w - 1) + 1
  }

  /** Off the boundaries, the next byte is always the next physical byte. */
  lemma NextByte(m: seq<byte>, cr3: nat, w: nat)
    requires w % SIZE_4K != 0
    ensures Translate(m, cr3, w) == Translate(m, cr3, w - 1) + 1
  {
    hide PathOf, LeafOf;
    var v := w - 1;
    match LeafOf(m, cr3, PathOf(v))
    case Some(leaf) =>
      RoomInPage(w, leaf.size);
      WalkWithinLeaf(m, cr3, v, 1);
    case None => UnmappedPage(m, cr3, v, 1);
  }

  lemma RoomInPage(w: nat, size: PageSize)
    requires w % SIZE_4K != 0
    ensures size.Offset(w - 1) + 1 < size.Bytes()
  {}

  /** Translation is a shift over a range if and only if it is at the page boundaries inside it. */
  lemma {:induction false} ContiguousExactlyWhenSeamless(m: seq<byte>, cr3: nat, v: nat, n: nat)
    ensures Contiguous(m, cr3, v, n) <==> Seamless(m, cr3, v, n)
    decreases n
  {
    hide Translate;
    if n > 1 {
      ContiguousExactlyWhenSeamless(m, cr3, v, n - 1);
      var w := v + n - 1;
      if w % SIZE_4K != 0 { NextByte(m, cr3, w); }
      assert Contiguous(m, cr3, v, n) ==> Contiguous(m, cr3, v, n - 1);
      assert Seamless(m, cr3, v, n) ==> Seamless(m, cr3, v, n - 1);
    }
  }

  /**
   Over a range seamless at its page boundaries the bulk copy is the bytewise read, and it fails only
   if some byte would.
   */
  lemma BulkIsBytewise(m: seq<byte>, cr3: nat, start: nat, n: nat)
    requires Seamless(m, cr3, start, n) && n > 0
    ensures var p := Translate(m, cr3, start);
            && (p + n <= |m| <==> forall w | start <= w < start + n :: ByteAt(m, cr3, w).Some?)
            && (p + n <= |m| ==>
                  forall w | start <= w < start + n :: ByteAt(m, cr3, w) == Some(m[p..p + n][w - start]))
  {
    hide Translate;
    ContiguousExactlyWhenSeamless(m, cr3, start, n);
    var p, last := Translate(m, cr3, start), start + n - 1;
    assert Translate(m, cr3, last) == p + (last - start);
    if p + n > |m| {
      assert ByteAt(m, cr3, last).None?;
    }
  }

  /** Any range inside one page is contiguous, mapped or not. */
  lemma OnePageIsContiguous(m: seq<byte>, cr3: nat, start: nat, n: nat)
    requires match LeafOf(m, cr3, PathOf(start))
             case Some(leaf) => leaf.size.Offset(start) + n <= leaf.size.Bytes()
             case None => start % SIZE_4K + n <= SIZE_4K
    ensures Contiguous(m, cr3, start, n)
  {
    hide PathOf, LeafOf, PageSize.Offset, PageSize.Bytes;
    forall w | start <= w < start + n
      ensures Translate(m, cr3, w) == Translate(m, cr3, start) + (w - start)
    {
      if LeafOf(m, cr3, PathOf(start)).Some? {
        WalkWithinLeaf(m, cr3, start, w - start);
      } else {
        UnmappedPage(m, cr3, start, w - start);
      }
    }
  }

  /** On the built tables whole gigabyte windows are contiguous, across page boundaries. */
  lemma WindowsAreContiguous(m: seq<byte>, h: nat, off: nat, n: nat)
    requires h < 512 && TablesBuilt(m, h) && off + n <= SIZE_1G && off < SIZE_1G
    ensures Contiguous(m, CR3, K_VIRT + off, n) && Contiguous(m, CR3, STACK_VIRT + off, n)
  {
    hide Walk;
    KernelWindow(m, h, off);
    StackWindow(m, h, off);
    forall w | K_VIRT + off <= w < K_VIRT + off + n
      ensures Translate(m, CR3, w) == off + (w - (K_VIRT + off))
    {
      KernelWindow(m, h, w - K_VIRT);
    }
    forall w | STACK_VIRT + off <= w < STACK_VIRT + off + n
      ensures Translate(m, CR3, w) == STACK_PBASE + off + (w - (STACK_VIRT + off))
    {
      StackWindow(m, h, w - STACK_VIRT);
    }
  }

  /** Contiguity can fail: the last byte of the IOAPIC's page is not followed by a mapped one. */
  lemma AcrossPagesMayDiffer(m: seq<byte>, h: nat)
    requires h < 512 && TablesBuilt(m, h)
    ensures !Contiguous(m, CR3, K_VIRT + IOAPIC + 0xFFF, 2)
  {
    hide Walk;
    DeviceWindow(m, h, 0xFFF);
    WalkAt(m, h, Path(496, 3, 502, 1), 0);
    var w := K_VIRT + IOAPIC + 0x1000;
    assert w == HighAddress(Path(496, 3, 502, 1), 0);
    assert Translate(m, CR3, w) == w;
  }

  /** A write reads back, provided it misses the entries its own translation uses. */
  lemma WriteReadsBack(m: seq<byte>, cr3: nat, start: nat, data: seq<byte>)
    requires Translate(m, cr3, start) + |data| <= |m|
    requires var p := Translate(m, cr3, start); MissesWalk(m, cr3, PathOf(start), p, p + |data|)
    ensures var p := Translate(m, cr3, start);
            var m' := Splice(m, p, data);
            Translate(m', cr3, start) == p && m'[p..p + |data|] == data
  {
    var p := Translate(m, cr3, start);
    LeafUnchanged(m, Splice(m, p, data), cr3, PathOf(start), p, p + |data|);
    assert Splice(m, p, data)[p..p + |data|] == data;
  }

  /** On the built tables it is enough that the physical range misses the paging region. */
  lemma WriteReadsBackOnTables(m: seq<byte>, h: nat, start: nat, data: seq<byte>)
    requires h < 512 && TablesBuilt(m, h)
    requires var p := Translate(m, CR3, start);
             p + |data| <= |m| && (p + |data| <= PAGING || PAGING + PAGING_SIZE <= p)
    ensures var p := Translate(m, CR3, start);
            var m' := Splice(m, p, data);
            Translate(m', CR3, start) == p && m'[p..p + |data|] == data
  {
    hide LeafOf;
    hide DenoteLeaf;
    var p := Translate(m, CR3, start);
    var m' := Splice(m, p, data);
    TablesStayBuilt(m, m', h);
    WalkIsDenotation(m, h, start);
    WalkIsDenotation(m', h, start);
    assert m'[p..p + |data|] == data;
  }
}

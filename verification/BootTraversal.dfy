/** The boot lists as the guest walks them: following links through the page tables. */
module BootTraversal {
  import opened Words
  import opened GuestMemory
  import opened PageWalk
  import opened PageTables
  import opened Windows
  import opened BootLists

  // ----- The memory descriptor list: records and links node by node, the header last

  /** A stretch of physical memory as the loader block lists it. */
  datatype MemoryRun = MemoryRun(kind: u32, base: u64, size: u64) {
    /** A memory descriptor: empty links, type and padding, first page and page count. */
    function Descriptor(): (d: seq<byte>)
      ensures |d| == 0x28
    {
      ToLe(0, 16) + ToLe(kind, 4) + ToLe(0, 4) + ToLe(base / 4096, 8) + ToLe(size / 4096, 8)
    }
  }

  function Records(runs: seq<MemoryRun>): (r: seq<seq<byte>>)
    ensures |r| == |runs| && forall d :: d in r ==> |d| == 0x28
  {
    seq(|runs|, i requires 0 <= i < |runs| => runs[i].Descriptor())
  }

  function MemoryBlock(ring: seq<Node>, records: seq<seq<byte>>, i: nat): Block
    requires 0 < i < |ring| && |records| + 1 == |ring|
  {
    Block(ring[i].p, ring[i].p + 0x28,
          [Store(ring[i].p, records[i - 1]),
           Word(ring[i].p, ring[Next(i, |ring|)].v), Word(ring[i].p + 8, ring[Prev(i, |ring|)].v)])
  }

  /** The first k nodes. */
  function MemoryBlocks(ring: seq<Node>, records: seq<seq<byte>>, k: nat): (r: seq<Block>)
    requires k < |ring| && |records| + 1 == |ring|
    ensures |r| == k
  {
    seq(k, i requires 0 <= i < k => MemoryBlock(ring, records, i + 1))
  }

  /** All the stores of the list: its nodes, then its header. */
  function MemoryList(ring: seq<Node>, runs: seq<MemoryRun>): seq<Block>
    requires |runs| + 1 == |ring|
  {
    MemoryBlocks(ring, Records(runs), |runs|) + [RingBlock(ring, 0)]
  }

  method LinkMemory(vm: Vm, nodes: seq<Node>, runs: seq<MemoryRun>, head: Node)
    requires vm.Valid() && nodes != [] && |runs| == |nodes|
    modifies vm.mem
    ensures vm.Contents() == PutBlocks(old(vm.Contents()), MemoryList([head] + nodes, runs))
  {
    hide Put, PutAll, PutBlocks, Word, MemoryRun.Descriptor;
    ghost var m0, ring, records := vm.Contents(), [head] + nodes, Records(runs);
    var n := |nodes|;
    Nothing(m0);
    for i := 0 to n
      invariant vm.Contents() == PutBlocks(m0, MemoryBlocks(ring, records, i))
    {
      ghost var m1 := vm.Contents();
      var next := if i == n - 1 then head.v else nodes[i + 1].v;
      var prev := if i == 0 then head.v else nodes[i - 1].v;
      PutRecord(vm, nodes[i].p, runs[i].Descriptor());
      PutLink(vm, nodes[i].p, next);
      PutLink(vm, nodes[i].p + 8, prev);
      ghost var b := MemoryBlock(ring, records, i + 1);
      assert b.stores == [Store(nodes[i].p, records[i]), Word(nodes[i].p, next), Word(nodes[i].p + 8, prev)];
      ThreePuts(m1, b.stores[0], b.stores[1], b.stores[2]);
      PutBlocksLast(m0, MemoryBlocks(ring, records, i), b);
      assert MemoryBlocks(ring, records, i) + [b] == MemoryBlocks(ring, records, i + 1);
    }
    ghost var m1, b := vm.Contents(), RingBlock(ring, 0);
    PutLink(vm, head.p, nodes[0].v);
    PutLink(vm, head.p + 8, nodes[n - 1].v);
    assert b.stores == [Word(head.p, nodes[0].v), Word(head.p + 8, nodes[n - 1].v)];
    TwoPuts(m1, b.stores[0], b.stores[1]);
    PutBlocksLast(m0, MemoryBlocks(ring, records, n), b);
  }

  lemma Nothing(m: seq<byte>)
    ensures PutBlocks(m, []) == m
  {}

  method PutRecord(vm: Vm, at: nat, data: seq<byte>)
    requires vm.Valid()
    modifies vm.mem
    ensures vm.Contents() == Put(old(vm.Contents()), Store(at, data))
  {
    var ok := vm.WriteMemory(at, data);
  }

  lemma ThreePuts(m: seq<byte>, s: Store, t: Store, u: Store)
    ensures PutAll(m, [s, t, u]) == Put(Put(Put(m, s), t), u)
  {
    hide Put;
    assert [s, t, u][1..] == [t, u];
    TwoPuts(Put(m, s), t, u);
  }

  lemma RecordAndLinks(m: seq<byte>, p: nat, d: seq<byte>, x: u64, y: u64)
    requires p + 0x28 <= |m| && |d| == 0x28
    ensures var r := PutAll(m, [Store(p, d), Word(p, x), Word(p + 8, y)]);
            Word64(r, p) == x && Word64(r, p + 8) == y && r[p + 16..p + 0x28] == d[16..]
  {
    hide ToLe;
    hide Word64;
    hide PutAll;
    ThreePuts(m, Store(p, d), Word(p, x), Word(p + 8, y));
    var m1 := Splice(m, p, d);
    var m2 := PutWord(m1, p, x);
    var r := PutWord(m2, p + 8, y);
    WordAfterPut(m1, p, x);
    WordAfterPut(m2, p + 8, y);
    forall o | p + 16 <= o < p + 0x28
      ensures r[o] == d[o - p]
    {
      assert r[o] == m2[o] == m1[o];
    }
    assert r[p + 16..p + 0x28] == d[16..];
  }

  lemma MemoryWindow(ring: seq<Node>, records: seq<seq<byte>>, i: nat)
    requires |records| + 1 == |ring| && i < |ring| && forall d :: d in records ==> |d| == 0x28
    ensures var b := (MemoryBlocks(ring, records, |records|) + [RingBlock(ring, 0)])[i];
            && b.Tidy() && b.lo == ring[if i < |records| then i + 1 else 0].p
            && b.hi == b.lo + if i < |records| then 0x28 else 16
  {
    hide ToLe;
    if i < |records| { assert records[i] in records; }
  }

  lemma MemoryBlocksDisjoint(ring: seq<Node>, records: seq<seq<byte>>)
    requires |records| + 1 == |ring| && Spaced(ring, 0x28) && forall d :: d in records ==> |d| == 0x28
    ensures DisjointBlocks(MemoryBlocks(ring, records, |records|) + [RingBlock(ring, 0)])
  {
    hide RingBlock;
    hide MemoryBlocks;
    var blocks := MemoryBlocks(ring, records, |records|) + [RingBlock(ring, 0)];
    forall i | 0 <= i < |blocks|
      ensures blocks[i].Tidy()
    {
      MemoryWindow(ring, records, i);
    }
    forall i, j | 0 <= i < j < |blocks|
      ensures blocks[i].hi <= blocks[j].lo || blocks[j].hi <= blocks[i].lo
    {
      MemoryWindow(ring, records, i);
      MemoryWindow(ring, records, j);
    }
  }

  lemma {:induction false} ToLePadded(x: nat, n: nat, k: nat)
    requires x < Pow256(n)
    ensures ToLe(x, n) + ToLe(0, k) == ToLe(x, n + k)
    decreases n
  {
    if n > 0 {
      ToLePadded(x / 256, n - 1, k);
      assert ToLe(x, n) == [x % 256] + ToLe(x / 256, n - 1);
    }
  }

  /** The three fields behind the links of the descriptor at `p`. */
  ghost predicate DescribesAt(m: seq<byte>, p: nat, run: MemoryRun) {
    && p + 0x28 <= |m|
    && Word64(m, p + 0x10) == run.kind
    && Word64(m, p + 0x18) == run.base / 4096
    && Word64(m, p + 0x20) == run.size / 4096
  }

  lemma DescriptorTail(run: MemoryRun)
    ensures run.Descriptor()[16..] == ToLe(run.kind, 8) + (ToLe(run.base / 4096, 8) + ToLe(run.size / 4096, 8))
  {
    assert Pow256(4) == 0x1_0000_0000;
    ToLePadded(run.kind, 4, 4);
    hide ToLe, Pow256;
  }

  lemma FirstWord(m: seq<byte>, a: nat, b: nat, x: u64, rest: seq<byte>)
    requires a + 8 <= b <= |m| && m[a..b] == ToLe(x, 8) + rest
    ensures Word64(m, a) == x && m[a + 8..b] == rest
  {
    assert Pow256(8) == TWO64;
    hide ToLe, FromLe, Pow256;
    SliceOfSlice(m, a, b, 0, 8);
    SliceOfSlice(m, a, b, 8, b - a);
    FromLeOfToLe(x, 8);
  }

  lemma DescriptorFields(m: seq<byte>, p: nat, run: MemoryRun)
    requires p + 0x28 <= |m| && m[p + 0x10..p + 0x28] == run.Descriptor()[16..]
    ensures DescribesAt(m, p, run)
  {
    DescriptorTail(run);
    hide ToLe, FromLe, Word64, MemoryRun.Descriptor;
    var pages := ToLe(run.size / 4096, 8);
    FirstWord(m, p + 0x10, p + 0x28, run.kind, ToLe(run.base / 4096, 8) + pages);
    FirstWord(m, p + 0x18, p + 0x28, run.base / 4096, pages);
    assert pages == pages + [];
    FirstWord(m, p + 0x20, p + 0x28, run.size / 4096, []);
  }

  /** The ring closes through the header, and every record keeps type, first page and page count behind its links. */
  lemma MemoryIsLinked(m: seq<byte>, ring: seq<Node>, runs: seq<MemoryRun>)
    requires |m| == MEM_SIZE && |runs| + 1 == |ring| && Spaced(ring, 0x28)
    ensures var m' := PutBlocks(m, MemoryList(ring, runs));
            && Linked(m', ring)
            && forall i :: 1 <= i < |ring| ==> DescribesAt(m', ring[i].p, runs[i - 1])
  {
    hide PutBlocks, LinkedAt, MemoryBlocks, DescribesAt, MemoryRun.Descriptor;
    var records := Records(runs);
    MemoryBlocksDisjoint(ring, records);
    hide DisjointBlocks;
    var m' := PutBlocks(m, MemoryList(ring, runs));
    HeaderLinked(m, ring, records);
    forall i | 1 <= i < |ring|
      ensures LinkedAt(m', ring, i) && DescribesAt(m', ring[i].p, runs[i - 1])
    {
      RecordLinked(m, ring, records, i);
      DescriptorFields(m', ring[i].p, runs[i - 1]);
    }
  }

  lemma HeaderLinked(m: seq<byte>, ring: seq<Node>, records: seq<seq<byte>>)
    requires |m| == MEM_SIZE && |records| + 1 == |ring| && Spaced(ring, 0x28)
    requires DisjointBlocks(MemoryBlocks(ring, records, |records|) + [RingBlock(ring, 0)])
    ensures LinkedAt(PutBlocks(m, MemoryBlocks(ring, records, |records|) + [RingBlock(ring, 0)]), ring, 0)
  {
    hide PutBlocks;
    hide PutAll;
    hide DisjointBlocks;
    hide Word64;
    hide ToLe;
    var blocks, n := MemoryBlocks(ring, records, |records|) + [RingBlock(ring, 0)], |ring|;
    assert blocks[|records|] == RingBlock(ring, 0);
    WordOfBlock(m, blocks, |records|, ring[0].p);
    WordOfBlock(m, blocks, |records|, ring[0].p + 8);
    TwoWords(m, ring[0].p, ring[Next(0, n)].v, ring[Prev(0, n)].v);
  }

  lemma MemoryStores(ring: seq<Node>, records: seq<seq<byte>>, i: nat)
    requires 0 < i < |ring| && |records| + 1 == |ring|
    ensures var b, p := (MemoryBlocks(ring, records, |records|) + [RingBlock(ring, 0)])[i - 1], ring[i].p;
            && b.lo == p && b.hi == p + 0x28
            && b.stores == [Store(p, records[i - 1]),
                            Word(p, ring[Next(i, |ring|)].v), Word(p + 8, ring[Prev(i, |ring|)].v)]
  {
    hide ToLe;
    hide RingBlock;
    assert MemoryBlocks(ring, records, |records|)[i - 1] == MemoryBlock(ring, records, i);
  }

  lemma RecordWords(m: seq<byte>, ring: seq<Node>, records: seq<seq<byte>>, i: nat)
    requires |m| == MEM_SIZE && |records| + 1 == |ring| && Spaced(ring, 0x28) && 1 <= i < |ring|
    requires forall d :: d in records ==> |d| == 0x28
    requires DisjointBlocks(MemoryBlocks(ring, records, |records|) + [RingBlock(ring, 0)])
    ensures var m' := PutBlocks(m, MemoryBlocks(ring, records, |records|) + [RingBlock(ring, 0)]);
            && ring[i].p + 0x28 <= |m'|
            && Word64(m', ring[i].p) == ring[Next(i, |ring|)].v && Word64(m', ring[i].p + 8) == ring[Prev(i, |ring|)].v
            && m'[ring[i].p + 16..ring[i].p + 0x28] == records[i - 1][16..]
  {
    hide PutBlocks;
    hide PutAll;
    hide DisjointBlocks;
    hide Word64;
    hide Word;
    hide MemoryBlocks;
    hide MemoryBlock;
    hide RingBlock;
    var blocks, p := MemoryBlocks(ring, records, |records|) + [RingBlock(ring, 0)], ring[i].p;
    assert records[i - 1] in records;
    MemoryStores(ring, records, i);
    WordOfBlock(m, blocks, i - 1, p);
    WordOfBlock(m, blocks, i - 1, p + 8);
    RecordAndLinks(m, p, records[i - 1], ring[Next(i, |ring|)].v, ring[Prev(i, |ring|)].v);
    PayloadOfBlock(m, blocks, i - 1, p + 16, p + 0x28);
  }

  lemma RecordLinked(m: seq<byte>, ring: seq<Node>, records: seq<seq<byte>>, i: nat)
    requires |m| == MEM_SIZE && |records| + 1 == |ring| && Spaced(ring, 0x28) && 1 <= i < |ring|
    requires forall d :: d in records ==> |d| == 0x28
    requires DisjointBlocks(MemoryBlocks(ring, records, |records|) + [RingBlock(ring, 0)])
    ensures var m' := PutBlocks(m, MemoryBlocks(ring, records, |records|) + [RingBlock(ring, 0)]);
            LinkedAt(m', ring, i) && m'[ring[i].p + 16..ring[i].p + 0x28] == records[i - 1][16..]
  {
    hide PutBlocks, DisjointBlocks, Spaced, Word64, MemoryBlocks, RingBlock;
    RecordWords(m, ring, records, i);
  }

  lemma PayloadOfBlock(m: seq<byte>, blocks: seq<Block>, k: nat, lo: nat, hi: nat)
    requires DisjointBlocks(blocks) && k < |blocks| && blocks[k].lo <= lo <= hi <= blocks[k].hi && hi <= |m|
    ensures PutBlocks(m, blocks)[lo..hi] == PutAll(m, blocks[k].stores)[lo..hi]
  {
    hide DisjointBlocks;
    forall o | lo <= o < hi
      ensures PutBlocks(m, blocks)[o] == PutAll(m, blocks[k].stores)[o]
    {
      BlocksAreIndependent(m, blocks, k, o);
    }
  }

  // ----- Following links through the page tables

  function Flink(m: seq<byte>, cr3: nat, v: nat): Option<u64> { ReadVirtual(m, cr3, v) }
  function Blink(m: seq<byte>, cr3: nat, v: nat): Option<u64> { ReadVirtual(m, cr3, v + 8) }

  function Follow(m: seq<byte>, cr3: nat, v: nat, k: nat): Option<nat>
    decreases k
  {
    if k == 0 then Some(v)
    else
      match Flink(m, cr3, v)
      case None => None
      case Some(w) => Follow(m, cr3, w, k - 1)
  }

  /** Both words of every node are mapped where the node lies. */
  ghost predicate Mapped(m: seq<byte>, cr3: nat, ring: seq<Node>) {
    forall i :: 0 <= i < |ring| ==>
      Walk(m, cr3, ring[i].v) == Some(ring[i].p) && Walk(m, cr3, ring[i].v + 8) == Some(ring[i].p + 8)
  }

  /** One step forward and one step back, as the guest sees them. */
  lemma GuestLinks(m: seq<byte>, cr3: nat, ring: seq<Node>, i: nat)
    requires Linked(m, ring) && Mapped(m, cr3, ring) && i < |ring|
    ensures Flink(m, cr3, ring[i].v) == Some(ring[Next(i, |ring|)].v)
    ensures Blink(m, cr3, ring[i].v) == Some(ring[Prev(i, |ring|)].v)
    ensures Blink(m, cr3, ring[Next(i, |ring|)].v) == Some(ring[i].v)
    ensures Flink(m, cr3, ring[Prev(i, |ring|)].v) == Some(ring[i].v)
  {
    hide Walk;
    hide Word64;
    assert LinkedAt(m, ring, i) && LinkedAt(m, ring, Next(i, |ring|)) && LinkedAt(m, ring, Prev(i, |ring|));
    assert Prev(Next(i, |ring|), |ring|) == i && Next(Prev(i, |ring|), |ring|) == i;
  }

  lemma {:induction false} FollowFrom(m: seq<byte>, cr3: nat, ring: seq<Node>, i: nat, k: nat)
    requires Linked(m, ring) && Mapped(m, cr3, ring) && i < |ring| && i + k <= |ring|
    ensures Follow(m, cr3, ring[i].v, k) == Some(if i + k == |ring| then ring[0].v else ring[i + k].v)
    decreases k
  {
    hide Linked;
    hide Mapped;
    hide Flink;
    if k > 0 {
      GuestLinks(m, cr3, ring, i);
      if k > 1 { FollowFrom(m, cr3, ring, i + 1, k - 1); }
    }
  }

  /** From the header, Flink visits every node in order and is back after as many steps as the ring is long. */
  lemma FollowRing(m: seq<byte>, cr3: nat, ring: seq<Node>)
    requires Linked(m, ring) && Mapped(m, cr3, ring) && ring != []
    ensures forall k :: 0 <= k < |ring| ==> Follow(m, cr3, ring[0].v, k) == Some(ring[k].v)
    ensures Follow(m, cr3, ring[0].v, |ring|) == Some(ring[0].v)
  {
    hide Linked;
    hide Mapped;
    hide Follow;
    FollowFrom(m, cr3, ring, 0, |ring|);
    forall k | 0 <= k < |ring|
      ensures Follow(m, cr3, ring[0].v, k) == Some(ring[k].v)
    {
      FollowFrom(m, cr3, ring, 0, k);
    }
  }

  /** Nodes in the identity window are mapped by the built tables. */
  predicate InKernelWindow(ring: seq<Node>) {
    forall i :: 0 <= i < |ring| ==> ring[i].v == K_VIRT + ring[i].p && ring[i].p + 16 <= SIZE_1G
  }

  lemma WindowIsMapped(m: seq<byte>, h: nat, ring: seq<Node>)
    requires h < 512 && TablesBuilt(m, h) && InKernelWindow(ring)
    ensures Mapped(m, CR3, ring)
  {
    hide TablesBuilt;
    hide Walk;
    forall i | 0 <= i < |ring|
      ensures Walk(m, CR3, ring[i].v) == Some(ring[i].p) && Walk(m, CR3, ring[i].v + 8) == Some(ring[i].p + 8)
    {
      KernelWindow(m, h, ring[i].p);
      KernelWindow(m, h, ring[i].p + 8);
    }
  }

  /** Blocks below the paging region leave the tables built. */
  lemma BlocksKeepTables(m: seq<byte>, h: nat, blocks: seq<Block>)
    requires h < 512 && TablesBuilt(m, h) && DisjointBlocks(blocks) && forall b :: b in blocks ==> b.hi <= PAGING
    ensures TablesBuilt(PutBlocks(m, blocks), h)
  {
    var m' := PutBlocks(m, blocks);
    forall x | PAGING <= x < PAGING + PAGING_SIZE
      ensures m'[x] == m[x]
    {
      BlocksLocal(m, blocks, x);
    }
    TablesStayBuilt(m, m', h);
  }

  // ----- Rings as the guest finds them

  /** From the header, Flink visits every node in order and returns. */
  ghost predicate Traversable(m: seq<byte>, ring: seq<Node>) {
    && ring != []
    && (forall k :: 0 <= k < |ring| ==> Follow(m, CR3, ring[0].v, k) == Some(ring[k].v))
    && Follow(m, CR3, ring[0].v, |ring|) == Some(ring[0].v)
    && (forall i :: 0 <= i < |ring| ==> Blink(m, CR3, ring[Next(i, |ring|)].v) == Some(ring[i].v))
  }

  lemma LinkedIsTraversable(m: seq<byte>, h: nat, ring: seq<Node>)
    requires h < 512 && TablesBuilt(m, h) && InKernelWindow(ring) && Linked(m, ring) && ring != []
    ensures Traversable(m, ring)
  {
    hide TablesBuilt;
    hide InKernelWindow;
    hide Linked;
    hide Mapped;
    hide Blink;
    WindowIsMapped(m, h, ring);
    FollowRing(m, CR3, ring);
    forall i | 0 <= i < |ring|
      ensures Blink(m, CR3, ring[Next(i, |ring|)].v) == Some(ring[i].v)
    {
      GuestLinks(m, CR3, ring, i);
    }
  }

  ghost predicate BelowPaging(ring: seq<Node>, size: nat) {
    forall i :: 0 <= i < |ring| ==> ring[i].p + size <= PAGING
  }

  lemma RingKeepsTables(m: seq<byte>, h: nat, ring: seq<Node>)
    requires h < 512 && TablesBuilt(m, h) && Spaced(ring, 16) && BelowPaging(ring, 16)
    ensures TablesBuilt(PutBlocks(m, RingBlocks(ring, |ring|)), h)
  {
    hide PutBlocks, TablesBuilt, Word;
    var blocks := RingBlocks(ring, |ring|);
    RingBlocksDisjoint(ring);
    forall b | b in blocks
      ensures b.hi <= PAGING
    {
      var i :| 0 <= i < |blocks| && blocks[i] == b;
    }
    BlocksKeepTables(m, h, blocks);
  }

  /** The HAL extension list, for any header and any nodes that keep apart. */
  lemma HalExtensionsTraversable(m: seq<byte>, h: nat, ring: seq<Node>)
    requires h < 512 && TablesBuilt(m, h) && InKernelWindow(ring) && ring != []
    requires Spaced(ring, 16) && BelowPaging(ring, 16)
    ensures Traversable(PutBlocks(m, RingBlocks(ring, |ring|)), ring)
  {
    hide PutBlocks, Traversable, TablesBuilt, RingBlocks;
    BuiltSize(m, h);
    RingIsLinked(m, ring);
    RingKeepsTables(m, h, ring);
    LinkedIsTraversable(PutBlocks(m, RingBlocks(ring, |ring|)), h, ring);
  }

  /** The record at virtual address `v`, as the guest reads it behind the links. */
  ghost predicate GuestReadsRun(m: seq<byte>, v: nat, run: MemoryRun) {
    && ReadVirtual(m, CR3, v + 0x10) == Some(run.kind)
    && ReadVirtual(m, CR3, v + 0x18) == Some(run.base / 4096)
    && ReadVirtual(m, CR3, v + 0x20) == Some(run.size / 4096)
  }

  /** The guest follows the ring and reads the runs off it, in order. */
  ghost predicate Lists(m: seq<byte>, ring: seq<Node>, runs: seq<MemoryRun>) {
    && Traversable(m, ring) && |ring| == |runs| + 1
    && forall i :: 0 <= i < |runs| ==> GuestReadsRun(m, ring[i + 1].v, runs[i])
  }

  lemma GuestReadsDescriptor(m: seq<byte>, h: nat, node: Node, run: MemoryRun)
    requires h < 512 && TablesBuilt(m, h) && DescribesAt(m, node.p, run)
    requires node.v == K_VIRT + node.p && node.p + 0x28 <= PAGING
    ensures GuestReadsRun(m, node.v, run)
  {
    hide Walk, TablesBuilt, Word64;
    KernelWindow(m, h, node.p + 0x10);
    KernelWindow(m, h, node.p + 0x18);
    KernelWindow(m, h, node.p + 0x20);
  }

  /** The memory descriptor list likewise, with what its records say. */
  lemma MemoryTraversable(m: seq<byte>, h: nat, ring: seq<Node>, runs: seq<MemoryRun>)
    requires h < 512 && TablesBuilt(m, h) && InKernelWindow(ring) && |runs| + 1 == |ring|
    requires Spaced(ring, 0x28) && BelowPaging(ring, 0x28)
    ensures TablesBuilt(PutBlocks(m, MemoryList(ring, runs)), h)
    ensures Lists(PutBlocks(m, MemoryList(ring, runs)), ring, runs)
  {
    hide PutBlocks, Traversable, TablesBuilt, Linked, MemoryList, DescribesAt, GuestReadsRun;
    var m' := PutBlocks(m, MemoryList(ring, runs));
    BuiltSize(m, h);
    MemoryIsLinked(m, ring, runs);
    MemoryKeepsTables(m, h, ring, runs);
    LinkedIsTraversable(m', h, ring);
    forall i | 0 <= i < |runs|
      ensures GuestReadsRun(m', ring[i + 1].v, runs[i])
    {
      assert DescribesAt(m', ring[i + 1].p, runs[i + 1 - 1]);
      GuestReadsDescriptor(m', h, ring[i + 1], runs[i]);
    }
  }

  lemma MemoryKeepsTables(m: seq<byte>, h: nat, ring: seq<Node>, runs: seq<MemoryRun>)
    requires h < 512 && TablesBuilt(m, h) && |runs| + 1 == |ring| && Spaced(ring, 0x28) && BelowPaging(ring, 0x28)
    ensures TablesBuilt(PutBlocks(m, MemoryList(ring, runs)), h)
  {
    hide PutBlocks, TablesBuilt, MemoryBlocks, RingBlock, DisjointBlocks, MemoryRun.Descriptor;
    var blocks := MemoryList(ring, runs);
    MemoryBlocksDisjoint(ring, Records(runs));
    forall b | b in blocks
      ensures b.hi <= PAGING
    {
      var i :| 0 <= i < |blocks| && blocks[i] == b;
      MemoryWindow(ring, Records(runs), i);
    }
    BlocksKeepTables(m, h, blocks);
  }
}

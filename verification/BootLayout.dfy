/** Where main puts the boot lists, and all of them together in the memory the guest starts with. */
module BootLayout {
  import opened Words
  import opened GuestMemory
  import opened PageTables
  import opened BootLists
  import opened BootTraversal

  /** An address in the loader parameter block's region. */
  function LpbNode(offset: nat): Node
    requires offset < 0x400_0000
  {
    Node(K_VIRT + LPB_PBASE + offset, LPB_PBASE + offset)
  }

  const MAX_MODULES := 0x3FC0

  /** The module nodes main lays out, 4 KB apart behind the loader block. */
  function BootNodes(n: nat): (r: seq<Node>)
    requires n <= MAX_MODULES
    ensures |r| == n && Roomy(r, 0x10) && Roomy(r, 0x20)
  {
    seq(n, i requires 0 <= i < n => LpbNode(0x4_0000 + i * 0x1000))
  }

  const LOAD_ORDER := LpbNode(0x10)
  const MEMORY := LpbNode(0x20)
  const BOOT_DRIVERS := LpbNode(0x30)
  const HAL_EXTENSIONS := LpbNode(0x8000 + 0xA18)

  // ----- The three linking loops, each as what it makes of memory

  /** Which modules are HAL extensions, in load order. */
  ghost predicate Selection(hal: seq<nat>, n: nat) {
    && (forall i :: 0 <= i < |hal| ==> hal[i] < n)
    && (forall i, j :: 0 <= i < j < |hal| ==> hal[i] < hal[j])
  }

  function HalNodes(n: nat, hal: seq<nat>): (r: seq<Node>)
    requires n <= MAX_MODULES && forall i :: 0 <= i < |hal| ==> hal[i] < n
    ensures |r| == |hal| && Roomy(r, 0x20)
    ensures forall i :: 0 <= i < |hal| ==> r[i] == BootNodes(n)[hal[i]]
  {
    seq(|hal|, i requires 0 <= i < |hal| => LpbNode(0x4_0000 + hal[i] * 0x1000))
  }

  function HalList(n: nat, hal: seq<nat>): (r: seq<Node>)
    requires n <= MAX_MODULES && forall i :: 0 <= i < |hal| ==> hal[i] < n
    ensures |r| == |hal| + 1
  {
    HalRing(HalNodes(n, hal), HAL_EXTENSIONS)
  }

  function AfterHal(m: seq<byte>, n: nat, hal: seq<nat>): seq<byte>
    requires n <= MAX_MODULES && forall i :: 0 <= i < |hal| ==> hal[i] < n
  {
    if hal == [] then m else PutBlocks(m, RingBlocks(HalList(n, hal), |hal| + 1))
  }

  function BootModules(n: nat): seq<Block>
    requires 0 < n <= MAX_MODULES
  {
    ModuleBlocks(BootNodes(n), LOAD_ORDER, BOOT_DRIVERS, n)
  }

  function AfterModules(m: seq<byte>, n: nat): seq<byte>
    requires 0 < n <= MAX_MODULES
  {
    PutBlocks(m, BootModules(n))
  }

  /** The memory descriptors' ring: the header and seven nodes. */
  function MemoryRing(): (r: seq<Node>)
    ensures |r| == 8
  {
    [MEMORY] + seq(7, i requires 0 <= i < 7 => LpbNode(0x2_0000 + i * 0x1000))
  }

  function AfterMemory(m: seq<byte>, runs: seq<MemoryRun>): seq<byte>
    requires |runs| == 7
  {
    PutBlocks(m, MemoryList(MemoryRing(), runs))
  }

  // ----- Each ring keeps to its own places

  lemma BootNodesSpaced(n: nat)
    requires 0 < n <= MAX_MODULES
    ensures ModulesSpaced(BootNodes(n), LOAD_ORDER, BOOT_DRIVERS)
    ensures InKernelWindow([LOAD_ORDER] + BootNodes(n)) && InKernelWindow(Shifted(BootNodes(n), 0x10))
    ensures InKernelWindow([BOOT_DRIVERS])
  {}

  lemma HalListAt(n: nat, hal: seq<nat>, i: nat)
    requires n <= MAX_MODULES && (forall j :: 0 <= j < |hal| ==> hal[j] < n) && 1 <= i < |hal| + 1
    ensures HalList(n, hal)[i] == LpbNode(0x4_0020 + hal[i - 1] * 0x1000)
  {
    assert HalNodes(n, hal)[i - 1] == BootNodes(n)[hal[i - 1]];
    assert Shifted(HalNodes(n, hal), 0x20)[i - 1] == HalList(n, hal)[i];
  }

  lemma HalListSpaced(n: nat, hal: seq<nat>)
    requires n <= MAX_MODULES && Selection(hal, n)
    ensures Spaced(HalList(n, hal), 16) && BelowPaging(HalList(n, hal), 16) && InKernelWindow(HalList(n, hal))
  {
    forall i | 1 <= i < |hal| + 1
      ensures HalList(n, hal)[i] == LpbNode(0x4_0020 + hal[i - 1] * 0x1000)
    {
      HalListAt(n, hal, i);
    }
  }

  lemma MemoryRingSpaced()
    ensures Spaced(MemoryRing(), 0x28) && BelowPaging(MemoryRing(), 0x28) && InKernelWindow(MemoryRing())
  {
    forall i | 0 <= i < 8
      ensures MemoryRing()[i] == LpbNode(if i == 0 then 0x20 else 0x1_F000 + i * 0x1000)
    {}
    hide MemoryRing;
  }

  lemma ModulesDisjoint(n: nat)
    requires 0 < n <= MAX_MODULES
    ensures DisjointBlocks(BootModules(n)) && forall b :: b in BootModules(n) ==> b.hi <= PAGING
  {
    hide PutBlocks, ModuleBlocks, DisjointBlocks, ModulesSpaced, InKernelWindow;
    var nodes := BootNodes(n);
    BootNodesSpaced(n);
    ModuleBlocksDisjoint(nodes, LOAD_ORDER, BOOT_DRIVERS);
    forall b | b in BootModules(n)
      ensures b.hi <= PAGING
    {
      var i :| 0 <= i < n + 2 && BootModules(n)[i] == b;
      ModuleWindow(nodes, LOAD_ORDER, BOOT_DRIVERS, i);
    }
  }

  // ----- A ring survives what is written elsewhere

  /** The two memories agree on every link of the ring. */
  ghost predicate SameLinks(m: seq<byte>, m': seq<byte>, ring: seq<Node>) {
    |m'| == |m| && forall i, x :: 0 <= i < |ring| && ring[i].p <= x < ring[i].p + 16 && x < |m| ==> m'[x] == m[x]
  }

  lemma StaysLinked(m: seq<byte>, m': seq<byte>, ring: seq<Node>)
    requires Linked(m, ring) && SameLinks(m, m', ring)
    ensures Linked(m', ring)
  {
    hide Word64;
    forall i | 0 <= i < |ring|
      ensures LinkedAt(m', ring, i)
    {
      assert LinkedAt(m, ring, i);
      SameWord(m, m', ring[i].p);
      SameWord(m, m', ring[i].p + 8);
    }
  }

  ghost predicate Misses(blocks: seq<Block>, ring: seq<Node>) {
    forall k, i :: 0 <= k < |blocks| && 0 <= i < |ring| ==> blocks[k].hi <= ring[i].p || ring[i].p + 16 <= blocks[k].lo
  }

  lemma BlocksKeepLinks(m: seq<byte>, blocks: seq<Block>, ring: seq<Node>)
    requires DisjointBlocks(blocks) && Misses(blocks, ring)
    ensures SameLinks(m, PutBlocks(m, blocks), ring)
  {
    forall i, x | 0 <= i < |ring| && ring[i].p <= x < ring[i].p + 16 && x < |m|
      ensures PutBlocks(m, blocks)[x] == m[x]
    {
      assert !InBlocks(blocks, x);
      BlocksLocal(m, blocks, x);
    }
  }

  // ----- The lists one after the other

  /** The extension list, when there is one. */
  lemma HalListWritten(m: seq<byte>, h: nat, n: nat, hal: seq<nat>)
    requires h < 512 && TablesBuilt(m, h) && n <= MAX_MODULES && Selection(hal, n)
    ensures TablesBuilt(AfterHal(m, n, hal), h)
    ensures hal != [] ==> Linked(AfterHal(m, n, hal), HalList(n, hal))
  {
    hide PutBlocks, TablesBuilt, Linked, HalList, Spaced, BelowPaging, InKernelWindow;
    HalListSpaced(n, hal);
    BuiltSize(m, h);
    if hal != [] {
      RingIsLinked(m, HalList(n, hal));
      RingKeepsTables(m, h, HalList(n, hal));
    }
  }

  lemma ModulesWritten(m: seq<byte>, h: nat, n: nat)
    requires h < 512 && TablesBuilt(m, h) && 0 < n <= MAX_MODULES
    ensures var m' := AfterModules(m, n);
            && TablesBuilt(m', h) && Linked(m', [LOAD_ORDER] + BootNodes(n))
            && Linked(m', Shifted(BootNodes(n), 0x10)) && Linked(m', [BOOT_DRIVERS])
  {
    hide PutBlocks, ModuleBlocks, TablesBuilt, Linked, DisjointBlocks, ModulesSpaced, InKernelWindow;
    BuiltSize(m, h);
    BootNodesSpaced(n);
    ModulesDisjoint(n);
    ModulesAreLinked(m, BootNodes(n), LOAD_ORDER, BOOT_DRIVERS);
    BlocksKeepTables(m, h, BootModules(n));
  }

  /**
   The module list as booted: for any number of modules, the guest that follows Flink from the loader
   block's header visits the nodes in order and returns, Blink leads back, and the memory-order ring
   closes without a header.
   */
  lemma BootModulesTraversable(m: seq<byte>, h: nat, n: nat)
    requires h < 512 && TablesBuilt(m, h) && 0 < n <= MAX_MODULES
    ensures var m' := AfterModules(m, n);
            && Traversable(m', [LOAD_ORDER] + BootNodes(n)) && Traversable(m', Shifted(BootNodes(n), 0x10))
            && Traversable(m', [BOOT_DRIVERS])
  {
    hide AfterModules, TablesBuilt, Linked, Traversable, InKernelWindow, ModulesSpaced;
    ModulesWritten(m, h, n);
    BootNodesSpaced(n);
    LinkedIsTraversable(AfterModules(m, n), h, [LOAD_ORDER] + BootNodes(n));
    LinkedIsTraversable(AfterModules(m, n), h, Shifted(BootNodes(n), 0x10));
    LinkedIsTraversable(AfterModules(m, n), h, [BOOT_DRIVERS]);
  }

  // ----- All three loops

  lemma ModulesMissHalList(n: nat, hal: seq<nat>)
    requires 0 < n <= MAX_MODULES && Selection(hal, n)
    ensures Misses(BootModules(n), HalList(n, hal))
  {
    hide ModuleBlocks;
    forall k, i | 0 <= k < n + 2 && 0 <= i < |hal| + 1
      ensures BootModules(n)[k].hi <= HalList(n, hal)[i].p || HalList(n, hal)[i].p + 16 <= BootModules(n)[k].lo
    {
      ModuleWindow(BootNodes(n), LOAD_ORDER, BOOT_DRIVERS, k);
    }
  }

  lemma MemoryListWindows(runs: seq<MemoryRun>)
    requires |runs| == 7
    ensures var blocks := MemoryList(MemoryRing(), runs);
            && |blocks| == 8 && DisjointBlocks(blocks)
            && forall k :: 0 <= k < 8 ==>
                 if k == 7 then blocks[k].lo == LPB_PBASE + 0x20 && blocks[k].hi == LPB_PBASE + 0x30
                 else LPB_PBASE + 0x2_0000 <= blocks[k].lo && blocks[k].hi <= LPB_PBASE + 0x2_7000
  {
    hide MemoryBlocks, RingBlock, DisjointBlocks;
    MemoryRingSpaced();
    MemoryBlocksDisjoint(MemoryRing(), Records(runs));
    var blocks := MemoryList(MemoryRing(), runs);
    forall k | 0 <= k < 8
      ensures if k == 7 then blocks[k].lo == LPB_PBASE + 0x20 && blocks[k].hi == LPB_PBASE + 0x30
              else LPB_PBASE + 0x2_0000 <= blocks[k].lo && blocks[k].hi <= LPB_PBASE + 0x2_7000
    {
      MemoryWindow(MemoryRing(), Records(runs), k);
    }
  }

  /** Links that lie clear of the memory list's header and of its nodes. */
  ghost predicate ClearOfMemory(ring: seq<Node>) {
    forall i :: 0 <= i < |ring| ==>
      var p := ring[i].p;
      p + 16 <= LPB_PBASE + 0x20 || LPB_PBASE + 0x30 <= p <= LPB_PBASE + 0x1_FFF0 || LPB_PBASE + 0x2_7000 <= p
  }

  lemma MemoryListMisses(runs: seq<MemoryRun>, ring: seq<Node>)
    requires |runs| == 7 && ClearOfMemory(ring)
    ensures Misses(MemoryList(MemoryRing(), runs), ring)
  {
    hide MemoryList;
    MemoryListWindows(runs);
  }

  lemma ListsClearOfMemory(n: nat, hal: seq<nat>)
    requires 0 < n <= MAX_MODULES && Selection(hal, n)
    ensures ClearOfMemory(HalList(n, hal)) && ClearOfMemory([LOAD_ORDER] + BootNodes(n))
    ensures ClearOfMemory(Shifted(BootNodes(n), 0x10)) && ClearOfMemory([BOOT_DRIVERS])
  {
    forall i | 1 <= i < |hal| + 1
      ensures HalList(n, hal)[i] == LpbNode(0x4_0020 + hal[i - 1] * 0x1000)
    {
      HalListAt(n, hal, i);
    }
  }

  /** The region of the loader block and the module nodes, where every list but the memory list is linked. */
  ghost predicate SameLists(m: seq<byte>, m': seq<byte>, n: nat) {
    |m'| == |m| && forall x :: LPB_PBASE <= x < LPB_PBASE + 0x4_0000 + n * 0x1000 && x < |m| ==> m'[x] == m[x]
  }

  ghost predicate InRegion(ring: seq<Node>, n: nat) {
    forall i :: 0 <= i < |ring| ==> LPB_PBASE <= ring[i].p && ring[i].p + 16 <= LPB_PBASE + 0x4_0000 + n * 0x1000
  }

  lemma ListsInRegion(n: nat, hal: seq<nat>)
    requires 0 < n <= MAX_MODULES && Selection(hal, n)
    ensures InRegion(HalList(n, hal), n) && InRegion([LOAD_ORDER] + BootNodes(n), n)
    ensures InRegion(Shifted(BootNodes(n), 0x10), n) && InRegion([BOOT_DRIVERS], n)
  {
    forall i | 1 <= i < |hal| + 1
      ensures HalList(n, hal)[i] == LpbNode(0x4_0020 + hal[i - 1] * 0x1000)
    {
      HalListAt(n, hal, i);
    }
  }

  /** A ring linked before the memory list is written can be walked afterwards. */
  lemma StillTraversable(m: seq<byte>, between: seq<byte>, h: nat, n: nat,
                         runs: seq<MemoryRun>, ring: seq<Node>)
    requires h < 512 && TablesBuilt(between, h) && SameLists(m, between, n) && |runs| == 7
    requires Linked(m, ring) && InRegion(ring, n) && ClearOfMemory(ring) && InKernelWindow(ring) && ring != []
    ensures Traversable(AfterMemory(between, runs), ring)
  {
    hide PutBlocks, MemoryList, TablesBuilt, Linked, Traversable, InKernelWindow, DisjointBlocks, ClearOfMemory, Misses;
    StaysLinked(m, between, ring);
    MemoryListWindows(runs);
    MemoryListMisses(runs, ring);
    BlocksKeepLinks(between, MemoryList(MemoryRing(), runs), ring);
    StaysLinked(between, AfterMemory(between, runs), ring);
    MemoryRingSpaced();
    MemoryKeepsTables(between, h, MemoryRing(), runs);
    LinkedIsTraversable(AfterMemory(between, runs), h, ring);
  }

  /** The module rings, and the extension list from before, once both loops have run. */
  lemma HalAndModulesLinked(m: seq<byte>, h: nat, n: nat, hal: seq<nat>)
    requires h < 512 && TablesBuilt(m, h) && 0 < n <= MAX_MODULES && Selection(hal, n)
    ensures var m' := AfterModules(AfterHal(m, n, hal), n);
            && (hal != [] ==> Linked(m', HalList(n, hal))) && Linked(m', [LOAD_ORDER] + BootNodes(n))
            && Linked(m', Shifted(BootNodes(n), 0x10)) && Linked(m', [BOOT_DRIVERS])
  {
    hide AfterHal, PutBlocks, BootModules, TablesBuilt, Linked, DisjointBlocks, HalList, Misses;
    var m1 := AfterHal(m, n, hal);
    HalListWritten(m, h, n, hal);
    ModulesWritten(m1, h, n);
    if hal != [] {
      ModulesDisjoint(n);
      ModulesMissHalList(n, hal);
      BlocksKeepLinks(m1, BootModules(n), HalList(n, hal));
      StaysLinked(m1, AfterModules(m1, n), HalList(n, hal));
    }
  }

  /**
   All the lists at once: after the three loops, with anything written in between that leaves the lists
   and the page tables alone, the guest can walk every ring both ways, and reads the memory runs off theirs.
   */
  lemma BootListsTraversable(m: seq<byte>, h: nat, n: nat, hal: seq<nat>,
                             between: seq<byte>, runs: seq<MemoryRun>)
    requires h < 512 && TablesBuilt(m, h) && 0 < n <= MAX_MODULES && Selection(hal, n) && |runs| == 7
    requires SameLists(AfterModules(AfterHal(m, n, hal), n), between, n) && TablesBuilt(between, h)
    ensures var m' := AfterMemory(between, runs);
            && (hal != [] ==> Traversable(m', HalList(n, hal)))
            && Traversable(m', [LOAD_ORDER] + BootNodes(n)) && Traversable(m', Shifted(BootNodes(n), 0x10))
            && Traversable(m', [BOOT_DRIVERS])
            && Lists(m', MemoryRing(), runs)
  {
    hide AfterHal, AfterModules, TablesBuilt, Linked, Traversable, HalList, MemoryList, ClearOfMemory, InRegion;
    hide InKernelWindow, SameLists, Lists, PutBlocks;
    var m2 := AfterModules(AfterHal(m, n, hal), n);
    HalAndModulesLinked(m, h, n, hal);
    ListsClearOfMemory(n, hal);
    ListsInRegion(n, hal);
    BootNodesSpaced(n);
    HalListSpaced(n, hal);
    if hal != [] { StillTraversable(m2, between, h, n, runs, HalList(n, hal)); }
    StillTraversable(m2, between, h, n, runs, [LOAD_ORDER] + BootNodes(n));
    StillTraversable(m2, between, h, n, runs, Shifted(BootNodes(n), 0x10));
    StillTraversable(m2, between, h, n, runs, [BOOT_DRIVERS]);
    MemoryRingSpaced();
    MemoryTraversable(between, h, MemoryRing(), runs);
  }

  /** The same lists by address: where the guest stands after `k` steps from each head. */
  lemma ListsByAddress(m: seq<byte>, n: nat, hal: seq<nat>, k: nat)
    requires n <= MAX_MODULES && Selection(hal, n)
    ensures k < n && Traversable(m, [LOAD_ORDER] + BootNodes(n)) ==>
              Follow(m, CR3, 0xFFFF_F800_0400_0010, k + 1) == Some(0xFFFF_F800_0404_0000 + 0x1000 * k)
    ensures k < n && Traversable(m, Shifted(BootNodes(n), 0x10)) ==>
              Follow(m, CR3, 0xFFFF_F800_0404_0010, k) == Some(0xFFFF_F800_0404_0010 + 0x1000 * k)
    ensures k < |hal| && Traversable(m, HalList(n, hal)) ==>
              Follow(m, CR3, 0xFFFF_F800_0400_8A18, k + 1) == Some(0xFFFF_F800_0404_0020 + 0x1000 * hal[k])
    ensures k < 7 && Traversable(m, MemoryRing()) ==>
              Follow(m, CR3, 0xFFFF_F800_0400_0020, k + 1) == Some(0xFFFF_F800_0402_0000 + 0x1000 * k)
    ensures Traversable(m, [BOOT_DRIVERS]) ==>
              Follow(m, CR3, 0xFFFF_F800_0400_0030, 1) == Some(0xFFFF_F800_0400_0030)
  {
    hide Traversable, Follow, HalList, Shifted, HalNodes, MemoryRing;
    if k < n {
      Reached(m, [LOAD_ORDER] + BootNodes(n), k + 1);
      Reached(m, Shifted(BootNodes(n), 0x10), k);
      assert BootNodes(n)[k] == LpbNode(0x4_0000 + k * 0x1000);
      SecondAt(n, 0);
      SecondAt(n, k);
    }
    if k < |hal| {
      HalListAt(n, hal, k + 1);
      HalListHead(n, hal);
      Reached(m, HalList(n, hal), k + 1);
    }
    if k < 7 {
      MemoryRingAt(k);
      Reached(m, MemoryRing(), k + 1);
    }
    FollowToStart(m);
  }

  lemma Reached(m: seq<byte>, ring: seq<Node>, k: nat)
    requires k < |ring|
    ensures Traversable(m, ring) ==> Follow(m, CR3, ring[0].v, k) == Some(ring[k].v)
  {
    hide Follow, Blink;
  }

  lemma FollowToStart(m: seq<byte>)
    ensures Traversable(m, [BOOT_DRIVERS]) ==> Follow(m, CR3, BOOT_DRIVERS.v, 1) == Some(BOOT_DRIVERS.v)
  {
    hide Follow, Blink;
  }

  lemma SecondAt(n: nat, k: nat)
    requires k < n <= MAX_MODULES
    ensures Shifted(BootNodes(n), 0x10)[k] == LpbNode(0x4_0010 + k * 0x1000)
  {}

  lemma HalListHead(n: nat, hal: seq<nat>)
    requires n <= MAX_MODULES && forall i :: 0 <= i < |hal| ==> hal[i] < n
    ensures HalList(n, hal)[0] == HAL_EXTENSIONS
  {}

  lemma MemoryRingAt(k: nat)
    requires k < 7
    ensures MemoryRing()[0] == MEMORY && MemoryRing()[k + 1] == LpbNode(0x2_0000 + k * 0x1000)
  {}
}

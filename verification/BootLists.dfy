/** The boot lists: doubly linked rings in guest memory whose links are virtual addresses. */
module BootLists {
  import opened Words
  import opened GuestMemory

  /** A LIST_ENTRY, by both its addresses. */
  datatype Node = Node(v: u64, p: nat)

  function Next(i: nat, n: nat): nat
    requires i < n
  {
    if i + 1 == n then 0 else i + 1
  }

  function Prev(i: nat, n: nat): nat
    requires i < n
  {
    if i == 0 then n - 1 else i - 1
  }

  ghost predicate LinkedAt(m: seq<byte>, ring: seq<Node>, i: nat)
    requires i < |ring|
  {
    && ring[i].p + 16 <= |m|
    && Word64(m, ring[i].p) == ring[Next(i, |ring|)].v
    && Word64(m, ring[i].p + 8) == ring[Prev(i, |ring|)].v
  }

  /** Every Flink names the next node, every Blink the one before, around the ring. */
  ghost predicate Linked(m: seq<byte>, ring: seq<Node>) {
    forall i :: 0 <= i < |ring| ==> LinkedAt(m, ring, i)
  }

  // ----- Stores, in blocks that keep to their own windows

  datatype Store = Store(at: nat, data: seq<byte>)

  function Word(at: nat, x: u64): Store { Store(at, ToLe(x, 8)) }

  /** A failed store changes nothing: its result is dropped. */
  function Put(m: seq<byte>, s: Store): (r: seq<byte>)
    ensures |r| == |m|
  {
    if s.at + |s.data| <= |m| then Splice(m, s.at, s.data) else m
  }

  function PutAll(m: seq<byte>, stores: seq<Store>): (r: seq<byte>)
    ensures |r| == |m|
    decreases stores
  {
    if stores == [] then m else PutAll(Put(m, stores[0]), stores[1..])
  }

  datatype Block = Block(lo: nat, hi: nat, stores: seq<Store>) {
    ghost predicate Tidy() {
      lo <= hi && forall s :: s in stores ==> lo <= s.at && s.at + |s.data| <= hi
    }
  }

  function PutBlocks(m: seq<byte>, blocks: seq<Block>): (r: seq<byte>)
    ensures |r| == |m|
    decreases blocks
  {
    if blocks == [] then m else PutBlocks(PutAll(m, blocks[0].stores), blocks[1..])
  }

  ghost predicate DisjointBlocks(blocks: seq<Block>) {
    && (forall b :: b in blocks ==> b.Tidy())
    && (forall i, j :: 0 <= i < j < |blocks| ==> blocks[i].hi <= blocks[j].lo || blocks[j].hi <= blocks[i].lo)
  }

  ghost predicate InBlocks(blocks: seq<Block>, x: nat) {
    exists b :: b in blocks && b.lo <= x < b.hi
  }

  lemma {:induction false} PutAllLocal(m: seq<byte>, stores: seq<Store>, lo: nat, hi: nat)
    requires forall s :: s in stores ==> lo <= s.at && s.at + |s.data| <= hi
    ensures SameOutside(m, PutAll(m, stores), lo, hi)
    decreases stores
  {
    if stores != [] {
      assert stores[0] in stores && forall s :: s in stores[1..] ==> s in stores;
      PutAllLocal(Put(m, stores[0]), stores[1..], lo, hi);
    }
  }

  lemma {:induction false} PutAllAgree(m: seq<byte>, m': seq<byte>, stores: seq<Store>, lo: nat, hi: nat)
    requires |m| == |m'| && forall x :: lo <= x < hi && x < |m| ==> m'[x] == m[x]
    ensures forall x :: lo <= x < hi && x < |m| ==> PutAll(m', stores)[x] == PutAll(m, stores)[x]
    decreases stores
  {
    if stores != [] { PutAllAgree(Put(m, stores[0]), Put(m', stores[0]), stores[1..], lo, hi); }
  }

  lemma {:induction false} BlocksLocal(m: seq<byte>, blocks: seq<Block>, x: nat)
    requires (forall b :: b in blocks ==> b.Tidy()) && x < |m| && !InBlocks(blocks, x)
    ensures PutBlocks(m, blocks)[x] == m[x]
    decreases blocks
  {
    if blocks != [] {
      var b, rest := blocks[0], blocks[1..];
      assert b in blocks && forall c :: c in rest ==> c in blocks;
      assert !InBlocks(rest, x);
      PutAllLocal(m, b.stores, b.lo, b.hi);
      BlocksLocal(PutAll(m, b.stores), rest, x);
    }
  }

  /** In its own window a block leaves what it would leave alone, whatever the other blocks do. */
  lemma {:induction false} BlocksAreIndependent(m: seq<byte>, blocks: seq<Block>, k: nat, x: nat)
    requires DisjointBlocks(blocks) && k < |blocks| && blocks[k].lo <= x < blocks[k].hi && x < |m|
    ensures PutBlocks(m, blocks)[x] == PutAll(m, blocks[k].stores)[x]
    decreases blocks
  {
    hide DisjointBlocks, PutAll;
    var b, rest := blocks[0], blocks[1..];
    DisjointRest(blocks);
    PutAllLocal(m, b.stores, b.lo, b.hi);
    var m1 := PutAll(m, b.stores);
    if k == 0 {
      assert !InBlocks(rest, x);
      BlocksLocal(m1, rest, x);
    } else {
      assert rest[k - 1] == blocks[k] && blocks[k] in rest;
      BlocksAreIndependent(m1, rest, k - 1, x);
      PutAllAgree(m, m1, blocks[k].stores, blocks[k].lo, blocks[k].hi);
    }
  }

  lemma DisjointRest(blocks: seq<Block>)
    requires DisjointBlocks(blocks) && blocks != []
    ensures DisjointBlocks(blocks[1..]) && blocks[0].Tidy() && forall b :: b in blocks[1..] ==> b.Tidy()
    ensures forall b :: b in blocks[1..] ==> blocks[0].hi <= b.lo || b.hi <= blocks[0].lo
  {
    var rest := blocks[1..];
    assert forall b :: b in rest ==> b in blocks;
    forall i, j | 0 <= i < j < |rest|
      ensures rest[i].hi <= rest[j].lo || rest[j].hi <= rest[i].lo
    {
      assert rest[i] == blocks[i + 1] && rest[j] == blocks[j + 1];
    }
    forall b | b in rest
      ensures blocks[0].hi <= b.lo || b.hi <= blocks[0].lo
    {
      var j :| 0 <= j < |rest| && rest[j] == b;
      assert blocks[j + 1] == b;
    }
  }

  /** A word inside one block's window, after all blocks. */
  lemma WordOfBlock(m: seq<byte>, blocks: seq<Block>, k: nat, a: nat)
    requires DisjointBlocks(blocks) && k < |blocks| && blocks[k].lo <= a && a + 8 <= blocks[k].hi && a + 8 <= |m|
    ensures Word64(PutBlocks(m, blocks), a) == Word64(PutAll(m, blocks[k].stores), a)
  {
    forall x | a <= x < a + 8
      ensures PutBlocks(m, blocks)[x] == PutAll(m, blocks[k].stores)[x]
    {
      BlocksAreIndependent(m, blocks, k, x);
    }
    SameWord(PutBlocks(m, blocks), PutAll(m, blocks[k].stores), a);
  }

  lemma {:induction false} PutBlocksAppend(m: seq<byte>, a: seq<Block>, b: seq<Block>)
    ensures PutBlocks(m, a + b) == PutBlocks(PutBlocks(m, a), b)
    decreases a
  {
    hide PutAll;
    if a == [] {
      assert a + b == b;
    } else {
      assert (a + b)[0] == a[0] && (a + b)[1..] == a[1..] + b;
      PutBlocksAppend(PutAll(m, a[0].stores), a[1..], b);
    }
  }

  lemma PutBlocksLast(m: seq<byte>, a: seq<Block>, b: Block)
    ensures PutBlocks(m, a + [b]) == PutAll(PutBlocks(m, a), b.stores)
  {
    PutBlocksAppend(m, a, [b]);
    assert [b][1..] == [];
    assert PutBlocks(PutBlocks(m, a), [b]) == PutBlocks(PutAll(PutBlocks(m, a), [b][0].stores), []);
  }

  method PutLink(vm: Vm, at: nat, x: u64)
    requires vm.Valid()
    modifies vm.mem
    ensures vm.Contents() == Put(old(vm.Contents()), Word(at, x))
  {
    var ok := vm.WriteMemory(at, ToLe(x, 8));
  }

  // ----- A plain ring: the HAL extension list

  /** The two links of node `i`. */
  function RingBlock(ring: seq<Node>, i: nat): Block
    requires i < |ring|
  {
    Block(ring[i].p, ring[i].p + 16,
          [Word(ring[i].p, ring[Next(i, |ring|)].v), Word(ring[i].p + 8, ring[Prev(i, |ring|)].v)])
  }

  function RingBlocks(ring: seq<Node>, k: nat): (r: seq<Block>)
    requires k <= |ring|
    ensures |r| == k
  {
    seq(k, i requires 0 <= i < k => RingBlock(ring, i))
  }

  /** Nodes `gap` bytes apart or more, and in memory. */
  ghost predicate Spaced(ring: seq<Node>, gap: nat) {
    && (forall i :: 0 <= i < |ring| ==> ring[i].p + gap <= MEM_SIZE)
    && (forall i, j :: 0 <= i < j < |ring| ==> ring[i].p + gap <= ring[j].p || ring[j].p + gap <= ring[i].p)
  }

  lemma TwoWords(m: seq<byte>, p: nat, x: u64, y: u64)
    requires p + 16 <= |m|
    ensures var r := PutAll(m, [Word(p, x), Word(p + 8, y)]); Word64(r, p) == x && Word64(r, p + 8) == y
  {
    hide ToLe;
    hide Word64;
    var m1 := PutWord(m, p, x);
    WordAfterPut(m, p, x);
    WordAfterPut(m1, p + 8, y);
    assert [Word(p, x), Word(p + 8, y)][1..] == [Word(p + 8, y)] && [Word(p + 8, y)][1..] == [];
    assert PutAll(m1, [Word(p + 8, y)]) == PutAll(PutWord(m1, p + 8, y), []);
  }

  lemma RingBlocksDisjoint(ring: seq<Node>)
    requires Spaced(ring, 16)
    ensures DisjointBlocks(RingBlocks(ring, |ring|))
  {
    hide ToLe;
  }

  lemma RingIsLinked(m: seq<byte>, ring: seq<Node>)
    requires |m| == MEM_SIZE && Spaced(ring, 16)
    ensures Linked(PutBlocks(m, RingBlocks(ring, |ring|)), ring)
  {
    hide PutAll;
    hide PutBlocks;
    hide Word64;
    hide ToLe;
    RingBlocksDisjoint(ring);
    var blocks := RingBlocks(ring, |ring|);
    forall i | 0 <= i < |ring|
      ensures LinkedAt(PutBlocks(m, blocks), ring, i)
    {
      WordOfBlock(m, blocks, i, ring[i].p);
      WordOfBlock(m, blocks, i, ring[i].p + 8);
      TwoWords(m, ring[i].p, ring[Next(i, |ring|)].v, ring[Prev(i, |ring|)].v);
    }
  }

  /** Adding `offset` to a node's address does not overflow. */
  predicate Roomy(nodes: seq<Node>, offset: nat) {
    forall i :: 0 <= i < |nodes| ==> nodes[i].v + offset < TWO64
  }

  function Shifted(nodes: seq<Node>, offset: nat): (r: seq<Node>)
    requires Roomy(nodes, offset)
    ensures |r| == |nodes|
  {
    seq(|nodes|, i requires 0 <= i < |nodes| => Node(nodes[i].v + offset, nodes[i].p + offset))
  }

  /** The list as a ring: the header, then the entries 0x20 into the nodes. */
  function HalRing(nodes: seq<Node>, head: Node): (r: seq<Node>)
    requires Roomy(nodes, 0x20)
    ensures |r| == |nodes| + 1
  {
    [head] + Shifted(nodes, 0x20)
  }

  lemma RingBlocksSnoc(ring: seq<Node>, i: nat)
    requires i < |ring|
    ensures RingBlocks(ring, i) + [RingBlock(ring, i)] == RingBlocks(ring, i + 1)
  {
    hide RingBlock;
  }

  lemma TwoPuts(m: seq<byte>, s: Store, t: Store)
    ensures PutAll(m, [s, t]) == Put(Put(m, s), t)
  {
    hide Put;
    assert [s, t][1..] == [t] && [t][1..] == [];
    assert PutAll(Put(m, s), [t]) == PutAll(Put(Put(m, s), t), []);
  }

  /** Storing the two links of ring node `i` extends the blocks done by one. */
  lemma RingStep(m0: seq<byte>, ring: seq<Node>, i: nat)
    requires i < |ring|
    ensures var b, m := RingBlock(ring, i), PutBlocks(m0, RingBlocks(ring, i));
            && |b.stores| == 2
            && PutBlocks(m0, RingBlocks(ring, i + 1)) == Put(Put(m, b.stores[0]), b.stores[1])
  {
    hide ToLe;
    hide Put;
    hide PutAll;
    hide PutBlocks;
    var b := RingBlock(ring, i);
    assert b.stores == [b.stores[0], b.stores[1]];
    RingBlocksSnoc(ring, i);
    PutBlocksLast(m0, RingBlocks(ring, i), b);
    TwoPuts(PutBlocks(m0, RingBlocks(ring, i)), b.stores[0], b.stores[1]);
  }

  function HalAt(nodes: seq<Node>, head: Node, i: nat): nat
    requires i <= |nodes|
  {
    if i == 0 then head.p else nodes[i - 1].p + 0x20
  }

  function HalNext(nodes: seq<Node>, head: Node, i: nat): nat
    requires 0 < |nodes| && i <= |nodes|
  {
    if i == |nodes| then head.v else nodes[i].v + 0x20
  }

  function HalPrev(nodes: seq<Node>, head: Node, i: nat): nat
    requires 0 < |nodes| && i <= |nodes|
  {
    if i == 0 then nodes[|nodes| - 1].v + 0x20 else if i == 1 then head.v else nodes[i - 2].v + 0x20
  }

  lemma HalStep(m0: seq<byte>, nodes: seq<Node>, head: Node, i: nat)
    requires 0 < |nodes| && i <= |nodes| && Roomy(nodes, 0x20)
    ensures HalNext(nodes, head, i) < TWO64 && HalPrev(nodes, head, i) < TWO64
    ensures var ring, p := HalRing(nodes, head), HalAt(nodes, head, i);
            PutBlocks(m0, RingBlocks(ring, i + 1)) ==
            Put(Put(PutBlocks(m0, RingBlocks(ring, i)), Word(p, HalNext(nodes, head, i))),
                Word(p + 8, HalPrev(nodes, head, i)))
  {
    hide ToLe;
    hide Put;
    hide PutBlocks;
    hide RingBlocks;
    var ring := HalRing(nodes, head);
    RingStep(m0, ring, i);
  }

  method PutLinks(vm: Vm, at: nat, flink: u64, blink: u64)
    requires vm.Valid()
    modifies vm.mem
    ensures vm.Contents() == Put(Put(old(vm.Contents()), Word(at, flink)), Word(at + 8, blink))
  {
    hide *;
    PutLink(vm, at, flink);
    PutLink(vm, at + 8, blink);
  }

  /** Header first, then node by node; an empty list leaves the header alone. */
  method LinkHalExtensions(vm: Vm, nodes: seq<Node>, head: Node)
    requires vm.Valid() && Roomy(nodes, 0x20)
    modifies vm.mem
    ensures vm.Contents() == if nodes == [] then old(vm.Contents())
                             else PutBlocks(old(vm.Contents()), RingBlocks(HalRing(nodes, head), |nodes| + 1))
  {
    hide PutBlocks;
    hide RingBlocks;
    hide HalRing;
    hide Put;
    hide Word;
    if nodes == [] { return; }
    ghost var m0, ring := vm.Contents(), HalRing(nodes, head);
    NoBlocks(m0, ring);
    var n := |nodes|;
    PutLinks(vm, head.p, nodes[0].v + 0x20, nodes[n - 1].v + 0x20);
    HalStep(m0, nodes, head, 0);
    for i := 0 to n
      invariant vm.Contents() == PutBlocks(m0, RingBlocks(ring, i + 1))
    {
      var entry := nodes[i].p + 0x20;
      var next := if i == n - 1 then head.v else nodes[i + 1].v + 0x20;
      var prev := if i == 0 then head.v else nodes[i - 1].v + 0x20;
      PutLinks(vm, entry, next, prev);
      HalStep(m0, nodes, head, i + 1);
    }
  }

  lemma NoBlocks(m: seq<byte>, ring: seq<Node>)
    ensures PutBlocks(m, RingBlocks(ring, 0)) == m
  {}

  // ----- The module list: two rings through the same nodes

  /** Node `i`'s four links: the load-order ring through the header, and the memory-order ring without one. */
  function ModuleBlock(nodes: seq<Node>, head: Node, i: nat): Block
    requires i < |nodes| && Roomy(nodes, 0x10)
  {
    var n, p := |nodes|, nodes[i].p;
    Block(p, p + 0x20,
          [Word(p, if i == n - 1 then head.v else nodes[i + 1].v),
           Word(p + 8, if i == 0 then head.v else nodes[i - 1].v),
           Word(p + 0x10, nodes[Next(i, n)].v + 0x10), Word(p + 0x18, nodes[Prev(i, n)].v + 0x10)])
  }

  /** The header's links, the empty boot-driver list, and the first k nodes. */
  function ModuleBlocks(nodes: seq<Node>, head: Node, boot: Node, k: nat): (r: seq<Block>)
    requires 0 < |nodes| && k <= |nodes| && Roomy(nodes, 0x10)
    ensures |r| == k + 2
  {
    [Block(head.p, head.p + 16, [Word(head.p, nodes[0].v), Word(head.p + 8, nodes[|nodes| - 1].v)]),
     Block(boot.p, boot.p + 16, [Word(boot.p, boot.v), Word(boot.p + 8, boot.v)])]
    + seq(k, i requires 0 <= i < k => ModuleBlock(nodes, head, i))
  }

  method LinkModules(vm: Vm, nodes: seq<Node>, head: Node, boot: Node)
    requires vm.Valid() && nodes != [] && Roomy(nodes, 0x10)
    modifies vm.mem
    ensures vm.Contents() == PutBlocks(old(vm.Contents()), ModuleBlocks(nodes, head, boot, |nodes|))
  {
    hide Put;
    hide ToLe;
    hide PutAll;
    ghost var m0 := vm.Contents();
    var n := |nodes|;
    PutLink(vm, head.p, nodes[0].v);
    PutLink(vm, head.p + 8, nodes[n - 1].v);
    PutLink(vm, boot.p, boot.v);
    PutLink(vm, boot.p + 8, boot.v);
    ghost var b0, b1 := ModuleBlocks(nodes, head, boot, 0)[0], ModuleBlocks(nodes, head, boot, 0)[1];
    TwoPuts(m0, b0.stores[0], b0.stores[1]);
    TwoPuts(PutAll(m0, b0.stores), b1.stores[0], b1.stores[1]);
    PutBlocksLast(m0, [], b0);
    PutBlocksLast(m0, [b0], b1);
    assert [] + [b0] == [b0] && [b0] + [b1] == ModuleBlocks(nodes, head, boot, 0);
    for i := 0 to n
      invariant vm.Contents() == PutBlocks(m0, ModuleBlocks(nodes, head, boot, i))
    {
      ghost var m1, p := vm.Contents(), nodes[i].p;
      ghost var b := ModuleBlock(nodes, head, i);
      var next1 := if i == n - 1 then head.v else nodes[i + 1].v;
      var prev1 := if i == 0 then head.v else nodes[i - 1].v;
      PutLink(vm, nodes[i].p, next1);
      PutLink(vm, nodes[i].p + 8, prev1);
      var next2 := if i == n - 1 then nodes[0].v + 0x10 else nodes[i + 1].v + 0x10;
      var prev2 := if i == 0 then nodes[n - 1].v + 0x10 else nodes[i - 1].v + 0x10;
      PutLink(vm, nodes[i].p + 0x10, next2);
      PutLink(vm, nodes[i].p + 0x18, prev2);
      FourPuts(m1, Word(p, next1), Word(p + 8, prev1), Word(p + 0x10, next2), Word(p + 0x18, prev2));
      PutBlocksLast(m0, ModuleBlocks(nodes, head, boot, i), b);
      assert ModuleBlocks(nodes, head, boot, i) + [b] == ModuleBlocks(nodes, head, boot, i + 1);
    }
  }

  lemma FourPuts(m: seq<byte>, s: Store, t: Store, u: Store, w: Store)
    ensures PutAll(m, [s, t, u, w]) == Put(Put(Put(Put(m, s), t), u), w)
  {
    hide Put;
    assert [s, t, u, w][1..] == [t, u, w] && [t, u, w][1..] == [u, w];
    TwoPuts(Put(Put(m, s), t), u, w);
  }

  lemma FourWords(m: seq<byte>, p: nat, x: u64, y: u64, z: u64, w: u64)
    requires p + 0x20 <= |m|
    ensures var r := PutAll(m, [Word(p, x), Word(p + 8, y), Word(p + 0x10, z), Word(p + 0x18, w)]);
            Word64(r, p) == x && Word64(r, p + 8) == y && Word64(r, p + 0x10) == z && Word64(r, p + 0x18) == w
  {
    hide ToLe;
    hide Word64;
    FourPuts(m, Word(p, x), Word(p + 8, y), Word(p + 0x10, z), Word(p + 0x18, w));
    var m1 := PutWord(m, p, x);
    var m2 := PutWord(m1, p + 8, y);
    var m3 := PutWord(m2, p + 0x10, z);
    WordAfterPut(m, p, x);
    WordAfterPut(m1, p + 8, y);
    WordAfterPut(m2, p + 0x10, z);
    WordAfterPut(m3, p + 0x18, w);
  }

  /** Header, boot header and nodes keep out of each other's way. */
  ghost predicate ModulesSpaced(nodes: seq<Node>, head: Node, boot: Node) {
    && Spaced(nodes, 0x20) && Spaced([head, boot], 16)
    && forall i :: 0 <= i < |nodes| ==>
         && (nodes[i].p + 0x20 <= head.p || head.p + 16 <= nodes[i].p)
         && (nodes[i].p + 0x20 <= boot.p || boot.p + 16 <= nodes[i].p)
  }

  /** Where each block's window is, and that it keeps to it. */
  lemma ModuleWindow(nodes: seq<Node>, head: Node, boot: Node, i: nat)
    requires nodes != [] && i < |nodes| + 2 && Roomy(nodes, 0x10)
    ensures var b := ModuleBlocks(nodes, head, boot, |nodes|)[i];
            && b.Tidy()
            && b.lo == (if i == 0 then head.p else if i == 1 then boot.p else nodes[i - 2].p)
            && b.hi == b.lo + if i < 2 then 16 else 0x20
  {
    hide ToLe;
  }

  lemma ModuleBlocksDisjoint(nodes: seq<Node>, head: Node, boot: Node)
    requires nodes != [] && ModulesSpaced(nodes, head, boot) && Roomy(nodes, 0x10)
    ensures DisjointBlocks(ModuleBlocks(nodes, head, boot, |nodes|))
  {
    var blocks := ModuleBlocks(nodes, head, boot, |nodes|);
    forall i | 0 <= i < |blocks|
      ensures blocks[i].Tidy()
    {
      ModuleWindow(nodes, head, boot, i);
    }
    forall i, j | 0 <= i < j < |blocks|
      ensures blocks[i].hi <= blocks[j].lo || blocks[j].hi <= blocks[i].lo
    {
      ModuleWindow(nodes, head, boot, i);
      ModuleWindow(nodes, head, boot, j);
      hide ModuleBlocks;
      assert [head, boot][0] == head && [head, boot][1] == boot;
    }
    hide ModuleBlocks;
  }

  /** Load order closes through the header, memory order among the nodes alone; the boot list is empty. */
  lemma ModulesAreLinked(m: seq<byte>, nodes: seq<Node>, head: Node, boot: Node)
    requires |m| == MEM_SIZE && nodes != [] && ModulesSpaced(nodes, head, boot)
    requires Roomy(nodes, 0x10)
    ensures var m' := PutBlocks(m, ModuleBlocks(nodes, head, boot, |nodes|));
            Linked(m', [head] + nodes) && Linked(m', Shifted(nodes, 0x10)) && Linked(m', [boot])
  {
    hide LinkedAt;
    hide PutBlocks;
    hide ModuleBlocks;
    ModuleBlocksDisjoint(nodes, head, boot);
    var n := |nodes|;
    var m', ring, ring2 := PutBlocks(m, ModuleBlocks(nodes, head, boot, n)), [head] + nodes, Shifted(nodes, 0x10);
    hide Shifted;
    HeadersAreLinked(m, nodes, head, boot);
    forall i | 1 <= i < |ring|
      ensures LinkedAt(m', ring, i)
    {
      NodeIsLinked(m, nodes, head, boot, i - 1);
    }
    forall i | 0 <= i < n
      ensures LinkedAt(m', ring2, i)
    {
      NodeIsLinked(m, nodes, head, boot, i);
    }
  }

  lemma HeadersAreLinked(m: seq<byte>, nodes: seq<Node>, head: Node, boot: Node)
    requires |m| == MEM_SIZE && nodes != [] && ModulesSpaced(nodes, head, boot)
    requires Roomy(nodes, 0x10)
    requires DisjointBlocks(ModuleBlocks(nodes, head, boot, |nodes|))
    ensures var m' := PutBlocks(m, ModuleBlocks(nodes, head, boot, |nodes|));
            LinkedAt(m', [head] + nodes, 0) && LinkedAt(m', [boot], 0)
  {
    hide PutAll;
    hide PutBlocks;
    hide Word64;
    hide ToLe;
    hide DisjointBlocks;
    var blocks, n := ModuleBlocks(nodes, head, boot, |nodes|), |nodes|;
    assert [head, boot][0] == head && [head, boot][1] == boot;
    WordOfBlock(m, blocks, 0, head.p);
    WordOfBlock(m, blocks, 0, head.p + 8);
    TwoWords(m, head.p, nodes[0].v, nodes[n - 1].v);
    WordOfBlock(m, blocks, 1, boot.p);
    WordOfBlock(m, blocks, 1, boot.p + 8);
    TwoWords(m, boot.p, boot.v, boot.v);
  }

  lemma NodeIsLinked(m: seq<byte>, nodes: seq<Node>, head: Node, boot: Node, i: nat)
    requires |m| == MEM_SIZE && i < |nodes| && Spaced(nodes, 0x20)
    requires Roomy(nodes, 0x10)
    requires DisjointBlocks(ModuleBlocks(nodes, head, boot, |nodes|))
    ensures var m' := PutBlocks(m, ModuleBlocks(nodes, head, boot, |nodes|));
            LinkedAt(m', [head] + nodes, i + 1) && LinkedAt(m', Shifted(nodes, 0x10), i)
  {
    hide Word64;
    hide PutBlocks;
    hide ModuleBlocks;
    NodeWords(m, nodes, head, boot, i);
  }

  lemma NodeWords(m: seq<byte>, nodes: seq<Node>, head: Node, boot: Node, i: nat)
    requires |m| == MEM_SIZE && i < |nodes| && Spaced(nodes, 0x20)
    requires Roomy(nodes, 0x10)
    requires DisjointBlocks(ModuleBlocks(nodes, head, boot, |nodes|))
    ensures var m', n, p := PutBlocks(m, ModuleBlocks(nodes, head, boot, |nodes|)), |nodes|, nodes[i].p;
            && p + 0x20 <= |m'|
            && Word64(m', p) == (if i == n - 1 then head.v else nodes[i + 1].v)
            && Word64(m', p + 8) == (if i == 0 then head.v else nodes[i - 1].v)
            && Word64(m', p + 0x10) == nodes[Next(i, n)].v + 0x10
            && Word64(m', p + 0x18) == nodes[Prev(i, n)].v + 0x10
  {
    hide PutAll;
    hide PutBlocks;
    hide Word64;
    hide Word;
    hide DisjointBlocks;
    hide ModuleBlocks;
    hide ModuleBlock;
    var blocks, n, p := ModuleBlocks(nodes, head, boot, |nodes|), |nodes|, nodes[i].p;
    ModuleWindow(nodes, head, boot, i + 2);
    ModuleStores(nodes, head, boot, i);
    WordOfBlock(m, blocks, i + 2, p);
    WordOfBlock(m, blocks, i + 2, p + 8);
    WordOfBlock(m, blocks, i + 2, p + 0x10);
    WordOfBlock(m, blocks, i + 2, p + 0x18);
    FourWords(m, p, if i == n - 1 then head.v else nodes[i + 1].v, if i == 0 then head.v else nodes[i - 1].v,
              nodes[Next(i, n)].v + 0x10, nodes[Prev(i, n)].v + 0x10);
  }

  lemma ModuleStores(nodes: seq<Node>, head: Node, boot: Node, i: nat)
    requires i < |nodes| && Roomy(nodes, 0x10)
    ensures var n, p := |nodes|, nodes[i].p;
            ModuleBlocks(nodes, head, boot, n)[i + 2].stores ==
            [Word(p, if i == n - 1 then head.v else nodes[i + 1].v),
             Word(p + 8, if i == 0 then head.v else nodes[i - 1].v),
             Word(p + 0x10, nodes[Next(i, n)].v + 0x10), Word(p + 0x18, nodes[Prev(i, n)].v + 0x10)]
  {
    hide ToLe;
    assert ModuleBlocks(nodes, head, boot, |nodes|)[i + 2] == ModuleBlock(nodes, head, i);
  }
}

/** Base relocation: walking the .reloc blocks and adding the load delta to every 64-bit target. */
module Relocation {
  import opened Words
  import opened GuestMemory
  import opened PeFile
  import Bits

  // ----- What the blocks of a .reloc section ask for

  /** The targets of one block: entries `i`.. of the `count` behind the header at `offset`. */
  function BlockTargets(data: seq<byte>, offset: nat, page: u32, count: nat, i: nat, pBase: nat): seq<nat>
    decreases count - i
  {
    var pos := offset + 8 + i * 2;
    if i >= count || pos + 2 > |data| then []
    else
      var entry := FromLe(data[pos..pos + 2]);
      var rest := BlockTargets(data, offset, page, count, i + 1, pBase);
      if entry / 0x1000 == 10 then [pBase + (page + entry % 0x1000)] + rest else rest
  }

  /** All targets from `offset` on, and whether the walk ends in a panic (a block size below 8). */
  function Targets(data: seq<byte>, offset: nat, pBase: nat): (seq<nat>, bool)
    decreases |data| - offset
  {
    if offset + 8 > |data| then ([], false)
    else
      var page := ReadU32(data, offset).Extract();
      var size := ReadU32(data, offset + 4).Extract();
      if size == 0 then ([], false)
      else if size < 8 then ([], true)
      else
        var (rest, panics) := Targets(data, offset + size, pBase);
        (BlockTargets(data, offset, page, (size - 8) / 2, 0, pBase) + rest, panics)
  }

  /** One block header and what follows from it. */
  lemma TargetsStep(data: seq<byte>, offset: nat, pBase: nat)
    requires offset + 8 <= |data|
    ensures var page, size := FromLe(data[offset..offset + 4]), FromLe(data[offset + 4..offset + 8]);
            && page < 0x1_0000_0000
            && Targets(data, offset, pBase) ==
               if size == 0 then ([], false)
               else if size < 8 then ([], true)
               else
                 var rest := Targets(data, offset + size, pBase);
                 (BlockTargets(data, offset, page, (size - 8) / 2, 0, pBase) + rest.0, rest.1)
  {
    assert Pow256(4) == 0x1_0000_0000;
  }

  lemma TargetsEnd(data: seq<byte>, offset: nat, pBase: nat)
    requires offset + 8 > |data|
    ensures Targets(data, offset, pBase) == ([], false)
  {}

  // ----- What the targets do to memory

  /** Adds `d` to the word at `a`, modulo 2^64; a target that leaves memory is skipped. */
  function AddWord(m: seq<byte>, a: nat, d: u64): (r: seq<byte>)
    ensures |r| == |m|
  {
    if a + 8 <= |m| then PutWord(m, a, (Word64(m, a) + d) % TWO64) else m
  }

  function AddAll(m: seq<byte>, targets: seq<nat>, d: u64): (r: seq<byte>)
    ensures |r| == |m|
    decreases targets
  {
    if targets == [] then m else AddAll(AddWord(m, targets[0], d), targets[1..], d)
  }

  lemma AddAllNothing(m: seq<byte>, d: u64)
    ensures AddAll(m, [], d) == m
  {}

  lemma {:induction false} AddAllAppend(m: seq<byte>, s: seq<nat>, t: seq<nat>, d: u64)
    ensures AddAll(m, s + t, d) == AddAll(AddAll(m, s, d), t, d)
    decreases s
  {
    if s == [] {
      assert s + t == t;
    } else {
      assert (s + t)[0] == s[0] && (s + t)[1..] == s[1..] + t;
      AddAllAppend(AddWord(m, s[0], d), s[1..], t, d);
    }
  }

  lemma AddAllFirst(m: seq<byte>, a: nat, rest: seq<nat>, d: u64)
    ensures AddAll(m, [a] + rest, d) == AddAll(AddWord(m, a, d), rest, d)
  {
    assert ([a] + rest)[1..] == rest;
  }

  /** One target, read, added to and written back in place. */
  method AddInPlace(vm: Vm, target: nat, delta: u64)
    requires vm.Valid()
    modifies vm.mem
    ensures vm.Contents() == AddWord(old(vm.Contents()), target, delta)
  {
    if target + 8 <= MEM_SIZE {
      assert Pow256(8) == TWO64;
      var current := FromLe(vm.mem[target..target + 8]);
      assert vm.mem[target..target + 8] == vm.Contents()[target..target + 8];
      var ok := vm.WriteMemory(target, ToLe((current + delta) % TWO64, 8));
    }
  }

  /** The first section with the given name. */
  function FindSection(sections: seq<Section>, name: string): (r: Option<Section>)
    ensures r.Some? ==> r.value in sections && r.value.name == name
    ensures r.None? ==> forall s :: s in sections ==> s.name != name
  {
    if sections == [] then None
    else if sections[0].name == name then Some(sections[0])
    else FindSection(sections[1..], name)
  }

  function Delta(pe: Pe, vNew: nat): u64 { (vNew - pe.imageBase) % TWO64 }

  /** The section the relocation reads. */
  function RelocData(pe: Pe): Option<seq<byte>> {
    match FindSection(pe.sections, ".reloc")
    case None => None
    case Some(s) => Some(s.data)
  }

  /** Every address the relocation of an image at `pBase` adds to, in order. */
  function RelocTargets(pe: Pe, pBase: nat): seq<nat> {
    match RelocData(pe)
    case None => []
    case Some(data) => Targets(data, 0, pBase).0
  }

  /** The inner loop: one block's entries. */
  method RelocateBlock(vm: Vm, data: seq<byte>, offset: nat, page: u32, count: nat, pBase: nat, delta: u64)
    requires vm.Valid()
    modifies vm.mem
    ensures vm.Contents() == AddAll(old(vm.Contents()), BlockTargets(data, offset, page, count, 0, pBase), delta)
  {
    hide AddAll, AddWord, FromLe;
    ghost var all := BlockTargets(data, offset, page, count, 0, pBase);
    var i := 0;
    while i < count
      invariant i <= count
      invariant AddAll(vm.Contents(), BlockTargets(data, offset, page, count, i, pBase), delta)
             == AddAll(old(vm.Contents()), all, delta)
    {
      var pos := offset + 8 + i * 2;
      if pos + 2 > |data| { break; }
      var entry := FromLe(data[pos..pos + 2]);
      ghost var rest := BlockTargets(data, offset, page, count, i + 1, pBase);
      if entry / 0x1000 == 10 {
        var target := pBase + (page + entry % 0x1000);
        AddAllFirst(vm.Contents(), target, rest, delta);
        AddInPlace(vm, target, delta);
      }
      i := i + 1;
    }
    AddAllNothing(vm.Contents(), delta);
  }

  /** The outer loop: block after block, until the data ends, a size is 0, or `size - 8` underflows. */
  method RelocateBlocks(vm: Vm, data: seq<byte>, pBase: nat, delta: u64) returns (panics: bool)
    requires vm.Valid()
    modifies vm.mem
    ensures vm.Contents() == AddAll(old(vm.Contents()), Targets(data, 0, pBase).0, delta)
    ensures panics == Targets(data, 0, pBase).1
  {
    hide Targets;
    hide AddAll;
    hide BlockTargets;
    ghost var all := Targets(data, 0, pBase);
    var offset: nat := 0;
    while offset + 8 <= |data|
      invariant AddAll(vm.Contents(), Targets(data, offset, pBase).0, delta) == AddAll(old(vm.Contents()), all.0, delta)
      invariant Targets(data, offset, pBase).1 == all.1
      decreases |data| - offset
    {
      TargetsStep(data, offset, pBase);
      var page := FromLe(data[offset..offset + 4]);
      var size := FromLe(data[offset + 4..offset + 8]);
      hide FromLe;
      if size == 0 || size < 8 {
        AddAllNothing(vm.Contents(), delta);
        return size != 0;
      }
      var count := (size - 8) / 2;
      ghost var block, rest := BlockTargets(data, offset, page, count, 0, pBase), Targets(data, offset + size, pBase);
      assert Targets(data, offset, pBase).0 == block + rest.0;
      AddAllAppend(vm.Contents(), block, rest.0, delta);
      RelocateBlock(vm, data, offset, page, count, pBase, delta);
      offset := offset + size;
    }
    TargetsEnd(data, offset, pBase);
    AddAllNothing(vm.Contents(), delta);
    return false;
  }

  method ApplyRelocation(vm: Vm, pe: Pe, pBase: nat, vNew: u64) returns (r: Outcome<()>)
    requires vm.Valid()
    modifies vm.mem
    ensures vm.Contents() == Relocate(old(vm.Contents()), pe, pBase, vNew)
    ensures r == RelocationOutcome(pe, pBase, vNew)
  {
    var delta := Delta(pe, vNew);
    if delta == 0 { return Done(()); }
    var found := FindSection(pe.sections, ".reloc");
    if found.None? { return Fail; }
    var panics := RelocateBlocks(vm, found.value.data, pBase, delta);
    return if panics then Panic else Done(());
  }

  function RelocationOutcome(pe: Pe, pBase: nat, vNew: u64): Outcome<()> {
    if Delta(pe, vNew) == 0 then Done(())
    else if RelocData(pe).None? then Fail
    else if Targets(RelocData(pe).value, 0, pBase).1 then Panic
    else Done(())
  }

  /** The whole relocation as a function of memory. */
  function Relocate(m: seq<byte>, pe: Pe, pBase: nat, vNew: u64): (r: seq<byte>)
    ensures |r| == |m|
  {
    if Delta(pe, vNew) == 0 || RelocData(pe).None? then m
    else AddAll(m, Targets(RelocData(pe).value, 0, pBase).0, Delta(pe, vNew))
  }

  // ----- Closed form

  /** How often `a` is a target. */
  function Count(targets: seq<nat>, a: nat): nat {
    multiset(targets)[a]
  }

  /** Targets are pairwise equal or eight bytes apart: no two words overlap in part. */
  ghost predicate CleanWindows(targets: seq<nat>) {
    forall a, b :: a in targets && b in targets ==> a == b || a + 8 <= b || b + 8 <= a
  }

  /** The word `w` after `d` has been added `k` times, modulo 2^64. */
  function Grown(w: nat, k: nat, d: nat): u64 {
    (w + k * d) % TWO64
  }

  ghost predicate Covered(targets: seq<nat>, x: nat, length: nat) {
    exists a :: a in targets && a <= x < a + 8 && a + 8 <= length
  }

  /** Every target word grew by its multiplicity times `d`, modulo 2^64, and nothing else changed. */
  ghost predicate Relocated(m: seq<byte>, m': seq<byte>, targets: seq<nat>, d: nat) {
    && |m'| == |m|
    && (forall a :: a in targets && a + 8 <= |m| ==>
                      Word64(m', a) == Grown(Word64(m, a), Count(targets, a), d))
    && (forall x :: 0 <= x < |m| && !Covered(targets, x, |m|) ==> m'[x] == m[x])
  }

  lemma WordAfterAdd(m: seq<byte>, b: nat, d: u64, a: nat)
    requires a + 8 <= |m| && (a == b || a + 8 <= b || b + 8 <= a)
    ensures Word64(AddWord(m, b, d), a) == if a == b then (Word64(m, a) + d) % TWO64 else Word64(m, a)
  {
    if b + 8 <= |m| { WordAfterPut(m, b, (Word64(m, b) + d) % TWO64); }
  }

  lemma {:induction false} WordAfterAddAll(m: seq<byte>, targets: seq<nat>, d: u64, a: nat)
    requires a + 8 <= |m|
    requires forall b :: b in targets ==> a == b || a + 8 <= b || b + 8 <= a
    ensures Word64(AddAll(m, targets, d), a) == Grown(Word64(m, a), Count(targets, a), d)
    decreases targets
  {
    hide Word64;
    hide AddWord;
    hide Grown;
    GrownOnce(Word64(m, a), 0, d);
    if targets != [] {
      var b, rest := targets[0], targets[1..];
      var m1 := AddWord(m, b, d);
      assert targets == [b] + rest;
      assert b in targets && forall c :: c in rest ==> c in targets;
      assert Count(targets, a) == Count(rest, a) + if b == a then 1 else 0;
      WordAfterAddAll(m1, rest, d, a);
      WordAfterAdd(m, b, d, a);
      if b == a {
        GrownOnce(Word64(m, a), Count(rest, a), d);
      }
    }
  }

  lemma GrownOnce(w: u64, k: nat, d: u64)
    ensures Grown((w + d) % TWO64, k, d) == Grown(w, k + 1, d)
    ensures Grown(w, 0, d) == w
  {
    OneMore(k, d);
    AddMod(w + d, k * d, w + (k + 1) * d);
  }

  lemma OneMore(k: nat, d: nat)
    ensures (k + 1) * d == k * d + d && k * d >= 0
  {}

  lemma AddMod(x: nat, y: nat, z: nat)
    requires z == x + y
    ensures (x % TWO64 + y) % TWO64 == z % TWO64
  {
    Bits.ModOfShift(z, x % TWO64 + y, x / TWO64, TWO64);
  }

  lemma {:induction false} ByteAfterAddAll(m: seq<byte>, targets: seq<nat>, d: u64, x: nat)
    requires x < |m| && !Covered(targets, x, |m|)
    ensures AddAll(m, targets, d)[x] == m[x]
    decreases targets
  {
    if targets != [] {
      var a, rest := targets[0], targets[1..];
      assert a in targets && forall c :: c in rest ==> c in targets;
      assert !Covered(rest, x, |m|);
      assert AddWord(m, a, d)[x] == m[x];
      ByteAfterAddAll(AddWord(m, a, d), rest, d, x);
    }
  }

  /** Closed form: whatever the order of the targets, the loops leave exactly this memory. */
  lemma AddAllIsRelocated(m: seq<byte>, targets: seq<nat>, d: u64)
    requires CleanWindows(targets)
    ensures Relocated(m, AddAll(m, targets, d), targets, d)
  {
    forall a | a in targets && a + 8 <= |m|
      ensures Word64(AddAll(m, targets, d), a) == Grown(Word64(m, a), Count(targets, a), d)
    {
      WordAfterAddAll(m, targets, d, a);
    }
    forall x | 0 <= x < |m| && !Covered(targets, x, |m|)
      ensures AddAll(m, targets, d)[x] == m[x]
    {
      ByteAfterAddAll(m, targets, d, x);
    }
  }

  lemma EqualWords(m: seq<byte>, m': seq<byte>, a: nat, x: nat)
    requires a + 8 <= |m| == |m'| && Word64(m, a) == Word64(m', a) && a <= x < a + 8
    ensures m[x] == m'[x]
  {
    ToLeOfFromLe(m[a..a + 8]);
    ToLeOfFromLe(m'[a..a + 8]);
    assert m[x] == m[a..a + 8][x - a] && m'[x] == m'[a..a + 8][x - a];
  }

  /** The closed form determines memory. */
  lemma RelocatedIsUnique(m: seq<byte>, m1: seq<byte>, m2: seq<byte>, targets: seq<nat>, d: nat, d': nat)
    requires Relocated(m, m1, targets, d) && Relocated(m, m2, targets, d')
    requires forall a :: a in targets && a + 8 <= |m| ==> Word64(m1, a) == Word64(m2, a)
    ensures m1 == m2
  {
    forall x | 0 <= x < |m|
      ensures m1[x] == m2[x]
    {
      if Covered(targets, x, |m|) {
        var a :| a in targets && a <= x < a + 8 && a + 8 <= |m|;
        EqualWords(m1, m2, a, x);
      }
    }
  }

  lemma SameBag(m: seq<byte>, m': seq<byte>, targets: seq<nat>, targets': seq<nat>, d: nat)
    requires multiset(targets) == multiset(targets') && Relocated(m, m', targets', d)
    ensures Relocated(m, m', targets, d)
  {
    SameMembers(targets, targets');
    forall x | 0 <= x < |m| && !Covered(targets, x, |m|)
      ensures m'[x] == m[x]
    {
      assert !Covered(targets', x, |m|);
    }
  }

  lemma SameMembers(targets: seq<nat>, targets': seq<nat>)
    requires multiset(targets) == multiset(targets')
    ensures forall a :: a in targets <==> a in targets'
  {
    forall a
      ensures a in targets <==> a in targets'
    {
      assert a in targets <==> a in multiset(targets);
      assert a in targets' <==> a in multiset(targets');
    }
  }

  /** Block and entry order do not matter. */
  lemma OrderIsIrrelevant(m: seq<byte>, targets: seq<nat>, targets': seq<nat>, d: u64)
    requires CleanWindows(targets) && multiset(targets) == multiset(targets')
    ensures AddAll(m, targets, d) == AddAll(m, targets', d)
  {
    SameMembers(targets, targets');
    AddAllIsRelocated(m, targets, d);
    AddAllIsRelocated(m, targets', d);
    SameBag(m, AddAll(m, targets', d), targets, targets', d);
    RelocatedIsUnique(m, AddAll(m, targets, d), AddAll(m, targets', d), targets, d, d);
  }

  lemma MulMod(k: nat, x: nat)
    ensures (k * (x % TWO64)) % TWO64 == (k * x) % TWO64
  {
    assert x == x / TWO64 * TWO64 + x % TWO64;
    assert k * x == k * (x / TWO64) * TWO64 + k * (x % TWO64);
    ShiftMod(k * (x / TWO64), k * (x % TWO64));
  }

  lemma ShiftMod(q: nat, y: nat)
    ensures (q * TWO64 + y) % TWO64 == y % TWO64
  {}

  lemma AddTwice(w: u64, k: nat, d1: u64, d2: u64)
    ensures Grown(Grown(w, k, d1), k, d2) == Grown(w, k, (d1 + d2) % TWO64)
  {
    assert k * (d1 + d2) == k * d1 + k * d2;
    MulMod(k, d1 + d2);
    AddResidues(w, k * d1, k * d2, k * ((d1 + d2) % TWO64));
  }

  lemma AddResidues(w: nat, a: nat, b: nat, c: nat)
    requires c % TWO64 == (a + b) % TWO64
    ensures ((w + a) % TWO64 + b) % TWO64 == (w + c) % TWO64
  {
    AddMod(w + a, b, w + a + b);
    AddMod(c, w, w + c);
    AddMod(a + b, w, w + a + b);
  }

  /** Group action: relocating by d1 and then by d2 is relocating once by their sum. */
  lemma RelocationsCompose(m: seq<byte>, targets: seq<nat>, d1: u64, d2: u64)
    requires CleanWindows(targets)
    ensures AddAll(AddAll(m, targets, d1), targets, d2) == AddAll(m, targets, (d1 + d2) % TWO64)
  {
    var m1 := AddAll(m, targets, d1);
    var m2 := AddAll(m1, targets, d2);
    var d := (d1 + d2) % TWO64;
    AddAllIsRelocated(m, targets, d1);
    AddAllIsRelocated(m1, targets, d2);
    AddAllIsRelocated(m, targets, d);
    forall a | a in targets && a + 8 <= |m|
      ensures Word64(m2, a) == Grown(Word64(m, a), Count(targets, a), d)
    {
      AddTwice(Word64(m, a), Count(targets, a), d1, d2);
    }
    RelocatedIsUnique(m, m2, AddAll(m, targets, d), targets, d, d);
  }

  lemma AddZero(m: seq<byte>, a: nat)
    ensures AddWord(m, a, 0) == m
  {
    hide FromLe;
    hide ToLe;
    if a + 8 <= |m| {
      ToLeOfFromLe(m[a..a + 8]);
      assert PutWord(m, a, Word64(m, a)) == m;
    }
  }

  /** The early exit for delta 0 agrees with running the loops. */
  lemma {:induction false} ZeroDelta(m: seq<byte>, targets: seq<nat>)
    ensures AddAll(m, targets, 0) == m
  {
    hide AddWord;
    if targets != [] {
      AddZero(m, targets[0]);
      ZeroDelta(m, targets[1..]);
    }
  }

  /** Relocating there and back restores memory. */
  lemma ThereAndBack(m: seq<byte>, targets: seq<nat>, d: u64)
    requires CleanWindows(targets)
    ensures AddAll(AddAll(m, targets, d), targets, (TWO64 - d) % TWO64) == m
  {
    hide AddAll, CleanWindows;
    var back := (TWO64 - d) % TWO64;
    RelocationsCompose(m, targets, d, back);
    assert (d + back) % TWO64 == 0;
    ZeroDelta(m, targets);
  }

  /** The early exit made explicit: relocation is always the addition of the delta. */
  lemma RelocateIsAddAll(m: seq<byte>, pe: Pe, pBase: nat, v: u64)
    requires RelocData(pe).Some?
    ensures Relocate(m, pe, pBase, v) == AddAll(m, Targets(RelocData(pe).value, 0, pBase).0, Delta(pe, v))
  {
    ZeroDelta(m, Targets(RelocData(pe).value, 0, pBase).0);
  }

  lemma DeltasAdd(a: u64, b: u64, c: u64)
    ensures ((b - a) % TWO64 + (c - b) % TWO64) % TWO64 == (c - a) % TWO64
  {
    Bits.ModOfShift(c - a, (b - a) % TWO64 + (c - b) % TWO64, (b - a) / TWO64 + (c - b) / TWO64, TWO64);
  }

  /** Rebasing an image in two steps is rebasing it in one. */
  lemma RebaseTwice(m: seq<byte>, pe: Pe, pBase: nat, v1: u64, v2: u64)
    requires RelocData(pe).Some? && CleanWindows(Targets(RelocData(pe).value, 0, pBase).0)
    ensures Relocate(Relocate(m, pe, pBase, v1), pe.(imageBase := v1), pBase, v2) == Relocate(m, pe, pBase, v2)
  {
    hide Relocate;
    hide Targets;
    hide AddAll;
    var targets := Targets(RelocData(pe).value, 0, pBase).0;
    var moved := pe.(imageBase := v1);
    RelocateIsAddAll(m, pe, pBase, v1);
    RelocateIsAddAll(m, pe, pBase, v2);
    RelocateIsAddAll(Relocate(m, pe, pBase, v1), moved, pBase, v2);
    RelocationsCompose(m, targets, Delta(pe, v1), Delta(moved, v2));
    DeltasAdd(pe.imageBase, v1, v2);
  }

  /** Rebasing an image and moving it home restores it. */
  lemma RebaseHome(m: seq<byte>, pe: Pe, pBase: nat, v: u64)
    requires RelocData(pe).Some? && CleanWindows(Targets(RelocData(pe).value, 0, pBase).0)
    ensures Relocate(Relocate(m, pe, pBase, v), pe.(imageBase := v), pBase, pe.imageBase) == m
  {
    RebaseTwice(m, pe, pBase, v, pe.imageBase);
  }

  // ----- Printing blocks

  datatype Block = Block(page: u32, entries: seq<u16>) {
    predicate Fits() { 8 + 2 * |entries| < 0x1_0000_0000 }
  }

  function PrintEntries(es: seq<u16>): (r: seq<byte>)
    ensures |r| == 2 * |es|
  {
    if es == [] then [] else ToLe(es[0], 2) + PrintEntries(es[1..])
  }

  function PrintBlock(b: Block): (r: seq<byte>)
    ensures |r| == 8 + 2 * |b.entries|
  {
    ToLe(b.page, 4) + ToLe(8 + 2 * |b.entries|, 4) + PrintEntries(b.entries)
  }

  function PrintBlocks(bs: seq<Block>): seq<byte> {
    if bs == [] then [] else PrintBlock(bs[0]) + PrintBlocks(bs[1..])
  }

  /** The addresses a list of entries relocates: those of type 10 (DIR64). */
  function EntryTargets(page: u32, es: seq<u16>, pBase: nat): seq<nat> {
    if es == [] then []
    else
      var rest := EntryTargets(page, es[1..], pBase);
      if es[0] / 0x1000 == 10 then [pBase + (page + es[0] % 0x1000)] + rest else rest
  }

  function AllTargets(bs: seq<Block>, pBase: nat): seq<nat> {
    if bs == [] then [] else EntryTargets(bs[0].page, bs[0].entries, pBase) + AllTargets(bs[1..], pBase)
  }

  lemma {:induction false} PrintedEntry(es: seq<u16>, i: nat)
    requires i < |es|
    ensures PrintEntries(es)[2 * i..2 * i + 2] == ToLe(es[i], 2)
  {
    if i > 0 {
      PrintedEntry(es[1..], i - 1);
      assert PrintEntries(es)[2 * i..2 * i + 2] == PrintEntries(es[1..])[2 * (i - 1)..2 * (i - 1) + 2];
    }
  }

  lemma {:induction false} ParseEntries(data: seq<byte>, offset: nat, page: u32, es: seq<u16>, i: nat, pBase: nat)
    requires i <= |es| && offset + 8 + 2 * |es| <= |data|
    requires data[offset + 8..offset + 8 + 2 * |es|] == PrintEntries(es)
    ensures BlockTargets(data, offset, page, |es|, i, pBase) == EntryTargets(page, es[i..], pBase)
    decreases |es| - i
  {
    hide ToLe, FromLe, PrintEntries;
    if i < |es| {
      var pos := offset + 8 + i * 2;
      PrintedEntry(es, i);
      SliceOfSlice(data, offset + 8, offset + 8 + 2 * |es|, 2 * i, 2 * i + 2);
      assert Pow256(2) == 0x1_0000;
      ReadPrinted(data, pos, es[i], 2);
      assert es[i..][0] == es[i] && es[i..][1..] == es[i + 1..];
      ParseEntries(data, offset, page, es, i + 1, pBase);
    }
  }

  /** What may follow the last block: too few bytes for a header, or a header with size 0. */
  predicate EndsBlocks(tail: seq<byte>) {
    |tail| < 8 || FromLe(tail[4..8]) == 0
  }

  /** Where the parts of a printed block lie. */
  lemma PrintedBlock(d: seq<byte>, b: Block, rest: seq<byte>)
    requires d == PrintBlock(b) + rest && b.Fits()
    ensures |d| >= 8 + 2 * |b.entries|
    ensures FromLe(d[0..4]) == b.page && FromLe(d[4..8]) == 8 + 2 * |b.entries|
    ensures d[8..8 + 2 * |b.entries|] == PrintEntries(b.entries)
    ensures d[8 + 2 * |b.entries|..] == rest
  {
    assert Pow256(4) == 0x1_0000_0000;
    ReadPrinted(d, 0, b.page, 4);
    ReadPrinted(d, 4, 8 + 2 * |b.entries|, 4);
  }

  /** Parsing inverts printing, for any list of blocks. */
  lemma {:induction false} ParsePrinted(data: seq<byte>, offset: nat, bs: seq<Block>, tail: seq<byte>, pBase: nat)
    requires offset <= |data| && data[offset..] == PrintBlocks(bs) + tail && EndsBlocks(tail)
    requires forall b :: b in bs ==> b.Fits()
    ensures Targets(data, offset, pBase) == (AllTargets(bs, pBase), false)
    decreases bs
  {
    hide PrintBlock;
    hide FromLe;
    var d := data[offset..];
    assert d == data[offset..|data|];
    if bs == [] {
      assert d == tail;
      if |tail| >= 8 {
        SliceOfSlice(data, offset, |data|, 4, 8);
        TargetsStep(data, offset, pBase);
      }
    } else {
      var b, rest := bs[0], PrintBlocks(bs[1..]) + tail;
      assert b in bs;
      assert PrintBlocks(bs) + tail == PrintBlock(b) + rest;
      ParseOnePrinted(data, offset, b, rest, pBase);
      ParsePrinted(data, offset + 8 + 2 * |b.entries|, bs[1..], tail, pBase);
    }
  }

  lemma ParseOnePrinted(data: seq<byte>, offset: nat, b: Block, rest: seq<byte>, pBase: nat)
    requires offset <= |data| && data[offset..] == PrintBlock(b) + rest && b.Fits()
    ensures var next := offset + 8 + 2 * |b.entries|;
            && next <= |data| && data[next..] == rest
            && Targets(data, offset, pBase) ==
               (EntryTargets(b.page, b.entries, pBase) + Targets(data, next, pBase).0, Targets(data, next, pBase).1)
  {
    hide FromLe;
    hide Targets;
    var d, size := data[offset..], 8 + 2 * |b.entries|;
    assert d == data[offset..|data|];
    PrintedBlock(d, b, rest);
    SliceOfSlice(data, offset, |data|, 0, 4);
    SliceOfSlice(data, offset, |data|, 4, 8);
    SliceOfSlice(data, offset, |data|, 8, size);
    SliceOfSlice(data, offset, |data|, size, |d|);
    TargetsStep(data, offset, pBase);
    ParseEntries(data, offset, b.page, b.entries, 0, pBase);
    assert b.entries[0..] == b.entries && (size - 8) / 2 == |b.entries|;
  }

  /** A section printed from `bs` relocates to the closed form over the addresses its entries name. */
  lemma PrintedRelocation(m: seq<byte>, pe: Pe, pBase: nat, v: u64, bs: seq<Block>, tail: seq<byte>)
    requires RelocData(pe) == Some(PrintBlocks(bs) + tail) && EndsBlocks(tail)
    requires (forall b :: b in bs ==> b.Fits()) && CleanWindows(AllTargets(bs, pBase))
    ensures Relocated(m, Relocate(m, pe, pBase, v), AllTargets(bs, pBase), Delta(pe, v))
  {
    var data := PrintBlocks(bs) + tail;
    assert data[0..] == data;
    ParsePrinted(data, 0, bs, tail, pBase);
    RelocateIsAddAll(m, pe, pBase, v);
    AddAllIsRelocated(m, AllTargets(bs, pBase), Delta(pe, v));
  }

  // ----- By the image's sections

  /** `s` is the first section of the image that is named ".reloc". */
  ghost predicate FirstReloc(pe: Pe, s: Section) {
    exists before: seq<Section>, after: seq<Section> ::
      && pe.sections == before + [s] + after && s.name == ".reloc"
      && forall x :: x in before ==> x.name != ".reloc"
  }

  lemma {:induction false} FindSectionFirst(before: seq<Section>, s: Section, after: seq<Section>)
    requires s.name == ".reloc" && forall x :: x in before ==> x.name != ".reloc"
    ensures FindSection(before + [s] + after, ".reloc") == Some(s)
    decreases before
  {
    var all := before + [s] + after;
    if before != [] {
      assert all[1..] == before[1..] + [s] + after && before[0] in before && forall x :: x in before[1..] ==> x in before;
      FindSectionFirst(before[1..], s, after);
    }
  }

  lemma RelocDataIsFirst(pe: Pe, s: Section)
    requires FirstReloc(pe, s)
    ensures RelocData(pe) == Some(s.data)
  {
    hide FindSection;
    var before, after :| pe.sections == before + [s] + after && forall x :: x in before ==> x.name != ".reloc";
    FindSectionFirst(before, s, after);
  }

  /**
   A pointer that held an address of the image as linked holds the same address of the image as loaded:
   `pe.imageBase + x` becomes `v + x`, for every address the section lists once, and no other byte changes.
   */
  lemma PointersFollowTheImage(m: seq<byte>, pe: Pe, pBase: nat, v: u64, s: Section, bs: seq<Block>, tail: seq<byte>)
    requires FirstReloc(pe, s) && s.data == PrintBlocks(bs) + tail && EndsBlocks(tail)
    requires (forall b :: b in bs ==> b.Fits()) && CleanWindows(AllTargets(bs, pBase))
    ensures RelocationOutcome(pe, pBase, v) == Done(())
    ensures var m', targets := Relocate(m, pe, pBase, v), AllTargets(bs, pBase);
            && |m'| == |m|
            && (forall a: nat, x: u64 | a in targets && Count(targets, a) == 1 && PointsAt(m, a, pe.imageBase, x) ::
                  PointsAt(m', a, v, x))
            && (forall y :: 0 <= y < |m| && !Covered(targets, y, |m|) ==> m'[y] == m[y])
  {
    hide RelocData, Relocate, RelocationOutcome, FromLe, PrintBlocks, AllTargets, Word64, Count;
    hide CleanWindows, FirstReloc;
    RelocDataIsFirst(pe, s);
    PrintedRelocation(m, pe, pBase, v, bs, tail);
    PrintedOutcome(pe, pBase, v, bs, tail);
    var m', targets := Relocate(m, pe, pBase, v), AllTargets(bs, pBase);
    hide Grown, Delta, Covered;
    forall a: nat, x: u64 | a in targets && Count(targets, a) == 1 && PointsAt(m, a, pe.imageBase, x)
      ensures PointsAt(m', a, v, x)
    {
      GrownFollows(pe, v, x);
    }
  }

  /** The word at `a` is the address `x` bytes into an image at `base`. */
  predicate PointsAt(m: seq<byte>, a: nat, base: nat, x: nat) {
    a + 8 <= |m| && Word64(m, a) == (base + x) % TWO64
  }

  lemma GrownFollows(pe: Pe, v: u64, x: u64)
    ensures Grown((pe.imageBase + x) % TWO64, 1, Delta(pe, v)) == (v + x) % TWO64
  {
    Follows(pe.imageBase, x, v);
  }

  lemma Follows(base: u64, x: u64, v: u64)
    ensures ((base + x) % TWO64 + (v - base) % TWO64) % TWO64 == (v + x) % TWO64
  {
    var d := (v - base) % TWO64;
    AddMod(base + x, d, base + x + d);
    if v >= base {
      assert d == v - base;
    } else {
      assert d == v - base + TWO64;
      ShiftMod(1, v + x);
    }
  }

  lemma PrintedOutcome(pe: Pe, pBase: nat, v: u64, bs: seq<Block>, tail: seq<byte>)
    requires RelocData(pe) == Some(PrintBlocks(bs) + tail) && EndsBlocks(tail) && forall b :: b in bs ==> b.Fits()
    ensures RelocationOutcome(pe, pBase, v) == Done(())
  {
    hide FromLe, PrintBlocks, Targets, RelocData;
    var data := PrintBlocks(bs) + tail;
    assert data[0..] == data;
    ParsePrinted(data, 0, bs, tail, pBase);
  }

  /** Without such a section an image that has to move is refused, and memory stays. */
  lemma NoRelocSection(m: seq<byte>, pe: Pe, pBase: nat, v: u64)
    requires forall s :: s in pe.sections ==> s.name != ".reloc"
    ensures RelocationOutcome(pe, pBase, v) == (if v == pe.imageBase then Done(()) else Fail)
    ensures Relocate(m, pe, pBase, v) == m
  {}
}

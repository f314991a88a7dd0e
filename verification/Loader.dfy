/** The kernel loader: a 2 MB-aligned bump allocator over two cursors, and section copying. */
module Loader {
  import opened Words
  import opened Bits
  import opened GuestMemory
  import opened PeFile
  import opened Relocation

  const EXTENT := 0x20_0000
  const NTOSKRNL := "ntoskrnl.exe"
  const DRIVERS_VIRT := 0xFFFF_F800_4000_0000

  /** What the object parser guarantees: sections above the image base, non-empty, data no longer than the section. */
  predicate WellFormed(pe: Pe) {
    && pe.imageBase + 0x2_0000_0000 <= TWO64
    && |pe.header| <= 4096
    && forall s :: s in pe.sections ==>
         && pe.imageBase <= s.address < pe.imageBase + 0x1_0000_0000
         && 0 < s.size < 0x1_0000_0000 && |s.data| <= s.size
  }

  type Image = pe: Pe | WellFormed(pe) witness Pe(0, 0, [], [], [])

  function Rva(pe: Pe, s: Section): u64 { (s.address - pe.imageBase) % TWO64 }

  /** The largest section end, as an RVA. */
  function MaxEnd(pe: Pe, sections: seq<Section>): (e: nat)
    requires forall s :: s in sections ==> pe.imageBase <= s.address
    ensures forall s :: s in sections ==> s.address + s.size - pe.imageBase <= e
    ensures sections != [] ==> exists s :: s in sections && e == s.address + s.size - pe.imageBase
  {
    if sections == [] then 0
    else
      var first, rest := sections[0].address + sections[0].size - pe.imageBase, MaxEnd(pe, sections[1..]);
      assert forall s :: s in sections ==> s == sections[0] || s in sections[1..];
      if sections[1..] == [] || first >= rest then (assert sections[0] in sections; first) else rest
  }

  /** `SizeOfImage` as the loader computes it: truncated to 32 bits, 64 KB without sections. */
  function ImageSize(pe: Pe): u32
    requires WellFormed(pe)
  {
    if pe.sections == [] then 0x1_0000 else MaxEnd(pe, pe.sections) % 0x1_0000_0000
  }

  function Aligned(size: u32): (r: nat)
    ensures r % EXTENT == 0 && size <= r < size + EXTENT
  {
    (size + EXTENT - 1) / EXTENT * EXTENT
  }

  lemma AlignedIsMask(size: u32)
    ensures And(size + 0x1F_FFFF, 0xFFFF_FFFF_FFE0_0000) == Aligned(size)
  {
    hide And, Pow2;
    Pow2Of64();
    PowersUsed();
    var x := size + 0x1F_FFFF;
    AndField(x, 21, 64, 0xFFFF_FFFF_FFE0_0000);
    assert x == x / EXTENT * EXTENT + x % EXTENT;
    assert x % 0x1_0000_0000_0000_0000 == x;
  }

  lemma Pow2Of64()
    ensures Pow2(64) == 0x1_0000_0000_0000_0000
  {
    PowersUsed();
    assert Pow2(64) == 2 * Pow2(63);
  }

  /** The bytes of memory set aside for an image. */
  function Extent(pe: Pe): nat
    requires WellFormed(pe)
  {
    Aligned(ImageSize(pe))
  }

  method ComputeSize(pe: Pe) returns (size: u32)
    requires WellFormed(pe)
    ensures size == ImageSize(pe)
    ensures pe.sections == [] ==> size == 0x1_0000
    ensures pe.sections != [] ==>
              exists s :: s in pe.sections && size == (s.address + s.size - pe.imageBase) % 0x1_0000_0000
                          && forall x :: x in pe.sections ==> x.address + x.size <= s.address + s.size
  {
    hide MaxEnd;
    hide Aligned;
    if pe.sections == [] { return 0x1_0000; }
    var max := 0;
    MaxEndOfNone(pe);
    for i := 0 to |pe.sections|
      invariant pe.sections[..i] <= pe.sections && max == MaxEnd(pe, pe.sections[..i])
    {
      var s := pe.sections[i];
      MaxEndSnoc(pe, pe.sections[..i], s);
      assert pe.sections[..i + 1] == pe.sections[..i] + [s];
      var end := s.address + s.size - pe.imageBase;
      if end > max { max := end; }
    }
    assert pe.sections[..|pe.sections|] == pe.sections;
    return max % 0x1_0000_0000;
  }

  lemma MaxEndOfNone(pe: Pe)
    ensures MaxEnd(pe, []) == 0
  {}

  lemma MaxEndSnoc(pe: Pe, sections: seq<Section>, s: Section)
    requires WellFormed(pe) && s in pe.sections && forall x :: x in sections ==> x in pe.sections
    ensures var end, max := s.address + s.size - pe.imageBase, MaxEnd(pe, sections);
            MaxEnd(pe, sections + [s]) == if end > max then end else max
  {
    var all := sections + [s];
    assert forall x :: x in all <==> x in sections || x == s;
    assert s in all;
    var max, e := MaxEnd(pe, sections), MaxEnd(pe, all);
    if sections != [] {
      var w :| w in sections && max == w.address + w.size - pe.imageBase;
      assert w in all;
    }
  }

  // ----- Copying one image

  /** The sections written in order from index `k`; a write that leaves memory stops the load. */
  function WriteSections(m: seq<byte>, pe: Pe, sections: seq<Section>, pBase: nat): (r: (seq<byte>, bool))
    ensures |r.0| == |m|
    decreases sections
  {
    if sections == [] then (m, true)
    else
      var dest := pBase + Rva(pe, sections[0]);
      if dest + |sections[0].data| > |m| then (m, false)
      else WriteSections(Splice(m, dest, sections[0].data), pe, sections[1..], pBase)
  }

  /** Header, then sections. */
  function CopyImage(m: seq<byte>, pe: Pe, pBase: nat): (r: (seq<byte>, bool))
    ensures |r.0| == |m|
  {
    if pe.header == [] then WriteSections(m, pe, pe.sections, pBase)
    else if pBase + |pe.header| > |m| then (m, false)
    else WriteSections(Splice(m, pBase, pe.header), pe, pe.sections, pBase)
  }

  /** Copy and relocate. A failed relocation is ignored, a panicking one is not. */
  function LoadImage(m: seq<byte>, pe: Pe, pBase: nat, vBase: u64): (r: (seq<byte>, Outcome<nat>))
    ensures |r.0| == |m|
  {
    var (copied, ok) := CopyImage(m, pe, pBase);
    if !ok then (copied, Fail)
    else
      (Relocate(copied, pe, pBase, vBase),
       if RelocationOutcome(pe, pBase, vBase).Panic? then Panic
       else Done(vBase + (pe.entryPoint - pe.imageBase) % TWO64))
  }

  method CopySections(vm: Vm, pe: Pe, pBase: nat) returns (ok: bool)
    requires vm.Valid()
    modifies vm.mem
    ensures (vm.Contents(), ok) == CopyImage(old(vm.Contents()), pe, pBase)
  {
    hide Rva;
    hide Splice;
    if pe.header != [] {
      ok := vm.WriteMemory(pBase, pe.header);
      if !ok { return; }
    }
    assert pe.sections[0..] == pe.sections;
    for i := 0 to |pe.sections|
      invariant WriteSections(vm.Contents(), pe, pe.sections[i..], pBase) == CopyImage(old(vm.Contents()), pe, pBase)
    {
      assert pe.sections[i..][1..] == pe.sections[i + 1..];
      var s := pe.sections[i];
      ok := vm.WriteMemory(pBase + Rva(pe, s), s.data);
      if !ok { return; }
    }
    return true;
  }

  method LoadSections(vm: Vm, pe: Pe, pBase: nat, vBase: u64) returns (r: Outcome<nat>)
    requires vm.Valid()
    modifies vm.mem
    ensures (vm.Contents(), r) == LoadImage(old(vm.Contents()), pe, pBase, vBase)
  {
    hide CopyImage;
    hide Relocate;
    hide RelocationOutcome;
    var ok := CopySections(vm, pe, pBase);
    if !ok { return Fail; }
    var result := ApplyRelocation(vm, pe, pBase, vBase);
    if result.Panic? { return Panic; }
    return Done(vBase + (pe.entryPoint - pe.imageBase) % TWO64);
  }

  // ----- One image stays in its extent

  /** The image ends below 4 GB, so its size is not truncated. */
  predicate Fits(pe: Pe) {
    forall s :: s in pe.sections ==> s.address + s.size - pe.imageBase < 0x1_0000_0000
  }

  /** Every relocated word lies inside the image's extent. */
  predicate RelocatesInside(pe: Pe)
    requires WellFormed(pe)
  {
    RelocData(pe).Some? ==> forall t :: t in Targets(RelocData(pe).value, 0, 0).0 ==> t + 8 <= Extent(pe)
  }

  lemma SectionInExtent(pe: Pe, s: Section)
    requires WellFormed(pe) && Fits(pe) && s in pe.sections
    ensures Rva(pe, s) == s.address - pe.imageBase && Rva(pe, s) + |s.data| <= Extent(pe)
  {}

  lemma HeaderInExtent(pe: Pe)
    requires WellFormed(pe) && Fits(pe)
    ensures |pe.header| <= Extent(pe)
  {
    assert ImageSize(pe) > 0;
    assert Aligned(ImageSize(pe)) >= EXTENT;
  }

  lemma {:induction false} SectionsStayInside(m: seq<byte>, pe: Pe, sections: seq<Section>, pBase: nat)
    requires WellFormed(pe) && Fits(pe) && forall s :: s in sections ==> s in pe.sections
    ensures SameOutside(m, WriteSections(m, pe, sections, pBase).0, pBase, pBase + Extent(pe))
    decreases sections
  {
    if sections != [] {
      var s := sections[0];
      SectionInExtent(pe, s);
      hide Extent;
      var dest := pBase + Rva(pe, s);
      if dest + |s.data| <= |m| {
        SectionsStayInside(Splice(m, dest, s.data), pe, sections[1..], pBase);
      }
    }
  }

  lemma {:induction false} TargetsShift(data: seq<byte>, offset: nat, pBase: nat)
    ensures var t0, t := Targets(data, offset, 0), Targets(data, offset, pBase);
            && t.1 == t0.1 && |t.0| == |t0.0| && forall i :: 0 <= i < |t.0| ==> t.0[i] == pBase + t0.0[i]
    decreases |data| - offset
  {
    hide BlockTargets;
    hide FromLe;
    if offset + 8 <= |data| {
      TargetsStep(data, offset, 0);
      TargetsStep(data, offset, pBase);
      var page, size := FromLe(data[offset..offset + 4]), FromLe(data[offset + 4..offset + 8]);
      if size >= 8 {
        BlockTargetsShift(data, offset, page, (size - 8) / 2, 0, pBase);
        TargetsShift(data, offset + size, pBase);
      }
    }
  }

  lemma {:induction false} BlockTargetsShift(data: seq<byte>, offset: nat, page: u32, count: nat, i: nat, pBase: nat)
    ensures var t0 := BlockTargets(data, offset, page, count, i, 0);
            var t := BlockTargets(data, offset, page, count, i, pBase);
            |t| == |t0| && forall k :: 0 <= k < |t| ==> t[k] == pBase + t0[k]
    decreases count - i
  {
    hide FromLe;
    if i < count && offset + 8 + i * 2 + 2 <= |data| {
      BlockTargetsShift(data, offset, page, count, i + 1, pBase);
    }
  }

  lemma {:induction false} AddAllStaysInside(m: seq<byte>, targets: seq<nat>, d: u64, lo: nat, hi: nat)
    requires forall t :: t in targets ==> lo <= t && t + 8 <= hi
    ensures SameOutside(m, AddAll(m, targets, d), lo, hi)
    decreases targets
  {
    if targets != [] {
      assert targets[0] in targets && forall t :: t in targets[1..] ==> t in targets;
      AddAllStaysInside(AddWord(m, targets[0], d), targets[1..], d, lo, hi);
    }
  }

  lemma RelocateStaysInside(m: seq<byte>, pe: Pe, pBase: nat, vBase: u64)
    requires WellFormed(pe) && RelocatesInside(pe)
    ensures SameOutside(m, Relocate(m, pe, pBase, vBase), pBase, pBase + Extent(pe))
  {
    hide Extent;
    if RelocData(pe).Some? {
      var data := RelocData(pe).value;
      TargetsShift(data, 0, pBase);
      var t0, t := Targets(data, 0, 0).0, Targets(data, 0, pBase).0;
      forall x | x in t
        ensures pBase <= x && x + 8 <= pBase + Extent(pe)
      {
        var i :| 0 <= i < |t| && t[i] == x;
        assert t0[i] in t0;
      }
      AddAllStaysInside(m, t, Delta(pe, vBase), pBase, pBase + Extent(pe));
    }
  }

  /** Loading an image changes nothing outside its extent, even when the load fails half way. */
  lemma LoadStaysInside(m: seq<byte>, pe: Pe, pBase: nat, vBase: u64)
    requires WellFormed(pe) && Fits(pe) && RelocatesInside(pe)
    ensures SameOutside(m, LoadImage(m, pe, pBase, vBase).0, pBase, pBase + Extent(pe))
  {
    HeaderInExtent(pe);
    hide Extent;
    hide WriteSections;
    hide Relocate;
    var h := if pe.header == [] || pBase + |pe.header| > |m| then m else Splice(m, pBase, pe.header);
    SectionsStayInside(h, pe, pe.sections, pBase);
    RelocateStaysInside(CopyImage(m, pe, pBase).0, pe, pBase, vBase);
  }
}

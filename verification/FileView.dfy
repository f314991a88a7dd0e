/** What a loaded image holds: the file's bytes, at the offsets the RVA map gives. */
module FileView {
  import opened Words
  import opened GuestMemory
  import opened PeFile
  import opened RvaMap
  import opened PeLayout
  import opened Relocation
  import opened Loader

  // ----- The section table and the parsed sections describe the same file

  ghost predicate RowsAt(raw: seq<byte>, ptr: nat, rows: seq<Row>) {
    forall k :: 0 <= k < |rows| ==> RowAt(raw, ptr + 40 * k) == Done(rows[k])
  }

  /** Rows claim disjoint extents below 4 GB, and so do their file ranges. */
  ghost predicate TidyRows(rows: seq<Row>) {
    && (forall r :: r in rows ==> r.vAddr + r.Extent() < U32_LIMIT && r.rPtr + r.Extent() <= U32_LIMIT)
    && (forall j, k :: 0 <= j < k < |rows| ==>
                         || rows[j].vAddr + rows[j].Extent() <= rows[k].vAddr
                         || rows[k].vAddr + rows[k].Extent() <= rows[j].vAddr)
  }

  function Min(a: nat, b: nat): nat { if a < b then a else b }

  /** `s` is what the object parser makes of row `r`. */
  ghost predicate FromRow(pe: Pe, s: Section, r: Row) {
    && r.vSize > 0 && s.address == pe.imageBase + r.vAddr && s.size == r.vSize
    && r.rPtr + Min(r.rSize, r.vSize) <= |pe.raw|
    && s.data == pe.raw[r.rPtr..r.rPtr + Min(r.rSize, r.vSize)]
  }

  ghost predicate Described(pe: Pe, ptr: nat, rows: seq<Row>) {
    && TablePrinted(pe.raw, ptr, rows) && TidyRows(rows)
    && forall s :: s in pe.sections ==> exists k :: 0 <= k < |rows| && FromRow(pe, s, rows[k])
  }

  lemma ConsultRow(r: Row, rva: u32)
    requires r.vAddr + r.Extent() < U32_LIMIT && r.rPtr + r.Extent() <= U32_LIMIT
    ensures Consult(r, rva) == Done(if r.Claims(rva) then Some(r.rPtr + (rva - r.vAddr)) else None)
  {}

  lemma TidyTail(rows: seq<Row>)
    requires TidyRows(rows) && rows != []
    ensures TidyRows(rows[1..])
  {
    var rest := rows[1..];
    assert forall r :: r in rest ==> r in rows;
    forall j, k | 0 <= j < k < |rest|
      ensures rest[j].vAddr + rest[j].Extent() <= rest[k].vAddr || rest[k].vAddr + rest[k].Extent() <= rest[j].vAddr
    {
      assert rest[j] == rows[j + 1] && rest[k] == rows[k + 1];
    }
  }

  lemma RowsTail(raw: seq<byte>, ptr: nat, rows: seq<Row>)
    requires RowsAt(raw, ptr, rows) && rows != []
    ensures RowAt(raw, ptr) == Done(rows[0]) && RowsAt(raw, ptr + 40, rows[1..])
  {
    hide RowAt;
    assert RowAt(raw, ptr + 40 * 0) == Done(rows[0]);
    forall j | 0 <= j < |rows| - 1
      ensures RowAt(raw, ptr + 40 + 40 * j) == Done(rows[1..][j])
    {
      assert ptr + 40 + 40 * j == ptr + 40 * (j + 1);
      assert RowAt(raw, ptr + 40 * (j + 1)) == Done(rows[j + 1]);
    }
  }

  lemma {:induction false} SearchFindsRow(raw: seq<byte>, ptr: nat, rows: seq<Row>, k: nat, rva: u32)
    requires RowsAt(raw, ptr, rows) && TidyRows(rows) && k < |rows| && rows[k].Claims(rva)
    ensures SearchRows(raw, ptr, |rows|, rva) == Done(Some(rows[k].rPtr + (rva - rows[k].vAddr)))
    decreases k
  {
    hide RowAt;
    hide Consult;
    assert rows[0] in rows && rows[k] in rows;
    RowsTail(raw, ptr, rows);
    ConsultRow(rows[0], rva);
    if k > 0 {
      TidyTail(rows);
      assert !rows[0].Claims(rva);
      SearchFindsRow(raw, ptr + 40, rows[1..], k - 1, rva);
    }
  }

  lemma {:induction false} HeldSomewhere(pe: Pe, sections: seq<Section>, s: Section, rva: u32)
    requires s in sections && Holds(s, pe.imageBase, rva) == Done(true)
    requires forall x :: x in sections ==> Holds(x, pe.imageBase, rva).Done?
    ensures OffsetFrom(pe, sections, rva) == FileOffset(pe.raw, rva)
    decreases sections
  {
    hide Holds;
    hide FileOffset;
    assert sections[0] in sections;
    if Holds(sections[0], pe.imageBase, rva) != Done(true) {
      assert forall x :: x in sections[1..] ==> x in sections;
      HeldSomewhere(pe, sections[1..], s, rva);
    }
  }

  lemma HoldsItsRow(pe: Pe, s: Section, r: Row, rva: u32)
    requires WellFormed(pe) && FromRow(pe, s, r) && r.vAddr + r.Extent() < U32_LIMIT
    ensures Rva(pe, s) == r.vAddr && Holds(s, pe.imageBase, rva) == Done(r.Claims(rva))
  {
    hide WellFormed;
    assert s.address - pe.imageBase == r.vAddr && s.size == r.vSize;
    hide FromRow;
    IsOwnResidue(r.vAddr);
    IsOwnResidue(r.vSize);
  }

  lemma IsOwnResidue(x: u32)
    ensures x % U32_LIMIT == x && x % TWO64 == x
  {}

  lemma SectionsReadable(pe: Pe, ptr: nat, rows: seq<Row>, rva: u32)
    requires WellFormed(pe) && Described(pe, ptr, rows)
    ensures forall x :: x in pe.sections ==> Holds(x, pe.imageBase, rva).Done?
  {
    hide Holds;
    hide WellFormed;
    hide RowTable;
    hide RowAt;
    forall x | x in pe.sections
      ensures Holds(x, pe.imageBase, rva).Done?
    {
      var j :| 0 <= j < |rows| && FromRow(pe, x, rows[j]);
      hide FromRow;
      assert rows[j] in rows;
      HoldsItsRow(pe, x, rows[j], rva);
    }
  }

  /** Byte `i` of section `k`, as an RVA. */
  function SectionRva(pe: Pe, k: nat, i: nat): nat
    requires k < |pe.sections|
  {
    Rva(pe, pe.sections[k]) + i
  }

  /** Where the file stores the byte for `rva`, by way of the RVA map. */
  function FilePlace(pe: Pe, rva: nat): Option<nat> {
    if rva >= U32_LIMIT then None
    else
      match RvaToOffset(pe, rva)
      case Done(Some(o)) => if o < |pe.raw| then Some(o) else None
      case _ => None
  }

  function FileByte(pe: Pe, rva: nat): Option<byte> {
    match FilePlace(pe, rva)
    case Some(o) => Some(pe.raw[o])
    case None => None
  }

  function FileWord(pe: Pe, rva: nat): Option<u64> {
    match FilePlace(pe, rva)
    case Some(o) => if o + 8 <= |pe.raw| then Some(Word64(pe.raw, o)) else None
    case None => None
  }

  lemma RowIsBounded(pe: Pe, ptr: nat, rows: seq<Row>, j: nat)
    requires Described(pe, ptr, rows) && j < |rows|
    ensures rows[j].vAddr + rows[j].Extent() < U32_LIMIT && TidyRows(rows) && RowsAt(pe.raw, ptr, rows)
    ensures RowTable(pe.raw) == Done((ptr, |rows|))
  {
    hide TablePrinted, RowAt, RowTable;
    assert rows[j] in rows;
    TableReads(pe.raw, ptr, rows);
  }

  lemma PlaceInRow(pe: Pe, ptr: nat, rows: seq<Row>, k: nat, j: nat, i: nat)
    requires WellFormed(pe) && Described(pe, ptr, rows) && k < |pe.sections| && j < |rows|
    requires FromRow(pe, pe.sections[k], rows[j]) && i < |pe.sections[k].data|
    ensures FilePlace(pe, SectionRva(pe, k, i)) == Some(rows[j].rPtr + i)
  {
    hide RowAt, RowsAt, RowTable, TidyRows, SearchRows, Holds, WellFormed, Rva, Described;
    var s, r := pe.sections[k], rows[j];
    assert s in pe.sections;
    var rva := r.vAddr + i;
    RowIsBounded(pe, ptr, rows, j);
    HoldsItsRow(pe, s, r, rva);
    SectionsReadable(pe, ptr, rows, rva);
    HeldSomewhere(pe, pe.sections, s, rva);
    SearchFindsRow(pe.raw, ptr, rows, j, rva);
    hide OffsetFrom;
    assert RvaToOffset(pe, rva) == FileOffset(pe.raw, rva) == Done(Some(r.rPtr + i));
  }

  /** The RVA map sends a section's raw bytes, as one run, to where the file stores them. */
  lemma OffsetOfSection(pe: Pe, ptr: nat, rows: seq<Row>, k: nat, i: nat)
    requires WellFormed(pe) && Described(pe, ptr, rows) && k < |pe.sections| && i < |pe.sections[k].data|
    ensures var data, o := pe.sections[k].data, FilePlace(pe, SectionRva(pe, k, i));
            o.Some? && o.value + (|data| - i) <= |pe.raw| && pe.raw[o.value..o.value + (|data| - i)] == data[i..]
  {
    hide TablePrinted, TidyRows, WellFormed, FilePlace, SectionRva;
    var s := pe.sections[k];
    assert s in pe.sections;
    var j :| 0 <= j < |rows| && FromRow(pe, s, rows[j]);
    PlaceInRow(pe, ptr, rows, k, j, i);
    SliceOfSlice(pe.raw, rows[j].rPtr, rows[j].rPtr + |s.data|, i, |s.data|);
  }

  /** Any other RVA leads nowhere: only the parsed sections open the way to the section table. */
  lemma OutsideSections(pe: Pe, rva: u32)
    requires WellFormed(pe)
    requires forall s :: s in pe.sections ==>
               s.address + s.size < pe.imageBase + U32_LIMIT && !(s.address <= pe.imageBase + rva < s.address + s.size)
    ensures RvaToOffset(pe, rva) == Done(None)
  {
    OutsideEach(pe, pe.sections, rva);
  }

  lemma {:induction false} OutsideEach(pe: Pe, sections: seq<Section>, rva: u32)
    requires WellFormed(pe) && forall s :: s in sections ==> s in pe.sections
    requires forall s :: s in sections ==>
               s.address + s.size < pe.imageBase + U32_LIMIT && !(s.address <= pe.imageBase + rva < s.address + s.size)
    ensures OffsetFrom(pe, sections, rva) == Done(None)
    decreases sections
  {
    if sections != [] {
      var s := sections[0];
      assert s in sections && forall x :: x in sections[1..] ==> x in sections;
      IsOwnResidue(s.address - pe.imageBase);
      IsOwnResidue(s.size);
      OutsideEach(pe, sections[1..], rva);
    }
  }

  /** The file's byte and, where eight are left, the file's word are those of the section. */
  lemma FileHoldsSection(pe: Pe, ptr: nat, rows: seq<Row>, k: nat, i: nat)
    requires WellFormed(pe) && Described(pe, ptr, rows) && k < |pe.sections| && i < |pe.sections[k].data|
    ensures FileByte(pe, SectionRva(pe, k, i)) == Some(pe.sections[k].data[i])
    ensures i + 8 <= |pe.sections[k].data| ==>
              FileWord(pe, SectionRva(pe, k, i)) == Some(Word64(pe.sections[k].data, i))
  {
    hide Described, WellFormed, FilePlace, FromLe;
    OffsetOfSection(pe, ptr, rows, k, i);
    var data, o := pe.sections[k].data, FilePlace(pe, SectionRva(pe, k, i)).value;
    var n := |data| - i;
    assert pe.raw[o..o + n][0] == data[i..][0];
    if n >= 8 {
      assert data[i..] == data[i..|data|];
      SliceOfSlice(pe.raw, o, o + n, 0, 8);
      SliceOfSlice(data, i, |data|, 0, 8);
    }
  }

  // ----- The copied bytes

  /** Section ranges, as copied, do not overlap. */
  ghost predicate DisjointSections(pe: Pe, sections: seq<Section>) {
    forall i, j :: 0 <= i < j < |sections| ==> Apart(pe, sections[i], sections[j])
  }

  predicate Apart(pe: Pe, a: Section, b: Section) {
    Rva(pe, a) + |a.data| <= Rva(pe, b) || Rva(pe, b) + |b.data| <= Rva(pe, a)
  }

  predicate Covers(pe: Pe, s: Section, rva: nat) {
    Rva(pe, s) <= rva < Rva(pe, s) + |s.data|
  }

  lemma {:induction false} UncoveredByte(m: seq<byte>, pe: Pe, sections: seq<Section>, pBase: nat, rva: nat)
    requires pBase + rva < |m| && forall s :: s in sections ==> !Covers(pe, s, rva)
    ensures WriteSections(m, pe, sections, pBase).0[pBase + rva] == m[pBase + rva]
    decreases sections
  {
    hide Rva;
    if sections != [] {
      var s := sections[0];
      var dest := pBase + Rva(pe, s);
      assert s in sections && forall x :: x in sections[1..] ==> x in sections;
      if dest + |s.data| <= |m| {
        UncoveredByte(Splice(m, dest, s.data), pe, sections[1..], pBase, rva);
      }
    }
  }

  lemma DisjointTail(pe: Pe, sections: seq<Section>)
    requires DisjointSections(pe, sections) && sections != []
    ensures DisjointSections(pe, sections[1..])
    ensures forall x :: x in sections[1..] ==> Apart(pe, sections[0], x)
  {
    hide Apart;
    var rest := sections[1..];
    forall a, b | 0 <= a < b < |rest|
      ensures Apart(pe, rest[a], rest[b])
    {
      assert Apart(pe, sections[a + 1], sections[b + 1]);
    }
    forall x | x in rest
      ensures Apart(pe, sections[0], x)
    {
      var j :| 0 <= j < |rest| && rest[j] == x;
      assert Apart(pe, sections[0], sections[j + 1]);
    }
  }

  lemma WriteStep(m: seq<byte>, pe: Pe, sections: seq<Section>, pBase: nat)
    requires sections != [] && WriteSections(m, pe, sections, pBase).1
    ensures var dest, data := pBase + Rva(pe, sections[0]), sections[0].data;
            && dest + |data| <= |m|
            && WriteSections(m, pe, sections, pBase) == WriteSections(Splice(m, dest, data), pe, sections[1..], pBase)
  {
    hide Rva, Splice;
  }

  lemma {:induction false} CoveredByte(m: seq<byte>, pe: Pe, sections: seq<Section>, pBase: nat, k: nat, i: nat)
    requires DisjointSections(pe, sections) && k < |sections| && i < |sections[k].data|
    requires WriteSections(m, pe, sections, pBase).1
    ensures var x := pBase + Rva(pe, sections[k]) + i;
            x < |m| && WriteSections(m, pe, sections, pBase).0[x] == sections[k].data[i]
    decreases sections
  {
    hide Rva, WriteSections, DisjointSections;
    DisjointTail(pe, sections);
    WriteStep(m, pe, sections, pBase);
    var s, rest := sections[0], sections[1..];
    var m1 := Splice(m, pBase + Rva(pe, s), s.data);
    if k == 0 {
      UncoveredByte(m1, pe, rest, pBase, Rva(pe, s) + i);
    } else {
      CoveredByte(m1, pe, rest, pBase, k - 1, i);
    }
  }

  /** Loading is copying, then adding the delta at every relocation target. */
  lemma LoadIsCopyThenAdd(m: seq<byte>, pe: Pe, pBase: nat, vBase: u64)
    requires LoadImage(m, pe, pBase, vBase).1.Done?
    ensures CopyImage(m, pe, pBase).1
    ensures LoadImage(m, pe, pBase, vBase).0
         == AddAll(CopyImage(m, pe, pBase).0, RelocTargets(pe, pBase), Delta(pe, vBase))
  {
    hide CopyImage, Targets;
    if RelocData(pe).Some? { RelocateIsAddAll(CopyImage(m, pe, pBase).0, pe, pBase, vBase); }
  }

  lemma CopyIsHeaderThenSections(m: seq<byte>, pe: Pe, pBase: nat) returns (h: seq<byte>)
    requires CopyImage(m, pe, pBase).1
    ensures |h| == |m| && CopyImage(m, pe, pBase) == WriteSections(h, pe, pe.sections, pBase)
  {
    hide WriteSections;
    h := if pe.header == [] then m else Splice(m, pBase, pe.header);
  }

  lemma SectionByteCopied(m: seq<byte>, pe: Pe, pBase: nat, k: nat, i: nat)
    requires DisjointSections(pe, pe.sections) && CopyImage(m, pe, pBase).1
    requires k < |pe.sections| && i < |pe.sections[k].data|
    ensures var x := pBase + SectionRva(pe, k, i);
            x < |m| && CopyImage(m, pe, pBase).0[x] == pe.sections[k].data[i]
  {
    hide Rva, WriteSections, DisjointSections, CopyImage;
    var h := CopyIsHeaderThenSections(m, pe, pBase);
    CoveredByte(h, pe, pe.sections, pBase, k, i);
  }

  lemma SectionWordCopied(m: seq<byte>, pe: Pe, pBase: nat, k: nat, i: nat)
    requires DisjointSections(pe, pe.sections) && CopyImage(m, pe, pBase).1
    requires k < |pe.sections| && i + 8 <= |pe.sections[k].data|
    ensures var x := pBase + SectionRva(pe, k, i);
            x + 8 <= |m| && Word64(CopyImage(m, pe, pBase).0, x) == Word64(pe.sections[k].data, i)
  {
    hide CopyImage, DisjointSections, Rva, FromLe;
    var data, copied, x := pe.sections[k].data, CopyImage(m, pe, pBase).0, pBase + SectionRva(pe, k, i);
    SectionByteCopied(m, pe, pBase, k, i + 7);
    forall y | x <= y < x + 8
      ensures copied[y] == data[y - x + i]
    {
      SectionByteCopied(m, pe, pBase, k, y - x + i);
    }
    assert copied[x..x + 8] == data[i..i + 8];
  }

  /**
   File view agrees with memory view, wherever the image is loaded: a section byte that no relocation
   covers is the byte the RVA map finds in the file, and a relocated word is the file's word plus the
   delta as often as it is a target.
   */
  lemma MemoryHoldsFile(m: seq<byte>, pe: Pe, ptr: nat, rows: seq<Row>, pBase: nat, vBase: u64, k: nat, i: nat)
    requires WellFormed(pe) && Described(pe, ptr, rows) && DisjointSections(pe, pe.sections)
    requires LoadImage(m, pe, pBase, vBase).1.Done?
    requires k < |pe.sections| && i < |pe.sections[k].data|
    ensures pBase + SectionRva(pe, k, i) < |m|
    ensures HoldsByte(LoadImage(m, pe, pBase, vBase).0, pe, pBase, SectionRva(pe, k, i))
    ensures i + 8 <= |pe.sections[k].data| ==>
              HoldsWord(LoadImage(m, pe, pBase, vBase).0, pe, pBase, vBase, SectionRva(pe, k, i))
  {
    hide Described, DisjointSections, WellFormed, LoadImage, CopyImage;
    hide SectionRva, RelocTargets, AddAll, FileByte, FileWord;
    var x, targets, copied := pBase + SectionRva(pe, k, i), RelocTargets(pe, pBase), CopyImage(m, pe, pBase).0;
    FileHoldsSection(pe, ptr, rows, k, i);
    LoadIsCopyThenAdd(m, pe, pBase, vBase);
    SectionByteCopied(m, pe, pBase, k, i);
    if !Covered(targets, x, |m|) { ByteAfterAddAll(copied, targets, Delta(pe, vBase), x); }
    if i + 8 <= |pe.sections[k].data| {
      SectionWordCopied(m, pe, pBase, k, i);
      if CleanWindows(targets) { AddAllIsRelocated(copied, targets, Delta(pe, vBase)); }
    }
  }

  /** If no relocation covers the byte at `rva`, memory has the file's. */
  ghost predicate HoldsByte(m: seq<byte>, pe: Pe, pBase: nat, rva: nat)
    requires pBase + rva < |m|
  {
    !Covered(RelocTargets(pe, pBase), pBase + rva, |m|) ==> FileByte(pe, rva) == Some(m[pBase + rva])
  }

  /** If targets do not overlap in part and the word at `rva` is one, memory has the file's word, relocated. */
  ghost predicate HoldsWord(m: seq<byte>, pe: Pe, pBase: nat, vBase: nat, rva: nat) {
    var targets, x := RelocTargets(pe, pBase), pBase + rva;
    && x + 8 <= |m|
    && (CleanWindows(targets) && x in targets ==>
          && FileWord(pe, rva).Some?
          && Word64(m, x) == Grown(FileWord(pe, rva).value, Count(targets, x), Delta(pe, vBase)))
  }

  /** Header bytes that no section's raw data and no relocation covers survive the load. */
  lemma HeaderSurvives(m: seq<byte>, pe: Pe, pBase: nat, vBase: u64, k: nat)
    requires LoadImage(m, pe, pBase, vBase).1.Done?
    requires k < |pe.header| && forall s :: s in pe.sections ==> !Covers(pe, s, k)
    ensures pBase + k < |m|
    ensures !Covered(RelocTargets(pe, pBase), pBase + k, |m|) ==>
              LoadImage(m, pe, pBase, vBase).0[pBase + k] == pe.header[k]
  {
    hide RelocTargets, AddAll, Covered;
    LoadIsCopyThenAdd(m, pe, pBase, vBase);
    hide LoadImage;
    UncoveredByte(Splice(m, pBase, pe.header), pe, pe.sections, pBase, k);
    if !Covered(RelocTargets(pe, pBase), pBase + k, |m|) {
      ByteAfterAddAll(CopyImage(m, pe, pBase).0, RelocTargets(pe, pBase), Delta(pe, vBase), pBase + k);
    }
  }
}

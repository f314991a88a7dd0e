/** Bytes in place: what stands in a file where RVAs lead, one after the other. */
module Placement {
  import opened Words
  import opened Text
  import opened PeFile
  import opened RvaMap
  import opened Loader
  import opened FileView

  /** Text that a NUL can end. */
  predicate Clean(text: seq<byte>) {
    forall i :: 0 <= i < |text| ==> text[i] != 0
  }

  /** The file holds `s` at `rva + shift`, and maps RVAs there one by one; thunks have 31 bits for an RVA. */
  ghost predicate Placed(pe: Pe, shift: int, rva: nat, s: seq<byte>) {
    && 0 <= rva + shift && rva + |s| <= 0x8000_0000 && rva + shift + |s| <= |pe.raw|
    && pe.raw[rva + shift..rva + shift + |s|] == s
    && forall x: nat | rva <= x < rva + |s| :: RequireOffset(pe, x) == Done(x + shift)
  }

  lemma PlacedParts(pe: Pe, shift: int, rva: nat, s: seq<byte>, t: seq<byte>)
    requires Placed(pe, shift, rva, s + t)
    ensures Placed(pe, shift, rva, s) && Placed(pe, shift, rva + |s|, t)
  {
    hide RequireOffset;
    var o, n := rva + shift, |s + t|;
    SliceOfSlice(pe.raw, o, o + n, 0, |s|);
    SliceOfSlice(pe.raw, o, o + n, |s|, n);
    assert (s + t)[0..|s|] == s && (s + t)[|s|..n] == t;
  }

  lemma PlacedByte(pe: Pe, shift: int, rva: nat, s: seq<byte>, i: nat)
    requires Placed(pe, shift, rva, s) && i < |s|
    ensures rva + shift >= 0 && rva + shift + i < |pe.raw| && pe.raw[rva + shift + i] == s[i]
  {
    hide RequireOffset;
    var o := rva + shift;
    assert pe.raw[o..o + |s|][i] == pe.raw[o + i];
  }

  lemma InBounds(pe: Pe, shift: int, rva: nat, s: seq<byte>)
    requires Placed(pe, shift, rva, s)
    ensures 0 <= rva + shift && rva + |s| <= 0x8000_0000
  {}

  lemma Placed32(pe: Pe, shift: int, rva: nat, x: u32)
    requires Placed(pe, shift, rva, ToLe(x, 4))
    ensures rva + shift >= 0 && ReadU32(pe.raw, rva + shift) == Done(x)
  {
    hide RequireOffset, FromLe, ToLe;
    assert Pow256(4) == 0x1_0000_0000;
    ReadPrinted(pe.raw, rva + shift, x, 4);
  }

  lemma Placed16(pe: Pe, shift: int, rva: nat, x: u16)
    requires Placed(pe, shift, rva, ToLe(x, 2))
    ensures rva + shift >= 0 && ReadU16(pe.raw, rva + shift) == Done(x)
  {
    hide RequireOffset, FromLe, ToLe;
    assert Pow256(2) == 0x1_0000;
    ReadPrinted(pe.raw, rva + shift, x, 2);
  }

  /** A printed string reads back. */
  lemma PlacedText(pe: Pe, shift: int, rva: nat, text: seq<byte>)
    requires Placed(pe, shift, rva, text + [0]) && Clean(text)
    ensures RequireOffset(pe, rva) == Done(rva + shift) && CString(pe.raw, rva + shift) == Done(AsText(text))
  {
    hide RequireOffset;
    PlacedParts(pe, shift, rva, text, [0]);
    PlacedByte(pe, shift, rva + |text|, [0], 0);
    assert RequireOffset(pe, rva) == Done(rva + shift);
    StoredString(pe.raw, rva + shift, text);
  }

  lemma RowOf(pe: Pe, ptr: nat, rows: seq<Row>, k: nat) returns (j: nat)
    requires Described(pe, ptr, rows) && k < |pe.sections|
    ensures j < |rows| && FromRow(pe, pe.sections[k], rows[j])
  {
    hide TidyRows, FromRow;
    var s := pe.sections[k];
    assert s in pe.sections;
    j :| 0 <= j < |rows| && FromRow(pe, s, rows[j]);
  }

  lemma RowHoldsData(pe: Pe, s: Section, r: Row)
    requires FromRow(pe, s, r)
    ensures r.rPtr + |s.data| <= |pe.raw| && pe.raw[r.rPtr..r.rPtr + |s.data|] == s.data
  {}

  lemma MapsByPlace(pe: Pe, x: nat, o: nat)
    requires FilePlace(pe, x) == Some(o)
    ensures x < U32_LIMIT && RequireOffset(pe, x) == Done(o)
  {
    hide RvaToOffset;
  }

  lemma PlacedByPlaces(pe: Pe, o: nat, rva: nat, s: seq<byte>)
    requires rva + |s| <= 0x8000_0000 && o + |s| <= |pe.raw| && pe.raw[o..o + |s|] == s
    requires forall x: nat | rva <= x < rva + |s| :: FilePlace(pe, x) == Some(x - rva + o)
    ensures Placed(pe, o - rva, rva, s)
  {
    hide FilePlace, RequireOffset;
    forall x: nat | rva <= x < rva + |s|
      ensures RequireOffset(pe, x) == Done(x + (o - rva))
    {
      MapsByPlace(pe, x, x - rva + o);
    }
  }

  /** A section's raw data stand in the file and are mapped one by one. */
  lemma SectionIsPlaced(pe: Pe, ptr: nat, rows: seq<Row>, k: nat) returns (shift: int)
    requires WellFormed(pe) && Described(pe, ptr, rows) && k < |pe.sections|
    requires SectionRva(pe, k, |pe.sections[k].data|) <= 0x8000_0000
    ensures Placed(pe, shift, SectionRva(pe, k, 0), pe.sections[k].data)
  {
    hide Described, FromRow, WellFormed, Rva, FilePlace, Placed;
    var j := RowOf(pe, ptr, rows, k);
    var rva, o, data := SectionRva(pe, k, 0), rows[j].rPtr, pe.sections[k].data;
    RowHoldsData(pe, pe.sections[k], rows[j]);
    forall x: nat | rva <= x < rva + |data|
      ensures FilePlace(pe, x) == Some(x - rva + o)
    {
      PlaceInRow(pe, ptr, rows, k, j, x - rva);
    }
    PlacedByPlaces(pe, o, rva, data);
    shift := o - rva;
  }

  /** So does whatever is printed into it. */
  lemma PrintedIsPlaced(pe: Pe, ptr: nat, rows: seq<Row>, k: nat,
                        before: seq<byte>, printed: seq<byte>, after: seq<byte>)
    returns (shift: int)
    requires WellFormed(pe) && Described(pe, ptr, rows) && k < |pe.sections|
    requires SectionRva(pe, k, |pe.sections[k].data|) <= 0x8000_0000
    requires pe.sections[k].data == before + printed + after
    ensures Placed(pe, shift, SectionRva(pe, k, |before|), printed)
  {
    hide Placed, Described, WellFormed, Rva;
    shift := SectionIsPlaced(pe, ptr, rows, k);
    assert pe.sections[k].data == before + (printed + after);
    PlacedParts(pe, shift, SectionRva(pe, k, 0), before, printed + after);
    PlacedParts(pe, shift, SectionRva(pe, k, |before|), printed, after);
  }
}

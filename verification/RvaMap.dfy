/** From RVAs to file offsets, and the strings found there. */
module RvaMap {
  import opened Words
  import opened Text
  import opened PeFile

  const U32_LIMIT := 0x1_0000_0000

  /** Address and size of data directory `index`. */
  function DataDirectory(pe: Pe, index: nat): Outcome<(u32, u32)> {
    var lfanew :- ReadU32(pe.raw, 0x3C);
    var off := lfanew + 24 + 112 + index * 8;
    if off + 8 > |pe.raw| then Fail
    else
      var rva :- ReadU32(pe.raw, off);
      var size :- ReadU32(pe.raw, off + 4);
      Done((rva, size))
  }

  // ----- The section table in the file

  datatype Row = Row(vAddr: u32, vSize: u32, rSize: u32, rPtr: u32) {
    /** The extent a row claims: its virtual size, or its raw size if that is 0. */
    function Extent(): nat { if vSize > 0 then vSize else rSize }

    predicate Claims(rva: nat) { vAddr <= rva < vAddr + Extent() }
  }

  function RowAt(raw: seq<byte>, ptr: nat): Outcome<Row> {
    var vAddr :- ReadU32(raw, ptr + 12);
    var vSize :- ReadU32(raw, ptr + 8);
    var rPtr :- ReadU32(raw, ptr + 20);
    var rSize :- ReadU32(raw, ptr + 16);
    Done(Row(vAddr, vSize, rSize, rPtr))
  }

  /** What one row says about `rva`: nothing, an offset, or a 32-bit overflow. */
  function Consult(row: Row, rva: u32): Outcome<Option<nat>> {
    if rva < row.vAddr then Done(None)
    else if row.vAddr + row.Extent() >= U32_LIMIT then Panic
    else if rva >= row.vAddr + row.Extent() then Done(None)
    else if row.rPtr + (rva - row.vAddr) >= U32_LIMIT then Panic
    else Done(Some(row.rPtr + (rva - row.vAddr)))
  }

  /** The search from row pointer `ptr` with `n` rows to go; low RVAs fall back to the headers. */
  function SearchRows(raw: seq<byte>, ptr: nat, n: nat, rva: u32): Outcome<Option<nat>>
    decreases n
  {
    if n == 0 then Done(if rva < 4096 then Some(rva) else None)
    else
      var row :- RowAt(raw, ptr);
      var hit :- Consult(row, rva);
      if hit.Some? then Done(hit) else SearchRows(raw, ptr + 40, n - 1, rva)
  }

  /** Where the section table starts and how many rows it has. */
  function RowTable(raw: seq<byte>): Outcome<(nat, nat)> {
    var lfanew :- ReadU32(raw, 0x3C);
    var count :- ReadU16(raw, lfanew + 6);
    var optSize :- ReadU16(raw, lfanew + 20);
    Done((lfanew + 24 + optSize, count))
  }

  function FileOffset(raw: seq<byte>, rva: u32): Outcome<Option<nat>> {
    var table :- RowTable(raw);
    SearchRows(raw, table.0, table.1, rva)
  }

  method FindFileOffset(raw: seq<byte>, rva: u32) returns (r: Outcome<Option<nat>>)
    ensures r == FileOffset(raw, rva)
  {
    var table := RowTable(raw);
    if table.IsFailure() { return table.PropagateFailure(); }
    var ptr, n := table.value.0, table.value.1;
    while n > 0
      invariant SearchRows(raw, ptr, n, rva) == FileOffset(raw, rva)
    {
      var row := RowAt(raw, ptr);
      if row.IsFailure() { return row.PropagateFailure(); }
      var hit := Consult(row.value, rva);
      if hit.IsFailure() || hit.value.Some? { return hit; }
      ptr, n := ptr + 40, n - 1;
    }
    return Done(if rva < 4096 then Some(rva) else None);
  }

  // ----- Through the parsed sections

  /** Does section `s` hold `rva`? The subtraction and the 32-bit addition are checked. */
  function Holds(s: Section, imageBase: u64, rva: u32): Outcome<bool> {
    if s.address < imageBase then Panic
    else
      var start := (s.address - imageBase) % U32_LIMIT;
      if start + s.size % U32_LIMIT >= U32_LIMIT then Panic
      else Done(start <= rva < start + s.size % U32_LIMIT)
  }

  /** Any section that holds `rva` sends the search to the file's own table. */
  function OffsetFrom(pe: Pe, sections: seq<Section>, rva: u32): Outcome<Option<nat>> {
    if sections == [] then Done(None)
    else
      var held :- Holds(sections[0], pe.imageBase, rva);
      if held then FileOffset(pe.raw, rva) else OffsetFrom(pe, sections[1..], rva)
  }

  function RvaToOffset(pe: Pe, rva: u32): Outcome<Option<nat>> {
    OffsetFrom(pe, pe.sections, rva)
  }

  method FindOffset(pe: Pe, rva: u32) returns (r: Outcome<Option<nat>>)
    ensures r == RvaToOffset(pe, rva)
  {
    for i := 0 to |pe.sections|
      invariant OffsetFrom(pe, pe.sections[i..], rva) == RvaToOffset(pe, rva)
    {
      assert pe.sections[i..][1..] == pe.sections[i + 1..];
      var held := Holds(pe.sections[i], pe.imageBase, rva);
      if held.IsFailure() { return held.PropagateFailure(); }
      if held.value {
        r := FindFileOffset(pe.raw, rva);
        return;
      }
    }
    return Done(None);
  }

  /** `ok_or`: an RVA outside every section is an error. */
  function RequireOffset(pe: Pe, rva: u32): Outcome<nat> {
    var off :- RvaToOffset(pe, rva);
    match off
    case None => Fail
    case Some(o) => Done(o)
  }

  // ----- Strings in the file

  /** The end of the string at `off`: its first NUL, or the end of the file. */
  function CStringEnd(raw: seq<byte>, off: nat): (end: nat)
    requires off <= |raw|
    ensures off <= end <= |raw| && (end < |raw| ==> raw[end] == 0)
    ensures forall i :: off <= i < end ==> raw[i] != 0
    decreases |raw| - off
  {
    if off < |raw| && raw[off] != 0 then CStringEnd(raw, off + 1) else off
  }

  function CString(raw: seq<byte>, off: nat): Outcome<string> {
    if off > |raw| then Panic else Done(AsText(raw[off..CStringEnd(raw, off)]))
  }

  method ReadCString(raw: seq<byte>, off: nat) returns (r: Outcome<string>)
    ensures r == CString(raw, off)
  {
    var end := off;
    while end < |raw| && raw[end] != 0
      invariant off <= |raw| ==> end <= |raw| && CStringEnd(raw, end) == CStringEnd(raw, off)
      decreases |raw| - end
    {
      end := end + 1;
    }
    if off > |raw| { return Panic; }
    return Done(AsText(raw[off..end]));
  }

  /** A NUL-terminated string in the file reads back whole. */
  lemma StoredString(raw: seq<byte>, off: nat, text: seq<byte>)
    requires off + |text| + 1 <= |raw| && raw[off..off + |text|] == text && raw[off + |text|] == 0
    requires forall i :: 0 <= i < |text| ==> text[i] != 0
    ensures CString(raw, off) == Done(AsText(text))
  {
    assert forall i :: off <= i < off + |text| ==> raw[i] == text[i - off];
    assert CStringEnd(raw, off) == off + |text|;
  }
}

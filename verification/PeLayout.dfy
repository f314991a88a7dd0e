/**
 The PE headers byte by byte (Microsoft PE format, "Section Table" and "Optional Header Data Directories"),
 and what the parser makes of them.
*/
module PeLayout {
  import opened Words
  import opened PeFile
  import opened RvaMap

  ghost predicate At(raw: seq<byte>, off: nat, bytes: seq<byte>) {
    off + |bytes| <= |raw| && raw[off..off + |bytes|] == bytes
  }

  /** The headers: their own place, the number of section rows, and the optional header's size. */
  ghost predicate HeadersAt(raw: seq<byte>, lfanew: u32, count: u16, optional: u16) {
    At(raw, 0x3C, ToLe(lfanew, 4)) && At(raw, lfanew + 6, ToLe(count, 2)) && At(raw, lfanew + 20, ToLe(optional, 2))
  }

  /** A section row at `off`: name, virtual size, virtual address, raw size, raw pointer. */
  ghost predicate RowPrinted(raw: seq<byte>, off: nat, row: Row) {
    At(raw, off + 8, ToLe(row.vSize, 4) + ToLe(row.vAddr, 4) + ToLe(row.rSize, 4) + ToLe(row.rPtr, 4))
  }

  /** A whole section table, from its place behind the optional header on. */
  ghost predicate TablePrinted(raw: seq<byte>, ptr: nat, rows: seq<Row>) {
    && |rows| < 0x1_0000
    && (exists lfanew: u32, optional: u16 :: HeadersAt(raw, lfanew, |rows|, optional) && ptr == lfanew + 24 + optional)
    && forall k :: 0 <= k < |rows| ==> RowPrinted(raw, ptr + 40 * k, rows[k])
  }

  lemma Reads32(raw: seq<byte>, off: nat, x: u32)
    requires At(raw, off, ToLe(x, 4))
    ensures ReadU32(raw, off) == Done(x)
  {
    assert Pow256(4) == 0x1_0000_0000;
    hide FromLe, ToLe;
    ReadPrinted(raw, off, x, 4);
  }

  lemma Reads16(raw: seq<byte>, off: nat, x: u16)
    requires At(raw, off, ToLe(x, 2))
    ensures ReadU16(raw, off) == Done(x)
  {
    assert Pow256(2) == 0x1_0000;
    hide FromLe, ToLe;
    ReadPrinted(raw, off, x, 2);
  }

  lemma Parts(raw: seq<byte>, off: nat, s: seq<byte>, t: seq<byte>)
    requires At(raw, off, s + t)
    ensures At(raw, off, s) && At(raw, off + |s|, t)
  {
    SliceOfSlice(raw, off, off + |s + t|, 0, |s|);
    SliceOfSlice(raw, off, off + |s + t|, |s|, |s + t|);
    assert (s + t)[0..|s|] == s && (s + t)[|s|..|s + t|] == t;
  }

  lemma RowReads(raw: seq<byte>, off: nat, row: Row)
    requires RowPrinted(raw, off, row)
    ensures RowAt(raw, off) == Done(row)
  {
    hide At, ToLe, ReadU32;
    var a, b, c, d := ToLe(row.vSize, 4), ToLe(row.vAddr, 4), ToLe(row.rSize, 4), ToLe(row.rPtr, 4);
    assert a + b + c + d == a + (b + (c + d));
    Parts(raw, off + 8, a, b + (c + d));
    Parts(raw, off + 12, b, c + d);
    Parts(raw, off + 16, c, d);
    Reads32(raw, off + 8, row.vSize);
    Reads32(raw, off + 12, row.vAddr);
    Reads32(raw, off + 16, row.rSize);
    Reads32(raw, off + 20, row.rPtr);
  }

  lemma HeadersRead(raw: seq<byte>, lfanew: u32, count: u16, optional: u16)
    requires HeadersAt(raw, lfanew, count, optional)
    ensures RowTable(raw) == Done((lfanew + 24 + optional, count))
  {
    hide At, ReadU32, ReadU16;
    Reads32(raw, 0x3C, lfanew);
    Reads16(raw, lfanew + 6, count);
    Reads16(raw, lfanew + 20, optional);
  }

  /** The parser finds the table and every row of it. */
  lemma TableReads(raw: seq<byte>, ptr: nat, rows: seq<Row>)
    requires TablePrinted(raw, ptr, rows)
    ensures RowTable(raw) == Done((ptr, |rows|))
    ensures forall k :: 0 <= k < |rows| ==> RowAt(raw, ptr + 40 * k) == Done(rows[k])
  {
    hide RowPrinted, RowAt, RowTable, HeadersAt;
    var lfanew: u32, optional: u16 :| HeadersAt(raw, lfanew, |rows|, optional) && ptr == lfanew + 24 + optional;
    HeadersRead(raw, lfanew, |rows|, optional);
    forall k | 0 <= k < |rows|
      ensures RowAt(raw, ptr + 40 * k) == Done(rows[k])
    {
      RowReads(raw, ptr + 40 * k, rows[k]);
    }
  }

  /** Data directory `index` stands 112 bytes into the optional header, eight bytes each. */
  lemma DirectoryReads(pe: Pe, lfanew: u32, count: u16, optional: u16, index: nat, rva: u32, size: u32)
    requires HeadersAt(pe.raw, lfanew, count, optional)
    requires At(pe.raw, lfanew + 24 + 0x70 + index * 8, ToLe(rva, 4) + ToLe(size, 4))
    ensures DataDirectory(pe, index) == Done((rva, size))
  {
    hide At, ReadU32, ToLe;
    var off := lfanew + 24 + 0x70 + index * 8;
    Reads32(pe.raw, 0x3C, lfanew);
    Parts(pe.raw, off, ToLe(rva, 4), ToLe(size, 4));
    Reads32(pe.raw, off, rva);
    Reads32(pe.raw, off + 4, size);
    InFile(pe.raw, off + 4, size);
  }

  lemma InFile(raw: seq<byte>, off: nat, x: u32)
    requires At(raw, off, ToLe(x, 4))
    ensures off + 4 <= |raw|
  {}

  // ----- Where an RVA goes

  /** A row claims its virtual size, or its raw size when that is 0. */
  predicate ClaimsRva(row: Row, rva: nat) {
    row.vAddr <= rva < row.vAddr + (if row.vSize > 0 then row.vSize else row.rSize)
  }

  /** Neither a row's end nor the file range it stands for passes 4 GB. */
  predicate Small(row: Row) {
    var extent := if row.vSize > 0 then row.vSize else row.rSize;
    row.vAddr + extent < 0x1_0000_0000 && row.rPtr + extent <= 0x1_0000_0000
  }

  lemma {:induction false} SearchByRows(raw: seq<byte>, ptr: nat, rows: seq<Row>, rva: u32, k: nat)
    requires k <= |rows| && forall i :: 0 <= i < |rows| ==> RowAt(raw, ptr + 40 * i) == Done(rows[i]) && Small(rows[i])
    requires forall i :: 0 <= i < k ==> !ClaimsRva(rows[i], rva)
    ensures k < |rows| && ClaimsRva(rows[k], rva) ==>
              SearchRows(raw, ptr, |rows|, rva) == Done(Some(rows[k].rPtr + (rva - rows[k].vAddr)))
    ensures k == |rows| ==> SearchRows(raw, ptr, |rows|, rva) == Done(if rva < 0x1000 then Some(rva) else None)
    decreases rows
  {
    hide RowAt;
    if rows != [] {
      var rest := rows[1..];
      assert RowAt(raw, ptr + 40 * 0) == Done(rows[0]);
      forall i | 0 <= i < |rest|
        ensures RowAt(raw, ptr + 40 + 40 * i) == Done(rest[i])
      {
        assert RowAt(raw, ptr + 40 * (i + 1)) == Done(rows[i + 1]) && ptr + 40 + 40 * i == ptr + 40 * (i + 1);
      }
      if k > 0 { SearchByRows(raw, ptr + 40, rest, rva, k - 1); }
    }
  }

  /** An RVA goes where its first claiming row puts it; one that no row claims to the headers if low, else nowhere. */
  lemma OffsetByRows(raw: seq<byte>, ptr: nat, rows: seq<Row>, rva: u32)
    requires TablePrinted(raw, ptr, rows) && forall r :: r in rows ==> Small(r)
    ensures forall k | 0 <= k < |rows| && ClaimsRva(rows[k], rva) &&
                       forall i :: 0 <= i < k ==> !ClaimsRva(rows[i], rva) ::
              FileOffset(raw, rva) == Done(Some(rows[k].rPtr + (rva - rows[k].vAddr)))
    ensures (forall k :: 0 <= k < |rows| ==> !ClaimsRva(rows[k], rva)) ==>
              FileOffset(raw, rva) == Done(if rva < 0x1000 then Some(rva) else None)
  {
    hide RowAt, RowTable, SearchRows, TablePrinted, Small, ClaimsRva;
    TableReads(raw, ptr, rows);
    forall k | 0 <= k < |rows| && ClaimsRva(rows[k], rva) && forall i :: 0 <= i < k ==> !ClaimsRva(rows[i], rva)
      ensures FileOffset(raw, rva) == Done(Some(rows[k].rPtr + (rva - rows[k].vAddr)))
    {
      SearchByRows(raw, ptr, rows, rva, k);
    }
    if forall k :: 0 <= k < |rows| ==> !ClaimsRva(rows[k], rva) { SearchByRows(raw, ptr, rows, rva, |rows|); }
  }
}

/** An export table that names one slot twice: the earlier name is lost. */
module SharedSlot {
  import opened Words
  import opened Text
  import opened PeFile
  import opened RvaMap
  import opened Exports

  /**
   A file of 512 bytes without section rows, so that every RVA below 4096 is its own offset: the export
   directory at 256, one function, two name rows "a" and "b", and index 0 for both of them.
   */
  function FileByteAt(i: nat): byte {
    if i == 137 then 1                           // data directory 0: RVA 256
    else if i == 276 then 1                      // one function
    else if i == 280 then 2                      // two names
    else if i == 284 then 0x2C                   // address table at 300
    else if i == 285 then 1
    else if i == 288 then 0x30                   // name table at 304
    else if i == 289 then 1
    else if i == 292 then 0x38                   // ordinal table at 312
    else if i == 293 then 1
    else if i == 300 then 1                      // the function's RVA
    else if i == 304 then 0x40                   // names at 320 and 322
    else if i == 305 then 1
    else if i == 308 then 0x42
    else if i == 309 then 1
    else if i == 320 then 0x61
    else if i == 322 then 0x62
    else 0
  }

  function File(): (raw: seq<byte>)
    ensures |raw| == 512 && forall i :: 0 <= i < 512 ==> raw[i] == FileByteAt(i)
  {
    seq(512, i requires 0 <= i < 512 => FileByteAt(i))
  }

  function Sharing(): Pe { Pe(0, 0, [Section("s", 0, 0x1000, [])], [], File()) }

  const TABLES := Tables(256, 0, 0, 1, 2, 300, 304, 312)

  lemma Word32(off: nat)
    requires off + 4 <= 512
    ensures ReadU32(File(), off)
         == Done(FileByteAt(off) as int + 0x100 * (FileByteAt(off + 1) as int)
                 + 0x1_0000 * (FileByteAt(off + 2) as int) + 0x100_0000 * (FileByteAt(off + 3) as int))
  {
    hide FromLe, File, FileByteAt;
    assert Pow256(4) == 0x1_0000_0000;
    FromLeOf4(File()[off..off + 4]);
  }

  lemma Word16(off: nat)
    requires off + 2 <= 512 && FileByteAt(off) == 0 && FileByteAt(off + 1) == 0
    ensures ReadU16(File(), off) == Done(0)
  {
    hide FileByteAt, File;
    FromLeOfZeros(File()[off..off + 2]);
  }

  /** Every low RVA maps to itself. */
  lemma Identity(rva: u32)
    requires rva < 0x1000
    ensures RequireOffset(Sharing(), rva) == Done(rva)
  {
    hide File, ReadU32, ReadU16;
    Word32(0x3C);
    Word16(6);
    Word16(20);
    assert RowTable(File()) == Done((24, 0));
    assert Holds(Sharing().sections[0], 0, rva) == Done(true);
  }

  lemma DirectoryOfSharing()
    ensures Directory(Sharing()) == Done(Some(TABLES))
  {
    hide File, ReadU32, RequireOffset;
    Word32(0x3C);
    Word32(136);
    Word32(140);
    Identity(256);
    Word32(272);
    Word32(276);
    Word32(280);
    Word32(284);
    Word32(288);
    Word32(292);
    Identity(300);
    Identity(304);
    Identity(312);
  }

  lemma NamesOfSharing()
    ensures NameRow(Sharing(), TABLES, 0) == Done(("a", 0)) && NameRow(Sharing(), TABLES, 1) == Done(("b", 0))
  {
    hide File, ReadU32, ReadU16, RequireOffset, CString;
    Word32(304);
    Word32(308);
    Identity(320);
    Identity(322);
    Word16(312);
    Word16(314);
    assert File()[320..321] == [0x61] && File()[322..323] == [0x62];
    StoredString(File(), 320, [0x61]);
    StoredString(File(), 322, [0x62]);
    assert AsText([0x61]) == "a" && AsText([0x62]) == "b";
  }

  lemma ExportsOfSharing()
    ensures GetExports(Sharing()) == Done([ExportEntry("b", 1, 0, None)])
  {
    hide Directory, NameRow, File, ReadU32;
    var pe := Sharing();
    DirectoryOfSharing();
    NamesOfSharing();
    assert NameMap(pe, TABLES, 1) == Done(map[0 as u16 := "a"]);
    assert map[0 as u16 := "a"][0 := "b"] == map[0 as u16 := "b"];
    assert NameMap(pe, TABLES, 2) == Done(map[0 as u16 := "b"]);
    Word32(300);
    assert ExportAt(pe, TABLES, map[0 as u16 := "b"], 0) == Done(Some(ExportEntry("b", 1, 0, None)));
    assert ExportsTo(pe, TABLES, map[0 as u16 := "b"], 0) == Done([]);
    assert ExportsTo(pe, TABLES, map[0 as u16 := "b"], 1) == Done([] + [ExportEntry("b", 1, 0, None)]);
    assert [] + [ExportEntry("b", 1, 0, None)] == [ExportEntry("b", 1, 0, None)];
    assert GetExports(pe) == ExportsTo(pe, TABLES, map[0 as u16 := "b"], 1);
  }

  /** A parsable table whose row 0 is in use and is not found by its name. */
  lemma EarlierNameIsLost()
    ensures var pe := Sharing();
            && Directory(pe) == Done(Some(TABLES)) && GetExports(pe).Done? && PlainNames(pe, TABLES)
            && RowName(pe, TABLES, 0) == "a" && UsedRow(pe, TABLES, 0) && !FoundDirectly(pe, TABLES, 0)
  {
    hide Directory, GetExports, NameRow, File, ReadU32;
    DirectoryOfSharing();
    NamesOfSharing();
    ExportsOfSharing();
    Word32(300);
    assert FindEntry([ExportEntry("b", 1, 0, None)], ByName("a")).None?;
  }
}

/** A printer of import directories, byte by byte, and the parser that reads them back. */
module ImportPrinter {
  import opened Words
  import opened Text
  import opened PeFile
  import opened RvaMap
  import opened Placement
  import opened Imports
  import opened Loader
  import opened FileView

  /**
   What to print for one DLL: its name, its symbols, and where its address table is to be; with none
   given, the printed thunks are the address table and there is no lookup table.
   */
  datatype Request = Request(dll: seq<byte>, symbols: seq<Symbol>, iat: Option<u32>) {
    ghost predicate Printable() {
      && Clean(dll) && (iat.Some? ==> iat.value + 8 * |symbols| < U32_LIMIT)
      && forall s :: s in symbols ==> s.TextSymbol? ==> Clean(s.text)
    }
  }

  // ----- Printing

  /** Two hint bytes, the name and its NUL; ordinals need no string. */
  function PrintString(s: Symbol): seq<byte> {
    match s
    case TextSymbol(text) => [0, 0] + text + [0]
    case OrdinalSymbol(_) => []
  }

  function PrintStrings(symbols: seq<Symbol>): seq<byte> {
    if symbols == [] then [] else PrintString(symbols[0]) + PrintStrings(symbols[1..])
  }

  /** The thunk of a symbol whose string, if any, stands at RVA `at`. */
  function ThunkOf(s: Symbol, at: nat): nat {
    match s
    case TextSymbol(_) => at
    case OrdinalSymbol(n) => 0x8000_0000_0000_0000 + n
  }

  /** The thunks of symbols whose strings start at RVA `at`, and the null thunk. */
  function PrintThunks(symbols: seq<Symbol>, at: nat): (r: seq<byte>)
    ensures |r| == 8 * (|symbols| + 1)
    decreases symbols
  {
    if symbols == [] then ToLe(0, 8)
    else ToLe(ThunkOf(symbols[0], at), 8) + PrintThunks(symbols[1..], at + |PrintString(symbols[0])|)
  }

  /** From RVA `at`: the DLL's name, its thunks, its strings. */
  function PrintBody(r: Request, at: nat): seq<byte> {
    r.dll + [0] + PrintThunks(r.symbols, StringsOf(r, at)) + PrintStrings(r.symbols)
  }

  function ThunksOf(r: Request, at: nat): nat { at + |r.dll| + 1 }
  function StringsOf(r: Request, at: nat): nat { ThunksOf(r, at) + 8 * (|r.symbols| + 1) }

  function PrintFields(lookup: nat, name: nat, iat: nat): (d: seq<byte>)
    ensures |d| == 20
  {
    ToLe(lookup, 4) + ToLe(0, 4) + ToLe(0, 4) + ToLe(name, 4) + ToLe(iat, 4)
  }

  function PrintDescriptor(r: Request, at: nat): (d: seq<byte>)
    ensures |d| == 20
  {
    if r.iat.Some? then PrintFields(ThunksOf(r, at), at, r.iat.value) else PrintFields(0, at, ThunksOf(r, at))
  }

  /** The first address slot of a request printed from RVA `at`. */
  function SlotsFrom(r: Request, at: nat): nat {
    if r.iat.Some? then r.iat.value else ThunksOf(r, at)
  }

  /** The descriptors of requests whose bodies start at RVA `at`, and the null descriptor. */
  function PrintDescriptors(rs: seq<Request>, at: nat): (d: seq<byte>)
    ensures |d| == 20 * (|rs| + 1)
    decreases rs
  {
    if rs == [] then PrintFields(0, 0, 0)
    else PrintDescriptor(rs[0], at) + PrintDescriptors(rs[1..], at + |PrintBody(rs[0], at)|)
  }

  function PrintBodies(rs: seq<Request>, at: nat): seq<byte>
    decreases rs
  {
    if rs == [] then []
    else
      var body := PrintBody(rs[0], at);
      body + PrintBodies(rs[1..], at + |body|)
  }

  /** The whole directory, to stand at `rva`. */
  function PrintImports(rs: seq<Request>, rva: nat): seq<byte> {
    var at := rva + 20 * (|rs| + 1);
    PrintDescriptors(rs, at) + PrintBodies(rs, at)
  }

  /** A printed number reads back from where it stands. */
  lemma PlacedThunk(pe: Pe, shift: int, rva: nat, x: u64)
    requires Placed(pe, shift, rva, ToLe(x, 8))
    ensures ThunkAt(pe, rva) == Done(x)
  {
    hide RequireOffset, FromLe, ToLe;
    assert Pow256(8) == TWO64;
    ReadPrinted(pe.raw, rva + shift, x, 8);
  }

  lemma PlacedString(pe: Pe, shift: int, rva: nat, hint: seq<byte>, text: seq<byte>)
    requires Placed(pe, shift, rva, hint + (text + [0])) && Clean(text)
    ensures StringAt(pe, rva, |hint|, text)
  {
    hide RequireOffset;
    var o := rva + shift + |hint|;
    PlacedParts(pe, shift, rva, hint, text + [0]);
    PlacedParts(pe, shift, rva + |hint|, text, [0]);
    PlacedByte(pe, shift, rva + |hint| + |text|, [0], 0);
  }

  lemma OrdinalThunk(n: u16)
    ensures (0x8000_0000_0000_0000 + n) % 0x1_0000 == n
  {}

  lemma PlacedSymbol(pe: Pe, shift: int, rva: nat, s: Symbol, at: nat)
    requires Placed(pe, shift, rva, ToLe(ThunkOf(s, at), 8)) && Placed(pe, shift, at, PrintString(s))
    requires 0 < at <= 0x8000_0000 && (s.TextSymbol? ==> Clean(s.text))
    ensures SymbolAt(pe, rva, s)
  {
    hide ThunkAt, ToLe, StringAt, Clean;
    InBounds(pe, shift, at, PrintString(s));
    InBounds(pe, shift, rva, ToLe(ThunkOf(s, at), 8));
    hide Placed;
    PlacedThunk(pe, shift, rva, ThunkOf(s, at));
    match s
    case OrdinalSymbol(n) => OrdinalThunk(n);
    case TextSymbol(text) =>
      assert PrintString(s) == [0, 0] + (text + [0]);
      PlacedString(pe, shift, at, [0, 0], text);
      assert at % 0x8000_0000 == at;
  }

  lemma {:induction false} PlacedTable(pe: Pe, shift: int, rva: nat, symbols: seq<Symbol>, at: nat)
    requires Placed(pe, shift, rva, PrintThunks(symbols, at)) && Placed(pe, shift, at, PrintStrings(symbols))
    requires 0 < at && forall s :: s in symbols ==> s.TextSymbol? ==> Clean(s.text)
    ensures TableAt(pe, rva, symbols)
    decreases symbols
  {
    hide Placed, SymbolAt, ThunkAt, ToLe, PrintString, Clean;
    InBounds(pe, shift, rva, PrintThunks(symbols, at));
    if symbols == [] {
      PlacedThunk(pe, shift, rva, 0);
    } else {
      var s, rest, next := symbols[0], symbols[1..], at + |PrintString(symbols[0])|;
      InBounds(pe, shift, at, PrintStrings(symbols));
      assert s in symbols && forall x :: x in rest ==> x in symbols;
      PlacedParts(pe, shift, rva, ToLe(ThunkOf(s, at), 8), PrintThunks(rest, next));
      PlacedParts(pe, shift, at, PrintString(s), PrintStrings(rest));
      PlacedSymbol(pe, shift, rva, s, at);
      PlacedTable(pe, shift, rva + 8, rest, next);
      TableCons(pe, rva, symbols);
    }
  }

  lemma TableCons(pe: Pe, rva: u32, symbols: seq<Symbol>)
    requires symbols != [] && rva + 8 < U32_LIMIT && SymbolAt(pe, rva, symbols[0]) && TableAt(pe, rva + 8, symbols[1..])
    ensures TableAt(pe, rva, symbols)
  {
    hide SymbolAt, ThunkAt;
    var rest := symbols[1..];
    assert rva + 8 + 8 * |rest| == rva + 8 * |symbols|;
    forall k | 0 <= k < |symbols|
      ensures SymbolAt(pe, rva + 8 * k, symbols[k])
    {
      if k > 0 { assert SymbolAt(pe, rva + 8 + 8 * (k - 1), rest[k - 1]) && rva + 8 + 8 * (k - 1) == rva + 8 * k; }
    }
  }

  // ----- Descriptors

  /** What a printed request amounts to in the file. */
  function ImportOf(r: Request, at: nat): Import
    requires ThunksOf(r, at) < U32_LIMIT
  {
    Import(r.dll, r.symbols, Descriptor(if r.iat.Some? then ThunksOf(r, at) else 0, at, SlotsFrom(r, at)))
  }

  lemma PlacedFields(pe: Pe, shift: int, rva: nat, lookup: u32, name: u32, iat: u32)
    requires Placed(pe, shift, rva, PrintFields(lookup, name, iat))
    ensures rva + shift >= 0 && DescriptorAt(pe.raw, rva + shift) == Done(Descriptor(lookup, name, iat))
  {
    hide Placed, FromLe, ToLe;
    var last := ToLe(name, 4) + ToLe(iat, 4);
    var rest := ToLe(0, 4) + (ToLe(0, 4) + last);
    assert PrintFields(lookup, name, iat) == ToLe(lookup, 4) + rest;
    PlacedParts(pe, shift, rva, ToLe(lookup, 4), rest);
    PlacedParts(pe, shift, rva + 4, ToLe(0, 4), ToLe(0, 4) + last);
    PlacedParts(pe, shift, rva + 8, ToLe(0, 4), last);
    PlacedParts(pe, shift, rva + 12, ToLe(name, 4), ToLe(iat, 4));
    Placed32(pe, shift, rva, lookup);
    Placed32(pe, shift, rva + 4, 0);
    Placed32(pe, shift, rva + 8, 0);
    Placed32(pe, shift, rva + 12, name);
    Placed32(pe, shift, rva + 16, iat);
  }

  lemma PlacedBody(pe: Pe, shift: int, r: Request, at: nat)
    requires Placed(pe, shift, at, PrintBody(r, at)) && r.Printable() && 0 < at
    ensures at < U32_LIMIT && ThunksOf(r, at) < U32_LIMIT
    ensures StringAt(pe, at, 0, r.dll) && TableAt(pe, ThunksOf(r, at), r.symbols)
    ensures ThunksOf(r, at) + 8 * |r.symbols| < U32_LIMIT
  {
    hide Placed, TableAt, StringAt, Clean, PrintThunks, PrintStrings;
    var thunks, strings := PrintThunks(r.symbols, StringsOf(r, at)), PrintStrings(r.symbols);
    InBounds(pe, shift, at, PrintBody(r, at));
    assert PrintBody(r, at) == (r.dll + [0]) + (thunks + strings);
    PlacedParts(pe, shift, at, r.dll + [0], thunks + strings);
    PlacedParts(pe, shift, ThunksOf(r, at), thunks, strings);
    assert [] + (r.dll + [0]) == r.dll + [0];
    PlacedString(pe, shift, at, [], r.dll);
    PlacedTable(pe, shift, ThunksOf(r, at), r.symbols, StringsOf(r, at));
  }

  lemma PlacedImport(pe: Pe, shift: int, rva: nat, r: Request, at: nat)
    requires Placed(pe, shift, rva, PrintDescriptor(r, at)) && Placed(pe, shift, at, PrintBody(r, at))
    requires r.Printable() && 0 < at
    ensures rva + shift >= 0 && ThunksOf(r, at) < U32_LIMIT && ImportAt(pe, rva + shift, ImportOf(r, at))
  {
    hide Placed, DescriptorAt, TableAt, StringAt, Clean, PrintBody, PrintFields;
    PlacedBody(pe, shift, r, at);
    InBounds(pe, shift, rva, PrintDescriptor(r, at));
    var i := ImportOf(r, at).at;
    PlacedFields(pe, shift, rva, i.lookup, i.nameRva, i.firstThunk);
  }

  // ----- The whole directory

  /** What the printed requests amount to, their bodies starting at RVA `at`. */
  function ImportsOf(rs: seq<Request>, at: nat): (r: seq<Import>)
    requires at + |PrintBodies(rs, at)| < U32_LIMIT
    ensures |r| == |rs|
    decreases rs
  {
    if rs == [] then []
    else
      BodyHasThunks(rs[0], at);
      [ImportOf(rs[0], at)] + ImportsOf(rs[1..], at + |PrintBody(rs[0], at)|)
  }

  lemma BodyHasThunks(r: Request, at: nat)
    ensures ThunksOf(r, at) < at + |PrintBody(r, at)|
  {}

  lemma {:induction false} PlacedImports(pe: Pe, shift: int, rva: nat, rs: seq<Request>, at: nat)
    requires Placed(pe, shift, rva, PrintDescriptors(rs, at)) && Placed(pe, shift, at, PrintBodies(rs, at))
    requires 0 < at && forall r :: r in rs ==> r.Printable()
    ensures rva + shift >= 0 && at + |PrintBodies(rs, at)| < U32_LIMIT
    ensures LaidOut(pe, rva + shift, ImportsOf(rs, at))
    decreases rs
  {
    hide ImportAt, DescriptorAt, PrintDescriptor, PrintBody, Request.Printable;
    InBounds(pe, shift, rva, PrintDescriptors(rs, at));
    InBounds(pe, shift, at, PrintBodies(rs, at));
    hide Placed;
    if rs == [] {
      PlacedFields(pe, shift, rva, 0, 0, 0);
    } else {
      var r, rest, next := rs[0], rs[1..], at + |PrintBody(rs[0], at)|;
      assert r in rs && forall x :: x in rest ==> x in rs;
      PlacedParts(pe, shift, rva, PrintDescriptor(r, at), PrintDescriptors(rest, next));
      PlacedParts(pe, shift, at, PrintBody(r, at), PrintBodies(rest, next));
      PlacedImport(pe, shift, rva, r, at);
      PlacedImports(pe, shift, rva + 20, rest, next);
      LaidOutCons(pe, rva + shift, ImportOf(r, at), ImportsOf(rest, next));
    }
  }

  lemma LaidOutCons(pe: Pe, off: nat, i: Import, rest: seq<Import>)
    requires ImportAt(pe, off, i) && LaidOut(pe, off + 20, rest)
    ensures LaidOut(pe, off, [i] + rest)
  {
    hide ImportAt, DescriptorAt;
    var all := [i] + rest;
    assert off + 20 + 20 * |rest| == off + 20 * |all|;
    forall k | 0 <= k < |all|
      ensures ImportAt(pe, off + 20 * k, all[k])
    {
      if k > 0 { assert ImportAt(pe, off + 20 + 20 * (k - 1), rest[k - 1]) && off + 20 + 20 * (k - 1) == off + 20 * k; }
    }
  }

  /** What the parser is to return for a request printed from RVA `at`. */
  ghost predicate Returned(e: ImportEntry, r: Request, at: nat) {
    && e.dll == AsText(r.dll) && |e.functions| == |r.symbols|
    && forall k :: 0 <= k < |r.symbols| ==>
         e.functions[k].name == r.symbols[k].Name() && e.functions[k].iatRva == SlotsFrom(r, at) + 8 * k
  }

  /** Where the body of request `k` is printed. */
  function BodyAt(rs: seq<Request>, at: nat, k: nat): nat
    requires k < |rs|
    decreases k
  {
    if k == 0 then at else BodyAt(rs[1..], at + |PrintBody(rs[0], at)|, k - 1)
  }

  lemma {:induction false} ExpectedOfPrinted(rs: seq<Request>, at: nat, k: nat)
    requires at + |PrintBodies(rs, at)| < 0x8000_0001 && k < |rs| && rs[k].Printable()
    ensures Returned(Expected(ImportsOf(rs, at)[k]), rs[k], BodyAt(rs, at, k))
    decreases rs
  {
    hide PrintBody, Clean, Symbol.Name;
    if k > 0 {
      ExpectedOfPrinted(rs[1..], at + |PrintBody(rs[0], at)|, k - 1);
    } else {
      ThunksFit(rs[0], at);
    }
  }

  lemma ThunksFit(r: Request, at: nat)
    ensures ThunksOf(r, at) + 8 * |r.symbols| < at + |PrintBody(r, at)|
  {}

  /**
   The parser inverts the printer: wherever a printed directory stands in the file, `get_imports` returns
   each DLL with its functions, by name or ordinal, each with its address slot, with or without lookup tables.
   */
  lemma ParsePrinted(pe: Pe, shift: int, rva: u32, size: u32, rs: seq<Request>)
    requires DataDirectory(pe, 1) == Done((rva, size)) && rva != 0
    requires Placed(pe, shift, rva, PrintImports(rs, rva)) && forall r :: r in rs ==> r.Printable()
    ensures GetImports(pe).Done? && |GetImports(pe).value| == |rs|
    ensures forall k :: 0 <= k < |rs| ==>
              Returned(GetImports(pe).value[k], rs[k], BodyAt(rs, rva + 20 * (|rs| + 1), k))
  {
    hide PrintDescriptors, PrintBodies, ImportsOf, LaidOut, DataDirectory, RequireOffset, Expected, Returned, BodyAt;
    hide Request.Printable, GetImports;
    var at := rva + 20 * (|rs| + 1);
    PlacedParts(pe, shift, rva, PrintDescriptors(rs, at), PrintBodies(rs, at));
    assert RequireOffset(pe, rva) == Done(rva + shift);
    InBounds(pe, shift, at, PrintBodies(rs, at));
    hide Placed;
    PlacedImports(pe, shift, rva, rs, at);
    ParseImports(pe, rva, size, rva + shift, ImportsOf(rs, at));
    forall k | 0 <= k < |rs|
      ensures Returned(GetImports(pe).value[k], rs[k], BodyAt(rs, at, k))
    {
      assert rs[k] in rs;
      ExpectedOfPrinted(rs, at, k);
    }
  }

  // ----- In a section of a described image

  /** A directory printed anywhere into a section comes back when the data directory points at it. */
  lemma ParsePrintedSection(pe: Pe, ptr: nat, rows: seq<Row>, k: nat, before: seq<byte>, rs: seq<Request>,
                            after: seq<byte>, rva: u32, size: u32)
    requires WellFormed(pe) && Described(pe, ptr, rows) && k < |pe.sections|
    requires SectionRva(pe, k, |pe.sections[k].data|) <= 0x8000_0000
    requires pe.sections[k].data == before + PrintImports(rs, rva) + after && forall r :: r in rs ==> r.Printable()
    requires rva == SectionRva(pe, k, |before|) && rva != 0 && DataDirectory(pe, 1) == Done((rva, size))
    ensures GetImports(pe).Done? && |GetImports(pe).value| == |rs|
    ensures forall i :: 0 <= i < |rs| ==>
              Returned(GetImports(pe).value[i], rs[i], BodyAt(rs, rva + 20 * (|rs| + 1), i))
  {
    hide PrintImports, Described, WellFormed, DataDirectory, GetImports, Returned, BodyAt, Request.Printable;
    var shift := PrintedIsPlaced(pe, ptr, rows, k, before, PrintImports(rs, rva), after);
    hide SectionRva, Placed;
    ParsePrinted(pe, shift, rva, size, rs);
  }
}

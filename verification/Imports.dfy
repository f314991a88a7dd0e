/** The import directory: null-terminated descriptors, each with null-terminated parallel thunk tables. */
module Imports {
  import opened Words
  import opened Text
  import opened PeFile
  import opened RvaMap

  datatype ImportFunction = ImportFunction(name: string, iatRva: u32)

  datatype ImportEntry = ImportEntry(dll: string, functions: seq<ImportFunction>)

  const ORDINAL_FLAG := 0x8000_0000_0000_0000

  /** What a thunk asks for: "#n" for an ordinal, else the name behind the two hint bytes. */
  function ThunkName(pe: Pe, thunk: u64): Outcome<string> {
    if thunk >= ORDINAL_FLAG then Done("#" + Decimal(thunk % 0x1_0000))
    else
      var off :- RequireOffset(pe, thunk % 0x8000_0000);
      CString(pe.raw, off + 2)
  }

  /** The thunk stored at `rva`. */
  function ThunkAt(pe: Pe, rva: u32): Outcome<u64> {
    var off :- RequireOffset(pe, rva);
    ReadU64(pe.raw, off)
  }

  /** The functions from thunk `rva` on, up to the null thunk. */
  function Thunks(pe: Pe, rva: u32, iat: u32): Outcome<seq<ImportFunction>>
    decreases U32_LIMIT - rva
  {
    var thunk :- ThunkAt(pe, rva);
    if thunk == 0 then Done([])
    else
      var name :- ThunkName(pe, thunk);
      if rva + 8 >= U32_LIMIT || iat + 8 >= U32_LIMIT then Panic
      else
        var rest :- Thunks(pe, rva + 8, iat + 8);
        Done([ImportFunction(name, iat)] + rest)
  }

  datatype Descriptor = Descriptor(lookup: u32, nameRva: u32, firstThunk: u32) {
    predicate Null() { lookup == 0 && nameRva == 0 }

    /** Where the thunks are read: the lookup table, or the address table if there is none. */
    function ThunkRva(): u32 { if lookup != 0 then lookup else firstThunk }
  }

  function DescriptorAt(raw: seq<byte>, off: nat): Outcome<Descriptor> {
    var lookup :- ReadU32(raw, off);
    var time :- ReadU32(raw, off + 4);
    var chain :- ReadU32(raw, off + 8);
    var nameRva :- ReadU32(raw, off + 12);
    var firstThunk :- ReadU32(raw, off + 16);
    Done(Descriptor(lookup, nameRva, firstThunk))
  }

  function EntryOf(pe: Pe, d: Descriptor): Outcome<ImportEntry> {
    var off :- RequireOffset(pe, d.nameRva);
    var dll :- CString(pe.raw, off);
    var functions :- Thunks(pe, d.ThunkRva(), d.firstThunk);
    Done(ImportEntry(dll, functions))
  }

  /** The entries from the descriptor at `off` on, up to the null descriptor. */
  function Entries(pe: Pe, off: nat): Outcome<seq<ImportEntry>>
    decreases |pe.raw| - off
  {
    var d :- DescriptorAt(pe.raw, off);
    if d.Null() then Done([])
    else
      var e :- EntryOf(pe, d);
      var rest :- Entries(pe, off + 20);
      Done([e] + rest)
  }

  function GetImports(pe: Pe): Outcome<seq<ImportEntry>> {
    var dir :- DataDirectory(pe, 1);
    if dir.0 == 0 then Done([])
    else
      var off :- RequireOffset(pe, dir.0);
      Entries(pe, off)
  }

  // ----- The loops

  ghost function Prefixed<T>(xs: seq<T>, r: Outcome<seq<T>>): Outcome<seq<T>> {
    match r
    case Done(ys) => Done(xs + ys)
    case Fail => Fail
    case Panic => Panic
  }

  lemma PrefixedNothing<T>(r: Outcome<seq<T>>)
    ensures Prefixed([], r) == r
  {
    if r.Done? { assert [] + r.value == r.value; }
  }

  method ReadThunks(pe: Pe, first: u32, iatFirst: u32) returns (r: Outcome<seq<ImportFunction>>)
    ensures r == Thunks(pe, first, iatFirst)
  {
    hide ThunkAt;
    hide ThunkName;
    var rva: u32, iat: u32 := first, iatFirst;
    var functions: seq<ImportFunction> := [];
    PrefixedNothing(Thunks(pe, first, iatFirst));
    while true
      invariant Prefixed(functions, Thunks(pe, rva, iat)) == Thunks(pe, first, iatFirst)
      decreases U32_LIMIT - rva
    {
      var thunk := ThunkAt(pe, rva);
      if thunk.IsFailure() { return thunk.PropagateFailure(); }
      if thunk.value == 0 {
        assert functions + [] == functions;
        return Done(functions);
      }
      var name := ThunkName(pe, thunk.value);
      if name.IsFailure() { return name.PropagateFailure(); }
      if rva + 8 >= U32_LIMIT || iat + 8 >= U32_LIMIT { return Panic; }
      ghost var rest := Thunks(pe, rva + 8, iat + 8);
      assert rest.Done? ==>
          functions + ([ImportFunction(name.value, iat)] + rest.value)
          == functions + [ImportFunction(name.value, iat)] + rest.value;
      functions := functions + [ImportFunction(name.value, iat)];
      rva, iat := rva + 8, iat + 8;
    }
  }

  method ReadEntry(pe: Pe, d: Descriptor) returns (r: Outcome<ImportEntry>)
    ensures r == EntryOf(pe, d)
  {
    hide RequireOffset;
    hide Thunks;
    var off := RequireOffset(pe, d.nameRva);
    if off.IsFailure() { return off.PropagateFailure(); }
    var dll := ReadCString(pe.raw, off.value);
    if dll.IsFailure() { return dll.PropagateFailure(); }
    var functions := ReadThunks(pe, d.ThunkRva(), d.firstThunk);
    if functions.IsFailure() { return functions.PropagateFailure(); }
    return Done(ImportEntry(dll.value, functions.value));
  }

  method ReadEntries(pe: Pe, start: nat) returns (r: Outcome<seq<ImportEntry>>)
    ensures r == Entries(pe, start)
  {
    hide DescriptorAt;
    hide EntryOf;
    var off: nat, imports: seq<ImportEntry> := start, [];
    PrefixedNothing(Entries(pe, off));
    while true
      invariant Prefixed(imports, Entries(pe, off)) == Entries(pe, start)
      decreases |pe.raw| - off
    {
      DescriptorInFile(pe.raw, off);
      var d := DescriptorAt(pe.raw, off);
      if d.IsFailure() { return d.PropagateFailure(); }
      if d.value.Null() {
        assert imports + [] == imports;
        return Done(imports);
      }
      var e := ReadEntry(pe, d.value);
      if e.IsFailure() { return e.PropagateFailure(); }
      ghost var rest := Entries(pe, off + 20);
      assert rest.Done? ==> imports + ([e.value] + rest.value) == imports + [e.value] + rest.value;
      imports := imports + [e.value];
      off := off + 20;
    }
  }

  method ReadImports(pe: Pe) returns (r: Outcome<seq<ImportEntry>>)
    ensures r == GetImports(pe)
  {
    hide Entries;
    hide DataDirectory;
    hide RequireOffset;
    var dir := DataDirectory(pe, 1);
    if dir.IsFailure() { return dir.PropagateFailure(); }
    if dir.value.0 == 0 { return Done([]); }
    var start := RequireOffset(pe, dir.value.0);
    if start.IsFailure() { return start.PropagateFailure(); }
    r := ReadEntries(pe, start.value);
  }

  lemma DescriptorInFile(raw: seq<byte>, off: nat)
    ensures DescriptorAt(raw, off).Done? <==> off + 20 <= |raw|
  {}

  // ----- The shape of what is parsed

  /** Function `f` is named by the non-null thunk at `rva` and owns address slot `iat`. */
  ghost predicate FunctionAt(pe: Pe, rva: u32, iat: nat, f: ImportFunction) {
    && f.iatRva == iat
    && ThunkAt(pe, rva).Done? && ThunkAt(pe, rva).value != 0
    && ThunkName(pe, ThunkAt(pe, rva).value) == Done(f.name)
  }

  /** The k-th function of a parsed table owns slot iat + 8k and the k-th thunk's name; a null thunk follows. */
  lemma {:induction false} ThunksShape(pe: Pe, rva: u32, iat: u32)
    requires Thunks(pe, rva, iat).Done?
    ensures var fs := Thunks(pe, rva, iat).value;
            && rva + 8 * |fs| < U32_LIMIT && iat + 8 * |fs| < U32_LIMIT
            && ThunkAt(pe, rva + 8 * |fs|) == Done(0)
            && forall k :: 0 <= k < |fs| ==> FunctionAt(pe, rva + 8 * k, iat + 8 * k, fs[k])
    decreases U32_LIMIT - rva
  {
    hide ThunkAt;
    hide ThunkName;
    var fs := Thunks(pe, rva, iat).value;
    if fs != [] {
      assert FunctionAt(pe, rva, iat, fs[0]);
      hide FunctionAt;
      ThunksShape(pe, rva + 8, iat + 8);
      var rest := Thunks(pe, rva + 8, iat + 8).value;
      forall k | 0 <= k < |fs|
        ensures FunctionAt(pe, rva + 8 * k, iat + 8 * k, fs[k])
      {
        if k > 0 {
          assert fs[k] == rest[k - 1] && rva + 8 * k == rva + 8 + 8 * (k - 1) && iat + 8 * k == iat + 8 + 8 * (k - 1);
        }
      }
      assert rva + 8 * |fs| == rva + 8 + 8 * |rest|;
    }
  }

  // ----- Laid-out tables

  /** A symbol to import, and a DLL with its symbols and the tables that hold them. */
  datatype Symbol = TextSymbol(text: seq<byte>) | OrdinalSymbol(n: u16) {
    function Name(): string {
      match this
      case TextSymbol(t) => AsText(t)
      case OrdinalSymbol(n) => "#" + Decimal(n)
    }
  }

  datatype Import = Import(dll: seq<byte>, symbols: seq<Symbol>, at: Descriptor)

  /** `text`, free of NULs and followed by one, `skip` bytes behind what `rva` maps to. */
  ghost predicate StringAt(pe: Pe, rva: u32, skip: nat, text: seq<byte>) {
    && RequireOffset(pe, rva).Done?
    && var off := RequireOffset(pe, rva).value + skip;
       && off + |text| + 1 <= |pe.raw| && pe.raw[off..off + |text|] == text && pe.raw[off + |text|] == 0
       && forall i :: 0 <= i < |text| ==> text[i] != 0
  }

  /** The thunk at `rva` stands for the symbol. */
  ghost predicate SymbolAt(pe: Pe, rva: u32, s: Symbol) {
    && ThunkAt(pe, rva).Done?
    && var x := ThunkAt(pe, rva).value;
       match s
       case OrdinalSymbol(n) => x >= 0x8000_0000_0000_0000 && x % 0x1_0000 == n
       case TextSymbol(text) => 0 < x < 0x8000_0000_0000_0000 && StringAt(pe, x % 0x8000_0000, 2, text)
  }

  /** A null-terminated thunk table for `symbols` at `rva`, below the 32-bit limit. */
  ghost predicate TableAt(pe: Pe, rva: u32, symbols: seq<Symbol>) {
    && rva + 8 * |symbols| < U32_LIMIT
    && ThunkAt(pe, rva + 8 * |symbols|) == Done(0)
    && forall k :: 0 <= k < |symbols| ==> SymbolAt(pe, rva + 8 * k, symbols[k])
  }

  ghost predicate ImportAt(pe: Pe, off: nat, i: Import) {
    && DescriptorAt(pe.raw, off) == Done(i.at) && !i.at.Null()
    && StringAt(pe, i.at.nameRva, 0, i.dll)
    && TableAt(pe, i.at.ThunkRva(), i.symbols)
    && i.at.firstThunk + 8 * |i.symbols| < U32_LIMIT
  }

  /** The imports laid out from `off`, then a null descriptor. */
  ghost predicate LaidOut(pe: Pe, off: nat, imports: seq<Import>) {
    && (forall k :: 0 <= k < |imports| ==> ImportAt(pe, off + 20 * k, imports[k]))
    && DescriptorAt(pe.raw, off + 20 * |imports|).Done?
    && DescriptorAt(pe.raw, off + 20 * |imports|).value.Null()
  }

  function ExpectedFunctions(iat: nat, symbols: seq<Symbol>): seq<ImportFunction>
    requires iat + 8 * |symbols| < U32_LIMIT
  {
    seq(|symbols|, k requires 0 <= k < |symbols| => ImportFunction(symbols[k].Name(), iat + 8 * k))
  }

  function Expected(i: Import): ImportEntry {
    if i.at.firstThunk + 8 * |i.symbols| < U32_LIMIT
    then ImportEntry(AsText(i.dll), ExpectedFunctions(i.at.firstThunk, i.symbols))
    else ImportEntry("", [])
  }

  lemma NameOfSymbol(pe: Pe, rva: u32, s: Symbol)
    requires SymbolAt(pe, rva, s)
    ensures ThunkAt(pe, rva).Done? && ThunkAt(pe, rva).value != 0
    ensures ThunkName(pe, ThunkAt(pe, rva).value) == Done(s.Name())
  {
    hide ThunkAt;
    hide RequireOffset;
    var x := ThunkAt(pe, rva).value;
    match s
    case OrdinalSymbol(n) =>
    case TextSymbol(text) => StoredString(pe.raw, RequireOffset(pe, x % 0x8000_0000).value + 2, text);
  }

  lemma TableTail(pe: Pe, rva: u32, symbols: seq<Symbol>)
    requires TableAt(pe, rva, symbols) && symbols != []
    ensures rva + 8 < U32_LIMIT && SymbolAt(pe, rva, symbols[0]) && TableAt(pe, rva + 8, symbols[1..])
  {
    hide ThunkAt, SymbolAt;
    var rest := symbols[1..];
    assert SymbolAt(pe, rva + 8 * 0, symbols[0]);
    assert rva + 8 + 8 * |rest| == rva + 8 * |symbols|;
    forall k | 0 <= k < |rest|
      ensures SymbolAt(pe, rva + 8 + 8 * k, rest[k])
    {
      assert SymbolAt(pe, rva + 8 * (k + 1), symbols[k + 1]);
      assert rva + 8 + 8 * k == rva + 8 * (k + 1);
    }
  }

  lemma EndOfTable(pe: Pe, rva: u32)
    requires TableAt(pe, rva, [])
    ensures ThunkAt(pe, rva) == Done(0)
  {
    hide ThunkAt;
  }

  lemma ExpectedStep(iat: nat, symbols: seq<Symbol>)
    requires iat + 8 * |symbols| < U32_LIMIT
    ensures symbols == [] ==> ExpectedFunctions(iat, symbols) == []
    ensures symbols != [] ==>
              && iat + 8 + 8 * |symbols[1..]| < U32_LIMIT
              && ExpectedFunctions(iat, symbols)
              == [ImportFunction(symbols[0].Name(), iat)] + ExpectedFunctions(iat + 8, symbols[1..])
  {
    hide Symbol.Name;
  }

  lemma {:induction false} ParseTable(pe: Pe, rva: u32, iat: u32, symbols: seq<Symbol>)
    requires TableAt(pe, rva, symbols) && iat + 8 * |symbols| < U32_LIMIT
    ensures Thunks(pe, rva, iat) == Done(ExpectedFunctions(iat, symbols))
    decreases symbols
  {
    hide ThunkAt, ThunkName, SymbolAt, TableAt, ExpectedFunctions;
    ExpectedStep(iat, symbols);
    if symbols == [] {
      EndOfTable(pe, rva);
    } else {
      TableTail(pe, rva, symbols);
      NameOfSymbol(pe, rva, symbols[0]);
      ParseTable(pe, rva + 8, iat + 8, symbols[1..]);
    }
  }

  lemma LaidOutTail(pe: Pe, off: nat, imports: seq<Import>)
    requires LaidOut(pe, off, imports)
    ensures imports == [] ==> DescriptorAt(pe.raw, off).Done? && DescriptorAt(pe.raw, off).value.Null()
    ensures imports != [] ==> ImportAt(pe, off, imports[0]) && LaidOut(pe, off + 20, imports[1..])
  {
    hide DescriptorAt, ImportAt;
    if imports != [] {
      var rest := imports[1..];
      assert ImportAt(pe, off + 20 * 0, imports[0]);
      forall k | 0 <= k < |rest|
        ensures ImportAt(pe, off + 20 + 20 * k, rest[k])
      {
        assert ImportAt(pe, off + 20 * (k + 1), imports[k + 1]);
        assert off + 20 + 20 * k == off + 20 * (k + 1);
      }
      assert off + 20 + 20 * |rest| == off + 20 * |imports|;
    }
  }

  function ExpectedEntries(imports: seq<Import>): (r: seq<ImportEntry>)
    ensures |r| == |imports|
  {
    seq(|imports|, k requires 0 <= k < |imports| => Expected(imports[k]))
  }

  lemma ExpectedEntriesStep(imports: seq<Import>)
    requires imports != []
    ensures ExpectedEntries(imports) == [Expected(imports[0])] + ExpectedEntries(imports[1..])
  {
    hide Expected;
  }

  /** Parsing inverts layout: any list of imports, by name or ordinal, comes back with its slots. */
  lemma {:induction false} ParseLaidOut(pe: Pe, off: nat, imports: seq<Import>)
    requires LaidOut(pe, off, imports)
    ensures Entries(pe, off) == Done(ExpectedEntries(imports))
    decreases imports
  {
    hide DescriptorAt, StringAt, TableAt, LaidOut, ExpectedEntries, EntryOf;
    LaidOutTail(pe, off, imports);
    DescriptorInFile(pe.raw, off);
    if imports != [] {
      EntryOfImport(pe, off, imports[0]);
      ParseLaidOut(pe, off + 20, imports[1..]);
      ExpectedEntriesStep(imports);
    }
  }

  /** The same from the data directory on: `get_imports` returns what is laid out where it points. */
  lemma ParseImports(pe: Pe, rva: u32, size: u32, off: nat, imports: seq<Import>)
    requires DataDirectory(pe, 1) == Done((rva, size)) && rva != 0 && RequireOffset(pe, rva) == Done(off)
    requires LaidOut(pe, off, imports)
    ensures GetImports(pe) == Done(ExpectedEntries(imports))
  {
    hide DataDirectory, RequireOffset, LaidOut, Entries;
    ParseLaidOut(pe, off, imports);
  }

  lemma EntryOfImport(pe: Pe, off: nat, i: Import)
    requires ImportAt(pe, off, i)
    ensures EntryOf(pe, i.at) == Done(Expected(i))
  {
    hide DescriptorAt;
    hide TableAt;
    hide RequireOffset;
    hide Thunks;
    StoredString(pe.raw, RequireOffset(pe, i.at.nameRva).value, i.dll);
    ParseTable(pe, i.at.ThunkRva(), i.at.firstThunk, i.symbols);
  }
}

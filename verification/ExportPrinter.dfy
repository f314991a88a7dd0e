/** A printer of export directories, byte by byte, and what the parser returns for it. */
module ExportPrinter {
  import opened Words
  import opened Text
  import opened PeFile
  import opened RvaMap
  import opened Placement
  import opened Loader
  import opened FileView
  import opened Exports

  /** A slot of the address table: a function's RVA, a forwarder's text, or nothing. */
  datatype Slot = Code(rva: u32) | ForwardTo(text: seq<byte>) | Unused

  /** A name row: the name, and the index of the slot it names. */
  datatype NameOf = NameOf(name: seq<byte>, index: u16)

  // ----- Printing

  function PrintText(s: Slot): seq<byte> {
    match s
    case ForwardTo(text) => text + [0]
    case _ => []
  }

  function PrintTexts(slots: seq<Slot>): seq<byte> {
    if slots == [] then [] else PrintText(slots[0]) + PrintTexts(slots[1..])
  }

  /** What the address table holds for a slot whose text, if any, stands at RVA `at`. */
  function AddressOf(s: Slot, at: nat): nat {
    match s
    case Code(rva) => rva
    case ForwardTo(_) => at
    case Unused => 0
  }

  function PrintAddresses(slots: seq<Slot>, at: nat): (r: seq<byte>)
    ensures |r| == 4 * |slots|
    decreases slots
  {
    if slots == [] then []
    else ToLe(AddressOf(slots[0], at), 4) + PrintAddresses(slots[1..], at + |PrintText(slots[0])|)
  }

  function PrintNames(names: seq<NameOf>): seq<byte> {
    if names == [] then [] else names[0].name + [0] + PrintNames(names[1..])
  }

  function PrintPointers(names: seq<NameOf>, at: nat): (r: seq<byte>)
    ensures |r| == 4 * |names|
    decreases names
  {
    if names == [] then [] else ToLe(at, 4) + PrintPointers(names[1..], at + |names[0].name| + 1)
  }

  function PrintIndices(names: seq<NameOf>): (r: seq<byte>)
    ensures |r| == 2 * |names|
  {
    if names == [] then [] else ToLe(names[0].index, 2) + PrintIndices(names[1..])
  }

  /** Where the parts of a directory at `rva` stand. */
  datatype Parts = Parts(addresses: nat, pointers: nat, indices: nat, texts: nat, names: nat, end: nat)

  function PartsAt(slots: seq<Slot>, names: seq<NameOf>, rva: nat): Parts {
    var pointers := rva + 40 + 4 * |slots|;
    var indices := pointers + 4 * |names|;
    var texts := indices + 2 * |names|;
    var strings := texts + |PrintTexts(slots)|;
    Parts(rva + 40, pointers, indices, texts, strings, strings + |PrintNames(names)|)
  }

  function PrintWords(ws: seq<nat>): (r: seq<byte>)
    ensures |r| == 4 * |ws|
  {
    if ws == [] then [] else ToLe(ws[0], 4) + PrintWords(ws[1..])
  }

  /** The 40 bytes at the head: base, counts and the three tables behind sixteen the parser does not read. */
  function PrintHead(base: u32, slots: seq<Slot>, names: seq<NameOf>, p: Parts): (r: seq<byte>)
    ensures |r| == 40
  {
    ToLe(0, 16) + PrintWords([base, |slots|, |names|, p.addresses, p.pointers, p.indices])
  }

  /** The whole directory, to stand at `rva`; a last byte, so that even an empty table stands in the file. */
  function PrintExports(base: u32, slots: seq<Slot>, names: seq<NameOf>, rva: nat): seq<byte> {
    var p := PartsAt(slots, names, rva);
    PrintHead(base, slots, names, p)
    + (PrintAddresses(slots, p.texts) + (PrintPointers(names, p.names) + (PrintIndices(names)
    + (PrintTexts(slots) + (PrintNames(names) + [0])))))
  }

  // ----- What it should mean

  /** The name of slot `i`: the last that is given for its index, or "#" and its ordinal. */
  ghost predicate Called(names: seq<NameOf>, i: nat, ordinal: u16, s: string) {
    if exists k :: LastFor(names, i % 0x1_0000, k)
    then exists k :: LastFor(names, i % 0x1_0000, k) && s == AsText(names[k].name)
    else s == "#" + Decimal(ordinal)
  }

  ghost predicate LastFor(names: seq<NameOf>, n: nat, k: int) {
    0 <= k < |names| && names[k].index == n && forall k' :: k < k' < |names| ==> names[k'].index != n
  }

  /** The entry a used slot is to get. */
  ghost predicate EntryFor(e: ExportEntry, slots: seq<Slot>, names: seq<NameOf>, base: u32, i: nat)
    requires i < |slots|
  {
    && e.ordinal == (i + base) % 0x1_0000 && Called(names, i, e.ordinal, e.name)
    && match slots[i]
       case Code(rva) => e.rva == rva && e.forwarder == None
       case ForwardTo(text) => e.forwarder == Some(AsText(text))
       case Unused => false
  }

  // ----- Bytes back

  lemma {:induction false} PlacedAddress(pe: Pe, shift: int, rva: nat, slots: seq<Slot>, at: nat, i: nat)
    requires Placed(pe, shift, rva, PrintAddresses(slots, at)) && i < |slots|
    ensures Placed(pe, shift, rva + 4 * i, ToLe(AddressAt(slots, at, i), 4))
    decreases slots
  {
    hide Placed, ToLe, PrintText;
    var next := at + |PrintText(slots[0])|;
    PlacedParts(pe, shift, rva, ToLe(AddressOf(slots[0], at), 4), PrintAddresses(slots[1..], next));
    if i > 0 { PlacedAddress(pe, shift, rva + 4, slots[1..], next, i - 1); }
  }

  /** What the address table holds for slot `i`, texts starting at `at`. */
  function AddressAt(slots: seq<Slot>, at: nat, i: nat): nat
    requires i < |slots|
    decreases i
  {
    if i == 0 then AddressOf(slots[0], at) else AddressAt(slots[1..], at + |PrintText(slots[0])|, i - 1)
  }

  lemma {:induction false} PlacedForward(pe: Pe, shift: int, at: nat, slots: seq<Slot>, i: nat)
    requires Placed(pe, shift, at, PrintTexts(slots)) && i < |slots|
    ensures match slots[i]
            case Code(rva) => AddressAt(slots, at, i) == rva
            case Unused => AddressAt(slots, at, i) == 0
            case ForwardTo(text) => at <= AddressAt(slots, at, i) < at + |PrintTexts(slots)|
                                    && Placed(pe, shift, AddressAt(slots, at, i), text + [0])
    decreases slots
  {
    hide Placed;
    PlacedParts(pe, shift, at, PrintText(slots[0]), PrintTexts(slots[1..]));
    if i > 0 { PlacedForward(pe, shift, at + |PrintText(slots[0])|, slots[1..], i - 1); }
  }

  lemma {:induction false} PlacedName(pe: Pe, shift: int, rva: nat, at: nat, names: seq<NameOf>, k: nat) returns (x: nat)
    requires Placed(pe, shift, rva, PrintPointers(names, at)) && Placed(pe, shift, at, PrintNames(names)) && k < |names|
    ensures Placed(pe, shift, rva + 4 * k, ToLe(x, 4)) && Placed(pe, shift, x, names[k].name + [0])
    decreases names
  {
    hide Placed, ToLe;
    var next := at + |names[0].name| + 1;
    PlacedParts(pe, shift, rva, ToLe(at, 4), PrintPointers(names[1..], next));
    PlacedParts(pe, shift, at, names[0].name + [0], PrintNames(names[1..]));
    if k == 0 {
      x := at;
    } else {
      x := PlacedName(pe, shift, rva + 4, next, names[1..], k - 1);
    }
  }

  lemma {:induction false} PlacedIndex(pe: Pe, shift: int, rva: nat, names: seq<NameOf>, k: nat)
    requires Placed(pe, shift, rva, PrintIndices(names)) && k < |names|
    ensures Placed(pe, shift, rva + 2 * k, ToLe(names[k].index, 2))
    decreases names
  {
    hide Placed, ToLe;
    PlacedParts(pe, shift, rva, ToLe(names[0].index, 2), PrintIndices(names[1..]));
    if k > 0 { PlacedIndex(pe, shift, rva + 2, names[1..], k - 1); }
  }

  // ----- The directory read back

  /** The head's fields and the places of the six parts. */
  lemma PlacedHead(pe: Pe, shift: int, rva: nat, base: u32, slots: seq<Slot>, names: seq<NameOf>, p: Parts)
    requires Placed(pe, shift, rva, PrintHead(base, slots, names, p)) && |slots| < U32_LIMIT && |names| < U32_LIMIT
    requires p.addresses < U32_LIMIT && p.pointers < U32_LIMIT && p.indices < U32_LIMIT
    ensures rva + shift >= 0
    ensures ReadU32(pe.raw, rva + shift + 16) == Done(base) && ReadU32(pe.raw, rva + shift + 20) == Done(|slots|)
    ensures ReadU32(pe.raw, rva + shift + 24) == Done(|names|) && ReadU32(pe.raw, rva + shift + 28) == Done(p.addresses)
    ensures ReadU32(pe.raw, rva + shift + 32) == Done(p.pointers) && ReadU32(pe.raw, rva + shift + 36) == Done(p.indices)
  {
    hide Placed, ToLe, ReadU32, PrintWords, PartsAt;
    InBounds(pe, shift, rva, PrintHead(base, slots, names, p));
    var ws := [base, |slots|, |names|, p.addresses, p.pointers, p.indices];
    PlacedParts(pe, shift, rva, ToLe(0, 16), PrintWords(ws));
    hide PrintHead;
    SixWords(pe, shift, rva + 16, base, |slots|, |names|, p.addresses, p.pointers, p.indices);
  }

  lemma SixWords(pe: Pe, shift: int, at: nat, a: u32, b: u32, c: u32, d: u32, e: u32, f: u32)
    requires Placed(pe, shift, at, PrintWords([a, b, c, d, e, f])) && at + shift >= 0
    ensures ReadU32(pe.raw, at + shift) == Done(a) && ReadU32(pe.raw, at + shift + 4) == Done(b)
    ensures ReadU32(pe.raw, at + shift + 8) == Done(c) && ReadU32(pe.raw, at + shift + 12) == Done(d)
    ensures ReadU32(pe.raw, at + shift + 16) == Done(e) && ReadU32(pe.raw, at + shift + 20) == Done(f)
  {
    hide Placed, ReadU32, PrintWords;
    var ws := [a, b, c, d, e, f];
    PlacedWord(pe, shift, at, ws, 0);
    PlacedWord(pe, shift, at, ws, 1);
    PlacedWord(pe, shift, at, ws, 2);
    PlacedWord(pe, shift, at, ws, 3);
    PlacedWord(pe, shift, at, ws, 4);
    PlacedWord(pe, shift, at, ws, 5);
  }

  lemma {:induction false} PlacedWord(pe: Pe, shift: int, rva: nat, ws: seq<nat>, i: nat)
    requires Placed(pe, shift, rva, PrintWords(ws)) && i < |ws| && ws[i] < U32_LIMIT
    ensures rva + shift + 4 * i >= 0 && ReadU32(pe.raw, rva + shift + 4 * i) == Done(ws[i])
    decreases ws
  {
    hide Placed, ToLe, ReadU32;
    PlacedParts(pe, shift, rva, ToLe(ws[0], 4), PrintWords(ws[1..]));
    if i == 0 {
      Placed32(pe, shift, rva, ws[0]);
    } else {
      PlacedWord(pe, shift, rva + 4, ws[1..], i - 1);
    }
  }

  /** All parts of a printed directory, in place. */
  ghost predicate AllPlaced(pe: Pe, shift: int, rva: nat, base: u32, slots: seq<Slot>, names: seq<NameOf>) {
    var p := PartsAt(slots, names, rva);
    && Placed(pe, shift, rva, PrintHead(base, slots, names, p))
    && Placed(pe, shift, p.addresses, PrintAddresses(slots, p.texts))
    && Placed(pe, shift, p.pointers, PrintPointers(names, p.names))
    && Placed(pe, shift, p.indices, PrintIndices(names))
    && Placed(pe, shift, p.texts, PrintTexts(slots))
    && Placed(pe, shift, p.names, PrintNames(names))
    && forall x: nat | rva <= x <= p.end :: RequireOffset(pe, x) == Done(x + shift)
  }

  lemma PlaceAll(pe: Pe, shift: int, rva: nat, base: u32, slots: seq<Slot>, names: seq<NameOf>)
    requires Placed(pe, shift, rva, PrintExports(base, slots, names, rva))
    ensures AllPlaced(pe, shift, rva, base, slots, names)
    ensures PartsAt(slots, names, rva).end + 1 == rva + |PrintExports(base, slots, names, rva)| <= 0x8000_0000
  {
    hide Placed, PrintHead, PrintAddresses, PrintPointers, PrintIndices, PrintTexts, PrintNames;
    var p := PartsAt(slots, names, rva);
    var strings := PrintNames(names) + [0];
    var texts := PrintTexts(slots) + strings;
    var tables := PrintAddresses(slots, p.texts) + (PrintPointers(names, p.names) + (PrintIndices(names) + texts));
    InBounds(pe, shift, rva, PrintExports(base, slots, names, rva));
    AllMapped(pe, shift, rva, PrintExports(base, slots, names, rva));
    PlacedParts(pe, shift, rva, PrintHead(base, slots, names, p), tables);
    PlaceTables(pe, shift, p.addresses, PrintAddresses(slots, p.texts), PrintPointers(names, p.names),
                PrintIndices(names), texts);
    PlacedParts(pe, shift, p.texts, PrintTexts(slots), strings);
    PlacedParts(pe, shift, p.names, PrintNames(names), [0]);
  }

  lemma AllMapped(pe: Pe, shift: int, rva: nat, s: seq<byte>)
    requires Placed(pe, shift, rva, s)
    ensures forall x: nat | rva <= x < rva + |s| :: RequireOffset(pe, x) == Done(x + shift)
  {}

  lemma PlaceTables(pe: Pe, shift: int, at: nat, a: seq<byte>, b: seq<byte>, c: seq<byte>, d: seq<byte>)
    requires Placed(pe, shift, at, a + (b + (c + d)))
    ensures Placed(pe, shift, at, a) && Placed(pe, shift, at + |a|, b)
    ensures Placed(pe, shift, at + |a| + |b|, c) && Placed(pe, shift, at + |a| + |b| + |c|, d)
  {
    hide Placed;
    PlacedParts(pe, shift, at, a, b + (c + d));
    PlacedParts(pe, shift, at + |a|, b, c + d);
    PlacedParts(pe, shift, at + |a| + |b|, c, d);
  }

  /** What may be printed: clean texts and names, code outside the directory, ordinals below 2^32. */
  ghost predicate Printable(base: u32, slots: seq<Slot>, names: seq<NameOf>, rva: nat, size: nat) {
    && base + |slots| <= U32_LIMIT && rva + size < U32_LIMIT
    && (forall n :: n in names ==> Clean(n.name))
    && (forall s :: s in slots ==>
          match s
          case Code(x) => x != 0 && !(rva <= x < rva + size)
          case ForwardTo(text) => Clean(text)
          case Unused => true)
  }

  function TablesOf(shift: int, rva: u32, size: u32, base: u32, slots: seq<Slot>, names: seq<NameOf>): Tables
    requires |slots| < U32_LIMIT && |names| < U32_LIMIT && rva + shift >= 0
  {
    var p := PartsAt(slots, names, rva);
    Tables(rva, size, base, |slots|, |names|, p.addresses + shift, p.pointers + shift, p.indices + shift)
  }

  lemma DirectoryOfPrinted(pe: Pe, shift: int, rva: u32, size: u32, base: u32, slots: seq<Slot>, names: seq<NameOf>)
    requires DataDirectory(pe, 0) == Done((rva, size)) && rva != 0 && rva + shift >= 0
    requires AllPlaced(pe, shift, rva, base, slots, names) && PartsAt(slots, names, rva).end < 0x8000_0000
    ensures Directory(pe) == Done(Some(TablesOf(shift, rva, size, base, slots, names)))
  {
    hide Placed, PrintHead, PrintAddresses, PrintPointers, PrintIndices, PrintTexts, PrintNames;
    hide ReadU32, DataDirectory, RequireOffset;
    PlacedHead(pe, shift, rva, base, slots, names, PartsAt(slots, names, rva));
  }

  lemma NameRowOfPrinted(pe: Pe, shift: int, rva: u32, size: u32, base: u32, slots: seq<Slot>, names: seq<NameOf>, k: nat)
    requires AllPlaced(pe, shift, rva, base, slots, names) && PartsAt(slots, names, rva).end < 0x8000_0000
    requires rva + shift >= 0 && k < |names| && Clean(names[k].name)
    ensures NameRow(pe, TablesOf(shift, rva, size, base, slots, names), k) == Done((AsText(names[k].name), names[k].index))
  {
    hide Placed, PrintHead, PrintAddresses, PrintPointers, PrintIndices, PrintTexts, PrintNames, ToLe;
    hide ReadU32, ReadU16, RequireOffset, CString, Clean;
    var p := PartsAt(slots, names, rva);
    var x := PlacedName(pe, shift, p.pointers, p.names, names, k);
    InBounds(pe, shift, x, names[k].name + [0]);
    Placed32(pe, shift, p.pointers + 4 * k, x);
    PlacedText(pe, shift, x, names[k].name);
    PlacedIndex(pe, shift, p.indices, names, k);
    Placed16(pe, shift, p.indices + 2 * k, names[k].index);
  }

  // ----- Names and entries

  /** After the first `k` rows the map holds, for an index, the name of the last of them that names it. */
  lemma {:induction false} NameMapOfPrinted(pe: Pe, t: Tables, names: seq<NameOf>, k: nat)
    requires k <= |names| && forall i: nat :: i < k ==> NameRow(pe, t, i) == Done((AsText(names[i].name), names[i].index))
    ensures NameMap(pe, t, k).Done?
    ensures forall n: u16 :: MapsAs(NameMap(pe, t, k).value, names[..k], n)
    decreases k
  {
    hide NameRow, MapsAs;
    if k == 0 {
      forall n: u16
        ensures MapsAs(map[], names[..0], n)
      {
        NothingMaps(n);
      }
    } else {
      NameMapOfPrinted(pe, t, names, k - 1);
      assert names[..k] == names[..k - 1] + [names[k - 1]];
      forall n: u16
        ensures MapsAs(NameMap(pe, t, k).value, names[..k], n)
      {
        MapsOneMore(NameMap(pe, t, k - 1).value, names[..k - 1], names[k - 1], n);
      }
    }
  }

  ghost predicate MapsAs(m: map<u16, string>, names: seq<NameOf>, n: u16) {
    && (n in m <==> exists k :: LastFor(names, n, k))
    && (forall k :: LastFor(names, n, k) ==> n in m && m[n] == AsText(names[k].name))
  }

  lemma NothingMaps(n: u16)
    ensures MapsAs(map[], [], n)
  {}

  lemma MapsOneMore(m: map<u16, string>, names: seq<NameOf>, last: NameOf, n: u16)
    requires MapsAs(m, names, n)
    ensures MapsAs(m[last.index := AsText(last.name)], names + [last], n)
  {
    hide AsText;
    var all := names + [last];
    if last.index == n {
      assert LastFor(all, n, |names|);
      forall k | LastFor(all, n, k)
        ensures k == |names|
      {}
    } else {
      forall k
        ensures LastFor(all, n, k) <==> LastFor(names, n, k)
      {
        if LastFor(names, n, k) { assert all[k] == names[k]; }
        if LastFor(all, n, k) { assert forall k' :: k < k' < |names| ==> names[k'] == all[k']; }
      }
    }
  }

  lemma NameForIsCalled(m: map<u16, string>, names: seq<NameOf>, i: nat, ordinal: u16)
    requires MapsAs(m, names, i % 0x1_0000)
    ensures Called(names, i, ordinal, NameFor(m, i, ordinal))
  {
    hide LastFor;
  }

  /** Slot `i` parses to the entry it is to get, or to none. */
  lemma EntryOfPrinted(pe: Pe, shift: int, rva: u32, size: u32, base: u32, slots: seq<Slot>, names: seq<NameOf>,
                       m: map<u16, string>, i: nat)
    requires AllPlaced(pe, shift, rva, base, slots, names) && rva + shift >= 0 && i < |slots|
    requires Printable(base, slots, names, rva, size) && PartsAt(slots, names, rva).end < rva + size < 0x8000_0001
    requires MapsAs(m, names, i % 0x1_0000)
    ensures var r := ExportAt(pe, TablesOf(shift, rva, size, base, slots, names), m, i);
            && r.Done? && (slots[i].Unused? <==> r.value.None?)
            && (r.value.Some? ==> EntryFor(r.value.value, slots, names, base, i))
  {
    hide Placed, PrintHead, PrintAddresses, PrintPointers, PrintIndices, PrintTexts, PrintNames, ToLe, Clean;
    hide ReadU32, RequireOffset, CString, NameFor, Called, MapsAs, AddressAt;
    var p, t := PartsAt(slots, names, rva), TablesOf(shift, rva, size, base, slots, names);
    var x := AddressAt(slots, p.texts, i);
    assert slots[i] in slots;
    PlacedAddress(pe, shift, p.addresses, slots, p.texts, i);
    PlacedForward(pe, shift, p.texts, slots, i);
    Placed32(pe, shift, p.addresses + 4 * i, x);
    NameForIsCalled(m, names, i, (i + base) % 0x1_0000);
    if slots[i].ForwardTo? { ForwarderOfPrinted(pe, shift, t, x, slots[i].text); }
  }

  lemma ForwarderOfPrinted(pe: Pe, shift: int, t: Tables, x: u32, text: seq<byte>)
    requires Placed(pe, shift, x, text + [0]) && Clean(text)
    requires t.dirRva <= x < t.dirRva + t.dirSize < U32_LIMIT
    ensures Forwarder(pe, t, x) == Done(Some(AsText(text)))
  {
    hide RvaToOffset, CString, Clean, Placed;
    PlacedText(pe, shift, x, text);
  }

  // ----- The whole index

  /** One entry for each of the first `n` slots that is in use, in order. */
  ghost predicate Lists(es: seq<ExportEntry>, slots: seq<Slot>, names: seq<NameOf>, base: u32, n: nat)
    requires n <= |slots|
    decreases n
  {
    if n == 0 then es == []
    else if slots[n - 1].Unused? then Lists(es, slots, names, base, n - 1)
    else es != [] && EntryFor(es[|es| - 1], slots, names, base, n - 1) && Lists(es[..|es| - 1], slots, names, base, n - 1)
  }

  lemma {:induction false} ExportsOfPrinted(pe: Pe, t: Tables, m: map<u16, string>, slots: seq<Slot>, names: seq<NameOf>,
                                            base: u32, n: nat)
    requires n <= |slots|
    requires forall i: nat :: i < n ==>
               var r := ExportAt(pe, t, m, i);
               && r.Done? && (slots[i].Unused? <==> r.value.None?)
               && (r.value.Some? ==> EntryFor(r.value.value, slots, names, base, i))
    ensures ExportsTo(pe, t, m, n).Done? && Lists(ExportsTo(pe, t, m, n).value, slots, names, base, n)
    decreases n
  {
    hide ExportAt, EntryFor;
    if n > 0 {
      ExportsOfPrinted(pe, t, m, slots, names, base, n - 1);
      var es, r := ExportsTo(pe, t, m, n - 1).value, ExportAt(pe, t, m, n - 1).value;
      if r.Some? { assert (es + [r.value])[..|es|] == es; }
    }
  }

  /**
   The parser inverts the printer: wherever a printed directory stands in the file, `get_exports` returns
   one entry for each slot in use, in order: with the function's RVA or the forwarder's text, the ordinal,
   and the last name given for the slot's index, or "#" and the ordinal.
   */
  lemma ParsePrinted(pe: Pe, shift: int, rva: u32, size: u32, base: u32, slots: seq<Slot>, names: seq<NameOf>)
    requires DataDirectory(pe, 0) == Done((rva, size)) && rva != 0
    requires Placed(pe, shift, rva, PrintExports(base, slots, names, rva)) && Printable(base, slots, names, rva, size)
    requires size == |PrintExports(base, slots, names, rva)|
    ensures GetExports(pe).Done? && Lists(GetExports(pe).value, slots, names, base, |slots|)
  {
    hide Placed, PrintExports, Lists, EntryFor, NameRow, ExportAt, ExportsTo, NameMap, Directory, DataDirectory, MapsAs;
    InBounds(pe, shift, rva, PrintExports(base, slots, names, rva));
    PlaceAll(pe, shift, rva, base, slots, names);
    var t := TablesOf(shift, rva, size, base, slots, names);
    hide AllPlaced;
    DirectoryOfPrinted(pe, shift, rva, size, base, slots, names);
    forall k: nat | k < |names|
      ensures NameRow(pe, t, k) == Done((AsText(names[k].name), names[k].index))
    {
      assert names[k] in names;
      NameRowOfPrinted(pe, shift, rva, size, base, slots, names, k);
    }
    NameMapOfPrinted(pe, t, names, |names|);
    var m := NameMap(pe, t, |names|).value;
    assert names[..|names|] == names;
    forall i: nat | i < |slots|
      ensures var r := ExportAt(pe, t, m, i);
              && r.Done? && (slots[i].Unused? <==> r.value.None?)
              && (r.value.Some? ==> EntryFor(r.value.value, slots, names, base, i))
    {
      EntryOfPrinted(pe, shift, rva, size, base, slots, names, m, i);
    }
    ExportsOfPrinted(pe, t, m, slots, names, base, |slots|);
  }

  /** So for a directory printed anywhere into a section of a described image. */
  lemma ParsePrintedSection(pe: Pe, ptr: nat, rows: seq<Row>, k: nat, before: seq<byte>, after: seq<byte>,
                            rva: u32, size: u32, base: u32, slots: seq<Slot>, names: seq<NameOf>)
    requires WellFormed(pe) && Described(pe, ptr, rows) && k < |pe.sections|
    requires SectionRva(pe, k, |pe.sections[k].data|) <= 0x8000_0000
    requires pe.sections[k].data == before + PrintExports(base, slots, names, rva) + after
    requires rva == SectionRva(pe, k, |before|) && rva != 0 && DataDirectory(pe, 0) == Done((rva, size))
    requires size == |PrintExports(base, slots, names, rva)| && Printable(base, slots, names, rva, size)
    ensures GetExports(pe).Done? && Lists(GetExports(pe).value, slots, names, base, |slots|)
  {
    hide PrintExports, Described, WellFormed, DataDirectory, GetExports, Lists, Printable;
    var shift := PrintedIsPlaced(pe, ptr, rows, k, before, PrintExports(base, slots, names, rva), after);
    hide SectionRva, Placed;
    ParsePrinted(pe, shift, rva, size, base, slots, names);
  }
}

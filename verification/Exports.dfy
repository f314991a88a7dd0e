/** The export directory: the parser's index against direct lookup in the three tables. */
module Exports {
  import opened Words
  import opened Text
  import opened PeFile
  import opened RvaMap

  datatype ExportEntry = ExportEntry(name: string, rva: u32, ordinal: u16, forwarder: Option<string>)

  /** The fields of the export directory, with its three tables as file offsets. */
  datatype Tables = Tables(dirRva: u32, dirSize: u32, base: u32, funcs: u32, names: u32,
                           addrOff: nat, nameOff: nat, ordOff: nat)

  /** The directory of an image, if it has one. */
  function Directory(pe: Pe): Outcome<Option<Tables>> {
    var dir :- DataDirectory(pe, 0);
    if dir.0 == 0 then Done(None)
    else
      var off :- RequireOffset(pe, dir.0);
      var base :- ReadU32(pe.raw, off + 16);
      var funcs :- ReadU32(pe.raw, off + 20);
      var names :- ReadU32(pe.raw, off + 24);
      var addrRva :- ReadU32(pe.raw, off + 28);
      var nameRva :- ReadU32(pe.raw, off + 32);
      var ordRva :- ReadU32(pe.raw, off + 36);
      var addrOff :- RequireOffset(pe, addrRva);
      var nameOff :- RequireOffset(pe, nameRva);
      var ordOff :- RequireOffset(pe, ordRva);
      Done(Some(Tables(dir.0, dir.1, base, funcs, names, addrOff, nameOff, ordOff)))
  }

  // ----- Direct reading of the tables

  /** Row `k` of the name and ordinal tables. */
  function NameRow(pe: Pe, t: Tables, k: nat): Outcome<(string, u16)> {
    var ptr :- ReadU32(pe.raw, t.nameOff + k * 4);
    var off :- RequireOffset(pe, ptr);
    var name :- CString(pe.raw, off);
    var ordinal :- ReadU16(pe.raw, t.ordOff + k * 2);
    Done((name, ordinal))
  }

  /** The forwarder string of a function RVA that lies inside the export directory. */
  function Forwarder(pe: Pe, t: Tables, rva: u32): Outcome<Option<string>> {
    if rva < t.dirRva then Done(None)
    else if t.dirRva + t.dirSize >= U32_LIMIT then Panic
    else if rva >= t.dirRva + t.dirSize then Done(None)
    else
      var off :- RvaToOffset(pe, rva);
      match off
      case None => Done(None)
      case Some(o) =>
        var text :- CString(pe.raw, o);
        Done(Some(text))
  }

  // ----- The parser's two passes

  /** The name map after the first `k` rows: a later row for the same index replaces an earlier one. */
  function NameMap(pe: Pe, t: Tables, k: nat): Outcome<map<u16, string>> {
    if k == 0 then Done(map[])
    else
      var m :- NameMap(pe, t, k - 1);
      var row :- NameRow(pe, t, k - 1);
      Done(m[row.1 := row.0])
  }

  function NameFor(names: map<u16, string>, i: nat, ordinal: u16): string {
    if i % 0x1_0000 in names then names[i % 0x1_0000] else "#" + Decimal(ordinal)
  }

  /** Entry `i` of the address table; an empty slot yields none. */
  function ExportAt(pe: Pe, t: Tables, names: map<u16, string>, i: nat): Outcome<Option<ExportEntry>> {
    var rva :- ReadU32(pe.raw, t.addrOff + i * 4);
    if rva == 0 then Done(None)
    else if i + t.base >= U32_LIMIT then Panic
    else
      var ordinal := (i + t.base) % 0x1_0000;
      var forwarder :- Forwarder(pe, t, rva);
      Done(Some(ExportEntry(NameFor(names, i, ordinal), rva, ordinal, forwarder)))
  }

  function ExportsTo(pe: Pe, t: Tables, names: map<u16, string>, k: nat): Outcome<seq<ExportEntry>> {
    if k == 0 then Done([])
    else
      var es :- ExportsTo(pe, t, names, k - 1);
      var e :- ExportAt(pe, t, names, k - 1);
      Done(if e.Some? then es + [e.value] else es)
  }

  function GetExports(pe: Pe): Outcome<seq<ExportEntry>> {
    var dir :- Directory(pe);
    match dir
    case None => Done([])
    case Some(t) =>
      var names :- NameMap(pe, t, t.names);
      ExportsTo(pe, t, names, t.funcs)
  }

  lemma {:induction false} NameMapFails(pe: Pe, t: Tables, j: nat, k: nat)
    requires j <= k && NameMap(pe, t, j).IsFailure()
    ensures NameMap(pe, t, k) == NameMap(pe, t, j)
    decreases k
  {
    hide NameRow;
    if j < k { NameMapFails(pe, t, j, k - 1); }
  }

  lemma {:induction false} ExportsFail(pe: Pe, t: Tables, names: map<u16, string>, j: nat, k: nat)
    requires j <= k && ExportsTo(pe, t, names, j).IsFailure()
    ensures ExportsTo(pe, t, names, k) == ExportsTo(pe, t, names, j)
    decreases k
  {
    hide ExportAt;
    if j < k { ExportsFail(pe, t, names, j, k - 1); }
  }

  /** `get_exports`, with its two loops. */
  method ReadExports(pe: Pe) returns (r: Outcome<seq<ExportEntry>>)
    ensures r == GetExports(pe)
  {
    hide NameRow;
    hide ExportAt;
    hide Directory;
    var dir := Directory(pe);
    if dir.IsFailure() { return dir.PropagateFailure(); }
    if dir.value.None? { return Done([]); }
    var t := dir.value.value;
    var names: map<u16, string> := map[];
    for k := 0 to t.names
      invariant NameMap(pe, t, k) == Done(names)
    {
      var row := NameRow(pe, t, k);
      if row.IsFailure() {
        NameMapFails(pe, t, k + 1, t.names);
        return row.PropagateFailure();
      }
      names := names[row.value.1 := row.value.0];
    }
    var exports := [];
    for i := 0 to t.funcs
      invariant ExportsTo(pe, t, names, i) == Done(exports)
    {
      var e := ExportAt(pe, t, names, i);
      if e.IsFailure() {
        ExportsFail(pe, t, names, i + 1, t.funcs);
        return e.PropagateFailure();
      }
      if e.value.Some? { exports := exports + [e.value.value]; }
    }
    return Done(exports);
  }

  // ----- Searching the index

  /** What the resolver searches by. */
  datatype Key = ByName(name: string) | ByOrdinal(ordinal: u16)

  predicate Matches(e: ExportEntry, key: Key) {
    match key
    case ByName(s) => e.name == s
    case ByOrdinal(o) => e.ordinal == o
  }

  /** The first matching entry's position. */
  function FindEntry(es: seq<ExportEntry>, key: Key): (r: Option<nat>)
    ensures r.Some? ==> r.value < |es| && Matches(es[r.value], key)
    ensures r.Some? ==> forall j :: 0 <= j < r.value ==> !Matches(es[j], key)
    ensures r.None? ==> forall j :: 0 <= j < |es| ==> !Matches(es[j], key)
  {
    if es == [] then None
    else if Matches(es[0], key) then Some(0)
    else
      match FindEntry(es[1..], key)
      case None => None
      case Some(j) => Some(j + 1)
  }

  /** Index `i` of the address table holds an entry that matches. */
  ghost predicate MatchesAt(pe: Pe, t: Tables, names: map<u16, string>, i: nat, key: Key) {
    var e := ExportAt(pe, t, names, i);
    e.Done? && e.value.Some? && Matches(e.value.value, key)
  }

  /** The index built by the loops holds exactly the matching slots, and the search finds the least. */
  lemma {:induction false} SearchFindsLeast(pe: Pe, t: Tables, names: map<u16, string>, k: nat, key: Key)
    requires ExportsTo(pe, t, names, k).Done?
    ensures var es := ExportsTo(pe, t, names, k).value;
            match FindEntry(es, key)
            case None => forall i: nat :: i < k ==> !MatchesAt(pe, t, names, i, key)
            case Some(j) =>
              exists i: nat :: i < k && MatchesAt(pe, t, names, i, key)
                               && ExportAt(pe, t, names, i) == Done(Some(es[j]))
                               && forall i': nat :: i' < i ==> !MatchesAt(pe, t, names, i', key)
  {
    hide ExportAt;
    hide FindEntry;
    if k > 0 {
      SearchFindsLeast(pe, t, names, k - 1, key);
      var es := ExportsTo(pe, t, names, k - 1).value;
      var e := ExportAt(pe, t, names, k - 1).value;
      if e.Some? {
        FindAppend(es, e.value, key);
      }
      if FindEntry(es, key).None? && e.Some? && Matches(e.value, key) {
        assert MatchesAt(pe, t, names, k - 1, key);
      }
    }
  }

  lemma FindAppend(es: seq<ExportEntry>, e: ExportEntry, key: Key)
    ensures FindEntry(es + [e], key) ==
            if FindEntry(es, key).Some? then FindEntry(es, key)
            else if Matches(e, key) then Some(|es|) else None
  {
    var r := FindEntry(es + [e], key);
    if r.None? {
      assert !Matches((es + [e])[|es|], key);
      assert forall j :: 0 <= j < |es| ==> es[j] == (es + [e])[j];
    } else if r.value < |es| {
      assert Matches(es[r.value], key);
    }
    assert FindEntry(es, key).Some? ==> Matches((es + [e])[FindEntry(es, key).value], key);
  }

  // ----- Direct lookup

  /** Row `j` is the last of the first `k` name rows to name address index `n`, and its name is `s`. */
  ghost predicate LastRow(pe: Pe, t: Tables, k: nat, j: nat, n: u16, s: string) {
    && j < k && NameRow(pe, t, j) == Done((s, n))
    && forall j': nat :: j < j' < k && NameRow(pe, t, j').Done? ==> NameRow(pe, t, j').value.1 != n
  }

  /** Duplicate ordinals keep only the last name. */
  lemma {:induction false} NameMapKeepsLast(pe: Pe, t: Tables, k: nat, n: u16)
    requires NameMap(pe, t, k).Done?
    ensures var m := NameMap(pe, t, k).value;
            && (n in m ==> exists j: nat :: LastRow(pe, t, k, j, n, m[n]))
            && (n !in m ==> forall j: nat :: j < k && NameRow(pe, t, j).Done? ==> NameRow(pe, t, j).value.1 != n)
  {
    hide NameRow;
    if k > 0 {
      NameMapKeepsLast(pe, t, k - 1, n);
      var m, row := NameMap(pe, t, k - 1).value, NameRow(pe, t, k - 1).value;
      if row.1 == n {
        assert LastRow(pe, t, k, k - 1, n, row.0);
      } else if n in m {
        var j: nat :| LastRow(pe, t, k - 1, j, n, m[n]);
        assert LastRow(pe, t, k, j, n, m[n]);
      }
    }
  }

  /** All rows of a parsed name table are readable. */
  lemma {:induction false} RowsReadable(pe: Pe, t: Tables, k: nat, j: nat)
    requires NameMap(pe, t, k).Done? && j < k
    ensures NameRow(pe, t, j).Done?
  {
    hide NameRow;
    if j < k - 1 { RowsReadable(pe, t, k - 1, j); }
  }

  /** A name that no printed ordinal can equal matches a slot exactly when the name table says so. */
  lemma NameMatchesSlot(pe: Pe, t: Tables, i: nat, s: string)
    requires NameMap(pe, t, t.names).Done? && i < t.funcs
    requires s == "" || s[0] != '#'
    requires var names := NameMap(pe, t, t.names).value; ExportAt(pe, t, names, i).Done?
    ensures var names := NameMap(pe, t, t.names).value;
            MatchesAt(pe, t, names, i, ByName(s)) <==> exists k: nat :: Names(pe, t, k, s, i)
  {
    hide NameRow, NameMap, Forwarder, ReadU32, Decimal;
    var names, n := NameMap(pe, t, t.names).value, i % 0x1_0000;
    NameMapKeepsLast(pe, t, t.names, n);
    if n in names {
      var j: nat :| LastRow(pe, t, t.names, j, n, names[n]);
      forall k: nat | Names(pe, t, k, s, i)
        ensures names[n] == s
      {
        assert j == k;
      }
      if names[n] == s && InUse(pe, t, i) { assert Names(pe, t, j, s, i); }
    }
  }

  /** Name row `k` names `s`. */
  ghost predicate RowNames(pe: Pe, t: Tables, k: nat, s: string) {
    k < t.names && NameRow(pe, t, k).Done? && NameRow(pe, t, k).value.0 == s
  }

  function RowIndex(pe: Pe, t: Tables, k: nat): u16 {
    if NameRow(pe, t, k).Done? then NameRow(pe, t, k).value.1 else 0
  }

  ghost predicate InUse(pe: Pe, t: Tables, n: nat) {
    n < t.funcs && ReadU32(pe.raw, t.addrOff + n * 4) != Done(0)
  }

  /** Name row `k` names `s`, and no later row names the same address index. */
  ghost predicate KeptRow(pe: Pe, t: Tables, k: nat, s: string) {
    && RowNames(pe, t, k, s)
    && forall k': nat :: k < k' < t.names && NameRow(pe, t, k').Done? ==> RowIndex(pe, t, k') != RowIndex(pe, t, k)
  }

  /** Slot `i` is in use, and `s` is the name kept for its index, in row `k`; indices have 16 bits. */
  ghost predicate Names(pe: Pe, t: Tables, k: nat, s: string, i: nat) {
    KeptRow(pe, t, k, s) && RowIndex(pe, t, k) == i % 0x1_0000 && InUse(pe, t, i)
  }

  /** The entry records what slot `i` of the address table holds. */
  ghost predicate Records(pe: Pe, t: Tables, i: nat, e: ExportEntry) {
    && InUse(pe, t, i) && ReadU32(pe.raw, t.addrOff + i * 4) == Done(e.rva)
    && Forwarder(pe, t, e.rva) == Done(e.forwarder) && e.ordinal == (i + t.base) % 0x1_0000
  }

  /** `s` names slot `i`, and no earlier one. */
  ghost predicate LeastNamed(pe: Pe, t: Tables, s: string, i: nat) {
    && (exists k: nat :: Names(pe, t, k, s, i))
    && forall i': nat, k: nat :: i' < i ==> !Names(pe, t, k, s, i')
  }

  /** The entry found for `s` is that of the least slot `s` names; none is found exactly when it names none. */
  lemma LookupByName(pe: Pe, t: Tables, s: string)
    requires Directory(pe) == Done(Some(t)) && GetExports(pe).Done?
    requires s == "" || s[0] != '#'
    ensures var es := GetExports(pe).value;
            match FindEntry(es, ByName(s))
            case None => forall i: nat, k: nat :: !Names(pe, t, k, s, i)
            case Some(j) => exists i: nat :: LeastNamed(pe, t, s, i) && Records(pe, t, i, es[j])
  {
    hide NameRow, NameMap, Forwarder, ReadU32, ExportsTo, ExportAt, Directory, Decimal;
    hide FindEntry, MatchesAt, Names, Records;
    var names := NameMap(pe, t, t.names).value;
    var es := GetExports(pe).value;
    SearchFindsLeast(pe, t, names, t.funcs, ByName(s));
    forall i: nat, k: nat | Names(pe, t, k, s, i)
      ensures i < t.funcs && MatchesAt(pe, t, names, i, ByName(s))
    {
      NamedIsUsed(pe, t, k, s, i);
      SlotsReadable(pe, t, names, t.funcs, i);
      NameMatchesSlot(pe, t, i, s);
    }
    var found := FindEntry(es, ByName(s));
    if found.Some? {
      var i: nat :| i < t.funcs && MatchesAt(pe, t, names, i, ByName(s))
                    && ExportAt(pe, t, names, i) == Done(Some(es[found.value]))
                    && forall i': nat :: i' < i ==> !MatchesAt(pe, t, names, i', ByName(s));
      NameMatchesSlot(pe, t, i, s);
      EntryRecords(pe, t, names, i, es[found.value]);
      assert LeastNamed(pe, t, s, i);
    }
  }

  lemma NamedIsUsed(pe: Pe, t: Tables, k: nat, s: string, i: nat)
    requires Names(pe, t, k, s, i)
    ensures i < t.funcs
  {}

  lemma EntryRecords(pe: Pe, t: Tables, names: map<u16, string>, i: nat, e: ExportEntry)
    requires i < t.funcs && ExportAt(pe, t, names, i) == Done(Some(e))
    ensures Records(pe, t, i, e)
  {
    hide ReadU32, Forwarder, NameFor;
  }

  function RowName(pe: Pe, t: Tables, k: nat): string {
    if NameRow(pe, t, k).Done? then NameRow(pe, t, k).value.0 else ""
  }

  /** Name table -> ordinal table -> address table: the search by the name of row `k` returns what the row leads to. */
  ghost predicate FoundDirectly(pe: Pe, t: Tables, k: nat)
    requires GetExports(pe).Done?
  {
    var es := GetExports(pe).value;
    var j := FindEntry(es, ByName(RowName(pe, t, k)));
    j.Some? && Records(pe, t, RowIndex(pe, t, k), es[j.value])
  }

  ghost predicate UsedRow(pe: Pe, t: Tables, k: nat) {
    k < t.names && InUse(pe, t, RowIndex(pe, t, k))
  }

  /** Among the rows whose slots are in use, names and address indices determine each other. */
  ghost predicate NamesMatchIndices(pe: Pe, t: Tables) {
    forall j: nat, k: nat | UsedRow(pe, t, j) && UsedRow(pe, t, k) ::
      RowName(pe, t, j) == RowName(pe, t, k) <==> RowIndex(pe, t, j) == RowIndex(pe, t, k)
  }

  /** No name in use looks like an ordinal, which is how the resolver would read it. */
  ghost predicate PlainNames(pe: Pe, t: Tables) {
    forall k: nat | UsedRow(pe, t, k) :: RowName(pe, t, k) == "" || RowName(pe, t, k)[0] != '#'
  }

  /**
   Export index agrees with direct lookup: every row whose slot is in use is found by its name if and
   only if names and indices in use determine each other.
   */
  lemma DirectExactlyWhenNamesMatch(pe: Pe, t: Tables)
    requires Directory(pe) == Done(Some(t)) && GetExports(pe).Done? && PlainNames(pe, t)
    ensures NamesMatchIndices(pe, t) <==> forall k: nat | UsedRow(pe, t, k) :: FoundDirectly(pe, t, k)
  {
    hide Directory, GetExports, FoundDirectly, RowName, RowIndex, InUse;
    if NamesMatchIndices(pe, t) {
      forall k: nat | UsedRow(pe, t, k)
        ensures FoundDirectly(pe, t, k)
      {
        FoundWhenMatching(pe, t, k);
      }
    } else {
      var j: nat, k: nat :| UsedRow(pe, t, j) && UsedRow(pe, t, k)
                            && !(RowName(pe, t, j) == RowName(pe, t, k) <==> RowIndex(pe, t, j) == RowIndex(pe, t, k));
      if FoundDirectly(pe, t, j) && FoundDirectly(pe, t, k) { MatchingWhenFound(pe, t, j, k); }
    }
  }

  /** The row kept for the index of a used row. */
  lemma KeptFor(pe: Pe, t: Tables, k: nat) returns (k': nat)
    requires Directory(pe) == Done(Some(t)) && GetExports(pe).Done? && k < t.names
    ensures RowIndex(pe, t, k') == RowIndex(pe, t, k) && KeptRow(pe, t, k', RowName(pe, t, k'))
    decreases t.names - k
  {
    hide NameRow, NameMap, ExportsTo, Directory;
    ReadableExports(pe, t, k);
    if k1: nat :| k < k1 < t.names && NameRow(pe, t, k1).Done? && RowIndex(pe, t, k1) == RowIndex(pe, t, k) {
      k' := KeptFor(pe, t, k1);
    } else {
      k' := k;
    }
  }

  lemma FoundWhenMatching(pe: Pe, t: Tables, k: nat)
    requires Directory(pe) == Done(Some(t)) && GetExports(pe).Done? && PlainNames(pe, t)
    requires NamesMatchIndices(pe, t) && UsedRow(pe, t, k)
    ensures FoundDirectly(pe, t, k)
  {
    hide NameRow, GetExports, Directory, FindEntry, ReadU32, Forwarder, RowIndex, RowName;
    var s, n, es := RowName(pe, t, k), RowIndex(pe, t, k), GetExports(pe).value;
    var kept := KeptFor(pe, t, k);
    KeptInRange(pe, t, kept, RowName(pe, t, kept));
    assert UsedRow(pe, t, kept);
    assert Names(pe, t, kept, s, n);
    LookupByName(pe, t, s);
    var j := FindEntry(es, ByName(s)).value;
    var i: nat :| LeastNamed(pe, t, s, i) && Records(pe, t, i, es[j]);
    assert i <= n;
    var k': nat :| Names(pe, t, k', s, i);
    KeptInRange(pe, t, k', s);
    assert UsedRow(pe, t, k');
  }

  lemma KeptInRange(pe: Pe, t: Tables, k: nat, s: string)
    requires KeptRow(pe, t, k, s)
    ensures k < t.names && RowName(pe, t, k) == s
  {}

  lemma SameResidue(a: nat, b: nat, base: nat)
    requires (a + base) % 0x1_0000 == (b + base) % 0x1_0000
    ensures a % 0x1_0000 == b % 0x1_0000
  {}

  /** A row found directly bears the name kept for its index. */
  lemma KeptOfFound(pe: Pe, t: Tables, k: nat) returns (kept: nat)
    requires Directory(pe) == Done(Some(t)) && GetExports(pe).Done? && PlainNames(pe, t)
    requires UsedRow(pe, t, k) && FoundDirectly(pe, t, k)
    ensures KeptRow(pe, t, kept, RowName(pe, t, k)) && RowIndex(pe, t, kept) == RowIndex(pe, t, k)
  {
    hide GetExports, Directory, FindEntry, ReadU32, Forwarder, RowIndex, RowName, KeptRow, InUse;
    var s, n, es := RowName(pe, t, k), RowIndex(pe, t, k), GetExports(pe).value;
    LookupByName(pe, t, s);
    var e := es[FindEntry(es, ByName(s)).value];
    var i: nat :| LeastNamed(pe, t, s, i) && Records(pe, t, i, e);
    SameResidue(i, n, t.base);
    kept :| Names(pe, t, kept, s, i);
  }

  lemma SameKept(pe: Pe, t: Tables, j: nat, k: nat, a: string, b: string)
    requires KeptRow(pe, t, j, a) && KeptRow(pe, t, k, b) && RowIndex(pe, t, j) == RowIndex(pe, t, k)
    ensures a == b
  {
    hide NameRow;
  }

  lemma MatchingWhenFound(pe: Pe, t: Tables, j: nat, k: nat)
    requires Directory(pe) == Done(Some(t)) && GetExports(pe).Done? && PlainNames(pe, t)
    requires UsedRow(pe, t, j) && UsedRow(pe, t, k) && FoundDirectly(pe, t, j) && FoundDirectly(pe, t, k)
    ensures RowName(pe, t, j) == RowName(pe, t, k) <==> RowIndex(pe, t, j) == RowIndex(pe, t, k)
  {
    hide GetExports, Directory, FindEntry, ReadU32, Forwarder, RowIndex, RowName, KeptRow, InUse;
    if RowIndex(pe, t, j) == RowIndex(pe, t, k) {
      var a := KeptOfFound(pe, t, j);
      var b := KeptOfFound(pe, t, k);
      SameKept(pe, t, a, b, RowName(pe, t, j), RowName(pe, t, k));
    }
    if RowName(pe, t, j) == RowName(pe, t, k) {
      SameResidue(RowIndex(pe, t, j), RowIndex(pe, t, k), t.base);
    }
  }

  lemma ReadableExports(pe: Pe, t: Tables, k: nat)
    requires Directory(pe) == Done(Some(t)) && GetExports(pe).Done? && k < t.names
    ensures NameRow(pe, t, k).Done?
  {
    hide NameRow, NameMap, ExportsTo, Directory;
    RowsReadable(pe, t, t.names, k);
  }

  lemma {:induction false} SlotsReadable(pe: Pe, t: Tables, names: map<u16, string>, k: nat, i: nat)
    requires ExportsTo(pe, t, names, k).Done? && i < k
    ensures ExportAt(pe, t, names, i).Done?
  {
    hide ExportAt;
    if i < k - 1 { SlotsReadable(pe, t, names, k - 1, i); }
  }

  /** Lookup by "#o" finds index o - base, when no ordinal wraps around 16 bits. */
  lemma LookupByOrdinal(pe: Pe, t: Tables, o: u16)
    requires Directory(pe) == Done(Some(t)) && GetExports(pe).Done? && t.base + t.funcs <= 0x1_0000
    ensures var es := GetExports(pe).value;
            match FindEntry(es, ByOrdinal(o))
            case None => t.base <= o < t.base + t.funcs ==> ReadU32(pe.raw, t.addrOff + (o - t.base) * 4) == Done(0)
            case Some(j) =>
              && t.base <= o < t.base + t.funcs
              && ReadU32(pe.raw, t.addrOff + (o - t.base) * 4) == Done(es[j].rva)
              && Forwarder(pe, t, es[j].rva) == Done(es[j].forwarder)
  {
    hide NameRow;
    hide NameMap;
    hide Forwarder;
    hide ReadU32;
    hide ExportsTo;
    hide Directory;
    hide NameFor;
    var names := NameMap(pe, t, t.names).value;
    var es := GetExports(pe).value;
    SearchFindsLeast(pe, t, names, t.funcs, ByOrdinal(o));
    if t.base <= o < t.base + t.funcs {
      SlotsReadable(pe, t, names, t.funcs, o - t.base);
      assert FindEntry(es, ByOrdinal(o)).None? ==> !MatchesAt(pe, t, names, o - t.base, ByOrdinal(o));
    }
  }
}

/** IAT binding: every import slot of every module gets the address its symbol resolves to. */
module Binding {
  import opened Words
  import opened GuestMemory
  import opened PeFile
  import opened Imports
  import opened Forwarder
  import Relocation

  /** One import: where its address goes and what it asks for. */
  datatype Slot = Slot(at: nat, query: Query)

  function EntrySlots(pBase: nat, dll: string, fs: seq<ImportFunction>): (r: seq<Slot>)
    ensures |r| == |fs|
  {
    seq(|fs|, i requires 0 <= i < |fs| => Slot(pBase + fs[i].iatRva, Query(dll, fs[i].name)))
  }

  function SlotsOf(pBase: nat, es: seq<ImportEntry>): seq<Slot> {
    if es == [] then [] else EntrySlots(pBase, es[0].dll, es[0].functions) + SlotsOf(pBase, es[1..])
  }

  /** Slots in order; an unresolved one is skipped, a write outside memory stops the binding. */
  function BindSlots(m: seq<byte>, views: seq<View>, slots: seq<Slot>): (r: (seq<byte>, Outcome<()>))
    ensures |r.0| == |m|
    decreases slots
  {
    if slots == [] then (m, Done(()))
    else
      match Resolve(views, slots[0].query)
      case Panic => (m, Panic)
      case Fail => (m, Fail)
      case Done(None) => BindSlots(m, views, slots[1..])
      case Done(Some(a)) =>
        if slots[0].at + 8 > |m| then (m, Fail)
        else BindSlots(Splice(m, slots[0].at, ToLe(a, 8)), views, slots[1..])
  }

  /** Modules in order; one whose imports do not parse stops the binding. */
  function BindModules(m: seq<byte>, views: seq<View>, mods: seq<LoadedModule>): (r: (seq<byte>, Outcome<()>))
    ensures |r.0| == |m|
    decreases mods
  {
    if mods == [] then (m, Done(()))
    else
      match GetImports(mods[0].pe)
      case Panic => (m, Panic)
      case Fail => (m, Fail)
      case Done(es) =>
        var (m', r) := BindSlots(m, views, SlotsOf(mods[0].pBase, es));
        if r.Done? then BindModules(m', views, mods[1..]) else (m', r)
  }

  lemma {:induction false} BindAppend(m: seq<byte>, views: seq<View>, a: seq<Slot>, b: seq<Slot>)
    ensures BindSlots(m, views, a + b) ==
            var first := BindSlots(m, views, a);
            if first.1.Done? then BindSlots(first.0, views, b) else first
    decreases a
  {
    hide Resolve;
    if a == [] {
      assert a + b == b;
    } else {
      assert (a + b)[0] == a[0] && (a + b)[1..] == a[1..] + b;
      match Resolve(views, a[0].query)
      case Done(Some(x)) =>
        if a[0].at + 8 <= |m| { BindAppend(Splice(m, a[0].at, ToLe(x, 8)), views, a[1..], b); }
      case _ => BindAppend(m, views, a[1..], b);
    }
  }

  method BindEntry(vm: Vm, views: seq<View>, pBase: nat, e: ImportEntry) returns (r: Outcome<()>)
    requires vm.Valid()
    modifies vm.mem
    ensures (vm.Contents(), r) == BindSlots(old(vm.Contents()), views, EntrySlots(pBase, e.dll, e.functions))
  {
    hide Resolve;
    hide ToLe;
    ghost var slots := EntrySlots(pBase, e.dll, e.functions);
    assert forall i :: 0 <= i < |slots| ==>
                         slots[i] == Slot(pBase + e.functions[i].iatRva, Query(e.dll, e.functions[i].name));
    hide EntrySlots;
    ghost var whole := BindSlots(vm.Contents(), views, slots);
    for i := 0 to |e.functions|
      invariant BindSlots(vm.Contents(), views, slots[i..]) == whole
    {
      assert slots[i..][0] == slots[i] && slots[i..][1..] == slots[i + 1..];
      var f := e.functions[i];
      var found := Resolve(views, Query(e.dll, f.name));
      match found {
        case Panic => return Panic;
        case Fail => return Fail;
        case Done(None) =>
        case Done(Some(a)) =>
          var ok := vm.WriteMemory(pBase + f.iatRva, ToLe(a, 8));
          if !ok { return Fail; }
      }
    }
    assert slots[|e.functions|..] == [];
    return Done(());
  }

  method BindModule(vm: Vm, views: seq<View>, pBase: nat, es: seq<ImportEntry>) returns (r: Outcome<()>)
    requires vm.Valid()
    modifies vm.mem
    ensures (vm.Contents(), r) == BindSlots(old(vm.Contents()), views, SlotsOf(pBase, es))
  {
    hide BindSlots;
    ghost var whole := BindSlots(vm.Contents(), views, SlotsOf(pBase, es));
    for i := 0 to |es|
      invariant BindSlots(vm.Contents(), views, SlotsOf(pBase, es[i..])) == whole
    {
      assert es[i..][1..] == es[i + 1..];
      BindAppend(vm.Contents(), views, EntrySlots(pBase, es[i].dll, es[i].functions), SlotsOf(pBase, es[i + 1..]));
      r := BindEntry(vm, views, pBase, es[i]);
      if !r.Done? { return; }
    }
    BindNothing(vm.Contents(), views);
    return Done(());
  }

  lemma BindNothing(m: seq<byte>, views: seq<View>)
    ensures BindSlots(m, views, []) == (m, Done(()))
  {}

  method BindAll(vm: Vm, mods: seq<LoadedModule>) returns (r: Outcome<()>)
    requires vm.Valid() && Named(mods)
    modifies vm.mem
    ensures (vm.Contents(), r) == BindModules(old(vm.Contents()), Views(mods), mods)
  {
    hide GetImports;
    hide BindSlots;
    var views := Views(mods);
    ghost var whole := BindModules(vm.Contents(), views, mods);
    for i := 0 to |mods|
      invariant BindModules(vm.Contents(), views, mods[i..]) == whole
    {
      assert mods[i..][1..] == mods[i + 1..];
      var imports := ReadImports(mods[i].pe);
      match imports {
        case Panic => return Panic;
        case Fail => return Fail;
        case Done(es) =>
          r := BindModule(vm, views, mods[i].pBase, es);
          if !r.Done? { return; }
      }
    }
    return Done(());
  }

  // ----- What binding leaves in memory

  /** All slots of all modules, when every import table parses. */
  function AllSlots(mods: seq<LoadedModule>): seq<Slot> {
    if mods == [] then []
    else
      match GetImports(mods[0].pe)
      case Done(es) => SlotsOf(mods[0].pBase, es) + AllSlots(mods[1..])
      case _ => AllSlots(mods[1..])
  }

  predicate Parsable(mods: seq<LoadedModule>) {
    forall m :: m in mods ==> GetImports(m.pe).Done?
  }

  lemma {:induction false} BindingIsOverSlots(m: seq<byte>, views: seq<View>, mods: seq<LoadedModule>)
    requires Parsable(mods)
    ensures BindModules(m, views, mods) == BindSlots(m, views, AllSlots(mods))
    decreases mods
  {
    hide GetImports;
    hide BindSlots;
    if mods == [] {
      BindNothing(m, views);
    } else {
      assert mods[0] in mods && forall x :: x in mods[1..] ==> x in mods;
      var slots := SlotsOf(mods[0].pBase, GetImports(mods[0].pe).value);
      BindAppend(m, views, slots, AllSlots(mods[1..]));
      var (m', r) := BindSlots(m, views, slots);
      if r.Done? { BindingIsOverSlots(m', views, mods[1..]); }
    }
  }

  /** The address a slot is to hold, if its symbol resolves. */
  function Bound(views: seq<View>, s: Slot): Option<nat> {
    match Resolve(views, s.query)
    case Done(r) => r
    case _ => None
  }

  /** Slots lie in memory, are equal or apart, resolve without a crash, and to 64-bit addresses. */
  ghost predicate CleanSlots(length: nat, views: seq<View>, slots: seq<Slot>) {
    && (forall s :: s in slots ==> s.at + 8 <= length && Resolve(views, s.query).Done?
                                   && (Bound(views, s).Some? ==> Bound(views, s).value < TWO64))
    && (forall s, t :: s in slots && t in slots ==> s == t || s.at + 8 <= t.at || t.at + 8 <= s.at)
  }

  ghost predicate InBoundSlot(views: seq<View>, slots: seq<Slot>, x: nat) {
    exists s :: s in slots && Bound(views, s).Some? && s.at <= x < s.at + 8
  }

  /** Each resolved slot holds its address, each unresolved one its old word, and no other byte changed. */
  ghost predicate ExactlyBound(m: seq<byte>, m': seq<byte>, views: seq<View>, slots: seq<Slot>) {
    && |m'| == |m|
    && (forall s :: s in slots && s.at + 8 <= |m| ==>
                      Word64(m', s.at) == match Bound(views, s) case Some(a) => a case None => Word64(m, s.at))
    && (forall x :: 0 <= x < |m| && !InBoundSlot(views, slots, x) ==> m'[x] == m[x])
  }

  lemma CleanTail(length: nat, views: seq<View>, slots: seq<Slot>)
    requires CleanSlots(length, views, slots) && slots != []
    ensures CleanSlots(length, views, slots[1..])
    ensures slots[0] in slots && forall t :: t in slots[1..] ==> t in slots
  {
    hide Resolve;
    hide Bound;
    assert forall t :: t in slots[1..] ==> t in slots;
  }

  lemma {:induction false} WordAfterBind(m: seq<byte>, views: seq<View>, slots: seq<Slot>, s: Slot)
    requires CleanSlots(|m|, views, slots) && s.at + 8 <= |m|
    requires Bound(views, s).Some? ==> Bound(views, s).value < TWO64
    requires forall t :: t in slots ==> s == t || s.at + 8 <= t.at || t.at + 8 <= s.at
    ensures BindSlots(m, views, slots).1 == Done(())
    ensures Word64(BindSlots(m, views, slots).0, s.at) ==
            if s in slots && Bound(views, s).Some? then Bound(views, s).value else Word64(m, s.at)
    decreases slots
  {
    hide Resolve;
    hide Word64;
    hide ToLe;
    if slots != [] {
      CleanTail(|m|, views, slots);
      var t, rest := slots[0], slots[1..];
      assert s in slots <==> s == t || s in rest;
      match Bound(views, t)
      case None => WordAfterBind(m, views, rest, s);
      case Some(a) =>
        WordAfterPut(m, t.at, a);
        WordAfterBind(Splice(m, t.at, ToLe(a, 8)), views, rest, s);
    }
  }

  lemma {:induction false} ByteAfterBind(m: seq<byte>, views: seq<View>, slots: seq<Slot>, x: nat)
    requires CleanSlots(|m|, views, slots) && x < |m| && !InBoundSlot(views, slots, x)
    ensures BindSlots(m, views, slots).0[x] == m[x]
    decreases slots
  {
    hide Resolve;
    hide ToLe;
    if slots != [] {
      CleanTail(|m|, views, slots);
      var t, rest := slots[0], slots[1..];
      assert !InBoundSlot(views, rest, x);
      match Bound(views, t)
      case None => ByteAfterBind(m, views, rest, x);
      case Some(a) => ByteAfterBind(Splice(m, t.at, ToLe(a, 8)), views, rest, x);
    }
  }

  /** Binding is exact. */
  lemma BindIsExact(m: seq<byte>, views: seq<View>, mods: seq<LoadedModule>)
    requires Parsable(mods) && CleanSlots(|m|, views, AllSlots(mods))
    ensures BindModules(m, views, mods).1 == Done(())
    ensures ExactlyBound(m, BindModules(m, views, mods).0, views, AllSlots(mods))
  {
    hide Resolve;
    hide BindSlots;
    hide BindModules;
    var slots := AllSlots(mods);
    hide AllSlots;
    BindingIsOverSlots(m, views, mods);
    forall s | s in slots
      ensures Word64(BindSlots(m, views, slots).0, s.at) ==
              match Bound(views, s) case Some(a) => a case None => Word64(m, s.at)
    {
      WordAfterBind(m, views, slots, s);
    }
    forall x | 0 <= x < |m| && !InBoundSlot(views, slots, x)
      ensures BindSlots(m, views, slots).0[x] == m[x]
    {
      ByteAfterBind(m, views, slots, x);
    }
    BindSucceeds(m, views, slots);
  }

  lemma {:induction false} BindSucceeds(m: seq<byte>, views: seq<View>, slots: seq<Slot>)
    requires CleanSlots(|m|, views, slots)
    ensures BindSlots(m, views, slots).1 == Done(())
    decreases slots
  {
    hide Resolve;
    hide ToLe;
    if slots != [] {
      CleanTail(|m|, views, slots);
      match Bound(views, slots[0])
      case None => BindSucceeds(m, views, slots[1..]);
      case Some(a) => BindSucceeds(Splice(m, slots[0].at, ToLe(a, 8)), views, slots[1..]);
    }
  }

  // ----- By the imports themselves

  /** The program's own words for a slot: function `f` of an import entry `e` of a module `m`. */
  ghost predicate Asks(mods: seq<LoadedModule>, m: LoadedModule, e: ImportEntry, f: ImportFunction) {
    m in mods && GetImports(m.pe).Done? && e in GetImports(m.pe).value && f in e.functions
  }

  /** `s` is the slot of an imported function: its module's physical base plus its address-table RVA. */
  ghost predicate IsSlot(mods: seq<LoadedModule>, s: Slot) {
    exists m, e, f :: Asks(mods, m, e, f) && s == Slot(m.pBase + f.iatRva, Query(e.dll, f.name))
  }

  /** Import slots lie in memory, resolve without a crash and to 64-bit addresses, and no two overlap in part. */
  ghost predicate CleanImports(length: nat, views: seq<View>, mods: seq<LoadedModule>) {
    && (forall s :: IsSlot(mods, s) ==>
          && s.at + 8 <= length && Resolve(views, s.query).Done?
          && (Resolve(views, s.query).value.Some? ==> Resolve(views, s.query).value.value < TWO64))
    && (forall s, t :: IsSlot(mods, s) && IsSlot(mods, t) ==> s == t || s.at + 8 <= t.at || t.at + 8 <= s.at)
  }

  lemma {:induction false} SlotsOfEntries(pBase: nat, es: seq<ImportEntry>, s: Slot)
    ensures s in SlotsOf(pBase, es) <==>
            exists e, f :: e in es && f in e.functions && s == Slot(pBase + f.iatRva, Query(e.dll, f.name))
    decreases es
  {
    if es != [] {
      var e, rest := es[0], es[1..];
      assert forall x :: x in es <==> x == e || x in rest;
      SlotsOfEntries(pBase, rest, s);
      SlotsOfEntry(pBase, e, s);
      hide EntrySlots;
    }
  }

  lemma SlotsOfEntry(pBase: nat, e: ImportEntry, s: Slot)
    ensures s in EntrySlots(pBase, e.dll, e.functions) <==>
            exists f :: f in e.functions && s == Slot(pBase + f.iatRva, Query(e.dll, f.name))
  {
    var slots := EntrySlots(pBase, e.dll, e.functions);
    if f :| f in e.functions && s == Slot(pBase + f.iatRva, Query(e.dll, f.name)) {
      var i :| 0 <= i < |e.functions| && e.functions[i] == f;
      assert slots[i] == s;
    }
  }

  /** The slots bound are those of the imports, no more and no fewer. */
  lemma SlotsAreImports(mods: seq<LoadedModule>, s: Slot)
    requires Parsable(mods)
    ensures s in AllSlots(mods) <==> IsSlot(mods, s)
  {
    hide GetImports, SlotsOf, AllSlots;
    SlotFromModule(mods, s);
    if s in AllSlots(mods) {
      var m :| m in mods && s in SlotsOf(m.pBase, GetImports(m.pe).value);
      SlotsOfEntries(m.pBase, GetImports(m.pe).value, s);
      var e, f :| e in GetImports(m.pe).value && f in e.functions &&
                  s == Slot(m.pBase + f.iatRva, Query(e.dll, f.name));
      assert Asks(mods, m, e, f);
    }
    if IsSlot(mods, s) {
      var m, e, f :| Asks(mods, m, e, f) && s == Slot(m.pBase + f.iatRva, Query(e.dll, f.name));
      SlotsOfEntries(m.pBase, GetImports(m.pe).value, s);
    }
  }

  lemma CleanImportsAreCleanSlots(length: nat, views: seq<View>, mods: seq<LoadedModule>)
    requires Parsable(mods) && CleanImports(length, views, mods)
    ensures CleanSlots(length, views, AllSlots(mods))
  {
    hide AllSlots, Resolve, IsSlot, Parsable;
    forall s | s in AllSlots(mods)
      ensures IsSlot(mods, s)
    {
      SlotsAreImports(mods, s);
    }
  }

  /** The word of an import after binding: what its symbol resolves to, or the old word. */
  ghost predicate HoldsImport(m: seq<byte>, m': seq<byte>, views: seq<View>, at: nat, q: Query) {
    && at + 8 <= |m| == |m'|
    && Word64(m', at) == match Resolve(views, q)
                         case Done(Some(a)) => a
                         case _ => Word64(m, at)
  }

  /** The byte at `x` belongs to an import that resolves. */
  ghost predicate InResolvedImport(views: seq<View>, mods: seq<LoadedModule>, x: nat) {
    exists s :: IsSlot(mods, s) && s.at <= x < s.at + 8
                && Resolve(views, s.query).Done? && Resolve(views, s.query).value.Some?
  }

  /**
   Every imported function of every module: the word at the module's physical base plus the function's
   address-table RVA holds what the symbol resolves to, or is as it was; no other byte changes.
   */
  lemma BindingByImports(m: seq<byte>, views: seq<View>, mods: seq<LoadedModule>)
    requires Parsable(mods) && CleanImports(|m|, views, mods)
    ensures var m' := BindModules(m, views, mods).0;
            && BindModules(m, views, mods).1 == Done(()) && |m'| == |m|
            && (forall mod, e, f :: Asks(mods, mod, e, f) ==>
                  HoldsImport(m, m', views, mod.pBase + f.iatRva, Query(e.dll, f.name)))
            && (forall x :: 0 <= x < |m| && !InResolvedImport(views, mods, x) ==> m'[x] == m[x])
  {
    hide AllSlots, Resolve, Asks, Parsable, BindModules, Word64, CleanSlots;
    var m' := BindModules(m, views, mods).0;
    CleanImportsAreCleanSlots(|m|, views, mods);
    hide CleanImports;
    BindIsExact(m, views, mods);
    forall mod, e, f | Asks(mods, mod, e, f)
      ensures HoldsImport(m, m', views, mod.pBase + f.iatRva, Query(e.dll, f.name))
    {
      ImportBound(m, m', views, mods, mod, e, f);
    }
    forall x | 0 <= x < |m| && !InResolvedImport(views, mods, x)
      ensures m'[x] == m[x]
    {
      NotInSlot(views, mods, x);
    }
  }

  lemma ImportBound(m: seq<byte>, m': seq<byte>, views: seq<View>, mods: seq<LoadedModule>,
                    mod: LoadedModule, e: ImportEntry, f: ImportFunction)
    requires Parsable(mods) && CleanSlots(|m|, views, AllSlots(mods)) && ExactlyBound(m, m', views, AllSlots(mods))
    requires Asks(mods, mod, e, f)
    ensures HoldsImport(m, m', views, mod.pBase + f.iatRva, Query(e.dll, f.name))
  {
    hide AllSlots, Resolve, Asks, Parsable, Word64;
    var s := Slot(mod.pBase + f.iatRva, Query(e.dll, f.name));
    assert IsSlot(mods, s);
    SlotsAreImports(mods, s);
  }

  lemma NotInSlot(views: seq<View>, mods: seq<LoadedModule>, x: nat)
    requires Parsable(mods) && !InResolvedImport(views, mods, x)
    ensures !InBoundSlot(views, AllSlots(mods), x)
  {
    hide AllSlots, Resolve, IsSlot, Parsable;
    forall s | s in AllSlots(mods)
      ensures IsSlot(mods, s)
    {
      SlotsAreImports(mods, s);
    }
  }

  // ----- Order

  lemma {:induction false} SlotFromModule(mods: seq<LoadedModule>, s: Slot)
    requires Parsable(mods)
    ensures s in AllSlots(mods) <==> exists m :: m in mods && s in SlotsOf(m.pBase, GetImports(m.pe).value)
    decreases mods
  {
    hide GetImports;
    hide SlotsOf;
    if mods != [] {
      var first, rest := mods[0], mods[1..];
      assert first in mods && forall m :: m in mods <==> m == first || m in rest;
      SlotFromModule(rest, s);
      assert AllSlots(mods) == SlotsOf(first.pBase, GetImports(first.pe).value) + AllSlots(rest);
    }
  }

  /** Exact binding over the same slots determines memory. */
  lemma ExactIsUnique(m: seq<byte>, m1: seq<byte>, m2: seq<byte>, views: seq<View>, slots: seq<Slot>)
    requires ExactlyBound(m, m1, views, slots) && ExactlyBound(m, m2, views, slots)
    requires forall s :: s in slots ==> s.at + 8 <= |m|
    ensures m1 == m2
  {
    hide Bound;
    hide Word64;
    forall x | 0 <= x < |m|
      ensures m1[x] == m2[x]
    {
      if InBoundSlot(views, slots, x) {
        var s :| s in slots && Bound(views, s).Some? && s.at <= x < s.at + 8;
        assert Word64(m1, s.at) == Word64(m2, s.at);
        Relocation.EqualWords(m1, m2, s.at, x);
      }
    }
  }

  lemma SameResolution(mods: seq<LoadedModule>, mods': seq<LoadedModule>, s: Slot)
    requires Named(mods) && Named(mods') && (forall m :: m in mods <==> m in mods')
    requires DistinctStems(Views(mods)) && DistinctStems(Views(mods'))
    ensures Resolve(Views(mods), s.query) == Resolve(Views(mods'), s.query)
  {
    SameViewsOf(mods, mods');
    hide ResolveFrom;
    hide SameViews;
    hide DistinctStems;
    OrderOfModules(Views(mods), Views(mods'), s.query, 0);
  }

  lemma SameViewsOf(mods: seq<LoadedModule>, mods': seq<LoadedModule>)
    requires Named(mods) && Named(mods') && (forall m :: m in mods <==> m in mods')
    ensures SameViews(Views(mods), Views(mods'))
  {
    hide ViewOf;
    forall v
      ensures v in Views(mods) <==> v in Views(mods')
    {
      if v in Views(mods) {
        var i :| 0 <= i < |mods| && Views(mods)[i] == v;
        assert mods[i] in mods';
        var j :| 0 <= j < |mods'| && mods'[j] == mods[i];
        assert Views(mods')[j] == v;
      }
      if v in Views(mods') {
        var i :| 0 <= i < |mods'| && Views(mods')[i] == v;
        assert mods'[i] in mods;
        var j :| 0 <= j < |mods| && mods[j] == mods'[i];
        assert Views(mods)[j] == v;
      }
    }
  }

  /** Two resolvers with the same slots and the same answers. */
  ghost predicate Agree(views: seq<View>, slots: seq<Slot>, views': seq<View>, slots': seq<Slot>) {
    && (forall s :: s in slots <==> s in slots')
    && (forall s: Slot :: Resolve(views, s.query) == Resolve(views', s.query))
  }

  lemma AgreeIsClean(length: nat, views: seq<View>, slots: seq<Slot>, views': seq<View>, slots': seq<Slot>)
    requires Agree(views, slots, views', slots') && CleanSlots(length, views, slots)
    ensures CleanSlots(length, views', slots')
  {
    hide Resolve;
  }

  lemma AgreeIsExact(m: seq<byte>, m': seq<byte>, views: seq<View>, slots: seq<Slot>,
                     views': seq<View>, slots': seq<Slot>)
    requires Agree(views, slots, views', slots') && ExactlyBound(m, m', views', slots')
    ensures ExactlyBound(m, m', views, slots)
  {
    hide Resolve;
    hide Word64;
    assert forall s :: Bound(views, s) == Bound(views', s);
    hide Bound;
    assert forall x :: InBoundSlot(views, slots, x) <==> InBoundSlot(views', slots', x);
  }

  lemma SameModulesAgree(mods: seq<LoadedModule>, mods': seq<LoadedModule>)
    requires Named(mods) && Named(mods') && Parsable(mods) && (forall x :: x in mods <==> x in mods')
    requires DistinctStems(Views(mods)) && DistinctStems(Views(mods'))
    ensures Agree(Views(mods), AllSlots(mods), Views(mods'), AllSlots(mods'))
  {
    hide Views;
    hide Resolve;
    hide GetImports;
    hide AllSlots;
    hide SlotsOf;
    hide DistinctStems;
    forall s: Slot
      ensures s in AllSlots(mods) <==> s in AllSlots(mods')
      ensures Resolve(Views(mods), s.query) == Resolve(Views(mods'), s.query)
    {
      SlotFromModule(mods, s);
      SlotFromModule(mods', s);
      SameResolution(mods, mods', s);
    }
  }

  /** The same modules in another order bind to the same memory. */
  lemma BindOrderIsIrrelevant(m: seq<byte>, mods: seq<LoadedModule>, mods': seq<LoadedModule>)
    requires Named(mods) && Named(mods') && Parsable(mods) && (forall x :: x in mods <==> x in mods')
    requires DistinctStems(Views(mods)) && DistinctStems(Views(mods'))
    requires CleanSlots(|m|, Views(mods), AllSlots(mods))
    ensures BindModules(m, Views(mods), mods) == BindModules(m, Views(mods'), mods')
  {
    SameModulesAgree(mods, mods');
    var views, views', slots, slots' := Views(mods), Views(mods'), AllSlots(mods), AllSlots(mods');
    InMemory(|m|, views, slots);
    AgreeIsClean(|m|, views, slots, views', slots');
    hide *;
    BindIsExact(m, views, mods);
    ParsableToo(mods, mods');
    BindIsExact(m, views', mods');
    var m1, m2 := BindModules(m, views, mods).0, BindModules(m, views', mods').0;
    AgreeIsExact(m, m2, views, slots, views', slots');
    ExactIsUnique(m, m1, m2, views, slots);
  }

  lemma ParsableToo(mods: seq<LoadedModule>, mods': seq<LoadedModule>)
    requires Parsable(mods) && forall x :: x in mods <==> x in mods'
    ensures Parsable(mods')
  {}

  lemma InMemory(length: nat, views: seq<View>, slots: seq<Slot>)
    requires CleanSlots(length, views, slots)
    ensures forall s :: s in slots ==> s.at + 8 <= length
  {}
}

/** Binding as the guest sees it: the import slots, read through the page tables. */
module GuestBinding {
  import opened Words
  import opened GuestMemory
  import opened PeFile
  import opened PageTables
  import opened Forwarder
  import opened Binding
  import opened Imports
  import Exports
  import PageWalk
  import Windows
  import GuestView
  import LoaderRun
  import Loader

  /** No slot lies in the page tables. */
  ghost predicate ClearOfPaging(slots: seq<Slot>) {
    forall s :: s in slots ==> s.at + 8 <= PAGING || PAGING + PAGING_SIZE <= s.at
  }

  lemma BindingKeepsTables(m: seq<byte>, h: nat, views: seq<View>, mods: seq<LoadedModule>)
    requires h < 512 && TablesBuilt(m, h) && Parsable(mods)
    requires CleanSlots(|m|, views, AllSlots(mods)) && ClearOfPaging(AllSlots(mods))
    ensures TablesBuilt(BindModules(m, views, mods).0, h)
  {
    hide TablesBuilt, BindModules, AllSlots, CleanSlots, Bound, Parsable;
    BindIsExact(m, views, mods);
    var m', slots := BindModules(m, views, mods).0, AllSlots(mods);
    forall x | PAGING <= x < PAGING + PAGING_SIZE && x < |m|
      ensures m'[x] == m[x]
    {
      assert !InBoundSlot(views, slots, x);
    }
    BuiltSize(m, h);
    TablesStayBuilt(m, m', h);
  }

  /** At every slot in the first gigabyte the guest reads the address its symbol resolves to, or the old word. */
  lemma GuestReadsBoundSlots(m: seq<byte>, h: nat, views: seq<View>, mods: seq<LoadedModule>, s: Slot)
    requires h < 512 && TablesBuilt(m, h) && Parsable(mods)
    requires CleanSlots(|m|, views, AllSlots(mods)) && ClearOfPaging(AllSlots(mods))
    requires s in AllSlots(mods) && s.at < PageWalk.SIZE_1G
    ensures s.at + 8 <= |m|
    ensures PageWalk.ReadVirtual(BindModules(m, views, mods).0, CR3, K_VIRT + s.at)
         == match Bound(views, s) case Some(a) => Some(a) case None => Some(Word64(m, s.at))
  {
    hide TablesBuilt, BindModules, AllSlots, Bound, Parsable, PageWalk.Walk, Word64;
    BindIsExact(m, views, mods);
    BindingKeepsTables(m, h, views, mods);
    Windows.KernelWindow(BindModules(m, views, mods).0, h, s.at);
  }

  // ----- By module and import

  /** What an import resolves to, as the guest is to read it. */
  function Expects(m: seq<byte>, views: seq<View>, at: nat, q: Query): Option<nat>
    requires at + 8 <= |m|
  {
    match Resolve(views, q)
    case Done(Some(a)) => Some(a)
    case _ => Some(Word64(m, at))
  }

  /** No import asks for a slot in the page tables. */
  ghost predicate ImportsClearOfPaging(mods: seq<LoadedModule>) {
    forall s :: IsSlot(mods, s) ==> s.at + 8 <= PAGING || PAGING + PAGING_SIZE <= s.at
  }

  lemma SlotsClearOfPaging(mods: seq<LoadedModule>)
    requires Parsable(mods) && ImportsClearOfPaging(mods)
    ensures ClearOfPaging(AllSlots(mods))
  {
    hide AllSlots, Parsable, IsSlot;
    forall s | s in AllSlots(mods)
      ensures IsSlot(mods, s)
    {
      SlotsAreImports(mods, s);
    }
  }

  /** A module in the kernel window: the guest reads the import's address at the virtual base plus the slot's RVA. */
  lemma GuestReadsImports(m: seq<byte>, h: nat, mods: seq<LoadedModule>, mod: LoadedModule,
                          e: ImportEntry, f: ImportFunction)
    requires h < 512 && TablesBuilt(m, h) && Named(mods) && Parsable(mods) && CleanImports(|m|, Views(mods), mods)
    requires ImportsClearOfPaging(mods)
    requires Asks(mods, mod, e, f) && GuestView.InWindow(mod) && mod.pBase + f.iatRva < PageWalk.SIZE_1G
    ensures mod.pBase + f.iatRva + 8 <= |m|
    ensures PageWalk.ReadVirtual(BindModules(m, Views(mods), mods).0, CR3, mod.vBase + f.iatRva)
         == Expects(m, Views(mods), mod.pBase + f.iatRva, Query(e.dll, f.name))
  {
    hide TablesBuilt, BindModules, AllSlots, Parsable, PageWalk.Walk, Word64, Resolve, CleanImports, CleanSlots, Asks;
    hide ImportsClearOfPaging, ClearOfPaging;
    var views, s := Views(mods), Slot(mod.pBase + f.iatRva, Query(e.dll, f.name));
    assert IsSlot(mods, s);
    SlotsAreImports(mods, s);
    CleanImportsAreCleanSlots(|m|, views, mods);
    hide IsSlot;
    SlotsClearOfPaging(mods);
    GuestReadsBoundSlots(m, h, views, mods, s);
  }

  /** The kernel and the HAL are such modules. */
  lemma KernelAndHalInWindow(ms: seq<LoadedModule>, kernel: Loader.Image, hal: Loader.Image, kd: Loader.Image,
                             kdcom: Loader.Image, drivers: seq<LoaderRun.Job>)
    requires LoaderRun.InPlace(ms, kernel, hal, kd, kdcom, KRNL_VBASE, drivers)
    ensures |ms| >= 2 && GuestView.InWindow(ms[0]) && GuestView.InWindow(ms[1])
  {
    hide Loader.Extent;
  }

  /** An import of an unforwarded export leads the guest to the exporting module's base plus the export's RVA. */
  lemma GuestCallsTheExport(m: seq<byte>, h: nat, mods: seq<LoadedModule>, mod: LoadedModule,
                            e: ImportEntry, f: ImportFunction, i: nat, j: nat)
    requires h < 512 && TablesBuilt(m, h) && Named(mods) && Parsable(mods) && CleanImports(|m|, Views(mods), mods)
    requires ImportsClearOfPaging(mods)
    requires Asks(mods, mod, e, f) && GuestView.InWindow(mod) && mod.pBase + f.iatRva < PageWalk.SIZE_1G
    requires FirstNamed(mods, e.dll, i) && Exports.GetExports(mods[i].pe).Done?
    requires FirstEntry(Exports.GetExports(mods[i].pe).value, f.name, j)
    requires Exports.GetExports(mods[i].pe).value[j].forwarder.None?
    ensures PageWalk.ReadVirtual(BindModules(m, Views(mods), mods).0, CR3, mod.vBase + f.iatRva)
         == Some(mods[i].vBase + Exports.GetExports(mods[i].pe).value[j].rva)
  {
    hide TablesBuilt, BindModules, Parsable, PageWalk.Walk, Word64, Resolve, CleanImports, Asks, ImportsClearOfPaging;
    hide Exports.GetExports, SameStem, Serves, Asked;
    GuestReadsImports(m, h, mods, mod, e, f);
    ResolveInModules(mods, Query(e.dll, f.name), i, j);
  }
}

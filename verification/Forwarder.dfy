/** Symbol resolution: a depth-bounded recursion, against unbounded chains of forwarders. */
module Forwarder {
  import opened Words
  import opened Text
  import opened PeFile
  import opened Exports

  const MAX_DEPTH := 10

  /** A module as the resolver sees it: its upper-case stem, its base, and its export index. */
  datatype View = View(stem: string, vBase: nat, exports: Outcome<seq<ExportEntry>>)

  /** The resolver unwraps the stem of every module name it compares. */
  predicate Named(mods: seq<LoadedModule>) {
    forall m :: m in mods ==> FileStem(m.name).Some?
  }

  function ViewOf(m: LoadedModule): View
    requires FileStem(m.name).Some?
  {
    View(Upper(FileStem(m.name).value), m.vBase, GetExports(m.pe))
  }

  function Views(mods: seq<LoadedModule>): (r: seq<View>)
    requires Named(mods)
    ensures |r| == |mods|
    ensures forall i :: 0 <= i < |r| ==> r[i] == ViewOf(mods[i])
  {
    seq(|mods|, i requires 0 <= i < |mods| => ViewOf(mods[i]))
  }

  /** The first module with the given upper-case stem. */
  function FindModule(views: seq<View>, stem: string): (r: Option<nat>)
    ensures r.Some? ==> r.value < |views| && views[r.value].stem == stem
    ensures r.Some? ==> forall j :: 0 <= j < r.value ==> views[j].stem != stem
    ensures r.None? ==> forall j :: 0 <= j < |views| ==> views[j].stem != stem
  {
    if views == [] then None
    else if views[0].stem == stem then Some(0)
    else
      match FindModule(views[1..], stem)
      case None => None
      case Some(i) => Some(i + 1)
  }

  /** How a function is asked for: "#n" by ordinal, anything else by name. */
  function KeyOf(func: string): Option<Key> {
    if func != "" && func[0] == '#' then
      match ParseU16(func[1..])
      case None => None
      case Some(o) => Some(ByOrdinal(o))
    else Some(ByName(func))
  }

  datatype Query = Query(dll: string, func: string)

  /** What one level of the resolver comes to. */
  datatype Hit = Miss | Crash | Address(address: nat) | Forward(owner: nat, entry: nat, next: Query)

  predicate IsForwarding(views: seq<View>, i: nat, j: nat) {
    && i < |views| && views[i].exports.Done?
    && j < |views[i].exports.value| && views[i].exports.value[j].forwarder.Some?
  }

  /** The level's answer from the module at `i`: its export, its forwarder, or nothing. */
  function LookIn(views: seq<View>, i: nat, func: string): (h: Hit)
    requires i < |views|
    ensures h.Forward? ==> IsForwarding(views, h.owner, h.entry)
  {
    match views[i].exports
    case Panic => Crash
    case Fail => Miss
    case Done(es) =>
      match KeyOf(func)
      case None => Miss
      case Some(key) =>
        match FindEntry(es, key)
        case None => Miss
        case Some(j) =>
          match es[j].forwarder
          case None => Address(views[i].vBase + es[j].rva)
          case Some(text) =>
            match SplitOnce(text, '.')
            case None => Miss
            case Some((dll, name)) => Forward(i, j, Query(dll, name))
  }

  function Look(views: seq<View>, q: Query): (h: Hit)
    ensures h.Forward? ==> IsForwarding(views, h.owner, h.entry)
  {
    match FileStem(q.dll)
    case None => Miss
    case Some(stem) =>
      match FindModule(views, Upper(stem))
      case None => Miss
      case Some(i) => LookIn(views, i, q.func)
  }

  /** `resolve_recursive`: at most MAX_DEPTH hops from depth 0. */
  function ResolveFrom(views: seq<View>, q: Query, depth: nat): Outcome<Option<nat>>
    decreases MAX_DEPTH + 1 - depth
  {
    if depth > MAX_DEPTH then Done(None)
    else
      match Look(views, q)
      case Miss => Done(None)
      case Crash => Panic
      case Address(a) => Done(Some(a))
      case Forward(_, _, next) => ResolveFrom(views, next, depth + 1)
  }

  function Resolve(views: seq<View>, q: Query): Outcome<Option<nat>>
  {
    ResolveFrom(views, q, 0)
  }

  // ----- One level, said without the resolver

  /** A DLL is found by its stem, whatever the case. */
  predicate Serves(v: View, dll: string) {
    FileStem(dll).Some? && v.stem == Upper(FileStem(dll).value)
  }

  ghost predicate FirstModule(views: seq<View>, dll: string, i: nat) {
    i < |views| && Serves(views[i], dll) && forall k :: 0 <= k < i ==> !Serves(views[k], dll)
  }

  /** A function is asked for by name, or by number after '#'. */
  predicate Asked(e: ExportEntry, func: string) {
    if func != "" && func[0] == '#' then ParseU16(func[1..]) == Some(e.ordinal) else e.name == func
  }

  ghost predicate FirstEntry(es: seq<ExportEntry>, func: string, j: nat) {
    j < |es| && Asked(es[j], func) && forall k :: 0 <= k < j ==> !Asked(es[k], func)
  }

  /** The query leads to entry `j` of module `i`. */
  ghost predicate Finds(views: seq<View>, q: Query, i: nat, j: nat) {
    FirstModule(views, q.dll, i) && views[i].exports.Done? && FirstEntry(views[i].exports.value, q.func, j)
  }

  /** ... which is the function itself, `rva` bytes into its module, */
  ghost predicate Ends(views: seq<View>, q: Query, a: nat) {
    exists i: nat, j: nat ::
      && Finds(views, q, i, j) && views[i].exports.value[j].forwarder.None?
      && a == views[i].vBase + views[i].exports.value[j].rva
  }

  /** ... or a forwarder "dll.function" to the next query, the DLL ending at the first dot. */
  ghost predicate HopsAt(views: seq<View>, q: Query, i: nat, j: nat, next: Query) {
    && Finds(views, q, i, j)
    && views[i].exports.value[j].forwarder == Some(next.dll + ['.'] + next.func) && '.' !in next.dll
  }

  /** The export parser of the module asked gives up. */
  ghost predicate Crashes(views: seq<View>, q: Query) {
    exists i: nat :: FirstModule(views, q.dll, i) && views[i].exports.Panic?
  }

  ghost predicate Says(views: seq<View>, q: Query, h: Hit) {
    match h
    case Address(a) => Ends(views, q, a)
    case Forward(i, j, next) => HopsAt(views, q, i, j, next)
    case Crash => Crashes(views, q)
    case Miss =>
      && (forall a: nat :: !Ends(views, q, a)) && (forall i: nat, j: nat, next :: !HopsAt(views, q, i, j, next))
      && !Crashes(views, q)
  }

  lemma FindModuleIsFirst(views: seq<View>, dll: string)
    requires FileStem(dll).Some?
    ensures var r := FindModule(views, Upper(FileStem(dll).value));
            forall i: nat :: FirstModule(views, dll, i) <==> r == Some(i)
  {
    hide FileStem, Upper, FindModule;
  }

  lemma FindEntryIsFirst(es: seq<ExportEntry>, func: string)
    ensures match KeyOf(func)
            case None => forall j: nat :: !FirstEntry(es, func, j)
            case Some(key) => forall j: nat :: FirstEntry(es, func, j) <==> FindEntry(es, key) == Some(j)
  {
    hide ParseU16, FindEntry;
    forall e: ExportEntry
      ensures Asked(e, func) <==> KeyOf(func).Some? && Matches(e, KeyOf(func).value)
    {}
  }

  lemma SplitIsJoin(text: string, dll: string, func: string)
    ensures SplitOnce(text, '.') == Some((dll, func)) <==> text == dll + ['.'] + func && '.' !in dll
  {
    hide SplitOnce;
    if text == dll + ['.'] + func && '.' !in dll { SplitOnceOfJoin(dll, '.', func); }
  }

  lemma FoundIsUnique(views: seq<View>, q: Query, i: nat, j: nat, i': nat, j': nat)
    requires Finds(views, q, i, j) && Finds(views, q, i', j')
    ensures i == i' && j == j'
  {
    hide Serves, Asked;
  }

  /** A query has one answer. */
  lemma SaysOnce(views: seq<View>, q: Query, h: Hit, h': Hit)
    requires Says(views, q, h) && Says(views, q, h')
    ensures h == h'
  {
    hide Serves, Asked;
    if h.Forward? && h'.Forward? {
      FoundIsUnique(views, q, h.owner, h.entry, h'.owner, h'.entry);
      var text := views[h.owner].exports.value[h.entry].forwarder.value;
      SplitIsJoin(text, h.next.dll, h.next.func);
      SplitIsJoin(text, h'.next.dll, h'.next.func);
    } else if h.Forward? && !h'.Miss? {
      AnswersExclude(views, q, h', h);
    } else if h'.Forward? && !h.Miss? {
      AnswersExclude(views, q, h, h');
    } else if !h.Miss? && !h'.Miss? {
      TerminalAnswers(views, q, h, h');
    }
  }

  /** What ends does not hop. */
  lemma AnswersExclude(views: seq<View>, q: Query, h: Hit, hop: Hit)
    requires hop.Forward? && Says(views, q, hop) && (h.Address? || h.Crash?)
    ensures !Says(views, q, h)
  {
    hide Serves, Asked;
  }

  lemma TerminalAnswers(views: seq<View>, q: Query, h: Hit, h': Hit)
    requires Says(views, q, h) && Says(views, q, h') && (h.Address? || h.Crash?) && (h'.Address? || h'.Crash?)
    ensures h == h'
  {
    hide Serves, Asked;
    if h.Address? && h'.Address? {
      var i: nat, j: nat :| Finds(views, q, i, j) && views[i].exports.value[j].forwarder.None?
                            && h.address == views[i].vBase + views[i].exports.value[j].rva;
      var i': nat, j': nat :| Finds(views, q, i', j') && views[i'].exports.value[j'].forwarder.None?
                              && h'.address == views[i'].vBase + views[i'].exports.value[j'].rva;
      FoundIsUnique(views, q, i, j, i', j');
    }
  }

  /** What the resolver's level comes to is what the definitions say. */
  lemma LookIsSaid(views: seq<View>, q: Query)
    ensures Says(views, q, Look(views, q))
  {
    hide FileStem, Upper, FindModule, KeyOf, FindEntry, SplitOnce, FirstModule, FirstEntry;
    var h := Look(views, q);
    if FileStem(q.dll).None? {
      NoStem(views, q.dll);
    } else {
      FindModuleIsFirst(views, q.dll);
      var found := FindModule(views, Upper(FileStem(q.dll).value));
      if found.Some? && views[found.value].exports.Done? {
        LookInIsSaid(views, q, found.value);
      }
    }
  }

  lemma NoStem(views: seq<View>, dll: string)
    requires FileStem(dll).None?
    ensures forall i: nat :: !FirstModule(views, dll, i)
  {}

  lemma LookInIsSaid(views: seq<View>, q: Query, i: nat)
    requires i < |views| && FirstModule(views, q.dll, i) && views[i].exports.Done?
    requires forall k: nat :: FirstModule(views, q.dll, k) ==> k == i
    ensures Says(views, q, LookIn(views, i, q.func))
  {
    hide KeyOf, FindEntry, SplitOnce, FirstModule, FirstEntry;
    var es := views[i].exports.value;
    FindEntryIsFirst(es, q.func);
    if KeyOf(q.func).Some? && FindEntry(es, KeyOf(q.func).value).Some? {
      var j := FindEntry(es, KeyOf(q.func).value).value;
      if es[j].forwarder.Some? {
        forall dll: string, func: string
          ensures SplitOnce(es[j].forwarder.value, '.') == Some((dll, func))
             <==> es[j].forwarder.value == dll + ['.'] + func && '.' !in dll
        {
          SplitIsJoin(es[j].forwarder.value, dll, func);
        }
      } else {
        assert Ends(views, q, views[i].vBase + es[j].rva);
      }
    }
  }

  /** One level of the resolver and the definitions agree. */
  lemma LookSays(views: seq<View>, q: Query, h: Hit)
    ensures Says(views, q, h) <==> Look(views, q) == h
  {
    hide Look, Says;
    LookIsSaid(views, q);
    if Says(views, q, h) { SaysOnce(views, q, h, Look(views, q)); }
  }

  // ----- Chains without a bound

  /** From `q`, exactly `n` forwarders lead to a level that answers `h` and does not forward. */
  ghost predicate Chain(views: seq<View>, q: Query, n: nat, h: Hit)
    decreases n
  {
    if n == 0 then !h.Forward? && Says(views, q, h)
    else exists i: nat, j: nat, next :: HopsAt(views, q, i, j, next) && Chain(views, next, n - 1, h)
  }

  lemma ChainByLook(views: seq<View>, q: Query, n: nat, h: Hit)
    ensures Chain(views, q, n, h) <==>
            var hit := Look(views, q);
            if n == 0 then hit == h && !h.Forward? else hit.Forward? && Chain(views, hit.next, n - 1, h)
  {
    hide Look, Finds;
    LookSays(views, q, h);
    var hit := Look(views, q);
    LookIsSaid(views, q);
    if n > 0 {
      forall i: nat, j: nat, next | HopsAt(views, q, i, j, next)
        ensures hit == Forward(i, j, next)
      {
        LookSays(views, q, Forward(i, j, next));
      }
    }
  }

  /** A query ends in one way after one number of hops, if it ends at all. */
  lemma {:induction false} ChainIsUnique(views: seq<View>, q: Query, n: nat, h: Hit, n': nat, h': Hit)
    requires Chain(views, q, n, h) && Chain(views, q, n', h')
    ensures n == n' && h == h'
    decreases n
  {
    hide Chain;
    hide Look;
    ChainByLook(views, q, n, h);
    ChainByLook(views, q, n', h');
    if n > 0 && n' > 0 {
      ChainIsUnique(views, Look(views, q).next, n - 1, h, n' - 1, h');
    }
  }

  function AnswerOf(h: Hit): Outcome<Option<nat>> {
    match h
    case Miss => Done(None)
    case Forward(_, _, _) => Done(None)
    case Crash => Panic
    case Address(a) => Done(Some(a))
  }

  lemma {:induction false} ChainResolves(views: seq<View>, q: Query, n: nat, h: Hit, depth: nat)
    requires Chain(views, q, n, h)
    ensures ResolveFrom(views, q, depth) == if depth + n <= MAX_DEPTH then AnswerOf(h) else Done(None)
    decreases n
  {
    hide Chain;
    hide Look;
    ChainByLook(views, q, n, h);
    if n > 0 && depth <= MAX_DEPTH {
      ChainResolves(views, Look(views, q).next, n - 1, h, depth + 1);
    }
  }

  lemma {:induction false} ResolvedHasChain(views: seq<View>, q: Query, depth: nat) returns (n: nat, h: Hit)
    requires ResolveFrom(views, q, depth) != Done(None)
    ensures Chain(views, q, n, h) && depth + n <= MAX_DEPTH
    decreases MAX_DEPTH + 1 - depth
  {
    hide Chain;
    hide Look;
    var hit := Look(views, q);
    if hit.Forward? {
      n, h := ResolvedHasChain(views, hit.next, depth + 1);
      n := n + 1;
    } else {
      n, h := 0, hit;
    }
    ChainByLook(views, q, n, h);
  }

  /** Soundness and exactness: an address is returned exactly for the chains of at most ten hops that end in it. */
  lemma ResolveIsBoundedChain(views: seq<View>, q: Query, a: nat)
    ensures Resolve(views, q) == Done(Some(a)) <==> exists n: nat :: n <= 10 && Chain(views, q, n, Address(a))
  {
    hide Look;
    if Resolve(views, q) == Done(Some(a)) {
      var n, h := ResolvedHasChain(views, q, 0);
      ChainResolves(views, q, n, h, 0);
    }
    forall n: nat | n <= MAX_DEPTH && Chain(views, q, n, Address(a))
      ensures Resolve(views, q) == Done(Some(a))
    {
      ChainResolves(views, q, n, Address(a), 0);
    }
  }

  // ----- What the resolver answers, case by case

  /** The function found is its module's base plus its RVA; a forwarder is asked with one hop less; else nothing. */
  lemma ResolveStep(views: seq<View>, q: Query, depth: nat)
    requires depth <= MAX_DEPTH
    ensures forall a: nat | Ends(views, q, a) :: ResolveFrom(views, q, depth) == Done(Some(a))
    ensures forall i: nat, j: nat, next | HopsAt(views, q, i, j, next) ::
              ResolveFrom(views, q, depth) == ResolveFrom(views, next, depth + 1)
    ensures Crashes(views, q) ==> ResolveFrom(views, q, depth) == Panic
    ensures Says(views, q, Miss) ==> ResolveFrom(views, q, depth) == Done(None)
  {
    hide Look, Ends, HopsAt, Crashes, Finds;
    forall a: nat | Ends(views, q, a)
      ensures Look(views, q) == Address(a)
    {
      LookSays(views, q, Address(a));
    }
    forall i: nat, j: nat, next | HopsAt(views, q, i, j, next)
      ensures Look(views, q) == Forward(i, j, next)
    {
      LookSays(views, q, Forward(i, j, next));
    }
    LookSays(views, q, Crash);
    LookSays(views, q, Miss);
  }

  /** Module `i` is the first whose file stem is that of `dll`, but for case. */
  ghost predicate FirstNamed(mods: seq<LoadedModule>, dll: string, i: nat)
    requires Named(mods)
  {
    && i < |mods| && FileStem(dll).Some? && SameStem(mods, dll, i)
    && forall k :: 0 <= k < i ==> !SameStem(mods, dll, k)
  }

  predicate SameStem(mods: seq<LoadedModule>, dll: string, i: nat)
    requires i < |mods| && Named(mods) && FileStem(dll).Some?
  {
    Upper(FileStem(mods[i].name).value) == Upper(FileStem(dll).value)
  }

  /** For loaded modules: the answer is the module's virtual base plus the RVA its export parser found. */
  lemma ResolveInModules(mods: seq<LoadedModule>, q: Query, i: nat, j: nat)
    requires Named(mods) && FirstNamed(mods, q.dll, i) && GetExports(mods[i].pe).Done?
    requires FirstEntry(GetExports(mods[i].pe).value, q.func, j)
    ensures var e := GetExports(mods[i].pe).value[j];
            match e.forwarder
            case None => Resolve(Views(mods), q) == Done(Some(mods[i].vBase + e.rva))
            case Some(text) =>
              forall dll: string, func: string | text == dll + ['.'] + func && '.' !in dll ::
                Resolve(Views(mods), q) == ResolveFrom(Views(mods), Query(dll, func), 1)
  {
    hide GetExports, Asked, FileStem, Upper, SameStem, Serves, ResolveFrom;
    var views, e := Views(mods), GetExports(mods[i].pe).value[j];
    ServesInModules(mods, q.dll, i);
    assert Finds(views, q, i, j);
    ResolveStep(views, q, 0);
    if e.forwarder.None? {
      assert Ends(views, q, mods[i].vBase + e.rva);
    } else {
      forall dll: string, func: string | e.forwarder.value == dll + ['.'] + func && '.' !in dll
        ensures HopsAt(views, q, i, j, Query(dll, func))
      {}
    }
  }

  lemma ServesInModules(mods: seq<LoadedModule>, dll: string, i: nat)
    requires Named(mods) && FirstNamed(mods, dll, i)
    ensures FirstModule(Views(mods), dll, i)
  {
    hide GetExports, FileStem, Upper;
    forall k | 0 <= k <= i
      ensures Serves(Views(mods)[k], dll) <==> SameStem(mods, dll, k)
    {
      assert Views(mods)[k] == ViewOf(mods[k]);
      assert mods[k] in mods;
    }
  }

  lemma FoundIsFirstNamed(mods: seq<LoadedModule>, dll: string)
    requires Named(mods) && FileStem(dll).Some?
    ensures var found := FindModule(Views(mods), Upper(FileStem(dll).value));
            found.Some? ==> FirstNamed(mods, dll, found.value)
  {
    hide GetExports, FileStem, Upper, FindModule;
    forall k | 0 <= k < |mods|
      ensures Views(mods)[k].stem == Upper(FileStem(mods[k].name).value)
    {
      assert Views(mods)[k] == ViewOf(mods[k]);
      assert mods[k] in mods;
    }
  }

  /** Without a module of that stem, nothing. */
  lemma UnknownModule(mods: seq<LoadedModule>, q: Query)
    requires Named(mods) && forall i: nat :: !FirstNamed(mods, q.dll, i)
    ensures Resolve(Views(mods), q) == Done(None)
  {
    hide GetExports, FileStem, Upper, FindModule, FirstNamed;
    if FileStem(q.dll).Some? { FoundIsFirstNamed(mods, q.dll); }
  }

  /** Without such an entry, nothing. */
  lemma UnknownFunction(mods: seq<LoadedModule>, q: Query, i: nat)
    requires Named(mods) && FirstNamed(mods, q.dll, i) && GetExports(mods[i].pe).Done?
    requires forall j: nat :: !FirstEntry(GetExports(mods[i].pe).value, q.func, j)
    ensures Resolve(Views(mods), q) == Done(None)
  {
    hide GetExports, FirstEntry, FileStem, Upper, SameStem, Serves, ResolveFrom;
    ServesInModules(mods, q.dll, i);
    assert mods[i] in mods && Views(mods)[i] == ViewOf(mods[i]);
    NothingFound(Views(mods), q, i);
    ResolveStep(Views(mods), q, 0);
  }

  lemma NothingFound(views: seq<View>, q: Query, i: nat)
    requires FirstModule(views, q.dll, i) && views[i].exports.Done?
    requires forall j: nat :: !FirstEntry(views[i].exports.value, q.func, j)
    ensures Says(views, q, Miss)
  {
    hide Serves, FirstEntry;
    forall k: nat | FirstModule(views, q.dll, k)
      ensures k == i
    {}
  }

  // ----- Cycles

  /** The query after `n` forwarders, if the chain is that long. */
  function After(views: seq<View>, q: Query, n: nat): Option<Query>
    decreases n
  {
    if n == 0 then Some(q)
    else
      var hit := Look(views, q);
      if hit.Forward? then After(views, hit.next, n - 1) else None
  }

  lemma {:induction false} ChainAfter(views: seq<View>, q: Query, k: nat, n: nat, h: Hit)
    requires After(views, q, k).Some? && Chain(views, q, n, h)
    ensures k <= n && Chain(views, After(views, q, k).value, n - k, h)
    decreases k
  {
    hide Chain;
    hide Look;
    ChainByLook(views, q, n, h);
    if k > 0 { ChainAfter(views, Look(views, q).next, k - 1, n - 1, h); }
  }

  /** A forwarder cycle resolves to nothing, wherever it is entered. */
  lemma CyclesGiveNothing(views: seq<View>, q: Query, i: nat, j: nat)
    requires i < j
    requires After(views, q, i).Some? && After(views, q, j) == After(views, q, i)
    ensures Resolve(views, q) == Done(None)
    ensures forall n: nat, h :: !Chain(views, q, n, h)
  {
    hide Look, Chain, After;
    forall n: nat, h | Chain(views, q, n, h)
      ensures false
    {
      ChainAfter(views, q, i, n, h);
      ChainAfter(views, q, j, n, h);
      ChainIsUnique(views, After(views, q, i).value, n - i, h, n - j, h);
    }
    if Resolve(views, q) != Done(None) {
      var n, h := ResolvedHasChain(views, q, 0);
      assert false;
    }
  }

  // ----- The bound against the number of forwarders

  function ExportCount(v: View): nat {
    if v.exports.Done? then |v.exports.value| else 0
  }

  /** The exports that forward, as (module, entry) positions. */
  ghost function Forwarders(views: seq<View>): set<(nat, nat)> {
    set i: nat, j: nat | i < |views| && j < ExportCount(views[i]) && IsForwarding(views, i, j) :: (i, j)
  }

  /** The forwarding exports a chain passes through. */
  ghost function Visited(views: seq<View>, q: Query, n: nat): set<(nat, nat)>
    decreases n
  {
    var hit := Look(views, q);
    if n == 0 || !hit.Forward? then {} else {(hit.owner, hit.entry)} + Visited(views, hit.next, n - 1)
  }

  /** An export's forwarder names the next query on its own. */
  ghost function NextOf(views: seq<View>, i: nat, j: nat): Query
    requires IsForwarding(views, i, j)
  {
    match SplitOnce(views[i].exports.value[j].forwarder.value, '.')
    case None => Query("", "")
    case Some((dll, name)) => Query(dll, name)
  }

  lemma LookGoesNext(views: seq<View>, q: Query)
    requires Look(views, q).Forward?
    ensures var h := Look(views, q); h.next == NextOf(views, h.owner, h.entry)
  {
    hide FileStem;
    hide KeyOf;
  }

  /** Every export a chain visits has a strictly shorter chain behind it. */
  lemma {:induction false} VisitedIsBehind(views: seq<View>, q: Query, n: nat, h: Hit, p: (nat, nat))
    requires Chain(views, q, n, h) && p in Visited(views, q, n)
    ensures IsForwarding(views, p.0, p.1)
    ensures exists k: nat :: k < n && Chain(views, NextOf(views, p.0, p.1), k, h)
    decreases n
  {
    hide Chain;
    hide Look;
    ChainByLook(views, q, n, h);
    var hit := Look(views, q);
    LookGoesNext(views, q);
    if p == (hit.owner, hit.entry) {
      assert Chain(views, NextOf(views, p.0, p.1), n - 1, h);
    } else {
      VisitedIsBehind(views, hit.next, n - 1, h, p);
    }
  }

  /** The export a query forwards through is not met again behind it. */
  lemma NotMetAgain(views: seq<View>, q: Query, n: nat, h: Hit)
    requires n > 0 && Chain(views, q, n, h)
    ensures var hit := Look(views, q); (hit.owner, hit.entry) !in Visited(views, hit.next, n - 1)
  {
    hide Chain;
    hide Look, IsForwarding, NextOf;
    ChainByLook(views, q, n, h);
    var hit := Look(views, q);
    LookGoesNext(views, q);
    hide Visited;
    if (hit.owner, hit.entry) in Visited(views, hit.next, n - 1) {
      VisitedIsBehind(views, hit.next, n - 1, h, (hit.owner, hit.entry));
      var k: nat :| k < n - 1 && Chain(views, NextOf(views, hit.owner, hit.entry), k, h);
      ChainIsUnique(views, hit.next, n - 1, h, k, h);
      assert false;
    }
  }

  /** A chain that ends never meets the same export twice: it visits as many as it has hops. */
  lemma {:induction false} VisitedCount(views: seq<View>, q: Query, n: nat, h: Hit)
    requires Chain(views, q, n, h)
    ensures |Visited(views, q, n)| == n && Visited(views, q, n) <= Forwarders(views)
    decreases n
  {
    hide Chain;
    hide Look, IsForwarding, Forwarders;
    ChainByLook(views, q, n, h);
    if n > 0 {
      var hit := Look(views, q);
      VisitedCount(views, hit.next, n - 1, h);
      NotMetAgain(views, q, n, h);
      ForwardersHas(views, hit.owner, hit.entry);
    }
  }

  lemma ForwardersHas(views: seq<View>, i: nat, j: nat)
    requires IsForwarding(views, i, j)
    ensures (i, j) in Forwarders(views)
  {
  }

  lemma CardinalityOfSubset<T>(a: set<T>, b: set<T>)
    requires a <= b
    ensures |a| <= |b|
  {
    assert b == a + (b - a);
  }

  /** Pigeonhole: with at most ten forwarding exports in all modules together, the bound never bites. */
  lemma BoundIsExact(views: seq<View>, q: Query, a: nat)
    requires |Forwarders(views)| <= 10
    ensures Resolve(views, q) == Done(Some(a)) <==> exists n: nat :: Chain(views, q, n, Address(a))
  {
    hide Look;
    hide Forwarders;
    ResolveIsBoundedChain(views, q, a);
    forall n: nat | Chain(views, q, n, Address(a))
      ensures n <= MAX_DEPTH
    {
      VisitedCount(views, q, n, Address(a));
      CardinalityOfSubset(Visited(views, q, n), Forwarders(views));
    }
  }

  /** In general the bounded answer is wrong exactly for the chains longer than the bound. */
  lemma BoundBites(views: seq<View>, q: Query, n: nat, a: nat)
    requires Chain(views, q, n, Address(a))
    ensures Resolve(views, q) == if n <= 10 then Done(Some(a)) else Done(None)
  {
    ChainResolves(views, q, n, Address(a), 0);
  }

  // ----- Chains of any length

  /** The name of the i-th function of the chain. */
  function Xs(i: nat): string { seq(i, _ => 'x') }

  /** The i-th of n + 1 exports: all but the last forward to the next one in the same module. */
  function Relay(i: nat, n: nat): ExportEntry {
    ExportEntry(Xs(i), 1, 0, if i < n then Some("m" + ['.'] + Xs(i + 1)) else None)
  }

  const RELAY_BASE := 0xFFFF_F800_4000_0000

  /** One module whose exports forward one to the next, `n` times. */
  function Relays(n: nat): seq<View> {
    [View("M", RELAY_BASE, Done(seq(n + 1, i requires 0 <= i < n + 1 => Relay(i, n))))]
  }

  lemma ModuleM()
    ensures FileStem("m") == Some("m") && Upper("m") == "M"
  {
    PlainFileName("m");
    assert LastIndex("m", '.') == -1;
  }

  lemma FindRelay(n: nat, i: nat)
    requires i <= n
    ensures FindEntry(Relays(n)[0].exports.value, ByName(Xs(i))) == Some(i)
  {
    var es := Relays(n)[0].exports.value;
    var r := FindEntry(es, ByName(Xs(i)));
    assert Matches(es[i], ByName(Xs(i)));
    if r.Some? { assert |es[r.value].name| == r.value && |Xs(i)| == i; }
  }

  lemma LookAtRelay(n: nat, i: nat)
    requires i <= n
    ensures Look(Relays(n), Query("m", Xs(i))) ==
            if i < n then Forward(0, i, Query("m", Xs(i + 1))) else Address(RELAY_BASE + 1)
  {
    hide FileStem, FindEntry, SplitOnce, Upper;
    ModuleM();
    FindRelay(n, i);
    SplitOnceOfJoin("m", '.', Xs(i + 1));
    assert FindModule(Relays(n), "M") == Some(0);
    assert KeyOf(Xs(i)) == Some(ByName(Xs(i)));
  }

  lemma {:induction false} ChainOfRelays(n: nat, i: nat)
    requires i <= n
    ensures Chain(Relays(n), Query("m", Xs(i)), n - i, Address(RELAY_BASE + 1))
    decreases n - i
  {
    hide Chain;
    hide Look, Relays;
    ChainByLook(Relays(n), Query("m", Xs(i)), n - i, Address(RELAY_BASE + 1));
    LookAtRelay(n, i);
    if i < n { ChainOfRelays(n, i + 1); }
  }

  ghost function FirstPairs(n: nat): (r: set<(nat, nat)>)
    ensures |r| == n && forall i: nat, j: nat :: (i, j) in r <==> i == 0 && j < n
  {
    if n == 0 then {} else FirstPairs(n - 1) + {(0, n - 1)}
  }

  lemma ForwardersOfRelays(n: nat)
    ensures |Forwarders(Relays(n))| == n
  {
    forall p: (nat, nat)
      ensures p in Forwarders(Relays(n)) <==> p in FirstPairs(n)
    {
      assert p == (p.0, p.1);
      assert p in Forwarders(Relays(n)) <==> p.0 == 0 && p.1 < n + 1 && Relay(p.1, n).forwarder.Some?;
    }
    assert Forwarders(Relays(n)) == FirstPairs(n);
  }

  /**
   The bound bites: for every n above it there is a module with exactly n forwarding exports whose chain
   of n hops ends in an address, and the resolver finds nothing. Eleven forwarders are enough.
   */
  lemma LongChainIsLost(n: nat)
    requires n > 10
    ensures var q := Query("m", Xs(0));
            && Chain(Relays(n), q, n, Address(RELAY_BASE + 1)) && |Forwarders(Relays(n))| == n
            && Resolve(Relays(n), q) == Done(None)
  {
    hide Chain, Resolve, Relays, Forwarders, Xs;
    ChainOfRelays(n, 0);
    ForwardersOfRelays(n);
    BoundBites(Relays(n), Query("m", Xs(0)), n, RELAY_BASE + 1);
  }

  // ----- The module list's order

  ghost predicate DistinctStems(views: seq<View>) {
    forall i, j :: 0 <= i < j < |views| ==> views[i].stem != views[j].stem
  }

  ghost predicate SameViews(views: seq<View>, views': seq<View>) {
    forall v :: v in views <==> v in views'
  }

  lemma SameModule(views: seq<View>, views': seq<View>, stem: string)
    requires DistinctStems(views) && DistinctStems(views')
    requires SameViews(views, views')
    ensures FindModule(views, stem).Some? <==> FindModule(views', stem).Some?
    ensures FindModule(views, stem).Some? ==>
              views[FindModule(views, stem).value] == views'[FindModule(views', stem).value]
  {
    hide FindModule;
    var r, r' := FindModule(views, stem), FindModule(views', stem);
    if r.Some? {
      assert views[r.value] in views';
    }
    if r'.Some? {
      assert views'[r'.value] in views;
    }
  }

  /** With distinct stems, resolution does not depend on the order of the modules. */
  lemma {:induction false} OrderOfModules(views: seq<View>, views': seq<View>, q: Query, depth: nat)
    requires DistinctStems(views) && DistinctStems(views')
    requires SameViews(views, views')
    ensures ResolveFrom(views, q, depth) == ResolveFrom(views', q, depth)
    decreases MAX_DEPTH + 1 - depth
  {
    hide Look;
    hide SameViews;
    hide DistinctStems;
    if depth <= MAX_DEPTH {
      SameLook(views, views', q);
      var h := Look(views, q);
      if h.Forward? {
        OrderOfModules(views, views', h.next, depth + 1);
        assert Look(views', q).Forward? && Look(views', q).next == h.next;
      } else {
        assert Look(views', q) == h;
      }
    }
  }

  lemma SameLook(views: seq<View>, views': seq<View>, q: Query)
    requires DistinctStems(views) && DistinctStems(views')
    requires SameViews(views, views')
    ensures var h, h' := Look(views, q), Look(views', q);
            h == h' || (h.Forward? && h'.Forward? && h.next == h'.next)
  {
    hide FindModule;
    hide FileStem;
    hide KeyOf;
    hide FindEntry;
    hide SplitOnce;
    if FileStem(q.dll).Some? {
      SameModule(views, views', Upper(FileStem(q.dll).value));
    }
  }

  /** An ordinal import, printed as "#n" by the import parser, is looked up by ordinal n. */
  lemma OrdinalImportsKeepOrdinal(n: u16)
    ensures KeyOf("#" + Decimal(n)) == Some(ByOrdinal(n))
  {
    ParseOfDecimal(n);
    assert ("#" + Decimal(n))[1..] == Decimal(n);
  }
}

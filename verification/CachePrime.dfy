/** `prime`: copy store entries into a working directory and merge their records, keeping the registry coherent. */
module CachePrime {
  import opened Wrappers
  import opened Graphs
  import opened CacheRecords
  import opened CacheInvalidation
  import opened CacheDirectory
  import opened CacheExport
  import opened CacheMerge

  // ----- which entries are primed, and when a copy fails

  predicate Forced(recompute: seq<string>, m: string) {
    "*" in recompute || m in recompute
  }

  /** The entries that `prime` copies, in its order: by module, each once, none that has a result already. */
  function PrimeOrder(results: map<Entry, File>, store: map<Entry, File>, modules: seq<string>, recompute: seq<string>): seq<Entry> {
    if modules == [] then []
    else
      var m := modules[|modules| - 1];
      var list := PrimeOrder(results, store, modules[..|modules| - 1], recompute);
      if Forced(recompute, m) then list else list + Fresh(FindStageEntries(store, m), results.Keys + Elements(list))
  }

  lemma OrderStep(results: map<Entry, File>, store: map<Entry, File>, modules: seq<string>, recompute: seq<string>, i: nat)
    requires i < |modules|
    ensures var list := PrimeOrder(results, store, modules[..i], recompute);
            PrimeOrder(results, store, modules[..i + 1], recompute)
            == if Forced(recompute, modules[i]) then list
               else list + Fresh(FindStageEntries(store, modules[i]), results.Keys + Elements(list))
  {
    assert modules[..i + 1][..i] == modules[..i];
  }

  lemma {:induction false} OrderPrefix(results: map<Entry, File>, store: map<Entry, File>, modules: seq<string>, recompute: seq<string>, i: nat)
    requires i <= |modules|
    ensures PrimeOrder(results, store, modules[..i], recompute) <= PrimeOrder(results, store, modules, recompute)
    decreases |modules| - i
  {
    if i < |modules| {
      OrderStep(results, store, modules, recompute, i);
      OrderPrefix(results, store, modules, recompute, i + 1);
    } else {
      assert modules[..i] == modules;
    }
  }

  /** `e` is in the store and owned by a requested module that is not forced. */
  ghost predicate Offered(store: Contents, modules: seq<string>, recompute: seq<string>, e: Entry) {
    e in store.results && exists m :: m in modules && !Forced(recompute, m) && BelongsTo(e, m)
  }

  /** `e` is to be primed: offered, and without a result yet. */
  ghost predicate ToPrime(before: Contents, store: Contents, modules: seq<string>, recompute: seq<string>, e: Entry) {
    Offered(store, modules, recompute, e) && e !in before.results
  }

  lemma OfferedStep(store: Contents, modules: seq<string>, recompute: seq<string>, m: string)
    ensures forall e :: Offered(store, modules + [m], recompute, e) <==>
      Offered(store, modules, recompute, e) || (!Forced(recompute, m) && e in store.results && BelongsTo(e, m))
  {
    forall e ensures Offered(store, modules + [m], recompute, e) <==>
      Offered(store, modules, recompute, e) || (!Forced(recompute, m) && e in store.results && BelongsTo(e, m))
    {
      assert m in modules + [m];
      if x :| x in modules && !Forced(recompute, x) && BelongsTo(e, x) { assert x in modules + [m]; }
    }
  }

  /** Spelled out: unless everything is recomputed, the store's entries without a result here, of the modules that are not. */
  lemma ToPrimeSpelledOut(before: Contents, store: Contents, modules: seq<string>, recompute: seq<string>, e: Entry)
    ensures ToPrime(before, store, modules, recompute, e) <==>
      && "*" !in recompute && e in store.results && e !in before.results
      && exists m :: m in modules && m !in recompute && m + "__" <= e
  {
  }

  /** The order lists exactly the entries to be primed, each once. */
  lemma {:induction false} OrderIsToPrime(before: Contents, store: Contents, modules: seq<string>, recompute: seq<string>)
    ensures forall e :: e in PrimeOrder(before.results, store.results, modules, recompute) <==> ToPrime(before, store, modules, recompute, e)
    ensures NoDup(PrimeOrder(before.results, store.results, modules, recompute))
    decreases |modules|
  {
    if modules != [] {
      var most, m := modules[..|modules| - 1], modules[|modules| - 1];
      var list := PrimeOrder(before.results, store.results, most, recompute);
      var known := before.results.Keys + Elements(list);
      assert modules == most + [m];
      OrderIsToPrime(before, store, most, recompute);
      OfferedStep(store, most, recompute, m);
      FoundOnce(store.results, m);
      FreshMembers(FindStageEntries(store.results, m), known);
      FreshAppends(list, FindStageEntries(store.results, m), known);
    }
  }

  lemma FreshAppends(list: seq<Entry>, entries: seq<Entry>, known: set<Entry>)
    requires NoDup(list) && NoDup(Fresh(entries, known)) && Elements(list) <= known
    requires forall e :: e in Fresh(entries, known) ==> e !in known
    ensures NoDup(list + Fresh(entries, known))
  {
    var all := list + Fresh(entries, known);
    forall i, j | 0 <= i < j < |all| ensures all[i] != all[j] {
      if i < |list| <= j { assert list[i] in Elements(list) && Fresh(entries, known)[j - |list|] !in known; }
    }
  }

  /** Some step of copying `e` raises. */
  predicate CopyFails(before: Contents, store: Contents, faults: set<Step>, e: Entry) {
    || StagingFails(ArtifactsOf(store, e), faults)
    || PublicationFails(ArtifactsOf(before, e), ArtifactsOf(store, e), faults)
  }

  lemma CopyFailsIff(before: Contents, store: Contents, faults: set<Step>, e: Entry)
    ensures CopyFails(before, store, faults, e) <==>
            || e !in store.results
            || exists step :: step in NeededSteps(ArtifactsOf(before, e), ArtifactsOf(store, e)) && step in faults
  {
    FailsIffNeededStepDoes(ArtifactsOf(before, e), ArtifactsOf(store, e), faults);
  }

  predicate AllCopy(before: Contents, store: Contents, faults: Entry -> set<Step>, list: seq<Entry>) {
    forall e :: e in list ==> !CopyFails(before, store, faults(e), e)
  }

  /** `primed` is what was copied before the first failing entry of `order`. */
  predicate Stopped(before: Contents, store: Contents, faults: Entry -> set<Step>, order: seq<Entry>, primed: seq<Entry>) {
    && primed <= order && |primed| < |order|
    && AllCopy(before, store, faults, primed)
    && CopyFails(before, store, faults(order[|primed|]), order[|primed|])
  }

  lemma StoppedInLonger(before: Contents, store: Contents, faults: Entry -> set<Step>, order: seq<Entry>, longer: seq<Entry>, primed: seq<Entry>)
    requires Stopped(before, store, faults, order, primed) && order <= longer
    ensures Stopped(before, store, faults, longer, primed) && longer[|primed|] == order[|primed|]
    ensures !AllCopy(before, store, faults, longer)
  {
    assert longer[|primed|] in longer;
  }

  // ----- the state between two copies

  /** Result and cache of an entry once those of `primed` are copied. */
  function FilesOf(before: Contents, store: Contents, primed: set<Entry>, e: Entry): Artifacts {
    if e in primed then Published(ArtifactsOf(before, e), ArtifactsOf(store, e)) else ArtifactsOf(before, e)
  }

  /** Result and cache of the primed entries are the store's, all others untouched. */
  ghost predicate FilesPrimed(before: Contents, work: Contents, store: Contents, primed: set<Entry>) {
    && (forall e :: ArtifactsOf(work, e) == FilesOf(before, store, primed, e))
    && forall e :: e in primed ==> e in store.results && e !in before.results
  }

  /** Everything the loop over the entries keeps. */
  ghost predicate Priming(before: Contents, work: Contents, store: Contents, records: Registry, list: seq<Entry>,
                          share: bool, environment: string) {
    && FilesPrimed(before, work, store, Elements(list))
    && work.sidecars == before.sidecars
    && if share then
         && records == MergedWith(before.pipeline, store, environment, list)
         && work.pipeline == OnDisk(before.pipeline, store, environment, list)
       else work.pipeline == before.pipeline
  }

  /** What a failing copy of `e` leaves; the files of `e` itself are those of before if the roll-back completed. */
  ghost predicate Halted(before: Contents, work: Contents, store: Contents, list: seq<Entry>, share: bool, environment: string, e: Entry) {
    && (forall x :: x != e ==> ArtifactsOf(work, x) == FilesOf(before, store, Elements(list), x))
    && work.sidecars == before.sidecars
    && work.pipeline == if share then DiskAt(before.pipeline, store, environment, list, e) else before.pipeline
  }

  /** A result is visible in the working directory when it was there before or has been primed. */
  lemma PresentOrPrimed(before: Contents, work: Contents, store: Contents, primed: set<Entry>, e: Entry)
    requires FilesPrimed(before, work, store, primed)
    ensures e in work.results <==> e in before.results || e in primed
    ensures e !in work.results ==> ArtifactsOf(work, e) == ArtifactsOf(before, e)
  {
    assert ArtifactsOf(work, e) == FilesOf(before, store, primed, e);
  }

  /** A leftover record must not validate a partial copy: pop it, check its descendants and write the registry. */
  method PopLeftover(work: Directory, metadata: Metadata, e: Entry)
    requires e in metadata.records
    modifies work`pipeline, metadata
    ensures metadata.records == AfterPop(old(metadata.records), e)
    ensures work.pipeline == metadata.records
  {
    metadata.records := metadata.records - {e};
    var removed, counts := metadata.DropIncoherent([e], map[]);
    assert Elements([e]) == {e};
    work.pipeline := metadata.records;
  }

  /** Attach the store's record, if it is compatible, to the copied entry. */
  method AttachRecord(store: Directory, metadata: Metadata, e: Entry, environment: string)
    requires e !in metadata.records
    modifies metadata
    ensures metadata.records == Added(old(metadata.records), e, RecordFor(store.View(), e, environment))
  {
    metadata.records := metadata.records - {e};
    if Compatible(store.View(), e, environment) {
      metadata.records := metadata.records[e := store.sidecars[e].metadata.value];
    }
  }

  /** The state right before the copy: whatever was left over for `e` has been popped. */
  ghost predicate ReadyToCopy(before: Contents, work: Contents, store: Contents, records: Registry, list: seq<Entry>,
                              share: bool, environment: string, e: Entry) {
    && FilesPrimed(before, work, store, Elements(list))
    && work.sidecars == before.sidecars
    && if share then
         && records == Cleared(MergedWith(before.pipeline, store, environment, list), e)
         && work.pipeline == DiskAt(before.pipeline, store, environment, list, e)
       else work.pipeline == before.pipeline
  }

  lemma SameFilesPrimed(before: Contents, last: Contents, work: Contents, store: Contents, primed: set<Entry>)
    requires FilesPrimed(before, last, store, primed)
    requires forall x :: ArtifactsOf(work, x) == ArtifactsOf(last, x)
    ensures FilesPrimed(before, work, store, primed)
  {
    forall e ensures ArtifactsOf(work, e) == FilesOf(before, store, primed, e) {
      assert ArtifactsOf(last, e) == FilesOf(before, store, primed, e);
    }
  }

  lemma PoppedIsReady(before: Contents, last: Contents, work: Contents, store: Contents, records: Registry, list: seq<Entry>,
                      environment: string, e: Entry)
    requires Priming(before, last, store, records, list, true, environment)
    requires work == if e in records then last.(pipeline := AfterPop(records, e)) else last
    ensures ReadyToCopy(before, work, store, Cleared(records, e), list, true, environment, e)
  {
    forall x ensures ArtifactsOf(work, x) == ArtifactsOf(last, x) {}
    SameFilesPrimed(before, last, work, store, Elements(list));
  }

  lemma CopiedIsPriming(before: Contents, last: Contents, work: Contents, store: Contents, records: Registry, list: seq<Entry>,
                        share: bool, environment: string, e: Entry)
    requires ReadyToCopy(before, last, store, records, list, share, environment, e)
    requires e in store.results && e !in last.results
    requires work.sidecars == last.sidecars && work.pipeline == last.pipeline
    requires ArtifactsOf(work, e) == Published(ArtifactsOf(last, e), ArtifactsOf(store, e))
    requires forall x :: x != e ==> ArtifactsOf(work, x) == ArtifactsOf(last, x)
    ensures Priming(before, work, store, if share then Added(records, e, RecordFor(store, e, environment)) else records,
                    list + [e], share, environment)
  {
    PresentOrPrimed(before, last, store, Elements(list), e);
    ElementsStep(list, e);
    MergedStep(before.pipeline, store, environment, list, e);
    forall x ensures ArtifactsOf(work, x) == FilesOf(before, store, Elements(list + [e]), x) {
      assert ArtifactsOf(last, x) == FilesOf(before, store, Elements(list), x);
    }
  }

  lemma FailedIsHalted(before: Contents, last: Contents, work: Contents, store: Contents, records: Registry, list: seq<Entry>,
                       share: bool, environment: string, e: Entry)
    requires ReadyToCopy(before, last, store, records, list, share, environment, e)
    requires work.sidecars == last.sidecars && work.pipeline == last.pipeline
    requires forall x :: x != e ==> ArtifactsOf(work, x) == ArtifactsOf(last, x)
    ensures Halted(before, work, store, list, share, environment, e)
  {
    forall x | x != e ensures ArtifactsOf(work, x) == FilesOf(before, store, Elements(list), x) {
      assert ArtifactsOf(last, x) == FilesOf(before, store, Elements(list), x);
    }
  }

  /** Prime one entry that has no result yet. */
  method PrimeEntry(work: Directory, store: Directory, metadata: Metadata, e: Entry, share: bool, environment: string,
                    faults: set<Step>, ghost before: Contents, ghost list: seq<Entry>) returns (outcome: CopyOutcome)
    requires work != store && e in store.results && e !in work.results
    requires Priming(before, work.View(), store.View(), metadata.records, list, share, environment)
    modifies work`results, work`caches, work`pipeline, metadata
    ensures outcome == Copied <==> !CopyFails(before, store.View(), faults, e)
    ensures outcome == Copied ==> Priming(before, work.View(), store.View(), metadata.records, list + [e], share, environment)
    ensures outcome != Copied ==> Halted(before, work.View(), store.View(), list, share, environment, e)
    ensures outcome == RolledBack ==> ArtifactsOf(work.View(), e) == ArtifactsOf(before, e)
    ensures outcome == RollbackFailed ==> RollbackMayFail(faults)
  {
    ghost var entered, records := work.View(), metadata.records;
    PresentOrPrimed(before, entered, store.View(), Elements(list), e);
    if share && e in metadata.records { PopLeftover(work, metadata, e); }
    ghost var last, trace := work.View(), [];
    if share { PoppedIsReady(before, entered, last, store.View(), records, list, environment, e); }
    assert ReadyToCopy(before, last, store.View(), metadata.records, list, share, environment, e);
    assert ArtifactsOf(last, e) == ArtifactsOf(before, e);
    outcome, trace := work.CopyEntry(store, e, faults);
    if outcome == Copied {
      CopiedIsPriming(before, last, work.View(), store.View(), metadata.records, list, share, environment, e);
      if share {
        AttachRecord(store, metadata, e, environment);
      }
    } else {
      FailedIsHalted(before, last, work.View(), store.View(), metadata.records, list, share, environment, e);
    }
  }

  // ----- the report

  datatype PrimeReport = PrimeReport(
    primed: seq<Entry>, skippedPresent: seq<Entry>, forced: seq<string>, missingInStore: seq<string>)

  /** What the report says about the modules and entries it was given. */
  ghost predicate ReportsPrime(before: Contents, store: Contents, modules: seq<string>, recompute: seq<string>, r: PrimeReport) {
    && (forall e :: e in r.primed <==> ToPrime(before, store, modules, recompute, e))
    && (forall e :: e in r.skippedPresent ==> Offered(store, modules, recompute, e) && (e in before.results || e in r.primed))
    && (forall e :: Offered(store, modules, recompute, e) && e in before.results ==> e in r.skippedPresent)
    && (forall m :: m in r.forced <==> m in modules && Forced(recompute, m))
    && (forall m :: m in r.missingInStore <==> m in modules && !Forced(recompute, m) && Unknown(store.results, m))
  }

  /** A forced module and one without entries add nothing but their own mention. */
  lemma PrimeReportWithout(before: Contents, store: Contents, modules: seq<string>, recompute: seq<string>, m: string, r: PrimeReport)
    requires ReportsPrime(before, store, modules, recompute, r)
    ensures Forced(recompute, m) ==>
      ReportsPrime(before, store, modules + [m], recompute, r.(forced := r.forced + [m]))
    ensures !Forced(recompute, m) && FindStageEntries(store.results, m) == [] ==>
      ReportsPrime(before, store, modules + [m], recompute, r.(missingInStore := r.missingInStore + [m]))
  {
    OfferedStep(store, modules, recompute, m);
    UnknownHasNoEntries(store.results, m);
    assert FindStageEntries(store.results, m) == [] ==>
      forall e :: e in store.results && BelongsTo(e, m) ==> e in FindStageEntries(store.results, m);
  }

  lemma PrimeReportWith(before: Contents, store: Contents, modules: seq<string>, recompute: seq<string>, m: string, r: PrimeReport,
                     primed: seq<Entry>, present: seq<Entry>)
    requires ReportsPrime(before, store, modules, recompute, r)
    requires !Forced(recompute, m) && FindStageEntries(store.results, m) != []
    requires primed == r.primed + Fresh(FindStageEntries(store.results, m), before.results.Keys + Elements(r.primed))
    requires ListsPresent(r.skippedPresent, FindStageEntries(store.results, m), before, primed, present)
    ensures ReportsPrime(before, store, modules + [m], recompute, r.(primed := primed, skippedPresent := present))
  {
    OfferedStep(store, modules, recompute, m);
    UnknownHasNoEntries(store.results, m);
    FreshMembers(FindStageEntries(store.results, m), before.results.Keys + Elements(r.primed));
    assert forall e :: e in FindStageEntries(store.results, m) <==> e in store.results && BelongsTo(e, m);
  }

  /** Of the entries in `some`, those with a result before are listed as present; the others listed have been primed. */
  ghost predicate ListsPresent(present: seq<Entry>, some: seq<Entry>, before: Contents, primed: seq<Entry>, listed: seq<Entry>) {
    && (forall e :: e in listed ==> e in present || (e in some && (e in before.results || e in primed)))
    && (forall e :: e in present || (e in some && e in before.results) ==> e in listed)
  }

  lemma PresentStep(present: seq<Entry>, entries: seq<Entry>, i: nat, before: Contents, primed: seq<Entry>, listed: seq<Entry>)
    requires i < |entries| && ListsPresent(present, entries[..i], before, primed, listed)
    ensures entries[i] in before.results || entries[i] in primed ==>
      ListsPresent(present, entries[..i + 1], before, primed, listed + [entries[i]])
    ensures entries[i] !in before.results ==> ListsPresent(present, entries[..i + 1], before, primed + [entries[i]], listed)
  {
    PrefixGrows(entries, i);
  }

  // ----- the loops

  /** The run was stopped by the first failing entry of `order`. */
  ghost predicate IsStop(before: Contents, work: Contents, store: Contents, faults: Entry -> set<Step>, order: seq<Entry>,
                         primed: seq<Entry>, share: bool, environment: string, outcome: CopyOutcome) {
    && Stopped(before, store, faults, order, primed)
    && var e := order[|primed|];
       && Halted(before, work, store, primed, share, environment, e)
       && (outcome == RolledBack ==> ArtifactsOf(work, e) == ArtifactsOf(before, e))
       && (outcome == RollbackFailed ==> RollbackMayFail(faults(e)))
  }

  lemma NextInOrder(list: seq<Entry>, entries: seq<Entry>, i: nat, known: set<Entry>)
    requires i < |entries| && entries[i] !in known
    ensures var primed, order := list + Fresh(entries[..i], known), list + Fresh(entries, known);
            primed <= order && |primed| < |order| && order[|primed|] == entries[i]
  {
    FreshStep(entries, i, known);
    FreshPrefix(entries, i + 1, known);
    var shorter := Fresh(entries[..i + 1], known);
    assert Fresh(entries, known)[|shorter| - 1] == shorter[|shorter| - 1];
  }

  /** The loop over the entries of a module, `some` of which are finished. */
  ghost predicate PrimingModule(before: Contents, work: Contents, store: Contents, records: Registry, faults: Entry -> set<Step>,
                                list: seq<Entry>, some: seq<Entry>, known: set<Entry>, primed: seq<Entry>,
                                present: seq<Entry>, listed: seq<Entry>, share: bool, environment: string) {
    && Priming(before, work, store, records, primed, share, environment)
    && primed == list + Fresh(some, known) && AllCopy(before, store, faults, primed)
    && ListsPresent(present, some, before, primed, listed)
  }

  lemma ModuleStart(before: Contents, work: Contents, store: Contents, records: Registry, faults: Entry -> set<Step>,
                    list: seq<Entry>, known: set<Entry>, present: seq<Entry>, share: bool, environment: string)
    requires Priming(before, work, store, records, list, share, environment) && AllCopy(before, store, faults, list)
    ensures PrimingModule(before, work, store, records, faults, list, [], known, list, present, present, share, environment)
  {
    assert list + Fresh([], known) == list;
  }

  /** The next entry: it has a result exactly when it is known; otherwise it is next in the order. */
  lemma ModuleNext(before: Contents, work: Contents, store: Contents, records: Registry, faults: Entry -> set<Step>,
                   list: seq<Entry>, entries: seq<Entry>, i: nat, known: set<Entry>, primed: seq<Entry>,
                   present: seq<Entry>, listed: seq<Entry>, share: bool, environment: string)
    requires i < |entries| && NoDup(entries) && known == before.results.Keys + Elements(list)
    requires PrimingModule(before, work, store, records, faults, list, entries[..i], known, primed, present, listed, share, environment)
    ensures entries[i] in work.results <==> entries[i] in known
    ensures entries[i] in work.results ==>
      PrimingModule(before, work, store, records, faults, list, entries[..i + 1], known, primed, present, listed + [entries[i]],
                    share, environment)
    ensures entries[i] !in work.results ==>
      var order := list + Fresh(entries, known);
      primed <= order && |primed| < |order| && order[|primed|] == entries[i]
  {
    NextIsKnown(before, list, entries, i, known);
    PresentOrPrimed(before, work, store, Elements(primed), entries[i]);
    FreshStep(entries, i, known);
    PresentStep(present, entries, i, before, primed, listed);
    if entries[i] !in known {
      NextInOrder(list, entries, i, known);
    } else {
      assert Fresh(entries[..i + 1], known) == Fresh(entries[..i], known);
    }
  }

  /** The next entry has been copied. */
  lemma ModuleCopied(before: Contents, work: Contents, store: Contents, records: Registry, faults: Entry -> set<Step>,
                     list: seq<Entry>, entries: seq<Entry>, i: nat, known: set<Entry>, primed: seq<Entry>,
                     present: seq<Entry>, listed: seq<Entry>, share: bool, environment: string)
    requires i < |entries| && known == before.results.Keys + Elements(list) && entries[i] !in known
    requires primed == list + Fresh(entries[..i], known) && AllCopy(before, store, faults, primed)
    requires ListsPresent(present, entries[..i], before, primed, listed)
    requires !CopyFails(before, store, faults(entries[i]), entries[i])
    requires Priming(before, work, store, records, primed + [entries[i]], share, environment)
    ensures PrimingModule(before, work, store, records, faults, list, entries[..i + 1], known, primed + [entries[i]],
                          present, listed, share, environment)
  {
    FreshStep(entries, i, known);
    PresentStep(present, entries, i, before, primed, listed);
    assert primed + [entries[i]] == list + Fresh(entries[..i + 1], known);
  }

  /** The next copy failed. */
  lemma ModuleStopped(before: Contents, work: Contents, store: Contents, faults: Entry -> set<Step>, order: seq<Entry>,
                      primed: seq<Entry>, e: Entry, share: bool, environment: string, outcome: CopyOutcome)
    requires primed <= order && |primed| < |order| && order[|primed|] == e
    requires AllCopy(before, store, faults, primed) && CopyFails(before, store, faults(e), e)
    requires Halted(before, work, store, primed, share, environment, e)
    requires outcome == RolledBack ==> ArtifactsOf(work, e) == ArtifactsOf(before, e)
    requires outcome == RollbackFailed ==> RollbackMayFail(faults(e))
    ensures IsStop(before, work, store, faults, order, primed, share, environment, outcome)
  {
  }

  /** Prime the entries of one module. */
  method PrimeModule(work: Directory, store: Directory, metadata: Metadata, m: string, share: bool, environment: string,
                     faults: Entry -> set<Step>, list: seq<Entry>, present: seq<Entry>, ghost before: Contents)
    returns (outcome: CopyOutcome, primed: seq<Entry>, skippedPresent: seq<Entry>)
    requires work != store
    requires Priming(before, work.View(), store.View(), metadata.records, list, share, environment)
    requires AllCopy(before, store.View(), faults, list)
    modifies work`results, work`caches, work`pipeline, metadata
    ensures var entries, known := FindStageEntries(store.results, m), before.results.Keys + Elements(list);
            && (outcome == Copied ==>
                  PrimingModule(before, work.View(), store.View(), metadata.records, faults, list, entries, known, primed,
                                present, skippedPresent, share, environment))
            && (outcome != Copied ==>
                  IsStop(before, work.View(), store.View(), faults, list + Fresh(entries, known), primed, share, environment, outcome))
  {
    primed, skippedPresent := list, present;
    var entries := FindStageEntries(store.results, m);
    ghost var known, shared := before.results.Keys + Elements(list), store.View();
    FoundOnce(store.results, m);
    ModuleStart(before, work.View(), shared, metadata.records, faults, list, known, present, share, environment);
    for i := 0 to |entries|
      invariant PrimingModule(before, work.View(), shared, metadata.records, faults, list, entries[..i], known, primed,
                              present, skippedPresent, share, environment)
    {
      var e := entries[i];
      assert e in entries;
      ModuleNext(before, work.View(), shared, metadata.records, faults, list, entries, i, known, primed,
                 present, skippedPresent, share, environment);
      if e in work.results {
        skippedPresent := skippedPresent + [e];
      } else {
        outcome := PrimeEntry(work, store, metadata, e, share, environment, faults(e), before, primed);
        if outcome != Copied {
          ModuleStopped(before, work.View(), shared, faults, list + Fresh(entries, known), primed, e, share, environment, outcome);
          return;
        }
        ModuleCopied(before, work.View(), shared, metadata.records, faults, list, entries, i, known, primed,
                     present, skippedPresent, share, environment);
        primed := primed + [e];
      }
    }
    assert entries[..|entries|] == entries;
    outcome := Copied;
  }

  /** The sidecar an entry ends up with: that of the store as long as its record is kept, for primed entries only. */
  function SidecarAfter(before: map<Entry, Envelope>, store: map<Entry, Envelope>, records: Registry, primed: set<Entry>, e: Entry)
    : Option<Envelope>
  {
    if e in primed then (if e in records then Lookup(store, e) else None) else Lookup(before, e)
  }

  method WriteSidecars(work: Directory, store: Directory, records: Registry, primed: seq<Entry>)
    requires work != store
    requires forall e :: e in primed && e in records ==> e in store.sidecars
    modifies work`sidecars
    ensures forall e :: Lookup(work.sidecars, e) == SidecarAfter(old(work.sidecars), store.sidecars, records, Elements(primed), e)
  {
    ghost var before := work.sidecars;
    for i := 0 to |primed|
      invariant forall e :: Lookup(work.sidecars, e) == SidecarAfter(before, store.sidecars, records, Elements(primed[..i]), e)
    {
      var e := primed[i];
      assert e in primed && primed[..i + 1] == primed[..i] + [e];
      ElementsStep(primed[..i], e);
      ghost var last := work.sidecars;
      if e in records {
        work.sidecars := work.sidecars[e := store.sidecars[e]];
      } else {
        work.sidecars := work.sidecars - {e};
      }
      forall x ensures Lookup(work.sidecars, x) == SidecarAfter(before, store.sidecars, records, Elements(primed[..i + 1]), x) {
        assert Lookup(last, x) == SidecarAfter(before, store.sidecars, records, Elements(primed[..i]), x);
      }
    }
    assert primed[..|primed|] == primed;
  }

  /** The loop over the modules, the first `i` of which are finished. */
  ghost predicate PrimingModules(before: Contents, work: Contents, store: Contents, records: Registry, faults: Entry -> set<Step>,
                                 modules: seq<string>, i: nat, recompute: seq<string>, r: PrimeReport, share: bool, environment: string)
    requires i <= |modules|
  {
    && r.primed == PrimeOrder(before.results, store.results, modules[..i], recompute)
    && AllCopy(before, store, faults, r.primed)
    && Priming(before, work, store, records, r.primed, share, environment)
    && ReportsPrime(before, store, modules[..i], recompute, r)
  }

  /** A module that is forced or has no entries. */
  lemma ModuleSkipped(before: Contents, work: Contents, store: Contents, records: Registry, faults: Entry -> set<Step>,
                      modules: seq<string>, i: nat, recompute: seq<string>, r: PrimeReport, share: bool, environment: string)
    requires i < |modules| && PrimingModules(before, work, store, records, faults, modules, i, recompute, r, share, environment)
    ensures var m := modules[i];
      && (Forced(recompute, m) ==>
            PrimingModules(before, work, store, records, faults, modules, i + 1, recompute, r.(forced := r.forced + [m]), share, environment))
      && (!Forced(recompute, m) && FindStageEntries(store.results, m) == [] ==>
            PrimingModules(before, work, store, records, faults, modules, i + 1, recompute,
                           r.(missingInStore := r.missingInStore + [m]), share, environment))
  {
    assert modules[..i + 1] == modules[..i] + [modules[i]];
    OrderStep(before.results, store.results, modules, recompute, i);
    PrimeReportWithout(before, store, modules[..i], recompute, modules[i], r);
  }

  /** A module whose entries have been primed. */
  lemma ModulePrimed(before: Contents, work: Contents, store: Contents, records: Registry, faults: Entry -> set<Step>,
                     modules: seq<string>, i: nat, recompute: seq<string>, r: PrimeReport, list: seq<Entry>, present: seq<Entry>,
                     share: bool, environment: string)
    requires i < |modules| && !Forced(recompute, modules[i]) && FindStageEntries(store.results, modules[i]) != []
    requires r.primed == PrimeOrder(before.results, store.results, modules[..i], recompute)
    requires ReportsPrime(before, store, modules[..i], recompute, r)
    requires var entries, known := FindStageEntries(store.results, modules[i]), before.results.Keys + Elements(r.primed);
      PrimingModule(before, work, store, records, faults, r.primed, entries, known, list, r.skippedPresent, present, share, environment)
    ensures PrimingModules(before, work, store, records, faults, modules, i + 1, recompute,
                           r.(primed := list, skippedPresent := present), share, environment)
  {
    assert modules[..i + 1] == modules[..i] + [modules[i]];
    OrderStep(before.results, store.results, modules, recompute, i);
    PrimeReportWith(before, store, modules[..i], recompute, modules[i], r, list, present);
  }

  /** A module in which a copy raised. */
  lemma ModuleFailed(before: Contents, work: Contents, store: Contents, faults: Entry -> set<Step>, modules: seq<string>, i: nat,
                     recompute: seq<string>, earlier: seq<Entry>, list: seq<Entry>, share: bool, environment: string, outcome: CopyOutcome)
    requires i < |modules| && !Forced(recompute, modules[i])
    requires earlier == PrimeOrder(before.results, store.results, modules[..i], recompute)
    requires var entries, known := FindStageEntries(store.results, modules[i]), before.results.Keys + Elements(earlier);
      IsStop(before, work, store, faults, earlier + Fresh(entries, known), list, share, environment, outcome)
    ensures IsStop(before, work, store, faults, PrimeOrder(before.results, store.results, modules, recompute), list, share,
                   environment, outcome)
  {
    OrderStep(before.results, store.results, modules, recompute, i);
    OrderPrefix(before.results, store.results, modules, recompute, i + 1);
    StoppedInLonger(before, store, faults, PrimeOrder(before.results, store.results, modules[..i + 1], recompute),
                    PrimeOrder(before.results, store.results, modules, recompute), list);
  }

  /** The loop over the modules. */
  method PrimeModules(work: Directory, modules: seq<string>, store: Directory, recompute: seq<string>, share: bool, environment: string,
                      faults: Entry -> set<Step>, metadata: Metadata, ghost before: Contents)
    returns (outcome: CopyOutcome, report: PrimeReport)
    requires work != store
    requires Priming(before, work.View(), store.View(), metadata.records, [], share, environment)
    modifies work`results, work`caches, work`pipeline, metadata
    ensures var order := PrimeOrder(before.results, store.results, modules, recompute);
            && (outcome == Copied ==>
                  && report.primed == order && AllCopy(before, store.View(), faults, order)
                  && Priming(before, work.View(), store.View(), metadata.records, order, share, environment)
                  && ReportsPrime(before, store.View(), modules, recompute, report))
            && (outcome != Copied ==>
                  IsStop(before, work.View(), store.View(), faults, order, report.primed, share, environment, outcome))
  {
    report := PrimeReport([], [], [], []);
    ghost var shared := store.View();
    for i := 0 to |modules|
      invariant PrimingModules(before, work.View(), shared, metadata.records, faults, modules, i, recompute, report, share, environment)
    {
      var m := modules[i];
      ModuleSkipped(before, work.View(), shared, metadata.records, faults, modules, i, recompute, report, share, environment);
      if Forced(recompute, m) {
        report := report.(forced := report.forced + [m]);
      } else if FindStageEntries(store.results, m) == [] {
        report := report.(missingInStore := report.missingInStore + [m]);
      } else {
        var list, present;
        outcome, list, present :=
          PrimeModule(work, store, metadata, m, share, environment, faults, report.primed, report.skippedPresent, before);
        if outcome == Copied {
          ModulePrimed(before, work.View(), shared, metadata.records, faults, modules, i, recompute, report, list, present, share, environment);
        } else {
          ModuleFailed(before, work.View(), shared, faults, modules, i, recompute, report.primed, list, share, environment, outcome);
        }
        report := report.(primed := list, skippedPresent := present);
        if outcome != Copied { return; }
      }
    }
    assert modules[..|modules|] == modules;
    outcome := Copied;
  }

  // ----- the whole operation

  /** A primed entry has exactly the record the store vouches for, made by this runtime, unless it was lost on the way; all
      other records are those of before. */
  ghost predicate RecordsVouchedFor(before: Registry, after: Registry, store: Contents, list: seq<Entry>, environment: string) {
    && (forall e :: e in after && e in list ==> VouchedFor(store, e, environment, after[e]))
    && (forall e :: e in after && e !in list ==> e in before && after[e] == before[e])
    && (forall e, record :: e in list && VouchedFor(store, e, environment, record) ==>
          (e in after && after[e] == record) || IsLost(before, store, environment, list, e))
  }

  /** Everything a completed `prime` guarantees. */
  ghost predicate IsPrimed(before: Contents, work: Contents, store: Contents, list: seq<Entry>, share: bool, environment: string) {
    && FilesPrimed(before, work, store, Elements(list))
    && if share then
         && work.pipeline == PrimedRegistry(before.pipeline, store, environment, list)
         && (forall e :: Lookup(work.sidecars, e) == SidecarAfter(before.sidecars, store.sidecars, work.pipeline, Elements(list), e))
         && (AllCoherent(before.pipeline) ==> AllCoherent(work.pipeline))
         && KeepsUnrelated(before.pipeline, Elements(list), work.pipeline)
         && RecordsVouchedFor(before.pipeline, work.pipeline, store, list, environment)
       else work.pipeline == before.pipeline && work.sidecars == before.sidecars
  }

  /** What holds of the registry on disk after the copy of `e` failed. */
  ghost predicate IsInterrupted(registry: Registry, disk: Registry, store: Contents, environment: string, list: seq<Entry>, e: Entry) {
    && KeepsUnrelated(registry, Elements(list) + {e}, disk)
    && e !in disk
    && (AllCoherent(registry) ==> (AllCoherent(disk) <==> LastPopRepairs(registry, store, environment, list + [e])))
  }

  lemma InterruptedRegistry(registry: Registry, store: Contents, environment: string, list: seq<Entry>, e: Entry)
    ensures IsInterrupted(registry, DiskAt(registry, store, environment, list, e), store, environment, list, e)
  {
    DiskKeepsUnrelated(registry, store, environment, list, e);
    DiskIsPart(registry, store, environment, list);
    MergedStep(registry, store, environment, list, e);
    if AllCoherent(registry) { DiskIsCoherentIff(registry, store, environment, list + [e]); }
  }

  /** The outcome of the final pass over the merged records of `primed`. */
  ghost predicate PassedOver(sidecars: map<Entry, Envelope>, work: Contents, store: Contents, merged: Registry, primed: set<Entry>) {
    && work.pipeline == Without(merged, Dropped(merged, primed))
    && forall e :: Lookup(work.sidecars, e) == SidecarAfter(sidecars, store.sidecars, work.pipeline, primed, e)
  }

  /** The last part of `prime`: check the primed entries and their descendants, then write sidecars and registry. */
  method Finish(work: Directory, store: Directory, metadata: Metadata, primed: seq<Entry>)
    requires work != store
    requires forall e :: e in primed && e in metadata.records ==> e in store.sidecars
    modifies work`sidecars, work`pipeline, metadata
    ensures PassedOver(old(work.sidecars), work.View(), store.View(), old(metadata.records), Elements(primed))
  {
    var removed, counts := metadata.DropIncoherent(primed, map[]);
    WriteSidecars(work, store, metadata.records, primed);
    work.pipeline := metadata.records;
  }

  lemma MergedHaveSidecars(registry: Registry, store: Contents, environment: string, list: seq<Entry>)
    ensures forall e :: e in list && e in MergedWith(registry, store, environment, list) ==> e in store.sidecars
  {
    MergedDescends(registry, store, environment, list);
  }

  lemma NothingPrimed(before: Contents, last: Contents, store: Contents, list: seq<Entry>, environment: string)
    requires list == [] && last.pipeline == before.pipeline && last.sidecars == before.sidecars
    ensures PassedOver(before.sidecars, last, store, MergedWith(before.pipeline, store, environment, list), Elements(list))
  {
    assert Elements(list) == {};
    forall e ensures e !in Dropped(before.pipeline, {}) {
      if e in Dropped(before.pipeline, {}) { DroppedIsAffected(before.pipeline, {}, e); }
    }
  }

  /** After the final pass everything promised holds. */
  lemma FinalPassKeepsPromises(before: Contents, last: Contents, work: Contents, store: Contents, list: seq<Entry>, environment: string)
    requires FilesPrimed(before, last, store, Elements(list))
    requires PassedOver(before.sidecars, work, store, MergedWith(before.pipeline, store, environment, list), Elements(list))
    requires work.results == last.results && work.caches == last.caches && NoDup(list)
    ensures IsPrimed(before, work, store, list, true, environment)
  {
    SameFilesPrimed(before, last, work, store, Elements(list));
    PrimedKeepsUnrelated(before.pipeline, store, environment, list);
    PrimedRecordsAreVouchedFor(before.pipeline, store, environment, list);
    if AllCoherent(before.pipeline) { PrimedRegistryIsCoherent(before.pipeline, store, environment, list); }
  }

  /** Copy the store's entries for the modules and merge their records. */
  method Prime(work: Directory, modules: seq<string>, store: Directory, recompute: seq<string>, share: bool, environment: string,
               faults: Entry -> set<Step>)
    returns (report: Result<PrimeReport, CopyOutcome>, ghost list: seq<Entry>)
    requires work != store
    modifies work
    ensures var order := PrimeOrder(old(work.results), store.results, modules, recompute);
            && (report.Ok? <==> AllCopy(old(work.View()), store.View(), faults, order))
            && (report.Ok? ==>
                  && list == order == report.value.primed
                  && ReportsPrime(old(work.View()), store.View(), modules, recompute, report.value)
                  && IsPrimed(old(work.View()), work.View(), store.View(), list, share, environment))
            && (report.Err? ==>
                  && report.error != Copied
                  && IsStop(old(work.View()), work.View(), store.View(), faults, order, list, share, environment, report.error)
                  && (share ==> IsInterrupted(old(work.pipeline), work.pipeline, store.View(), environment, list, order[|list|])))
  {
    ghost var before := work.View();
    var metadata := new Metadata(if share then work.pipeline else map[]);
    assert Elements([]) == {};
    var outcome, r := PrimeModules(work, modules, store, recompute, share, environment, faults, metadata, before);
    list := r.primed;
    ghost var order := PrimeOrder(before.results, store.results, modules, recompute);
    if outcome != Copied {
      StoppedInLonger(before, store.View(), faults, order, order, list);
      InterruptedRegistry(before.pipeline, store.View(), environment, list, order[|list|]);
      return Err(outcome), list;
    }
    if share {
      ghost var last, shared := work.View(), store.View();
      if r.primed != [] {
        MergedHaveSidecars(before.pipeline, shared, environment, list);
        Finish(work, store, metadata, r.primed);
      } else {
        NothingPrimed(before, last, shared, list, environment);
      }
      OrderIsToPrime(before, shared, modules, recompute);
      FinalPassKeepsPromises(before, last, work.View(), shared, list, environment);
    }
    report := Ok(r);
  }
}

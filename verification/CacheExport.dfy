/** `find_stage_entries` and `export`: copy the entries of some modules into a store. */
module CacheExport {
  import opened Wrappers
  import opened Graphs
  import opened Orders
  import opened CacheRecords
  import opened CacheInvalidation
  import opened CacheDirectory

  const SEPARATOR := "__"

  /** The file name of `e` starts with the module name and the separator. */
  predicate BelongsTo(e: Entry, moduleName: string) {
    moduleName + SEPARATOR <= e
  }

  function FindStageEntries(results: map<Entry, File>, moduleName: string): (r: seq<Entry>)
    ensures forall e :: e in r <==> e in results && BelongsTo(e, moduleName)
  {
    SortedSet(set e | e in results && BelongsTo(e, moduleName))
  }

  /** A name longer than the owner would need a separator within the hash. */
  lemma LongerDoesNotOwn(owner: string, hash: string, other: string)
    requires '_' !in hash && |owner| < |other|
    ensures !BelongsTo(owner + SEPARATOR + hash, other)
  {
    var e, key := owner + SEPARATOR + hash, other + SEPARATOR;
    if |key| <= |e| {
      var last := |key| - 1;
      assert e[last] == hash[last - |owner| - 2] && hash[last - |owner| - 2] in hash && key[last] == '_';
    }
  }

  /** Matching by prefix finds the owner of an entry and, wrongly, every module that is the owner's name less a trailing
      underscore or less everything from one of its own separators on. */
  lemma PrefixFindsOwner(owner: string, hash: string, other: string)
    requires '_' !in hash
    ensures BelongsTo(owner + SEPARATOR + hash, other) <==>
            other == owner || owner == other + "_" || other + SEPARATOR <= owner
  {
    var e := owner + SEPARATOR + hash;
    var key := other + SEPARATOR;
    if owner == other + "_" { assert e == key + ("_" + hash); }
    if owner == other { assert e == key + hash; }
    if key <= owner { assert e == key + owner[|key|..] + SEPARATOR + hash; }
    if |owner| < |other| { LongerDoesNotOwn(owner, hash, other); }
    if key <= e {
      assert other == key[..|other|] == e[..|other|] && owner == e[..|owner|];
      if |other| + 1 == |owner| {
        assert owner == other + "_" by { assert owner[|other|] == key[|other|]; }
      } else if |other| + 2 <= |owner| {
        assert key == e[..|key|] == owner[..|key|];
      }
    }
  }

  /** Two modules, each sharing a prefix with another one whose entry it is taken to own. */
  lemma PrefixesCollide()
    ensures BelongsTo("german_wide__xl__0", "german_wide") && BelongsTo("german_wide___0", "german_wide")
    ensures "german_wide__xl__0" in FindStageEntries(map["german_wide__xl__0" := "result"], "german_wide")
  {
    assert "german_wide__xl__0" == "german_wide" + SEPARATOR + "xl__0";
    assert "german_wide___0" == "german_wide" + SEPARATOR + "_0";
  }

  /** `e` has a result and one of the modules owns it. */
  ghost predicate Requested(results: map<Entry, File>, modules: seq<string>, e: Entry) {
    e in results && exists m :: m in modules && BelongsTo(e, m)
  }

  lemma RequestedStep(results: map<Entry, File>, modules: seq<string>, m: string)
    ensures forall e :: Requested(results, modules + [m], e) <==>
      Requested(results, modules, e) || (e in results && BelongsTo(e, m))
  {
    forall e ensures Requested(results, modules + [m], e) <==> Requested(results, modules, e) || (e in results && BelongsTo(e, m)) {
      assert m in modules + [m];
      if x :| x in modules && BelongsTo(e, x) { assert x in modules + [m]; }
    }
  }

  /** The module has no entry. */
  ghost predicate Unknown(results: map<Entry, File>, moduleName: string) {
    forall e :: e in results ==> !BelongsTo(e, moduleName)
  }

  lemma UnknownHasNoEntries(results: map<Entry, File>, moduleName: string)
    ensures FindStageEntries(results, moduleName) == [] <==> Unknown(results, moduleName)
  {
    var entries := FindStageEntries(results, moduleName);
    if entries != [] { assert entries[0] in entries; }
    if e :| e in results && BelongsTo(e, moduleName) { assert e in entries; }
  }

  // ----- the entries that are copied, in their order

  /** The entries that are not yet known, in their order. */
  function Fresh(entries: seq<Entry>, known: set<Entry>): seq<Entry> {
    if entries == [] then []
    else
      var e := entries[|entries| - 1];
      Fresh(entries[..|entries| - 1], known) + (if e in known then [] else [e])
  }

  lemma FreshStep(entries: seq<Entry>, i: nat, known: set<Entry>)
    requires i < |entries|
    ensures Fresh(entries[..i + 1], known) == Fresh(entries[..i], known) + (if entries[i] in known then [] else [entries[i]])
  {
    assert entries[..i + 1][..i] == entries[..i];
  }

  lemma {:induction false} FreshMembers(entries: seq<Entry>, known: set<Entry>)
    ensures forall e :: e in Fresh(entries, known) <==> e in entries && e !in known
    ensures NoDup(entries) ==> NoDup(Fresh(entries, known))
  {
    if entries != [] {
      var most, e := entries[..|entries| - 1], entries[|entries| - 1];
      FreshMembers(most, known);
      assert entries == most + [e];
      assert NoDup(entries) ==> e !in most by { assert forall k :: 0 <= k < |most| ==> most[k] == entries[k]; }
    }
  }

  /** Fewer entries are a prefix. */
  lemma {:induction false} FreshPrefix(entries: seq<Entry>, i: nat, known: set<Entry>)
    requires i <= |entries|
    ensures Fresh(entries[..i], known) <= Fresh(entries, known)
    decreases |entries| - i
  {
    if i < |entries| {
      FreshStep(entries, i, known);
      FreshPrefix(entries, i + 1, known);
    } else {
      assert entries[..i] == entries;
    }
  }

  /** Among distinct entries the next one is known exactly when it was known before the module. */
  lemma NextIsKnown(before: Contents, list: seq<Entry>, entries: seq<Entry>, i: nat, known: set<Entry>)
    requires i < |entries| && NoDup(entries) && known == before.results.Keys + Elements(list)
    ensures entries[i] in before.results || entries[i] in Elements(list + Fresh(entries[..i], known)) <==> entries[i] in known
    ensures entries[i] in list + Fresh(entries[..i], known) <==> entries[i] in Elements(list + Fresh(entries[..i], known))
  {
    FreshMembers(entries[..i], known);
    assert entries[i] !in entries[..i];
  }

  /** The entries that are copied: all of them, or those not yet known. */
  function Selected(entries: seq<Entry>, known: set<Entry>, skip: bool): seq<Entry> {
    if skip then Fresh(entries, known) else entries
  }

  lemma SelectedStep(entries: seq<Entry>, i: nat, known: set<Entry>, skip: bool)
    requires i < |entries|
    ensures Selected(entries[..i + 1], known, skip)
         == Selected(entries[..i], known, skip) + (if skip && entries[i] in known then [] else [entries[i]])
  {
    FreshStep(entries, i, known);
  }

  lemma SelectedPrefix(entries: seq<Entry>, i: nat, known: set<Entry>, skip: bool)
    requires i <= |entries|
    ensures Selected(entries[..i], known, skip) <= Selected(entries, known, skip)
  {
    FreshPrefix(entries, i, known);
  }

  /** The copies that `export` makes, in their order; without `skip` an entry is copied once for each mention. */
  function ExportOrder(results: map<Entry, File>, present: map<Entry, File>, modules: seq<string>, skip: bool): seq<Entry> {
    if modules == [] then []
    else
      var list := ExportOrder(results, present, modules[..|modules| - 1], skip);
      list + Selected(FindStageEntries(results, modules[|modules| - 1]), present.Keys + Elements(list), skip)
  }

  lemma ExportOrderStep(results: map<Entry, File>, present: map<Entry, File>, modules: seq<string>, skip: bool, i: nat)
    requires i < |modules|
    ensures var list := ExportOrder(results, present, modules[..i], skip);
            ExportOrder(results, present, modules[..i + 1], skip)
            == list + Selected(FindStageEntries(results, modules[i]), present.Keys + Elements(list), skip)
  {
    assert modules[..i + 1][..i] == modules[..i];
  }

  lemma {:induction false} ExportOrderPrefix(results: map<Entry, File>, present: map<Entry, File>, modules: seq<string>, skip: bool, i: nat)
    requires i <= |modules|
    ensures ExportOrder(results, present, modules[..i], skip) <= ExportOrder(results, present, modules, skip)
    decreases |modules| - i
  {
    if i < |modules| {
      ExportOrderStep(results, present, modules, skip, i);
      ExportOrderPrefix(results, present, modules, skip, i + 1);
    } else {
      assert modules[..i] == modules;
    }
  }

  lemma SelectedMembers(entries: seq<Entry>, known: set<Entry>, skip: bool)
    ensures forall e :: e in Selected(entries, known, skip) <==> e in entries && !(skip && e in known)
  {
    FreshMembers(entries, known);
  }

  /** The order lists exactly the requested entries, less those to be skipped. */
  lemma {:induction false} OrderIsRequested(results: map<Entry, File>, present: map<Entry, File>, modules: seq<string>, skip: bool)
    ensures forall e :: e in ExportOrder(results, present, modules, skip) <==>
              Requested(results, modules, e) && !(skip && e in present)
    decreases |modules|
  {
    if modules != [] {
      var most, m := modules[..|modules| - 1], modules[|modules| - 1];
      var list := ExportOrder(results, present, most, skip);
      assert modules == most + [m];
      OrderIsRequested(results, present, most, skip);
      RequestedStep(results, most, m);
      FoundOnce(results, m);
      SelectedMembers(FindStageEntries(results, m), present.Keys + Elements(list), skip);
    }
  }

  /** Everything a directory says about one entry, the registry apart. */
  datatype Shelf = Shelf(artifacts: Artifacts, sidecar: Option<Envelope>)

  function ShelfOf(c: Contents, e: Entry): Shelf {
    Shelf(ArtifactsOf(c, e), Lookup(c.sidecars, e))
  }

  /** The envelope may travel: it is current, names the runtime, and its record is the one registered now. */
  predicate Shareable(work: Contents, e: Entry) {
    && e in work.pipeline
    && e in work.sidecars
    && work.sidecars[e].version == METADATA_VERSION
    && work.sidecars[e].metadata == Some(work.pipeline[e])
    && work.sidecars[e].environment != ""
    && e in work.caches
  }

  /** What exporting `e` makes of its shelf. */
  function Exported(work: Contents, before: Shelf, e: Entry, share: bool): Shelf {
    Shelf(Published(before.artifacts, ArtifactsOf(work, e)),
          if share && Shareable(work, e) then Some(work.sidecars[e]) else None)
  }

  /** The shelf of `e` once the entries `done` are exported. */
  function ShelfAfter(work: Contents, before: Contents, done: set<Entry>, share: bool, e: Entry): Shelf {
    if e in done then Exported(work, ShelfOf(before, e), e, share) else ShelfOf(before, e)
  }

  /** The store after exporting the entries `done`. */
  ghost predicate ExportState(work: Contents, before: Contents, store: Contents, done: set<Entry>, share: bool) {
    forall e :: ShelfOf(store, e) == ShelfAfter(work, before, done, share, e)
  }

  /** The same, but for what has become of `e`. */
  ghost predicate ExportStateBut(work: Contents, before: Contents, store: Contents, done: set<Entry>, share: bool, e: Entry) {
    forall x :: x != e ==> ShelfOf(store, x) == ShelfAfter(work, before, done, share, x)
  }

  datatype Report = Report(exported: seq<Entry>, skipped: seq<string>, skippedPresent: seq<Entry>)

  // ----- when an export fails

  /** Some step of copying `e` raises, once the entries `done` have been copied. */
  predicate StepFails(work: Contents, before: Contents, faults: set<Step>, done: set<Entry>, e: Entry) {
    var source, now := ArtifactsOf(work, e), ArtifactsOf(before, e);
    StagingFails(source, faults) || PublicationFails(if e in done then Published(now, source) else now, source, faults)
  }

  /** A copy finds the entry as exported, if it was exported before, else as it was. */
  lemma StepFailsIff(work: Contents, before: Contents, faults: set<Step>, done: set<Entry>, e: Entry)
    ensures var now := if e in done then Published(ArtifactsOf(before, e), ArtifactsOf(work, e)) else ArtifactsOf(before, e);
            StepFails(work, before, faults, done, e) <==>
              e !in work.results || exists step :: step in NeededSteps(now, ArtifactsOf(work, e)) && step in faults
  {
    var now := if e in done then Published(ArtifactsOf(before, e), ArtifactsOf(work, e)) else ArtifactsOf(before, e);
    FailsIffNeededStepDoes(now, ArtifactsOf(work, e), faults);
  }

  predicate AllExport(work: Contents, before: Contents, faults: Entry -> set<Step>, order: seq<Entry>) {
    forall k :: 0 <= k < |order| ==> !StepFails(work, before, faults(order[k]), Elements(order[..k]), order[k])
  }

  /** `list` is what was copied before the first failing copy of `order`. */
  predicate ExportStops(work: Contents, before: Contents, faults: Entry -> set<Step>, order: seq<Entry>, list: seq<Entry>) {
    && list <= order && |list| < |order|
    && AllExport(work, before, faults, list)
    && StepFails(work, before, faults(order[|list|]), Elements(list), order[|list|])
  }

  lemma AllExportStep(work: Contents, before: Contents, faults: Entry -> set<Step>, list: seq<Entry>, e: Entry)
    requires AllExport(work, before, faults, list) && !StepFails(work, before, faults(e), Elements(list), e)
    ensures AllExport(work, before, faults, list + [e])
  {
    var more := list + [e];
    forall k | 0 <= k < |more| ensures !StepFails(work, before, faults(more[k]), Elements(more[..k]), more[k]) {
      assert more[..k] == list[..k];
      assert list[..|list|] == list;
    }
  }

  lemma ExportStopsInLonger(work: Contents, before: Contents, faults: Entry -> set<Step>, order: seq<Entry>, longer: seq<Entry>, list: seq<Entry>)
    requires ExportStops(work, before, faults, order, list) && order <= longer
    ensures ExportStops(work, before, faults, longer, list) && longer[|list|] == order[|list|]
    ensures !AllExport(work, before, faults, longer)
  {
    assert longer[..|list|] == list;
  }

  /** The export was stopped by the first failing copy of `order`; the entry of that copy is what it was if it was rolled back. */
  ghost predicate IsExportStop(work: Contents, before: Contents, store: Contents, faults: Entry -> set<Step>, order: seq<Entry>,
                               list: seq<Entry>, share: bool, outcome: CopyOutcome) {
    && ExportStops(work, before, faults, order, list)
    && ExportStateBut(work, before, store, Elements(list), share, order[|list|])
    && (outcome == RolledBack ==> ExportState(work, before, store, Elements(list), share))
    && (outcome == RollbackFailed ==> RollbackMayFail(faults(order[|list|])))
  }

  lemma PrefixGrows(s: seq<Entry>, i: nat)
    requires i < |s|
    ensures s[i] in s && forall e :: e in s[..i + 1] <==> e in s[..i] || e == s[i]
  {
    assert s[..i + 1] == s[..i] + [s[i]];
  }

  /** Shelves other than that of `e` are the same. */
  ghost predicate ChangedOnly(store: Contents, after: Contents, e: Entry) {
    forall x :: x != e ==> ShelfOf(after, x) == ShelfOf(store, x)
  }

  method ExportEntry(work: Directory, store: Directory, e: Entry, share: bool, faults: set<Step>) returns (outcome: CopyOutcome)
    requires work != store
    modifies store`results, store`caches, store`sidecars
    ensures outcome == Copied <==>
      !StagingFails(ArtifactsOf(work.View(), e), faults)
      && !PublicationFails(ArtifactsOf(old(store.View()), e), ArtifactsOf(work.View(), e), faults)
    ensures outcome == Copied ==>
      ShelfOf(store.View(), e) == Exported(work.View(), ShelfOf(old(store.View()), e), e, share)
    ensures outcome == RolledBack ==> ShelfOf(store.View(), e) == ShelfOf(old(store.View()), e)
    ensures outcome == RollbackFailed ==> RollbackMayFail(faults)
    ensures ChangedOnly(old(store.View()), store.View(), e)
  {
    ghost var trace;
    outcome, trace := store.CopyEntry(work, e, faults);
    if outcome != Copied { return; }
    store.sidecars := store.sidecars - {e};
    if share && Shareable(work.View(), e) {
      store.sidecars := store.sidecars[e := work.sidecars[e]];
    }
  }

  /** What the loops keep: the entries of `list` are copied. */
  ghost predicate Exporting(work: Contents, before: Contents, store: Contents, faults: Entry -> set<Step>, list: seq<Entry>, share: bool) {
    && ExportState(work, before, store, Elements(list), share)
    && (forall e :: e in list ==> e in work.results)
    && AllExport(work, before, faults, list)
  }

  /** While exporting, an entry is in the store when it was there before or has been exported. */
  lemma PresentIffDone(work: Contents, before: Contents, store: Contents, faults: Entry -> set<Step>, list: seq<Entry>, share: bool, e: Entry)
    requires Exporting(work, before, store, faults, list, share)
    ensures e in store.results <==> e in before.results || e in Elements(list)
  {
    assert ShelfOf(store, e) == ShelfAfter(work, before, Elements(list), share, e);
    assert ShelfOf(store, e).artifacts.result.Some? <==> e in store.results;
    assert ShelfOf(before, e).artifacts.result.Some? <==> e in before.results;
  }

  /** The copy of `e` raises exactly as `StepFails` says. */
  lemma FailureOfCopy(work: Contents, before: Contents, store: Contents, faults: Entry -> set<Step>, list: seq<Entry>, share: bool, e: Entry)
    requires Exporting(work, before, store, faults, list, share)
    ensures StepFails(work, before, faults(e), Elements(list), e) <==>
      StagingFails(ArtifactsOf(work, e), faults(e)) || PublicationFails(ArtifactsOf(store, e), ArtifactsOf(work, e), faults(e))
  {
    assert ShelfOf(store, e) == ShelfAfter(work, before, Elements(list), share, e);
  }

  lemma ExportedTwice(work: Contents, before: Shelf, e: Entry, share: bool)
    ensures Exported(work, Exported(work, before, e, share), e, share) == Exported(work, before, e, share)
  {
  }

  /** One more entry is exported; exporting an entry again changes nothing. */
  lemma ExportStep(work: Contents, before: Contents, store: Contents, after: Contents, faults: Entry -> set<Step>, list: seq<Entry>,
                   share: bool, e: Entry)
    requires Exporting(work, before, store, faults, list, share) && e in work.results
    requires !StepFails(work, before, faults(e), Elements(list), e)
    requires ShelfOf(after, e) == Exported(work, ShelfOf(store, e), e, share)
    requires ChangedOnly(store, after, e)
    ensures Exporting(work, before, after, faults, list + [e], share)
  {
    AllExportStep(work, before, faults, list, e);
    ExportedTwice(work, ShelfOf(before, e), e, share);
    assert Elements(list + [e]) == Elements(list) + {e};
    forall x ensures ShelfOf(after, x) == ShelfAfter(work, before, Elements(list + [e]), share, x) {
      assert ShelfOf(store, x) == ShelfAfter(work, before, Elements(list), share, x);
    }
  }

  /** A failing copy touches only its own entry, and not even that if it was rolled back. */
  lemma ExportFailed(work: Contents, before: Contents, store: Contents, after: Contents, faults: Entry -> set<Step>, list: seq<Entry>,
                     share: bool, order: seq<Entry>, e: Entry, outcome: CopyOutcome)
    requires Exporting(work, before, store, faults, list, share)
    requires list <= order && |list| < |order| && order[|list|] == e
    requires StepFails(work, before, faults(e), Elements(list), e)
    requires outcome == RolledBack ==> ShelfOf(after, e) == ShelfOf(store, e)
    requires outcome == RollbackFailed ==> RollbackMayFail(faults(e))
    requires ChangedOnly(store, after, e)
    ensures IsExportStop(work, before, after, faults, order, list, share, outcome)
  {
    forall x | x != e || outcome == RolledBack ensures ShelfOf(after, x) == ShelfAfter(work, before, Elements(list), share, x) {
      assert ShelfOf(store, x) == ShelfAfter(work, before, Elements(list), share, x);
    }
  }

  // ----- the loops

  /** The entries of `some` that were known are listed besides those of `present`. */
  ghost predicate ListsSkipped(present: seq<Entry>, some: seq<Entry>, known: set<Entry>, skip: bool, listed: seq<Entry>) {
    forall e :: e in listed <==> e in present || (skip && e in some && e in known)
  }

  lemma ListsStep(present: seq<Entry>, entries: seq<Entry>, i: nat, known: set<Entry>, skip: bool, listed: seq<Entry>)
    requires i < |entries| && ListsSkipped(present, entries[..i], known, skip, listed)
    ensures ListsSkipped(present, entries[..i + 1], known, skip, if skip && entries[i] in known then listed + [entries[i]] else listed)
  {
    PrefixGrows(entries, i);
  }

  /** The loop over the entries of a module, `some` of which are finished. */
  ghost predicate ExportingModule(work: Contents, before: Contents, store: Contents, faults: Entry -> set<Step>, skip: bool, share: bool,
                                  start: seq<Entry>, some: seq<Entry>, known: set<Entry>, list: seq<Entry>,
                                  present: seq<Entry>, listed: seq<Entry>) {
    && Exporting(work, before, store, faults, list, share)
    && list == start + Selected(some, known, skip)
    && ListsSkipped(present, some, known, skip, listed)
  }

  /** The next entry is skipped, or it is next in the order. */
  lemma ModuleNext(work: Contents, before: Contents, store: Contents, faults: Entry -> set<Step>, skip: bool, share: bool,
                   start: seq<Entry>, entries: seq<Entry>, i: nat, known: set<Entry>, list: seq<Entry>,
                   present: seq<Entry>, listed: seq<Entry>)
    requires i < |entries| && NoDup(entries) && known == before.results.Keys + Elements(start)
    requires ExportingModule(work, before, store, faults, skip, share, start, entries[..i], known, list, present, listed)
    ensures skip ==> (entries[i] in store.results <==> entries[i] in known)
    ensures skip && entries[i] in known ==>
      ExportingModule(work, before, store, faults, skip, share, start, entries[..i + 1], known, list, present, listed + [entries[i]])
    ensures !(skip && entries[i] in known) ==>
      var order := start + Selected(entries, known, skip);
      list <= order && |list| < |order| && order[|list|] == entries[i]
  {
    PresentIffDone(work, before, store, faults, list, share, entries[i]);
    if skip { NextIsKnown(before, start, entries, i, known); }
    ListsStep(present, entries, i, known, skip, listed);
    NextSelected(start, entries, i, known, skip);
  }

  lemma NextSelected(start: seq<Entry>, entries: seq<Entry>, i: nat, known: set<Entry>, skip: bool)
    requires i < |entries|
    ensures var list, order := start + Selected(entries[..i], known, skip), start + Selected(entries, known, skip);
            if skip && entries[i] in known then start + Selected(entries[..i + 1], known, skip) == list
            else list <= order && |list| < |order| && order[|list|] == entries[i]
  {
    SelectedStep(entries, i, known, skip);
    SelectedPrefix(entries, i + 1, known, skip);
    var next := Selected(entries[..i + 1], known, skip);
    if !(skip && entries[i] in known) { assert Selected(entries, known, skip)[|next| - 1] == next[|next| - 1]; }
  }

  /** The next entry has been copied. */
  lemma ModuleExported(work: Contents, before: Contents, store: Contents, after: Contents, faults: Entry -> set<Step>,
                       skip: bool, share: bool, start: seq<Entry>, entries: seq<Entry>, i: nat, known: set<Entry>,
                       list: seq<Entry>, present: seq<Entry>, listed: seq<Entry>)
    requires i < |entries| && !(skip && entries[i] in known) && entries[i] in work.results
    requires ExportingModule(work, before, store, faults, skip, share, start, entries[..i], known, list, present, listed)
    requires !StepFails(work, before, faults(entries[i]), Elements(list), entries[i])
    requires ShelfOf(after, entries[i]) == Exported(work, ShelfOf(store, entries[i]), entries[i], share)
    requires ChangedOnly(store, after, entries[i])
    ensures ExportingModule(work, before, after, faults, skip, share, start, entries[..i + 1], known, list + [entries[i]], present, listed)
  {
    ExportStep(work, before, store, after, faults, list, share, entries[i]);
    SelectedStep(entries, i, known, skip);
    ListsStep(present, entries, i, known, skip, listed);
    assert list + [entries[i]] == start + Selected(entries[..i + 1], known, skip);
  }

  lemma ModuleStarts(work: Contents, before: Contents, store: Contents, faults: Entry -> set<Step>, skip: bool, share: bool,
                     start: seq<Entry>, known: set<Entry>, present: seq<Entry>)
    requires Exporting(work, before, store, faults, start, share)
    ensures ExportingModule(work, before, store, faults, skip, share, start, [], known, start, present, present)
  {
    assert start + Selected([], known, skip) == start;
  }

  /** Export the entries of one module. */
  method ExportModule(work: Directory, moduleName: string, store: Directory, skip: bool, share: bool, faults: Entry -> set<Step>,
                      start: seq<Entry>, present: seq<Entry>, ghost before: Contents)
    returns (outcome: CopyOutcome, list: seq<Entry>, listed: seq<Entry>)
    requires work != store
    requires Exporting(work.View(), before, store.View(), faults, start, share)
    modifies store`results, store`caches, store`sidecars
    ensures var entries, known := FindStageEntries(work.results, moduleName), before.results.Keys + Elements(start);
            && (outcome == Copied ==>
                  ExportingModule(work.View(), before, store.View(), faults, skip, share, start, entries, known, list, present, listed))
            && (outcome != Copied ==>
                  IsExportStop(work.View(), before, store.View(), faults, start + Selected(entries, known, skip), list, share, outcome))
  {
    list, listed := start, present;
    var entries := FindStageEntries(work.results, moduleName);
    FoundOnce(work.results, moduleName);
    ghost var source, known := work.View(), before.results.Keys + Elements(start);
    ModuleStarts(source, before, store.View(), faults, skip, share, start, known, present);
    for i := 0 to |entries|
      invariant ExportingModule(source, before, store.View(), faults, skip, share, start, entries[..i], known, list, present, listed)
    {
      var e := entries[i];
      assert e in entries;
      ghost var last := store.View();
      ModuleNext(source, before, last, faults, skip, share, start, entries, i, known, list, present, listed);
      if skip && e in store.results {
        listed := listed + [e];
      } else {
        FailureOfCopy(source, before, last, faults, list, share, e);
        outcome := ExportEntry(work, store, e, share, faults(e));
        if outcome != Copied {
          ExportFailed(source, before, last, store.View(), faults, list, share, start + Selected(entries, known, skip), e, outcome);
          return;
        }
        ModuleExported(source, before, last, store.View(), faults, skip, share, start, entries, i, known, list, present, listed);
        list := list + [e];
      }
    }
    assert entries[..|entries|] == entries;
    outcome := Copied;
  }

  lemma FoundOnce(results: map<Entry, File>, moduleName: string)
    ensures NoDup(FindStageEntries(results, moduleName))
    ensures forall e :: e in FindStageEntries(results, moduleName) <==> e in results && BelongsTo(e, moduleName)
  {
    SortedSetNoDup(set e | e in results && BelongsTo(e, moduleName));
  }

  /** What the report says about the modules and entries it was given; a module named twice is skipped the second time. */
  ghost predicate ReportsExport(results: map<Entry, File>, modules: seq<string>, before: Contents, skip: bool, r: Report) {
    && (forall e :: e in r.exported <==> Requested(results, modules, e) && !(skip && e in before.results))
    && (forall e :: e in r.skippedPresent ==> skip && Requested(results, modules, e))
    && (forall e :: skip && Requested(results, modules, e) && e in before.results ==> e in r.skippedPresent)
    && (forall m :: m in r.skipped <==> m in modules && Unknown(results, m))
  }

  lemma ReportWithout(results: map<Entry, File>, modules: seq<string>, before: Contents, skip: bool, r: Report, m: string)
    requires ReportsExport(results, modules, before, skip, r) && FindStageEntries(results, m) == []
    ensures ReportsExport(results, modules + [m], before, skip, r.(skipped := r.skipped + [m]))
  {
    RequestedStep(results, modules, m);
    UnknownHasNoEntries(results, m);
    FoundOnce(results, m);
  }

  lemma ReportWith(results: map<Entry, File>, modules: seq<string>, before: Contents, skip: bool, r: Report, m: string,
                   entries: seq<Entry>, known: set<Entry>, list: seq<Entry>, listed: seq<Entry>)
    requires ReportsExport(results, modules, before, skip, r)
    requires entries == FindStageEntries(results, m) != [] && known == before.results.Keys + Elements(r.exported)
    requires list == r.exported + Selected(entries, known, skip) && ListsSkipped(r.skippedPresent, entries, known, skip, listed)
    ensures ReportsExport(results, modules + [m], before, skip, r.(exported := list, skippedPresent := listed))
  {
    RequestedStep(results, modules, m);
    UnknownHasNoEntries(results, m);
    FoundOnce(results, m);
    SelectedMembers(entries, known, skip);
  }

  /** The loop over the modules, the first `i` of which are finished. */
  ghost predicate ExportingModules(work: Contents, before: Contents, store: Contents, faults: Entry -> set<Step>,
                                   modules: seq<string>, i: nat, skip: bool, share: bool, r: Report)
    requires i <= |modules|
  {
    && r.exported == ExportOrder(work.results, before.results, modules[..i], skip)
    && Exporting(work, before, store, faults, r.exported, share)
    && ReportsExport(work.results, modules[..i], before, skip, r)
  }

  lemma OneMore<T>(s: seq<T>, i: nat)
    requires i < |s|
    ensures s[..i + 1] == s[..i] + [s[i]]
  {
  }

  /** A module without entries. */
  lemma ModuleWithout(work: Contents, before: Contents, store: Contents, faults: Entry -> set<Step>, modules: seq<string>, i: nat,
                      skip: bool, share: bool, r: Report)
    requires i < |modules| && FindStageEntries(work.results, modules[i]) == []
    requires ExportingModules(work, before, store, faults, modules, i, skip, share, r)
    ensures ExportingModules(work, before, store, faults, modules, i + 1, skip, share, r.(skipped := r.skipped + [modules[i]]))
  {
    OneMore(modules, i);
    ExportOrderStep(work.results, before.results, modules, skip, i);
    ReportWithout(work.results, modules[..i], before, skip, r, modules[i]);
  }

  /** A module whose entries have been exported. */
  lemma ModuleWith(work: Contents, before: Contents, store: Contents, faults: Entry -> set<Step>, modules: seq<string>, i: nat,
                   skip: bool, share: bool, r: Report, list: seq<Entry>, listed: seq<Entry>)
    requires i < |modules| && FindStageEntries(work.results, modules[i]) != []
    requires r.exported == ExportOrder(work.results, before.results, modules[..i], skip)
    requires ReportsExport(work.results, modules[..i], before, skip, r)
    requires var entries, known := FindStageEntries(work.results, modules[i]), before.results.Keys + Elements(r.exported);
      ExportingModule(work, before, store, faults, skip, share, r.exported, entries, known, list, r.skippedPresent, listed)
    ensures ExportingModules(work, before, store, faults, modules, i + 1, skip, share, r.(exported := list, skippedPresent := listed))
  {
    OneMore(modules, i);
    ExportOrderStep(work.results, before.results, modules, skip, i);
    var entries, known := FindStageEntries(work.results, modules[i]), before.results.Keys + Elements(r.exported);
    ReportWith(work.results, modules[..i], before, skip, r, modules[i], entries, known, list, listed);
  }

  /** A module in which a copy raised. */
  lemma ModuleFails(work: Contents, before: Contents, store: Contents, faults: Entry -> set<Step>, modules: seq<string>, i: nat,
                    skip: bool, share: bool, start: seq<Entry>, list: seq<Entry>, outcome: CopyOutcome)
    requires i < |modules| && start == ExportOrder(work.results, before.results, modules[..i], skip)
    requires var entries, known := FindStageEntries(work.results, modules[i]), before.results.Keys + Elements(start);
      IsExportStop(work, before, store, faults, start + Selected(entries, known, skip), list, share, outcome)
    ensures var order := ExportOrder(work.results, before.results, modules, skip);
            IsExportStop(work, before, store, faults, order, list, share, outcome) && !AllExport(work, before, faults, order)
  {
    ExportOrderStep(work.results, before.results, modules, skip, i);
    ExportOrderPrefix(work.results, before.results, modules, skip, i + 1);
    ExportStopsInLonger(work, before, faults, ExportOrder(work.results, before.results, modules[..i + 1], skip),
                        ExportOrder(work.results, before.results, modules, skip), list);
  }

  /** Export all entries of the modules, in order, up to the first copy that raises. */
  method Export(work: Directory, modules: seq<string>, store: Directory, skip: bool, share: bool, faults: Entry -> set<Step>)
    returns (report: Result<Report, CopyOutcome>, ghost list: seq<Entry>)
    requires work != store
    modifies store`results, store`caches, store`sidecars
    ensures var order := ExportOrder(work.results, old(store.results), modules, skip);
            && (report.Ok? <==> AllExport(work.View(), old(store.View()), faults, order))
            && (report.Ok? ==>
                  && list == order == report.value.exported
                  && ExportState(work.View(), old(store.View()), store.View(), Elements(order), share)
                  && ReportsExport(work.results, modules, old(store.View()), skip, report.value))
            && (report.Err? ==>
                  && report.error != Copied
                  && IsExportStop(work.View(), old(store.View()), store.View(), faults, order, list, share, report.error))
  {
    ghost var source, before := work.View(), store.View();
    var r := Report([], [], []);
    for i := 0 to |modules|
      invariant ExportingModules(source, before, store.View(), faults, modules, i, skip, share, r)
    {
      var m := modules[i];
      if FindStageEntries(work.results, m) == [] {
        ModuleWithout(source, before, store.View(), faults, modules, i, skip, share, r);
        r := r.(skipped := r.skipped + [m]);
      } else {
        var outcome, copied, listed := ExportModule(work, m, store, skip, share, faults, r.exported, r.skippedPresent, before);
        if outcome != Copied {
          ModuleFails(source, before, store.View(), faults, modules, i, skip, share, r.exported, copied, outcome);
          return Err(outcome), copied;
        }
        ModuleWith(source, before, store.View(), faults, modules, i, skip, share, r, copied, listed);
        r := r.(exported := copied, skippedPresent := listed);
      }
    }
    assert modules[..|modules|] == modules;
    report, list := Ok(r), r.exported;
  }
}

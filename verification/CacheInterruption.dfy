/** A `prime` whose copy raises: the registry it can leave behind. */
module CacheInterruption {
  import opened Wrappers
  import opened Graphs
  import opened CacheRecords
  import opened CacheInvalidation
  import opened CacheDirectory
  import opened CacheExport
  import opened CacheMerge
  import opened CachePrime

  const PARENT := "p__0"
  const CHILD := "x__1"
  const LEFTOVER := "y__2"

  function Bare(digest: string): Record {
    Record([], map[], Some(digest), None)
  }

  /** A record that saw the parent with another output than the one registered. */
  const OUTDATED := Record([Dependency(PARENT, None)], map[PARENT := "old"], Some("child"), None)

  /** The registered parent is newer than what the store's child saw, and a leftover record awaits its entry. */
  const WORK := Contents(
    map[PARENT := "parent"], map[], map[], map[PARENT := Bare("new"), LEFTOVER := Bare("left")])

  const STORE := Contents(
    map[CHILD := "child", LEFTOVER := "left"], map[CHILD := "cache"],
    map[CHILD := Envelope(METADATA_VERSION, "runtime", Some(OUTDATED))], map[])

  /** The last copy raises while it publishes. */
  function LastCopyRaises(e: Entry): set<Step> {
    if e == LEFTOVER then {PublishResult} else {}
  }

  lemma WorkIsCoherent()
    ensures AllCoherent(WORK.pipeline)
  {
  }

  lemma OnlyEntry(results: map<Entry, File>, e: Entry, m: string)
    requires e in results && BelongsTo(e, m) && forall x :: x in results && BelongsTo(x, m) ==> x == e
    ensures FindStageEntries(results, m) == [e]
  {
    var found := FindStageEntries(results, m);
    assert (set x | x in results && BelongsTo(x, m)) == {e};
    assert |found| == 1 && found[0] in found;
  }

  lemma SingleFresh(e: Entry, known: set<Entry>)
    requires e !in known
    ensures Fresh([e], known) == [e]
  {
    FreshStep([e], 0, known);
    assert [e][..1] == [e] && [e][..0] == [];
  }

  lemma OrderAppends(results: map<Entry, File>, store: map<Entry, File>, modules: seq<string>, m: string, list: seq<Entry>,
                     found: seq<Entry>, known: set<Entry>)
    requires PrimeOrder(results, store, modules, []) == list
    requires FindStageEntries(store, m) == found && known == results.Keys + Elements(list)
    ensures PrimeOrder(results, store, modules + [m], []) == list + Fresh(found, known)
  {
    var more := modules + [m];
    assert more != [] && more[..|more| - 1] == modules && more[|more| - 1] == m;
    assert !Forced([], m);
  }

  /** A further module with one new entry. */
  lemma OrderOfOneMore(results: map<Entry, File>, store: map<Entry, File>, modules: seq<string>, m: string, list: seq<Entry>, e: Entry)
    requires PrimeOrder(results, store, modules, []) == list
    requires FindStageEntries(store, m) == [e] && e !in results && e !in list
    ensures PrimeOrder(results, store, modules + [m], []) == list + [e]
  {
    OrderAppends(results, store, modules, m, list, [e], results.Keys + Elements(list));
    SingleFresh(e, results.Keys + Elements(list));
  }

  /** Two modules with one new entry each are primed in turn. */
  lemma OrderOfTwo(results: map<Entry, File>, store: map<Entry, File>, m: string, n: string, e: Entry, f: Entry)
    requires FindStageEntries(store, m) == [e] && FindStageEntries(store, n) == [f]
    requires e !in results && f !in results && e != f
    ensures PrimeOrder(results, store, [m, n], []) == [e, f]
  {
    OrderOfOneMore(results, store, [], m, [], e);
    OrderOfOneMore(results, store, [] + [m], n, [] + [e], f);
    assert [] + [m] + [n] == [m, n] && [] + [e] + [f] == [e, f];
  }

  lemma OrderOfTheRun()
    ensures PrimeOrder(WORK.results, STORE.results, ["x", "y"], []) == [CHILD, LEFTOVER]
  {
    OwnersOfTheRun();
    OnlyEntry(STORE.results, CHILD, "x");
    OnlyEntry(STORE.results, LEFTOVER, "y");
    OrderOfTwo(WORK.results, STORE.results, "x", "y", CHILD, LEFTOVER);
  }

  lemma OwnersOfTheRun()
    ensures BelongsTo(CHILD, "x") && !BelongsTo(LEFTOVER, "x") && BelongsTo(LEFTOVER, "y") && !BelongsTo(CHILD, "y")
    ensures CHILD != LEFTOVER && PARENT != CHILD && PARENT != LEFTOVER
  {
    assert "x" + SEPARATOR == "x__" && "y" + SEPARATOR == "y__";
    assert CHILD[0] == 'x' && LEFTOVER[0] == 'y' && PARENT[0] == 'p';
  }

  /** Popping the leftover writes the outdated record, attached in memory before, to disk. */
  lemma PopWritesOutdatedRecord()
    ensures var disk := DiskAt(WORK.pipeline, STORE, "runtime", [CHILD], LEFTOVER);
            CHILD in disk && PARENT in disk && !Coherent(disk[CHILD], disk)
  {
    var registry := WORK.pipeline;
    var merged := MergedWith(registry, STORE, "runtime", [CHILD]);
    assert [CHILD] == [] + [CHILD];
    MergedStep(registry, STORE, "runtime", [], CHILD);
    assert merged == registry[CHILD := OUTDATED];
    var popped := merged - {LEFTOVER};
    assert Coherent(Bare("new"), popped);
    forall e | e in popped ensures e !in Dropped(popped, {LEFTOVER}) {
      if e in Dropped(popped, {LEFTOVER}) {
        DroppedIsAffected(popped, {LEFTOVER}, e);
        ReachesHead(ChildEdge(popped), LEFTOVER, e);
      }
    }
    var disk := AfterPop(merged, LEFTOVER);
    assert disk == popped;
    assert Verdict(OUTDATED, OUTDATED.dependencies[0], disk) == Some(OutputHashMismatch);
    assert OUTDATED.dependencies[0] in OUTDATED.dependencies;
    IncoherenceIsFailure(OUTDATED, disk);
  }

  /** The first copy passes and the second one raises. */
  lemma CopiesOfTheRun()
    ensures !CopyFails(WORK, STORE, LastCopyRaises(CHILD), CHILD) && CopyFails(WORK, STORE, LastCopyRaises(LEFTOVER), LEFTOVER)
  {
    OwnersOfTheRun();
  }

  /** Of two entries the second of which fails exactly the first is copied. */
  lemma StopsAtSecond(before: Contents, store: Contents, faults: Entry -> set<Step>, e: Entry, f: Entry, list: seq<Entry>)
    requires !CopyFails(before, store, faults(e), e) && CopyFails(before, store, faults(f), f)
    ensures !AllCopy(before, store, faults, [e, f])
    ensures Stopped(before, store, faults, [e, f], list) ==> list == [e] && [e, f][|list|] == f
  {
    assert f in [e, f];
    if Stopped(before, store, faults, [e, f], list) {
      assert [e, f][|list|] == if |list| == 0 then e else f;
    }
  }

  /** From a coherent registry a `prime` that raises leaves an incoherent one. */
  method InterruptedPrime(work: Directory, store: Directory)
    requires work != store && work.View() == WORK && store.View() == STORE
    modifies work
    ensures AllCoherent(old(work.pipeline)) && !AllCoherent(work.pipeline)
  {
    WorkIsCoherent();
    PopWritesOutdatedRecord();
    OrderOfTheRun();
    CopiesOfTheRun();
    ghost var before, shared := work.View(), store.View();
    var report, list := Prime(work, ["x", "y"], store, [], true, "runtime", LastCopyRaises);
    StopsAtSecond(before, shared, LastCopyRaises, CHILD, LEFTOVER, list);
    assert work.pipeline == DiskAt(before.pipeline, shared, "runtime", list, LEFTOVER);
  }
}

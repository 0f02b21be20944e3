/** A `prime` from a store that another runtime has filled. */
module CacheForeign {
  import opened Wrappers
  import opened CacheRecords
  import opened CacheInvalidation
  import opened CacheDirectory
  import opened CacheExport
  import opened CacheMerge
  import opened CachePrime
  import opened CacheInterruption

  const ENTRY := "m__0"
  const PARENTLESS := Record([], map[], Some("digest"), None)

  /** One entry, exported by a run on "python 3.10". */
  const FOREIGN := Contents(
    map[ENTRY := "result"], map[ENTRY := "cache"], map[ENTRY := Envelope(1, "python 3.10", Some(PARENTLESS))], map[])

  lemma OrderOfForeign()
    ensures PrimeOrder(map[], FOREIGN.results, ["m"], []) == [ENTRY]
  {
    assert "m" + SEPARATOR == "m__";
    OnlyEntry(FOREIGN.results, ENTRY, "m");
    OrderOfOneMore(map[], FOREIGN.results, [], "m", [], ENTRY);
    assert [] + ["m"] == ["m"] && [] + [ENTRY] == [ENTRY];
  }

  /** A record without parents is never lost. */
  lemma ParentlessIsKept(registry: Registry, environment: string, e: Entry)
    requires forall x :: x in MergedWith(registry, FOREIGN, environment, [ENTRY]) ==>
      MergedWith(registry, FOREIGN, environment, [ENTRY])[x].dependencies == []
    ensures !IsLost(registry, FOREIGN, environment, [ENTRY], e)
  {
    var merged := MergedWith(registry, FOREIGN, environment, [ENTRY]);
    assert StaleAtStart(merged, Elements([ENTRY])) == {};
    forall j | 0 <= j < 1 ensures e !in [ENTRY][..j] {}
  }

  lemma MergedIsParentless(environment: string)
    ensures forall x :: x in MergedWith(map[], FOREIGN, environment, [ENTRY]) ==>
      MergedWith(map[], FOREIGN, environment, [ENTRY])[x].dependencies == []
  {
    MergedDescends(map[], FOREIGN, environment, [ENTRY]);
  }

  lemma RecordsOfForeign(pipeline: Registry, environment: string)
    requires RecordsVouchedFor(map[], pipeline, FOREIGN, [ENTRY], environment)
    ensures pipeline == if environment == "python 3.10" then map[ENTRY := PARENTLESS] else map[]
  {
    MergedIsParentless(environment);
    ParentlessIsKept(map[], environment, ENTRY);
    assert environment == "python 3.10" ==> VouchedFor(FOREIGN, ENTRY, environment, PARENTLESS);
    forall e | e in pipeline
      ensures e == ENTRY && environment == "python 3.10" && pipeline[e] == PARENTLESS
    {
      assert e in [ENTRY];
      assert VouchedFor(FOREIGN, e, environment, pipeline[e]);
    }
  }

  lemma FilesOfForeign(after: Contents)
    requires FilesPrimed(Contents(map[], map[], map[], map[]), after, FOREIGN, Elements([ENTRY]))
    ensures after.results == map[ENTRY := "result"] && after.caches == map[ENTRY := "cache"]
  {
    forall e
      ensures e in after.results <==> e == ENTRY
      ensures e in after.caches <==> e == ENTRY
      ensures e == ENTRY ==> after.results[e] == "result" && after.caches[e] == "cache"
    {
      assert ArtifactsOf(after, e) == FilesOf(Contents(map[], map[], map[], map[]), FOREIGN, Elements([ENTRY]), e);
    }
  }

  /** The files arrive; the record does exactly when the run's runtime is the one that made it. */
  method ForeignPrime(work: Directory, store: Directory, environment: string)
    requires work != store && work.View() == Contents(map[], map[], map[], map[]) && store.View() == FOREIGN
    modifies work
    ensures work.results == map[ENTRY := "result"] && work.caches == map[ENTRY := "cache"]
    ensures work.pipeline == if environment == "python 3.10" then map[ENTRY := PARENTLESS] else map[]
  {
    var none := (e: Entry) => (var faults: set<Step> := {}; faults);
    OrderOfForeign();
    var report, list := Prime(work, ["m"], store, [], true, environment, none);
    FilesOfForeign(work.View());
    RecordsOfForeign(work.pipeline, environment);
  }
}

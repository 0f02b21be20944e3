/** What arrives when entries are exported into an empty store and primed into an empty directory. */
module CacheRoundTrip {
  import opened Wrappers
  import opened Graphs
  import opened CacheRecords
  import opened CacheInvalidation
  import opened CacheDirectory
  import opened CacheExport
  import opened CacheMerge
  import opened CachePrime

  function Restrict(registry: Registry, kept: set<Entry>): Registry {
    map e | e in registry && e in kept :: registry[e]
  }

  /** `r` remembers a digest for every parent. */
  ghost predicate FullyDigested(r: Record) {
    forall p :: IsParent(p, r) ==> p in r.recorded
  }

  /** In the travelling part of a coherent registry only the loss of an undigested parent makes a record incoherent. */
  lemma TravelVerdict(source: Registry, kept: set<Entry>, e: Entry)
    requires AllCoherent(source) && e in source && e in kept
    ensures Coherent(source[e], Restrict(source, kept)) <==>
      forall p :: IsParent(p, source[e]) && p !in source[e].recorded ==> p in source && p in kept
  {
    var gone := source.Keys - kept;
    assert Restrict(source, kept) == Without(source, gone);
    LossOfParents(source, gone, source[e]);
    IncoherenceIsFailure(source[e], source);
    forall p | IsParent(p, source[e]) && p !in source[e].recorded ensures p in source {
      var d :| d in source[e].dependencies && d.parent == p;
      assert Verdict(source[e], d, source) == None;
    }
  }

  /** A dropped travelling record has lost a parent it has no digest for. */
  lemma DroppedLostParent(source: Registry, kept: set<Entry>, primed: set<Entry>, e: Entry)
    requires AllCoherent(source) && kept <= primed && kept <= source.Keys && e in kept
    requires e in Dropped(Restrict(source, kept), primed)
    ensures exists p ::
      && IsParent(p, source[e]) && p !in source[e].recorded
      && (p !in kept || p in Dropped(Restrict(source, kept), primed))
  {
    var travelled := Restrict(source, kept);
    var rel := UndigestedEdge(travelled);
    TravelVerdict(source, kept, e);
    var s :| s in StaleAtStart(travelled, primed) && Reaches(rel, s, e);
    ReachesLast(rel, s, e);
    if s != e {
      var p :| Reaches(rel, s, p) && rel(p, e);
      assert p in travelled ==> p in Dropped(travelled, primed);
    }
  }

  /** A travelling record that is kept still has every parent it has no digest for. */
  lemma KeptHasParents(source: Registry, kept: set<Entry>, primed: set<Entry>, e: Entry)
    requires AllCoherent(source) && kept <= primed && kept <= source.Keys && e in kept
    requires e !in Dropped(Restrict(source, kept), primed)
    ensures forall p :: IsParent(p, source[e]) && p !in source[e].recorded ==>
      p in kept && p !in Dropped(Restrict(source, kept), primed)
  {
    var travelled := Restrict(source, kept);
    DroppedIsLeast(travelled, primed);
    CopiedIsAffected(travelled, primed, e);
    TravelVerdict(source, kept, e);
    assert e !in StaleAtStart(travelled, primed);
    forall p | IsParent(p, source[e]) && p !in source[e].recorded ensures p in kept && p !in Dropped(travelled, primed) {
      assert UndigestedEdge(travelled)(p, e);
    }
  }

  /** A travelling record survives exactly when every parent it has no digest for survives; it never changes. */
  lemma SurvivesIffParentsDo(source: Registry, kept: set<Entry>, primed: set<Entry>, e: Entry)
    requires AllCoherent(source) && kept <= primed && kept <= source.Keys && e in kept
    ensures var travelled := Restrict(source, kept);
            var left := Without(travelled, Dropped(travelled, primed));
            && (e in left <==> forall p :: IsParent(p, source[e]) && p !in source[e].recorded ==> p in left)
            && (e in left ==> left[e] == source[e])
            && (FullyDigested(source[e]) ==> e in left)
  {
    if e in Dropped(Restrict(source, kept), primed) {
      DroppedLostParent(source, kept, primed, e);
    } else {
      KeptHasParents(source, kept, primed, e);
    }
  }

  /** The exported entries and those of them whose record travels. */
  ghost function Travelling(source: Contents, modules: seq<string>): set<Entry> {
    set e | e in source.results && Requested(source.results, modules, e) && Shareable(source, e)
  }

  const NOTHING := Contents(map[], map[], map[], map[])

  /** The store has exactly the sidecars of the travelling records. */
  ghost predicate SidecarsTravelled(source: Contents, store: Contents, modules: seq<string>) {
    forall e :: Lookup(store.sidecars, e) == (if e in Travelling(source, modules) then Some(source.sidecars[e]) else None)
  }

  lemma ExportedFromNothing(source: Contents, store: Contents, modules: seq<string>, done: set<Entry>)
    requires ExportState(source, NOTHING, store, done, true)
    requires forall e :: e in done <==> Requested(source.results, modules, e)
    ensures forall e :: e in store.results <==> Requested(source.results, modules, e)
    ensures forall e :: e in store.results ==> ArtifactsOf(store, e) == ArtifactsOf(source, e)
    ensures SidecarsTravelled(source, store, modules)
  {
    forall e ensures (e in store.results <==> Requested(source.results, modules, e))
      && (e in store.results ==> ArtifactsOf(store, e) == ArtifactsOf(source, e))
      && Lookup(store.sidecars, e) == if e in Travelling(source, modules) then Some(source.sidecars[e]) else None
    {
      assert ShelfOf(store, e) == ShelfAfter(source, NOTHING, done, true, e);
    }
  }

  lemma NothingFailsExport(source: Contents, modules: seq<string>, none: Entry -> set<Step>)
    requires forall e :: none(e) == {}
    ensures AllExport(source, NOTHING, none, ExportOrder(source.results, NOTHING.results, modules, false))
  {
    OrderIsRequested(source.results, NOTHING.results, modules, false);
  }

  lemma ImportedIsTravelling(source: Contents, store: Contents, modules: seq<string>, primed: set<Entry>, environment: string)
    requires forall e :: e in store.results <==> Requested(source.results, modules, e)
    requires forall e :: e in store.results ==> ArtifactsOf(store, e) == ArtifactsOf(source, e)
    requires SidecarsTravelled(source, store, modules)
    requires forall e :: e in primed <==> ToPrime(NOTHING, store, modules, [], e)
    requires forall e :: e in Travelling(source, modules) ==> source.sidecars[e].environment == environment
    ensures forall e :: e in primed <==> Requested(source.results, modules, e)
    ensures Imported(store, primed, environment) == Restrict(source.pipeline, Travelling(source, modules))
  {
    forall e ensures e in primed <==> Requested(source.results, modules, e) {
      assert ToPrime(NOTHING, store, modules, [], e) <==> e in store.results && exists m :: m in modules && BelongsTo(e, m);
    }
    forall e ensures e in primed && Compatible(store, e, environment) <==> e in Travelling(source, modules) {
      assert Lookup(store.sidecars, e) == if e in Travelling(source, modules) then Some(source.sidecars[e]) else None;
      if e in Travelling(source, modules) { assert ArtifactsOf(store, e) == ArtifactsOf(source, e); }
    }
    forall e | e in Travelling(source, modules)
      ensures store.sidecars[e].metadata == Some(source.pipeline[e])
    {
      assert Lookup(store.sidecars, e) == Some(source.sidecars[e]);
    }
  }

  /** What the target must look like afterwards. */
  ghost predicate RoundTripped(source: Contents, target: Contents, modules: seq<string>) {
    && (forall e :: e in target.results <==> Requested(source.results, modules, e))
    && (forall e :: e in target.results ==> ArtifactsOf(target, e) == ArtifactsOf(source, e))
    && (forall e :: e in target.pipeline ==> e in Travelling(source, modules) && target.pipeline[e] == source.pipeline[e])
    && (forall e :: e in Travelling(source, modules) ==>
          (e in target.pipeline <==>
             forall p :: IsParent(p, source.pipeline[e]) && p !in source.pipeline[e].recorded ==> p in target.pipeline))
    && (forall e :: e in Travelling(source, modules) && FullyDigested(source.pipeline[e]) ==> e in target.pipeline)
    && AllCoherent(target.pipeline)
  }

  lemma FilesArrive(source: Contents, store: Contents, target: Contents, primed: set<Entry>)
    requires FilesPrimed(NOTHING, target, store, primed)
    requires forall e :: e in store.results ==> ArtifactsOf(store, e) == ArtifactsOf(source, e)
    ensures forall e :: e in target.results <==> e in primed
    ensures forall e :: e in target.results ==> ArtifactsOf(target, e) == ArtifactsOf(source, e)
  {
    forall e ensures e in target.results <==> e in primed { PresentOrPrimed(NOTHING, target, store, primed, e); }
    forall e | e in primed ensures ArtifactsOf(target, e) == ArtifactsOf(source, e) {
      assert ArtifactsOf(target, e) ==
        if e in primed then Published(ArtifactsOf(NOTHING, e), ArtifactsOf(store, e)) else ArtifactsOf(NOTHING, e);
    }
  }

  lemma RecordsArrive(source: Registry, kept: set<Entry>, primed: set<Entry>, pipeline: Registry)
    requires AllCoherent(source) && kept <= primed && kept <= source.Keys
    requires pipeline == Without(Restrict(source, kept), Dropped(Restrict(source, kept), primed))
    ensures forall e :: e in pipeline ==> e in kept && pipeline[e] == source[e]
    ensures forall e :: e in kept ==>
      (e in pipeline <==> forall p :: IsParent(p, source[e]) && p !in source[e].recorded ==> p in pipeline)
    ensures forall e :: e in kept && FullyDigested(source[e]) ==> e in pipeline
  {
    forall e | e in kept
      ensures e in pipeline <==> forall p :: IsParent(p, source[e]) && p !in source[e].recorded ==> p in pipeline
      ensures FullyDigested(source[e]) ==> e in pipeline
    {
      SurvivesIffParentsDo(source, kept, primed, e);
    }
  }

  lemma PrimedFromExport(source: Contents, store: Contents, target: Contents, modules: seq<string>,
                         list: seq<Entry>, environment: string)
    requires AllCoherent(source.pipeline)
    requires forall e :: e in store.results <==> Requested(source.results, modules, e)
    requires forall e :: e in store.results ==> ArtifactsOf(store, e) == ArtifactsOf(source, e)
    requires SidecarsTravelled(source, store, modules)
    requires forall e :: e in Travelling(source, modules) ==> source.sidecars[e].environment == environment
    requires list == PrimeOrder(NOTHING.results, store.results, modules, [])
    requires IsPrimed(NOTHING, target, store, list, true, environment)
    ensures RoundTripped(source, target, modules)
  {
    var kept, primed := Travelling(source, modules), Elements(list);
    OrderIsToPrime(NOTHING, store, modules, []);
    ImportedIsTravelling(source, store, modules, primed, environment);
    MergedFromNothing(store, list, environment);
    FilesArrive(source, store, target, primed);
    RecordsArrive(source.pipeline, kept, primed, target.pipeline);
    assert AllCoherent(NOTHING.pipeline);
  }

  lemma MergedFromNothing(store: Contents, list: seq<Entry>, environment: string)
    requires NoDup(list)
    ensures MergedWith(map[], store, environment, list) == Imported(store, Elements(list), environment)
  {
    var none: Registry := map[];
    WithoutLeftovers(none, store, environment, list);
    assert none + Imported(store, Elements(list), environment) == Imported(store, Elements(list), environment);
  }

  lemma NothingFails(store: Contents, modules: seq<string>, none: Entry -> set<Step>)
    requires forall e :: none(e) == {}
    ensures AllCopy(NOTHING, store, none, PrimeOrder(NOTHING.results, store.results, modules, []))
  {
    OrderIsToPrime(NOTHING, store, modules, []);
  }

  /** Export, then prime, without faults. */
  method ExportThenPrime(source: Directory, modules: seq<string>, store: Directory, target: Directory, environment: string)
    requires source != store && store != target && source != target
    requires store.View() == NOTHING && target.View() == NOTHING
    requires AllCoherent(source.pipeline)
    requires forall e :: e in Travelling(source.View(), modules) ==> source.sidecars[e].environment == environment
    modifies store, target
    ensures RoundTripped(source.View(), target.View(), modules)
  {
    var none := (e: Entry) => (var faults: set<Step> := {}; faults);
    NothingFailsExport(source.View(), modules, none);
    var report, exported := Export(source, modules, store, false, true, none);
    OrderIsRequested(source.results, NOTHING.results, modules, false);
    ExportedFromNothing(source.View(), store.View(), modules, Elements(exported));
    NothingFails(store.View(), modules, none);
    var arrived, list := Prime(target, modules, store, [], true, environment, none);
    PrimedFromExport(source.View(), store.View(), target.View(), modules, list, environment);
  }
}

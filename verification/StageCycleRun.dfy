/** `process_stages` on the cycle that nothing notices: it returns a registry in which no stage depends on another. */
module StageCycleRun {
  import opened Wrappers
  import opened Graphs
  import opened StageModel
  import opened StageDiscovery
  import opened StageConnection
  import opened StageWalk
  import opened StagePipeline
  import opened StageCycle

  /** No options, and every definition is its own final hash. */
  const PLAIN: Settings<string> := Settings((_: string) => map[], (_: string) => {}, (d: string, _: map<OptionName, Value>) => d)

  /** All stages are in the registry and no requirement is. */
  predicate WithoutDependencies(r: Result<map<Hash, Entry>, Error>) {
    r.Ok? && r.value.Keys == {"a", "b", "c"} && forall x :: x in r.value ==> r.value[x].dependencies == []
  }

  lemma EndIsTable(stages: map<Hash, Stage<string>>, keys: seq<Hash>)
    requires EndsWith(CYCLIC, ["c"], Ok(Discovery(stages, keys, [])))
    ensures stages == TABLE && keys == ["c", "a", "b"]
  {
    DiscoveryOfCycle();
    EndIsUnique(CYCLIC, ["c"], Ok(Discovery(stages, keys, [])), Ok(Discovery(TABLE, ["c", "a", "b"], [])));
  }

  lemma WalkOfCycleEnds()
    ensures WalkEnds(CYCLIC, ["c"])
  {
    CycleIsSilent();
    forall stages: map<Hash, Stage<string>>, keys: seq<Hash> | EndsWith(CYCLIC, ["c"], Ok(Discovery(stages, keys, [])))
      ensures Acyclic(WalkEdge(stages))
    {
      EndIsTable(stages, keys);
    }
  }

  lemma NothingIsReached(d: Hash)
    requires d in TABLE
    ensures NoneReached(CYCLIC, TABLE, d)
  {
    TableHasNoSource();
    assert ReachedStages(TABLE) == {};
  }

  lemma RowsOfCycle(stages: map<Hash, Stage<string>>, keys: seq<Hash>, slots: map<Hash, Slots>)
    requires IsConnected(CYCLIC, ["c"], stages, keys, slots)
    ensures stages == TABLE && slots == map[]
  {
    EndIsTable(stages, keys);
    forall d | d in TABLE ensures d !in slots { NothingIsReached(d); }
  }

  lemma NoFailure(failure: Failure)
    ensures !EndsWith(CYCLIC, ["c"], Err(failure))
  {
    DiscoveryOfCycle();
    var r: Result<Discovery<string>, Failure> := Err(failure);
    if EndsWith(CYCLIC, ["c"], r) { EndIsUnique(CYCLIC, ["c"], r, Ok(Discovery(TABLE, ["c", "a", "b"], []))); }
  }

  lemma NoEmptySlot()
    ensures !HasEmptySlot(CYCLIC, ["c"])
  {
    CycleIsSilent();
    forall stages: map<Hash, Stage<string>>, slots: map<Hash, Slots>, keys: seq<Hash> | IsConnected(CYCLIC, ["c"], stages, keys, slots)
      ensures AllOrNone(CYCLIC, stages)
    {
      EndIsTable(stages, keys);
    }
  }

  /** Without declared options no stage carries any. */
  lemma NoConflict()
    ensures !IsContradictory(CYCLIC, PLAIN, ["c"])
  {
    forall stages: map<Hash, Stage<string>>, slots: map<Hash, Slots> | SlotsComplete(slots)
      ensures !Ambiguous(GraphOf(PLAIN, stages, slots))
    {
      var g := GraphOf(PLAIN, stages, slots);
      forall t, o, v ensures !Declares(g, t, o, v) {}
      forall s, o, v ensures !Carries(g, s, o, v) {}
    }
  }

  /** Every stage is its own hash and depends on nothing; one of them was requested. */
  predicate Lonely(table: map<Hash, Hashed>) {
    && table.Keys == {"a", "b", "c"}
    && forall s :: s in table ==>
         table[s].hash == s && table[s].dependencies == [] && table[s].requiredIndex in {None, Some(0)}
  }

  lemma HashedCycle(config: map<Hash, map<OptionName, Value>>)
    requires config.Keys == TABLE.Keys
    ensures Lonely(HashedStages(PLAIN, TABLE, GraphOf(PLAIN, TABLE, map[]), config))
  {
    NamesDiffer();
    assert TABLE.Keys == {"a", "b", "c"};
  }

  lemma TableOfCycle(keys: seq<Hash>, table: map<Hash, Hashed>)
    requires IsPropagated(CYCLIC, PLAIN, ["c"], keys, table)
    ensures Lonely(table)
  {
    var stages, slots, config :| BringsTable(CYCLIC, PLAIN, ["c"], keys, table, stages, slots, config);
    RowsOfCycle(stages, keys, slots);
    HashedCycle(config);
  }

  /** Only one stage was requested. */
  lemma NoClash()
    ensures !HasRequestClash(CYCLIC, PLAIN, ["c"])
  {
    forall keys: seq<Hash>, table: map<Hash, Hashed> | IsPropagated(CYCLIC, PLAIN, ["c"], keys, table) ensures !Collision(table) {
      TableOfCycle(keys, table);
      forall x, i: nat | RequiredAs(table, x, i) ensures i == 0 {}
    }
  }

  predicate AloneAt(table: map<Hash, Hashed>, registry: map<Hash, Entry>, x: Hash) {
    (x in registry <==> x in table) && (x in registry ==> registry[x].dependencies == [])
  }

  /** Such stages are collapsed to themselves. */
  lemma CollapseOfLoners(keys: seq<Hash>, table: map<Hash, Hashed>, registry: map<Hash, Entry>, x: Hash)
    requires Lonely(table) && IsCollapse(keys, table, registry)
    ensures AloneAt(table, registry, x)
  {
    if x in table { assert table[x].hash == x; }
    if x in registry { assert |registry[x].dependencies| == |table[registry[x].stage].dependencies|; }
  }

  lemma AllAlone(table: map<Hash, Hashed>, registry: map<Hash, Entry>)
    requires table.Keys == {"a", "b", "c"} && forall x :: AloneAt(table, registry, x)
    ensures WithoutDependencies(Ok(registry))
  {
    forall x ensures x in registry <==> x in table { assert AloneAt(table, registry, x); }
    assert registry.Keys == table.Keys;
    forall x | x in registry ensures registry[x].dependencies == [] { assert AloneAt(table, registry, x); }
  }

  lemma CollapseOfCycle(registry: map<Hash, Entry>)
    requires IsProcessed(CYCLIC, PLAIN, ["c"], registry)
    ensures WithoutDependencies(Ok(registry))
  {
    var keys, table := TableOfRegistry(CYCLIC, PLAIN, ["c"], registry);
    TableOfCycle(keys, table);
    forall x ensures AloneAt(table, registry, x) { CollapseOfLoners(keys, table, registry, x); }
    AllAlone(table, registry);
  }

  /** The request for `c` succeeds, although `a` and `b` require each other. */
  method CycleIsProcessed() returns (r: Result<map<Hash, Entry>, Error>)
    ensures WithoutDependencies(r)
  {
    NamesDiffer();
    WalkOfCycleEnds();
    NoEmptySlot();
    NoConflict();
    NoClash();
    ghost var hashes: set<Hash> := {"a", "b", "c"};
    r := ProcessStages(CYCLIC, PLAIN, ["c"], (iset d: string | d in hashes), hashes);
    match r {
      case Err(NotDiscovered(failure)) => NoFailure(failure);
      case Err(_) =>
      case Ok(registry) => CollapseOfCycle(registry);
    }
  }
}

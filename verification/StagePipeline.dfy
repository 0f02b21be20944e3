/** Last phase of `process_stages`, the collapse by final hash, and the four phases put together. */
module StagePipeline {
  import opened Wrappers
  import opened Graphs
  import opened StageModel
  import opened StageDiscovery
  import opened StageConnection
  import opened StageWalk
  import opened StagePropagation

  datatype Entry = Entry(stage: Hash, dependencies: seq<Hash>, ephemeral: bool, requiredIndex: Option<nat>)

  datatype Error = NotDiscovered(failure: Failure) | EmptySlot | ConfigConflict | RequiredTwice

  /** What the collapse reads of each stage: its final hash, its dependencies before hashing, its flags. */
  datatype Hashed = Hashed(hash: Hash, dependencies: seq<Hash>, ephemeral: bool, requiredIndex: Option<nat>)

  function FinalHashes(ids: seq<Hash>, table: map<Hash, Hashed>): seq<Hash>
    requires forall i :: 0 <= i < |ids| ==> ids[i] in table
  {
    seq(|ids|, i requires 0 <= i < |ids| => table[ids[i]].hash)
  }

  /** The stage whose record represents hash `x`: the last one in table order. */
  ghost predicate IsLast(keys: seq<Hash>, table: map<Hash, Hashed>, x: Hash, s: Hash) {
    exists i :: 0 <= i < |keys| && keys[i] == s && s in table && table[s].hash == x &&
      forall j :: i < j < |keys| && keys[j] in table ==> table[keys[j]].hash != x
  }

  ghost predicate RequiredAs(table: map<Hash, Hashed>, x: Hash, index: nat) {
    exists s :: s in table && table[s].hash == x && table[s].requiredIndex == Some(index)
  }

  /** Two requested stages ended up with the same hash. */
  ghost predicate Collision(table: map<Hash, Hashed>) {
    exists x, i: nat, j: nat :: i != j && RequiredAs(table, x, i) && RequiredAs(table, x, j)
  }

  ghost predicate AllEphemeral(table: map<Hash, Hashed>, x: Hash) {
    forall s :: s in table && table[s].hash == x ==> table[s].ephemeral
  }

  ghost predicate HasHash(table: map<Hash, Hashed>, x: Hash) {
    exists s :: s in table && table[s].hash == x
  }

  /** The entry that stands for all stages with hash `x`. */
  ghost predicate IsEntry(keys: seq<Hash>, table: map<Hash, Hashed>, x: Hash, entry: Entry) {
    && IsLast(keys, table, x, entry.stage)
    && entry.stage in table
    && (forall i :: 0 <= i < |table[entry.stage].dependencies| ==> table[entry.stage].dependencies[i] in table)
    && entry.dependencies == FinalHashes(table[entry.stage].dependencies, table)
    && (entry.ephemeral <==> AllEphemeral(table, x))
    && (forall index: nat :: entry.requiredIndex == Some(index) <==> RequiredAs(table, x, index))
  }

  /** The registry that the collapse must produce. */
  ghost predicate IsCollapse(keys: seq<Hash>, table: map<Hash, Hashed>, registry: map<Hash, Entry>) {
    && (forall x :: x in registry <==> HasHash(table, x))
    && forall x :: x in registry ==> IsEntry(keys, table, x, registry[x])
  }

  /** Every dependency named in the registry is a key of the registry. */
  lemma CollapseIsClosed(keys: seq<Hash>, table: map<Hash, Hashed>, registry: map<Hash, Entry>, x: Hash, y: Hash)
    requires IsCollapse(keys, table, registry) && x in registry && y in registry[x].dependencies
    ensures y in registry
  {
    var ids := table[registry[x].stage].dependencies;
    var i :| 0 <= i < |registry[x].dependencies| && registry[x].dependencies[i] == y;
    assert FinalHashes(ids, table)[i] == table[ids[i]].hash;
  }

  /** `required` holds the index of the requested stage with hash `x`, if there is one. */
  ghost predicate AsRequired(table: map<Hash, Hashed>, required: map<Hash, nat>, x: Hash) {
    forall index: nat :: RequiredAs(table, x, index) <==> x in required && required[x] == index
  }

  /** `required_hashes`, or a failure when two requested stages collide. */
  method RequiredHashes(keys: seq<Hash>, table: map<Hash, Hashed>) returns (ok: bool, required: map<Hash, nat>)
    requires forall k :: k in keys <==> k in table
    ensures ok <==> !Collision(table)
    ensures ok ==> forall x :: AsRequired(table, required, x)
  {
    required := map[];
    for i := 0 to |keys|
      invariant forall x :: x in required ==> RequiredAs(table, x, required[x])
      invariant forall j :: 0 <= j < i && table[keys[j]].requiredIndex.Some? ==>
        table[keys[j]].hash in required && required[table[keys[j]].hash] == table[keys[j]].requiredIndex.value
    {
      assert keys[i] in keys;
      var stage := table[keys[i]];
      if stage.requiredIndex.Some? {
        var index := stage.requiredIndex.value;
        assert RequiredAs(table, stage.hash, index);
        if stage.hash in required {
          if required[stage.hash] != index { return false, required; }
        } else {
          required := required[stage.hash := index];
        }
      }
    }
    forall x, index: nat | RequiredAs(table, x, index) ensures x in required && required[x] == index {
      var s :| s in table && table[s].hash == x && table[s].requiredIndex == Some(index);
      var j :| 0 <= j < |keys| && keys[j] == s;
    }
    ok := true;
  }

  /** The registry once the stages of `some` are collapsed. */
  ghost predicate Collapsing(some: seq<Hash>, table: map<Hash, Hashed>, required: map<Hash, nat>, ephemeralHashes: set<Hash>,
                             registry: map<Hash, Entry>)
    requires forall s, d :: s in table && d in table[s].dependencies ==> d in table
    requires forall s :: s in some ==> s in table
  {
    && (forall s :: s in some ==> table[s].hash in registry)
    && forall x :: x in registry ==>
         && registry[x].stage in table && table[registry[x].stage].hash == x
         && IsLast(some, table, x, registry[x].stage)
         && registry[x] == Record(table, required, ephemeralHashes, registry[x].stage)
  }

  lemma CollapseStep(some: seq<Hash>, table: map<Hash, Hashed>, required: map<Hash, nat>, ephemeralHashes: set<Hash>,
                     registry: map<Hash, Entry>, s: Hash)
    requires forall t, d :: t in table && d in table[t].dependencies ==> d in table
    requires s in table && forall t :: t in some ==> t in table
    requires Collapsing(some, table, required, ephemeralHashes, registry)
    ensures Collapsing(some + [s], table, required, ephemeralHashes,
                       registry[table[s].hash := Record(table, required, ephemeralHashes, s)])
  {
    var more := registry[table[s].hash := Record(table, required, ephemeralHashes, s)];
    forall x | x in more ensures IsLast(some + [s], table, x, more[x].stage) {
      if x == table[s].hash {
        assert (some + [s])[|some|] == s;
      } else {
        LastAppend(some, table, x, registry[x].stage, s);
      }
    }
  }

  lemma RecordIsEntry(keys: seq<Hash>, table: map<Hash, Hashed>, required: map<Hash, nat>, ephemeralHashes: set<Hash>, x: Hash, s: Hash)
    requires forall t, d :: t in table && d in table[t].dependencies ==> d in table
    requires s in table && IsLast(keys, table, x, s)
    requires x in ephemeralHashes <==> AllEphemeral(table, x)
    requires AsRequired(table, required, x)
    ensures IsEntry(keys, table, x, Record(table, required, ephemeralHashes, s))
  {
  }

  /** The hashes of ephemeral stages only. */
  function EphemeralHashes(table: map<Hash, Hashed>): (r: set<Hash>)
    ensures forall x :: x in r <==> HasHash(table, x) && AllEphemeral(table, x)
  {
    var hashes := set s | s in table :: table[s].hash;
    var kept := set s | s in table && !table[s].ephemeral :: table[s].hash;
    hashes - kept
  }

  /** The final registry at one hash. */
  lemma CollapsedAt(keys: seq<Hash>, table: map<Hash, Hashed>, required: map<Hash, nat>, registry: map<Hash, Entry>, x: Hash)
    requires forall k :: k in keys <==> k in table
    requires forall s, d :: s in table && d in table[s].dependencies ==> d in table
    requires AsRequired(table, required, x)
    requires Collapsing(keys, table, required, EphemeralHashes(table), registry)
    ensures x in registry <==> HasHash(table, x)
    ensures x in registry ==> IsEntry(keys, table, x, registry[x])
  {
    if x in registry {
      var s := registry[x].stage;
      assert HasHash(table, x);
      RecordIsEntry(keys, table, required, EphemeralHashes(table), x, s);
    }
  }

  lemma CollapseIsComplete(keys: seq<Hash>, table: map<Hash, Hashed>, required: map<Hash, nat>, registry: map<Hash, Entry>)
    requires forall k :: k in keys <==> k in table
    requires forall s, d :: s in table && d in table[s].dependencies ==> d in table
    requires forall x :: AsRequired(table, required, x)
    requires Collapsing(keys, table, required, EphemeralHashes(table), registry)
    ensures IsCollapse(keys, table, registry)
  {
    forall x
      ensures x in registry <==> HasHash(table, x)
      ensures x in registry ==> IsEntry(keys, table, x, registry[x])
    {
      CollapsedAt(keys, table, required, registry, x);
    }
  }

  method Collapse(keys: seq<Hash>, table: map<Hash, Hashed>) returns (r: Result<map<Hash, Entry>, Error>)
    requires forall k :: k in keys <==> k in table
    requires forall s, d :: s in table && d in table[s].dependencies ==> d in table
    ensures r.Err? <==> Collision(table)
    ensures r.Err? ==> r.error == RequiredTwice
    ensures r.Ok? ==> IsCollapse(keys, table, r.value)
  {
    var ok, required := RequiredHashes(keys, table);
    if !ok { return Err(RequiredTwice); }
    var ephemeralHashes := EphemeralHashes(table);
    var registry: map<Hash, Entry> := map[];
    for i := 0 to |keys|
      invariant forall s :: s in keys[..i] ==> s in table
      invariant Collapsing(keys[..i], table, required, ephemeralHashes, registry)
    {
      var s := keys[i];
      assert s in keys;
      assert keys[..i + 1] == keys[..i] + [s];
      CollapseStep(keys[..i], table, required, ephemeralHashes, registry, s);
      registry := registry[table[s].hash := Record(table, required, ephemeralHashes, s)];
    }
    assert keys[..|keys|] == keys;
    CollapseIsComplete(keys, table, required, registry);
    r := Ok(registry);
  }

  lemma LastAppend(keys: seq<Hash>, table: map<Hash, Hashed>, x: Hash, s: Hash, t: Hash)
    requires IsLast(keys, table, x, s) && t in table && table[t].hash != x
    ensures IsLast(keys + [t], table, x, s)
  {
    var i :| 0 <= i < |keys| && keys[i] == s && s in table && table[s].hash == x &&
      forall j :: i < j < |keys| && keys[j] in table ==> table[keys[j]].hash != x;
    assert (keys + [t])[i] == s;
  }

  function Record(table: map<Hash, Hashed>, required: map<Hash, nat>, ephemeralHashes: set<Hash>, s: Hash): Entry
    requires s in table && forall d :: d in table[s].dependencies ==> d in table
  {
    var x := table[s].hash;
    Entry(s, FinalHashes(table[s].dependencies, table), x in ephemeralHashes, if x in required then Some(required[x]) else None)
  }

  // ----- the four phases together

  /** What configuring a definition declares, and how a configured stage is finally hashed; uninterpreted here. */
  datatype Settings<!D> = Settings(
    config: D -> map<OptionName, Value>,
    volatileOptions: D -> set<OptionName>,
    hashName: (D, map<OptionName, Value>) -> Hash)

  function Values(row: Slots): seq<Hash>
    requires forall p :: 0 <= p < |row| ==> row[p].Some?
  {
    seq(|row|, p requires 0 <= p < |row| => row[p].value)
  }

  /** The table that propagation works on. */
  function GraphOf<D>(settings: Settings<D>, stages: map<Hash, Stage<D>>, slots: map<Hash, Slots>): Graph
    requires SlotsComplete(slots)
  {
    Graph(map u | u in stages :: settings.config(stages[u].definition),
          map u | u in stages :: settings.volatileOptions(stages[u].definition),
          map d | d in slots :: Values(slots[d]),
          map u | u in stages :: Callers(stages, u))
  }

  /** What the registry has to say about the discovered stages, given their final configs. */
  function HashedStages<D>(settings: Settings<D>, stages: map<Hash, Stage<D>>, g: Graph,
                           config: map<Hash, map<OptionName, Value>>): map<Hash, Hashed>
    requires config.Keys == stages.Keys
  {
    map s | s in stages :: Hashed(settings.hashName(stages[s].definition, config[s]), Dependencies(g, s),
                                  stages[s].ephemeral, stages[s].requiredIndex)
  }

  lemma DependenciesAreValues<D>(settings: Settings<D>, stages: map<Hash, Stage<D>>, slots: map<Hash, Slots>, d: Hash)
    requires SlotsComplete(slots)
    ensures Dependencies(GraphOf(settings, stages, slots), d) == if d in slots then Values(slots[d]) else []
  {
  }

  lemma TargetIsStage<D>(w: World<D>, stages: map<Hash, Stage<D>>, d: Hash, p: nat)
    requires IsDiscovered(w, stages) && d in stages && p < |w.upstreams(stages[d].definition)|
    ensures SlotTarget(w, stages, d, p) in stages
  {
    assert IsCall(w, stages, CallAt(w, stages[d].definition, d, p));
  }

  /** With complete rows a stage depends on exactly what its definition requires, or on nothing if none of it was reached. */
  lemma DependenciesAreRequirements<D>(w: World<D>, settings: Settings<D>, stages: map<Hash, Stage<D>>, slots: map<Hash, Slots>, d: Hash)
    requires IsDiscovered(w, stages) && ReachedSlotsFilled(w, stages, slots) && d in stages
    requires SlotsComplete(slots)
    ensures var deps := Dependencies(GraphOf(settings, stages, slots), d);
            if NoneReached(w, stages, d) then deps == []
            else
              && |deps| == |w.upstreams(stages[d].definition)|
              && forall p :: 0 <= p < |deps| ==>
                   deps[p] == SlotTarget(w, stages, d, p) && deps[p] in stages && IsReached(w, stages, d, p)
  {
    var deps := Dependencies(GraphOf(settings, stages, slots), d);
    DependenciesAreValues(settings, stages, slots, d);
    if !NoneReached(w, stages, d) {
      var row := slots[d];
      forall p: nat | p < |row| ensures deps[p] == SlotTarget(w, stages, d, p) && deps[p] in stages && IsReached(w, stages, d, p) {
        assert row[p].Some? && deps[p] == row[p].value;
        TargetIsStage(w, stages, d, p);
      }
    }
  }

  /** The table handed to propagation is well formed and has no cycle, so none can be reported there. */
  lemma PropagationIsReady<D>(w: World<D>, settings: Settings<D>, stages: map<Hash, Stage<D>>, slots: map<Hash, Slots>)
    requires IsDiscovered(w, stages) && ReachedSlotsFilled(w, stages, slots) && slots.Keys <= stages.Keys
    requires SlotsComplete(slots) && Acyclic(WalkEdge(stages))
    ensures WellFormed(GraphOf(settings, stages, slots))
    ensures Acyclic(DependencyEdge(GraphOf(settings, stages, slots)))
  {
    var g := GraphOf(settings, stages, slots);
    forall d | d in stages { DependenciesAreRequirements(w, settings, stages, slots, d); }
    forall u, d | DependencyEdge(g)(u, d) ensures WalkEdge(stages)(u, d) {
      var p :| 0 <= p < |Dependencies(g, d)| && Dependencies(g, d)[p] == u;
      var info := CallAt(w, stages[d].definition, d, p);
      assert IsCall(w, stages, info);
      assert info in Callers(stages, u);
    }
    forall p | IsPath(DependencyEdge(g), p) && |p| >= 2 ensures p[0] != p[|p| - 1] {
      assert IsPath(WalkEdge(stages), p);
    }
  }

  /** On the table that discovery ends with, the walk enters no cycle; otherwise `process_stages` does not end. */
  ghost predicate WalkEnds<D(!new)>(w: World<D>, definitions: seq<D>) {
    forall stages: map<Hash, Stage<D>>, keys: seq<Hash> ::
      DiscoveredFrom(w, definitions, stages, keys) && EndsWith(w, definitions, Ok(Discovery(stages, keys, []))) ==>
        Acyclic(WalkEdge(stages))
  }

  lemma RankedWalkEnds<D(!new)>(w: World<D>, definitions: seq<D>, rank: Hash -> nat)
    requires RankedWorld(w, rank)
    ensures WalkEnds(w, definitions)
  {
    forall stages: map<Hash, Stage<D>>, keys: seq<Hash> | DiscoveredFrom(w, definitions, stages, keys)
      ensures Acyclic(WalkEdge(stages))
    {
      RankedWorldIsAcyclic(w, rank, stages);
    }
  }

  /** The table that discovery ends with, and its rows after the walk. */
  ghost predicate IsConnected<D(!new)>(w: World<D>, definitions: seq<D>, stages: map<Hash, Stage<D>>, keys: seq<Hash>, slots: map<Hash, Slots>) {
    && DiscoveredFrom(w, definitions, stages, keys)
    && EndsWith(w, definitions, Ok(Discovery(stages, keys, [])))
    && ReachedSlotsFilled(w, stages, slots) && slots.Keys <= stages.Keys
    && (Acyclic(CallerEdge(stages)) ==> AllSlotsFilled(w, stages, slots))
  }

  /** Connected without an empty slot. */
  ghost predicate IsComplete<D(!new)>(w: World<D>, definitions: seq<D>, stages: map<Hash, Stage<D>>, keys: seq<Hash>, slots: map<Hash, Slots>) {
    IsConnected(w, definitions, stages, keys, slots) && SlotsComplete(slots) && AllOrNone(w, stages)
  }

  /** `table` is what these stages bring to the collapse once their configs are propagated. */
  ghost predicate BringsTable<D(!new)>(w: World<D>, settings: Settings<D>, definitions: seq<D>, keys: seq<Hash>, table: map<Hash, Hashed>,
                                       stages: map<Hash, Stage<D>>, slots: map<Hash, Slots>, config: map<Hash, map<OptionName, Value>>) {
    && IsComplete(w, definitions, stages, keys, slots)
    && Propagates(GraphOf(settings, stages, slots), Done(config))
    && config.Keys == stages.Keys
    && table == HashedStages(settings, stages, GraphOf(settings, stages, slots), config)
  }

  /** A table obtained by discovering, connecting and propagating. */
  ghost predicate IsPropagated<D(!new)>(w: World<D>, settings: Settings<D>, definitions: seq<D>, keys: seq<Hash>, table: map<Hash, Hashed>) {
    exists stages: map<Hash, Stage<D>>, slots: map<Hash, Slots>, config: map<Hash, map<OptionName, Value>> ::
      BringsTable(w, settings, definitions, keys, table, stages, slots, config)
  }

  /** A registry obtained by collapsing such a table. */
  ghost predicate IsProcessed<D(!new)>(w: World<D>, settings: Settings<D>, definitions: seq<D>, registry: map<Hash, Entry>) {
    exists keys: seq<Hash>, table: map<Hash, Hashed> ::
      IsPropagated(w, settings, definitions, keys, table) && IsCollapse(keys, table, registry)
  }

  /** Some stage has a requirement reached and another one not: its row holds an empty slot. */
  ghost predicate HasEmptySlot<D(!new)>(w: World<D>, definitions: seq<D>) {
    exists stages: map<Hash, Stage<D>>, slots: map<Hash, Slots>, keys: seq<Hash> ::
      IsConnected(w, definitions, stages, keys, slots) && !AllOrNone(w, stages) && !Acyclic(CallerEdge(stages))
  }

  /** The discovered stages carry contradictory options. */
  ghost predicate IsContradictory<D(!new)>(w: World<D>, settings: Settings<D>, definitions: seq<D>) {
    exists stages: map<Hash, Stage<D>>, slots: map<Hash, Slots>, keys: seq<Hash> ::
      IsComplete(w, definitions, stages, keys, slots) && Ambiguous(GraphOf(settings, stages, slots))
  }

  /** Two requested stages end with one final hash, although their indices differ. */
  ghost predicate HasRequestClash<D(!new)>(w: World<D>, settings: Settings<D>, definitions: seq<D>) {
    exists keys: seq<Hash>, table: map<Hash, Hashed> ::
      IsPropagated(w, settings, definitions, keys, table) && Collision(table)
  }

  lemma ConnectionIsComplete<D(!new)>(w: World<D>, definitions: seq<D>, stages: map<Hash, Stage<D>>, keys: seq<Hash>, slots: map<Hash, Slots>)
    requires DiscoveredFrom(w, definitions, stages, keys) && EndsWith(w, definitions, Ok(Discovery(stages, keys, [])))
    requires Faithful(w, stages, ReachedStages(stages), slots) && Reported(stages, ReachedStages(stages), slots)
    ensures IsConnected(w, definitions, stages, keys, slots)
    ensures SlotsComplete(slots) <==> AllOrNone(w, stages)
    ensures !AllOrNone(w, stages) ==> !Acyclic(CallerEdge(stages))
  {
    WalkFillsReachedSlots(w, stages, slots);
    CompleteIffAllOrNone(w, stages, slots);
    if Acyclic(CallerEdge(stages)) { ReachedIsAllFilled(w, stages, slots); }
  }

  /** A table that propagation can work on: its keys are listed once, dependencies stay within it and form no cycle. */
  ghost predicate IsReady(hashes: set<Hash>, keys: seq<Hash>, g: Graph) {
    && WellFormed(g) && Acyclic(DependencyEdge(g))
    && g.config.Keys == hashes && NoDup(keys) && (forall k :: k in keys <==> k in hashes)
    && g.dependencies.Keys <= hashes
  }

  lemma ConnectedIsReady<D(!new)>(w: World<D>, settings: Settings<D>, definitions: seq<D>, stages: map<Hash, Stage<D>>, keys: seq<Hash>,
                                  slots: map<Hash, Slots>)
    requires IsConnected(w, definitions, stages, keys, slots) && SlotsComplete(slots) && Acyclic(WalkEdge(stages))
    ensures IsReady(stages.Keys, keys, GraphOf(settings, stages, slots))
  {
    PropagationIsReady(w, settings, stages, slots);
  }

  /** What propagation and collapse make of a table; `config` are the final configs if propagation succeeds. */
  ghost predicate IsFinished<D(!new)>(settings: Settings<D>, stages: map<Hash, Stage<D>>, keys: seq<Hash>, g: Graph,
                                      config: map<Hash, map<OptionName, Value>>, r: Result<map<Hash, Entry>, Error>) {
    && (r.Err? ==> r.error == ConfigConflict || r.error == RequiredTwice)
    && (r == Err(ConfigConflict) ==> Ambiguous(g))
    && (r != Err(ConfigConflict) ==>
          && Propagates(g, Done(config)) && config.Keys == stages.Keys
          && (r.Ok? ==> IsCollapse(keys, HashedStages(settings, stages, g, config), r.value))
          && (r.Err? ==> Collision(HashedStages(settings, stages, g, config))))
  }

  /** Propagation and collapse of a connected table. */
  method PropagateAndCollapse<D(!new)>(settings: Settings<D>, stages: map<Hash, Stage<D>>, keys: seq<Hash>, g: Graph)
    returns (r: Result<map<Hash, Entry>, Error>, ghost config: map<Hash, map<OptionName, Value>>)
    requires IsReady(stages.Keys, keys, g)
    ensures IsFinished(settings, stages, keys, g, config, r)
  {
    var table := new StageTable(keys, g);
    var outcome := table.Propagate();
    config := map[];
    if !outcome.Done? { return Err(ConfigConflict), config; }
    config := outcome.config;
    var hashed := HashedStages(settings, stages, g, outcome.config);
    r := Collapse(keys, hashed);
  }

  /** Each outcome of `process_stages` and what it means. */
  ghost predicate IsOutcome<D(!new)>(w: World<D>, settings: Settings<D>, definitions: seq<D>, r: Result<map<Hash, Entry>, Error>) {
    match r
    case Ok(registry) => IsProcessed(w, settings, definitions, registry)
    case Err(EmptySlot) => HasEmptySlot(w, definitions)
    case Err(ConfigConflict) => IsContradictory(w, settings, definitions)
    case Err(RequiredTwice) => HasRequestClash(w, settings, definitions)
    case Err(NotDiscovered(failure)) =>
      && EndsWith(w, definitions, Err(failure))
      && (failure.FoundCycle? ==> HasRepetition(w, definitions))
      && (failure.MissingDownstream? ==> !RequestedOnce(w, definitions) || RequestedAndRequired(w, definitions))
  }

  /** The outcomes of a connected table, said of the world. */
  lemma FinishedIsProcessed<D(!new)>(w: World<D>, settings: Settings<D>, definitions: seq<D>, stages: map<Hash, Stage<D>>, keys: seq<Hash>,
                                     slots: map<Hash, Slots>, config: map<Hash, map<OptionName, Value>>, r: Result<map<Hash, Entry>, Error>)
    requires IsConnected(w, definitions, stages, keys, slots) && SlotsComplete(slots) && AllOrNone(w, stages)
    requires IsFinished(settings, stages, keys, GraphOf(settings, stages, slots), config, r)
    ensures IsOutcome(w, settings, definitions, r)
  {
    assert IsComplete(w, definitions, stages, keys, slots);
    var g := GraphOf(settings, stages, slots);
    if r != Err(ConfigConflict) {
      var table := HashedStages(settings, stages, g, config);
      assert BringsTable(w, settings, definitions, keys, table, stages, slots, config);
      assert IsPropagated(w, settings, definitions, keys, table);
    }
  }

  /** `process_stages`, for tables on which the connection walk ends. */
  method ProcessStages<D(!new)>(w: World<D>, settings: Settings<D>, definitions: seq<D>,
                                ghost reach: iset<D>, ghost hashes: set<Hash>)
    returns (r: Result<map<Hash, Entry>, Error>)
    requires FinitelyMany(w, reach, hashes) && forall i :: 0 <= i < |definitions| ==> definitions[i] in reach
    requires WalkEnds(w, definitions)
    ensures IsOutcome(w, settings, definitions, r)
  {
    var discovered, keys := Discover(w, definitions, reach, hashes);
    if discovered.Err? { return Err(NotDiscovered(discovered.error)); }
    var stages := discovered.value;
    var slots := Connect(w, stages, keys);
    ConnectionIsComplete(w, definitions, stages, keys, slots);
    if !SlotsComplete(slots) { return Err(EmptySlot); }
    ConnectedIsReady(w, settings, definitions, stages, keys, slots);
    ghost var config;
    r, config := PropagateAndCollapse(settings, stages, keys, GraphOf(settings, stages, slots));
    FinishedIsProcessed(w, settings, definitions, stages, keys, slots, config, r);
  }

  /** The empty slot arises exactly when the table that discovery ends with has a stage with some requirements reached and some not. */
  lemma EmptySlotIff<D(!new)>(w: World<D>, definitions: seq<D>, stages: map<Hash, Stage<D>>, keys: seq<Hash>)
    requires EndsWith(w, definitions, Ok(Discovery(stages, keys, [])))
    ensures HasEmptySlot(w, definitions) <==> !AllOrNone(w, stages)
  {
    EndIsDiscovered(w, definitions, stages, keys);
    var slots := RowsOf(w, stages);
    if HasEmptySlot(w, definitions) {
      var stages', slots', keys' :| IsConnected(w, definitions, stages', keys', slots') && !AllOrNone(w, stages') && !Acyclic(CallerEdge(stages'));
      EndIsUnique(w, definitions, Ok(Discovery(stages, keys, [])), Ok(Discovery(stages', keys', [])));
    }
    if Acyclic(CallerEdge(stages)) { ReachedIsAllFilled(w, stages, slots); }
    assert IsConnected(w, definitions, stages, keys, slots);
  }

  // ----- one outcome

  lemma LastIsUnique(keys: seq<Hash>, table: map<Hash, Hashed>, x: Hash, s: Hash, t: Hash)
    requires IsLast(keys, table, x, s) && IsLast(keys, table, x, t)
    ensures s == t
  {
    var i :| 0 <= i < |keys| && keys[i] == s && s in table && table[s].hash == x &&
      forall k :: i < k < |keys| && keys[k] in table ==> table[keys[k]].hash != x;
    var j :| 0 <= j < |keys| && keys[j] == t && t in table && table[t].hash == x &&
      forall k :: j < k < |keys| && keys[k] in table ==> table[keys[k]].hash != x;
    assert i == j;
  }

  lemma CollapsedAgree(keys: seq<Hash>, table: map<Hash, Hashed>, a: map<Hash, Entry>, b: map<Hash, Entry>, x: Hash)
    requires IsCollapse(keys, table, a) && IsCollapse(keys, table, b)
    ensures x in a <==> x in b
    ensures x in a ==> a[x] == b[x]
  {
    if x in a {
      LastIsUnique(keys, table, x, a[x].stage, b[x].stage);
      if a[x].requiredIndex.Some? { assert RequiredAs(table, x, a[x].requiredIndex.value); }
      if b[x].requiredIndex.Some? { assert RequiredAs(table, x, b[x].requiredIndex.value); }
    }
  }

  lemma CollapseIsDetermined(keys: seq<Hash>, table: map<Hash, Hashed>, a: map<Hash, Entry>, b: map<Hash, Entry>)
    requires IsCollapse(keys, table, a) && IsCollapse(keys, table, b)
    ensures a == b
  {
    forall x
      ensures x in a <==> x in b
      ensures x in a ==> a[x] == b[x]
    {
      CollapsedAgree(keys, table, a, b, x);
    }
  }

  lemma CollapseMeansNoCollision(keys: seq<Hash>, table: map<Hash, Hashed>, registry: map<Hash, Entry>)
    requires IsCollapse(keys, table, registry)
    ensures !Collision(table)
  {
    forall x, i: nat, j: nat | RequiredAs(table, x, i) && RequiredAs(table, x, j) ensures i == j {
      assert x in registry;
    }
  }

  lemma ConnectedIsDetermined<D(!new)>(w: World<D>, definitions: seq<D>, stages: map<Hash, Stage<D>>, keys: seq<Hash>, slots: map<Hash, Slots>,
                                       again: map<Hash, Stage<D>>, list: seq<Hash>, rows: map<Hash, Slots>)
    requires IsConnected(w, definitions, stages, keys, slots) && IsConnected(w, definitions, again, list, rows)
    ensures stages == again && keys == list && slots == rows
  {
    EndIsUnique(w, definitions, Ok(Discovery(stages, keys, [])), Ok(Discovery(again, list, [])));
    RowsAreDetermined(w, stages, slots);
    RowsAreDetermined(w, stages, rows);
  }

  lemma DoneMeansUnambiguous(g: Graph, config: map<Hash, map<OptionName, Value>>)
    requires Propagates(g, Done(config))
    ensures !Ambiguous(g)
  {
    if Ambiguous(g) { OutcomeIgnoresOrder(g, g, Done(config), Conflict); }
  }

  /** A connected table rules out the failures of discovery. */
  lemma ConnectedMeansDiscovered<D(!new)>(w: World<D>, definitions: seq<D>, stages: map<Hash, Stage<D>>, keys: seq<Hash>, slots: map<Hash, Slots>)
    requires IsConnected(w, definitions, stages, keys, slots)
    ensures forall failure :: !EndsWith(w, definitions, Err(failure))
    ensures HasEmptySlot(w, definitions) ==> !AllOrNone(w, stages)
  {
    var end := Ok(Discovery(stages, keys, []));
    forall failure | EndsWith(w, definitions, Err(failure)) ensures Err(failure) == end {
      EndIsUnique(w, definitions, Err(failure), end);
    }
    EmptySlotIff(w, definitions, stages, keys);
  }

  lemma PropagatedIsDetermined<D(!new)>(w: World<D>, settings: Settings<D>, definitions: seq<D>, keys: seq<Hash>, table: map<Hash, Hashed>,
                                        list: seq<Hash>, again: map<Hash, Hashed>)
    requires IsPropagated(w, settings, definitions, keys, table) && IsPropagated(w, settings, definitions, list, again)
    ensures keys == list && table == again
  {
    var stages, slots, config :| BringsTable(w, settings, definitions, keys, table, stages, slots, config);
    var stages', slots', config' :| BringsTable(w, settings, definitions, list, again, stages', slots', config');
    ConnectedIsDetermined(w, definitions, stages, keys, slots, stages', list, slots');
    var g := GraphOf(settings, stages, slots);
    OutcomeIgnoresOrder(g, g, Done(config), Done(config'));
  }

  /** A table that reaches the collapse rules out every earlier failure. */
  lemma PropagatedMeansNoEarlierFailure<D(!new)>(w: World<D>, settings: Settings<D>, definitions: seq<D>, keys: seq<Hash>, table: map<Hash, Hashed>)
    requires IsPropagated(w, settings, definitions, keys, table)
    ensures forall failure :: !EndsWith(w, definitions, Err(failure))
    ensures !HasEmptySlot(w, definitions) && !IsContradictory(w, settings, definitions)
  {
    var stages, slots, config :| BringsTable(w, settings, definitions, keys, table, stages, slots, config);
    ConnectedMeansDiscovered(w, definitions, stages, keys, slots);
    DoneMeansUnambiguous(GraphOf(settings, stages, slots), config);
    forall stages': map<Hash, Stage<D>>, slots': map<Hash, Slots>, keys': seq<Hash> | IsComplete(w, definitions, stages', keys', slots')
      ensures !Ambiguous(GraphOf(settings, stages', slots'))
    {
      ConnectedIsDetermined(w, definitions, stages, keys, slots, stages', keys', slots');
    }
  }

  lemma ContradictionMeansConnected<D(!new)>(w: World<D>, settings: Settings<D>, definitions: seq<D>)
    requires IsContradictory(w, settings, definitions)
    ensures forall failure :: !EndsWith(w, definitions, Err(failure))
    ensures !HasEmptySlot(w, definitions)
  {
    var stages, slots, keys :| IsComplete(w, definitions, stages, keys, slots) && Ambiguous(GraphOf(settings, stages, slots));
    ConnectedMeansDiscovered(w, definitions, stages, keys, slots);
  }

  lemma EmptySlotMeansDiscovered<D(!new)>(w: World<D>, definitions: seq<D>)
    requires HasEmptySlot(w, definitions)
    ensures forall failure :: !EndsWith(w, definitions, Err(failure))
  {
    var stages, slots, keys :| IsConnected(w, definitions, stages, keys, slots) && !AllOrNone(w, stages) && !Acyclic(CallerEdge(stages));
    ConnectedMeansDiscovered(w, definitions, stages, keys, slots);
  }

  /** How far `process_stages` gets: no further phase can be reached with another outcome. */
  function Phase(r: Result<map<Hash, Entry>, Error>): nat {
    match r
    case Err(NotDiscovered(_)) => 0
    case Err(EmptySlot) => 1
    case Err(ConfigConflict) => 2
    case _ => 3
  }

  ghost predicate ClosesWith(keys: seq<Hash>, table: map<Hash, Hashed>, r: Result<map<Hash, Entry>, Error>) {
    match r
    case Ok(registry) => IsCollapse(keys, table, registry)
    case Err(e) => e == RequiredTwice && Collision(table)
  }

  lemma TableOfRegistry<D(!new)>(w: World<D>, settings: Settings<D>, definitions: seq<D>, registry: map<Hash, Entry>)
    returns (keys: seq<Hash>, table: map<Hash, Hashed>)
    requires IsProcessed(w, settings, definitions, registry)
    ensures IsPropagated(w, settings, definitions, keys, table) && IsCollapse(keys, table, registry)
  {
    keys, table :| IsPropagated(w, settings, definitions, keys, table) && IsCollapse(keys, table, registry);
  }

  lemma TableOfClash<D(!new)>(w: World<D>, settings: Settings<D>, definitions: seq<D>)
    returns (keys: seq<Hash>, table: map<Hash, Hashed>)
    requires HasRequestClash(w, settings, definitions)
    ensures IsPropagated(w, settings, definitions, keys, table) && Collision(table)
  {
    keys, table :| IsPropagated(w, settings, definitions, keys, table) && Collision(table);
  }

  /** The table that an outcome of the last phase is about. */
  lemma LastPhaseIsPropagated<D(!new)>(w: World<D>, settings: Settings<D>, definitions: seq<D>, r: Result<map<Hash, Entry>, Error>)
    returns (keys: seq<Hash>, table: map<Hash, Hashed>)
    requires IsOutcome(w, settings, definitions, r) && Phase(r) == 3
    ensures IsPropagated(w, settings, definitions, keys, table) && ClosesWith(keys, table, r)
  {
    match r
    case Ok(registry) => keys, table := TableOfRegistry(w, settings, definitions, registry);
    case Err(RequiredTwice) => keys, table := TableOfClash(w, settings, definitions);
  }

  /** An outcome of a later phase rules out those of the earlier ones. */
  lemma PhaseIsUnique<D(!new)>(w: World<D>, settings: Settings<D>, definitions: seq<D>, r: Result<map<Hash, Entry>, Error>,
                               q: Result<map<Hash, Entry>, Error>)
    requires IsOutcome(w, settings, definitions, r) && IsOutcome(w, settings, definitions, q)
    ensures Phase(q) >= Phase(r)
  {
    if Phase(r) == 3 {
      var keys, table := LastPhaseIsPropagated(w, settings, definitions, r);
      PropagatedMeansNoEarlierFailure(w, settings, definitions, keys, table);
    } else if Phase(r) == 2 {
      ContradictionMeansConnected(w, settings, definitions);
    } else if Phase(r) == 1 {
      EmptySlotMeansDiscovered(w, definitions);
    }
  }

  lemma SameCollapse(keys: seq<Hash>, table: map<Hash, Hashed>, r: Result<map<Hash, Entry>, Error>, q: Result<map<Hash, Entry>, Error>)
    requires ClosesWith(keys, table, r) && ClosesWith(keys, table, q)
    ensures r == q
  {
    if r.Ok? { CollapseMeansNoCollision(keys, table, r.value); }
    if q.Ok? { CollapseMeansNoCollision(keys, table, q.value); }
    if r.Ok? && q.Ok? { CollapseIsDetermined(keys, table, r.value, q.value); }
  }

  lemma LastPhaseIsUnique<D(!new)>(w: World<D>, settings: Settings<D>, definitions: seq<D>, r: Result<map<Hash, Entry>, Error>,
                                   q: Result<map<Hash, Entry>, Error>)
    requires IsOutcome(w, settings, definitions, r) && IsOutcome(w, settings, definitions, q) && Phase(r) == Phase(q) == 3
    ensures r == q
  {
    var keys, table := LastPhaseIsPropagated(w, settings, definitions, r);
    var list, again := LastPhaseIsPropagated(w, settings, definitions, q);
    PropagatedIsDetermined(w, settings, definitions, keys, table, list, again);
    SameCollapse(keys, table, r, q);
  }

  /** `process_stages` has one result: the registry, or the failure, is determined by world, settings and definitions. */
  lemma OutcomeIsUnique<D(!new)>(w: World<D>, settings: Settings<D>, definitions: seq<D>, r: Result<map<Hash, Entry>, Error>,
                                 q: Result<map<Hash, Entry>, Error>)
    requires IsOutcome(w, settings, definitions, r) && IsOutcome(w, settings, definitions, q)
    ensures r == q
  {
    PhaseIsUnique(w, settings, definitions, r, q);
    PhaseIsUnique(w, settings, definitions, q, r);
    if Phase(r) == 3 {
      LastPhaseIsUnique(w, settings, definitions, r, q);
    } else if Phase(r) == 0 {
      var a: Result<Discovery<D>, Failure>, b: Result<Discovery<D>, Failure> := Err(r.error.failure), Err(q.error.failure);
      EndIsUnique(w, definitions, a, b);
    }
  }
}

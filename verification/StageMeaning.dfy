/** What the registry of `process_stages` says, in terms of definitions, declared options and calls alone. */
module StageMeaning {
  import opened Wrappers
  import opened Graphs
  import opened StageModel
  import opened StageDiscovery
  import opened StageConnection
  import opened StageWalk
  import opened StagePipeline

  // ----- which options a stage holds in the end

  /** At slot `p` the stage `d` requires `u`. */
  ghost predicate RequiresAt<D>(w: World<D>, stages: map<Hash, Stage<D>>, d: Hash, p: nat, u: Hash) {
    && d in stages && p < |w.upstreams(stages[d].definition)|
    && w.identify(w.upstreams(stages[d].definition)[p].definition) == u
  }

  /** Some stage passes `o` explicitly when it requires `u`. */
  ghost predicate PassedTo<D>(w: World<D>, stages: map<Hash, Stage<D>>, u: Hash, o: OptionName) {
    exists d, p: nat :: RequiresAt(w, stages, d, p, u) && o in w.upstreams(stages[d].definition)[p].passed
  }

  /** `o` gets from `u` to `d`: `d` requires `u` and is connected, nobody passes `o` to `u`, and it is not volatile there. */
  ghost predicate Crosses<D>(w: World<D>, settings: Settings<D>, stages: map<Hash, Stage<D>>, o: OptionName, u: Hash, d: Hash) {
    && u in stages && (exists p: nat :: RequiresAt(w, stages, d, p, u))
    && !NoneReached(w, stages, d)
    && !PassedTo(w, stages, u, o)
    && o !in settings.volatileOptions(stages[u].definition)
  }

  /** The first stage of the path declares `o` as `v`, and `o` crosses every step to `s`. */
  ghost predicate Brings<D>(w: World<D>, settings: Settings<D>, stages: map<Hash, Stage<D>>, path: seq<Hash>, s: Hash, o: OptionName, v: Value) {
    && path != [] && path[|path| - 1] == s && path[0] in stages
    && o in settings.config(stages[path[0]].definition) && settings.config(stages[path[0]].definition)[o] == v
    && forall i, j :: 0 <= i < |path| && j == i + 1 && j < |path| ==> Crosses(w, settings, stages, o, path[i], path[j])
  }

  ghost predicate IsBrought<D>(w: World<D>, settings: Settings<D>, stages: map<Hash, Stage<D>>, s: Hash, o: OptionName, v: Value) {
    exists path :: Brings(w, settings, stages, path, s, o, v)
  }

  /** `config` holds for each stage exactly what it declares itself or is brought from a stage that does. */
  ghost predicate HoldsBrought<D>(w: World<D>, settings: Settings<D>, stages: map<Hash, Stage<D>>, config: map<Hash, map<OptionName, Value>>) {
    && config.Keys == stages.Keys
    && forall s, o, v :: s in stages ==>
         ((o in config[s] && config[s][o] == v) <==> IsBrought(w, settings, stages, s, o, v))
  }

  // ----- the table handed to propagation

  /** The table takes options and volatile options from the settings of each stage, and passed options from the calls. */
  lemma TableIsOfSettings<D>(w: World<D>, settings: Settings<D>, stages: map<Hash, Stage<D>>, slots: map<Hash, Slots>, u: Hash, o: OptionName)
    requires IsDiscovered(w, stages) && SlotsComplete(slots) && u in stages
    ensures var g := GraphOf(settings, stages, slots);
            && g.config.Keys == stages.Keys
            && g.config[u] == settings.config(stages[u].definition)
            && u in g.volatileOptions && g.volatileOptions[u] == settings.volatileOptions(stages[u].definition)
            && (Explicit(g, u, o) <==> PassedTo(w, stages, u, o))
  {
    var g := GraphOf(settings, stages, slots);
    assert Downstream(g, u) == Callers(stages, u);
    if info :| info in Callers(stages, u) && o in info.passed {
      assert IsCall(w, stages, info) && w.identify(Callee(w, stages, info)) == u;
      assert RequiresAt(w, stages, info.hash, info.position, u);
    }
    if d, p: nat :| RequiresAt(w, stages, d, p, u) && o in w.upstreams(stages[d].definition)[p].passed {
      var info := CallAt(w, stages[d].definition, d, p);
      assert IsCall(w, stages, info) && w.identify(Callee(w, stages, info)) == u;
      assert info in Downstream(g, u) && o in info.passed;
    }
  }

  lemma FlowIsCrossing<D>(w: World<D>, settings: Settings<D>, stages: map<Hash, Stage<D>>, slots: map<Hash, Slots>, o: OptionName, u: Hash, d: Hash)
    requires IsDiscovered(w, stages) && ReachedSlotsFilled(w, stages, slots) && SlotsComplete(slots)
    ensures FlowEdge(GraphOf(settings, stages, slots), o)(u, d) <==> Crosses(w, settings, stages, o, u, d)
  {
    var g := GraphOf(settings, stages, slots);
    if d in stages {
      DependenciesAreRequirements(w, settings, stages, slots, d);
      var deps := Dependencies(g, d);
      if u in stages { TableIsOfSettings(w, settings, stages, slots, u, o); }
      if u in deps {
        var p :| 0 <= p < |deps| && deps[p] == u;
        assert SlotTarget(w, stages, d, p) == u;
        assert RequiresAt(w, stages, d, p, u);
      }
      if !NoneReached(w, stages, d) {
        if p: nat :| RequiresAt(w, stages, d, p, u) { assert deps[p] == SlotTarget(w, stages, d, p); }
      }
    }
  }

  lemma CarriedIsBrought<D>(w: World<D>, settings: Settings<D>, stages: map<Hash, Stage<D>>, slots: map<Hash, Slots>, s: Hash, o: OptionName, v: Value)
    requires IsDiscovered(w, stages) && ReachedSlotsFilled(w, stages, slots) && SlotsComplete(slots)
    ensures Carries(GraphOf(settings, stages, slots), s, o, v) <==> IsBrought(w, settings, stages, s, o, v)
  {
    var g := GraphOf(settings, stages, slots);
    var rel := FlowEdge(g, o);
    forall a, b ensures rel(a, b) <==> Crosses(w, settings, stages, o, a, b) { FlowIsCrossing(w, settings, stages, slots, o, a, b); }
    if Carries(g, s, o, v) {
      var t :| Declares(g, t, o, v) && Reaches(rel, t, s);
      var path :| PathBetween(rel, path, t, s);
      TableIsOfSettings(w, settings, stages, slots, t, o);
      assert Brings(w, settings, stages, path, s, o, v);
    }
    if path :| Brings(w, settings, stages, path, s, o, v) {
      TableIsOfSettings(w, settings, stages, slots, path[0], o);
      assert Declares(g, path[0], o, v);
      assert PathBetween(rel, path, path[0], s);
    }
  }

  // ----- the registry

  /** The key of a stage is taken of its definition and its final config. */
  ghost predicate HasKey<D>(settings: Settings<D>, stages: map<Hash, Stage<D>>, config: map<Hash, map<OptionName, Value>>, s: Hash, x: Hash) {
    s in stages && s in config && settings.hashName(stages[s].definition, config[s]) == x
  }

  /** The entry at key `x`, item by item. */
  ghost predicate EntryMeans<D>(w: World<D>, settings: Settings<D>, definitions: seq<D>, stages: map<Hash, Stage<D>>, keys: seq<Hash>,
                                config: map<Hash, map<OptionName, Value>>, x: Hash, entry: Entry) {
    && HasKey(settings, stages, config, entry.stage, x)
    && (exists i :: 0 <= i < |keys| && keys[i] == entry.stage
          && forall j :: i < j < |keys| ==> !HasKey(settings, stages, config, keys[j], x))
    && (if NoneReached(w, stages, entry.stage) then entry.dependencies == []
        else
          && |entry.dependencies| == |w.upstreams(stages[entry.stage].definition)|
          && forall p: nat, u :: RequiresAt(w, stages, entry.stage, p, u) ==> HasKey(settings, stages, config, u, entry.dependencies[p]))
    && (entry.ephemeral <==> forall s :: HasKey(settings, stages, config, s, x) ==> stages[s].ephemeral)
    && (forall index: nat :: entry.requiredIndex == Some(index) <==>
          index < |definitions| && HasKey(settings, stages, config, w.identify(definitions[index]), x))
  }

  ghost predicate RegistryMeans<D>(w: World<D>, settings: Settings<D>, definitions: seq<D>, stages: map<Hash, Stage<D>>, keys: seq<Hash>,
                                   config: map<Hash, map<OptionName, Value>>, registry: map<Hash, Entry>) {
    && HoldsBrought(w, settings, stages, config)
    && (forall x :: x in registry <==> exists s :: HasKey(settings, stages, config, s, x))
    && forall x :: x in registry ==> EntryMeans(w, settings, definitions, stages, keys, config, x, registry[x])
  }

  lemma BroughtAt<D(!new)>(w: World<D>, settings: Settings<D>, definitions: seq<D>, keys: seq<Hash>, stages: map<Hash, Stage<D>>,
                           slots: map<Hash, Slots>, c: map<OptionName, Value>, s: Hash, o: OptionName, v: Value)
    requires IsComplete(w, definitions, stages, keys, slots) && IsExact(GraphOf(settings, stages, slots), s, c)
    ensures (o in c && c[o] == v) <==> IsBrought(w, settings, stages, s, o, v)
  {
    assert Binds(c, o, v) <==> Carries(GraphOf(settings, stages, slots), s, o, v);
    CarriedIsBrought(w, settings, stages, slots, s, o, v);
  }

  lemma BroughtConfig<D(!new)>(w: World<D>, settings: Settings<D>, definitions: seq<D>, keys: seq<Hash>, table: map<Hash, Hashed>,
                               stages: map<Hash, Stage<D>>, slots: map<Hash, Slots>, config: map<Hash, map<OptionName, Value>>)
    requires BringsTable(w, settings, definitions, keys, table, stages, slots, config)
    ensures HoldsBrought(w, settings, stages, config)
  {
    forall s, o, v | s in stages
      ensures (o in config[s] && config[s][o] == v) <==> IsBrought(w, settings, stages, s, o, v)
    {
      BroughtAt(w, settings, definitions, keys, stages, slots, config[s], s, o, v);
    }
  }

  lemma HashIsKey<D(!new)>(w: World<D>, settings: Settings<D>, definitions: seq<D>, keys: seq<Hash>, table: map<Hash, Hashed>,
                           stages: map<Hash, Stage<D>>, slots: map<Hash, Slots>, config: map<Hash, map<OptionName, Value>>, s: Hash, x: Hash)
    requires BringsTable(w, settings, definitions, keys, table, stages, slots, config)
    ensures (s in table && table[s].hash == x) <==> HasKey(settings, stages, config, s, x)
    ensures s in table ==> s in stages && table[s].ephemeral == stages[s].ephemeral && table[s].requiredIndex == stages[s].requiredIndex
    ensures s in table ==> table[s].dependencies == Dependencies(GraphOf(settings, stages, slots), s)
  {
  }

  /** Requested as number `index` with that key: the stage that the definition resolves to. */
  lemma RequiredIsRequested<D(!new)>(w: World<D>, settings: Settings<D>, definitions: seq<D>, keys: seq<Hash>, table: map<Hash, Hashed>,
                                     stages: map<Hash, Stage<D>>, slots: map<Hash, Slots>, config: map<Hash, map<OptionName, Value>>, x: Hash, index: nat)
    requires BringsTable(w, settings, definitions, keys, table, stages, slots, config)
    ensures RequiredAs(table, x, index) <==>
            index < |definitions| && HasKey(settings, stages, config, w.identify(definitions[index]), x)
  {
    if RequiredAs(table, x, index) {
      var s :| s in table && table[s].hash == x && table[s].requiredIndex == Some(index);
      HashIsKey(w, settings, definitions, keys, table, stages, slots, config, s, x);
      assert stages[s].downstream.None?;
    }
    if index < |definitions| && HasKey(settings, stages, config, w.identify(definitions[index]), x) {
      var s := w.identify(definitions[index]);
      HashIsKey(w, settings, definitions, keys, table, stages, slots, config, s, x);
      assert IsRequestOf(stages[s], index);
    }
  }

  lemma DependenciesAreKeys<D(!new)>(w: World<D>, settings: Settings<D>, definitions: seq<D>, keys: seq<Hash>, table: map<Hash, Hashed>,
                                     stages: map<Hash, Stage<D>>, slots: map<Hash, Slots>, config: map<Hash, map<OptionName, Value>>, s: Hash)
    requires BringsTable(w, settings, definitions, keys, table, stages, slots, config) && s in table
    requires forall i :: 0 <= i < |table[s].dependencies| ==> table[s].dependencies[i] in table
    ensures var deps := FinalHashes(table[s].dependencies, table);
            if NoneReached(w, stages, s) then deps == []
            else
              && |deps| == |w.upstreams(stages[s].definition)|
              && forall p: nat, u :: RequiresAt(w, stages, s, p, u) ==> HasKey(settings, stages, config, u, deps[p])
  {
    HashIsKey(w, settings, definitions, keys, table, stages, slots, config, s, table[s].hash);
    DependenciesAreRequirements(w, settings, stages, slots, s);
    var ids := table[s].dependencies;
    if !NoneReached(w, stages, s) {
      forall p: nat, u | RequiresAt(w, stages, s, p, u) ensures HasKey(settings, stages, config, u, FinalHashes(ids, table)[p]) {
        assert ids[p] == SlotTarget(w, stages, s, p) == u;
        HashIsKey(w, settings, definitions, keys, table, stages, slots, config, u, table[u].hash);
      }
    }
  }

  lemma EntryIsMeant<D(!new)>(w: World<D>, settings: Settings<D>, definitions: seq<D>, keys: seq<Hash>, table: map<Hash, Hashed>,
                              stages: map<Hash, Stage<D>>, slots: map<Hash, Slots>, config: map<Hash, map<OptionName, Value>>, x: Hash, entry: Entry)
    requires BringsTable(w, settings, definitions, keys, table, stages, slots, config) && IsEntry(keys, table, x, entry)
    ensures EntryMeans(w, settings, definitions, stages, keys, config, x, entry)
  {
    forall s ensures (s in table && table[s].hash == x) <==> HasKey(settings, stages, config, s, x) {
      HashIsKey(w, settings, definitions, keys, table, stages, slots, config, s, x);
    }
    forall s | s in table ensures s in stages && table[s].ephemeral == stages[s].ephemeral {
      HashIsKey(w, settings, definitions, keys, table, stages, slots, config, s, x);
    }
    forall index: nat
      ensures RequiredAs(table, x, index) <==>
              index < |definitions| && HasKey(settings, stages, config, w.identify(definitions[index]), x)
    {
      RequiredIsRequested(w, settings, definitions, keys, table, stages, slots, config, x, index);
    }
    DependenciesAreKeys(w, settings, definitions, keys, table, stages, slots, config, entry.stage);
    LastHasKey(w, settings, definitions, keys, table, stages, slots, config, x, entry.stage);
  }

  lemma LastHasKey<D(!new)>(w: World<D>, settings: Settings<D>, definitions: seq<D>, keys: seq<Hash>, table: map<Hash, Hashed>,
                            stages: map<Hash, Stage<D>>, slots: map<Hash, Slots>, config: map<Hash, map<OptionName, Value>>, x: Hash, s: Hash)
    requires BringsTable(w, settings, definitions, keys, table, stages, slots, config) && IsLast(keys, table, x, s)
    ensures exists i :: 0 <= i < |keys| && keys[i] == s && forall j :: i < j < |keys| ==> !HasKey(settings, stages, config, keys[j], x)
  {
    var i :| 0 <= i < |keys| && keys[i] == s && s in table && table[s].hash == x &&
      forall j :: i < j < |keys| && keys[j] in table ==> table[keys[j]].hash != x;
    forall j | i < j < |keys| ensures !HasKey(settings, stages, config, keys[j], x) {
      HashIsKey(w, settings, definitions, keys, table, stages, slots, config, keys[j], x);
    }
  }

  lemma KeysAreMeant<D(!new)>(w: World<D>, settings: Settings<D>, definitions: seq<D>, keys: seq<Hash>, table: map<Hash, Hashed>,
                              stages: map<Hash, Stage<D>>, slots: map<Hash, Slots>, config: map<Hash, map<OptionName, Value>>, x: Hash)
    requires BringsTable(w, settings, definitions, keys, table, stages, slots, config)
    ensures HasHash(table, x) <==> exists s :: HasKey(settings, stages, config, s, x)
  {
    forall s ensures (s in table && table[s].hash == x) <==> HasKey(settings, stages, config, s, x) {
      HashIsKey(w, settings, definitions, keys, table, stages, slots, config, s, x);
    }
  }

  lemma CollapseIsMeant<D(!new)>(w: World<D>, settings: Settings<D>, definitions: seq<D>, keys: seq<Hash>, table: map<Hash, Hashed>,
                                 stages: map<Hash, Stage<D>>, slots: map<Hash, Slots>, config: map<Hash, map<OptionName, Value>>,
                                 registry: map<Hash, Entry>)
    requires BringsTable(w, settings, definitions, keys, table, stages, slots, config) && IsCollapse(keys, table, registry)
    ensures RegistryMeans(w, settings, definitions, stages, keys, config, registry)
  {
    BroughtConfig(w, settings, definitions, keys, table, stages, slots, config);
    forall x ensures x in registry <==> exists s :: HasKey(settings, stages, config, s, x) {
      KeysAreMeant(w, settings, definitions, keys, table, stages, slots, config, x);
    }
    forall x | x in registry ensures EntryMeans(w, settings, definitions, stages, keys, config, x, registry[x]) {
      EntryIsMeant(w, settings, definitions, keys, table, stages, slots, config, x, registry[x]);
    }
  }

  lemma TableIsBrought<D(!new)>(w: World<D>, settings: Settings<D>, definitions: seq<D>, keys: seq<Hash>, table: map<Hash, Hashed>)
    returns (stages: map<Hash, Stage<D>>, slots: map<Hash, Slots>, config: map<Hash, map<OptionName, Value>>)
    requires IsPropagated(w, settings, definitions, keys, table)
    ensures BringsTable(w, settings, definitions, keys, table, stages, slots, config)
  {
    stages, slots, config :| BringsTable(w, settings, definitions, keys, table, stages, slots, config);
  }

  /** What a registry returned by `process_stages` means: its keys are the hashes of the discovered definitions with the
      options they declare or are brought, and each entry says of its key what is said there. */
  lemma RegistryIsMeant<D(!new)>(w: World<D>, settings: Settings<D>, definitions: seq<D>, registry: map<Hash, Entry>)
    returns (stages: map<Hash, Stage<D>>, keys: seq<Hash>, config: map<Hash, map<OptionName, Value>>)
    requires IsOutcome(w, settings, definitions, Ok(registry))
    ensures EndsWith(w, definitions, Ok(Discovery(stages, keys, []))) && DiscoveredFrom(w, definitions, stages, keys)
    ensures RegistryMeans(w, settings, definitions, stages, keys, config, registry)
  {
    var list, table := TableOfRegistry(w, settings, definitions, registry);
    var slots;
    keys := list;
    stages, slots, config := TableIsBrought(w, settings, definitions, keys, table);
    CollapseIsMeant(w, settings, definitions, keys, table, stages, slots, config, registry);
  }
}

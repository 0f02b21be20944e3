/** A request of two stages: an option of the upstream one is part of the key of the downstream one. */
module StageKeys {
  import opened Wrappers
  import opened Graphs
  import opened StageModel
  import opened StageDiscovery
  import opened StageConnection
  import opened StageWalk
  import opened StagePipeline
  import opened StageMeaning
  import opened StageFailures

  /** `r` requires `a`. */
  function Pair(r: string, a: string): World<string> {
    Plain(map[r := [a]])
  }

  /** `a` declares `o` as `v`, not volatile; `r` declares nothing. */
  predicate DeclaredUpstream(settings: Settings<string>, r: string, a: string, o: OptionName, v: Value) {
    settings.config(a) == map[o := v] && settings.config(r) == map[] && settings.volatileOptions(a) == {}
  }

  lemma TableOfPair(r: string, a: string, stages: map<Hash, Stage<string>>)
    requires r != a && Tabled(map[r := [a]], {r, a}, r, stages)
    ensures stages.Keys == {r, a} && stages[r].definition == r && stages[a].definition == a
    ensures !NoneReached(Pair(r, a), stages, r) && AllOrNone(Pair(r, a), stages)
  {
    var w, req := Pair(r, a), map[r := [a]];
    assert req[r][0] == a && r in stages && a in stages;
    SourcesOfTable(req, {r, a}, r, stages, a);
    ReachesSelf(CallerEdge(stages), a);
    assert a in ReachedStages(stages);
    assert SlotTarget(w, stages, r, 0) == a && IsReached(w, stages, r, 0);
    assert AllReached(w, stages, r) && AllReached(w, stages, a);
  }

  lemma OptionCrosses(settings: Settings<string>, r: string, a: string, o: OptionName, v: Value, stages: map<Hash, Stage<string>>)
    requires r != a && DeclaredUpstream(settings, r, a, o, v) && Tabled(map[r := [a]], {r, a}, r, stages)
    ensures Crosses(Pair(r, a), settings, stages, o, a, r)
  {
    var w := Pair(r, a);
    TableOfPair(r, a, stages);
    assert w.upstreams(r) == [Upstream(a, {}, false)] && w.upstreams(a) == [];
    assert RequiresAt(w, stages, r, 0, a);
    forall d, p: nat | RequiresAt(w, stages, d, p, a) ensures o !in w.upstreams(stages[d].definition)[p].passed {}
  }

  /** Both stages hold the option in the end, and nothing else. */
  lemma BothHold(settings: Settings<string>, r: string, a: string, o: OptionName, v: Value, stages: map<Hash, Stage<string>>,
                 s: Hash, q: OptionName, x: Value)
    requires r != a && DeclaredUpstream(settings, r, a, o, v) && Tabled(map[r := [a]], {r, a}, r, stages) && s in stages
    ensures IsBrought(Pair(r, a), settings, stages, s, q, x) <==> q == o && x == v
  {
    var w := Pair(r, a);
    TableOfPair(r, a, stages);
    OptionCrosses(settings, r, a, o, v, stages);
    assert Brings(w, settings, stages, [a], a, o, v);
    assert Brings(w, settings, stages, [a, r], r, o, v);
  }

  lemma ConfigOfPair(settings: Settings<string>, r: string, a: string, o: OptionName, v: Value, stages: map<Hash, Stage<string>>,
                     config: map<Hash, map<OptionName, Value>>)
    requires r != a && DeclaredUpstream(settings, r, a, o, v) && Tabled(map[r := [a]], {r, a}, r, stages)
    requires HoldsBrought(Pair(r, a), settings, stages, config)
    ensures r in config && a in config && config[r] == map[o := v] && config[a] == map[o := v]
  {
    TableOfPair(r, a, stages);
    forall s | s in stages ensures config[s] == map[o := v] {
      BothHold(settings, r, a, o, v, stages, s, o, v);
      forall q | q in config[s] ensures q == o { BothHold(settings, r, a, o, v, stages, s, q, config[s][q]); }
      assert config[s].Keys == {o};
    }
  }

  /** `r` and `a` are in the registry under the hash of themselves with that option, `r` as the one requested. */
  ghost predicate KeyedWith(settings: Settings<string>, r: string, a: string, option: map<OptionName, Value>, registry: map<Hash, Entry>) {
    && registry.Keys == {settings.hashName(r, option), settings.hashName(a, option)}
    && registry[settings.hashName(r, option)].requiredIndex == Some(0)
  }

  lemma HashOfPair(settings: Settings<string>, r: string, a: string, option: map<OptionName, Value>, stages: map<Hash, Stage<string>>,
                   config: map<Hash, map<OptionName, Value>>, z: Hash)
    requires stages.Keys == {r, a} && stages[r].definition == r && stages[a].definition == a
    requires r in config && a in config && config[r] == option && config[a] == option
    ensures (exists s :: HasKey(settings, stages, config, s, z)) <==>
            z == settings.hashName(r, option) || z == settings.hashName(a, option)
    ensures HasKey(settings, stages, config, r, z) <==> z == settings.hashName(r, option)
  {
    if z == settings.hashName(a, option) { assert HasKey(settings, stages, config, a, z); }
    if z == settings.hashName(r, option) { assert HasKey(settings, stages, config, r, z); }
    forall s | HasKey(settings, stages, config, s, z) ensures s == r || s == a { assert s in stages.Keys; }
  }

  lemma KeySetOfPair(settings: Settings<string>, r: string, a: string, option: map<OptionName, Value>, stages: map<Hash, Stage<string>>,
                     config: map<Hash, map<OptionName, Value>>, keys: set<Hash>)
    requires stages.Keys == {r, a} && stages[r].definition == r && stages[a].definition == a
    requires r in config && a in config && config[r] == option && config[a] == option
    requires forall x :: x in keys <==> exists s :: HasKey(settings, stages, config, s, x)
    ensures keys == {settings.hashName(r, option), settings.hashName(a, option)}
  {
    forall z ensures z in keys <==> z == settings.hashName(r, option) || z == settings.hashName(a, option) {
      HashOfPair(settings, r, a, option, stages, config, z);
    }
  }

  lemma KeysOfPair(settings: Settings<string>, r: string, a: string, option: map<OptionName, Value>, stages: map<Hash, Stage<string>>,
                   keys: seq<Hash>, config: map<Hash, map<OptionName, Value>>, registry: map<Hash, Entry>)
    requires stages.Keys == {r, a} && stages[r].definition == r && stages[a].definition == a
    requires r in config && a in config && config[r] == option && config[a] == option
    requires RegistryMeans(Pair(r, a), settings, [r], stages, keys, config, registry)
    ensures KeyedWith(settings, r, a, option, registry)
  {
    var x := settings.hashName(r, option);
    KeySetOfPair(settings, r, a, option, stages, config, registry.Keys);
    assert x in registry.Keys;
    HashOfPair(settings, r, a, option, stages, config, x);
    RequestOfPair(settings, r, a, stages, keys, config, x, registry[x]);
  }

  lemma RequestOfPair(settings: Settings<string>, r: string, a: string, stages: map<Hash, Stage<string>>, keys: seq<Hash>,
                      config: map<Hash, map<OptionName, Value>>, x: Hash, entry: Entry)
    requires EntryMeans(Pair(r, a), settings, [r], stages, keys, config, x, entry) && HasKey(settings, stages, config, r, x)
    ensures entry.requiredIndex == Some(0)
  {
    assert Pair(r, a).identify([r][0]) == r;
  }

  /** The key of `r` is the hash of `r` with the option that only `a` declares. */
  lemma UpstreamOptionInKey(settings: Settings<string>, r: string, a: string, o: OptionName, v: Value, registry: map<Hash, Entry>)
    requires r != a && DeclaredUpstream(settings, r, a, o, v)
    requires IsOutcome(Pair(r, a), settings, [r], Ok(registry))
    ensures KeyedWith(settings, r, a, map[o := v], registry)
  {
    var stages, keys, config := RegistryIsMeant(Pair(r, a), settings, [r], registry);
    PairIsKeyed(settings, r, a, o, v, stages, keys, config, registry);
  }

  lemma PairIsKeyed(settings: Settings<string>, r: string, a: string, o: OptionName, v: Value, stages: map<Hash, Stage<string>>,
                    keys: seq<Hash>, config: map<Hash, map<OptionName, Value>>, registry: map<Hash, Entry>)
    requires r != a && DeclaredUpstream(settings, r, a, o, v)
    requires DiscoveredFrom(Pair(r, a), [r], stages, keys)
    requires RegistryMeans(Pair(r, a), settings, [r], stages, keys, config, registry)
    ensures KeyedWith(settings, r, a, map[o := v], registry)
  {
    DiscoveredIsTabled(map[r := [a]], {r, a}, r, stages, keys);
    TableOfPair(r, a, stages);
    ConfigOfPair(settings, r, a, o, v, stages, config);
    KeysOfPair(settings, r, a, map[o := v], stages, keys, config, registry);
  }

  /** So another value upstream gives the downstream stage another key, if the hash tells the two apart. */
  lemma KeysDiffer(before: Settings<string>, after: Settings<string>, r: string, a: string, o: OptionName, v: Value, u: Value,
                   first: map<Hash, Entry>, second: map<Hash, Entry>)
    requires KeyedWith(before, r, a, map[o := v], first) && KeyedWith(after, r, a, map[o := u], second)
    requires before.hashName(r, map[o := v]) !in {after.hashName(r, map[o := u]), after.hashName(a, map[o := u])}
    ensures before.hashName(r, map[o := v]) in first && before.hashName(r, map[o := v]) !in second
  {
  }

  // ----- the request succeeds

  /** Only the one value is carried, and only one stage is requested. */
  lemma PairHasNoConflict(settings: Settings<string>, r: string, a: string, o: OptionName, v: Value)
    requires r != a && DeclaredUpstream(settings, r, a, o, v)
    ensures !IsContradictory(Pair(r, a), settings, [r]) && !HasEmptySlot(Pair(r, a), [r])
  {
    var w := Pair(r, a);
    forall stages: map<Hash, Stage<string>>, slots: map<Hash, Slots>, keys: seq<Hash> | IsConnected(w, [r], stages, keys, slots)
      ensures AllOrNone(w, stages)
      ensures SlotsComplete(slots) ==> !Ambiguous(GraphOf(settings, stages, slots))
    {
      DiscoveredIsTabled(map[r := [a]], {r, a}, r, stages, keys);
      TableOfPair(r, a, stages);
      if SlotsComplete(slots) { PairIsUnambiguous(settings, r, a, o, v, stages, slots); }
    }
  }

  lemma PairIsUnambiguous(settings: Settings<string>, r: string, a: string, o: OptionName, v: Value, stages: map<Hash, Stage<string>>,
                          slots: map<Hash, Slots>)
    requires r != a && DeclaredUpstream(settings, r, a, o, v) && Tabled(map[r := [a]], {r, a}, r, stages)
    requires IsDiscovered(Pair(r, a), stages) && ReachedSlotsFilled(Pair(r, a), stages, slots) && SlotsComplete(slots)
    ensures !Ambiguous(GraphOf(settings, stages, slots))
  {
    var g := GraphOf(settings, stages, slots);
    forall s, q, x | s in g.config && Carries(g, s, q, x) ensures x == v {
      CarriedIsBrought(Pair(r, a), settings, stages, slots, s, q, x);
      BothHold(settings, r, a, o, v, stages, s, q, x);
    }
  }

  lemma PairHasNoClash(settings: Settings<string>, r: string, a: string)
    ensures !HasRequestClash(Pair(r, a), settings, [r])
  {
    forall keys: seq<Hash>, table: map<Hash, Hashed> | IsPropagated(Pair(r, a), settings, [r], keys, table) ensures !Collision(table) {
      var stages, slots, config := TableIsBrought(Pair(r, a), settings, [r], keys, table);
      forall x, index: nat | RequiredAs(table, x, index) ensures index == 0 {
        RequiredIsRequested(Pair(r, a), settings, [r], keys, table, stages, slots, config, x, index);
      }
    }
  }

  lemma PairIsDiscovered(r: string, a: string, failure: Failure)
    requires r != a
    ensures !EndsWith(Pair(r, a), [r], Err(failure))
  {
    var stages, keys := PlainSucceeds(map[r := [a]], {r, a}, r);
    var failed: Result<Discovery<string>, Failure> := Err(failure);
    if EndsWith(Pair(r, a), [r], failed) { EndIsUnique(Pair(r, a), [r], failed, Ok(Discovery(stages, keys, []))); }
  }

  /** No outcome of the request is a failure, so its registry is keyed as said. */
  lemma PairSucceeds(settings: Settings<string>, r: string, a: string, o: OptionName, v: Value, result: Result<map<Hash, Entry>, Error>)
    requires r != a && DeclaredUpstream(settings, r, a, o, v)
    requires IsOutcome(Pair(r, a), settings, [r], result)
    ensures result.Ok? && KeyedWith(settings, r, a, map[o := v], result.value)
  {
    PairHasNoConflict(settings, r, a, o, v);
    PairHasNoClash(settings, r, a);
    match result {
      case Ok(registry) => UpstreamOptionInKey(settings, r, a, o, v, registry);
      case Err(NotDiscovered(failure)) => PairIsDiscovered(r, a, failure);
      case Err(_) =>
    }
  }
}

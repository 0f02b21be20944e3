/** `propagate_implicit_config`: the one-pass propagation over the table of stages, in place. */
module StagePropagation {
  import opened Graphs
  import opened Orders
  import opened StageModel
  import opened StageOrder
  import opened StageOrdering

  /** Under the configs of `g`, dependency `u` offers `o` = `v` to the stages that depend on it. */
  ghost predicate Offers(g: Graph, u: Hash, o: OptionName, v: Value) {
    !Blocked(g, u, o) && u in g.config && Binds(g.config[u], o, v)
  }

  ghost predicate OfferedBySome(g: Graph, us: seq<Hash>, o: OptionName, v: Value) {
    exists u :: u in us && Offers(g, u, o, v)
  }

  /** `passed` is the union of what `us` offer. */
  ghost predicate Gathers(g: Graph, us: seq<Hash>, passed: map<OptionName, Value>) {
    forall o, v :: Binds(passed, o, v) <==> OfferedBySome(g, us, o, v)
  }

  /** Two of `us` disagree on an option. */
  ghost predicate Clash(g: Graph, us: seq<Hash>) {
    exists o, v, w :: v != w && OfferedBySome(g, us, o, v) && OfferedBySome(g, us, o, w)
  }

  lemma OfferedByMore(g: Graph, us: seq<Hash>, u: Hash, o: OptionName, v: Value)
    ensures OfferedBySome(g, us + [u], o, v) <==> OfferedBySome(g, us, o, v) || Offers(g, u, o, v)
  {
    if Offers(g, u, o, v) { assert u in us + [u]; }
    if x :| x in us && Offers(g, x, o, v) { assert x in us + [u]; }
  }

  lemma OfferedByPrefix(g: Graph, us: seq<Hash>, j: nat, o: OptionName, v: Value)
    requires j <= |us| && OfferedBySome(g, us[..j], o, v)
    ensures OfferedBySome(g, us, o, v)
  {
    var u :| u in us[..j] && Offers(g, u, o, v);
    assert u in us;
  }

  /** Union of the parameters that the callers of `u` pass explicitly. */
  method ExplicitOptions(g: Graph, u: Hash) returns (explicit: set<OptionName>)
    ensures forall o :: o in explicit <==> Explicit(g, u, o)
  {
    var infos := Downstream(g, u);
    explicit := {};
    for i := 0 to |infos|
      invariant forall o :: o in explicit <==> exists info :: info in infos[..i] && o in info.passed
    {
      assert infos[..i + 1] == infos[..i] + [infos[i]];
      explicit := explicit + infos[i].passed;
    }
    assert infos[..|infos|] == infos;
  }

  lemma PrefixStep<T>(s: seq<T>, i: nat)
    requires NoDup(s) && i < |s|
    ensures s[i] in s && s[i] !in s[..i] && s[..i + 1] == s[..i] + [s[i]]
  {
  }

  /** What `up` offers, as a map. */
  ghost function Offer(g: Graph, up: Hash): map<OptionName, Value>
    requires up in g.config
  {
    map o | o in g.config[up] && !Blocked(g, up, o) :: g.config[up][o]
  }

  /** Add what `up` offers to `start`; `ok` is false when it contradicts an earlier offer. */
  method GatherFrom(g: Graph, up: Hash, start: map<OptionName, Value>) returns (ok: bool, passed: map<OptionName, Value>)
    requires up in g.config && up in g.volatileOptions
    ensures ok ==> forall o, v :: Binds(passed, o, v) <==> Binds(start, o, v) || Offers(g, up, o, v)
    ensures !ok ==> exists o, v, w :: v != w && Binds(start, o, v) && Offers(g, up, o, w)
  {
    var explicit := ExplicitOptions(g, up);
    var options := SortedSet(g.config[up].Keys - explicit);
    ghost var offer := Offer(g, up);
    assert forall o, v :: Binds(offer, o, v) <==> Offers(g, up, o, v);
    assert forall o :: o in offer <==> o in options && o !in g.volatileOptions[up];
    ok, passed := GatherOptions(g.config[up], g.volatileOptions[up], options, start, offer);
  }

  method GatherOptions(own: map<OptionName, Value>, volatileOptions: set<OptionName>, options: seq<OptionName>,
                       start: map<OptionName, Value>, ghost offer: map<OptionName, Value>)
    returns (ok: bool, passed: map<OptionName, Value>)
    requires forall o :: o in options ==> o in own
    requires forall o :: o in offer <==> o in options && o !in volatileOptions
    requires forall o :: o in offer ==> o in own && offer[o] == own[o]
    ensures ok ==> forall o, v :: Binds(passed, o, v) <==> Binds(start, o, v) || Binds(offer, o, v)
    ensures !ok ==> exists o, v, w :: v != w && Binds(start, o, v) && Binds(offer, o, w)
  {
    passed := start;
    for i := 0 to |options|
      invariant forall o, v :: Binds(passed, o, v) <==> Binds(start, o, v) || (o in options[..i] && Binds(offer, o, v))
    {
      var option := options[i];
      assert option in options;
      assert options[..i + 1] == options[..i] + [option];
      if option !in volatileOptions {
        var value := own[option];
        assert Binds(offer, option, value);
        if option in passed && passed[option] != value {
          assert Binds(passed, option, passed[option]);
          return false, passed;
        }
        passed := passed[option := value];
      }
    }
    assert options[..|options|] == options;
    ok := true;
  }

  /** Collect what the dependencies of `key` offer; `ok` is false when two of them disagree. */
  method Gather(g: Graph, key: Hash) returns (ok: bool, passed: map<OptionName, Value>)
    requires WellFormed(g) && key in g.config
    ensures ok ==> Gathers(g, Dependencies(g, key), passed)
    ensures !ok ==> Clash(g, Dependencies(g, key))
  {
    var ups := Dependencies(g, key);
    passed := map[];
    for j := 0 to |ups|
      invariant Gathers(g, ups[..j], passed)
    {
      assert ups[j] in ups;
      assert ups[..j + 1] == ups[..j] + [ups[j]];
      ghost var start := passed;
      ok, passed := GatherFrom(g, ups[j], passed);
      if !ok {
        ghost var o, v, w :| v != w && Binds(start, o, v) && Offers(g, ups[j], o, w);
        OfferedByPrefix(g, ups, j, o, v);
        assert OfferedBySome(g, ups, o, w);
        return;
      }
      forall o, v { OfferedByMore(g, ups[..j], ups[j], o, v); }
    }
    assert ups[..|ups|] == ups;
    ok := true;
  }

  /** The options `seen` of `passed` have joined the own ones. */
  ghost predicate Absorbing(own: map<OptionName, Value>, passed: map<OptionName, Value>, seen: set<OptionName>, c: map<OptionName, Value>) {
    && (forall o, v :: Binds(own, o, v) ==> Binds(c, o, v))
    && (forall o, v :: Binds(c, o, v) ==> Binds(own, o, v) || (o in seen && Binds(passed, o, v)))
    && (forall o, v :: o in seen && Binds(passed, o, v) ==> Binds(c, o, v))
  }

  lemma AbsorbStep(own: map<OptionName, Value>, passed: map<OptionName, Value>, seen: set<OptionName>, c: map<OptionName, Value>,
                   option: OptionName)
    requires Absorbing(own, passed, seen, c) && option in passed && option !in seen
    ensures option !in c ==> Absorbing(own, passed, seen + {option}, c[option := passed[option]])
    ensures option in c && c[option] == passed[option] ==> Absorbing(own, passed, seen + {option}, c)
    ensures option in c && c[option] != passed[option] ==>
      exists o, v, w :: v != w && Binds(own, o, v) && Binds(passed, o, w)
  {
    if option in c {
      assert Binds(c, option, c[option]) && Binds(passed, option, passed[option]);
    } else {
      assert forall v :: !Binds(own, option, v);
    }
  }

  /** Merge `passed` into a stage's own config; on a contradiction stop, keeping what was written so far. */
  method Absorb(own: map<OptionName, Value>, passed: map<OptionName, Value>) returns (ok: bool, c: map<OptionName, Value>)
    ensures forall o, v :: Binds(own, o, v) ==> Binds(c, o, v)
    ensures forall o, v :: Binds(c, o, v) ==> Binds(own, o, v) || Binds(passed, o, v)
    ensures ok ==> forall o, v :: Binds(passed, o, v) ==> Binds(c, o, v)
    ensures !ok ==> exists o, v, w :: v != w && Binds(own, o, v) && Binds(passed, o, w)
  {
    var pending := SortedSet(passed.Keys);
    SortedSetNoDup(passed.Keys);
    c := own;
    ghost var seen: set<OptionName> := {};
    for j := 0 to |pending|
      invariant forall o :: o in seen <==> o in pending[..j]
      invariant Absorbing(own, passed, seen, c)
    {
      var option := pending[j];
      PrefixStep(pending, j);
      AbsorbStep(own, passed, seen, c, option);
      seen := seen + {option};
      if option in c {
        if c[option] != passed[option] { return false, c; }
      } else {
        c := c[option := passed[option]];
      }
    }
    assert pending[..|pending|] == pending;
    ok := true;
  }

  // ----- the one-pass argument

  /** Every binding in the table is carried in the original graph `g`. */
  ghost predicate Sound(g: Graph, config: map<Hash, map<OptionName, Value>>) {
    forall s :: s in config ==> SoundAt(g, s, config[s])
  }

  ghost predicate SoundAt(g: Graph, s: Hash, c: map<OptionName, Value>) {
    forall o, v {:trigger Carries(g, s, o, v)} :: Binds(c, o, v) ==> Carries(g, s, o, v)
  }

  lemma BlockedIgnoresConfig(g: Graph, config: map<Hash, map<OptionName, Value>>)
    ensures forall u, o :: Blocked(g.(config := config), u, o) == Blocked(g, u, o)
    ensures forall u :: Dependencies(g.(config := config), u) == Dependencies(g, u)
  {
    var h := g.(config := config);
    forall u, o ensures Explicit(h, u, o) == Explicit(g, u, o) {
      assert Downstream(h, u) == Downstream(g, u);
    }
  }

  lemma DeclaredIsCarried(g: Graph)
    ensures Sound(g, g.config)
  {
    forall s, o, v | s in g.config && Binds(g.config[s], o, v) ensures Carries(g, s, o, v) {
      CarriesStep(g, s, o, v);
    }
  }

  lemma OfferedIsCarried(g: Graph, config: map<Hash, map<OptionName, Value>>, key: Hash, o: OptionName, v: Value)
    requires key in g.config && Sound(g, config)
    requires OfferedBySome(g.(config := config), Dependencies(g, key), o, v)
    ensures Carries(g, key, o, v)
  {
    BlockedIgnoresConfig(g, config);
    var u :| u in Dependencies(g, key) && Offers(g.(config := config), u, o, v);
    CarriesStep(g, key, o, v);
  }

  lemma ClashIsAmbiguous(g: Graph, config: map<Hash, map<OptionName, Value>>, key: Hash)
    requires key in g.config && Sound(g, config) && Clash(g.(config := config), Dependencies(g, key))
    ensures Ambiguous(g)
  {
    var h := g.(config := config);
    var us := Dependencies(g, key);
    var o, v, w :| v != w && OfferedBySome(h, us, o, v) && OfferedBySome(h, us, o, w);
    OfferedIsCarried(g, config, key, o, v);
    OfferedIsCarried(g, config, key, o, w);
    assert AmbiguousAt(g, key);
  }

  lemma GatheredIsCarried(g: Graph, config: map<Hash, map<OptionName, Value>>, key: Hash, passed: map<OptionName, Value>)
    requires key in g.config && Sound(g, config)
    requires Gathers(g.(config := config), Dependencies(g, key), passed)
    ensures SoundAt(g, key, passed)
  {
    forall o, v | Binds(passed, o, v) ensures Carries(g, key, o, v) {
      OfferedIsCarried(g, config, key, o, v);
    }
  }

  /** With exact dependencies, a completed visit leaves `key` exact: one pass yields the full closure. */
  lemma VisitIsExact(g: Graph, config: map<Hash, map<OptionName, Value>>, key: Hash,
                     passed: map<OptionName, Value>, c: map<OptionName, Value>)
    requires key in g.config && WellFormed(g) && config.Keys == g.config.Keys && Sound(g, config)
    requires Gathers(g.(config := config), Dependencies(g, key), passed)
    requires forall u :: u in Dependencies(g, key) ==> IsExact(g, u, config[u])
    requires forall o, v :: Binds(c, o, v) <==> Binds(g.config[key], o, v) || Binds(passed, o, v)
    ensures IsExact(g, key, c)
  {
    var h := g.(config := config);
    BlockedIgnoresConfig(g, config);
    DeclaredIsCarried(g);
    GatheredIsCarried(g, config, key, passed);
    forall o, v | Carries(g, key, o, v) ensures Binds(c, o, v) {
      CarriesStep(g, key, o, v);
      if !Declares(g, key, o, v) {
        var u :| u in Dependencies(g, key) && !Blocked(g, u, o) && Carries(g, u, o, v);
        assert IsExact(g, u, config[u]);
        assert Offers(h, u, o, v);
        assert OfferedBySome(h, Dependencies(g, key), o, v);
      }
    }
  }

  /** Visit one stage whose dependencies are final: what its config becomes, also when the visit fails midway. */
  method Visit(h: Graph, key: Hash, ghost g: Graph) returns (ok: bool, c: map<OptionName, Value>)
    requires WellFormed(g) && key in g.config
    requires h == g.(config := h.config) && h.config.Keys == g.config.Keys
    requires Sound(g, h.config) && h.config[key] == g.config[key]
    requires forall u :: u in Dependencies(g, key) ==> IsExact(g, u, h.config[u])
    ensures forall o, v :: Binds(g.config[key], o, v) ==> Binds(c, o, v)
    ensures SoundAt(g, key, c)
    ensures ok ==> IsExact(g, key, c)
    ensures !ok ==> Ambiguous(g)
  {
    BlockedIgnoresConfig(g, h.config);
    WellFormedIgnoresConfig(g, h.config);
    DeclaredIsCarried(g);
    var gathered, passed := Gather(h, key);
    if !gathered {
      ClashIsAmbiguous(g, h.config, key);
      return false, h.config[key];
    }
    GatheredIsCarried(g, h.config, key, passed);
    ok, c := Absorb(h.config[key], passed);
    if ok {
      VisitIsExact(g, h.config, key, passed, c);
    } else {
      OwnClashIsAmbiguous(g, key, g.config[key], passed);
    }
  }

  lemma OwnClashIsAmbiguous(g: Graph, key: Hash, own: map<OptionName, Value>, passed: map<OptionName, Value>)
    requires key in g.config
    requires SoundAt(g, key, own)
    requires SoundAt(g, key, passed)
    requires exists o, v, w :: v != w && Binds(own, o, v) && Binds(passed, o, w)
    ensures Ambiguous(g)
  {
    var o, v, w :| v != w && Binds(own, o, v) && Binds(passed, o, w);
    assert Carries(g, key, o, v) && Carries(g, key, o, w);
    assert AmbiguousAt(g, key);
  }

  lemma WellFormedIgnoresConfig(g: Graph, config: map<Hash, map<OptionName, Value>>)
    requires WellFormed(g) && config.Keys == g.config.Keys
    ensures WellFormed(g.(config := config))
  {
    BlockedIgnoresConfig(g, config);
  }

  /** The table once the stages `done` have been visited. */
  ghost predicate Progress(g: Graph, config: map<Hash, map<OptionName, Value>>, done: seq<Hash>) {
    && config.Keys == g.config.Keys
    && Sound(g, config)
    && Extends(config, g.config)
    && (forall s :: s in done ==> s in config && IsExact(g, s, config[s]))
    && (forall s :: s in config && s !in done ==> config[s] == g.config[s])
  }

  lemma ReadyToVisit(g: Graph, config: map<Hash, map<OptionName, Value>>, order: seq<Hash>, i: nat)
    requires IsTopological(g, order) && i < |order| && Progress(g, config, order[..i])
    ensures order[i] in config && config[order[i]] == g.config[order[i]]
    ensures forall u :: u in Dependencies(g, order[i]) ==> u in config && IsExact(g, u, config[u])
  {
    PrefixStep(order, i);
    assert Settled(g, order[..i], order[i]);
  }

  /** Storing the visited config keeps the table sound and above the declarations. */
  lemma StoreVisited(g: Graph, config: map<Hash, map<OptionName, Value>>, order: seq<Hash>, i: nat, c: map<OptionName, Value>)
    requires NoDup(order) && i < |order| && order[i] in config && Progress(g, config, order[..i])
    requires forall o, v :: Binds(g.config[order[i]], o, v) ==> Binds(c, o, v)
    requires SoundAt(g, order[i], c)
    ensures Sound(g, config[order[i] := c]) && Extends(config[order[i] := c], g.config)
    ensures IsExact(g, order[i], c) ==> Progress(g, config[order[i] := c], order[..i + 1])
  {
    var key := order[i];
    var stored := config[key := c];
    PrefixStep(order, i);
    forall s, o | s in g.config && o in g.config[s] ensures o in stored[s] && stored[s][o] == g.config[s][o] {
      if s == key { assert Binds(g.config[key], o, g.config[key][o]); }
    }
    forall s | s in config ensures SoundAt(g, s, stored[s]) {
      assert s != key ==> SoundAt(g, s, config[s]);
    }
  }

  /** What one visit leaves, whether it fails or not. */
  ghost predicate AfterVisit(g: Graph, config: map<Hash, map<OptionName, Value>>, done: seq<Hash>, ok: bool) {
    && config.Keys == g.config.Keys && WellFormed(g.(config := config))
    && Sound(g, config) && Extends(config, g.config)
    && (ok ==> Progress(g, config, done))
    && (!ok ==> Ambiguous(g))
  }

  lemma VisitedStore(g: Graph, config: map<Hash, map<OptionName, Value>>, order: seq<Hash>, i: nat, c: map<OptionName, Value>, ok: bool)
    requires WellFormed(g) && NoDup(order) && i < |order| && order[i] in config && Progress(g, config, order[..i])
    requires forall o, v :: Binds(g.config[order[i]], o, v) ==> Binds(c, o, v)
    requires SoundAt(g, order[i], c)
    requires ok ==> IsExact(g, order[i], c)
    requires !ok ==> Ambiguous(g)
    ensures AfterVisit(g, config[order[i] := c], order[..i + 1], ok)
  {
    StoreVisited(g, config, order, i, c);
    WellFormedIgnoresConfig(g, config[order[i] := c]);
  }

  class StageTable {
    var keys: seq<Hash>  // insertion order of the table
    var config: map<Hash, map<OptionName, Value>>
    var volatileOptions: map<Hash, set<OptionName>>
    var dependencies: map<Hash, seq<Hash>>
    var downstream: map<Hash, seq<CallInfo>>

    constructor (keys: seq<Hash>, g: Graph)
      requires NoDup(keys) && (forall k :: k in keys <==> k in g.config) && WellFormed(g)
      ensures Valid() && View() == g
    {
      this.keys := keys;
      config, volatileOptions, dependencies, downstream := g.config, g.volatileOptions, g.dependencies, g.downstream;
    }

    function View(): Graph reads this {
      Graph(config, volatileOptions, dependencies, downstream)
    }

    ghost predicate Valid() reads this {
      NoDup(keys) && (forall k :: k in keys <==> k in config) && WellFormed(View())
    }

    /** Visit the stage at position `i`, writing into its config. */
    method VisitAt(order: seq<Hash>, i: nat, ghost g: Graph) returns (ok: bool)
      requires i < |order| && WellFormed(g) && IsTopological(g, order)
      requires View() == g.(config := config) && Progress(g, config, order[..i])
      modifies this`config
      ensures View() == g.(config := config) && AfterVisit(g, config, order[..i + 1], ok)
    {
      var key := order[i];
      ReadyToVisit(g, config, order, i);
      var c;
      ok, c := Visit(View(), key, g);
      VisitedStore(g, config, order, i, c, ok);
      config := config[key := c];
    }

    /** Visit the stages along a given topological order. */
    method PropagateAlong(order: seq<Hash>) returns (ok: bool)
      requires Valid() && IsTopological(View(), order) && forall k :: k in config ==> k in order
      modifies this`config
      ensures Valid() && config.Keys == old(config.Keys)
      ensures ok ==> forall s :: s in config ==> IsExact(old(View()), s, config[s])
      ensures !ok ==> Ambiguous(old(View()))
      ensures Sound(old(View()), config) && Extends(config, old(config))
    {
      ghost var g := View();
      DeclaredIsCarried(g);
      for i := 0 to |order|
        invariant keys == old(keys) && View() == g.(config := config) && WellFormed(View())
        invariant Progress(g, config, order[..i])
      {
        ok := VisitAt(order, i, g);
        if !ok { return; }
      }
      assert order[..|order|] == order;
      ok := true;
    }

    /** The whole of `propagate_implicit_config`, with its two exceptions as outcomes. */
    method Propagate() returns (r: Outcome)
      requires Valid()
      modifies this`config
      ensures Valid() && config.Keys == old(config.Keys)
      ensures Propagates(old(View()), r)
      ensures r.Done? ==> r.config == config
      ensures r.Cycle? ==> config == old(config)
      ensures Sound(old(View()), config) && Extends(config, old(config))
    {
      DeclaredIsCarried(View());
      var order := VisitingOrder(keys, View());
      KahnCompleteIffAcyclic(View());
      NoDupCount(keys, config.Keys);
      if |order| != |keys| {
        return Cycle;
      }
      var ok := PropagateAlong(order);
      r := if ok then Done(config) else Conflict;
    }
  }
}

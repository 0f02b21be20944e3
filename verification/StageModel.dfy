/** The stage graph of synpp after discovery, and what implicit-config propagation must produce on it. */
module StageModel {
  import opened Graphs

  type Hash = string
  type OptionName = string
  type Value = string

  /** One call `context.stage(...)` seen from the callee: who called, at which slot, passing which options. */
  datatype CallInfo = CallInfo(hash: Hash, position: nat, length: nat, passed: set<OptionName>)

  /** `dependencies` and `downstream` may miss a stage; a missing list counts as empty. */
  datatype Graph = Graph(
    config: map<Hash, map<OptionName, Value>>,
    volatileOptions: map<Hash, set<OptionName>>,
    dependencies: map<Hash, seq<Hash>>,
    downstream: map<Hash, seq<CallInfo>>)

  datatype Outcome = Done(config: map<Hash, map<OptionName, Value>>) | Cycle | Conflict

  function Dependencies(g: Graph, s: Hash): seq<Hash> {
    if s in g.dependencies then g.dependencies[s] else []
  }

  function Downstream(g: Graph, s: Hash): seq<CallInfo> {
    if s in g.downstream then g.downstream[s] else []
  }

  /** Every stage has a volatile set and depends on stages of the table only. */
  predicate WellFormed(g: Graph) {
    forall s :: s in g.config ==>
      s in g.volatileOptions && forall u :: u in Dependencies(g, s) ==> u in g.config
  }

  /** Options some caller of `u` passes explicitly. */
  ghost predicate Explicit(g: Graph, u: Hash, o: OptionName) {
    exists info :: info in Downstream(g, u) && o in info.passed
  }

  /** `o` never leaves `u`. */
  ghost predicate Blocked(g: Graph, u: Hash, o: OptionName) {
    Explicit(g, u, o) || (u in g.volatileOptions && o in g.volatileOptions[u])
  }

  /** From a dependency to the stage that depends on it. */
  ghost function DependencyEdge(g: Graph): (Hash, Hash) -> bool {
    (u: Hash, s: Hash) => s in g.config && u in Dependencies(g, s)
  }

  /** The dependency edges that `o` may cross. */
  ghost function FlowEdge(g: Graph, o: OptionName): (Hash, Hash) -> bool {
    (u: Hash, s: Hash) => s in g.config && u in Dependencies(g, s) && !Blocked(g, u, o)
  }

  ghost predicate Binds(c: map<OptionName, Value>, o: OptionName, v: Value) {
    o in c && c[o] == v
  }

  ghost predicate Declares(g: Graph, t: Hash, o: OptionName, v: Value) {
    t in g.config && Binds(g.config[t], o, v)
  }

  /** Some stage declared `o` = `v` and a dependency path leads from it to `s` on which `o` is never blocked. */
  ghost predicate Carries(g: Graph, s: Hash, o: OptionName, v: Value) {
    exists t :: Declares(g, t, o, v) && Reaches(FlowEdge(g, o), t, s)
  }

  /** `c` holds exactly what `s` carries. */
  ghost predicate IsExact(g: Graph, s: Hash, c: map<OptionName, Value>) {
    forall o, v :: Binds(c, o, v) <==> Carries(g, s, o, v)
  }

  ghost predicate AmbiguousAt(g: Graph, s: Hash) {
    exists o, v, w :: v != w && Carries(g, s, o, v) && Carries(g, s, o, w)
  }

  ghost predicate Ambiguous(g: Graph) {
    exists s :: s in g.config && AmbiguousAt(g, s)
  }

  /** The complete specification of propagation on `g`. */
  ghost predicate Propagates(g: Graph, r: Outcome) {
    match r
    case Cycle => !Acyclic(DependencyEdge(g))
    case Conflict => Acyclic(DependencyEdge(g)) && Ambiguous(g)
    case Done(c) =>
      && Acyclic(DependencyEdge(g))
      && c.Keys == g.config.Keys
      && forall s :: s in g.config ==> IsExact(g, s, c[s])
  }

  /** Same stages and options, and the same lists up to order and repetition. */
  ghost predicate SameUpToOrder(g: Graph, h: Graph) {
    && g.config == h.config
    && g.volatileOptions == h.volatileOptions
    && (forall s, u :: s in g.config ==> (u in Dependencies(g, s) <==> u in Dependencies(h, s)))
    && (forall s, info :: info in Downstream(g, s) <==> info in Downstream(h, s))
  }

  /** Nothing is left to push: every unblocked key has crossed every edge. */
  ghost predicate Stable(g: Graph, c: map<Hash, map<OptionName, Value>>) {
    && c.Keys == g.config.Keys
    && forall o, u, s :: FlowEdge(g, o)(u, s) && u in c && o in c[u] ==> o in c[s] && c[s][o] == c[u][o]
  }

  ghost predicate Extends(big: map<Hash, map<OptionName, Value>>, small: map<Hash, map<OptionName, Value>>) {
    forall s, o :: s in small && o in small[s] ==> s in big && o in big[s] && big[s][o] == small[s][o]
  }

  // ----- what a stage carries, step by step

  /** One edge at a time: declared here, or let through by a direct dependency that carries it. */
  lemma CarriesStep(g: Graph, s: Hash, o: OptionName, v: Value)
    requires s in g.config
    ensures Carries(g, s, o, v) <==>
      Declares(g, s, o, v) || exists u :: u in Dependencies(g, s) && !Blocked(g, u, o) && Carries(g, u, o, v)
  {
    var rel := FlowEdge(g, o);
    if Carries(g, s, o, v) {
      var t :| Declares(g, t, o, v) && Reaches(rel, t, s);
      ReachesLast(rel, t, s);
      if t != s {
        var u :| Reaches(rel, t, u) && rel(u, s);
        assert Carries(g, u, o, v);
      }
    }
    if Declares(g, s, o, v) {
      ReachesSelf(rel, s);
    }
    if u :| u in Dependencies(g, s) && !Blocked(g, u, o) && Carries(g, u, o, v) {
      var t :| Declares(g, t, o, v) && Reaches(rel, t, u);
      assert rel(u, s);
      ReachesStep(rel, t, u, s);
    }
  }

  lemma FlowPreservesCarried(g: Graph, u: Hash, s: Hash, o: OptionName, v: Value)
    requires FlowEdge(g, o)(u, s) && Carries(g, u, o, v)
    ensures Carries(g, s, o, v)
  {
    CarriesStep(g, s, o, v);
  }

  // ----- propagation is a function of the graph alone

  lemma ExplicitIgnoresOrder(g: Graph, h: Graph, u: Hash, o: OptionName)
    requires SameUpToOrder(g, h)
    ensures Explicit(g, u, o) == Explicit(h, u, o)
  {
    if info :| info in Downstream(g, u) && o in info.passed { assert info in Downstream(h, u); }
    if info :| info in Downstream(h, u) && o in info.passed { assert info in Downstream(g, u); }
  }

  lemma CarriesIgnoresOrder(g: Graph, h: Graph, s: Hash, o: OptionName, v: Value)
    requires SameUpToOrder(g, h) && Carries(g, s, o, v)
    ensures Carries(h, s, o, v)
  {
    var t :| Declares(g, t, o, v) && Reaches(FlowEdge(g, o), t, s);
    forall x ensures Explicit(h, x, o) == Explicit(g, x, o) { ExplicitIgnoresOrder(g, h, x, o); }
    ReachesMonotone(FlowEdge(g, o), FlowEdge(h, o), t, s);
    assert Declares(h, t, o, v);
  }

  lemma SameUpToOrderSymmetric(g: Graph, h: Graph)
    requires SameUpToOrder(g, h)
    ensures SameUpToOrder(h, g)
  {
  }

  lemma CycleIgnoresOrder(g: Graph, h: Graph)
    requires SameUpToOrder(g, h) && Acyclic(DependencyEdge(g))
    ensures Acyclic(DependencyEdge(h))
  {
    forall p | IsPath(DependencyEdge(h), p) && |p| >= 2 ensures p[0] != p[|p| - 1] {
      assert IsPath(DependencyEdge(g), p);
    }
  }

  lemma DoneExcludesConflict(g: Graph, c: map<Hash, map<OptionName, Value>>, h: Graph)
    requires SameUpToOrder(g, h) && Propagates(g, Done(c))
    ensures !Ambiguous(h)
  {
    forall s | s in h.config ensures !AmbiguousAt(h, s) {
      assert IsExact(g, s, c[s]);
      forall o, v, w | Carries(h, s, o, v) && Carries(h, s, o, w) ensures v == w {
        CarriesIgnoresOrder(h, g, s, o, v);
        CarriesIgnoresOrder(h, g, s, o, w);
      }
    }
  }

  lemma DoneIsUnique(g: Graph, h: Graph, c: map<Hash, map<OptionName, Value>>, d: map<Hash, map<OptionName, Value>>)
    requires SameUpToOrder(g, h) && Propagates(g, Done(c)) && Propagates(h, Done(d))
    ensures c == d
  {
    forall s | s in c ensures c[s] == d[s] {
      assert IsExact(g, s, c[s]) && IsExact(h, s, d[s]);
      forall o | o in c[s] ensures o in d[s] && d[s][o] == c[s][o] {
        CarriesIgnoresOrder(g, h, s, o, c[s][o]);
      }
      forall o | o in d[s] ensures o in c[s] {
        CarriesIgnoresOrder(h, g, s, o, d[s][o]);
      }
      assert c[s].Keys == d[s].Keys;
    }
  }

  /** Reordering the table, the dependency lists or the call lists changes neither the final configs nor the kind of failure. */
  lemma OutcomeIgnoresOrder(g: Graph, h: Graph, r: Outcome, q: Outcome)
    requires SameUpToOrder(g, h) && Propagates(g, r) && Propagates(h, q)
    ensures r == q
  {
    SameUpToOrderSymmetric(g, h);
    if Acyclic(DependencyEdge(g)) { CycleIgnoresOrder(g, h); }
    if Acyclic(DependencyEdge(h)) { CycleIgnoresOrder(h, g); }
    if r.Done? && q.Done? {
      DoneIsUnique(g, h, r.config, q.config);
    } else if r.Done? {
      DoneExcludesConflict(g, r.config, h);
    } else if q.Done? {
      DoneExcludesConflict(h, q.config, g);
    }
  }

  // ----- least fixpoint

  lemma {:induction false} StableHoldsOnPath(g: Graph, c: map<Hash, map<OptionName, Value>>, o: OptionName, v: Value, p: seq<Hash>)
    requires Stable(g, c) && IsPath(FlowEdge(g, o), p)
    requires p[0] in c && o in c[p[0]] && c[p[0]][o] == v
    ensures p[|p| - 1] in c && o in c[p[|p| - 1]] && c[p[|p| - 1]][o] == v
    decreases |p|
  {
    if |p| > 1 {
      var q := p[..|p| - 1];
      assert IsPath(FlowEdge(g, o), q);
      StableHoldsOnPath(g, c, o, v, q);
      assert FlowEdge(g, o)(p[|p| - 2], p[|p| - 1]);
    }
  }

  lemma StableHoldsCarried(g: Graph, c: map<Hash, map<OptionName, Value>>, s: Hash, o: OptionName, v: Value)
    requires Stable(g, c) && Extends(c, g.config) && Carries(g, s, o, v)
    ensures s in c && o in c[s] && c[s][o] == v
  {
    var t :| Declares(g, t, o, v) && Reaches(FlowEdge(g, o), t, s);
    var p :| PathBetween(FlowEdge(g, o), p, t, s);
    StableHoldsOnPath(g, c, o, v, p);
  }

  /** A successful result keeps every declaration, is stable, and lies below every other stable extension. */
  lemma DoneIsLeastFixpoint(g: Graph, c: map<Hash, map<OptionName, Value>>)
    requires Propagates(g, Done(c))
    ensures Extends(c, g.config) && Stable(g, c)
    ensures forall d :: Stable(g, d) && Extends(d, g.config) ==> Extends(d, c)
  {
    forall s, o | s in g.config && o in g.config[s] ensures o in c[s] && c[s][o] == g.config[s][o] {
      CarriesStep(g, s, o, g.config[s][o]);
      assert IsExact(g, s, c[s]);
    }
    forall o, u, s | FlowEdge(g, o)(u, s) && u in c && o in c[u] ensures o in c[s] && c[s][o] == c[u][o] {
      assert IsExact(g, u, c[u]) && IsExact(g, s, c[s]);
      FlowPreservesCarried(g, u, s, o, c[u][o]);
    }
    forall d | Stable(g, d) && Extends(d, g.config) ensures Extends(d, c) {
      forall s, o | s in c && o in c[s] ensures s in d && o in d[s] && d[s][o] == c[s][o] {
        assert IsExact(g, s, c[s]);
        StableHoldsCarried(g, d, s, o, c[s][o]);
      }
    }
  }

  /** A conflict means that no stable extension of the declared configs exists at all. */
  lemma ConflictMeansNoFixpoint(g: Graph, r: Outcome)
    requires Propagates(g, r) && Acyclic(DependencyEdge(g))
    ensures r.Conflict? <==> !exists c :: Stable(g, c) && Extends(c, g.config)
  {
    if r.Done? {
      DoneIsLeastFixpoint(g, r.config);
    } else if c :| Stable(g, c) && Extends(c, g.config) {
      var s :| s in g.config && AmbiguousAt(g, s);
      var o, v, w :| v != w && Carries(g, s, o, v) && Carries(g, s, o, w);
      StableHoldsCarried(g, c, s, o, v);
      StableHoldsCarried(g, c, s, o, w);
    }
  }

  // ----- a second run

  lemma CarriesAfterRun(g: Graph, c: map<Hash, map<OptionName, Value>>, s: Hash, o: OptionName, v: Value)
    requires Propagates(g, Done(c)) && s in g.config
    ensures Carries(g.(config := c), s, o, v) <==> Carries(g, s, o, v)
  {
    var h := g.(config := c);
    forall x, y ensures FlowEdge(h, o)(x, y) == FlowEdge(g, o)(x, y) {
      assert Blocked(h, x, o) == Blocked(g, x, o) by {
        assert Downstream(h, x) == Downstream(g, x);
      }
      assert Dependencies(h, y) == Dependencies(g, y);
    }
    if Carries(h, s, o, v) {
      var t :| Declares(h, t, o, v) && Reaches(FlowEdge(h, o), t, s);
      ReachesMonotone(FlowEdge(h, o), FlowEdge(g, o), t, s);
      assert IsExact(g, t, c[t]);
      assert Binds(c[t], o, v);
      assert Carries(g, t, o, v);
      var d :| Declares(g, d, o, v) && Reaches(FlowEdge(g, o), d, t);
      ReachesTransitive(FlowEdge(g, o), d, t, s);
    }
    if Carries(g, s, o, v) {
      assert IsExact(g, s, c[s]);
      assert Declares(h, s, o, v);
      ReachesSelf(FlowEdge(h, o), s);
    }
  }

  /** Propagating again changes nothing and raises nothing. */
  lemma SecondRunIsIdle(g: Graph, c: map<Hash, map<OptionName, Value>>, r: Outcome)
    requires Propagates(g, Done(c)) && Propagates(g.(config := c), r)
    ensures r == Done(c)
  {
    var h := g.(config := c);
    assert Acyclic(DependencyEdge(h)) by {
      forall p | IsPath(DependencyEdge(h), p) && |p| >= 2 ensures p[0] != p[|p| - 1] {
        forall i, j | 0 <= i < |p| && j == i + 1 && j < |p| ensures DependencyEdge(g)(p[i], p[j]) {
          assert DependencyEdge(h)(p[i], p[j]);
        }
        assert IsPath(DependencyEdge(g), p);
      }
    }
    forall s | s in h.config ensures IsExact(h, s, c[s]) {
      assert IsExact(g, s, c[s]);
      forall o, v ensures Binds(c[s], o, v) <==> Carries(h, s, o, v) {
        CarriesAfterRun(g, c, s, o, v);
      }
    }
    assert Propagates(h, Done(c));
    OutcomeIgnoresOrder(h, h, Done(c), r);
  }
}

/** Requests on which `process_stages` fails: the walk that never ends, the empty slot, and the cycle that is reported. */
module StageFailures {
  import opened Wrappers
  import opened Graphs
  import opened StageModel
  import opened StageDiscovery
  import opened StageConnection
  import opened StageWalk
  import opened StagePipeline
  import opened StageCycle

  /** What each definition requires; one that is missing requires nothing. */
  type Requirements = map<string, seq<string>>

  function Upstreams(req: Requirements, d: string): seq<Upstream<string>> {
    if d in req then seq(|req[d]|, k requires 0 <= k < |req[d]| => Upstream(req[d][k], {}, false)) else []
  }

  /** Every definition is its own hash, and its own cycle hash. */
  function Plain(req: Requirements): World<string> {
    World(Itself, Itself, (d: string) => Upstreams(req, d))
  }

  /** Everything required is among `names`, and the root is not required. */
  predicate Rooted(req: Requirements, names: set<string>, root: string) {
    root in names && forall d, k :: d in req && 0 <= k < |req[d]| ==> req[d][k] in names && req[d][k] != root
  }

  lemma RootIsNotRequired(req: Requirements, names: set<string>, root: string)
    requires Rooted(req, names, root)
    ensures !RequestedAndRequired(Plain(req), [root])
  {
    var w := Plain(req);
    forall c, i | Chain(w, [root], c) && |c| >= 2 && 0 <= i < |[root]| ensures w.identify(c[|c| - 1]) != w.identify([root][i]) {
      var k := |c| - 2;
      assert Requires(w, c[k], c[k + 1]);
    }
  }

  /** What discovery makes of the root: a stage for everything it needs, with the edges that the requirements say. */
  ghost predicate Tabled(req: Requirements, names: set<string>, root: string, stages: map<Hash, Stage<string>>) {
    && root in stages && stages.Keys <= names
    && (forall u :: u in stages ==> stages[u].definition == u)
    && (forall d, k :: d in stages && d in req && 0 <= k < |req[d]| ==>
          req[d][k] in stages && CallerEdge(stages)(req[d][k], d))
    && (forall u, d :: CallerEdge(stages)(u, d) ==> d in stages && d in req && u in req[d])
  }

  lemma StageIsNamed(req: Requirements, names: set<string>, root: string, stages: map<Hash, Stage<string>>, keys: seq<Hash>, u: string)
    requires Rooted(req, names, root) && DiscoveredFrom(Plain(req), [root], stages, keys) && u in stages
    ensures u in names
  {
    var i :| 0 <= i < |keys| && keys[i] == u;
    var c := EveryStageIsRequired(Plain(req), [root], stages, keys, i);
    assert Plain(req).identify(stages[u].definition) == u;
    if |c| > 1 {
      var k := |c| - 2;
      assert Requires(Plain(req), c[k], c[k + 1]);
    }
  }

  lemma DiscoveredIsTabled(req: Requirements, names: set<string>, root: string, stages: map<Hash, Stage<string>>, keys: seq<Hash>)
    requires Rooted(req, names, root) && DiscoveredFrom(Plain(req), [root], stages, keys)
    ensures Tabled(req, names, root, stages)
  {
    var w := Plain(req);
    forall u | u in stages ensures u in names { StageIsNamed(req, names, root, stages, keys, u); }
    assert w.identify([root][0]) in stages;
    forall d, k | d in stages && d in req && 0 <= k < |req[d]|
      ensures req[d][k] in stages && CallerEdge(stages)(req[d][k], d)
    {
      var info := CallAt(w, d, d, k);
      assert w.identify(stages[d].definition) == d;
      assert IsCall(w, stages, info) && Callee(w, stages, info) == req[d][k];
      assert info in Callers(stages, req[d][k]);
    }
    forall u, d | CallerEdge(stages)(u, d) ensures d in stages && d in req && u in req[d] {
      var info :| info in Callers(stages, u) && info.hash == d;
      assert IsCall(w, stages, info) && w.identify(Callee(w, stages, info)) == u;
      assert w.identify(stages[d].definition) == d;
      assert req[d][info.position] == u;
    }
  }

  ghost function Named(names: set<string>): iset<string> {
    iset d | d in names
  }

  lemma PlainIsFinite(req: Requirements, names: set<string>, root: string)
    requires Rooted(req, names, root)
    ensures FinitelyMany(Plain(req), Named(names), names) && root in Named(names)
  {
  }

  lemma PlainSucceeds(req: Requirements, names: set<string>, root: string) returns (stages: map<Hash, Stage<string>>, keys: seq<Hash>)
    requires Rooted(req, names, root)
    ensures EndsWith(Plain(req), [root], Ok(Discovery(stages, keys, []))) && DiscoveredFrom(Plain(req), [root], stages, keys)
    ensures Tabled(req, names, root, stages)
  {
    RootIsNotRequired(req, names, root);
    PlainIsFinite(req, names, root);
    stages, keys := DiscoverySucceeds(Plain(req), [root], Named(names), names);
    DiscoveredIsTabled(req, names, root, stages, keys);
  }

  /** What requires nothing is a source of the table; nothing else is. */
  lemma SourcesOfTable(req: Requirements, names: set<string>, root: string, stages: map<Hash, Stage<string>>, u: string)
    requires Tabled(req, names, root, stages) && u in stages
    ensures u in Sources(stages) <==> u !in req || req[u] == []
  {
    if u in req && req[u] != [] {
      assert CallerEdge(stages)(req[u][0], u) && req[u][0] in stages;
    }
  }

  // ----- the walk that never ends

  predicate Distinct(r: string, a: string, b: string, s: string) {
    r != a && r != b && r != s && a != b && a != s && b != s
  }

  /** `r` requires `a`, `a` and `b` require each other, and `a` requires `s`, from which the walk enters the cycle. */
  function Endless(r: string, a: string, b: string, s: string): Requirements {
    map[r := [a], a := [b, s], b := [a]]
  }

  /** The edges of the table that make the walk go round. */
  lemma EdgesOfEndless(r: string, a: string, b: string, s: string, stages: map<Hash, Stage<string>>)
    requires Distinct(r, a, b, s) && Tabled(Endless(r, a, b, s), {r, a, b, s}, r, stages)
    ensures CallerEdge(stages)(s, a) && CallerEdge(stages)(a, b) && CallerEdge(stages)(b, a) && s in Sources(stages)
  {
    var req := Endless(r, a, b, s);
    assert req[r][0] == a && req[a][0] == b && req[a][1] == s && req[b][0] == a;
    SourcesOfTable(req, {r, a, b, s}, r, stages, s);
  }

  lemma WalkGoesRound(stages: map<Hash, Stage<string>>, s: string, a: string, b: string)
    requires CallerEdge(stages)(s, a) && CallerEdge(stages)(a, b) && CallerEdge(stages)(b, a) && s in Sources(stages)
    ensures !Acyclic(WalkEdge(stages))
  {
    var rel := CallerEdge(stages);
    ReachesSelf(rel, s);
    ReachesStep(rel, s, s, a);
    ReachesStep(rel, s, a, b);
    assert WalkEdge(stages)(a, b) && WalkEdge(stages)(b, a);
    var p := [a, b, a];
    assert IsPath(WalkEdge(stages), p) && p[0] == p[|p| - 1];
  }

  /** Discovery succeeds, and the walk on its table never ends. */
  lemma EndlessWalk(r: string, a: string, b: string, s: string) returns (stages: map<Hash, Stage<string>>, keys: seq<Hash>)
    requires Distinct(r, a, b, s)
    ensures var w := Plain(Endless(r, a, b, s));
            EndsWith(w, [r], Ok(Discovery(stages, keys, []))) && DiscoveredFrom(w, [r], stages, keys)
    ensures !Ends(stages)
  {
    var req := Endless(r, a, b, s);
    stages, keys := PlainSucceeds(req, {r, a, b, s}, r);
    EdgesOfEndless(r, a, b, s, stages);
    WalkGoesRound(stages, s, a, b);
    WalkEndsIff(Plain(req), stages);
  }

  // ----- the empty slot

  /** `r` requires `s`, from which the walk starts, and `a`, which lies on a cycle that it never enters. */
  function Lopsided(r: string, a: string, b: string, s: string): Requirements {
    map[r := [s, a], a := [b], b := [a]]
  }

  /** The walk starts from `s`, comes to `r` and goes nowhere from there. */
  lemma EdgesOfLopsided(r: string, a: string, b: string, s: string, stages: map<Hash, Stage<string>>, u: string, d: string)
    requires Distinct(r, a, b, s) && Tabled(Lopsided(r, a, b, s), {r, a, b, s}, r, stages)
    ensures u in Sources(stages) ==> u == s
    ensures s in Sources(stages)
    ensures (u == s || u == r) && CallerEdge(stages)(u, d) ==> u == s && d == r
  {
    var req := Lopsided(r, a, b, s);
    assert req[r][0] == s && s in stages;
    SourcesOfTable(req, {r, a, b, s}, r, stages, s);
    if u in Sources(stages) { SourcesOfTable(req, {r, a, b, s}, r, stages, u); }
  }

  /** The walk reaches `s` and `r` only. */
  lemma ReachedOfLopsided(r: string, a: string, b: string, s: string, stages: map<Hash, Stage<string>>, u: string)
    requires Distinct(r, a, b, s) && Tabled(Lopsided(r, a, b, s), {r, a, b, s}, r, stages)
    ensures s in ReachedStages(stages)
    ensures u in ReachedStages(stages) ==> u == s || u == r
  {
    var rel := CallerEdge(stages);
    EdgesOfLopsided(r, a, b, s, stages, s, r);
    ReachesSelf(rel, s);
    forall v, d | v in {s, r} && rel(v, d) ensures d in {s, r} { EdgesOfLopsided(r, a, b, s, stages, v, d); }
    if u in ReachedStages(stages) {
      var v :| v in Sources(stages) && Reaches(rel, v, u);
      EdgesOfLopsided(r, a, b, s, stages, v, v);
      ReachedStaysInClosed(rel, {s, r}, v, u);
    }
  }

  /** The row of `r` holds `s` and an empty slot. */
  lemma RowOfLopsided(r: string, a: string, b: string, s: string, stages: map<Hash, Stage<string>>)
    requires Distinct(r, a, b, s) && Tabled(Lopsided(r, a, b, s), {r, a, b, s}, r, stages)
    ensures !AllOrNone(Plain(Lopsided(r, a, b, s)), stages)
  {
    var w := Plain(Lopsided(r, a, b, s));
    ReachedOfLopsided(r, a, b, s, stages, a);
    assert |w.upstreams(stages[r].definition)| == 2;
    assert SlotTarget(w, stages, r, 0) == s && SlotTarget(w, stages, r, 1) == a;
    assert IsReached(w, stages, r, 0) && !IsReached(w, stages, r, 1);
  }

  /** The walk ends, since it enters no cycle: from `s` it comes to `r`, which nothing requires. */
  lemma WalkOfLopsided(r: string, a: string, b: string, s: string, stages: map<Hash, Stage<string>>)
    requires Distinct(r, a, b, s) && Tabled(Lopsided(r, a, b, s), {r, a, b, s}, r, stages)
    ensures Acyclic(WalkEdge(stages))
  {
    forall u, d | WalkEdge(stages)(u, d) ensures u == s && d == r {
      assert u in stages && u in ReachedStages(stages);
      ReachedOfLopsided(r, a, b, s, stages, u);
      EdgesOfLopsided(r, a, b, s, stages, u, d);
    }
    RankedIsAcyclic(WalkEdge(stages), map[s := 0, r := 1]);
  }

  /** Discovery succeeds and the walk ends, but a requirement is left unconnected beside one that is connected. */
  lemma SlotStaysEmpty(r: string, a: string, b: string, s: string)
    requires Distinct(r, a, b, s)
    ensures WalkEnds(Plain(Lopsided(r, a, b, s)), [r]) && HasEmptySlot(Plain(Lopsided(r, a, b, s)), [r])
  {
    var req := Lopsided(r, a, b, s);
    var w := Plain(req);
    var stages, keys := PlainSucceeds(req, {r, a, b, s}, r);
    RowOfLopsided(r, a, b, s, stages);
    EmptySlotIff(w, [r], stages, keys);
    forall again: map<Hash, Stage<string>>, list: seq<Hash> |
      DiscoveredFrom(w, [r], again, list) && EndsWith(w, [r], Ok(Discovery(again, list, [])))
      ensures Acyclic(WalkEdge(again))
    {
      DiscoveredIsTabled(req, {r, a, b, s}, r, again, list);
      WalkOfLopsided(r, a, b, s, again);
    }
  }

  lemma OnlyEmptySlot(w: World<string>, settings: Settings<string>, definitions: seq<string>, result: Result<map<Hash, Entry>, Error>)
    requires IsOutcome(w, settings, definitions, result) && HasEmptySlot(w, definitions)
    ensures result == Err(EmptySlot)
  {
    var expected: Result<map<Hash, Entry>, Error> := Err(EmptySlot);
    OutcomeIsUnique(w, settings, definitions, result, expected);
  }

  /** The run raises: `ProcessStages` takes the request, and whatever the settings its only outcome is the empty slot. */
  lemma EmptySlotIsRaised(settings: Settings<string>, r: string, a: string, b: string, s: string, result: Result<map<Hash, Entry>, Error>)
    requires Distinct(r, a, b, s)
    ensures var w := Plain(Lopsided(r, a, b, s));
            && FinitelyMany(w, Named({r, a, b, s}), {r, a, b, s}) && WalkEnds(w, [r])
            && (IsOutcome(w, settings, [r], result) <==> result == Err(EmptySlot))
  {
    var w := Plain(Lopsided(r, a, b, s));
    PlainIsFinite(Lopsided(r, a, b, s), {r, a, b, s}, r);
    SlotStaysEmpty(r, a, b, s);
    if IsOutcome(w, settings, [r], result) { OnlyEmptySlot(w, settings, [r], result); }
  }

  // ----- the cycle that is reported

  /** All stages share one cycle hash, so that requiring any other stage counts as a cycle. */
  function Coarse(req: Requirements): World<string> {
    World(Itself, (d: string) => "one", (d: string) => Upstreams(req, d))
  }

  /** A cycle error without a cycle: `r` requires `a`, which requires nothing. */
  lemma ReportedWithoutCycle(r: string, a: string)
    requires r != a
    ensures EndsWith(Coarse(map[r := [a]]), [r], Err(FoundCycle))
  {
    var w := Coarse(map[r := [a]]);
    var first := InitialPending([r]);
    var item := first[0];
    var s0: Discovery<string> := Discovery(map[], [], first);
    assert After(w, [r], 0) == Ok(s0);
    assert After(w, [r], 1) == Next(w, s0);
    var s1 := Next(w, s0).value;
    assert s1.pending == CallsOf(w, item, r, "one");
    assert s1.pending[0].cycles == ["one"] && "one" in s1.pending[0].cycles;
    assert MeetsCycle(w, s1) && !LacksDownstream(w, s1);
    assert After(w, [r], 2) == Next(w, s1);
  }

  /** `b` has a cycle hash of its own, all other stages share one. */
  function Alternating(req: Requirements, b: string): World<string> {
    World(Itself, (d: string) => if d == b then "other" else "one", (d: string) => Upstreams(req, d))
  }

  /** A stage that comes back is reported also with another one between: `r` requires `b`, and `b` requires `c`, which has
      the cycle hash of `r`. */
  lemma ReportedAcrossStages(r: string, b: string, c: string)
    requires r != b && r != c && b != c
    ensures EndsWith(Alternating(map[r := [b], b := [c]], b), [r], Err(FoundCycle))
  {
    var w := Alternating(map[r := [b], b := [c]], b);
    var first := InitialPending([r]);
    var s0: Discovery<string> := Discovery(map[], [], first);
    assert After(w, [r], 0) == Ok(s0);
    assert After(w, [r], 1) == Next(w, s0);
    var s1 := Next(w, s0).value;
    assert s1.pending == CallsOf(w, first[0], r, "one");
    assert After(w, [r], 2) == Next(w, s1);
    var s2 := Next(w, s1).value;
    assert s2.pending == CallsOf(w, s1.pending[0], b, "other");
    assert s2.pending[0].cycles == ["one", "other"] && s2.pending[0].cycles[0] == "one";
    assert MeetsCycle(w, s2) && !LacksDownstream(w, s2);
    assert After(w, [r], 3) == Next(w, s2);
  }
}

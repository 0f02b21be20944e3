/** When discovery reports a cycle, said of the chain of stages that leads to the entry at hand. */
module StageChains {
  import opened Wrappers
  import opened StageModel
  import opened StageDiscovery

  /** `path` lists the stages through which an entry with these callers was come to: a requested one first, then each with
      the one before it as its first caller, the caller of the entry last. */
  ghost predicate Leads<D>(stages: map<Hash, Stage<D>>, path: seq<Hash>, callers: Option<seq<CallInfo>>)
    decreases |path|
  {
    if callers.None? then path == []
    else
      && path != [] && callers.value != []
      && path[|path| - 1] == callers.value[0].hash && path[|path| - 1] in stages
      && Leads(stages, path[..|path| - 1], stages[path[|path| - 1]].downstream)
  }

  /** All stages of a path are known. */
  lemma {:induction false} PathIsKnown<D>(stages: map<Hash, Stage<D>>, path: seq<Hash>, callers: Option<seq<CallInfo>>)
    requires Leads(stages, path, callers)
    ensures forall k :: 0 <= k < |path| ==> path[k] in stages
    decreases |path|
  {
    if path != [] {
      var n := |path| - 1;
      PathIsKnown(stages, path[..n], stages[path[n]].downstream);
      assert forall k :: 0 <= k < n ==> path[k] == path[..n][k];
    }
  }

  lemma {:induction false} PathIsUnique<D>(stages: map<Hash, Stage<D>>, p: seq<Hash>, q: seq<Hash>, callers: Option<seq<CallInfo>>)
    requires Leads(stages, p, callers) && Leads(stages, q, callers)
    ensures p == q
    decreases |p|
  {
    if p != [] {
      PathIsUnique(stages, p[..|p| - 1], q[..|q| - 1], stages[p[|p| - 1]].downstream);
      assert p == p[..|p| - 1] + [p[|p| - 1]] && q == q[..|q| - 1] + [q[|q| - 1]];
    }
  }

  lemma {:induction false} PathStays<D>(stages: map<Hash, Stage<D>>, more: map<Hash, Stage<D>>, path: seq<Hash>, callers: Option<seq<CallInfo>>)
    requires Grown(stages, more) && Leads(stages, path, callers)
    ensures Leads(more, path, callers)
    decreases |path|
  {
    if path != [] {
      var n := |path| - 1;
      PathStays(stages, more, path[..n], stages[path[n]].downstream);
      SameFirstCaller(more, path[..n], stages[path[n]].downstream, more[path[n]].downstream);
    }
  }

  lemma SameFirstCaller<D>(stages: map<Hash, Stage<D>>, path: seq<Hash>, few: Option<seq<CallInfo>>, many: Option<seq<CallInfo>>)
    requires Leads(stages, path, few) && (few.None? <==> many.None?)
    requires few.Some? && few.value != [] ==> many.value != [] && many.value[0] == few.value[0]
    ensures Leads(stages, path, many)
  {
  }

  /** The cycle hashes along a path. */
  ghost function PathHashes<D>(w: World<D>, stages: map<Hash, Stage<D>>, path: seq<Hash>): seq<Hash>
    requires forall k :: 0 <= k < |path| ==> path[k] in stages
  {
    seq(|path|, k requires 0 <= k < |path| => w.cycleHash(stages[path[k]].definition))
  }

  /** The entry remembers the cycle hashes along its path. */
  ghost predicate Remembers<D>(w: World<D>, stages: map<Hash, Stage<D>>, path: seq<Hash>, p: Pending<D>) {
    && Leads(stages, path, p.downstream)
    && (forall k :: 0 <= k < |path| ==> path[k] in stages)
    && p.cycles == PathHashes(w, stages, path)
  }

  ghost predicate Walked<D>(w: World<D>, stages: map<Hash, Stage<D>>, p: Pending<D>) {
    exists path :: Remembers(w, stages, path, p)
  }

  ghost predicate AllWalked<D>(w: World<D>, s: Discovery<D>) {
    forall k {:trigger s.pending[k]} :: 0 <= k < |s.pending| ==> Walked(w, s.stages, s.pending[k])
  }

  lemma WalkedStays<D>(w: World<D>, stages: map<Hash, Stage<D>>, more: map<Hash, Stage<D>>, p: Pending<D>)
    requires Grown(stages, more) && Walked(w, stages, p)
    ensures Walked(w, more, p)
  {
    var path :| Remembers(w, stages, path, p);
    PathStays(stages, more, path, p.downstream);
    assert PathHashes(w, more, path) == PathHashes(w, stages, path);
    assert Remembers(w, more, path, p);
  }

  lemma CallIsWalked<D>(w: World<D>, stages: map<Hash, Stage<D>>, p: Pending<D>, id: Hash, call: Pending<D>)
    requires Walked(w, stages, p) && id in stages
    requires stages[id].definition == p.definition && stages[id].downstream == p.downstream
    requires call.cycles == p.cycles + [w.cycleHash(p.definition)]
    requires call.downstream.Some? && call.downstream.value != [] && call.downstream.value[0].hash == id
    ensures Walked(w, stages, call)
  {
    var path :| Remembers(w, stages, path, p);
    var longer := path + [id];
    assert longer[..|path|] == path;
    assert PathHashes(w, stages, longer) == PathHashes(w, stages, path) + [w.cycleHash(p.definition)];
    assert Remembers(w, stages, longer, call);
  }

  lemma NextGrows<D>(w: World<D>, s: Discovery<D>)
    requires s.pending != [] && Next(w, s).Ok?
    ensures Grown(s.stages, Next(w, s).value.stages)
  {
  }

  lemma NextIsWalked<D>(w: World<D>, s: Discovery<D>)
    requires s.pending != [] && Next(w, s).Ok? && AllWalked(w, s)
    ensures AllWalked(w, Next(w, s).value)
  {
    var t, item := Next(w, s).value, s.pending[0];
    var id := w.identify(item.definition);
    NextGrows(w, s);
    forall k | 0 <= k < |s.pending| ensures Walked(w, t.stages, s.pending[k]) { WalkedStays(w, s.stages, t.stages, s.pending[k]); }
    forall k | 0 <= k < |t.pending| ensures Walked(w, t.stages, t.pending[k]) {
      if k < |s.pending| - 1 {
        assert t.pending[k] == s.pending[k + 1];
      } else {
        CallIsWalked(w, t.stages, item, id, t.pending[k]);
      }
    }
  }

  lemma {:induction false} EveryRoundIsWalked<D>(w: World<D>, definitions: seq<D>, round: nat)
    requires After(w, definitions, round).Ok?
    ensures AllWalked(w, After(w, definitions, round).value)
  {
    if round == 0 {
      var s := After(w, definitions, 0).value;
      forall k | 0 <= k < |s.pending| ensures Walked(w, s.stages, s.pending[k]) {
        assert Remembers(w, s.stages, [], s.pending[k]);
      }
    } else {
      EveryRoundIsWalked(w, definitions, round - 1);
      var s := After(w, definitions, round - 1).value;
      if s.pending != [] { NextIsWalked(w, s); }
    }
  }

  /** The work list has come to a definition that is not known, and some stage on the path to it, the first, the last or
      one between, has its cycle hash. */
  ghost predicate ComesBack<D>(w: World<D>, s: Discovery<D>, path: seq<Hash>, k: nat) {
    && s.pending != [] && w.identify(s.pending[0].definition) !in s.stages
    && Leads(s.stages, path, s.pending[0].downstream)
    && k < |path| && path[k] in s.stages
    && w.cycleHash(s.stages[path[k]].definition) == w.cycleHash(s.pending[0].definition)
  }

  /** Exactly then the cycle error is raised. */
  lemma CycleErrorIff<D(!new)>(w: World<D>, definitions: seq<D>)
    ensures EndsWith(w, definitions, Err(FoundCycle)) <==>
            exists s, path, k: nat :: Passes(w, definitions, s) && ComesBack(w, s, path, k)
  {
    FailsIff(w, definitions);
    forall s | Passes(w, definitions, s) && MeetsCycle(w, s) ensures exists path, k: nat :: ComesBack(w, s, path, k) {
      var round: nat :| After(w, definitions, round) == Ok(s);
      EveryRoundIsWalked(w, definitions, round);
      var path :| Remembers(w, s.stages, path, s.pending[0]);
      var k :| 0 <= k < |s.pending[0].cycles| && s.pending[0].cycles[k] == w.cycleHash(s.pending[0].definition);
      assert ComesBack(w, s, path, k);
    }
    forall s, path, k: nat | Passes(w, definitions, s) && ComesBack(w, s, path, k) ensures MeetsCycle(w, s) {
      var round: nat :| After(w, definitions, round) == Ok(s);
      EveryRoundIsWalked(w, definitions, round);
      var q :| Remembers(w, s.stages, q, s.pending[0]);
      PathIsUnique(s.stages, path, q, s.pending[0].downstream);
      assert s.pending[0].cycles[k] == w.cycleHash(s.pending[0].definition);
    }
  }

  // ----- which stages are ephemeral

  /** The call by which a stage was introduced is marked as ephemeral. */
  ghost predicate IntroducedEphemeral<D>(w: World<D>, stages: map<Hash, Stage<D>>, u: Hash) {
    && u in stages && stages[u].downstream.Some? && stages[u].downstream.value != []
    && var call := stages[u].downstream.value[0];
       && call.hash in stages && call.position < |w.upstreams(stages[call.hash].definition)|
       && w.upstreams(stages[call.hash].definition)[call.position].ephemeral
  }

  /** Every discovered stage has its path. */
  lemma {:induction false} StageHasPath<D>(w: World<D>, definitions: seq<D>, stages: map<Hash, Stage<D>>, keys: seq<Hash>, i: nat)
    returns (path: seq<Hash>)
    requires AllIntroduced(w, definitions, stages, keys) && i < |keys| && keys[i] in stages
    ensures Leads(stages, path, stages[keys[i]].downstream)
    decreases i
  {
    assert Introduced(w, definitions, stages, keys, i);
    path := [];
    if stages[keys[i]].downstream.Some? {
      var call := stages[keys[i]].downstream.value[0];
      var j :| 0 <= j < i && keys[j] == call.hash;
      var before := StageHasPath(w, definitions, stages, keys, j);
      path := before + [keys[j]];
      assert path[..|path| - 1] == before;
    }
  }

  /** A stage is ephemeral exactly when it, or a stage on the path to it, was introduced by a call marked as ephemeral. */
  lemma {:induction false} EphemeralIff<D>(w: World<D>, definitions: seq<D>, stages: map<Hash, Stage<D>>, keys: seq<Hash>, path: seq<Hash>, u: Hash)
    requires AllIntroduced(w, definitions, stages, keys) && (forall k :: k in keys <==> k in stages)
    requires u in stages && Leads(stages, path, stages[u].downstream)
    ensures stages[u].ephemeral <==> exists t :: t in path + [u] && IntroducedEphemeral(w, stages, t)
    decreases |path|
  {
    var i :| 0 <= i < |keys| && keys[i] == u;
    assert Introduced(w, definitions, stages, keys, i);
    if path != [] {
      var n := |path| - 1;
      var last := path[n];
      assert path[..n] + [last] == path;
      EphemeralIff(w, definitions, stages, keys, path[..n], last);
      assert CameFrom(w, stages, stages[u].definition, stages[u].ephemeral, stages[u].downstream.value[0]);
      assert u in path + [u] && forall t :: t in path ==> t in path + [u];
    }
  }
}

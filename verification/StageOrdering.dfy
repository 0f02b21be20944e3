/** The ordering loop of `propagate_implicit_config`, proved against `KahnOrder`. */
module StageOrdering {
  import opened Graphs
  import opened Orders
  import opened StageModel
  import opened StageOrder

  /** Entries of `ds`, repetitions counted, that are not yet done. */
  function Remaining(ds: seq<Hash>, done: set<Hash>): nat {
    if ds == [] then 0 else (if ds[0] in done then 0 else 1) + Remaining(ds[1..], done)
  }

  lemma {:induction false} RemainingOfNone(ds: seq<Hash>)
    ensures Remaining(ds, {}) == |ds|
  {
    if ds != [] { RemainingOfNone(ds[1..]); }
  }

  lemma {:induction false} RemainingAfter(ds: seq<Hash>, done: set<Hash>, key: Hash)
    requires key !in done
    ensures Remaining(ds, done) == Remaining(ds, done + {key}) + multiset(ds)[key]
  {
    if ds != [] {
      assert ds == [ds[0]] + ds[1..];
      RemainingAfter(ds[1..], done, key);
    }
  }

  lemma {:induction false} NothingRemains(ds: seq<Hash>, done: set<Hash>)
    ensures Remaining(ds, done) == 0 <==> forall u :: u in ds ==> u in done
  {
    if ds != [] {
      assert ds == [ds[0]] + ds[1..];
      NothingRemains(ds[1..], done);
    }
  }

  /** How often `u` is to appear under `k`'s dependencies, once `k` has been counted. */
  ghost function Listed(deps: map<Hash, seq<Hash>>, seen: set<Hash>, u: Hash, k: Hash): nat {
    if k in seen && k in deps then multiset(deps[k])[u] else 0
  }

  /** `dependents` lists every stage as often as that stage lists its dependency. */
  ghost predicate Mirrors(dependents: map<Hash, seq<Hash>>, deps: map<Hash, seq<Hash>>, seen: set<Hash>) {
    forall u, k :: u in dependents ==> multiset(dependents[u])[k] == Listed(deps, seen, u, k)
  }

  /** Record `key` under each of its dependencies `ups`. */
  method AddDependent(table: map<Hash, seq<Hash>>, deps: map<Hash, seq<Hash>>, key: Hash, ghost seen: set<Hash>)
    returns (dependents: map<Hash, seq<Hash>>)
    requires Mirrors(table, deps, seen) && key in deps && key !in seen
    requires forall u :: u in deps[key] ==> u in table
    ensures dependents.Keys == table.Keys
    ensures Mirrors(dependents, deps, seen + {key})
  {
    var ups := deps[key];
    dependents := table;
    for j := 0 to |ups|
      invariant dependents.Keys == table.Keys
      invariant forall u, k :: u in dependents ==>
        multiset(dependents[u])[k] == Listed(deps, seen, u, k) + if k == key then multiset(ups[..j])[u] else 0
    {
      assert ups[j] in ups;
      assert ups[..j + 1] == ups[..j] + [ups[j]];
      dependents := dependents[ups[j] := dependents[ups[j]] + [key]];
    }
    assert ups[..|ups|] == ups;
  }

  method CountDependencies(keys: seq<Hash>, deps: map<Hash, seq<Hash>>)
    returns (dependents: map<Hash, seq<Hash>>, indegree: map<Hash, int>)
    requires NoDup(keys) && forall k :: k in keys <==> k in deps
    requires forall k, u :: k in deps && u in deps[k] ==> u in deps
    ensures dependents.Keys == deps.Keys && Mirrors(dependents, deps, deps.Keys)
    ensures indegree.Keys == deps.Keys && forall k :: k in deps ==> indegree[k] == |deps[k]|
  {
    dependents := map k | k in deps :: [];
    indegree := map[];
    ghost var seen: set<Hash> := {};
    for i := 0 to |keys|
      invariant forall k :: k in seen <==> k in keys[..i]
      invariant dependents.Keys == deps.Keys && Mirrors(dependents, deps, seen)
      invariant indegree.Keys == seen && seen <= deps.Keys
      invariant forall k :: k in seen ==> indegree[k] == |deps[k]|
    {
      var key := keys[i];
      assert key in keys;
      assert keys[..i + 1] == keys[..i] + [key];
      assert key !in keys[..i];
      indegree := indegree[key := |deps[key]|];
      dependents := AddDependent(dependents, deps, key, seen);
      seen := seen + {key};
    }
    assert keys[..|keys|] == keys;
    assert seen == deps.Keys;
  }

  /** Counters while the entries `touched` have been subtracted and `left` are still to come. */
  ghost predicate Counting(after: map<Hash, nat>, indegree: map<Hash, int>, touched: multiset<Hash>, left: multiset<Hash>,
                           newlyReady: seq<Hash>) {
    && indegree.Keys == after.Keys
    && (forall k :: k in after ==> indegree[k] == after[k] + left[k])
    && NoDup(newlyReady)
    && forall k :: k in newlyReady <==> k in touched && k in after && indegree[k] == 0
  }

  /** Subtract one entry. */
  method Tick(dependent: Hash, counters: map<Hash, int>, ready: seq<Hash>, ghost after: map<Hash, nat>,
              ghost touched: multiset<Hash>, ghost left: multiset<Hash>)
    returns (indegree: map<Hash, int>, newlyReady: seq<Hash>)
    requires Counting(after, counters, touched, left, ready)
    requires dependent in after && dependent in left
    ensures Counting(after, indegree, touched + multiset{dependent}, left - multiset{dependent}, newlyReady)
  {
    indegree := counters[dependent := counters[dependent] - 1];
    newlyReady := if indegree[dependent] == 0 then ready + [dependent] else ready;
  }

  /** Subtract one for every entry of `out`, and list, unsorted, the stages whose counter reaches zero. */
  method Decrement(out: seq<Hash>, counters: map<Hash, int>, ghost after: map<Hash, nat>)
    returns (indegree: map<Hash, int>, newlyReady: seq<Hash>)
    requires counters.Keys == after.Keys && forall k :: k in out ==> k in after
    requires forall k :: k in after ==> counters[k] == after[k] + multiset(out)[k]
    ensures indegree == after
    ensures NoDup(newlyReady)
    ensures forall k :: k in newlyReady <==> k in out && after[k] == 0
  {
    indegree := counters;
    newlyReady := [];
    assert out[0..] == out && out[..0] == [];
    for j := 0 to |out|
      invariant Counting(after, indegree, multiset(out[..j]), multiset(out[j..]), newlyReady)
    {
      assert out[j] in out;
      SplitAt(out, j);
      indegree, newlyReady := Tick(out[j], indegree, newlyReady, after, multiset(out[..j]), multiset(out[j..]));
    }
    assert out[..|out|] == out && out[|out|..] == [];
  }

  lemma SplitAt<T>(s: seq<T>, j: nat)
    requires j < |s|
    ensures multiset(s[..j + 1]) == multiset(s[..j]) + multiset{s[j]}
    ensures multiset(s[j + 1..]) == multiset(s[j..]) - multiset{s[j]}
    ensures s[j] in multiset(s[j..])
  {
    assert s[..j + 1] == s[..j] + [s[j]];
    assert s[j..] == [s[j]] + s[j + 1..];
  }

  /** One visit: release the dependents `out` of `key`. */
  method Release(key: Hash, out: seq<Hash>, counters: map<Hash, int>, ghost deps: map<Hash, seq<Hash>>, ghost done: set<Hash>)
    returns (indegree: map<Hash, int>, newlyReady: seq<Hash>)
    requires key !in done && counters.Keys == deps.Keys
    requires forall k :: k in out ==> k in deps
    requires forall k :: k in deps ==> multiset(out)[k] == multiset(deps[k])[key]
    requires forall k :: k in deps ==> counters[k] == Remaining(deps[k], done)
    ensures indegree.Keys == deps.Keys
    ensures forall k :: k in deps ==> indegree[k] == Remaining(deps[k], done + {key})
    ensures NoDup(newlyReady)
    ensures forall k :: k in newlyReady <==> k in deps && key in deps[k] && Remaining(deps[k], done + {key}) == 0
  {
    forall k | k in deps { RemainingAfter(deps[k], done, key); }
    ghost var after: map<Hash, nat> := map k | k in deps :: Remaining(deps[k], done + {key});
    indegree, newlyReady := Decrement(out, counters, after);
    forall k | k in deps ensures k in out <==> key in deps[k] {
      assert k in multiset(out) <==> key in multiset(deps[k]);
    }
  }

  ghost function Visited(order: seq<Hash>): set<Hash> {
    set d | d in order
  }

  lemma VisitedStep(order: seq<Hash>, key: Hash)
    ensures Visited(order + [key]) == Visited(order) + {key}
  {
  }

  lemma RemainingIsSettled(g: Graph, done: seq<Hash>, d: Hash)
    ensures Remaining(Dependencies(g, d), Visited(done)) == 0 <==> Settled(g, done, d)
  {
    NothingRemains(Dependencies(g, d), Visited(done));
  }

  /** Stages without dependencies, sorted. */
  method InitialReady(keys: seq<Hash>, indegree: map<Hash, int>, ghost g: Graph) returns (ready: seq<Hash>)
    requires NoDup(keys) && (forall k :: k in keys <==> k in g.config) && indegree.Keys == g.config.Keys
    requires forall k :: k in g.config ==> indegree[k] == |Dependencies(g, k)|
    ensures ready == SortedSet(Roots(g))
  {
    var roots := [];
    for i := 0 to |keys|
      invariant NoDup(roots)
      invariant forall k :: k in roots <==> k in keys[..i] && Dependencies(g, k) == []
    {
      assert keys[..i + 1] == keys[..i] + [keys[i]];
      assert keys[i] in keys;
      if indegree[keys[i]] == 0 { roots := roots + [keys[i]]; }
    }
    assert keys[..|keys|] == keys;
    SortedOfDistinct(roots, Roots(g));
    ready := Sorted(roots);
  }

  /** One turn of the loop: what `Release` lists is what the reference order makes ready. */
  lemma ReleasedIsNewlyReady(g: Graph, deps: map<Hash, seq<Hash>>, order: seq<Hash>, key: Hash, newlyReady: seq<Hash>)
    requires deps.Keys == g.config.Keys && forall k :: k in deps ==> deps[k] == Dependencies(g, k)
    requires NoDup(newlyReady)
    requires forall k :: k in newlyReady <==>
      k in deps && key in deps[k] && Remaining(deps[k], Visited(order) + {key}) == 0
    ensures Sorted(newlyReady) == SortedSet(NewlyReady(g, order + [key], key))
  {
    VisitedStep(order, key);
    forall k | k in deps { RemainingIsSettled(g, order + [key], k); }
    SortedOfDistinct(newlyReady, NewlyReady(g, order + [key], key));
  }

  lemma AllRemainAtStart(deps: map<Hash, seq<Hash>>)
    ensures forall k :: k in deps ==> Remaining(deps[k], Visited([])) == |deps[k]|
  {
    assert Visited([]) == {};
    forall k | k in deps { RemainingOfNone(deps[k]); }
  }

  lemma MirroredBack(dependents: map<Hash, seq<Hash>>, deps: map<Hash, seq<Hash>>, key: Hash)
    requires Mirrors(dependents, deps, deps.Keys) && key in dependents
    ensures forall k :: k in dependents[key] ==> k in deps
    ensures forall k :: k in deps ==> multiset(dependents[key])[k] == multiset(deps[k])[key]
  {
    forall k | k in dependents[key] ensures k in deps {
      assert multiset(dependents[key])[k] > 0;
    }
  }

  /** The visiting order. It depends on the graph only: not on the order of `keys`, nor, by `KahnOrderIgnoresOrder`, on that of any list. */
  method VisitingOrder(keys: seq<Hash>, g: Graph) returns (order: seq<Hash>)
    requires WellFormed(g) && NoDup(keys) && forall k :: k in keys <==> k in g.config
    ensures order == KahnOrder(g)
  {
    var deps := map k | k in g.config :: Dependencies(g, k);
    var dependents, indegree := CountDependencies(keys, deps);
    var ready := InitialReady(keys, indegree, g);
    order := [];
    KahnStart(g);
    AllRemainAtStart(deps);
    while ready != []
      invariant KahnState(g, order, ready)
      invariant Kahn(g, order, ready) == KahnOrder(g)
      invariant indegree.Keys == deps.Keys
      invariant forall k :: k in deps ==> indegree[k] == Remaining(deps[k], Visited(order))
      decreases |Unvisited(g, order)|
    {
      var key := ready[0];
      assert key in ready;
      KahnStep(g, order, ready);
      VisitShrinks(g, order, key);
      MirroredBack(dependents, deps, key);
      VisitedStep(order, key);
      var newlyReady;
      indegree, newlyReady := Release(key, dependents[key], indegree, deps, Visited(order));
      ReleasedIsNewlyReady(g, deps, order, key, newlyReady);
      ready := ready[1..] + Sorted(newlyReady);
      order := order + [key];
    }
  }
}

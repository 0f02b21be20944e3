/** The order in which propagation visits the stages: Kahn's algorithm with sorted tie-breaks. */
module StageOrder {
  import opened Graphs
  import opened Orders
  import opened StageModel

  /** All dependencies of `d` are in `done`. */
  ghost predicate Settled(g: Graph, done: seq<Hash>, d: Hash) {
    forall u :: u in Dependencies(g, d) ==> u in done
  }

  ghost function Roots(g: Graph): set<Hash> {
    set d | d in g.config && Dependencies(g, d) == []
  }

  /** Dependents of `key` for which it was the last missing dependency. */
  ghost function NewlyReady(g: Graph, done: seq<Hash>, key: Hash): set<Hash> {
    set d | d in g.config && key in Dependencies(g, d) && Settled(g, done, d)
  }

  /** Stages in `order` follow all their dependencies, each at most once. */
  ghost predicate IsTopological(g: Graph, order: seq<Hash>) {
    && NoDup(order)
    && (forall d :: d in order ==> d in g.config)
    && forall i {:trigger Settled(g, order[..i], order[i])} :: 0 <= i < |order| ==> Settled(g, order[..i], order[i])
  }

  ghost predicate KahnState(g: Graph, order: seq<Hash>, ready: seq<Hash>) {
    && IsTopological(g, order)
    && NoDup(ready)
    && (forall d :: d in ready ==> d in g.config && d !in order && Settled(g, order, d))
    && (forall d :: d in g.config && Settled(g, order, d) ==> d in order || d in ready)
  }

  ghost function Unvisited(g: Graph, order: seq<Hash>): set<Hash> {
    set d | d in g.config && d !in order
  }

  lemma VisitShrinks(g: Graph, order: seq<Hash>, key: Hash)
    requires key in g.config && key !in order
    ensures |Unvisited(g, order + [key])| < |Unvisited(g, order)|
  {
    assert Unvisited(g, order + [key]) == Unvisited(g, order) - {key};
    assert key in Unvisited(g, order);
  }

  /** The visiting order as a function of the graph alone: no counters, no iteration order. */
  ghost function Kahn(g: Graph, order: seq<Hash>, ready: seq<Hash>): (r: seq<Hash>)
    requires KahnState(g, order, ready)
    ensures KahnState(g, r, [])
    decreases |Unvisited(g, order)|
  {
    if ready == [] then order else
      var key := ready[0];
      var more := SortedSet(NewlyReady(g, order + [key], key));
      KahnStep(g, order, ready);
      VisitShrinks(g, order, key);
      Kahn(g, order + [key], ready[1..] + more)
  }

  ghost function KahnOrder(g: Graph): (r: seq<Hash>)
    ensures KahnState(g, r, [])
  {
    KahnStart(g);
    Kahn(g, [], SortedSet(Roots(g)))
  }

  lemma HeadIsMember<T>(s: seq<T>)
    ensures s == [] || s[0] in s
  {
  }

  lemma KahnStart(g: Graph)
    ensures KahnState(g, [], SortedSet(Roots(g)))
  {
    SortedSetNoDup(Roots(g));
    forall d | d in g.config && Settled(g, [], d) ensures d in Roots(g) {
      HeadIsMember(Dependencies(g, d));
    }
  }

  lemma AppendSettled(g: Graph, order: seq<Hash>, key: Hash)
    requires IsTopological(g, order) && key in g.config && key !in order && Settled(g, order, key)
    ensures IsTopological(g, order + [key])
  {
    var order2 := order + [key];
    forall i | 0 <= i < |order2| ensures Settled(g, order2[..i], order2[i]) {
      if i < |order| {
        assert order2[..i] == order[..i] && Settled(g, order[..i], order[i]);
      } else {
        assert order2[..i] == order;
      }
    }
  }

  /** A stage that waited for `key` was neither visited nor ready before. */
  lemma NewlyReadyIsNew(g: Graph, order: seq<Hash>, ready: seq<Hash>, d: Hash)
    requires KahnState(g, order, ready) && ready != []
    requires ready[0] in Dependencies(g, d)
    ensures d !in order && d !in ready
  {
    var key := ready[0];
    assert key in ready && key !in order;
    assert !Settled(g, order, d);
    forall i | 0 <= i < |order| ensures order[i] != d {
      assert Settled(g, order[..i], order[i]);
      assert key !in order[..i];
    }
  }

  lemma ConcatNoDup<T>(a: seq<T>, b: seq<T>)
    requires NoDup(a) && NoDup(b) && forall x :: x in a ==> x !in b
    ensures NoDup(a + b)
  {
    var c := a + b;
    forall i, j | 0 <= i < j < |c| ensures c[i] != c[j] {
      if i < |a| <= j { assert a[i] in a && b[j - |a|] in b; }
    }
  }

  lemma KahnStepReady(g: Graph, order: seq<Hash>, ready: seq<Hash>)
    requires KahnState(g, order, ready) && ready != []
    ensures var order2 := order + [ready[0]];
            var ready2 := ready[1..] + SortedSet(NewlyReady(g, order2, ready[0]));
            NoDup(ready2) && forall d :: d in ready2 ==> d in g.config && d !in order2 && Settled(g, order2, d)
  {
    var key := ready[0];
    var order2 := order + [key];
    var next := NewlyReady(g, order2, key);
    var more := SortedSet(next);
    SortedSetNoDup(next);
    forall d | d in next ensures d !in order && d !in ready { NewlyReadyIsNew(g, order, ready, d); }
    forall d | d in ready[1..] ensures d in ready && d !in more && d != key {
      var i :| 0 <= i < |ready[1..]| && ready[1..][i] == d;
      assert ready[i + 1] == d;
    }
    ConcatNoDup(ready[1..], more);
    forall d | d in ready[1..] ensures d !in order2 && Settled(g, order2, d) { assert Settled(g, order, d); }
    forall d | d in more ensures d !in order2 && Settled(g, order2, d) {
      assert d in next && key in ready;
    }
  }

  lemma KahnStepComplete(g: Graph, order: seq<Hash>, ready: seq<Hash>, d: Hash)
    requires KahnState(g, order, ready) && ready != []
    requires d in g.config && Settled(g, order + [ready[0]], d)
    ensures d in order + [ready[0]] || d in ready[1..] + SortedSet(NewlyReady(g, order + [ready[0]], ready[0]))
  {
    var key := ready[0];
    if key in Dependencies(g, d) {
      assert d in NewlyReady(g, order + [key], key);
    } else {
      assert Settled(g, order, d);
      if d in ready && d != key {
        assert ready == [key] + ready[1..];
      }
    }
  }

  lemma KahnStep(g: Graph, order: seq<Hash>, ready: seq<Hash>)
    requires KahnState(g, order, ready) && ready != []
    ensures KahnState(g, order + [ready[0]],
                      ready[1..] + SortedSet(NewlyReady(g, order + [ready[0]], ready[0])))
  {
    var key := ready[0];
    assert key in ready;
    AppendSettled(g, order, key);
    KahnStepReady(g, order, ready);
    forall d | d in g.config && Settled(g, order + [key], d)
      ensures d in order + [key] || d in ready[1..] + SortedSet(NewlyReady(g, order + [key], key))
    {
      KahnStepComplete(g, order, ready, d);
    }
  }

  lemma {:induction false} KahnIgnoresOrder(g: Graph, h: Graph, order: seq<Hash>, ready: seq<Hash>)
    requires SameUpToOrder(g, h) && KahnState(g, order, ready) && KahnState(h, order, ready)
    ensures Kahn(g, order, ready) == Kahn(h, order, ready)
    decreases |Unvisited(g, order)|
  {
    if ready != [] {
      var key := ready[0];
      var done := order + [key];
      forall d | d in g.config ensures Settled(g, done, d) <==> Settled(h, done, d) {}
      assert NewlyReady(g, done, key) == NewlyReady(h, done, key);
      KahnStep(g, order, ready);
      KahnStep(h, order, ready);
      VisitShrinks(g, order, key);
      KahnIgnoresOrder(g, h, done, ready[1..] + SortedSet(NewlyReady(g, done, key)));
    }
  }

  /** The visiting order depends neither on the order of the dependency lists nor on repetitions in them. */
  lemma KahnOrderIgnoresOrder(g: Graph, h: Graph)
    requires SameUpToOrder(g, h)
    ensures KahnOrder(g) == KahnOrder(h)
  {
    forall d | d in g.config ensures Dependencies(g, d) == [] <==> Dependencies(h, d) == [] {
      HeadIsMember(Dependencies(g, d));
      HeadIsMember(Dependencies(h, d));
    }
    assert Roots(g) == Roots(h);
    KahnStart(g);
    KahnStart(h);
    KahnIgnoresOrder(g, h, [], SortedSet(Roots(g)));
  }

  /** Nothing is left ready: the order is complete exactly on acyclic graphs. */
  lemma KahnCompleteIffAcyclic(g: Graph)
    requires WellFormed(g)
    ensures IsTopological(g, KahnOrder(g))
    ensures |KahnOrder(g)| == |g.config| <==> Acyclic(DependencyEdge(g))
    ensures |KahnOrder(g)| == |g.config| <==> forall d :: d in g.config ==> d in KahnOrder(g)
  {
    var order := KahnOrder(g);
    var visited := set d | d in order;
    NoDupCount(order, visited);
    assert visited <= g.config.Keys;
    if visited == g.config.Keys {
      TopologicalMeansAcyclic(g, order);
    } else {
      var stuck := g.config.Keys - visited;
      assert stuck != {};
      forall b | b in stuck ensures HasPredecessor(DependencyEdge(g), stuck, b) {
        assert !Settled(g, order, b);
        var u :| u in Dependencies(g, b) && u !in order;
        assert u in stuck && DependencyEdge(g)(u, b);
      }
      StuckSetHasCycle(DependencyEdge(g), stuck);
      if |visited| == |g.config| { SubsetOfSameSize(visited, g.config.Keys); }
    }
  }

  lemma SubsetOfSameSize<T>(a: set<T>, b: set<T>)
    requires a <= b && |a| == |b|
    ensures a == b
  {
    assert b == a + (b - a);
    assert |b| == |a| + |b - a|;
  }

  lemma {:induction false} NoDupCount<T>(s: seq<T>, elements: set<T>)
    requires NoDup(s) && forall x :: x in s <==> x in elements
    ensures |s| == |elements|
    decreases |s|
  {
    if s == [] {
      assert elements == {};
    } else {
      assert s == [s[0]] + s[1..];
      NoDupCount(s[1..], elements - {s[0]});
    }
  }

  lemma TopologicalMeansAcyclic(g: Graph, order: seq<Hash>)
    requires WellFormed(g) && IsTopological(g, order) && forall d :: d in g.config ==> d in order
    ensures Acyclic(DependencyEdge(g))
  {
    var rank := IndexMap(order);
    forall u, s | DependencyEdge(g)(u, s) ensures u in rank && s in rank && rank[u] < rank[s] {
      var i :| 0 <= i < |order| && order[i] == s;
      assert Settled(g, order[..i], order[i]);
    }
    RankedIsAcyclic(DependencyEdge(g), rank);
  }

  lemma {:induction false} IndexMap<T>(s: seq<T>) returns (index: map<T, nat>)
    requires NoDup(s)
    ensures forall x :: x in index <==> x in s
    ensures forall i :: 0 <= i < |s| ==> index[s[i]] == i
  {
    if s == [] {
      index := map[];
    } else {
      var n := |s| - 1;
      index := IndexMap(s[..n]);
      assert s == s[..n] + [s[n]];
      index := index[s[n] := n];
      forall i | 0 <= i < |s| ensures index[s[i]] == i { if i < n { assert s[i] == s[..n][i]; } }
    }
  }
}

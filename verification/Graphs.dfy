/** Reachability over a relation, shared by the stage graph, the cache registry and the import walk. */
module Graphs {

  /** Consecutive nodes of a non-empty path are related. */
  ghost predicate IsPath<T(!new)>(rel: (T, T) -> bool, p: seq<T>) {
    |p| > 0 && forall i, j :: 0 <= i < |p| && j == i + 1 && j < |p| ==> rel(p[i], p[j])
  }

  ghost predicate PathBetween<T(!new)>(rel: (T, T) -> bool, p: seq<T>, a: T, b: T) {
    IsPath(rel, p) && p[0] == a && p[|p| - 1] == b
  }

  /** Reflexive and transitive: the one-node path counts. */
  ghost predicate Reaches<T(!new)>(rel: (T, T) -> bool, a: T, b: T) {
    exists p :: PathBetween(rel, p, a, b)
  }

  ghost predicate ReachedFrom<T(!new)>(rel: (T, T) -> bool, sources: set<T>, b: T) {
    exists a :: a in sources && Reaches(rel, a, b)
  }

  ghost predicate Closed<T(!new)>(rel: (T, T) -> bool, s: set<T>) {
    forall a, b :: a in s && rel(a, b) ==> b in s
  }

  /** No path of at least one edge returns to its start. */
  ghost predicate Acyclic<T(!new)>(rel: (T, T) -> bool) {
    forall p :: IsPath(rel, p) && |p| >= 2 ==> p[0] != p[|p| - 1]
  }

  ghost predicate NoDup<T>(s: seq<T>) {
    forall i, j :: 0 <= i < j < |s| ==> s[i] != s[j]
  }

  /** Every edge leads to a strictly larger rank. */
  ghost predicate Ranked<T(!new)>(rel: (T, T) -> bool, rank: map<T, nat>) {
    forall a, b :: rel(a, b) ==> a in rank && b in rank && rank[a] < rank[b]
  }

  lemma ReachesSelf<T(!new)>(rel: (T, T) -> bool, a: T)
    ensures Reaches(rel, a, a)
  {
    assert PathBetween(rel, [a], a, a);
  }

  lemma ReachesStep<T(!new)>(rel: (T, T) -> bool, a: T, b: T, c: T)
    requires Reaches(rel, a, b) && rel(b, c)
    ensures Reaches(rel, a, c)
  {
    var p :| PathBetween(rel, p, a, b);
    assert PathBetween(rel, p + [c], a, c);
  }

  lemma {:induction false} ReachesTransitive<T(!new)>(rel: (T, T) -> bool, a: T, b: T, c: T)
    requires Reaches(rel, a, b) && Reaches(rel, b, c)
    ensures Reaches(rel, a, c)
  {
    var p :| PathBetween(rel, p, a, b);
    var q :| PathBetween(rel, q, b, c);
    var r := p + q[1..];
    forall i | 0 <= i < |r| - 1
      ensures rel(r[i], r[i + 1])
    {
      if i >= |p| - 1 {
        assert r[i] == q[i - |p| + 1] && r[i + 1] == q[i - |p| + 2];
      }
    }
    assert PathBetween(rel, r, a, c);
  }

  /** A reached node is the start or the head of a last edge. */
  lemma ReachesLast<T(!new)>(rel: (T, T) -> bool, a: T, c: T)
    requires Reaches(rel, a, c)
    ensures a == c || exists b :: Reaches(rel, a, b) && rel(b, c)
  {
    var p :| PathBetween(rel, p, a, c);
    if |p| > 1 {
      var q := p[..|p| - 1];
      assert PathBetween(rel, q, a, q[|q| - 1]);
      assert rel(p[|p| - 2], p[|p| - 2 + 1]);
    }
  }

  lemma {:induction false} PathStaysInClosed<T(!new)>(rel: (T, T) -> bool, s: set<T>, p: seq<T>)
    requires Closed(rel, s) && IsPath(rel, p) && p[0] in s
    ensures forall i :: 0 <= i < |p| ==> p[i] in s
    decreases |p|
  {
    if |p| > 1 {
      var q := p[..|p| - 1];
      assert IsPath(rel, q);
      PathStaysInClosed(rel, s, q);
      assert rel(p[|p| - 2], p[|p| - 2 + 1]);
      forall i | 0 <= i < |p| ensures p[i] in s {
        if i < |p| - 1 { assert p[i] == q[i]; } else { assert q[|p| - 2] in s; }
      }
    }
  }

  lemma ReachedStaysInClosed<T(!new)>(rel: (T, T) -> bool, s: set<T>, a: T, b: T)
    requires Closed(rel, s) && a in s && Reaches(rel, a, b)
    ensures b in s
  {
    var p :| PathBetween(rel, p, a, b);
    PathStaysInClosed(rel, s, p);
  }

  lemma ReachesMonotone<T(!new)>(small: (T, T) -> bool, large: (T, T) -> bool, a: T, b: T)
    requires forall x, y :: small(x, y) ==> large(x, y)
    requires Reaches(small, a, b)
    ensures Reaches(large, a, b)
  {
    var p :| PathBetween(small, p, a, b);
    assert PathBetween(large, p, a, b);
  }

  /** On a path ranks grow, so a ranked relation has no cycle. */
  lemma {:induction false} RankGrowsOnPath<T(!new)>(rel: (T, T) -> bool, rank: map<T, nat>, p: seq<T>)
    requires Ranked(rel, rank) && IsPath(rel, p) && |p| >= 2
    ensures p[0] in rank && p[|p| - 1] in rank && rank[p[0]] < rank[p[|p| - 1]]
    decreases |p|
  {
    assert rel(p[|p| - 2], p[|p| - 2 + 1]);
    if |p| > 2 {
      var q := p[..|p| - 1];
      assert IsPath(rel, q);
      RankGrowsOnPath(rel, rank, q);
    }
  }

  lemma RankedIsAcyclic<T(!new)>(rel: (T, T) -> bool, rank: map<T, nat>)
    requires Ranked(rel, rank)
    ensures Acyclic(rel)
  {
    forall p | IsPath(rel, p) && |p| >= 2 ensures p[0] != p[|p| - 1] {
      RankGrowsOnPath(rel, rank, p);
    }
  }

  lemma {:induction false} Pigeonhole<T>(s: set<T>, p: seq<T>) returns (i: nat, j: nat)
    requires |p| > |s|
    requires forall k :: 0 <= k < |p| ==> p[k] in s
    ensures i < j < |p| && p[i] == p[j]
    decreases |p|
  {
    var last := p[|p| - 1];
    if k: nat :| k < |p| - 1 && p[k] == last {
      i, j := k, |p| - 1;
    } else {
      var q := p[..|p| - 1];
      forall k | 0 <= k < |q| ensures q[k] in s - {last} { assert p[k] in s; }
      assert last in s;
      i, j := Pigeonhole(s - {last}, q);
    }
  }

  ghost predicate HasPredecessor<T(!new)>(rel: (T, T) -> bool, s: set<T>, b: T) {
    exists a :: a in s && rel(a, b)
  }

  ghost predicate AllHavePredecessor<T(!new)>(rel: (T, T) -> bool, s: set<T>) {
    forall b {:trigger HasPredecessor(rel, s, b)} :: b in s ==> HasPredecessor(rel, s, b)
  }

  /** In a set where everybody has a predecessor one can walk backwards for ever. */
  lemma {:induction false} BackwardPath<T(!new)>(rel: (T, T) -> bool, s: set<T>, n: nat) returns (p: seq<T>)
    requires s != {}
    requires AllHavePredecessor(rel, s)
    ensures |p| == n + 1 && IsPath(rel, p) && forall i :: 0 <= i < |p| ==> p[i] in s
  {
    if n == 0 {
      var x :| x in s;
      p := [x];
    } else {
      var q := BackwardPath(rel, s, n - 1);
      assert HasPredecessor(rel, s, q[0]);
      var a :| a in s && rel(a, q[0]);
      p := [a] + q;
    }
  }

  lemma SegmentIsPath<T(!new)>(rel: (T, T) -> bool, p: seq<T>, i: nat, j: nat)
    requires IsPath(rel, p) && i < j <= |p|
    ensures IsPath(rel, p[i..j])
  {
    var q := p[i..j];
    forall k | 0 <= k < |q| - 1 ensures rel(q[k], q[k + 1]) {
      assert rel(p[i + k], p[i + k + 1]);
    }
  }

  lemma StuckSetHasCycle<T(!new)>(rel: (T, T) -> bool, s: set<T>)
    requires s != {}
    requires AllHavePredecessor(rel, s)
    ensures !Acyclic(rel)
  {
    var p := BackwardPath(rel, s, |s|);
    var i, j := Pigeonhole(s, p);
    SegmentIsPath(rel, p, i, j + 1);
    var q := p[i..j + 1];
    assert |q| >= 2 && q[0] == q[|q| - 1];
  }

  /** A finite acyclic relation can be ranked. */
  lemma {:induction false} AcyclicHasRank<T(!new)>(rel: (T, T) -> bool, nodes: set<T>) returns (rank: map<T, nat>)
    requires Acyclic(rel)
    ensures rank.Keys == nodes
    ensures forall a, b :: a in nodes && b in nodes && rel(a, b) ==> rank[a] < rank[b]
    decreases |nodes|
  {
    if nodes == {} {
      rank := map[];
    } else {
      if AllHavePredecessor(rel, nodes) {
        StuckSetHasCycle(rel, nodes);
      }
      var bottom :| bottom in nodes && !HasPredecessor(rel, nodes, bottom);
      var above := AcyclicHasRank(rel, nodes - {bottom});
      rank := map a | a in nodes :: if a == bottom then 0 else above[a] + 1;
    }
  }

  /** A reached node is the start or lies behind a first edge. */
  lemma ReachesHead<T(!new)>(rel: (T, T) -> bool, a: T, c: T)
    requires Reaches(rel, a, c)
    ensures a == c || exists b :: rel(a, b) && Reaches(rel, b, c)
  {
    var p :| PathBetween(rel, p, a, c);
    if |p| > 1 {
      SegmentIsPath(rel, p, 1, |p|);
      assert PathBetween(rel, p[1..], p[1], c);
      assert rel(p[0], p[0 + 1]);
    }
  }

  /** A set that grows within `all` leaves fewer elements. */
  lemma FewerLeft<T>(all: set<T>, a: set<T>, b: set<T>)
    requires a <= b <= all
    ensures a == b || |all - b| < |all - a|
  {
    if x :| x in b && x !in a {
      var smaller := (all - a) - {x};
      assert all - b <= smaller;
      assert smaller == (all - b) + (smaller - (all - b));
    }
  }
}

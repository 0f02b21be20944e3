/** When the connection walk of `process_stages` ends, and when a cycle of requirements goes unnoticed. */
module StageWalk {
  import opened Wrappers
  import opened Graphs
  import opened Orders
  import opened StageModel
  import opened StageDiscovery
  import opened StageConnection

  /** The pending stages after `n` rounds of the walk. */
  function WalkAfter<D>(stages: map<Hash, Stage<D>>, pending: seq<Hash>, n: nat): seq<Hash> {
    if n == 0 then pending
    else
      var last := WalkAfter(stages, pending, n - 1);
      if last == [] then [] else last[1..] + CallerHashes(Callers(stages, last[0]))
  }

  // ----- walking into a cycle

  /** A path that comes back to one of its nodes at its end. */
  ghost predicate IsLasso(rel: (Hash, Hash) -> bool, p: seq<Hash>) {
    IsPath(rel, p) && exists i :: 0 <= i < |p| - 1 && p[i] == p[|p| - 1]
  }

  /** From `u` a cycle can be reached. */
  ghost predicate Immortal(rel: (Hash, Hash) -> bool, u: Hash) {
    exists p :: IsLasso(rel, p) && p[0] == u
  }

  /** A stage that reaches a cycle has a caller that does. */
  lemma ImmortalGoesOn(rel: (Hash, Hash) -> bool, u: Hash) returns (v: Hash)
    requires Immortal(rel, u)
    ensures rel(u, v) && Immortal(rel, v)
  {
    var p :| IsLasso(rel, p) && p[0] == u;
    var i :| 0 <= i < |p| - 1 && p[i] == p[|p| - 1];
    v := p[1];
    assert rel(p[0], p[0 + 1]);
    SegmentIsPath(rel, p, 1, |p|);
    if i > 0 {
      assert p[1..][i - 1] == p[1..][|p[1..]| - 1];
      assert IsLasso(rel, p[1..]);
    } else {
      var q := p[1..] + [p[1]];
      forall a, b | 0 <= a < |q| && b == a + 1 && b < |q| ensures rel(q[a], q[b]) {
        if b < |q| - 1 { assert rel(p[1..][a], p[1..][b]); }
      }
      assert q[0] == q[|q| - 1];
      assert IsLasso(rel, q);
    }
  }

  ghost predicate SomeImmortal(rel: (Hash, Hash) -> bool, pending: seq<Hash>) {
    exists k :: 0 <= k < |pending| && Immortal(rel, pending[k])
  }

  lemma WalkStaysImmortal<D>(stages: map<Hash, Stage<D>>, pending: seq<Hash>)
    requires SomeImmortal(CallerEdge(stages), pending)
    ensures SomeImmortal(CallerEdge(stages), pending[1..] + CallerHashes(Callers(stages, pending[0])))
  {
    var rel := CallerEdge(stages);
    var next := CallerHashes(Callers(stages, pending[0]));
    var k :| 0 <= k < |pending| && Immortal(rel, pending[k]);
    if k > 0 {
      assert (pending[1..] + next)[k - 1] == pending[k];
    } else {
      var v := ImmortalGoesOn(rel, pending[0]);
      var info :| info in Callers(stages, pending[0]) && info.hash == v;
      var j :| 0 <= j < |Callers(stages, pending[0])| && Callers(stages, pending[0])[j] == info;
      assert (pending[1..] + next)[|pending| - 1 + j] == v;
    }
  }

  lemma {:induction false} ImmortalWalk<D>(stages: map<Hash, Stage<D>>, pending: seq<Hash>, n: nat)
    requires SomeImmortal(CallerEdge(stages), pending)
    ensures SomeImmortal(CallerEdge(stages), WalkAfter(stages, pending, n))
  {
    if n > 0 {
      ImmortalWalk(stages, pending, n - 1);
      WalkStaysImmortal(stages, WalkAfter(stages, pending, n - 1));
    }
  }

  /** A path that leads to a cycle makes its start immortal. */
  lemma ReachingCycleIsImmortal(rel: (Hash, Hash) -> bool, r: seq<Hash>, p: seq<Hash>)
    requires IsPath(rel, r) && IsPath(rel, p) && |p| >= 2 && r[|r| - 1] == p[0] == p[|p| - 1]
    ensures Immortal(rel, r[0])
  {
    var lasso := r + p[1..];
    forall i, j | 0 <= i < |lasso| && j == i + 1 && j < |lasso| ensures rel(lasso[i], lasso[j]) {
      if i < |r| - 1 {
        assert rel(r[i], r[i + 1]);
      } else {
        assert lasso[i] == p[i - |r| + 1] && lasso[j] == p[j - |r| + 1];
      }
    }
    assert lasso[|r| - 1] == p[0] && lasso[|lasso| - 1] == p[|p| - 1];
    assert IsLasso(rel, lasso) && lasso[0] == r[0];
  }

  /** A cycle that the walk can enter is reached from a source. */
  lemma CycleIsReached<D>(stages: map<Hash, Stage<D>>)
    requires !Acyclic(WalkEdge(stages))
    ensures SomeImmortal(CallerEdge(stages), SortedSet(Sources(stages)))
  {
    var rel := CallerEdge(stages);
    var p :| IsPath(WalkEdge(stages), p) && |p| >= 2 && p[0] == p[|p| - 1];
    assert WalkEdge(stages)(p[0], p[0 + 1]);
    assert ReachedFrom(rel, Sources(stages), p[0]);
    var a :| a in Sources(stages) && Reaches(rel, a, p[0]);
    var r :| PathBetween(rel, r, a, p[0]);
    assert IsPath(rel, p);
    ReachingCycleIsImmortal(rel, r, p);
    var pending := SortedSet(Sources(stages));
    assert a in pending;
    var k :| 0 <= k < |pending| && pending[k] == a;
  }

  lemma WalkAfterStep<D>(stages: map<Hash, Stage<D>>, start: seq<Hash>, n: nat)
    requires WalkAfter(stages, start, n) != []
    ensures var last := WalkAfter(stages, start, n);
            WalkAfter(stages, start, n + 1) == last[1..] + CallerHashes(Callers(stages, last[0]))
  {
  }

  /** The state of the walk after `n` rounds, with the number of downstream paths left. */
  ghost predicate IsRound<D>(stages: map<Hash, Stage<D>>, rank: map<Hash, nat>, top: nat, done: set<Hash>, start: seq<Hash>, n: nat, left: nat) {
    && Levelled(Successors(stages), rank, top, ReachedStages(stages))
    && Walking(stages, done, WalkAfter(stages, start, n))
    && left == PathsLeft(stages, rank, top, done, WalkAfter(stages, start, n))
  }

  lemma NextRound<D>(stages: map<Hash, Stage<D>>, rank: map<Hash, nat>, top: nat, done: set<Hash>, start: seq<Hash>, n: nat, left: nat)
    returns (more: set<Hash>, fewer: nat)
    requires IsRound(stages, rank, top, done, start, n, left) && WalkAfter(stages, start, n) != []
    ensures IsRound(stages, rank, top, more, start, n + 1, fewer) && fewer < left
  {
    var pending := WalkAfter(stages, start, n);
    WalkStep(stages, rank, top, done, pending);
    WalkAfterStep(stages, start, n);
    more := done + {pending[0]};
    fewer := PathsLeft(stages, rank, top, more, WalkAfter(stages, start, n + 1));
  }

  /** The walk ends when no cycle can be entered: the downstream paths left bound the rounds. */
  lemma {:induction false} WalkEndsFrom<D>(stages: map<Hash, Stage<D>>, rank: map<Hash, nat>, top: nat, done: set<Hash>,
                                           start: seq<Hash>, n: nat, left: nat) returns (m: nat)
    requires IsRound(stages, rank, top, done, start, n, left)
    ensures WalkAfter(stages, start, m) == []
    decreases left
  {
    if WalkAfter(stages, start, n) == [] {
      m := n;
    } else {
      var more, fewer := NextRound(stages, rank, top, done, start, n, left);
      m := WalkEndsFrom(stages, rank, top, more, start, n + 1, fewer);
    }
  }

  /** After some number of rounds nothing is pending. */
  ghost predicate Ends<D>(stages: map<Hash, Stage<D>>) {
    exists n: nat :: WalkAfter(stages, SortedSet(Sources(stages)), n) == []
  }

  /** The walk ends exactly when no cycle of requirements is reached from a stage that requires nothing. */
  lemma WalkEndsIff<D>(w: World<D>, stages: map<Hash, Stage<D>>)
    requires IsDiscovered(w, stages)
    ensures Ends(stages) <==> Acyclic(WalkEdge(stages))
  {
    var start := SortedSet(Sources(stages));
    if Acyclic(WalkEdge(stages)) {
      var rank, top := WalkIsLevelled(w, stages);
      WalkStart(stages, start);
      var m := WalkEndsFrom(stages, rank, top, {}, start, 0, PathsLeft(stages, rank, top, {}, start));
      assert WalkAfter(stages, start, m) == [];
    } else {
      CycleIsReached(stages);
      forall n: nat ensures WalkAfter(stages, start, n) != [] { ImmortalWalk(stages, start, n); }
    }
  }

  // ----- when a cycle is silent

  /** No slot of any row is empty. */
  predicate SlotsComplete(slots: map<Hash, Slots>) {
    forall d :: d in slots ==> forall p :: 0 <= p < |slots[d]| ==> slots[d][p].Some?
  }

  /** The call in this slot resolves to a stage that the walk reaches. */
  ghost predicate IsReached<D>(w: World<D>, stages: map<Hash, Stage<D>>, d: Hash, p: nat)
    requires d in stages && p < |w.upstreams(stages[d].definition)|
  {
    SlotTarget(w, stages, d, p) in ReachedStages(stages)
  }

  ghost predicate NoneReached<D>(w: World<D>, stages: map<Hash, Stage<D>>, d: Hash)
    requires d in stages
  {
    forall p: nat :: p < |w.upstreams(stages[d].definition)| ==> !IsReached(w, stages, d, p)
  }

  ghost predicate AllReached<D>(w: World<D>, stages: map<Hash, Stage<D>>, d: Hash)
    requires d in stages
  {
    forall p: nat :: p < |w.upstreams(stages[d].definition)| ==> IsReached(w, stages, d, p)
  }

  /** Every stage has all the stages it requires reached, or none. */
  ghost predicate AllOrNone<D>(w: World<D>, stages: map<Hash, Stage<D>>) {
    forall d :: d in stages ==> AllReached(w, stages, d) || NoneReached(w, stages, d)
  }

  /** The rows after the walk: those of stages with requirements reached, and only reached ones in them. */
  ghost predicate ReachedSlotsFilled<D>(w: World<D>, stages: map<Hash, Stage<D>>, slots: map<Hash, Slots>) {
    forall d :: d in stages ==>
      var n := |w.upstreams(stages[d].definition)|;
      if NoneReached(w, stages, d) then d !in slots
      else d in slots && |slots[d]| == n && forall p :: 0 <= p < n ==>
             slots[d][p] == if IsReached(w, stages, d, p) then Some(SlotTarget(w, stages, d, p)) else None
  }

  lemma WalkFillsReachedSlots<D>(w: World<D>, stages: map<Hash, Stage<D>>, slots: map<Hash, Slots>)
    requires IsDiscovered(w, stages)
    requires Faithful(w, stages, ReachedStages(stages), slots) && Reported(stages, ReachedStages(stages), slots)
    ensures ReachedSlotsFilled(w, stages, slots) && slots.Keys <= stages.Keys
  {
    forall d | d in stages
      ensures var n := |w.upstreams(stages[d].definition)|;
        if NoneReached(w, stages, d) then d !in slots
        else d in slots && |slots[d]| == n && forall p :: 0 <= p < n ==>
               slots[d][p] == if IsReached(w, stages, d, p) then Some(SlotTarget(w, stages, d, p)) else None
    {
      forall p: nat | p < |w.upstreams(stages[d].definition)|
        ensures Filled(slots, d, p, SlotTarget(w, stages, d, p)) <==> IsReached(w, stages, d, p)
        ensures d in slots ==> |slots[d]| == |w.upstreams(stages[d].definition)|
        ensures d in slots && !IsReached(w, stages, d, p) ==> slots[d][p] == None
      {
        SlotFilledIffReached(w, stages, slots, d, p);
      }
      if d in slots {
        var p :| 0 <= p < |slots[d]| && slots[d][p].Some?;
        assert Filled(slots, d, p, SlotTarget(w, stages, d, p));
      }
    }
  }

  /** The rows that a walk of this table leaves, if it ends. */
  ghost function RowsOf<D>(w: World<D>, stages: map<Hash, Stage<D>>): (slots: map<Hash, Slots>)
    ensures ReachedSlotsFilled(w, stages, slots) && slots.Keys <= stages.Keys
  {
    map d | d in stages && !NoneReached(w, stages, d) :: RowOf(w, stages, d)
  }

  ghost function RowOf<D>(w: World<D>, stages: map<Hash, Stage<D>>, d: Hash): Slots
    requires d in stages
  {
    seq(|w.upstreams(stages[d].definition)|, p requires 0 <= p < |w.upstreams(stages[d].definition)| =>
      if IsReached(w, stages, d, p) then Some(SlotTarget(w, stages, d, p)) else None)
  }

  lemma RowIsDetermined<D>(w: World<D>, stages: map<Hash, Stage<D>>, slots: map<Hash, Slots>, d: Hash)
    requires ReachedSlotsFilled(w, stages, slots) && d in stages
    ensures if NoneReached(w, stages, d) then d !in slots else d in slots && slots[d] == RowOf(w, stages, d)
  {
    if d in slots {
      var row, expected := slots[d], RowOf(w, stages, d);
      assert |row| == |expected| && forall p :: 0 <= p < |row| ==> row[p] == expected[p];
    }
  }

  /** The rows are determined by the table. */
  lemma RowsAreDetermined<D>(w: World<D>, stages: map<Hash, Stage<D>>, slots: map<Hash, Slots>)
    requires ReachedSlotsFilled(w, stages, slots) && slots.Keys <= stages.Keys
    ensures slots == RowsOf(w, stages)
  {
    forall d | d in stages
      ensures if NoneReached(w, stages, d) then d !in slots else d in slots && slots[d] == RowOf(w, stages, d)
    {
      RowIsDetermined(w, stages, slots, d);
    }
  }

  /** No empty slot is handed on exactly when every stage has all or none of its requirements reached. */
  lemma CompleteIffAllOrNone<D>(w: World<D>, stages: map<Hash, Stage<D>>, slots: map<Hash, Slots>)
    requires ReachedSlotsFilled(w, stages, slots) && slots.Keys <= stages.Keys
    ensures SlotsComplete(slots) <==> AllOrNone(w, stages)
  {
    if SlotsComplete(slots) {
      forall d | d in stages ensures AllReached(w, stages, d) || NoneReached(w, stages, d) {
        if !NoneReached(w, stages, d) {
          forall p: nat | p < |w.upstreams(stages[d].definition)| ensures IsReached(w, stages, d, p) {
            assert slots[d][p].Some?;
          }
        }
      }
    } else {
      var d :| d in slots && exists p :: 0 <= p < |slots[d]| && slots[d][p].None?;
      var p :| 0 <= p < |slots[d]| && slots[d][p].None?;
      assert !NoneReached(w, stages, d);
      assert !IsReached(w, stages, d, p);
    }
  }

  /** Without any cycle everything is reached. */
  lemma AcyclicIsAllReached<D>(w: World<D>, stages: map<Hash, Stage<D>>, d: Hash)
    requires IsDiscovered(w, stages) && Acyclic(CallerEdge(stages)) && d in stages
    ensures AllReached(w, stages, d)
  {
    var rank := AcyclicHasRank(CallerEdge(stages), stages.Keys);
    forall p: nat | p < |w.upstreams(stages[d].definition)| ensures IsReached(w, stages, d, p) {
      assert IsCall(w, stages, CallAt(w, stages[d].definition, d, p));
      AcyclicIsReached(w, stages, rank, SlotTarget(w, stages, d, p));
    }
  }

  /** On an acyclic table that is what `AllSlotsFilled` says. */
  lemma ReachedIsAllFilled<D>(w: World<D>, stages: map<Hash, Stage<D>>, slots: map<Hash, Slots>)
    requires IsDiscovered(w, stages) && Acyclic(CallerEdge(stages)) && ReachedSlotsFilled(w, stages, slots)
    ensures AllSlotsFilled(w, stages, slots) && AllOrNone(w, stages)
  {
    forall d | d in stages ensures AllReached(w, stages, d) { AcyclicIsAllReached(w, stages, d); }
    forall d | d in stages
      ensures var n := |w.upstreams(stages[d].definition)|;
        if n == 0 then d !in slots
        else d in slots && |slots[d]| == n && forall p :: 0 <= p < n ==> slots[d][p] == Some(SlotTarget(w, stages, d, p))
    {
      assert AllReached(w, stages, d);
      if |w.upstreams(stages[d].definition)| > 0 { assert IsReached(w, stages, d, 0); }
    }
  }

  // ----- worlds without cycles

  /** What a definition requires has a smaller rank. */
  ghost predicate RankedWorld<D(!new)>(w: World<D>, rank: Hash -> nat) {
    forall d: D, k: nat :: k < |w.upstreams(d)| ==> rank(w.identify(w.upstreams(d)[k].definition)) < rank(w.identify(d))
  }

  /** A world that can be ranked has acyclic tables only. */
  lemma RankedWorldIsAcyclic<D(!new)>(w: World<D>, rank: Hash -> nat, stages: map<Hash, Stage<D>>)
    requires RankedWorld(w, rank) && IsDiscovered(w, stages)
    ensures Acyclic(CallerEdge(stages)) && Acyclic(WalkEdge(stages))
  {
    var table := map u | u in stages :: rank(u);
    forall u, d | CallerEdge(stages)(u, d) ensures u in table && d in table && table[u] < table[d] {
      var info :| info in Callers(stages, u) && info.hash == d;
      assert IsCall(w, stages, info) && w.identify(Callee(w, stages, info)) == u;
    }
    RankedIsAcyclic(CallerEdge(stages), table);
    AcyclicWalkTerminates(stages);
  }
}

/** Second phase of `process_stages`: turn the recorded callers into dependency slots by walking downstream. */
module StageConnection {
  import opened Wrappers
  import opened Graphs
  import opened Orders
  import opened StageModel
  import opened StageDiscovery

  type Slots = seq<Option<Hash>>

  /** From a stage to the stages that call it. */
  ghost function CallerEdge<D>(stages: map<Hash, Stage<D>>): (Hash, Hash) -> bool {
    (u: Hash, d: Hash) => exists info :: info in Callers(stages, u) && info.hash == d
  }

  /** Stages that require no other stage. */
  ghost function Sources<D>(stages: map<Hash, Stage<D>>): set<Hash> {
    set u | u in stages && forall v :: v in stages ==> !CallerEdge(stages)(v, u)
  }

  /** Caller edges the walk can take. */
  ghost function WalkEdge<D>(stages: map<Hash, Stage<D>>): (Hash, Hash) -> bool {
    (u: Hash, d: Hash) => CallerEdge(stages)(u, d) && ReachedFrom(CallerEdge(stages), Sources(stages), u)
  }

  /** The stage that slot `position` of `d` resolves to. */
  ghost function SlotTarget<D>(w: World<D>, stages: map<Hash, Stage<D>>, d: Hash, position: nat): Hash
    requires d in stages && position < |w.upstreams(stages[d].definition)|
  {
    w.identify(w.upstreams(stages[d].definition)[position].definition)
  }

  // ----- the measure of the walk: downstream paths left from the pending stages

  /** `nodes` is closed under `succ`, and ranks grow along it up to `top`. */
  ghost predicate Levelled(succ: map<Hash, seq<Hash>>, rank: map<Hash, nat>, top: nat, nodes: set<Hash>) {
    forall u :: u in nodes ==>
      && u in succ && u in rank && rank[u] <= top
      && forall d :: d in succ[u] ==> d in nodes && d in rank && rank[u] < rank[d]
  }

  /** Number of downstream paths that start in an entry of `us`, empty continuation included. */
  ghost function PathCount(succ: map<Hash, seq<Hash>>, rank: map<Hash, nat>, top: nat, nodes: set<Hash>,
                           us: seq<Hash>, low: nat): nat
    requires Levelled(succ, rank, top, nodes) && low <= top + 1
    requires forall i :: 0 <= i < |us| ==> us[i] in nodes && low <= rank[us[i]]
    decreases top + 1 - low, |us|
  {
    if us == [] then 0
    else 1 + PathCount(succ, rank, top, nodes, succ[us[0]], rank[us[0]] + 1)
           + PathCount(succ, rank, top, nodes, us[1..], low)
  }

  lemma {:induction false} PathCountIgnoresLow(succ: map<Hash, seq<Hash>>, rank: map<Hash, nat>, top: nat, nodes: set<Hash>,
                                               us: seq<Hash>, low: nat)
    requires Levelled(succ, rank, top, nodes) && low <= top + 1
    requires forall i :: 0 <= i < |us| ==> us[i] in nodes && low <= rank[us[i]]
    ensures PathCount(succ, rank, top, nodes, us, low) == PathCount(succ, rank, top, nodes, us, 0)
  {
    if us != [] { PathCountIgnoresLow(succ, rank, top, nodes, us[1..], low); }
  }

  lemma {:induction false} PathCountAdds(succ: map<Hash, seq<Hash>>, rank: map<Hash, nat>, top: nat, nodes: set<Hash>,
                                         us: seq<Hash>, vs: seq<Hash>)
    requires Levelled(succ, rank, top, nodes)
    requires forall i :: 0 <= i < |us| ==> us[i] in nodes
    requires forall i :: 0 <= i < |vs| ==> vs[i] in nodes
    ensures PathCount(succ, rank, top, nodes, us + vs, 0)
      == PathCount(succ, rank, top, nodes, us, 0) + PathCount(succ, rank, top, nodes, vs, 0)
  {
    if us == [] {
      assert us + vs == vs;
    } else {
      assert (us + vs)[1..] == us[1..] + vs;
      PathCountAdds(succ, rank, top, nodes, us[1..], vs);
    }
  }

  lemma SuccessorsStay(succ: map<Hash, seq<Hash>>, rank: map<Hash, nat>, top: nat, nodes: set<Hash>, u: Hash)
    requires Levelled(succ, rank, top, nodes) && u in nodes
    ensures u in succ && u in rank && rank[u] + 1 <= top + 1
    ensures forall i :: 0 <= i < |succ[u]| ==>
      succ[u][i] in nodes && succ[u][i] in rank && rank[u] + 1 <= rank[succ[u][i]]
  {
    forall i | 0 <= i < |succ[u]|
      ensures succ[u][i] in nodes && succ[u][i] in rank && rank[u] + 1 <= rank[succ[u][i]]
    {
      assert succ[u][i] in succ[u];
    }
  }

  /** Replacing the first pending stage by its successors uses up one path. */
  lemma StepUsesUpAPath(succ: map<Hash, seq<Hash>>, rank: map<Hash, nat>, top: nat, nodes: set<Hash>, u: Hash, rest: seq<Hash>)
    requires Levelled(succ, rank, top, nodes) && u in nodes
    requires forall i :: 0 <= i < |rest| ==> rest[i] in nodes
    ensures u in succ && forall i :: 0 <= i < |rest + succ[u]| ==> (rest + succ[u])[i] in nodes
    ensures PathCount(succ, rank, top, nodes, rest + succ[u], 0) < PathCount(succ, rank, top, nodes, [u] + rest, 0)
  {
    SuccessorsStay(succ, rank, top, nodes, u);
    PathCountAdds(succ, rank, top, nodes, rest, succ[u]);
    PathCountIgnoresLow(succ, rank, top, nodes, succ[u], rank[u] + 1);
    assert ([u] + rest)[1..] == rest;
  }

  // ----- what the walk writes

  ghost predicate Holds(slots: map<Hash, Slots>, info: CallInfo, u: Hash) {
    && info.hash in slots
    && info.position < |slots[info.hash]|
    && slots[info.hash][info.position] == Some(u)
  }

  /** Filled slots name the stage they resolve to, and one of `reporters`. */
  ghost predicate Faithful<D>(w: World<D>, stages: map<Hash, Stage<D>>, reporters: set<Hash>, slots: map<Hash, Slots>) {
    forall d :: d in slots ==>
      && d in stages
      && |slots[d]| == |w.upstreams(stages[d].definition)|
      && (exists p :: 0 <= p < |slots[d]| && slots[d][p].Some?)
      && forall p :: 0 <= p < |slots[d]| && slots[d][p].Some? ==>
           slots[d][p].value in reporters && slots[d][p].value == SlotTarget(w, stages, d, p)
  }

  /** Every call recorded at one of `reporters` sits in its slot. */
  ghost predicate Reported<D>(stages: map<Hash, Stage<D>>, reporters: set<Hash>, slots: map<Hash, Slots>) {
    forall u, info :: u in reporters && info in Callers(stages, u) ==> Holds(slots, info, u)
  }

  function Store(slots: map<Hash, Slots>, info: CallInfo, u: Hash): map<Hash, Slots>
    requires info.position < if info.hash in slots then |slots[info.hash]| else info.length
  {
    var row := if info.hash in slots then slots[info.hash] else seq(info.length, _ => None);
    slots[info.hash := row[info.position := Some(u)]]
  }

  /** A slot belongs to one call, so storing again never changes another stage's report. */
  lemma StoreKeeps<D>(w: World<D>, stages: map<Hash, Stage<D>>, reporters: set<Hash>, slots: map<Hash, Slots>, u: Hash, info: CallInfo)
    requires IsDiscovered(w, stages) && info in Callers(stages, u)
    requires Faithful(w, stages, reporters, slots)
    ensures info.position < if info.hash in slots then |slots[info.hash]| else info.length
    ensures Faithful(w, stages, reporters + {u}, Store(slots, info, u))
    ensures Holds(Store(slots, info, u), info, u)
    ensures forall v, other :: other in Callers(stages, v) && Holds(slots, other, v) ==> Holds(Store(slots, info, u), other, v)
  {
    assert IsCall(w, stages, info) && w.identify(Callee(w, stages, info)) == u;
    var d := info.hash;
    assert u == SlotTarget(w, stages, d, info.position);
    var stored: map<Hash, Slots> := Store(slots, info, u);
    assert stored[d][info.position].Some?;
    forall p | 0 <= p < |stored[d]| && stored[d][p].Some?
      ensures stored[d][p].value in reporters + {u} && stored[d][p].value == SlotTarget(w, stages, d, p)
    {
      if p != info.position {
        assert d in slots && stored[d][p] == slots[d][p];
      }
    }
    forall v, other | other in Callers(stages, v) && Holds(slots, other, v) ensures Holds(stored, other, v) {
      assert IsCall(w, stages, other) && w.identify(Callee(w, stages, other)) == v;
    }
  }

  function CallerHashes(infos: seq<CallInfo>): seq<Hash> {
    seq(|infos|, i requires 0 <= i < |infos| => infos[i].hash)
  }

  /** Write the slots of all callers of `u` and list the callers. */
  method ConnectStage<D>(ghost w: World<D>, stages: map<Hash, Stage<D>>, u: Hash, before: map<Hash, Slots>, ghost done: set<Hash>)
    returns (slots: map<Hash, Slots>, next: seq<Hash>)
    requires IsDiscovered(w, stages) && u in stages
    requires Faithful(w, stages, done, before) && Reported(stages, done, before)
    ensures Faithful(w, stages, done + {u}, slots) && Reported(stages, done + {u}, slots)
    ensures next == CallerHashes(Callers(stages, u))
  {
    var infos := Callers(stages, u);
    slots := before;
    next := [];
    for i := 0 to |infos|
      invariant next == CallerHashes(infos[..i])
      invariant Faithful(w, stages, done, slots) || Faithful(w, stages, done + {u}, slots)
      invariant Reported(stages, done, slots)
      invariant forall k :: 0 <= k < i ==> Holds(slots, infos[k], u)
    {
      var info := infos[i];
      assert info in infos;
      ghost var reporters := if Faithful(w, stages, done, slots) then done else done + {u};
      StoreKeeps(w, stages, reporters, slots, u, info);
      assert done + {u} + {u} == done + {u};
      forall k | 0 <= k < i ensures Holds(Store(slots, info, u), infos[k], u) { assert infos[k] in infos; }
      slots := Store(slots, info, u);
      next := next + [info.hash];
      assert infos[..i + 1] == infos[..i] + [info];
    }
    assert infos[..|infos|] == infos;
    assert Faithful(w, stages, done + {u}, slots);
    forall v, info | v in done + {u} && info in Callers(stages, v) ensures Holds(slots, info, v) {
      if v == u { var k :| 0 <= k < |infos| && infos[k] == info; }
    }
  }

  // ----- the walk

  /** The pending stages and everything already reported cover the sources and are closed downstream. */
  ghost predicate Covers<D>(stages: map<Hash, Stage<D>>, done: set<Hash>, pending: seq<Hash>) {
    && (forall u :: u in Sources(stages) ==> u in done || u in pending)
    && forall u, d :: u in done && CallerEdge(stages)(u, d) ==> d in done || d in pending
  }

  ghost function ReachedStages<D>(stages: map<Hash, Stage<D>>): set<Hash> {
    set u | u in stages && ReachedFrom(CallerEdge(stages), Sources(stages), u)
  }

  lemma ReachedIsClosed<D>(w: World<D>, stages: map<Hash, Stage<D>>, u: Hash, d: Hash)
    requires IsDiscovered(w, stages) && u in ReachedStages(stages) && CallerEdge(stages)(u, d)
    ensures d in ReachedStages(stages)
  {
    var rel := CallerEdge(stages);
    var info :| info in Callers(stages, u) && info.hash == d;
    assert IsCall(w, stages, info);
    var a :| a in Sources(stages) && Reaches(rel, a, u);
    ReachesStep(rel, a, u, d);
  }

  lemma CoversStep<D>(stages: map<Hash, Stage<D>>, done: set<Hash>, u: Hash, rest: seq<Hash>)
    requires Covers(stages, done, [u] + rest)
    ensures Covers(stages, done + {u}, rest + CallerHashes(Callers(stages, u)))
  {
    var next := CallerHashes(Callers(stages, u));
    forall v, d | v in done + {u} && CallerEdge(stages)(v, d) ensures d in done + {u} || d in rest + next {
      if v in done {
        assert d in done || d in [u] + rest;
      } else {
        var info :| info in Callers(stages, u) && info.hash == d;
        var k :| 0 <= k < |Callers(stages, u)| && Callers(stages, u)[k] == info;
        assert next[k] == d;
      }
    }
    forall v | v in Sources(stages) ensures v in done + {u} || v in rest + next {
      assert v in done || v in [u] + rest;
    }
  }

  /** Nothing pending: exactly the stages reached from the sources have reported. */
  lemma CoversAll<D>(stages: map<Hash, Stage<D>>, done: set<Hash>)
    requires Covers(stages, done, []) && done <= ReachedStages(stages)
    ensures done == ReachedStages(stages)
  {
    var rel := CallerEdge(stages);
    assert Closed(rel, done);
    forall u | u in ReachedStages(stages) ensures u in done {
      var a :| a in Sources(stages) && Reaches(rel, a, u);
      ReachedStaysInClosed(rel, done, a, u);
    }
  }

  ghost function Successors<D>(stages: map<Hash, Stage<D>>): map<Hash, seq<Hash>> {
    map u | u in stages :: CallerHashes(Callers(stages, u))
  }

  /** Ranks for the measure exist as soon as no cycle can be walked into. */
  lemma WalkIsLevelled<D>(w: World<D>, stages: map<Hash, Stage<D>>) returns (rank: map<Hash, nat>, top: nat)
    requires IsDiscovered(w, stages) && Acyclic(WalkEdge(stages))
    ensures Levelled(Successors(stages), rank, top, ReachedStages(stages))
  {
    var nodes := ReachedStages(stages);
    rank := AcyclicHasRank(WalkEdge(stages), nodes);
    top := MaxRank(rank);
    forall u | u in nodes
      ensures forall d :: d in Successors(stages)[u] ==> d in nodes && d in rank && rank[u] < rank[d]
    {
      var infos := Callers(stages, u);
      forall k | 0 <= k < |infos| ensures infos[k].hash in nodes && WalkEdge(stages)(u, infos[k].hash) {
        assert infos[k] in infos;
        ReachedIsClosed(w, stages, u, infos[k].hash);
      }
    }
  }

  lemma {:induction false} MaxRank(rank: map<Hash, nat>) returns (top: nat)
    ensures forall u :: u in rank ==> rank[u] <= top
    decreases |rank|
  {
    if rank == map[] {
      top := 0;
    } else {
      var u :| u in rank;
      var rest := rank - {u};
      assert |rest.Keys| < |rank.Keys| by { assert rest.Keys == rank.Keys - {u}; }
      top := MaxRank(rest);
      assert forall v :: v in rank && v != u ==> v in rest && rest[v] == rank[v];
      top := if rank[u] > top then rank[u] else top;
    }
  }

  /** Hashes named as callers somewhere. */
  method DownstreamHashes<D>(stages: map<Hash, Stage<D>>, keys: seq<Hash>) returns (hashes: set<Hash>)
    requires forall k :: k in keys <==> k in stages
    ensures forall d :: d in hashes <==> exists v :: v in stages && CallerEdge(stages)(v, d)
  {
    hashes := {};
    for i := 0 to |keys|
      invariant forall d :: d in hashes <==> exists v :: v in keys[..i] && CallerEdge(stages)(v, d)
    {
      var infos := Callers(stages, keys[i]);
      var callers := set info | info in infos :: info.hash;
      assert forall d :: d in callers <==> CallerEdge(stages)(keys[i], d);
      assert keys[..i + 1] == keys[..i] + [keys[i]];
      hashes := hashes + callers;
    }
    assert keys[..|keys|] == keys;
  }

  lemma HeadAndTail<T>(s: seq<T>)
    requires s != []
    ensures s == [s[0]] + s[1..]
  {
  }

  ghost predicate Walking<D>(stages: map<Hash, Stage<D>>, done: set<Hash>, pending: seq<Hash>) {
    && (forall i :: 0 <= i < |pending| ==> pending[i] in ReachedStages(stages))
    && done <= ReachedStages(stages)
    && Covers(stages, done, pending)
  }

  ghost function PathsLeft<D>(stages: map<Hash, Stage<D>>, rank: map<Hash, nat>, top: nat,
                              done: set<Hash>, pending: seq<Hash>): nat
    requires Levelled(Successors(stages), rank, top, ReachedStages(stages)) && Walking(stages, done, pending)
  {
    PathCount(Successors(stages), rank, top, ReachedStages(stages), pending, 0)
  }

  lemma WalkStart<D>(stages: map<Hash, Stage<D>>, pending: seq<Hash>)
    requires forall u :: u in pending <==> u in Sources(stages)
    ensures Walking(stages, {}, pending)
  {
    forall i | 0 <= i < |pending| ensures pending[i] in ReachedStages(stages) {
      assert pending[i] in pending;
      ReachesSelf(CallerEdge(stages), pending[i]);
    }
  }

  lemma WalkStep<D>(stages: map<Hash, Stage<D>>, rank: map<Hash, nat>, top: nat, done: set<Hash>, pending: seq<Hash>)
    requires Levelled(Successors(stages), rank, top, ReachedStages(stages))
    requires Walking(stages, done, pending) && pending != []
    ensures pending[0] in stages
    ensures var left := pending[1..] + CallerHashes(Callers(stages, pending[0]));
            Walking(stages, done + {pending[0]}, left)
            && PathsLeft(stages, rank, top, done + {pending[0]}, left) < PathsLeft(stages, rank, top, done, pending)
  {
    var u := pending[0];
    HeadAndTail(pending);
    StepUsesUpAPath(Successors(stages), rank, top, ReachedStages(stages), u, pending[1..]);
    CoversStep(stages, done, u, pending[1..]);
  }

  /** The walk itself. It has no visited set, so it needs that no cycle is reachable from a source. */
  method Connect<D>(ghost w: World<D>, stages: map<Hash, Stage<D>>, keys: seq<Hash>) returns (slots: map<Hash, Slots>)
    requires IsDiscovered(w, stages) && forall k :: k in keys <==> k in stages
    requires Acyclic(WalkEdge(stages))
    ensures Faithful(w, stages, ReachedStages(stages), slots)
    ensures Reported(stages, ReachedStages(stages), slots)
  {
    var downstreamHashes := DownstreamHashes(stages, keys);
    var sources := stages.Keys - downstreamHashes;
    assert sources == Sources(stages);
    var pending := SortedSet(sources);
    slots := map[];
    ghost var rank, top := WalkIsLevelled(w, stages);
    ghost var done: set<Hash> := {};
    WalkStart(stages, pending);
    while pending != []
      invariant Walking(stages, done, pending)
      invariant Faithful(w, stages, done, slots) && Reported(stages, done, slots)
      decreases PathsLeft(stages, rank, top, done, pending)
    {
      var u := pending[0];
      WalkStep(stages, rank, top, done, pending);
      var next;
      slots, next := ConnectStage(w, stages, u, slots, done);
      pending := pending[1..] + next;
      done := done + {u};
    }
    CoversAll(stages, done);
  }

  // ----- the whole phase

  /** Every dependency slot is filled with the stage its call resolves to. */
  ghost predicate AllSlotsFilled<D>(w: World<D>, stages: map<Hash, Stage<D>>, slots: map<Hash, Slots>) {
    forall d :: d in stages ==>
      var n := |w.upstreams(stages[d].definition)|;
      if n == 0 then d !in slots
      else d in slots && |slots[d]| == n && forall p :: 0 <= p < n ==> slots[d][p] == Some(SlotTarget(w, stages, d, p))
  }

  /** Walking up from any stage of an acyclic table one arrives at a source. */
  lemma {:induction false} AcyclicIsReached<D>(w: World<D>, stages: map<Hash, Stage<D>>, rank: map<Hash, nat>, u: Hash)
    requires IsDiscovered(w, stages) && u in stages && rank.Keys == stages.Keys
    requires forall a, b :: a in stages && b in stages && CallerEdge(stages)(a, b) ==> rank[a] < rank[b]
    ensures u in ReachedStages(stages)
    decreases rank[u]
  {
    var rel := CallerEdge(stages);
    if u in Sources(stages) {
      ReachesSelf(rel, u);
    } else {
      var v :| v in stages && rel(v, u);
      AcyclicIsReached(w, stages, rank, v);
      ReachedIsClosed(w, stages, v, u);
    }
  }

  ghost predicate Filled(slots: map<Hash, Slots>, d: Hash, p: nat, u: Hash) {
    d in slots && p < |slots[d]| && slots[d][p] == Some(u)
  }

  /** A slot is filled, and then correctly, exactly when the walk reaches the stage it resolves to. */
  lemma SlotFilledIffReached<D>(w: World<D>, stages: map<Hash, Stage<D>>, slots: map<Hash, Slots>, d: Hash, p: nat)
    requires IsDiscovered(w, stages)
    requires Faithful(w, stages, ReachedStages(stages), slots) && Reported(stages, ReachedStages(stages), slots)
    requires d in stages && p < |w.upstreams(stages[d].definition)|
    ensures Filled(slots, d, p, SlotTarget(w, stages, d, p)) <==> SlotTarget(w, stages, d, p) in ReachedStages(stages)
    ensures d in slots ==> |slots[d]| == |w.upstreams(stages[d].definition)|
    ensures d in slots && !Filled(slots, d, p, SlotTarget(w, stages, d, p)) ==> slots[d][p] == None
  {
    var info := CallAt(w, stages[d].definition, d, p);
    var u := SlotTarget(w, stages, d, p);
    assert IsCall(w, stages, info);
    assert info in Callers(stages, u);
    if u in ReachedStages(stages) { assert Holds(slots, info, u); }
  }

  lemma NoCallsNoSlots<D>(w: World<D>, stages: map<Hash, Stage<D>>, reporters: set<Hash>, slots: map<Hash, Slots>, d: Hash)
    requires Faithful(w, stages, reporters, slots) && d in stages && |w.upstreams(stages[d].definition)| == 0
    ensures d !in slots
  {
  }

  lemma AcyclicFillsAllSlots<D>(w: World<D>, stages: map<Hash, Stage<D>>, slots: map<Hash, Slots>)
    requires IsDiscovered(w, stages) && Acyclic(CallerEdge(stages))
    requires Faithful(w, stages, ReachedStages(stages), slots) && Reported(stages, ReachedStages(stages), slots)
    ensures AllSlotsFilled(w, stages, slots)
  {
    var rank := AcyclicHasRank(CallerEdge(stages), stages.Keys);
    forall d | d in stages
      ensures var n := |w.upstreams(stages[d].definition)|;
        if n == 0 then d !in slots
        else d in slots && |slots[d]| == n && forall p :: 0 <= p < n ==> slots[d][p] == Some(SlotTarget(w, stages, d, p))
    {
      var n := |w.upstreams(stages[d].definition)|;
      if n == 0 { NoCallsNoSlots(w, stages, ReachedStages(stages), slots, d); }
      forall p: nat | p < n ensures Filled(slots, d, p, SlotTarget(w, stages, d, p)) {
        assert IsCall(w, stages, CallAt(w, stages[d].definition, d, p));
        AcyclicIsReached(w, stages, rank, SlotTarget(w, stages, d, p));
        SlotFilledIffReached(w, stages, slots, d, p);
      }
      if n > 0 { assert Filled(slots, d, 0, SlotTarget(w, stages, d, 0)); }
    }
  }

  /** A walk that terminates never enters a cycle: all slots are filled exactly when there is none at all. */
  lemma AllSlotsFilledIffAcyclic<D>(w: World<D>, stages: map<Hash, Stage<D>>, slots: map<Hash, Slots>)
    requires IsDiscovered(w, stages) && Acyclic(WalkEdge(stages))
    requires Faithful(w, stages, ReachedStages(stages), slots) && Reported(stages, ReachedStages(stages), slots)
    ensures AllSlotsFilled(w, stages, slots) <==> Acyclic(CallerEdge(stages))
  {
    var rel := CallerEdge(stages);
    if Acyclic(rel) {
      AcyclicFillsAllSlots(w, stages, slots);
    } else {
      var p :| IsPath(rel, p) && |p| >= 2 && p[0] == p[|p| - 1];
      assert p[0] !in ReachedStages(stages) by {
        if p[0] in ReachedStages(stages) { ReachedCycleIsWalked(w, stages, p); }
      }
      assert rel(p[0], p[1]);
      var info :| info in Callers(stages, p[0]) && info.hash == p[1];
      assert IsCall(w, stages, info) && SlotTarget(w, stages, p[1], info.position) == p[0];
      SlotFilledIffReached(w, stages, slots, p[1], info.position);
    }
  }

  lemma ReachedCycleIsWalked<D>(w: World<D>, stages: map<Hash, Stage<D>>, p: seq<Hash>)
    requires IsDiscovered(w, stages) && IsPath(CallerEdge(stages), p) && |p| >= 2 && p[0] == p[|p| - 1]
    requires p[0] in ReachedStages(stages)
    ensures !Acyclic(WalkEdge(stages))
  {
    var nodes := ReachedStages(stages);
    forall a, b | a in nodes && CallerEdge(stages)(a, b) ensures b in nodes { ReachedIsClosed(w, stages, a, b); }
    PathStaysInClosed(CallerEdge(stages), nodes, p);
    assert IsPath(WalkEdge(stages), p);
  }

  lemma AcyclicWalkTerminates<D>(stages: map<Hash, Stage<D>>)
    requires Acyclic(CallerEdge(stages))
    ensures Acyclic(WalkEdge(stages))
  {
    forall p | IsPath(WalkEdge(stages), p) && |p| >= 2 ensures p[0] != p[|p| - 1] {
      assert IsPath(CallerEdge(stages), p);
    }
  }
}

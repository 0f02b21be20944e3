/** First phase of `process_stages`: expand the requested stages into the table of all stages. */
module StageDiscovery {
  import opened Wrappers
  import opened Graphs
  import opened StageModel

  /** One required stage of a definition: the definition of the callee as the caller configures it. */
  datatype Upstream<D> = Upstream(definition: D, passed: set<OptionName>, ephemeral: bool)

  /** What resolving, configuring and hashing a stage definition yields; uninterpreted here. */
  datatype World<!D> = World(
    identify: D -> Hash,
    cycleHash: D -> Hash,
    upstreams: D -> seq<Upstream<D>>)

  /** An entry of the work list. Requested stages have no callers and carry their index. */
  datatype Pending<D> = Pending(
    definition: D, downstream: Option<seq<CallInfo>>, cycles: seq<Hash>, ephemeral: bool, requiredIndex: Option<nat>)

  datatype Stage<D> = Stage(
    definition: D, downstream: Option<seq<CallInfo>>, ephemeral: bool, requiredIndex: Option<nat>)

  datatype Failure = FoundCycle | MissingDownstream

  /** The call a stage with this hash makes at slot `position`. */
  function CallAt<D>(w: World<D>, definition: D, hash: Hash, position: nat): CallInfo
    requires position < |w.upstreams(definition)|
  {
    var ups := w.upstreams(definition);
    CallInfo(hash, position, |ups|, ups[position].passed)
  }

  function Callers<D>(stages: map<Hash, Stage<D>>, u: Hash): seq<CallInfo> {
    if u in stages && stages[u].downstream.Some? then stages[u].downstream.value else []
  }

  /** `info` is a call that some discovered stage really makes. */
  ghost predicate IsCall<D>(w: World<D>, stages: map<Hash, Stage<D>>, info: CallInfo) {
    && info.hash in stages
    && info.position < |w.upstreams(stages[info.hash].definition)|
    && info == CallAt(w, stages[info.hash].definition, info.hash, info.position)
  }

  /** The definition that call asks for. */
  ghost function Callee<D>(w: World<D>, stages: map<Hash, Stage<D>>, info: CallInfo): D
    requires IsCall(w, stages, info)
  {
    w.upstreams(stages[info.hash].definition)[info.position].definition
  }

  /** The table is complete: every call of every stage is recorded at the stage it resolves to, and nothing else is. */
  ghost predicate IsDiscovered<D>(w: World<D>, stages: map<Hash, Stage<D>>) {
    && (forall u :: u in stages ==> w.identify(stages[u].definition) == u)
    && (forall info :: IsCall(w, stages, info) ==> w.identify(Callee(w, stages, info)) in stages)
    && forall u, info :: info in Callers(stages, u) <==>
         IsCall(w, stages, info) && w.identify(Callee(w, stages, info)) == u
  }

  ghost predicate Waiting<D>(pending: seq<Pending<D>>, info: CallInfo) {
    exists k :: 0 <= k < |pending| && pending[k].downstream == Some([info])
  }

  /** A work-list entry asks for what its caller requires. */
  ghost predicate Consistent<D>(w: World<D>, stages: map<Hash, Stage<D>>, p: Pending<D>) {
    p.downstream.Some? ==>
      && |p.downstream.value| == 1
      && IsCall(w, stages, p.downstream.value[0])
      && p.definition == Callee(w, stages, p.downstream.value[0])
  }

  /** Every call is recorded at its callee or still waiting; every record is such a call. */
  ghost predicate Partial<D>(w: World<D>, stages: map<Hash, Stage<D>>, pending: seq<Pending<D>>) {
    && (forall u :: u in stages ==> w.identify(stages[u].definition) == u)
    && (forall k :: 0 <= k < |pending| ==> Consistent(w, stages, pending[k]))
    && (forall u, info :: info in Callers(stages, u) ==>
          IsCall(w, stages, info) && w.identify(Callee(w, stages, info)) == u)
    && (forall info :: IsCall(w, stages, info) ==>
          info in Callers(stages, w.identify(Callee(w, stages, info))) || Waiting(pending, info))
  }

  /** Definitions that can come up: closed under requiring, and with finitely many identification hashes. */
  ghost predicate FinitelyMany<D(!new)>(w: World<D>, reach: iset<D>, hashes: set<Hash>) {
    && (forall d :: d in reach ==> w.identify(d) in hashes)
    && forall d, k :: d in reach && 0 <= k < |w.upstreams(d)| ==> w.upstreams(d)[k].definition in reach
  }

  /** A chain of requirements that starts at a requested definition. */
  ghost predicate Chain<D>(w: World<D>, definitions: seq<D>, c: seq<D>) {
    && |c| > 0
    && (exists i :: 0 <= i < |definitions| && definitions[i] == c[0])
    && forall k {:trigger Requires(w, c[k], c[k + 1])} :: 0 <= k < |c| - 1 ==> Requires(w, c[k], c[k + 1])
  }

  ghost predicate Requires<D>(w: World<D>, d: D, e: D) {
    exists p :: 0 <= p < |w.upstreams(d)| && w.upstreams(d)[p].definition == e
  }

  ghost function CycleHashes<D>(w: World<D>, c: seq<D>): seq<Hash> {
    seq(|c|, k requires 0 <= k < |c| => w.cycleHash(c[k]))
  }

  ghost predicate AllKnown<D>(w: World<D>, stages: map<Hash, Stage<D>>, c: seq<D>) {
    forall k :: 0 <= k < |c| ==> w.identify(c[k]) in stages
  }

  /** The entry remembers the cycle hashes along a chain of discovered stages that leads to it. */
  ghost predicate Traced<D(!new)>(w: World<D>, definitions: seq<D>, stages: map<Hash, Stage<D>>, p: Pending<D>) {
    exists c :: Chain(w, definitions, c + [p.definition]) && p.cycles == CycleHashes(w, c) && AllKnown(w, stages, c)
  }

  ghost predicate AllTraced<D(!new)>(w: World<D>, definitions: seq<D>, stages: map<Hash, Stage<D>>, pending: seq<Pending<D>>) {
    forall k {:trigger Traced(w, definitions, stages, pending[k])} :: 0 <= k < |pending| ==> Traced(w, definitions, stages, pending[k])
  }

  /** On some chain of requirements two different stages share a cycle hash. */
  ghost predicate HasRepetition<D(!new)>(w: World<D>, definitions: seq<D>) {
    exists c, i, j :: Chain(w, definitions, c) && 0 <= i < j < |c| && Clash(w, c[i], c[j])
  }

  predicate Clash<D>(w: World<D>, d: D, e: D) {
    w.cycleHash(d) == w.cycleHash(e) && w.identify(d) != w.identify(e)
  }

  lemma RootIsTraced<D(!new)>(w: World<D>, definitions: seq<D>, i: nat)
    requires i < |definitions|
    ensures Traced(w, definitions, map[], Pending(definitions[i], None, [], false, Some(i)))
  {
    assert [] + [definitions[i]] == [definitions[i]];
    assert Chain(w, definitions, [] + [definitions[i]]);
    assert CycleHashes(w, []) == [];
    assert AllKnown(w, map[], []);
  }

  lemma TracedStays<D(!new)>(w: World<D>, definitions: seq<D>, stages: map<Hash, Stage<D>>, more: map<Hash, Stage<D>>, p: Pending<D>)
    requires Traced(w, definitions, stages, p) && stages.Keys <= more.Keys
    ensures Traced(w, definitions, more, p)
  {
    var c :| Chain(w, definitions, c + [p.definition]) && p.cycles == CycleHashes(w, c) && AllKnown(w, stages, c);
    assert AllKnown(w, more, c);
  }

  lemma CallIsTraced<D(!new)>(w: World<D>, definitions: seq<D>, stages: map<Hash, Stage<D>>, p: Pending<D>, call: Pending<D>)
    requires Traced(w, definitions, stages, p) && Requires(w, p.definition, call.definition)
    requires w.identify(p.definition) in stages && call.cycles == p.cycles + [w.cycleHash(p.definition)]
    ensures Traced(w, definitions, stages, call)
  {
    var c :| Chain(w, definitions, c + [p.definition]) && p.cycles == CycleHashes(w, c) && AllKnown(w, stages, c);
    var e := c + [p.definition];
    var longer := e + [call.definition];
    forall k | 0 <= k < |longer| - 1 ensures Requires(w, longer[k], longer[k + 1]) {
      if k < |e| - 1 { assert Requires(w, e[k], e[k + 1]); }
    }
    assert e[0] == longer[0];
    assert Chain(w, definitions, longer);
    assert call.cycles == CycleHashes(w, e);
    assert AllKnown(w, stages, e);
  }

  lemma RepetitionFound<D(!new)>(w: World<D>, definitions: seq<D>, stages: map<Hash, Stage<D>>, p: Pending<D>)
    requires Traced(w, definitions, stages, p) && w.cycleHash(p.definition) in p.cycles
    requires w.identify(p.definition) !in stages
    ensures HasRepetition(w, definitions)
  {
    var c :| Chain(w, definitions, c + [p.definition]) && p.cycles == CycleHashes(w, c) && AllKnown(w, stages, c);
    var i :| 0 <= i < |p.cycles| && p.cycles[i] == w.cycleHash(p.definition);
    var e := c + [p.definition];
    assert Clash(w, e[i], e[|c|]);
  }

  // ----- one step of the work list

  lemma RecordingKeepsCalls<D>(w: World<D>, stages: map<Hash, Stage<D>>, id: Hash, call: CallInfo, again: map<Hash, Stage<D>>)
    requires id in stages && stages[id].downstream.Some?
    requires again == stages[id := stages[id].(downstream := Some(stages[id].downstream.value + [call]))]
    ensures forall info :: IsCall(w, again, info) == IsCall(w, stages, info)
    ensures forall info :: IsCall(w, stages, info) ==> Callee(w, again, info) == Callee(w, stages, info)
    ensures forall u, info :: info in Callers(again, u) <==> info in Callers(stages, u) || (u == id && info == call)
  {
  }

  /** A definition seen before: only the caller is recorded. */
  lemma RecordAgain<D>(w: World<D>, stages: map<Hash, Stage<D>>, pending: seq<Pending<D>>, stages': map<Hash, Stage<D>>)
    requires pending != [] && Partial(w, stages, pending)
    requires pending[0].downstream.Some? && w.identify(pending[0].definition) in stages
    requires stages[w.identify(pending[0].definition)].downstream.Some?
    requires var id := w.identify(pending[0].definition);
             var s := stages[id];
             stages' == stages[id := s.(downstream := Some(s.downstream.value + pending[0].downstream.value))]
    ensures Partial(w, stages', pending[1..])
  {
    var id := w.identify(pending[0].definition);
    var call := pending[0].downstream.value[0];
    assert Consistent(w, stages, pending[0]);
    assert pending[0].downstream.value == [call];
    RecordingKeepsCalls(w, stages, id, call, stages');
    forall k | 0 <= k < |pending[1..]| ensures Consistent(w, stages', pending[1..][k]) {
      assert Consistent(w, stages, pending[k + 1]);
    }
    forall info | IsCall(w, stages', info)
      ensures info in Callers(stages', w.identify(Callee(w, stages', info))) || Waiting(pending[1..], info)
    {
      if info !in Callers(stages', w.identify(Callee(w, stages', info))) {
        var k :| 0 <= k < |pending| && pending[k].downstream == Some([info]);
        assert pending[k].downstream.value[0] == info;
        assert pending[1..][k - 1] == pending[k];
      }
    }
  }

  /** A new definition: it joins the table and its own calls join the work list. */
  lemma RecordNew<D>(w: World<D>, stages: map<Hash, Stage<D>>, pending: seq<Pending<D>>, stage: Stage<D>, calls: seq<Pending<D>>)
    requires pending != [] && Partial(w, stages, pending)
    requires w.identify(pending[0].definition) !in stages
    requires stage.definition == pending[0].definition && stage.downstream == pending[0].downstream
    requires |calls| == |w.upstreams(stage.definition)|
    requires forall k :: 0 <= k < |calls| ==>
      && calls[k].definition == w.upstreams(stage.definition)[k].definition
      && calls[k].downstream == Some([CallAt(w, stage.definition, w.identify(stage.definition), k)])
    ensures Partial(w, stages[w.identify(stage.definition) := stage], pending[1..] + calls)
  {
    var id := w.identify(stage.definition);
    var stages' := stages[id := stage];
    var pending' := pending[1..] + calls;
    assert Consistent(w, stages, pending[0]);
    forall info | IsCall(w, stages, info) ensures IsCall(w, stages', info) && Callee(w, stages', info) == Callee(w, stages, info) {}
    forall k | 0 <= k < |pending'| ensures Consistent(w, stages', pending'[k]) {
      if k < |pending| - 1 { assert Consistent(w, stages, pending[k + 1]); }
    }
    forall u, info | info in Callers(stages', u)
      ensures IsCall(w, stages', info) && w.identify(Callee(w, stages', info)) == u
    {
      if u != id { assert info in Callers(stages, u); }
    }
    forall info | IsCall(w, stages', info)
      ensures info in Callers(stages', w.identify(Callee(w, stages', info))) || Waiting(pending', info)
    {
      if info.hash == id {
        assert pending'[|pending| - 1 + info.position] == calls[info.position];
      } else {
        assert IsCall(w, stages, info);
        if info !in Callers(stages, w.identify(Callee(w, stages, info))) {
          var k :| 0 <= k < |pending| && pending[k].downstream == Some([info]);
          if k > 0 {
            assert pending'[k - 1] == pending[k];
          } else {
            assert pending[0].downstream.value[0] == info;
            assert info in Callers(stages', id);
          }
        }
      }
    }
  }

  lemma NothingWaits<D>(w: World<D>, stages: map<Hash, Stage<D>>)
    requires Partial(w, stages, [])
    ensures IsDiscovered(w, stages)
  {
    forall info | IsCall(w, stages, info) ensures info in Callers(stages, w.identify(Callee(w, stages, info))) {
      assert !Waiting<D>([], info);
    }
  }

  // ----- the work list as a state machine

  datatype Discovery<D> = Discovery(stages: map<Hash, Stage<D>>, keys: seq<Hash>, pending: seq<Pending<D>>)

  /** The work-list entries for what a freshly configured stage requires. */
  function CallsOf<D>(w: World<D>, item: Pending<D>, id: Hash, cycle: Hash): (calls: seq<Pending<D>>)
    ensures |calls| == |w.upstreams(item.definition)|
    ensures forall k :: 0 <= k < |calls| ==>
      && calls[k].definition == w.upstreams(item.definition)[k].definition
      && calls[k].downstream == Some([CallAt(w, item.definition, id, k)])
      && calls[k].cycles == item.cycles + [cycle]
      && calls[k].ephemeral == (w.upstreams(item.definition)[k].ephemeral || item.ephemeral)
      && calls[k].requiredIndex == None
  {
    var ups := w.upstreams(item.definition);
    seq(|ups|, k requires 0 <= k < |ups| =>
      Pending(ups[k].definition, Some([CallInfo(id, k, |ups|, ups[k].passed)]),
              item.cycles + [cycle], ups[k].ephemeral || item.ephemeral, None))
  }

  function InitialPending<D>(definitions: seq<D>): (pending: seq<Pending<D>>)
    ensures |pending| == |definitions|
    ensures forall i :: 0 <= i < |definitions| ==> pending[i] == Pending(definitions[i], None, [], false, Some(i))
  {
    seq(|definitions|, i requires 0 <= i < |definitions| => Pending(definitions[i], None, [], false, Some(i)))
  }

  /** The next entry repeats the cycle hash of a stage on the way to it, and has not been discovered under its own hash. */
  predicate MeetsCycle<D>(w: World<D>, s: Discovery<D>) {
    && s.pending != []
    && w.identify(s.pending[0].definition) !in s.stages
    && w.cycleHash(s.pending[0].definition) in s.pending[0].cycles
  }

  /** The next entry has been discovered, but one of the two has no callers to record. */
  predicate LacksDownstream<D>(w: World<D>, s: Discovery<D>) {
    && s.pending != []
    && var id := w.identify(s.pending[0].definition);
       id in s.stages && (s.stages[id].downstream.None? || s.pending[0].downstream.None?)
  }

  /** One round of the work list. */
  function Next<D>(w: World<D>, s: Discovery<D>): Result<Discovery<D>, Failure>
    requires s.pending != []
  {
    var item := s.pending[0];
    var id := w.identify(item.definition);
    if LacksDownstream(w, s) then Err(MissingDownstream)
    else if MeetsCycle(w, s) then Err(FoundCycle)
    else if id in s.stages then
      var stage := s.stages[id];
      var again := stage.(downstream := Some(stage.downstream.value + item.downstream.value));
      Ok(Discovery(s.stages[id := again], s.keys, s.pending[1..]))
    else
      var stage := Stage(item.definition, item.downstream, item.ephemeral, item.requiredIndex);
      Ok(Discovery(s.stages[id := stage], s.keys + [id], s.pending[1..] + CallsOf(w, item, id, w.cycleHash(item.definition))))
  }

  /** The state after `n` rounds; a failure and an empty work list are final. */
  function After<D>(w: World<D>, definitions: seq<D>, n: nat): Result<Discovery<D>, Failure> {
    if n == 0 then Ok(Discovery(map[], [], InitialPending(definitions)))
    else match After(w, definitions, n - 1)
      case Err(e) => Err(e)
      case Ok(s) => if s.pending == [] then Ok(s) else Next(w, s)
  }

  predicate Final<D>(r: Result<Discovery<D>, Failure>) {
    r.Ok? ==> r.value.pending == []
  }

  /** Discovery ends this way. */
  ghost predicate EndsWith<D>(w: World<D>, definitions: seq<D>, r: Result<Discovery<D>, Failure>) {
    Final(r) && exists n: nat :: After(w, definitions, n) == r
  }

  lemma {:induction false} FinalStays<D>(w: World<D>, definitions: seq<D>, n: nat, m: nat)
    requires Final(After(w, definitions, n)) && n <= m
    ensures After(w, definitions, m) == After(w, definitions, n)
    decreases m
  {
    if n < m { FinalStays(w, definitions, n, m - 1); }
  }

  /** Discovery ends in one way only. */
  lemma EndIsUnique<D>(w: World<D>, definitions: seq<D>, a: Result<Discovery<D>, Failure>, b: Result<Discovery<D>, Failure>)
    requires EndsWith(w, definitions, a) && EndsWith(w, definitions, b)
    ensures a == b
  {
    var n: nat :| After(w, definitions, n) == a;
    var m: nat :| After(w, definitions, m) == b;
    if n <= m { FinalStays(w, definitions, n, m); } else { FinalStays(w, definitions, m, n); }
  }

  /** The round in which an error is raised. */
  lemma {:induction false} RoundOfFailure<D>(w: World<D>, definitions: seq<D>, n: nat) returns (k: nat)
    requires After(w, definitions, n).Err?
    ensures k < n && After(w, definitions, k).Ok? && After(w, definitions, k).value.pending != []
    ensures Next(w, After(w, definitions, k).value) == After(w, definitions, n)
  {
    if After(w, definitions, n - 1).Err? {
      k := RoundOfFailure(w, definitions, n - 1);
    } else {
      k := n - 1;
    }
  }

  /** A state that the work list passes through. */
  ghost predicate Passes<D>(w: World<D>, definitions: seq<D>, s: Discovery<D>) {
    exists n: nat :: After(w, definitions, n) == Ok(s)
  }

  /** Exactly when each error is raised: the work list comes to an entry that repeats a cycle hash and is not skipped as known. */
  lemma FailsIff<D(!new)>(w: World<D>, definitions: seq<D>)
    ensures EndsWith(w, definitions, Err(FoundCycle)) <==> exists s :: Passes(w, definitions, s) && MeetsCycle(w, s)
    ensures EndsWith(w, definitions, Err(MissingDownstream)) <==> exists s :: Passes(w, definitions, s) && LacksDownstream(w, s)
  {
    forall s | Passes(w, definitions, s) && (MeetsCycle(w, s) || LacksDownstream(w, s))
      ensures EndsWith(w, definitions, if LacksDownstream(w, s) then Err(MissingDownstream) else Err(FoundCycle))
    {
      var n: nat :| After(w, definitions, n) == Ok(s);
      assert After(w, definitions, n + 1) == Next(w, s);
    }
    forall failure | EndsWith(w, definitions, Err(failure))
      ensures exists s :: Passes(w, definitions, s) && if failure.FoundCycle? then MeetsCycle(w, s) else LacksDownstream(w, s)
    {
      var n: nat :| After(w, definitions, n) == Err(failure);
      var k := RoundOfFailure(w, definitions, n);
      assert Passes(w, definitions, After(w, definitions, k).value);
    }
  }

  // ----- what the work list keeps

  lemma StartTraced<D(!new)>(w: World<D>, definitions: seq<D>, pending: seq<Pending<D>>)
    requires |pending| == |definitions|
    requires forall i :: 0 <= i < |definitions| ==> pending[i] == Pending(definitions[i], None, [], false, Some(i))
    ensures Partial(w, map[], pending)
    ensures AllTraced(w, definitions, map[], pending)
  {
    forall k | 0 <= k < |pending| ensures Traced(w, definitions, map[], pending[k]) { RootIsTraced(w, definitions, k); }
  }

  ghost predicate WithinReach<D>(pending: seq<Pending<D>>, reach: iset<D>) {
    forall k :: 0 <= k < |pending| ==> pending[k].definition in reach
  }

  lemma CallsWithinReach<D(!new)>(w: World<D>, reach: iset<D>, hashes: set<Hash>, pending: seq<Pending<D>>, calls: seq<Pending<D>>)
    requires FinitelyMany(w, reach, hashes) && WithinReach(pending, reach) && pending != []
    requires |calls| == |w.upstreams(pending[0].definition)|
    requires forall k :: 0 <= k < |calls| ==> calls[k].definition == w.upstreams(pending[0].definition)[k].definition
    ensures w.identify(pending[0].definition) in hashes
    ensures WithinReach(pending[1..] + calls, reach)
  {
    assert pending[0].definition in reach;
  }

  /** Only finitely many stages can be left to discover. */
  ghost predicate Bounded<D(!new)>(w: World<D>, reach: iset<D>, hashes: set<Hash>, s: Discovery<D>) {
    FinitelyMany(w, reach, hashes) && s.stages.Keys <= hashes && WithinReach(s.pending, reach)
  }

  /** A round that raises nothing uses up a stage that can be left to discover, or a pending entry. */
  lemma RoundIsBounded<D(!new)>(w: World<D>, reach: iset<D>, hashes: set<Hash>, s: Discovery<D>)
    requires Bounded(w, reach, hashes, s) && s.pending != [] && Next(w, s).Ok?
    ensures var t := Next(w, s).value;
            && Bounded(w, reach, hashes, t)
            && if w.identify(s.pending[0].definition) in s.stages then t.stages.Keys == s.stages.Keys && |t.pending| < |s.pending|
               else |hashes - t.stages.Keys| < |hashes - s.stages.Keys|
  {
    var item, t := s.pending[0], Next(w, s).value;
    var id := w.identify(item.definition);
    if id in s.stages {
      assert t.stages.Keys == s.stages.Keys;
    } else {
      CallsWithinReach(w, reach, hashes, s.pending, CallsOf(w, item, id, w.cycleHash(item.definition)));
      assert hashes - t.stages.Keys == (hashes - s.stages.Keys) - {id};
    }
  }

  /** What the expansion keeps. */
  ghost predicate Expanding<D(!new)>(w: World<D>, definitions: seq<D>, stages: map<Hash, Stage<D>>, keys: seq<Hash>, pending: seq<Pending<D>>) {
    && Partial(w, stages, pending)
    && NoDup(keys) && (forall k :: k in keys <==> k in stages)
    && AllTraced(w, definitions, stages, pending)
  }

  lemma KeysAppend<D>(keys: seq<Hash>, stages: map<Hash, Stage<D>>, id: Hash, stage: Stage<D>)
    requires NoDup(keys) && (forall k :: k in keys <==> k in stages) && id !in stages
    ensures NoDup(keys + [id]) && forall k :: k in keys + [id] <==> k in stages[id := stage]
  {
  }

  lemma ExpandAgain<D(!new)>(w: World<D>, definitions: seq<D>, stages: map<Hash, Stage<D>>, keys: seq<Hash>, pending: seq<Pending<D>>,
                             again: map<Hash, Stage<D>>)
    requires pending != [] && Expanding(w, definitions, stages, keys, pending)
    requires pending[0].downstream.Some? && w.identify(pending[0].definition) in stages
    requires stages[w.identify(pending[0].definition)].downstream.Some?
    requires var id := w.identify(pending[0].definition);
             var s := stages[id];
             again == stages[id := s.(downstream := Some(s.downstream.value + pending[0].downstream.value))]
    ensures Expanding(w, definitions, again, keys, pending[1..])
  {
    RecordAgain(w, stages, pending, again);
    assert again.Keys == stages.Keys;
    forall k | 0 <= k < |pending[1..]| ensures Traced(w, definitions, again, pending[1..][k]) {
      assert Traced(w, definitions, stages, pending[k + 1]);
      TracedStays(w, definitions, stages, again, pending[k + 1]);
    }
  }

  lemma ExpandedIsTraced<D(!new)>(w: World<D>, definitions: seq<D>, stages: map<Hash, Stage<D>>, more: map<Hash, Stage<D>>,
                                  pending: seq<Pending<D>>, definition: D, calls: seq<Pending<D>>)
    requires pending != [] && AllTraced(w, definitions, stages, pending) && definition == pending[0].definition
    requires stages.Keys <= more.Keys && w.identify(definition) in more
    requires |calls| == |w.upstreams(definition)|
    requires forall k :: 0 <= k < |calls| ==>
      && calls[k].definition == w.upstreams(definition)[k].definition
      && calls[k].downstream == Some([CallAt(w, definition, w.identify(definition), k)])
      && calls[k].cycles == pending[0].cycles + [w.cycleHash(definition)]
    ensures AllTraced(w, definitions, more, pending[1..] + calls)
  {
    var next := pending[1..] + calls;
    forall k | 0 <= k < |pending| ensures Traced(w, definitions, more, pending[k]) {
      assert Traced(w, definitions, stages, pending[k]);
      TracedStays(w, definitions, stages, more, pending[k]);
    }
    forall k | 0 <= k < |next| ensures Traced(w, definitions, more, next[k]) {
      if k < |pending| - 1 {
        assert next[k] == pending[k + 1] && Traced(w, definitions, more, pending[k + 1]);
      } else {
        var call := calls[k - (|pending| - 1)];
        assert Requires(w, definition, call.definition) && Traced(w, definitions, more, pending[0]);
        CallIsTraced(w, definitions, more, pending[0], call);
      }
    }
  }

  lemma ExpandNew<D(!new)>(w: World<D>, definitions: seq<D>, stages: map<Hash, Stage<D>>, keys: seq<Hash>, pending: seq<Pending<D>>,
                           stage: Stage<D>, calls: seq<Pending<D>>)
    requires pending != [] && Expanding(w, definitions, stages, keys, pending)
    requires w.identify(pending[0].definition) !in stages
    requires stage.definition == pending[0].definition && stage.downstream == pending[0].downstream
    requires |calls| == |w.upstreams(stage.definition)|
    requires forall k :: 0 <= k < |calls| ==>
      && calls[k].definition == w.upstreams(stage.definition)[k].definition
      && calls[k].downstream == Some([CallAt(w, stage.definition, w.identify(stage.definition), k)])
      && calls[k].cycles == pending[0].cycles + [w.cycleHash(pending[0].definition)]
    ensures var id := w.identify(stage.definition);
            Expanding(w, definitions, stages[id := stage], keys + [id], pending[1..] + calls)
  {
    var id := w.identify(stage.definition);
    RecordNew(w, stages, pending, stage, calls);
    KeysAppend(keys, stages, id, stage);
    ExpandedIsTraced(w, definitions, stages, stages[id := stage], pending, stage.definition, calls);
  }

  // ----- the requested stages among the discovered ones

  /** No two requested definitions are identified. */
  ghost predicate RequestedOnce<D>(w: World<D>, definitions: seq<D>) {
    forall i, j :: 0 <= i < j < |definitions| ==> w.identify(definitions[i]) != w.identify(definitions[j])
  }

  /** A stage that some chain of requirements asks for is identified with a requested one. */
  ghost predicate RequestedAndRequired<D(!new)>(w: World<D>, definitions: seq<D>) {
    exists c, i {:trigger Chain(w, definitions, c), definitions[i]} ::
      Chain(w, definitions, c) && |c| >= 2 && 0 <= i < |definitions| && w.identify(c[|c| - 1]) == w.identify(definitions[i])
  }

  /** The stage is the one requested as number `i`: nobody calls it. */
  predicate IsRequestOf<D>(stage: Stage<D>, i: nat) {
    stage.downstream.None? && stage.requiredIndex == Some(i)
  }

  /** The first `n` requested definitions are discovered, in that order and before anything else; the others wait in front. */
  ghost predicate RequestsFirst<D>(w: World<D>, definitions: seq<D>, n: nat, stages: map<Hash, Stage<D>>, pending: seq<Pending<D>>) {
    && n <= |definitions| <= n + |pending|
    && (forall k :: 0 <= k < |definitions| - n ==>
          pending[k].definition == definitions[n + k] && pending[k].downstream.None? && pending[k].requiredIndex == Some(n + k))
    && (forall k :: |definitions| - n <= k < |pending| ==>
          pending[k].downstream.Some? && pending[k].requiredIndex.None? && pending[k].cycles != [])
    && (forall i, j :: 0 <= i < j < n ==> w.identify(definitions[i]) != w.identify(definitions[j]))
    && RequestsMarked(w, definitions, n, stages)
    && (n < |definitions| ==> forall u :: u in stages ==> stages[u].downstream.None?)
  }

  /** Exactly the first `n` requested definitions are recorded without callers, each with its index. */
  ghost predicate RequestsMarked<D>(w: World<D>, definitions: seq<D>, n: nat, stages: map<Hash, Stage<D>>)
    requires n <= |definitions|
  {
    && (forall i :: 0 <= i < n ==>
          w.identify(definitions[i]) in stages && IsRequestOf(stages[w.identify(definitions[i])], i))
    && (forall u :: u in stages ==> (stages[u].downstream.None? <==> stages[u].requiredIndex.Some?))
    && (forall u :: u in stages && stages[u].downstream.None? ==>
          stages[u].requiredIndex.value < n && w.identify(definitions[stages[u].requiredIndex.value]) == u)
  }

  lemma RequestsAgain<D>(w: World<D>, definitions: seq<D>, n: nat, stages: map<Hash, Stage<D>>, pending: seq<Pending<D>>,
                         again: map<Hash, Stage<D>>)
    requires RequestsFirst(w, definitions, n, stages, pending) && pending != [] && pending[0].downstream.Some?
    requires var id := w.identify(pending[0].definition);
             && id in stages && stages[id].downstream.Some?
             && again == stages[id := stages[id].(downstream := Some(stages[id].downstream.value + pending[0].downstream.value))]
    ensures RequestsFirst(w, definitions, n, again, pending[1..])
  {
    assert n == |definitions|;
  }

  lemma RequestsNew<D>(w: World<D>, definitions: seq<D>, n: nat, stages: map<Hash, Stage<D>>, pending: seq<Pending<D>>,
                       stage: Stage<D>, calls: seq<Pending<D>>)
    requires RequestsFirst(w, definitions, n, stages, pending) && pending != []
    requires w.identify(pending[0].definition) !in stages
    requires stage.downstream == pending[0].downstream && stage.requiredIndex == pending[0].requiredIndex
    requires forall k :: 0 <= k < |calls| ==> calls[k].downstream.Some? && calls[k].requiredIndex.None? && calls[k].cycles != []
    ensures RequestsFirst(w, definitions, if pending[0].downstream.None? then n + 1 else n,
                          stages[w.identify(pending[0].definition) := stage], pending[1..] + calls)
  {
    var id := w.identify(pending[0].definition);
    var next, m := pending[1..] + calls, if pending[0].downstream.None? then n + 1 else n;
    assert pending[0].downstream.None? <==> n < |definitions|;
    forall k | 0 <= k < |definitions| - m
      ensures next[k].definition == definitions[m + k] && next[k].downstream.None? && next[k].requiredIndex == Some(m + k)
    {
      assert next[k] == pending[k + 1];
    }
    forall i | 0 <= i < n ensures w.identify(definitions[i]) != id {
      assert w.identify(definitions[i]) in stages;
    }
  }

  /** A stage met again without callers recorded on both sides: it was requested twice, or both requested and required. */
  lemma MeetingIsSharing<D(!new)>(w: World<D>, definitions: seq<D>, n: nat, stages: map<Hash, Stage<D>>, pending: seq<Pending<D>>)
    requires RequestsFirst(w, definitions, n, stages, pending) && pending != [] && AllTraced(w, definitions, stages, pending)
    requires var id := w.identify(pending[0].definition);
             id in stages && (stages[id].downstream.None? || pending[0].downstream.None?)
    ensures !RequestedOnce(w, definitions) || RequestedAndRequired(w, definitions)
  {
    var id := w.identify(pending[0].definition);
    if pending[0].downstream.None? {
      assert n < |definitions|;
      var i := stages[id].requiredIndex.value;
      assert w.identify(definitions[i]) == w.identify(definitions[n]);
    } else {
      assert Traced(w, definitions, stages, pending[0]);
      var c :| Chain(w, definitions, c + [pending[0].definition]) && pending[0].cycles == CycleHashes(w, c) && AllKnown(w, stages, c);
      var longer := c + [pending[0].definition];
      assert longer[|longer| - 1] == pending[0].definition;
      var i := stages[id].requiredIndex.value;
      assert Chain(w, definitions, longer) && w.identify(longer[|longer| - 1]) == w.identify(definitions[i]);
    }
  }

  /** Once all is discovered, no call of any stage resolves to a requested one. */
  lemma RequestsAreNotRequired<D>(w: World<D>, definitions: seq<D>, stages: map<Hash, Stage<D>>, i: nat, info: CallInfo)
    requires IsDiscovered(w, stages) && RequestsMarked(w, definitions, |definitions|, stages)
    requires i < |definitions| && IsCall(w, stages, info)
    ensures w.identify(Callee(w, stages, info)) != w.identify(definitions[i])
  {
    assert info in Callers(stages, w.identify(Callee(w, stages, info)));
  }

  // ----- how every stage came in

  /** The call introduces this definition; what an ephemeral stage requires is ephemeral too. */
  ghost predicate CameFrom<D>(w: World<D>, stages: map<Hash, Stage<D>>, definition: D, ephemeral: bool, info: CallInfo) {
    && IsCall(w, stages, info)
    && definition == Callee(w, stages, info)
    && (ephemeral <==> w.upstreams(stages[info.hash].definition)[info.position].ephemeral || stages[info.hash].ephemeral)
  }

  ghost predicate IsRequest<D>(definitions: seq<D>, definition: D, ephemeral: bool, index: Option<nat>) {
    !ephemeral && index.Some? && index.value < |definitions| && definition == definitions[index.value]
  }

  /** Stage number `i` is a request, or its first caller was discovered before it and introduced it. */
  ghost predicate Introduced<D>(w: World<D>, definitions: seq<D>, stages: map<Hash, Stage<D>>, keys: seq<Hash>, i: nat) {
    && i < |keys| && keys[i] in stages
    && var s := stages[keys[i]];
       if s.downstream.None? then IsRequest(definitions, s.definition, s.ephemeral, s.requiredIndex)
       else
         && s.downstream.value != [] && s.downstream.value[0].hash in keys[..i]
         && CameFrom(w, stages, s.definition, s.ephemeral, s.downstream.value[0])
  }

  ghost predicate Introducing<D>(w: World<D>, definitions: seq<D>, stages: map<Hash, Stage<D>>, p: Pending<D>) {
    if p.downstream.None? then IsRequest(definitions, p.definition, p.ephemeral, p.requiredIndex)
    else |p.downstream.value| == 1 && CameFrom(w, stages, p.definition, p.ephemeral, p.downstream.value[0])
  }

  ghost predicate AllIntroduced<D>(w: World<D>, definitions: seq<D>, stages: map<Hash, Stage<D>>, keys: seq<Hash>) {
    forall i {:trigger Introduced(w, definitions, stages, keys, i)} ::
      0 <= i < |keys| ==> Introduced(w, definitions, stages, keys, i)
  }

  ghost predicate AllIntroducing<D>(w: World<D>, definitions: seq<D>, stages: map<Hash, Stage<D>>, pending: seq<Pending<D>>) {
    forall k {:trigger Introducing(w, definitions, stages, pending[k])} ::
      0 <= k < |pending| ==> Introducing(w, definitions, stages, pending[k])
  }

  /** Stages keep their definition and their ephemerality, and callers are only appended. */
  ghost predicate Grown<D>(stages: map<Hash, Stage<D>>, more: map<Hash, Stage<D>>) {
    forall u :: u in stages ==>
      && u in more
      && more[u].definition == stages[u].definition && more[u].ephemeral == stages[u].ephemeral
      && more[u].requiredIndex == stages[u].requiredIndex
      && (more[u].downstream.None? <==> stages[u].downstream.None?)
      && (stages[u].downstream.Some? && stages[u].downstream.value != [] ==>
            more[u].downstream.value != [] && more[u].downstream.value[0] == stages[u].downstream.value[0])
  }

  lemma IntroducedStays<D>(w: World<D>, definitions: seq<D>, stages: map<Hash, Stage<D>>, more: map<Hash, Stage<D>>,
                           keys: seq<Hash>, rest: seq<Hash>, i: nat)
    requires Grown(stages, more) && Introduced(w, definitions, stages, keys, i)
    ensures Introduced(w, definitions, more, keys + rest, i)
  {
    assert (keys + rest)[..i] == keys[..i];
  }

  lemma IntroducingStays<D>(w: World<D>, definitions: seq<D>, stages: map<Hash, Stage<D>>, more: map<Hash, Stage<D>>, p: Pending<D>)
    requires Grown(stages, more) && Introducing(w, definitions, stages, p)
    ensures Introducing(w, definitions, more, p)
  {
  }

  lemma IntroducedAgain<D>(w: World<D>, definitions: seq<D>, stages: map<Hash, Stage<D>>, again: map<Hash, Stage<D>>,
                           keys: seq<Hash>, pending: seq<Pending<D>>)
    requires Grown(stages, again) && pending != []
    requires AllIntroduced(w, definitions, stages, keys) && AllIntroducing(w, definitions, stages, pending)
    ensures AllIntroduced(w, definitions, again, keys) && AllIntroducing(w, definitions, again, pending[1..])
  {
    assert keys + [] == keys;
    forall i | 0 <= i < |keys| ensures Introduced(w, definitions, again, keys, i) {
      assert Introduced(w, definitions, stages, keys, i);
      IntroducedStays(w, definitions, stages, again, keys, [], i);
    }
    forall k | 0 <= k < |pending[1..]| ensures Introducing(w, definitions, again, pending[1..][k]) {
      assert Introducing(w, definitions, stages, pending[k + 1]);
      IntroducingStays(w, definitions, stages, again, pending[k + 1]);
    }
  }

  lemma IntroducedNew<D>(w: World<D>, definitions: seq<D>, stages: map<Hash, Stage<D>>, keys: seq<Hash>, pending: seq<Pending<D>>,
                         stage: Stage<D>, calls: seq<Pending<D>>)
    requires pending != [] && AllIntroduced(w, definitions, stages, keys) && AllIntroducing(w, definitions, stages, pending)
    requires forall u :: u in keys <==> u in stages
    requires stage == Stage(pending[0].definition, pending[0].downstream, pending[0].ephemeral, pending[0].requiredIndex)
    requires w.identify(stage.definition) !in stages
    requires |calls| == |w.upstreams(stage.definition)|
    requires forall k :: 0 <= k < |calls| ==>
      && calls[k].definition == w.upstreams(stage.definition)[k].definition
      && calls[k].downstream == Some([CallAt(w, stage.definition, w.identify(stage.definition), k)])
      && calls[k].ephemeral == (w.upstreams(stage.definition)[k].ephemeral || stage.ephemeral)
    ensures var id := w.identify(stage.definition);
            && AllIntroduced(w, definitions, stages[id := stage], keys + [id])
            && AllIntroducing(w, definitions, stages[id := stage], pending[1..] + calls)
  {
    var id := w.identify(stage.definition);
    var more, list, next := stages[id := stage], keys + [id], pending[1..] + calls;
    assert Grown(stages, more);
    assert Introducing(w, definitions, stages, pending[0]);
    IntroducingStays(w, definitions, stages, more, pending[0]);
    assert list[..|keys|] == keys;
    forall i | 0 <= i < |list| ensures Introduced(w, definitions, more, list, i) {
      if i < |keys| {
        assert Introduced(w, definitions, stages, keys, i);
        IntroducedStays(w, definitions, stages, more, keys, [id], i);
      }
    }
    forall k | 0 <= k < |next| ensures Introducing(w, definitions, more, next[k]) {
      if k < |pending| - 1 {
        assert next[k] == pending[k + 1] && Introducing(w, definitions, stages, pending[k + 1]);
        IntroducingStays(w, definitions, stages, more, pending[k + 1]);
      } else {
        assert next[k] == calls[k - (|pending| - 1)];
      }
    }
  }

  /** Every discovered stage is needed: a chain of requirements leads to it from a requested definition. */
  lemma {:induction false} EveryStageIsRequired<D(!new)>(w: World<D>, definitions: seq<D>, stages: map<Hash, Stage<D>>, keys: seq<Hash>, i: nat)
    returns (c: seq<D>)
    requires AllIntroduced(w, definitions, stages, keys) && i < |keys| && keys[i] in stages
    ensures Chain(w, definitions, c) && c[|c| - 1] == stages[keys[i]].definition
    decreases i
  {
    assert Introduced(w, definitions, stages, keys, i);
    var s := stages[keys[i]];
    if s.downstream.None? {
      c := [s.definition];
    } else {
      var call := s.downstream.value[0];
      var j :| 0 <= j < i && keys[j] == call.hash;
      var before := EveryStageIsRequired(w, definitions, stages, keys, j);
      c := before + [s.definition];
      assert Requires(w, before[|before| - 1], s.definition);
      forall k | 0 <= k < |c| - 1 ensures Requires(w, c[k], c[k + 1]) {
        if k < |before| - 1 { assert Requires(w, before[k], before[k + 1]); }
      }
      assert c[0] == before[0];
    }
  }

  /** The table is complete, `keys` lists it, and its stages without callers are the requested ones, each with its index. */
  ghost predicate DiscoveredFrom<D>(w: World<D>, definitions: seq<D>, stages: map<Hash, Stage<D>>, keys: seq<Hash>) {
    && IsDiscovered(w, stages)
    && NoDup(keys) && (forall k :: k in keys <==> k in stages)
    && RequestedOnce(w, definitions) && RequestsMarked(w, definitions, |definitions|, stages)
    && AllIntroduced(w, definitions, stages, keys)
  }

  /** What the work list keeps. */
  ghost predicate Discovering<D(!new)>(w: World<D>, definitions: seq<D>, n: nat, s: Discovery<D>) {
    && Expanding(w, definitions, s.stages, s.keys, s.pending)
    && RequestsFirst(w, definitions, n, s.stages, s.pending)
    && AllIntroduced(w, definitions, s.stages, s.keys) && AllIntroducing(w, definitions, s.stages, s.pending)
  }

  lemma DiscoveryStarts<D(!new)>(w: World<D>, definitions: seq<D>)
    ensures Discovering(w, definitions, 0, Discovery(map[], [], InitialPending(definitions)))
  {
    StartTraced(w, definitions, InitialPending(definitions));
  }

  lemma DiscoverAgain<D(!new)>(w: World<D>, definitions: seq<D>, n: nat, s: Discovery<D>)
    requires s.pending != [] && Discovering(w, definitions, n, s) && Next(w, s).Ok?
    requires w.identify(s.pending[0].definition) in s.stages
    ensures Discovering(w, definitions, n, Next(w, s).value)
  {
    var again := Next(w, s).value.stages;
    ExpandAgain(w, definitions, s.stages, s.keys, s.pending, again);
    RequestsAgain(w, definitions, n, s.stages, s.pending, again);
    IntroducedAgain(w, definitions, s.stages, again, s.keys, s.pending);
  }

  lemma DiscoverNew<D(!new)>(w: World<D>, definitions: seq<D>, n: nat, s: Discovery<D>)
    requires s.pending != [] && Discovering(w, definitions, n, s) && Next(w, s).Ok?
    requires w.identify(s.pending[0].definition) !in s.stages
    ensures Discovering(w, definitions, if s.pending[0].downstream.None? then n + 1 else n, Next(w, s).value)
  {
    var item := s.pending[0];
    var stage := Stage(item.definition, item.downstream, item.ephemeral, item.requiredIndex);
    var calls := CallsOf(w, item, w.identify(item.definition), w.cycleHash(item.definition));
    ExpandNew(w, definitions, s.stages, s.keys, s.pending, stage, calls);
    RequestsNew(w, definitions, n, s.stages, s.pending, stage, calls);
    IntroducedNew(w, definitions, s.stages, s.keys, s.pending, stage, calls);
  }

  /** Whatever the world, the work list keeps this in every round. */
  lemma {:induction false} EveryRoundKeeps<D(!new)>(w: World<D>, definitions: seq<D>, round: nat) returns (n: nat)
    requires After(w, definitions, round).Ok?
    ensures Discovering(w, definitions, n, After(w, definitions, round).value)
  {
    if round == 0 {
      DiscoveryStarts(w, definitions);
      n := 0;
    } else {
      n := EveryRoundKeeps(w, definitions, round - 1);
      var s := After(w, definitions, round - 1).value;
      if s.pending != [] {
        if w.identify(s.pending[0].definition) in s.stages {
          DiscoverAgain(w, definitions, n, s);
        } else {
          DiscoverNew(w, definitions, n, s);
          n := if s.pending[0].downstream.None? then n + 1 else n;
        }
      }
    }
  }

  /** A discovery that succeeds ends with a complete table of what was requested. */
  lemma EndIsDiscovered<D(!new)>(w: World<D>, definitions: seq<D>, stages: map<Hash, Stage<D>>, keys: seq<Hash>)
    requires EndsWith(w, definitions, Ok(Discovery(stages, keys, [])))
    ensures DiscoveredFrom(w, definitions, stages, keys)
  {
    var round: nat :| After(w, definitions, round) == Ok(Discovery(stages, keys, []));
    var n := EveryRoundKeeps(w, definitions, round);
    NothingWaits(w, stages);
  }

  // ----- what a failure says about the definitions

  /** A cycle error needs two different stages with one cycle hash on a chain of requirements. */
  lemma CycleErrorNeedsClash<D(!new)>(w: World<D>, definitions: seq<D>)
    requires EndsWith(w, definitions, Err(FoundCycle))
    ensures HasRepetition(w, definitions)
  {
    var s := FailingState(w, definitions, FoundCycle);
    assert Traced(w, definitions, s.stages, s.pending[0]);
    RepetitionFound(w, definitions, s.stages, s.pending[0]);
  }

  /** The state in which an error is raised. */
  lemma FailingState<D(!new)>(w: World<D>, definitions: seq<D>, failure: Failure) returns (s: Discovery<D>)
    requires EndsWith(w, definitions, Err(failure))
    ensures if failure.FoundCycle? then MeetsCycle(w, s) else LacksDownstream(w, s)
    ensures AllTraced(w, definitions, s.stages, s.pending)
    ensures exists n :: RequestsFirst(w, definitions, n, s.stages, s.pending)
  {
    var round: nat :| After(w, definitions, round) == Err(failure);
    var k := RoundOfFailure(w, definitions, round);
    var n := EveryRoundKeeps(w, definitions, k);
    s := After(w, definitions, k).value;
  }

  /** Where the cycle hash tells stages apart as finely as the identification hash, no cycle is ever reported. */
  lemma FineCycleHashesNeverFail<D(!new)>(w: World<D>, definitions: seq<D>)
    requires forall d, e :: !Clash(w, d, e)
    ensures !EndsWith(w, definitions, Err(FoundCycle))
  {
    forall c, i, j | Chain(w, definitions, c) && 0 <= i < j < |c| ensures !Clash(w, c[i], c[j]) {}
    assert !HasRepetition(w, definitions);
    if EndsWith(w, definitions, Err(FoundCycle)) { CycleErrorNeedsClash(w, definitions); }
  }

  /** A missing caller list needs a stage requested twice, or both requested and required. */
  lemma MissingCallersMeanSharing<D(!new)>(w: World<D>, definitions: seq<D>)
    requires EndsWith(w, definitions, Err(MissingDownstream))
    ensures !RequestedOnce(w, definitions) || RequestedAndRequired(w, definitions)
  {
    var s := FailingState(w, definitions, MissingDownstream);
    var n :| RequestsFirst(w, definitions, n, s.stages, s.pending);
    MeetingIsSharing(w, definitions, n, s.stages, s.pending);
  }

  /** What each outcome of discovery says. */
  lemma EndIsExplained<D(!new)>(w: World<D>, definitions: seq<D>, r: Result<Discovery<D>, Failure>)
    requires EndsWith(w, definitions, r)
    ensures r.Ok? ==> DiscoveredFrom(w, definitions, r.value.stages, r.value.keys)
    ensures r == Err(FoundCycle) ==> HasRepetition(w, definitions)
    ensures r == Err(MissingDownstream) ==> !RequestedOnce(w, definitions) || RequestedAndRequired(w, definitions)
  {
    match r
    case Ok(s) => EndIsDiscovered(w, definitions, s.stages, s.keys);
    case Err(FoundCycle) => CycleErrorNeedsClash(w, definitions);
    case Err(MissingDownstream) => MissingCallersMeanSharing(w, definitions);
  }

  lemma {:induction false} EndAfter<D(!new)>(w: World<D>, definitions: seq<D>, reach: iset<D>, hashes: set<Hash>, round: nat)
    returns (r: Result<Discovery<D>, Failure>)
    requires After(w, definitions, round).Ok? && Bounded(w, reach, hashes, After(w, definitions, round).value)
    ensures EndsWith(w, definitions, r)
    decreases |hashes - After(w, definitions, round).value.stages.Keys|, |After(w, definitions, round).value.pending|
  {
    var s := After(w, definitions, round).value;
    r := Ok(s);
    if s.pending != [] {
      r := Next(w, s);
      assert After(w, definitions, round + 1) == r;
      if r.Ok? {
        RoundIsBounded(w, reach, hashes, s);
        r := EndAfter(w, definitions, reach, hashes, round + 1);
      }
    }
  }

  lemma OnlyTwoFailures<T>(r: Result<T, Failure>)
    ensures r.Ok? || r == Err(FoundCycle) || r == Err(MissingDownstream)
  {
    if r.Err? { assert r == Err(r.error) && (r.error == FoundCycle || r.error == MissingDownstream); }
  }

  /** Discovery succeeds for stages that are requested once and not required, told apart by their cycle hashes. */
  lemma DiscoverySucceeds<D(!new)>(w: World<D>, definitions: seq<D>, reach: iset<D>, hashes: set<Hash>)
    returns (stages: map<Hash, Stage<D>>, keys: seq<Hash>)
    requires FinitelyMany(w, reach, hashes) && forall i :: 0 <= i < |definitions| ==> definitions[i] in reach
    requires RequestedOnce(w, definitions) && !RequestedAndRequired(w, definitions)
    requires forall d, e :: !Clash(w, d, e)
    ensures EndsWith(w, definitions, Ok(Discovery(stages, keys, []))) && DiscoveredFrom(w, definitions, stages, keys)
  {
    var r := EndAfter(w, definitions, reach, hashes, 0);
    FineCycleHashesNeverFail(w, definitions);
    EndIsExplained(w, definitions, r);
    OnlyTwoFailures(r);
    stages, keys := r.value.stages, r.value.keys;
  }

  /** Expand the requested definitions until nothing is pending. */
  method Discover<D(!new)>(w: World<D>, definitions: seq<D>, ghost reach: iset<D>, ghost hashes: set<Hash>)
    returns (r: Result<map<Hash, Stage<D>>, Failure>, keys: seq<Hash>)
    requires FinitelyMany(w, reach, hashes) && forall i :: 0 <= i < |definitions| ==> definitions[i] in reach
    ensures r.Ok? ==> DiscoveredFrom(w, definitions, r.value, keys)
    ensures EndsWith(w, definitions, if r.Ok? then Ok(Discovery(r.value, keys, [])) else Err(r.error))
    ensures r == Err(FoundCycle) ==> HasRepetition(w, definitions)
    ensures r == Err(MissingDownstream) ==> !RequestedOnce(w, definitions) || RequestedAndRequired(w, definitions)
  {
    var pending := InitialPending(definitions);
    var stages: map<Hash, Stage<D>> := map[];
    keys := [];
    ghost var round: nat := 0;
    while pending != []
      invariant After(w, definitions, round) == Ok(Discovery(stages, keys, pending))
      invariant Bounded(w, reach, hashes, Discovery(stages, keys, pending))
      decreases |hashes - stages.Keys|, |pending|
    {
      ghost var state := Discovery(stages, keys, pending);
      var item := pending[0];
      var id := w.identify(item.definition);
      assert After(w, definitions, round + 1) == Next(w, state);
      round := round + 1;
      if id in stages {
        if stages[id].downstream.None? || item.downstream.None? {
          EndIsExplained(w, definitions, Err(MissingDownstream));
          return Err(MissingDownstream), keys;
        }
        var stage := stages[id];
        stages := stages[id := stage.(downstream := Some(stage.downstream.value + item.downstream.value))];
        pending := pending[1..];
      } else {
        var cycle := w.cycleHash(item.definition);
        if cycle in item.cycles {
          EndIsExplained(w, definitions, Err(FoundCycle));
          return Err(FoundCycle), keys;
        }
        stages := stages[id := Stage(item.definition, item.downstream, item.ephemeral, item.requiredIndex)];
        keys := keys + [id];
        pending := pending[1..] + CallsOf(w, item, id, cycle);
      }
      RoundIsBounded(w, reach, hashes, state);
    }
    EndIsDiscovered(w, definitions, stages, keys);
    r := Ok(stages);
  }
}

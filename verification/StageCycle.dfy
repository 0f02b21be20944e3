/** A cycle of requirements that nothing notices. */
module StageCycle {
  import opened Wrappers
  import opened Graphs
  import opened StageModel
  import opened StageDiscovery
  import opened StageConnection
  import opened StageWalk

  /** `c` requires `a`, `a` requires `b` and `b` requires `a`; every definition is its own hash. */
  function Requirement(d: string): seq<Upstream<string>> {
    if d == "c" then [Upstream("a", {}, false)]
    else if d == "a" then [Upstream("b", {}, false)]
    else if d == "b" then [Upstream("a", {}, false)]
    else []
  }

  function Itself(d: string): Hash { d }

  const CYCLIC := World(Itself, Itself, Requirement)

  function Call(d: string): CallInfo {
    CallInfo(d, 0, 1, {})
  }

  /** The table that discovery ends with. */
  const TABLE: map<Hash, Stage<string>> := map[
    "c" := Stage("c", None, false, Some(0)),
    "a" := Stage("a", Some([Call("c"), Call("b")]), false, None),
    "b" := Stage("b", Some([Call("a")]), false, None)]

  lemma NamesDiffer()
    ensures "a" != "b" && "b" != "c" && "a" != "c"
  {
    assert "a"[0] == 'a' && "b"[0] == 'b' && "c"[0] == 'c';
  }

  lemma CallsAre(item: Pending<string>, cycle: Hash, d: string)
    requires Requirement(item.definition) == [Upstream(d, {}, false)] && !item.ephemeral
    ensures CallsOf(CYCLIC, item, item.definition, cycle)
      == [Pending(d, Some([Call(item.definition)]), item.cycles + [cycle], false, None)]
  {
  }

  /** Four rounds of the work list. */
  lemma DiscoveryOfCycle()
    ensures EndsWith(CYCLIC, ["c"], Ok(Discovery(TABLE, ["c", "a", "b"], [])))
  {
    NamesDiffer();
    var empty: map<Hash, Stage<string>> := map[];
    var c := Pending("c", None, [], false, Some(0));
    var a := Pending("a", Some([Call("c")]), ["c"], false, None);
    var b := Pending("b", Some([Call("a")]), ["c", "a"], false, None);
    var again := Pending("a", Some([Call("b")]), ["c", "a", "b"], false, None);
    var s0 := Discovery(empty, [], [c]);
    var s1 := Discovery(empty["c" := Stage("c", None, false, Some(0))], ["c"], [a]);
    var s2 := Discovery(s1.stages["a" := Stage("a", Some([Call("c")]), false, None)], ["c", "a"], [b]);
    var s3 := Discovery(s2.stages["b" := Stage("b", Some([Call("a")]), false, None)], ["c", "a", "b"], [again]);
    var s4 := Discovery(TABLE, ["c", "a", "b"], []);
    FirstRound(s0, s1, c, a);
    SecondRound(s1, s2, a, b);
    ThirdRound(s2, s3, b, again);
    FourthRound(s3, s4, again);
    assert InitialPending(["c"]) == [c];
    assert After(CYCLIC, ["c"], 0) == Ok(s0);
    assert After(CYCLIC, ["c"], 1) == Ok(s1);
    assert After(CYCLIC, ["c"], 2) == Ok(s2);
    assert After(CYCLIC, ["c"], 3) == Ok(s3);
    assert After(CYCLIC, ["c"], 4) == Ok(s4);
  }

  lemma NewRound(s: Discovery<string>, item: Pending<string>, d: string, next: Pending<string>)
    requires s.pending == [item] && item.definition !in s.stages && item.definition !in item.cycles && !item.ephemeral
    requires Requirement(item.definition) == [Upstream(d, {}, false)]
    requires next == Pending(d, Some([Call(item.definition)]), item.cycles + [item.definition], false, None)
    ensures Next(CYCLIC, s) == Ok(Discovery(
              s.stages[item.definition := Stage(item.definition, item.downstream, false, item.requiredIndex)],
              s.keys + [item.definition], [next]))
  {
    CallsAre(item, item.definition, d);
    assert s.pending[1..] + [next] == [next];
  }

  lemma FirstRound(s: Discovery<string>, t: Discovery<string>, c: Pending<string>, a: Pending<string>)
    requires c == Pending("c", None, [], false, Some(0)) && a == Pending("a", Some([Call("c")]), ["c"], false, None)
    requires s == Discovery(map[], [], [c]) && t == Discovery(map["c" := Stage("c", None, false, Some(0))], ["c"], [a])
    ensures Next(CYCLIC, s) == Ok(t)
  {
    assert [] + ["c"] == ["c"];
    NewRound(s, c, "a", a);
  }

  lemma SecondRound(s: Discovery<string>, t: Discovery<string>, a: Pending<string>, b: Pending<string>)
    requires a == Pending("a", Some([Call("c")]), ["c"], false, None) && b == Pending("b", Some([Call("a")]), ["c", "a"], false, None)
    requires s.stages.Keys == {"c"} && s.keys == ["c"] && s.pending == [a]
    requires t == Discovery(s.stages["a" := Stage("a", Some([Call("c")]), false, None)], ["c", "a"], [b])
    ensures Next(CYCLIC, s) == Ok(t)
  {
    NamesDiffer();
    assert ["c"] + ["a"] == ["c", "a"];
    NewRound(s, a, "b", b);
  }

  lemma ThirdRound(s: Discovery<string>, t: Discovery<string>, b: Pending<string>, again: Pending<string>)
    requires b == Pending("b", Some([Call("a")]), ["c", "a"], false, None)
    requires again == Pending("a", Some([Call("b")]), ["c", "a", "b"], false, None)
    requires s.stages.Keys == {"c", "a"} && s.keys == ["c", "a"] && s.pending == [b]
    requires t == Discovery(s.stages["b" := Stage("b", Some([Call("a")]), false, None)], ["c", "a", "b"], [again])
    ensures Next(CYCLIC, s) == Ok(t)
  {
    NamesDiffer();
    assert ["c", "a"] + ["b"] == ["c", "a", "b"];
    NewRound(s, b, "a", again);
  }

  lemma FourthRound(s: Discovery<string>, t: Discovery<string>, again: Pending<string>)
    requires again == Pending("a", Some([Call("b")]), ["c", "a", "b"], false, None)
    requires "a" in s.stages && s.stages["a"] == Stage("a", Some([Call("c")]), false, None) && s.pending == [again]
    requires t == Discovery(s.stages["a" := Stage("a", Some([Call("c"), Call("b")]), false, None)], s.keys, [])
    ensures Next(CYCLIC, s) == Ok(t)
  {
    assert [Call("c")] + [Call("b")] == [Call("c"), Call("b")];
    assert s.pending[1..] == [];
  }

  lemma CallersOfTable(u: Hash, info: CallInfo)
    ensures info in Callers(TABLE, u) <==>
      (u == "a" && (info == Call("c") || info == Call("b"))) || (u == "b" && info == Call("a"))
  {
    NamesDiffer();
  }

  lemma EdgesOfTable(u: Hash, d: Hash)
    ensures CallerEdge(TABLE)(u, d) <==> (u == "a" && (d == "c" || d == "b")) || (u == "b" && d == "a")
  {
    CallersOfTable("a", Call("b"));
    CallersOfTable("b", Call("a"));
    CallersOfTable("a", Call("c"));
    if CallerEdge(TABLE)(u, d) {
      var info :| info in Callers(TABLE, u) && info.hash == d;
      CallersOfTable(u, info);
    }
  }

  lemma TableIsCyclic()
    ensures !Acyclic(CallerEdge(TABLE))
  {
    var p := ["a", "b", "a"];
    EdgesOfTable("a", "b");
    EdgesOfTable("b", "a");
    assert IsPath(CallerEdge(TABLE), p) && p[0] == p[|p| - 1];
  }

  lemma TableHasNoSource()
    ensures Sources(TABLE) == {}
  {
    EdgesOfTable("a", "b");
    EdgesOfTable("b", "a");
    EdgesOfTable("a", "c");
    forall u | u in TABLE ensures exists v :: v in TABLE && CallerEdge(TABLE)(v, u) {
      assert u == "a" || u == "b" || u == "c";
      if u == "a" { assert CallerEdge(TABLE)("b", u); } else { assert CallerEdge(TABLE)("a", u); }
    }
  }

  /** Without a source nothing is walked and nothing reached. */
  lemma NothingIsWalked<D>(w: World<D>, stages: map<Hash, Stage<D>>)
    requires Sources(stages) == {}
    ensures Acyclic(WalkEdge(stages)) && AllOrNone(w, stages)
  {
    forall u, v ensures !WalkEdge(stages)(u, v) { assert !ReachedFrom(CallerEdge(stages), Sources(stages), u); }
    RankedIsAcyclic(WalkEdge(stages), map[]);
    assert ReachedStages(stages) == {};
  }

  /** The cycle is discovered, never entered and never noticed: there is no source, and no row at all. */
  lemma CycleIsSilent()
    ensures DiscoveredFrom(CYCLIC, ["c"], TABLE, ["c", "a", "b"])
    ensures EndsWith(CYCLIC, ["c"], Ok(Discovery(TABLE, ["c", "a", "b"], [])))
    ensures !Acyclic(CallerEdge(TABLE)) && Acyclic(WalkEdge(TABLE)) && AllOrNone(CYCLIC, TABLE)
  {
    DiscoveryOfCycle();
    EndIsDiscovered(CYCLIC, ["c"], TABLE, ["c", "a", "b"]);
    TableIsCyclic();
    TableHasNoSource();
    NothingIsWalked(CYCLIC, TABLE);
  }
}

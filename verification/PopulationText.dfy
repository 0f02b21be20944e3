/** What the population writer writes, said of the text and of the order of calls alone. */
module PopulationText {
  import opened Wrappers
  import opened PopulationWriter

  // ----- where each element stands

  /** The elements that must be open, no more and no less, where an element of this name stands; attributes stand anywhere. */
  predicate BelongsIn(name: string, open: seq<string>) {
    if name == "population" then open == []
    else if name == "person" then open == ["population"]
    else if name == "plan" then open == ["population", "person"]
    else if name == "activity" || name == "leg" then open == ["population", "person", "plan"]
    else name == "attributes" || name == "attribute"
  }

  /** Lines are indented by the number of open elements, but within a leg by one less. */
  function Depth(open: seq<string>): int {
    |open| - if "leg" in open then 1 else 0
  }

  /** Where the nesting is broken only attributes may come, at any indentation. */
  predicate Fits(open: Option<seq<string>>, line: Line) {
    match line.token
    case Declaration => open == Some([]) && line.indent == 0
    case Doctype => open == Some([]) && line.indent == 0
    case Open(name) => if open.Some? then BelongsIn(name, open.value) && line.indent == Depth(open.value) else name == "attributes"
    case Whole(name) => if open.Some? then BelongsIn(name, open.value) && line.indent == Depth(open.value) else name == "attribute"
    case Close(name) =>
      if After(open, line.token).Some? then line.indent == Depth(After(open, line.token).value) else name == "attributes"
  }

  predicate AllFit(open: Option<seq<string>>, lines: seq<Line>)
    decreases |lines|
  {
    lines == [] || (Fits(open, lines[0]) && AllFit(After(open, lines[0].token), lines[1..]))
  }

  lemma {:induction false} AllFitAppends(open: Option<seq<string>>, a: seq<Line>, b: seq<Line>)
    ensures AllFit(open, a + b) <==> AllFit(open, a) && AllFit(AfterAll(open, a), b)
    decreases |a|
  {
    if a == [] {
      assert a + b == b;
    } else {
      assert (a + b)[1..] == a[1..] + b;
      AllFitAppends(After(open, a[0].token), a[1..], b);
    }
  }

  lemma OneFits(open: Option<seq<string>>, line: Line)
    requires Fits(open, line)
    ensures AllFit(open, [line])
  {
  }

  lemma {:induction false} LeavesFit(open: seq<string>, n: nat, indent: int)
    requires indent == Depth(open)
    ensures AllFit(Some(open), Leaves(n, indent))
    decreases n
  {
    if n > 0 {
      assert Leaves(n, indent)[1..] == Leaves(n - 1, indent);
      LeavesFit(open, n - 1, indent);
    }
  }

  lemma BlockFits(open: seq<string>, n: nat, indent: int)
    requires indent == Depth(open)
    ensures AllFit(Some(open), Block(n, indent))
  {
    var first, last := [Line(indent, Open("attributes"))], [Line(indent, Close("attributes"))];
    var inner := open + ["attributes"];
    assert inner[..|open|] == open;
    AfterOne(open, first[0]);
    OneFits(Some(open), first[0]);
    LeavesFit(inner, n, indent + 1);
    LeavesOpenNothing(inner, n, indent + 1);
    AfterAllAppends(Some(open), first, Leaves(n, indent + 1));
    AllFitAppends(Some(open), first, Leaves(n, indent + 1));
    OneFits(Some(inner), last[0]);
    AllFitAppends(Some(open), first + Leaves(n, indent + 1), last);
  }

  lemma WrappedFits(open: seq<string>, name: string, n: nat, outer: int, inner: int)
    requires BelongsIn(name, open) && outer == Depth(open) && inner == Depth(open + [name])
    ensures AllFit(Some(open), [Line(outer, Open(name))] + Block(n, inner) + [Line(outer, Close(name))])
  {
    var first, last := [Line(outer, Open(name))], [Line(outer, Close(name))];
    var within := open + [name];
    assert within[..|open|] == open;
    AfterOne(open, first[0]);
    OneFits(Some(open), first[0]);
    BlockFits(within, n, inner);
    BlockOpensNothing(within, n, inner);
    AfterAllAppends(Some(open), first, Block(n, inner));
    AllFitAppends(Some(open), first, Block(n, inner));
    OneFits(Some(within), last[0]);
    AllFitAppends(Some(open), first + Block(n, inner), last);
  }

  lemma StartFits(n: nat)
    ensures AllFit(Some([]), Written(StartPopulation(n), 0))
  {
    var a, b, c := [Line(0, Declaration)], [Line(0, Doctype)], [Line(0, Open("population"))];
    var rest := Preface(n, 1);
    assert Written(StartPopulation(n), 0) == a + (b + (c + rest));
    assert [] + ["population"] == ["population"];
    AllFitAppends(Some([]), a, b + (c + rest));
    AllFitAppends(Some([]), b, c + rest);
    AllFitAppends(Some([]), c, rest);
    AfterOne([], a[0]);
    AfterOne([], b[0]);
    AfterOne([], c[0]);
    if n > 0 { BlockFits(["population"], n, 1); }
  }

  lemma NoLegExpected(s: State)
    ensures "leg" !in Expected(s) && Depth(Expected(s)) == |Expected(s)|
  {
    assert "leg"[0] != "population"[0] && "leg"[0] != "person"[0] && "leg"[0] != "plan"[0] && "leg"[0] != "attributes"[0];
  }

  lemma ClosingFits(open: seq<string>, rest: seq<string>, name: string, line: Line)
    requires open == rest + [name] && line.token == Close(name) && line.indent == Depth(rest)
    ensures AllFit(Some(open), [line])
  {
    assert open[..|rest|] == rest;
    OneFits(Some(open), line);
  }

  /** Every call writes what belongs where the writer is. */
  lemma WrittenFits(s: State, call: Call)
    requires Nested(s) && Accepts(s, call)
    ensures AllFit(Some(Expected(s)), Written(call, s.indent))
  {
    var open, lines := Expected(s), Written(call, s.indent);
    NoLegExpected(s);
    match call {
      case StartPopulation(n) => StartFits(n);
      case AddActivity(n) =>
        if n == 0 { OneFits(Some(open), lines[0]); } else { WrappedFits(open, "activity", n, s.indent, s.indent + 1); }
      case AddLeg => WrappedFits(open, "leg", 1, s.indent, s.indent);
      case EndPopulation => ClosingFits(open, [], "population", lines[0]);
      case EndPerson => ClosingFits(open, ["population"], "person", lines[0]);
      case EndPlan => ClosingFits(open, ["population", "person"], "plan", lines[0]);
      case EndAttributes =>
        NoLegExpected(State(s.saved.value, None, 0, []));
        ClosingFits(open, ElementsOf(s.saved.value), "attributes", lines[0]);
      case _ => OneFits(Some(open), lines[0]);
    }
  }

  /** Once attributes are opened inside attributes the indentation goes on counting them, as long as the text is nested. */
  ghost predicate JammedTidily(s: State) {
    Jammed(s) && (OpenElements(s.output).Some? ==>
      "leg" !in OpenElements(s.output).value && s.indent == |OpenElements(s.output).value|)
  }

  lemma JamIsTidy(s: State)
    requires Nested(s) && s.scope == Attributes
    ensures JammedTidily(Apply(s, StartAttributes))
  {
    AfterAllAppends(Some([]), s.output, Written(StartAttributes, s.indent));
    AfterOne(Expected(s), Written(StartAttributes, s.indent)[0]);
    NoLegExpected(s);
  }

  lemma JammedFits(s: State, call: Call)
    requires JammedTidily(s) && Accepts(s, call)
    ensures AllFit(OpenElements(s.output), Written(call, s.indent)) && JammedTidily(Apply(s, call))
  {
    var line := Written(call, s.indent)[0];
    AfterAllAppends(Some([]), s.output, Written(call, s.indent));
    assert Written(call, s.indent) == [line];
    if OpenElements(s.output).Some? { AfterOne(OpenElements(s.output).value, line); }
  }

  /** In every run that raises nothing each element stands where it belongs, at the indentation of its depth. */
  lemma {:induction false} RunsFit(s: State, calls: seq<Call>)
    requires Nested(s) || JammedTidily(s)
    requires AllFit(Some([]), s.output) && Run(s, calls).Some?
    ensures AllFit(Some([]), Run(s, calls).value.output)
    decreases |calls|
  {
    if calls != [] {
      var call := calls[0];
      AllFitAppends(Some([]), s.output, Written(call, s.indent));
      if Nested(s) {
        WrittenFits(s, call);
        if Jams(s, call) { JamIsTidy(s); } else { NestedStep(s, call); }
      } else {
        JammedFits(s, call);
      }
      RunsFit(Apply(s, call), calls[1..]);
    }
  }

  lemma EveryElementFits(calls: seq<Call>)
    requires Run(START, calls).Some?
    ensures AllFit(Some([]), Run(START, calls).value.output)
  {
    RunsFit(START, calls);
  }

  // ----- which calls may follow each other

  predicate EndsInAttributes(open: seq<string>) {
    open != [] && open[|open| - 1] == "attributes"
  }

  predicate OnlyAttributeCalls(calls: seq<Call>) {
    forall call :: call in calls ==> call.StartAttributes? || call.EndAttributes? || call.AddAttribute?
  }

  /** The call may come where these elements are open; `begun` once there has been a population. */
  predicate MayCome(open: seq<string>, begun: bool, call: Call) {
    match call
    case StartPopulation(_) => open == [] && !begun
    case EndPopulation => open == ["population"]
    case StartPerson => open == ["population"]
    case EndPerson => open == ["population", "person"]
    case StartPlan => open == ["population", "person"]
    case EndPlan => open == ["population", "person", "plan"]
    case AddActivity(_) => open == ["population", "person", "plan"]
    case AddLeg => open == ["population", "person", "plan"]
    case StartAttributes => true
    case AddAttribute => EndsInAttributes(open)
    case EndAttributes => EndsInAttributes(open)
  }

  /** The open elements behind it: a start adds its own, an end takes the last one off. */
  function OpenBehind(open: seq<string>, call: Call): seq<string> {
    match call
    case StartPopulation(_) => open + ["population"]
    case StartPerson => open + ["person"]
    case StartPlan => open + ["plan"]
    case StartAttributes => open + ["attributes"]
    case AddActivity(_) => open
    case AddLeg => open
    case AddAttribute => open
    case _ => if open == [] then [] else open[..|open| - 1]
  }

  /** Every call may come where it comes; behind attributes within attributes only attribute calls may. */
  predicate MayFollow(open: seq<string>, begun: bool, calls: seq<Call>)
    decreases |calls|
  {
    || calls == []
    || (&& MayCome(open, begun, calls[0])
        && if calls[0].StartAttributes? && EndsInAttributes(open) then OnlyAttributeCalls(calls[1..])
           else MayFollow(OpenBehind(open, calls[0]), begun || calls[0].StartPopulation?, calls[1..]))
  }

  /** The population has been started. */
  predicate Begun(s: State) {
    if s.scope == Attributes && s.saved.Some? then s.saved.value != Initial else s.scope != Initial
  }

  lemma {:induction false} JamTakesAttributeCalls(s: State, calls: seq<Call>)
    requires Jammed(s)
    ensures Run(s, calls).Some? <==> OnlyAttributeCalls(calls)
    decreases |calls|
  {
    if calls != [] {
      assert calls == [calls[0]] + calls[1..];
      if Accepts(s, calls[0]) { JamTakesAttributeCalls(Apply(s, calls[0]), calls[1..]); }
    }
  }

  lemma ExpectedTells(s: State)
    requires Nested(s)
    ensures EndsInAttributes(Expected(s)) <==> s.scope == Attributes
    ensures Expected(s) == ["population"] <==> s.scope == Population
    ensures Expected(s) == ["population", "person"] <==> s.scope == Person
    ensures Expected(s) == ["population", "person", "plan"] <==> s.scope == Plan
    ensures Expected(s) == [] <==> s.scope == Initial || s.scope == Finished
  {
    assert "attributes"[0] != "population"[0] && "attributes"[0] != "person"[0] && "attributes"[0] != "plan"[0];
  }

  lemma AcceptedIffMayCome(s: State, call: Call)
    requires Nested(s)
    ensures Accepts(s, call) <==> MayCome(Expected(s), Begun(s), call)
    ensures Jams(s, call) <==> call.StartAttributes? && EndsInAttributes(Expected(s))
  {
    ExpectedTells(s);
  }

  lemma WithoutLast(open: seq<string>, rest: seq<string>, name: string)
    requires open == rest + [name]
    ensures open[..|open| - 1] == rest
  {
  }

  lemma ScopesAreNested()
    ensures ElementsOf(Population) == ElementsOf(Initial) + ["population"] == ElementsOf(Finished) + ["population"]
    ensures ElementsOf(Person) == ElementsOf(Population) + ["person"]
    ensures ElementsOf(Plan) == ElementsOf(Person) + ["plan"]
  {
  }

  lemma EndIsBehind(s: State, call: Call)
    requires (s.scope == Attributes ==> s.saved.Some?) && !Jammed(s) && Accepts(s, call)
    requires call.EndPopulation? || call.EndPerson? || call.EndPlan? || call.EndAttributes?
    ensures Expected(Apply(s, call)) == OpenBehind(Expected(s), call)
  {
    ScopesAreNested();
    var open, rest := Expected(s), Expected(Apply(s, call));
    match call {
      case EndPopulation => WithoutLast(open, rest, "population");
      case EndPerson => WithoutLast(open, rest, "person");
      case EndPlan => WithoutLast(open, rest, "plan");
      case EndAttributes => WithoutLast(open, rest, "attributes");
    }
    assert open != [];
  }

  lemma StartIsBehind(s: State, call: Call)
    requires (s.scope == Attributes ==> s.saved.Some?) && !Jammed(s) && Accepts(s, call) && !Jams(s, call)
    requires call.StartPopulation? || call.StartPerson? || call.StartPlan? || call.StartAttributes?
    ensures Expected(Apply(s, call)) == OpenBehind(Expected(s), call)
  {
    ScopesAreNested();
  }

  lemma AppliedIsBehind(s: State, call: Call)
    requires (s.scope == Attributes ==> s.saved.Some?) && !Jammed(s) && Accepts(s, call) && !Jams(s, call)
    ensures Expected(Apply(s, call)) == OpenBehind(Expected(s), call)
    ensures Begun(Apply(s, call)) == (Begun(s) || call.StartPopulation?)
  {
    if call.StartPopulation? || call.StartPerson? || call.StartPlan? || call.StartAttributes? {
      StartIsBehind(s, call);
    } else if call.EndPopulation? || call.EndPerson? || call.EndPlan? || call.EndAttributes? {
      EndIsBehind(s, call);
    }
  }

  /** A run raises nothing exactly when every call may come where it comes. */
  lemma {:induction false} RunsIffCallsFollow(s: State, calls: seq<Call>)
    requires Nested(s)
    ensures Run(s, calls).Some? <==> MayFollow(Expected(s), Begun(s), calls)
    decreases |calls|
  {
    if calls != [] {
      var call := calls[0];
      AcceptedIffMayCome(s, call);
      if Accepts(s, call) {
        if Jams(s, call) {
          JamTakesAttributeCalls(Apply(s, call), calls[1..]);
        } else {
          NestedStep(s, call);
          AppliedIsBehind(s, call);
          RunsIffCallsFollow(Apply(s, call), calls[1..]);
        }
      }
    }
  }

  // ----- what a call emits

  /** The elements of a text in their order. */
  function Names(lines: seq<Line>): seq<string> {
    if lines == [] then []
    else (match lines[0].token case Open(name) => [name] case Whole(name) => [name] case _ => []) + Names(lines[1..])
  }

  function Times(n: nat, name: string): seq<string> {
    if n == 0 then [] else [name] + Times(n - 1, name)
  }

  lemma {:induction false} NamesAppend(a: seq<Line>, b: seq<Line>)
    ensures Names(a + b) == Names(a) + Names(b)
  {
    if a == [] {
      assert a + b == b;
    } else {
      assert (a + b)[1..] == a[1..] + b;
      NamesAppend(a[1..], b);
    }
  }

  lemma {:induction false} NamesOfLeaves(n: nat, indent: int)
    ensures Names(Leaves(n, indent)) == Times(n, "attribute")
  {
    if n > 0 {
      assert Leaves(n, indent)[1..] == Leaves(n - 1, indent);
      NamesOfLeaves(n - 1, indent);
    }
  }

  lemma NamesOfOne(line: Line)
    ensures Names([line]) == match line.token case Open(name) => [name] case Whole(name) => [name] case _ => []
  {
    assert Names([line][1..]) == [];
  }

  lemma NamesOfBlock(n: nat, indent: int)
    ensures Names(Block(n, indent)) == ["attributes"] + Times(n, "attribute")
  {
    var first, last := [Line(indent, Open("attributes"))], [Line(indent, Close("attributes"))];
    NamesOfOne(first[0]);
    NamesOfOne(last[0]);
    NamesOfLeaves(n, indent + 1);
    NamesAppend(first, Leaves(n, indent + 1));
    NamesAppend(first + Leaves(n, indent + 1), last);
  }

  lemma NamesOfWrapped(name: string, n: nat, outer: int, inner: int)
    ensures Names([Line(outer, Open(name))] + Block(n, inner) + [Line(outer, Close(name))])
         == [name] + (["attributes"] + Times(n, "attribute"))
  {
    var first, last := [Line(outer, Open(name))], [Line(outer, Close(name))];
    NamesOfOne(first[0]);
    NamesOfOne(last[0]);
    NamesOfBlock(n, inner);
    NamesAppend(first, Block(n, inner));
    NamesAppend(first + Block(n, inner), last);
  }

  /** The elements of each call, with as many attributes as it is given; an end has none. */
  function Emits(call: Call): seq<string> {
    match call
    case StartPopulation(n) => ["population"] + (if n == 0 then [] else ["attributes"] + Times(n, "attribute"))
    case StartPerson => ["person"]
    case StartPlan => ["plan"]
    case StartAttributes => ["attributes"]
    case AddAttribute => ["attribute"]
    case AddActivity(n) => ["activity"] + (if n == 0 then [] else ["attributes"] + Times(n, "attribute"))
    case AddLeg => ["leg", "attributes", "attribute"]
    case EndPopulation => []
    case EndPerson => []
    case EndPlan => []
    case EndAttributes => []
  }

  function EmitsAll(calls: seq<Call>): seq<string> {
    if calls == [] then [] else Emits(calls[0]) + EmitsAll(calls[1..])
  }

  lemma CallEmits(call: Call, indent: int)
    ensures Names(Written(call, indent)) == Emits(call)
  {
    match call {
      case StartPopulation(n) =>
        var a, b, c := [Line(indent, Declaration)], [Line(indent, Doctype)], [Line(indent, Open("population"))];
        assert Written(call, indent) == a + (b + (c + Preface(n, indent + 1)));
        NamesAppend(a, b + (c + Preface(n, indent + 1)));
        NamesAppend(b, c + Preface(n, indent + 1));
        NamesAppend(c, Preface(n, indent + 1));
        NamesOfOne(a[0]);
        NamesOfOne(b[0]);
        NamesOfOne(c[0]);
        if n > 0 { NamesOfBlock(n, indent + 1); }
      case AddActivity(n) =>
        if n == 0 { NamesOfOne(Written(call, indent)[0]); } else { NamesOfWrapped("activity", n, indent, indent + 1); }
      case AddLeg =>
        NamesOfWrapped("leg", 1, indent, indent);
        assert Times(0, "attribute") == [] && Times(1, "attribute") == ["attribute"];
        assert ["leg"] + (["attributes"] + ["attribute"]) == ["leg", "attributes", "attribute"];
      case _ => NamesOfOne(Written(call, indent)[0]);
    }
  }

  lemma Associate(a: seq<string>, b: seq<string>, c: seq<string>)
    ensures a + b + c == a + (b + c)
  {
  }

  /** A run writes the elements of its calls, one after the other, and no others. */
  lemma {:induction false} RunEmits(s: State, calls: seq<Call>)
    requires Run(s, calls).Some?
    ensures Names(Run(s, calls).value.output) == Names(s.output) + EmitsAll(calls)
    decreases |calls|
  {
    if calls != [] {
      var next := Apply(s, calls[0]);
      CallEmits(calls[0], s.indent);
      NamesAppend(s.output, Written(calls[0], s.indent));
      RunEmits(next, calls[1..]);
      Associate(Names(s.output), Emits(calls[0]), EmitsAll(calls[1..]));
    }
  }

  // ----- an ordinary run

  /** Two activities with so many attributes, and the leg between them, in a plan; then `rest`. */
  function PlanCalls(n: nat, m: nat, rest: seq<Call>): seq<Call> {
    [StartPlan] + ([Call.AddActivity(n)] + LegCalls(m, rest))
  }

  function LegCalls(m: nat, rest: seq<Call>): seq<Call> {
    [Call.AddLeg] + ([Call.AddActivity(m)] + ([Call.EndPlan] + rest))
  }

  /** A person with such a plan, alone in the population. */
  function OrdinaryCalls(n: nat, m: nat): seq<Call> {
    [Call.StartPopulation(0)] + ([Call.StartPerson] + PlanCalls(n, m, [Call.EndPerson] + [Call.EndPopulation]))
  }

  lemma FollowsFirst(open: seq<string>, next: seq<string>, begun: bool, call: Call, rest: seq<Call>)
    requires MayCome(open, begun, call) && !call.StartAttributes? && next == OpenBehind(open, call)
    requires MayFollow(next, begun || call.StartPopulation?, rest)
    ensures MayFollow(open, begun, [call] + rest)
  {
    assert ([call] + rest)[1..] == rest;
  }

  lemma EndCallsFollow()
    ensures MayFollow(["population", "person"], true, [Call.EndPerson] + [Call.EndPopulation])
  {
    WithoutLast(["population", "person"], ["population"], "person");
    WithoutLast(["population"], [], "population");
    assert [Call.EndPopulation] == [Call.EndPopulation] + [];
    FollowsFirst(["population"], [], true, Call.EndPopulation, []);
    FollowsFirst(["population", "person"], ["population"], true, Call.EndPerson, [Call.EndPopulation]);
  }

  lemma LegCallsFollow(m: nat, rest: seq<Call>)
    requires MayFollow(["population", "person"], true, rest)
    ensures MayFollow(["population", "person", "plan"], true, LegCalls(m, rest))
  {
    var person, plan := ["population", "person"], ["population", "person", "plan"];
    WithoutLast(plan, person, "plan");
    FollowsFirst(plan, person, true, Call.EndPlan, rest);
    FollowsFirst(plan, plan, true, Call.AddActivity(m), [Call.EndPlan] + rest);
    FollowsFirst(plan, plan, true, Call.AddLeg, [Call.AddActivity(m)] + ([Call.EndPlan] + rest));
  }

  lemma PlanCallsFollow(n: nat, m: nat, rest: seq<Call>)
    requires MayFollow(["population", "person"], true, rest)
    ensures MayFollow(["population", "person"], true, PlanCalls(n, m, rest))
  {
    var person, plan := ["population", "person"], ["population", "person", "plan"];
    assert person + ["plan"] == plan;
    LegCallsFollow(m, rest);
    FollowsFirst(plan, plan, true, Call.AddActivity(n), LegCalls(m, rest));
    FollowsFirst(person, plan, true, Call.StartPlan, [Call.AddActivity(n)] + LegCalls(m, rest));
  }

  lemma OrdinaryCallsFollow(n: nat, m: nat)
    ensures MayFollow([], false, OrdinaryCalls(n, m))
  {
    var rest := PlanCalls(n, m, [Call.EndPerson] + [Call.EndPopulation]);
    EndCallsFollow();
    PlanCallsFollow(n, m, [Call.EndPerson] + [Call.EndPopulation]);
    assert [] + ["population"] == ["population"] && ["population"] + ["person"] == ["population", "person"];
    FollowsFirst(["population"], ["population", "person"], true, Call.StartPerson, rest);
    FollowsFirst([], ["population"], false, Call.StartPopulation(0), [Call.StartPerson] + rest);
  }

  /** A run whose last call ends the population is finished. */
  lemma {:induction false} EndsFinished(s: State, calls: seq<Call>)
    requires calls != [] && calls[|calls| - 1].EndPopulation? && Run(s, calls).Some?
    ensures Run(s, calls).value.scope == Finished
    decreases |calls|
  {
    if |calls| == 1 {
      assert calls[1..] == [];
    } else {
      EndsFinished(Apply(s, calls[0]), calls[1..]);
    }
  }

  lemma {:induction false} NothingStrays(s: State, calls: seq<Call>)
    requires forall call :: call in calls ==> !call.StartAttributes?
    ensures !StraysSomewhere(s, calls)
    decreases |calls|
  {
    if calls != [] {
      assert calls[0] in calls;
      if Accepts(s, calls[0]) { NothingStrays(Apply(s, calls[0]), calls[1..]); }
    }
  }

  lemma OrdinaryCallsAre(n: nat, m: nat)
    ensures forall call :: call in OrdinaryCalls(n, m) ==> !call.StartAttributes?
    ensures |OrdinaryCalls(n, m)| == 9 && OrdinaryCalls(n, m)[8].EndPopulation?
  {
    var rest := [Call.EndPerson] + [Call.EndPopulation];
    assert LegCalls(m, rest) == [Call.AddLeg, Call.AddActivity(m), Call.EndPlan, Call.EndPerson, Call.EndPopulation];
  }

  /** A person with a plan of two activities and a leg: the run finishes and writes one document with just these elements. */
  lemma OrdinaryRun(n: nat, m: nat)
    ensures var end := Run(START, OrdinaryCalls(n, m));
            && end.Some? && end.value.scope == Finished && IsDocument(end.value.output)
            && Names(end.value.output) == EmitsAll(OrdinaryCalls(n, m))
  {
    var calls := OrdinaryCalls(n, m);
    OrdinaryCallsFollow(n, m);
    RunsIffCallsFollow(START, calls);
    OrdinaryCallsAre(n, m);
    EndsFinished(START, calls);
    NothingStrays(START, calls);
    FinishedIsDocument(calls);
    RunEmits(START, calls);
  }
}

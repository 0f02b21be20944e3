/** `PopulationWriter`: scopes, indentation and the elements it leaves open. */
module PopulationWriter {
  import opened Wrappers

  datatype Token = Declaration | Doctype | Open(name: string) | Close(name: string) | Whole(name: string)

  /** One written line: its indentation and the markup on it. */
  datatype Line = Line(indent: int, token: Token)

  datatype Scope = Initial | Population | Person | Plan | Attributes | Finished

  /** `saved` is the scope attributes were last opened in, once they have been. */
  datatype State = State(scope: Scope, saved: Option<Scope>, indent: int, output: seq<Line>)

  datatype Call =
    | StartPopulation(attributes: nat) | EndPopulation
    | StartPerson | EndPerson
    | StartPlan | EndPlan
    | StartAttributes | EndAttributes | AddAttribute
    | AddActivity(attributes: nat) | AddLeg

  const START := State(Initial, None, 0, [])

  // ----- the open elements of a text

  /** Open elements after one more piece of markup; `None` if an end tag does not match. */
  function After(stack: Option<seq<string>>, token: Token): Option<seq<string>> {
    if stack.None? then None
    else match token
      case Open(name) => Some(stack.value + [name])
      case Close(name) =>
        if stack.value != [] && stack.value[|stack.value| - 1] == name then Some(stack.value[..|stack.value| - 1]) else None
      case _ => stack
  }

  function AfterAll(stack: Option<seq<string>>, lines: seq<Line>): Option<seq<string>>
    decreases |lines|
  {
    if lines == [] then stack else AfterAll(After(stack, lines[0].token), lines[1..])
  }

  /** Open elements of a prefix of a well-nested document; `None` if it is not one. */
  function OpenElements(output: seq<Line>): Option<seq<string>> {
    AfterAll(Some([]), output)
  }

  lemma {:induction false} AfterAllAppends(stack: Option<seq<string>>, a: seq<Line>, b: seq<Line>)
    ensures AfterAll(stack, a + b) == AfterAll(AfterAll(stack, a), b)
    decreases |a|
  {
    if a == [] {
      assert a + b == b;
    } else {
      assert (a + b)[1..] == a[1..] + b;
      AfterAllAppends(After(stack, a[0].token), a[1..], b);
    }
  }

  lemma {:induction false} NothingMendsNesting(lines: seq<Line>)
    ensures AfterAll(None, lines) == None
  {
    if lines != [] { NothingMendsNesting(lines[1..]); }
  }

  // ----- what each call writes

  function Leaves(n: nat, indent: int): seq<Line> {
    seq(n, _ => Line(indent, Whole("attribute")))
  }

  /** An attribute block of `n` attributes whose tags stand at `indent`. */
  function Block(n: nat, indent: int): seq<Line> {
    [Line(indent, Open("attributes"))] + Leaves(n, indent + 1) + [Line(indent, Close("attributes"))]
  }

  function Preface(n: nat, indent: int): seq<Line> {
    if n > 0 then Block(n, indent) else []
  }

  /** The scope a call requires; `None` if it takes any. */
  function Required(call: Call): Option<Scope> {
    match call
    case StartPopulation(_) => Some(Initial)
    case EndPopulation => Some(Population)
    case StartPerson => Some(Population)
    case EndPerson => Some(Person)
    case StartPlan => Some(Person)
    case EndPlan => Some(Plan)
    case StartAttributes => None
    case EndAttributes => Some(Attributes)
    case AddAttribute => Some(Attributes)
    case AddActivity(_) => Some(Plan)
    case AddLeg => Some(Plan)
  }

  predicate Accepts(s: State, call: Call) {
    (Required(call).Some? ==> s.scope == Required(call).value) && (call.EndAttributes? ==> s.saved.Some?)
  }

  function Written(call: Call, indent: int): seq<Line> {
    match call
    case StartPopulation(n) =>
      [Line(indent, Declaration), Line(indent, Doctype), Line(indent, Open("population"))] + Preface(n, indent + 1)
    case EndPopulation => [Line(indent - 1, Close("population"))]
    case StartPerson => [Line(indent, Open("person"))]
    case EndPerson => [Line(indent - 1, Close("person"))]
    case StartPlan => [Line(indent, Open("plan"))]
    case EndPlan => [Line(indent - 1, Close("plan"))]
    case StartAttributes => [Line(indent, Open("attributes"))]
    case EndAttributes => [Line(indent - 1, Close("attributes"))]
    case AddAttribute => [Line(indent, Whole("attribute"))]
    case AddActivity(n) =>
      if n == 0 then [Line(indent, Whole("activity"))]
      else [Line(indent, Open("activity"))] + Block(n, indent + 1) + [Line(indent, Close("activity"))]
    case AddLeg => [Line(indent, Open("leg"))] + Block(1, indent) + [Line(indent, Close("leg"))]
  }

  function Shift(call: Call): int {
    match call
    case StartPopulation(_) => 1
    case EndPopulation => -1
    case StartPerson => 1
    case EndPerson => -1
    case StartPlan => 1
    case EndPlan => -1
    case StartAttributes => 1
    case EndAttributes => -1
    case _ => 0
  }

  function NextScope(s: State, call: Call): Scope
    requires Accepts(s, call)
  {
    match call
    case StartPopulation(_) => Population
    case EndPopulation => Finished
    case StartPerson => Person
    case EndPerson => Population
    case StartPlan => Plan
    case EndPlan => Person
    case StartAttributes => Attributes
    case EndAttributes => s.saved.value
    case _ => s.scope
  }

  function NextSaved(s: State, call: Call): Option<Scope> {
    if call.StartAttributes? || call.AddLeg? then Some(s.scope) else s.saved
  }

  function Apply(s: State, call: Call): State
    requires Accepts(s, call)
  {
    State(NextScope(s, call), NextSaved(s, call), s.indent + Shift(call), s.output + Written(call, s.indent))
  }

  /** The state after all calls; `None` if one of them raises. */
  function Run(s: State, calls: seq<Call>): Option<State>
    decreases |calls|
  {
    if calls == [] then Some(s)
    else if Accepts(s, calls[0]) then Run(Apply(s, calls[0]), calls[1..])
    else None
  }

  lemma LegLines(before: seq<Line>, indent: int)
    ensures before + [Line(indent, Open("leg"))] + [Line(indent, Open("attributes"))] + [Line(indent + 1, Whole("attribute"))]
              + [Line(indent, Close("attributes"))] + [Line(indent, Close("leg"))]
            == before + Written(AddLeg, indent)
  {
    assert Leaves(1, indent + 1) == [Line(indent + 1, Whole("attribute"))];
  }

  // ----- the writer object

  class Writer {
    var scope: Scope
    var saved: Option<Scope>
    var indent: int
    var output: seq<Line>

    constructor ()
      ensures View() == START
    {
      scope, saved, indent, output := Initial, None, 0, [];
    }

    function View(): State reads this {
      State(scope, saved, indent, output)
    }

    method WriteLine(token: Token)
      modifies this`output
      ensures output == old(output) + [Line(indent, token)]
    {
      output := output + [Line(indent, token)];
    }

    method WriteBlock(n: nat)
      modifies this`output, this`indent
      ensures output == old(output) + Block(n, old(indent)) && indent == old(indent)
    {
      WriteLine(Open("attributes"));
      indent := indent + 1;
      for i := 0 to n
        invariant indent == old(indent) + 1
        invariant output == old(output) + [Line(old(indent), Open("attributes"))] + Leaves(i, indent)
      {
        WriteLine(Whole("attribute"));
        assert Leaves(i + 1, indent) == Leaves(i, indent) + [Line(indent, Whole("attribute"))];
      }
      indent := indent - 1;
      WriteLine(Close("attributes"));
    }

    method StartPopulation(attributes: nat) returns (ok: bool)
      modifies this
      ensures ok == Accepts(old(View()), Call.StartPopulation(attributes))
      ensures View() == if ok then Apply(old(View()), Call.StartPopulation(attributes)) else old(View())
    {
      if scope != Initial { return false; }
      WriteLine(Declaration);
      WriteLine(Doctype);
      WriteLine(Open("population"));
      scope := Population;
      indent := indent + 1;
      if attributes > 0 { WriteBlock(attributes); }
      ok := true;
    }

    method EndPopulation() returns (ok: bool)
      modifies this
      ensures ok == Accepts(old(View()), Call.EndPopulation)
      ensures View() == if ok then Apply(old(View()), Call.EndPopulation) else old(View())
    {
      if scope != Population { return false; }
      indent := indent - 1;
      WriteLine(Close("population"));
      scope := Finished;
      ok := true;
    }

    method StartPerson() returns (ok: bool)
      modifies this
      ensures ok == Accepts(old(View()), Call.StartPerson)
      ensures View() == if ok then Apply(old(View()), Call.StartPerson) else old(View())
    {
      if scope != Population { return false; }
      WriteLine(Open("person"));
      scope := Person;
      indent := indent + 1;
      ok := true;
    }

    method EndPerson() returns (ok: bool)
      modifies this
      ensures ok == Accepts(old(View()), Call.EndPerson)
      ensures View() == if ok then Apply(old(View()), Call.EndPerson) else old(View())
    {
      if scope != Person { return false; }
      indent := indent - 1;
      scope := Population;
      WriteLine(Close("person"));
      ok := true;
    }

    method StartAttributes() returns (ok: bool)
      modifies this
      ensures ok
      ensures View() == Apply(old(View()), Call.StartAttributes)
    {
      WriteLine(Open("attributes"));
      indent := indent + 1;
      saved := Some(scope);
      scope := Attributes;
      ok := true;
    }

    method EndAttributes() returns (ok: bool)
      modifies this
      ensures ok == Accepts(old(View()), Call.EndAttributes)
      ensures View() == if ok then Apply(old(View()), Call.EndAttributes) else old(View())
    {
      if scope != Attributes || saved.None? { return false; }
      indent := indent - 1;
      scope := saved.value;
      WriteLine(Close("attributes"));
      ok := true;
    }

    method AddAttribute() returns (ok: bool)
      modifies this
      ensures ok == Accepts(old(View()), Call.AddAttribute)
      ensures View() == if ok then Apply(old(View()), Call.AddAttribute) else old(View())
    {
      if scope != Attributes { return false; }
      WriteLine(Whole("attribute"));
      ok := true;
    }

    method StartPlan() returns (ok: bool)
      modifies this
      ensures ok == Accepts(old(View()), Call.StartPlan)
      ensures View() == if ok then Apply(old(View()), Call.StartPlan) else old(View())
    {
      if scope != Person { return false; }
      WriteLine(Open("plan"));
      indent := indent + 1;
      scope := Plan;
      ok := true;
    }

    method EndPlan() returns (ok: bool)
      modifies this
      ensures ok == Accepts(old(View()), Call.EndPlan)
      ensures View() == if ok then Apply(old(View()), Call.EndPlan) else old(View())
    {
      if scope != Plan { return false; }
      indent := indent - 1;
      scope := Person;
      WriteLine(Close("plan"));
      ok := true;
    }

    method AddActivity(attributes: nat) returns (ok: bool)
      modifies this
      ensures ok == Accepts(old(View()), Call.AddActivity(attributes))
      ensures View() == if ok then Apply(old(View()), Call.AddActivity(attributes)) else old(View())
    {
      if scope != Plan { return false; }
      if attributes > 0 {
        WriteLine(Open("activity"));
        indent := indent + 1;
        WriteBlock(attributes);
        indent := indent - 1;
        WriteLine(Close("activity"));
      } else {
        WriteLine(Whole("activity"));
      }
      ok := true;
    }

    /** The leg's attributes go through the public calls, so they stand at the indentation of the leg itself. */
    method AddLeg() returns (ok: bool)
      modifies this
      ensures ok == Accepts(old(View()), Call.AddLeg)
      ensures View() == if ok then Apply(old(View()), Call.AddLeg) else old(View())
    {
      if scope != Plan { return false; }
      LegLines(output, indent);
      WriteLine(Open("leg"));
      ok := StartAttributes();
      ok := AddAttribute();
      ok := EndAttributes();
      WriteLine(Close("leg"));
    }
  }

  // ----- well-nestedness over whole runs

  /** The elements open in a scope. */
  function ElementsOf(scope: Scope): seq<string> {
    match scope
    case Initial => []
    case Population => ["population"]
    case Person => ["population", "person"]
    case Plan => ["population", "person", "plan"]
    case Attributes => ["attributes"]
    case Finished => []
  }

  /** Attributes have been opened inside attributes: the scope to return to is lost. */
  predicate Jammed(s: State) {
    s.scope == Attributes && s.saved == Some(Attributes)
  }

  /** The open elements as scope and saved scope fix them. */
  function Expected(s: State): seq<string> {
    if s.scope == Attributes && s.saved.Some? then ElementsOf(s.saved.value) + ["attributes"] else ElementsOf(s.scope)
  }

  ghost predicate Nested(s: State) {
    && OpenElements(s.output) == Some(Expected(s))
    && s.indent == |Expected(s)|
    && (s.scope == Attributes ==> s.saved.Some?)
    && !Jammed(s)
  }

  lemma {:induction false} LeavesOpenNothing(stack: seq<string>, n: nat, indent: int)
    ensures AfterAll(Some(stack), Leaves(n, indent)) == Some(stack)
    decreases n
  {
    if n > 0 {
      assert Leaves(n, indent)[1..] == Leaves(n - 1, indent);
      LeavesOpenNothing(stack, n - 1, indent);
    }
  }

  lemma AfterOne(stack: seq<string>, line: Line)
    ensures AfterAll(Some(stack), [line]) == After(Some(stack), line.token)
  {
  }

  lemma BlockOpensNothing(stack: seq<string>, n: nat, indent: int)
    ensures AfterAll(Some(stack), Block(n, indent)) == Some(stack)
  {
    var first, last := [Line(indent, Open("attributes"))], [Line(indent, Close("attributes"))];
    var inner := stack + ["attributes"];
    AfterOne(stack, first[0]);
    AfterAllAppends(Some(stack), first, Leaves(n, indent + 1));
    LeavesOpenNothing(inner, n, indent + 1);
    AfterAllAppends(Some(stack), first + Leaves(n, indent + 1), last);
    AfterOne(inner, last[0]);
    assert inner[..|inner| - 1] == stack;
  }

  /** A block between a pair of tags leaves the open elements as they were. */
  lemma WrappedOpensNothing(stack: seq<string>, name: string, n: nat, outer: int, inner: int)
    ensures AfterAll(Some(stack), [Line(outer, Open(name))] + Block(n, inner) + [Line(outer, Close(name))]) == Some(stack)
  {
    var first, last := [Line(outer, Open(name))], [Line(outer, Close(name))];
    var within := stack + [name];
    AfterOne(stack, first[0]);
    AfterAllAppends(Some(stack), first, Block(n, inner));
    BlockOpensNothing(within, n, inner);
    AfterAllAppends(Some(stack), first + Block(n, inner), last);
    AfterOne(within, last[0]);
    assert within[..|within| - 1] == stack;
  }

  lemma StartOpensPopulation(n: nat)
    ensures AfterAll(Some([]), Written(StartPopulation(n), 0)) == Some(["population"])
  {
    var a, b, c := [Line(0, Declaration)], [Line(0, Doctype)], [Line(0, Open("population"))];
    var rest := Preface(n, 1);
    assert Written(StartPopulation(n), 0) == a + (b + (c + rest));
    assert [] + ["population"] == ["population"];
    AfterAllAppends(Some([]), a, b + (c + rest));
    AfterAllAppends(Some([]), b, c + rest);
    AfterAllAppends(Some([]), c, rest);
    AfterOne([], a[0]);
    AfterOne([], b[0]);
    AfterOne([], c[0]);
    if n > 0 { BlockOpensNothing(["population"], n, 1); }
  }

  lemma Closes(stack: seq<string>, rest: seq<string>, name: string, line: Line)
    requires stack == rest + [name] && line.token == Close(name)
    ensures AfterAll(Some(stack), [line]) == Some(rest)
  {
    AfterOne(stack, line);
    assert stack[..|rest|] == rest;
  }

  /** What a call writes turns the elements its scope stands for into those of the next scope. */
  lemma WrittenMovesScope(s: State, call: Call)
    requires Nested(s) && Accepts(s, call) && !Jams(s, call)
    ensures AfterAll(Some(Expected(s)), Written(call, s.indent)) == Some(Expected(Apply(s, call)))
  {
    var stack, lines := Expected(s), Written(call, s.indent);
    match call {
      case StartPopulation(n) => StartOpensPopulation(n);
      case AddActivity(n) =>
        if n == 0 { AfterOne(stack, lines[0]); } else { WrappedOpensNothing(stack, "activity", n, s.indent, s.indent + 1); }
      case AddLeg => WrappedOpensNothing(stack, "leg", 1, s.indent, s.indent);
      case EndPopulation => Closes(stack, ElementsOf(Finished), "population", lines[0]);
      case EndPerson => Closes(stack, ElementsOf(Population), "person", lines[0]);
      case EndPlan => Closes(stack, ElementsOf(Person), "plan", lines[0]);
      case EndAttributes => Closes(stack, ElementsOf(s.saved.value), "attributes", lines[0]);
      case StartPerson =>
        AfterOne(stack, lines[0]);
        assert ElementsOf(Person) == stack + ["person"];
      case StartPlan =>
        AfterOne(stack, lines[0]);
        assert ElementsOf(Plan) == stack + ["plan"];
      case _ => AfterOne(stack, lines[0]);
    }
  }

  /** The call that opens attributes inside attributes. */
  predicate Jams(s: State, call: Call) {
    call.StartAttributes? && s.scope == Attributes
  }

  /** Some call of a run opens attributes inside attributes. */
  predicate JamsSomewhere(s: State, calls: seq<Call>)
    decreases |calls|
  {
    calls != [] && Accepts(s, calls[0]) && (Jams(s, calls[0]) || JamsSomewhere(Apply(s, calls[0]), calls[1..]))
  }

  lemma NestedStep(s: State, call: Call)
    requires Nested(s) && Accepts(s, call) && !Jams(s, call)
    ensures Nested(Apply(s, call))
  {
    AfterAllAppends(Some([]), s.output, Written(call, s.indent));
    WrittenMovesScope(s, call);
  }

  /** A writer that does not raise is properly nested, at an indentation equal to its depth, until it jams. */
  lemma {:induction false} RunsAreNestedOrJammed(s: State, calls: seq<Call>)
    requires Nested(s) && Run(s, calls).Some?
    ensures if JamsSomewhere(s, calls) then Jammed(Run(s, calls).value) else Nested(Run(s, calls).value)
    decreases |calls|
  {
    if calls == [] {
    } else if Jams(s, calls[0]) {
      JamIsPermanent(Apply(s, calls[0]), calls[1..]);
    } else {
      NestedStep(s, calls[0]);
      RunsAreNestedOrJammed(Apply(s, calls[0]), calls[1..]);
    }
  }

  /** No run leaves the attributes once they were opened inside attributes: nothing but more of them is accepted. */
  lemma {:induction false} JamIsPermanent(s: State, calls: seq<Call>)
    requires Jammed(s) && Run(s, calls).Some?
    ensures Jammed(Run(s, calls).value)
    ensures forall call :: call in calls ==> call in {StartAttributes, EndAttributes, AddAttribute}
    decreases |calls|
  {
    if calls != [] {
      JamIsPermanent(Apply(s, calls[0]), calls[1..]);
      assert calls == [calls[0]] + calls[1..];
    }
  }

  /** Whatever was called, a finished document has no open element. */
  lemma FinishedMeansClosed(calls: seq<Call>)
    requires Run(START, calls).Some? && Run(START, calls).value.scope == Finished
    ensures OpenElements(Run(START, calls).value.output) == Some([]) && Run(START, calls).value.indent == 0
  {
    RunsAreNestedOrJammed(START, calls);
  }

  // ----- what a jammed writer can still do

  function Repeat(call: Call, n: nat): seq<Call> {
    seq(n, _ => call)
  }

  /** From a jammed writer whose text is still nested, closing once more than there are open elements breaks the text. */
  lemma {:induction false} JamBreaksNesting(s: State, n: nat)
    requires Jammed(s) && OpenElements(s.output).Some? && n == |OpenElements(s.output).value| + 1
    ensures Run(s, Repeat(EndAttributes, n)).Some?
    ensures OpenElements(Run(s, Repeat(EndAttributes, n)).value.output) == None
    decreases n
  {
    var next := Apply(s, EndAttributes);
    var stack := OpenElements(s.output).value;
    var line := Line(s.indent - 1, Close("attributes"));
    AfterAllAppends(Some([]), s.output, [line]);
    AfterOne(stack, line);
    assert Repeat(EndAttributes, n)[1..] == Repeat(EndAttributes, n - 1);
    if OpenElements(next.output).None? {
      BrokenStaysBroken(next, Repeat(EndAttributes, n - 1));
      EndsForever(next, n - 1);
    } else {
      JamBreaksNesting(next, n - 1);
    }
  }

  lemma {:induction false} EndsForever(s: State, n: nat)
    requires Jammed(s)
    ensures Run(s, Repeat(EndAttributes, n)).Some?
    decreases n
  {
    if n > 0 {
      assert Repeat(EndAttributes, n)[1..] == Repeat(EndAttributes, n - 1);
      EndsForever(Apply(s, EndAttributes), n - 1);
    }
  }

  lemma {:induction false} BrokenStaysBroken(s: State, calls: seq<Call>)
    requires OpenElements(s.output).None?
    ensures Run(s, calls).Some? ==> OpenElements(Run(s, calls).value.output).None?
    decreases |calls|
  {
    if calls != [] && Accepts(s, calls[0]) {
      AfterAllAppends(Some([]), s.output, Written(calls[0], s.indent));
      NothingMendsNesting(Written(calls[0], s.indent));
      BrokenStaysBroken(Apply(s, calls[0]), calls[1..]);
    }
  }

  // ----- when a jammed text stays nested

  /** How many more attribute blocks the calls end than they start. */
  function Excess(calls: seq<Call>): int {
    if calls == [] then 0
    else (if calls[0].EndAttributes? then 1 else if calls[0].StartAttributes? then -1 else 0) + Excess(calls[1..])
  }

  /** At some point the calls have ended more than `depth` attribute blocks too many. */
  predicate Overdraws(depth: nat, calls: seq<Call>) {
    exists i :: 0 <= i <= |calls| && Excess(calls[..i]) > depth
  }

  /** The calls after the one that jams. */
  function AfterJam(s: State, calls: seq<Call>): seq<Call>
    requires JamsSomewhere(s, calls)
    decreases |calls|
  {
    if Jams(s, calls[0]) then calls[1..] else AfterJam(Apply(s, calls[0]), calls[1..])
  }

  function Blocks(n: nat): seq<string> {
    seq(n, _ => "attributes")
  }

  lemma OverdrawsStep(depth: nat, calls: seq<Call>)
    requires calls != []
    ensures var left := depth - Excess([calls[0]]);
            Overdraws(depth, calls) <==> left < 0 || Overdraws(left, calls[1..])
  {
    var left := depth - Excess([calls[0]]);
    assert calls[..1] == [calls[0]];
    assert calls[..0] == [];
    if i :| 0 <= i <= |calls| && Excess(calls[..i]) > depth {
      assert calls[..i][1..] == calls[1..][..i - 1];
    }
    if left >= 0 && Overdraws(left, calls[1..]) {
      var i :| 0 <= i <= |calls[1..]| && Excess(calls[1..][..i]) > left;
      assert calls[..i + 1][1..] == calls[1..][..i];
    }
  }

  /** One attribute call on top of `depth` open blocks. */
  lemma JammedCallMoves(base: seq<string>, depth: nat, call: Call, indent: int)
    requires base == [] || base[|base| - 1] != "attributes"
    requires call in {StartAttributes, EndAttributes, AddAttribute}
    ensures var left := depth - Excess([call]);
            AfterAll(Some(base + Blocks(depth)), Written(call, indent)) == if left < 0 then None else Some(base + Blocks(left))
  {
    var stack := base + Blocks(depth);
    AfterOne(stack, Written(call, indent)[0]);
    if call.StartAttributes? {
      assert stack + ["attributes"] == base + Blocks(depth + 1);
    } else if call.EndAttributes? && depth > 0 {
      assert stack[..|stack| - 1] == base + Blocks(depth - 1);
    } else {
      assert depth == 0 ==> stack == base;
    }
  }

  /** What a jammed writer leaves: the blocks not yet ended, or a broken text once more were ended than stood open. */
  lemma {:induction false} JammedText(s: State, base: seq<string>, depth: nat, calls: seq<Call>)
    requires Jammed(s) && Run(s, calls).Some?
    requires base == [] || base[|base| - 1] != "attributes"
    requires OpenElements(s.output) == Some(base + Blocks(depth))
    ensures var open := OpenElements(Run(s, calls).value.output);
            if Overdraws(depth, calls) then open.None?
            else Excess(calls) <= depth && open == Some(base + Blocks(depth - Excess(calls)))
    decreases |calls|
  {
    if calls == [] {
    } else {
      var call, left := calls[0], depth - Excess([calls[0]]);
      var next := Apply(s, call);
      AfterAllAppends(Some([]), s.output, Written(call, s.indent));
      JammedCallMoves(base, depth, call, s.indent);
      OverdrawsStep(depth, calls);
      if left < 0 { BrokenStaysBroken(next, calls[1..]); } else { JammedText(next, base, left, calls[1..]); }
    }
  }

  /** A run's text is nested exactly when it never opens attributes inside attributes, or the calls after that never end
      more blocks beyond those they start than the two then open. */
  lemma {:induction false} TextIsNestedIff(s: State, calls: seq<Call>)
    requires Nested(s) && Run(s, calls).Some?
    ensures OpenElements(Run(s, calls).value.output).Some? <==>
            (JamsSomewhere(s, calls) ==> !Overdraws(2, AfterJam(s, calls)))
    decreases |calls|
  {
    if calls == [] {
    } else if Jams(s, calls[0]) {
      var next, base, rest := Apply(s, calls[0]), ElementsOf(s.saved.value), calls[1..];
      AfterAllAppends(Some([]), s.output, Written(calls[0], s.indent));
      AfterOne(Expected(s), Written(calls[0], s.indent)[0]);
      assert Expected(s) + ["attributes"] == base + Blocks(2);
      JammedText(next, base, 2, rest);
    } else {
      NestedStep(s, calls[0]);
      TextIsNestedIff(Apply(s, calls[0]), calls[1..]);
    }
  }

  /** Opening attributes twice jams a writer anywhere: a new one, in the population, in a person, in a plan. */
  lemma OpeningTwiceJams(s: State)
    ensures Run(s, [StartAttributes, StartAttributes]).Some?
    ensures Jammed(Run(s, [StartAttributes, StartAttributes]).value)
  {
    assert [StartAttributes, StartAttributes][1..] == [StartAttributes];
  }

  /** From the start: two blocks opened and three ended raise nothing, and the text is not nested. */
  lemma ThreeEndsBreak()
    ensures var calls := [StartAttributes, StartAttributes] + Repeat(EndAttributes, 3);
            Run(START, calls).Some? && OpenElements(Run(START, calls).value.output) == None
  {
    var calls := [StartAttributes, StartAttributes] + Repeat(EndAttributes, 3);
    var one := Apply(START, StartAttributes);
    var two := Apply(one, StartAttributes);
    assert calls[1..][1..] == Repeat(EndAttributes, 3);
    AfterAllAppends(Some([]), one.output, Written(StartAttributes, 1));
    AfterOne(["attributes"], Written(StartAttributes, 1)[0]);
    assert [] + ["attributes"] == ["attributes"];
    JamBreaksNesting(two, 3);
  }

  // ----- the shape of a whole document

  /** Every line keeps some element open and none belongs to the prolog. */
  predicate StaysOpen(stack: Option<seq<string>>, lines: seq<Line>)
    decreases |lines|
  {
    || lines == []
    || (&& lines[0].token !in {Declaration, Doctype}
        && After(stack, lines[0].token) !in {None, Some([])}
        && StaysOpen(After(stack, lines[0].token), lines[1..]))
  }

  /** The prolog, then a root element that is still open. */
  predicate Rooted(output: seq<Line>) {
    && |output| >= 3
    && output[0].token == Declaration && output[1].token == Doctype && output[2].token == Open("population")
    && StaysOpen(Some(["population"]), output[3..])
  }

  /** The prolog, then exactly one root element and nothing after it. */
  predicate IsDocument(output: seq<Line>) {
    |output| > 3 && Rooted(output[..|output| - 1]) && OpenElements(output) == Some([])
  }

  /** The call that opens attributes before the population or after it. */
  predicate Strays(s: State, call: Call) {
    call.StartAttributes? && s.scope in {Initial, Finished}
  }

  predicate StraysSomewhere(s: State, calls: seq<Call>)
    decreases |calls|
  {
    calls != [] && Accepts(s, calls[0]) && (Strays(s, calls[0]) || StraysSomewhere(Apply(s, calls[0]), calls[1..]))
  }

  lemma {:induction false} StaysOpenAppends(stack: Option<seq<string>>, a: seq<Line>, b: seq<Line>)
    ensures StaysOpen(stack, a + b) <==> StaysOpen(stack, a) && StaysOpen(AfterAll(stack, a), b)
    decreases |a|
  {
    if a == [] {
      assert a + b == b;
    } else {
      assert (a + b)[1..] == a[1..] + b;
      StaysOpenAppends(After(stack, a[0].token), a[1..], b);
    }
  }

  lemma {:induction false} LeavesStayOpen(stack: seq<string>, n: nat, indent: int)
    requires stack != []
    ensures StaysOpen(Some(stack), Leaves(n, indent))
    decreases n
  {
    if n > 0 {
      assert Leaves(n, indent)[1..] == Leaves(n - 1, indent);
      LeavesStayOpen(stack, n - 1, indent);
    }
  }

  lemma OneStaysOpen(stack: seq<string>, line: Line)
    requires line.token !in {Declaration, Doctype} && After(Some(stack), line.token) !in {None, Some([])}
    ensures StaysOpen(Some(stack), [line])
  {
  }

  lemma BlockStaysOpen(stack: seq<string>, n: nat, indent: int)
    requires stack != []
    ensures StaysOpen(Some(stack), Block(n, indent))
  {
    var first, last := [Line(indent, Open("attributes"))], [Line(indent, Close("attributes"))];
    var inner := stack + ["attributes"];
    AfterOne(stack, first[0]);
    OneStaysOpen(stack, first[0]);
    LeavesStayOpen(inner, n, indent + 1);
    LeavesOpenNothing(inner, n, indent + 1);
    AfterAllAppends(Some(stack), first, Leaves(n, indent + 1));
    StaysOpenAppends(Some(stack), first, Leaves(n, indent + 1));
    assert inner[..|inner| - 1] == stack;
    OneStaysOpen(inner, last[0]);
    StaysOpenAppends(Some(stack), first + Leaves(n, indent + 1), last);
  }

  lemma WrappedStaysOpen(stack: seq<string>, name: string, n: nat, outer: int, inner: int)
    requires stack != []
    ensures StaysOpen(Some(stack), [Line(outer, Open(name))] + Block(n, inner) + [Line(outer, Close(name))])
  {
    var first, last := [Line(outer, Open(name))], [Line(outer, Close(name))];
    var within := stack + [name];
    AfterOne(stack, first[0]);
    OneStaysOpen(stack, first[0]);
    BlockStaysOpen(within, n, inner);
    BlockOpensNothing(within, n, inner);
    AfterAllAppends(Some(stack), first, Block(n, inner));
    StaysOpenAppends(Some(stack), first, Block(n, inner));
    assert within[..|within| - 1] == stack;
    OneStaysOpen(within, last[0]);
    StaysOpenAppends(Some(stack), first + Block(n, inner), last);
  }

  /** Inside the population every call but its end keeps some element open. */
  lemma WrittenStaysOpen(s: State, call: Call)
    requires Nested(s) && Accepts(s, call) && !Jams(s, call)
    requires s.scope !in {Initial, Finished} && !call.EndPopulation?
    requires s.scope == Attributes ==> s.saved.value !in {Initial, Finished}
    ensures StaysOpen(Some(Expected(s)), Written(call, s.indent))
  {
    var stack, lines := Expected(s), Written(call, s.indent);
    match call {
      case AddActivity(n) =>
        if n == 0 { OneStaysOpen(stack, lines[0]); } else { WrappedStaysOpen(stack, "activity", n, s.indent, s.indent + 1); }
      case AddLeg => WrappedStaysOpen(stack, "leg", 1, s.indent, s.indent);
      case StartPopulation(_) =>
      case EndPopulation =>
      case _ => OneStaysOpen(stack, lines[0]);
    }
  }

  /** What a nested writer has written while attributes were opened only within the population. */
  predicate Shaped(s: State) {
    match s.scope
    case Initial => s.output == []
    case Finished => IsDocument(s.output)
    case Attributes => s.saved.Some? && s.saved.value !in {Initial, Finished} && Rooted(s.output)
    case _ => Rooted(s.output)
  }

  /** The text is not a document and no more lines will make it one. */
  predicate Misshapen(output: seq<Line>) {
    || (output != [] && output[0].token != Declaration)
    || (exists k :: 3 < k < |output| && IsDocument(output[..k]))
  }

  lemma MisshapenIsNoDocument(output: seq<Line>)
    requires Misshapen(output)
    ensures !IsDocument(output)
  {
    if k :| 3 < k < |output| && IsDocument(output[..k]) {
      var body := output[..|output| - 1];
      assert body[..k] == output[..k];
      if Rooted(body) { RootedPrefix(body, k); }
    }
  }

  /** After three lines no prefix of a rooted text has closed its root. */
  lemma RootedPrefix(output: seq<Line>, k: nat)
    requires Rooted(output) && 3 <= k <= |output|
    ensures OpenElements(output[..k]) != Some([])
  {
    var head := output[..3];
    assert output[..k] == head + output[3..k];
    assert output[3..] == output[3..k] + output[k..];
    HeadOpensPopulation(head);
    AfterAllAppends(Some([]), head, output[3..k]);
    StaysOpenAppends(Some(["population"]), output[3..k], output[k..]);
    OpenAtTheEnd(Some(["population"]), output[3..k]);
  }

  lemma {:induction false} OpenAtTheEnd(stack: Option<seq<string>>, lines: seq<Line>)
    requires stack != Some([]) && StaysOpen(stack, lines)
    ensures AfterAll(stack, lines) != Some([])
    decreases |lines|
  {
    if lines != [] { OpenAtTheEnd(After(stack, lines[0].token), lines[1..]); }
  }

  lemma HeadOpensPopulation(head: seq<Line>)
    requires |head| == 3
    requires head[0].token == Declaration && head[1].token == Doctype && head[2].token == Open("population")
    ensures AfterAll(Some([]), head) == Some(["population"])
  {
    assert head == [head[0]] + ([head[1]] + [head[2]]);
    AfterAllAppends(Some([]), [head[0]], [head[1]] + [head[2]]);
    AfterAllAppends(Some([]), [head[1]], [head[2]]);
    assert [] + ["population"] == ["population"];
  }

  lemma StartIsRooted(n: nat)
    ensures Rooted(Written(StartPopulation(n), 0))
  {
    var lines := Written(StartPopulation(n), 0);
    assert lines[3..] == Preface(n, 1);
    if n > 0 { BlockStaysOpen(["population"], n, 1); }
  }

  /** A rooted text is still rooted after a call that keeps some element open. */
  lemma RootedGrows(output: seq<Line>, stack: seq<string>, lines: seq<Line>)
    requires Rooted(output) && OpenElements(output) == Some(stack) && StaysOpen(Some(stack), lines)
    ensures Rooted(output + lines)
  {
    HeadOpensPopulation(output[..3]);
    assert output == output[..3] + output[3..];
    AfterAllAppends(Some([]), output[..3], output[3..]);
    StaysOpenAppends(Some(["population"]), output[3..], lines);
    assert (output + lines)[3..] == output[3..] + lines;
  }

  lemma ShapedStep(s: State, call: Call)
    requires Nested(s) && Shaped(s) && Accepts(s, call) && !Jams(s, call) && !Strays(s, call)
    ensures Shaped(Apply(s, call))
  {
    var lines := Written(call, s.indent);
    if s.scope == Initial {
      StartIsRooted(call.attributes);
      assert s.output + lines == lines;
    } else if call.EndPopulation? {
      NestedStep(s, call);
      assert (s.output + lines)[..|s.output + lines| - 1] == s.output;
    } else {
      WrittenStaysOpen(s, call);
      RootedGrows(s.output, Expected(s), lines);
    }
  }

  lemma StrayingMisshapes(s: State, call: Call)
    requires Nested(s) && Shaped(s) && Strays(s, call)
    ensures Misshapen(Apply(s, call).output)
  {
    var output := Apply(s, call).output;
    if s.scope == Finished {
      assert output[..|s.output|] == s.output;
    }
  }

  lemma {:induction false} MisshapenForGood(s: State, calls: seq<Call>)
    requires Misshapen(s.output) && Run(s, calls).Some?
    ensures Misshapen(Run(s, calls).value.output)
    decreases |calls|
  {
    if calls != [] {
      var next := Apply(s, calls[0]).output;
      if k :| 3 < k < |s.output| && IsDocument(s.output[..k]) {
        assert next[..k] == s.output[..k];
      }
      MisshapenForGood(Apply(s, calls[0]), calls[1..]);
    }
  }

  lemma {:induction false} RunsKeepTheirShape(s: State, calls: seq<Call>)
    requires Nested(s) && Shaped(s) && Run(s, calls).Some? && !JamsSomewhere(s, calls)
    ensures if StraysSomewhere(s, calls) then Misshapen(Run(s, calls).value.output) else Shaped(Run(s, calls).value)
    decreases |calls|
  {
    if calls == [] {
    } else if Strays(s, calls[0]) {
      StrayingMisshapes(s, calls[0]);
      MisshapenForGood(Apply(s, calls[0]), calls[1..]);
    } else {
      NestedStep(s, calls[0]);
      ShapedStep(s, calls[0]);
      RunsKeepTheirShape(Apply(s, calls[0]), calls[1..]);
    }
  }

  /**
   * A finished text is a document exactly when attributes were opened neither before the population nor after
   * it, although the writer accepts them anywhere.
   */
  lemma FinishedIsDocument(calls: seq<Call>)
    requires Run(START, calls).Some? && Run(START, calls).value.scope == Finished
    ensures IsDocument(Run(START, calls).value.output) <==> !StraysSomewhere(START, calls)
  {
    RunsAreNestedOrJammed(START, calls);
    RunsKeepTheirShape(START, calls);
    if StraysSomewhere(START, calls) { MisshapenIsNoDocument(Run(START, calls).value.output); }
  }

  /** A block before the population: the run finishes, and what it wrote is not one document. */
  lemma StrayBlockSpoilsDocument()
    ensures var calls := [StartAttributes, EndAttributes, Call.StartPopulation(0), EndPopulation];
            Run(START, calls).Some? && Run(START, calls).value.scope == Finished && !IsDocument(Run(START, calls).value.output)
  {
    var calls := [StartAttributes, EndAttributes, Call.StartPopulation(0), EndPopulation];
    assert calls[1..] == [EndAttributes, Call.StartPopulation(0), EndPopulation];
    assert calls[1..][1..] == [Call.StartPopulation(0), EndPopulation];
    assert calls[1..][1..][1..] == [EndPopulation];
    FinishedIsDocument(calls);
  }
}

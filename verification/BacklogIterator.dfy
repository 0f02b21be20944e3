/** `backlog_iterator`: reading ahead of and back behind a position in a stream. */
module BacklogIterator {
  import opened Wrappers

  /** Items pulled from the stream, items read ahead, and the window of items behind. */
  datatype Log<T> = Log(pulled: nat, forward: seq<Option<T>>, backward: seq<Option<T>>)

  datatype Operation = Next | Previous | HasNext

  datatype Outcome<T> = Item(slot: Option<T>) | Stopped | Answer(yes: bool)

  function Blank<T>(backlog: nat): seq<Option<T>> {
    seq(backlog + 1, _ => None)
  }

  function Last<T>(s: seq<T>): T
    requires s != []
  {
    s[|s| - 1]
  }

  /** One operation on the log of an iterator over `items`. */
  function Step<T>(items: seq<T>, s: Log<T>, op: Operation): (r: (Log<T>, Outcome<T>))
    requires s.backward != [] && s.pulled <= |items|
    ensures |r.0.backward| == |s.backward| && s.pulled <= r.0.pulled <= |items|
  {
    match op
    case Next =>
      if s.forward != [] then
        (Log(s.pulled, s.forward[1..], s.backward[1..] + [s.forward[0]]), Item(s.forward[0]))
      else if s.pulled < |items| then
        (Log(s.pulled + 1, [], s.backward[1..] + [Some(items[s.pulled])]), Item(Some(items[s.pulled])))
      else
        (s, Stopped)
    case Previous =>
      var backward := [None] + s.backward[..|s.backward| - 1];
      (Log(s.pulled, [Last(s.backward)] + s.forward, backward), Item(Last(backward)))
    case HasNext =>
      if s.forward != [] then (s, Answer(true))
      else if s.pulled < |items| then (Log(s.pulled + 1, [Some(items[s.pulled])], s.backward), Answer(true))
      else (s, Answer(false))
  }

  class Iterator<T> {
    const items: seq<T>
    var pulled: nat
    var forwardLog: seq<Option<T>>
    var backwardLog: seq<Option<T>>

    constructor (items: seq<T>, backlog: nat)
      ensures this.items == items && View() == Log(0, [], Blank(backlog))
    {
      this.items, pulled, forwardLog, backwardLog := items, 0, [], Blank(backlog);
    }

    function View(): Log<T> reads this {
      Log(pulled, forwardLog, backwardLog)
    }

    ghost predicate Valid() reads this {
      backwardLog != [] && pulled <= |items|
    }

    method Next() returns (r: Outcome<T>)
      requires Valid()
      modifies this
      ensures Valid() && (View(), r) == Step(items, old(View()), Operation.Next)
    {
      if |forwardLog| > 0 {
        backwardLog := backwardLog + [forwardLog[0]];
        forwardLog := forwardLog[1..];
      } else {
        if pulled == |items| { return Stopped; }
        backwardLog := backwardLog + [Some(items[pulled])];
        pulled := pulled + 1;
      }
      assert backwardLog[1..] == old(backwardLog)[1..] + [Last(backwardLog)];
      backwardLog := backwardLog[1..];
      r := Item(Last(backwardLog));
    }

    method Previous() returns (r: Outcome<T>)
      requires Valid()
      modifies this
      ensures Valid() && (View(), r) == Step(items, old(View()), Operation.Previous)
    {
      forwardLog := [Last(backwardLog)] + forwardLog;
      backwardLog := backwardLog[..|backwardLog| - 1];
      backwardLog := [None] + backwardLog;
      r := Item(Last(backwardLog));
    }

    method HasNext() returns (r: Outcome<T>)
      requires Valid()
      modifies this
      ensures Valid() && (View(), r) == Step(items, old(View()), Operation.HasNext)
    {
      if |forwardLog| > 0 { return Answer(true); }
      if pulled == |items| { return Answer(false); }
      forwardLog := forwardLog + [Some(items[pulled])];
      assert forwardLog == [Some(items[pulled])];
      pulled := pulled + 1;
      r := Answer(true);
    }
  }

  // ----- the cursor an iterator stands for

  /** A position in the sequence, and how many of the items before it can be gone back over. */
  datatype Cursor = Cursor(position: nat, remembered: nat)

  function Lesser(a: nat, b: nat): nat { if a <= b then a else b }

  /** What a cursor does; it cannot go back past what it remembers. */
  function Move<T>(items: seq<T>, backlog: nat, c: Cursor, op: Operation): (r: (Cursor, Outcome<T>))
    requires c.remembered <= c.position <= |items|
    requires op.Previous? ==> c.remembered > 0
    ensures r.0.remembered <= r.0.position <= |items|
  {
    match op
    case Next =>
      if c.position == |items| then (c, Stopped)
      else (Cursor(c.position + 1, Lesser(c.remembered + 1, backlog + 1)), Item(Some(items[c.position])))
    case Previous =>
      var back := Cursor(c.position - 1, c.remembered - 1);
      // With nothing to remember but one item, there is none before it to look at.
      (back, Item(if back.remembered > 0 then Some(items[c.position - 2]) else None))
    case HasNext => (c, Answer(c.position < |items|))
  }

  function Somes<T>(items: seq<T>): seq<Option<T>> {
    seq(|items|, i requires 0 <= i < |items| => Some(items[i]))
  }

  /** The window of `size` slots behind a cursor: blank but for the remembered items. */
  function Window<T>(items: seq<T>, c: Cursor, size: nat): seq<Option<T>>
    requires c.remembered <= c.position <= |items|
  {
    seq(size, k requires 0 <= k < size => if size - k <= c.remembered then Some(items[c.position - (size - k)]) else None)
  }

  predicate Refines<T(==)>(items: seq<T>, backlog: nat, s: Log<T>, c: Cursor) {
    && c.remembered <= c.position <= s.pulled <= |items|
    && c.remembered <= backlog + 1
    && s.forward == Somes(items[c.position..s.pulled])
    && s.backward == Window(items, c, backlog + 1)
  }

  /** A fresh iterator stands at the start of its items. */
  lemma FreshIsAtStart<T>(items: seq<T>, backlog: nat)
    ensures Refines(items, backlog, Log(0, [], Blank(backlog)), Cursor(0, 0))
  {
    assert Window(items, Cursor(0, 0), backlog + 1) == Blank<T>(backlog);
  }

  lemma NextRefines<T>(items: seq<T>, backlog: nat, s: Log<T>, c: Cursor)
    requires Refines(items, backlog, s, c)
    ensures Refines(items, backlog, Step(items, s, Next).0, Move(items, backlog, c, Next).0)
    ensures Step(items, s, Next).1 == Move(items, backlog, c, Next).1
  {
    if c.position < |items| {
      var t, d := Step(items, s, Next).0, Move(items, backlog, c, Next).0;
      var ahead := items[c.position..s.pulled];
      if s.forward != [] { assert items[d.position..t.pulled] == ahead[1..]; }
      assert t.forward == Somes(items[d.position..t.pulled]);
      assert t.backward == Window(items, d, backlog + 1);
    }
  }

  lemma PreviousRefines<T>(items: seq<T>, backlog: nat, s: Log<T>, c: Cursor)
    requires Refines(items, backlog, s, c) && c.remembered > 0
    ensures Refines(items, backlog, Step(items, s, Previous).0, Move(items, backlog, c, Previous).0)
    ensures Step(items, s, Previous).1 == Move(items, backlog, c, Previous).1
  {
    var t, d := Step(items, s, Previous).0, Move(items, backlog, c, Previous).0;
    var ahead := items[c.position..s.pulled];
    assert items[d.position..t.pulled] == [items[d.position]] + ahead;
    assert t.forward == Somes(items[d.position..t.pulled]);
    assert t.backward == Window(items, d, backlog + 1);
  }

  lemma HasNextRefines<T>(items: seq<T>, backlog: nat, s: Log<T>, c: Cursor)
    requires Refines(items, backlog, s, c)
    ensures Refines(items, backlog, Step(items, s, HasNext).0, c)
    ensures Step(items, s, HasNext).1 == Move(items, backlog, c, HasNext).1
  {
    var t := Step(items, s, HasNext).0;
    if s.forward == [] { assert t.forward == Somes(items[c.position..t.pulled]); }
  }

  /** Every operation does to the log what the cursor does, unless it goes back over a blank. */
  lemma StepRefinesMove<T>(items: seq<T>, backlog: nat, s: Log<T>, c: Cursor, op: Operation)
    requires Refines(items, backlog, s, c)
    requires op.Previous? ==> Last(s.backward) != None
    ensures op.Previous? ==> c.remembered > 0
    ensures Refines(items, backlog, Step(items, s, op).0, Move(items, backlog, c, op).0)
    ensures Step(items, s, op).1 == Move(items, backlog, c, op).1
  {
    match op
    case Next => NextRefines(items, backlog, s, c);
    case Previous => PreviousRefines(items, backlog, s, c);
    case HasNext => HasNextRefines(items, backlog, s, c);
  }

  /** Going back over a blank stands for no cursor: the next item handed out is the blank itself. */
  lemma BlankIsHandedOut<T>(items: seq<T>, backlog: nat, s: Log<T>, c: Cursor)
    requires Refines(items, backlog, s, c) && Last(s.backward) == None
    ensures forall d :: !Refines(items, backlog, Step(items, s, Previous).0, d)
    ensures Step(items, Step(items, s, Previous).0, Next).1 == Item(None)
  {
    var t := Step(items, s, Previous).0;
    assert t.forward[0] == None;
    forall d ensures !Refines(items, backlog, t, d) {
      assert d.position <= t.pulled <= |items| ==> None !in Somes(items[d.position..t.pulled]);
    }
  }

  /** Whatever the log holds, reading on after going back restores it. */
  lemma NextUndoesPrevious<T>(items: seq<T>, s: Log<T>)
    requires s.backward != [] && s.pulled <= |items|
    ensures Step(items, Step(items, s, Previous).0, Next) == (s, Item(Last(s.backward)))
  {
    var back := Step(items, s, Previous).0;
    assert back.forward[1..] == s.forward;
    assert back.backward[1..] + [Last(s.backward)] == s.backward;
  }

  // ----- whole runs

  function Outcomes<T>(items: seq<T>, s: Log<T>, ops: seq<Operation>): (r: seq<Outcome<T>>)
    requires s.backward != [] && s.pulled <= |items|
    ensures |r| == |ops|
    decreases |ops|
  {
    if ops == [] then []
    else [Step(items, s, ops[0]).1] + Outcomes(items, Step(items, s, ops[0]).0, ops[1..])
  }

  /** No operation of a run goes back over a blank. */
  predicate Careful<T(==)>(items: seq<T>, s: Log<T>, ops: seq<Operation>)
    requires s.backward != [] && s.pulled <= |items|
    decreases |ops|
  {
    || ops == []
    || ((ops[0].Previous? ==> Last(s.backward) != None) && Careful(items, Step(items, s, ops[0]).0, ops[1..]))
  }

  /** No operation of a run goes back past what the cursor remembers. */
  predicate Feasible<T>(items: seq<T>, backlog: nat, c: Cursor, ops: seq<Operation>)
    requires c.remembered <= c.position <= |items|
    decreases |ops|
  {
    || ops == []
    || ((ops[0].Previous? ==> c.remembered > 0) && Feasible(items, backlog, Move(items, backlog, c, ops[0]).0, ops[1..]))
  }

  function Moves<T>(items: seq<T>, backlog: nat, c: Cursor, ops: seq<Operation>): (r: seq<Outcome<T>>)
    requires c.remembered <= c.position <= |items|
    requires Feasible(items, backlog, c, ops)
    ensures |r| == |ops|
    decreases |ops|
  {
    if ops == [] then []
    else [Move(items, backlog, c, ops[0]).1] + Moves(items, backlog, Move(items, backlog, c, ops[0]).0, ops[1..])
  }

  /** A run is careful exactly when the cursor can make it, and then every answer is the cursor's. */
  lemma {:induction false} CarefulRunsAreCursorRuns<T>(
    items: seq<T>, backlog: nat, s: Log<T>, c: Cursor, ops: seq<Operation>)
    requires Refines(items, backlog, s, c)
    ensures Careful(items, s, ops) <==> Feasible(items, backlog, c, ops)
    ensures Careful(items, s, ops) ==> Outcomes(items, s, ops) == Moves(items, backlog, c, ops)
    decreases |ops|
  {
    if ops != [] && (ops[0].Previous? ==> Last(s.backward) != None) {
      StepRefinesMove(items, backlog, s, c, ops[0]);
      CarefulRunsAreCursorRuns(
        items, backlog, Step(items, s, ops[0]).0, Move(items, backlog, c, ops[0]).0, ops[1..]);
    }
  }

  /** The items a run of a fresh iterator hands out by `next`, in order. */
  function Handed<T>(ops: seq<Operation>, outcomes: seq<Outcome<T>>): seq<Option<T>>
    requires |ops| == |outcomes|
  {
    if ops == [] then []
    else (if ops[0].Next? && outcomes[0].Item? then [outcomes[0].slot] else []) + Handed(ops[1..], outcomes[1..])
  }

  /** Without going back, the items handed out are the sequence itself, none lost or repeated. */
  lemma {:induction false} ForwardRunsReadInOrder<T>(
    items: seq<T>, backlog: nat, s: Log<T>, c: Cursor, ops: seq<Operation>)
    requires Refines(items, backlog, s, c) && Previous !in ops
    ensures Handed(ops, Outcomes(items, s, ops)) <= Somes(items[c.position..])
    ensures Stopped in Outcomes(items, s, ops) ==> Handed(ops, Outcomes(items, s, ops)) == Somes(items[c.position..])
    decreases |ops|
  {
    if ops == [] { return; }
    StepRefinesMove(items, backlog, s, c, ops[0]);
    var t, d := Step(items, s, ops[0]).0, Move(items, backlog, c, ops[0]).0;
    var rest := Outcomes(items, t, ops[1..]);
    ForwardRunsReadInOrder(items, backlog, t, d, ops[1..]);
    FirstHanded(ops, Step(items, s, ops[0]).1, rest);
    if c.position < d.position {
      assert items[c.position..] == [items[c.position]] + items[d.position..];
      SomesOfFirst(items[c.position], items[d.position..]);
    }
  }

  lemma FirstHanded<T>(ops: seq<Operation>, first: Outcome<T>, rest: seq<Outcome<T>>)
    requires |ops| == |rest| + 1
    ensures Handed(ops, [first] + rest) == (if ops[0].Next? && first.Item? then [first.slot] else []) + Handed(ops[1..], rest)
    ensures Stopped in [first] + rest <==> first.Stopped? || Stopped in rest
  {
    assert ([first] + rest)[1..] == rest;
  }

  lemma SomesOfFirst<T>(first: T, rest: seq<T>)
    ensures Somes([first] + rest) == [Some(first)] + Somes(rest)
  {
  }
}

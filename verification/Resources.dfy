/** Budgets of cores and memory, and the worker counts and heap sizes derived from them. */
module Resources {
  import opened Wrappers
  import opened MemorySizes

  /** A configured value: absent, text, a number, or a truth value. */
  datatype Setting = Missing | Text(text: string) | Number(value: real) | Flag(on: bool)

  datatype Fault = BadOverride | BadCount | BadSize | NonPositiveSize | NonPositiveWorker | NegativeFootprint

  datatype Origin = Derived | Clamped | Pinned

  datatype Resolution<T> = Resolution(effective: T, origin: Origin)

  datatype Budget = Budget(cores: int, memory: real)

  function Smaller(a: int, b: int): int { if a <= b then a else b }

  function LargerReal(a: real, b: real): real { if a >= b then a else b }

  // ----- reading settings

  function TrimEnd(s: string): string {
    if s != "" && IsSpace(s[|s| - 1]) then TrimEnd(s[..|s| - 1]) else s
  }

  function Strip(s: string): string {
    TrimEnd(Left(s, IsSpace))
  }

  /** A whole number: digits with an optional sign, blanks around it. */
  function ParseInt(text: string): Option<int> {
    var s := Strip(text);
    var signed := s != "" && s[0] in {'+', '-'};
    var digits := if signed then s[1..] else s;
    if digits == "" || !Every(digits, IsDigit) then None
    else if signed && s[0] == '-' then Some(0 - Digits(digits))
    else Some(Digits(digits))
  }

  predicate IsAuto(configured: Setting) {
    match configured
    case Missing => true
    case Text(text) => UpperAll(Strip(text)) in {"", "AUTO"}
    case Number(value) => value == 0.0
    case Flag(_) => false
  }

  /** The count a setting that is not automatic spells, if it spells one. */
  function RequestedCount(configured: Setting): (n: Option<int>)
    ensures n.Some? ==> n.value >= 0
  {
    match configured
    case Text(text) =>
      var n := ParseInt(text);
      if n.Some? && n.value >= 0 then n else None
    case Number(value) =>
      if value == value.Floor as real && value >= 0.0 then Some(value.Floor) else None
    case _ => None
  }

  // ----- the budget

  function CoreOverride(text: string): Result<int, Fault> {
    match ParseInt(text)
    case None => Err(BadOverride)
    case Some(n) => if n <= 0 then Err(BadOverride) else Ok(n)
  }

  function MemoryOverride(text: string): Result<real, Fault> {
    match ParseText(text)
    case Err(_) => Err(BadOverride)
    case Ok(gb) => if gb <= 0.0 then Err(BadOverride) else Ok(gb)
  }

  /** The budget of a machine; an override replaces the machine's figure and its reserve. */
  function ResolveBudget(machine: Budget, coreReserve: int, memoryReserve: real, cpu: string, memory: string)
    : (r: Result<Budget, Fault>)
    ensures r.Ok? ==> r.value.cores >= 1 && r.value.memory > 0.0
    ensures r.Ok? && memory == "" ==> r.value.memory >= 1.0
  {
    var cores :=
      if cpu != "" then CoreOverride(cpu) else Ok(Larger(1, machine.cores - Larger(0, coreReserve)));
    var gb :=
      if memory != "" then MemoryOverride(memory) else Ok(LargerReal(1.0, machine.memory - LargerReal(0.0, memoryReserve)));
    if cores.Err? then Err(cores.error)
    else if gb.Err? then Err(gb.error)
    else Ok(Budget(cores.value, gb.value))
  }

  /** Without overrides, budget and reserve together fit the machine unless the floor of one applies. */
  lemma BudgetLeavesReserve(machine: Budget, coreReserve: int, memoryReserve: real)
    ensures var b := ResolveBudget(machine, coreReserve, memoryReserve, "", "").value;
            && (b.cores > 1 ==> b.cores + Larger(0, coreReserve) <= machine.cores)
            && (b.memory > 1.0 ==> b.memory + LargerReal(0.0, memoryReserve) <= machine.memory)
  {
  }

  // ----- worker counts

  function ResolveCount(configured: Setting, ceiling: int): Result<Resolution<int>, Fault> {
    if IsAuto(configured) then Ok(Resolution(ceiling, Derived))
    else match RequestedCount(configured)
      case None => Err(BadCount)
      case Some(n) => if n > ceiling then Ok(Resolution(ceiling, Clamped)) else Ok(Resolution(n, Pinned))
  }

  /** How many times `part` goes into `whole`. */
  function Fits(whole: real, part: real): int
    requires part > 0.0
  {
    (whole / part).Floor
  }

  /** The memory of `n` equal workers. */
  function Need(n: nat, worker: real): real {
    if n == 0 then 0.0 else worker + Need(n - 1, worker)
  }

  lemma {:induction false} NeedIsProduct(n: nat, worker: real)
    ensures Need(n, worker) == n as real * worker
  {
    if n > 0 {
      NeedIsProduct(n - 1, worker);
      assert n as real * worker == (n - 1) as real * worker + worker;
    }
  }

  lemma {:induction false} MoreNeedMore(n: nat, k: nat, worker: real)
    requires n <= k && worker > 0.0
    ensures Need(n, worker) <= Need(k, worker)
    decreases k
  {
    if n < k { MoreNeedMore(n, k - 1, worker); }
  }

  lemma FitsIsLargest(whole: real, part: real)
    requires part > 0.0
    ensures Fits(whole, part) >= 0 ==> Need(Fits(whole, part), part) <= whole
    ensures Fits(whole, part) >= -1 ==> whole < Need(Fits(whole, part) + 1, part)
    ensures Fits(whole, part) < 0 ==> whole < 0.0
  {
    var k := Fits(whole, part);
    QuotientBounds(whole, part, k, whole / part);
    if k >= 0 { NeedIsProduct(k, part); }
    if k >= -1 { NeedIsProduct(k + 1, part); }
    if k < 0 && k != -1 { Ordered((k + 1) as real, 0.0, part); }
  }

  lemma QuotientBounds(whole: real, part: real, k: int, q: real)
    requires part > 0.0 && q == whole / part && k == q.Floor
    ensures k as real * part <= whole && whole < (k + 1) as real * part
  {
    Bracketed(whole, part, k as real, (k + 1) as real, q);
  }

  lemma Bracketed(whole: real, part: real, low: real, high: real, q: real)
    requires part > 0.0 && q == whole / part && low <= q < high
    ensures low * part <= whole && whole < high * part
  {
    assert q * part == whole;
    Ordered(low, q, part);
    StrictlyOrdered(q, high, part);
  }

  lemma Ordered(a: real, b: real, factor: real)
    requires a <= b && factor > 0.0
    ensures a * factor <= b * factor
  {
    assert (b - a) * factor >= 0.0;
  }

  lemma StrictlyOrdered(a: real, b: real, factor: real)
    requires a < b && factor > 0.0
    ensures a * factor < b * factor
  {
    assert (b - a) * factor > 0.0;
  }

  function PopsimCeiling(budget: Budget, worker: real): int
    requires worker > 0.0
  {
    Larger(1, Smaller(Larger(1, Fits(budget.memory, worker)), budget.cores))
  }

  function PopsimWorkers(configured: Setting, budget: Budget, worker: real): Result<Resolution<int>, Fault> {
    if worker <= 0.0 then Err(NonPositiveWorker) else ResolveCount(configured, PopsimCeiling(budget, worker))
  }

  function ChainsolverCeiling(budget: Budget, worker: real, driver: real): int
    requires worker > 0.0
  {
    Larger(1, Smaller(budget.cores, Fits(budget.memory - driver, worker)))
  }

  function ChainsolverWorkers(configured: Setting, budget: Budget, worker: real, driver: real): Result<Resolution<int>, Fault> {
    if worker <= 0.0 then Err(NonPositiveWorker)
    else if driver < 0.0 then Err(NegativeFootprint)
    else ResolveCount(configured, ChainsolverCeiling(budget, worker, driver))
  }

  /** The count the startup report shows, from cores alone. */
  function CorePreview(configured: Setting, cores: int): Result<int, Fault> {
    if IsAuto(configured) then Ok(cores)
    else match RequestedCount(configured)
      case None => Err(BadCount)
      case Some(n) => Ok(Larger(1, Smaller(n, cores)))
  }

  // ----- values spelled out

  predicate Blank(s: string) { Every(s, IsSpace) }

  /** A text whose ends are no blanks. */
  predicate Tight(s: string) { s != "" && !IsSpace(s[0]) && !IsSpace(s[|s| - 1]) }

  lemma {:induction false} TrimEndCuts(s: string, trail: string)
    requires Tight(s) && Blank(trail)
    ensures TrimEnd(s + trail) == s
    decreases |trail|
  {
    if trail == "" {
      assert s + trail == s;
    } else {
      assert (s + trail)[..|s + trail| - 1] == s + trail[..|trail| - 1];
      TrimEndCuts(s, trail[..|trail| - 1]);
    }
  }

  lemma StripCuts(lead: string, s: string, trail: string)
    requires Blank(lead) && Tight(s) && Blank(trail)
    ensures Strip(lead + (s + trail)) == s
  {
    Splits(lead, s + trail, IsSpace);
    TrimEndCuts(s, trail);
  }

  lemma BlankIsStripped(s: string)
    requires Blank(s)
    ensures Strip(s) == ""
  {
    Splits(s, "", IsSpace);
    assert s + "" == s;
  }

  lemma {:induction false} TrimEndSplits(s: string) returns (trail: string)
    ensures s == TrimEnd(s) + trail && Blank(trail)
    ensures TrimEnd(s) != "" ==> TrimEnd(s)[0] == s[0] && !IsSpace(TrimEnd(s)[|TrimEnd(s)| - 1])
    decreases |s|
  {
    if s != "" && IsSpace(s[|s| - 1]) {
      var less := TrimEndSplits(s[..|s| - 1]);
      trail := less + [s[|s| - 1]];
    } else {
      trail := "";
    }
  }

  predicate IsSurrounded(text: string, lead: string, s: string, trail: string) {
    Blank(lead) && Blank(trail) && text == lead + (s + trail)
  }

  /** The text is `s` with blanks around it. */
  ghost predicate Surrounded(text: string, s: string) {
    exists lead, trail :: IsSurrounded(text, lead, s, trail)
  }

  /** What is stripped lies between blanks. */
  lemma StripSplits(s: string)
    ensures Surrounded(s, Strip(s)) && (Strip(s) != "" ==> Tight(Strip(s)))
  {
    SplitsInTwo(s, IsSpace);
    var trail := TrimEndSplits(Left(s, IsSpace));
    assert IsSurrounded(s, Taken(s, IsSpace), Strip(s), trail);
  }

  /** A whole number as a text: perhaps a sign, then digits, with blanks around. */
  ghost predicate Spells(text: string, sign: string, digits: string) {
    sign in {"", "+", "-"} && digits != "" && Every(digits, IsDigit) && Surrounded(text, sign + digits)
  }

  ghost predicate SpellsNumber(text: string, n: int) {
    exists sign, digits :: Spells(text, sign, digits) && n == if sign == "-" then 0 - Digits(digits) else Digits(digits)
  }

  lemma SpelledIsTight(sign: string, digits: string)
    requires sign in {"", "+", "-"} && digits != "" && Every(digits, IsDigit)
    ensures Tight(sign + digits)
  {
    var t := sign + digits;
    assert t[|t| - 1] == digits[|digits| - 1];
    assert sign == "" ==> t[0] == digits[0];
    DigitIsNoSpace(digits[|digits| - 1]);
    DigitIsNoSpace(digits[0]);
  }

  lemma SpelledIsRead(text: string, sign: string, digits: string)
    requires Spells(text, sign, digits)
    ensures ParseInt(text) == Some(if sign == "-" then 0 - Digits(digits) else Digits(digits))
  {
    var lead, trail :| IsSurrounded(text, lead, sign + digits, trail);
    SpelledIsTight(sign, digits);
    StripCuts(lead, sign + digits, trail);
    var s := sign + digits;
    if sign == "" { assert s == digits; } else { assert s[1..] == digits && s[0] == sign[0]; }
  }

  lemma ReadIsSpelled(text: string)
    requires ParseInt(text).Some?
    ensures SpellsNumber(text, ParseInt(text).value)
  {
    var s := Strip(text);
    StripSplits(text);
    var sign := if s[0] in {'+', '-'} then [s[0]] else "";
    var digits := s[|sign|..];
    assert s == sign + digits;
    assert Spells(text, sign, digits);
  }

  /** A text is read as a whole number exactly when it spells that number. */
  lemma NumberIsSpelled(text: string, n: int)
    ensures ParseInt(text) == Some(n) <==> SpellsNumber(text, n)
  {
    if ParseInt(text) == Some(n) { ReadIsSpelled(text); }
    if sign, digits :| Spells(text, sign, digits) && n == if sign == "-" then 0 - Digits(digits) else Digits(digits) {
      SpelledIsRead(text, sign, digits);
    }
  }

  /** The word "auto", in either case of its letters. */
  predicate IsAutoWord(a: string) {
    |a| == 4 && a[0] in "aA" && a[1] in "uU" && a[2] in "tT" && a[3] in "oO"
  }

  /** A setting that leaves the count to the budget: none, the number zero, a blank text, or "auto" between blanks. */
  ghost predicate LeavesOpen(configured: Setting) {
    match configured
    case Missing => true
    case Number(value) => value == 0.0
    case Text(text) => Blank(text) || exists a :: IsAutoWord(a) && Surrounded(text, a)
    case Flag(_) => false
  }

  lemma UpperOfWord(a: string)
    ensures UpperAll(a) == "AUTO" <==> IsAutoWord(a)
    ensures UpperAll(a) == "" <==> a == ""
  {
    if |a| == 4 {
      assert a == [a[0], a[1], a[2], a[3]];
      forall i | 0 <= i < 4 ensures UpperAll(a)[i] == Upper(a[i]) { UpperAt(a, i); }
    }
  }

  lemma WordIsTight(a: string)
    requires IsAutoWord(a)
    ensures Tight(a)
  {
  }

  lemma OpenIsAuto(configured: Setting)
    ensures IsAuto(configured) <==> LeavesOpen(configured)
  {
    if configured.Text? {
      var text := configured.text;
      StripSplits(text);
      UpperOfWord(Strip(text));
      if Blank(text) { BlankIsStripped(text); }
      if a :| IsAutoWord(a) && Surrounded(text, a) {
        var lead, trail :| IsSurrounded(text, lead, a, trail);
        WordIsTight(a);
        StripCuts(lead, a, trail);
      }
      if Strip(text) == "" { SurroundedNothing(text); }
    }
  }

  lemma SurroundedNothing(text: string)
    requires Surrounded(text, "")
    ensures Blank(text)
  {
    var lead, trail :| IsSurrounded(text, lead, "", trail);
    assert text == lead + trail;
  }

  /** The setting asks for `n`: a number of that value, or a text that spells it. */
  ghost predicate AsksFor(configured: Setting, n: int) {
    match configured
    case Number(value) => value == n as real
    case Text(text) => SpellsNumber(text, n)
    case _ => false
  }

  /** What a count becomes: the ceiling if it is left open, the request if that fits, else the ceiling; all else is rejected. */
  lemma CountIsRequest(configured: Setting, ceiling: int, n: int)
    ensures LeavesOpen(configured) ==> ResolveCount(configured, ceiling) == Ok(Resolution(ceiling, Derived))
    ensures !LeavesOpen(configured) && AsksFor(configured, n) ==>
      ResolveCount(configured, ceiling)
      == if n < 0 then Err(BadCount) else if n <= ceiling then Ok(Resolution(n, Pinned)) else Ok(Resolution(ceiling, Clamped))
    ensures ResolveCount(configured, ceiling).Ok? ==> LeavesOpen(configured) || exists k :: k >= 0 && AsksFor(configured, k)
  {
    OpenIsAuto(configured);
    if configured.Text? {
      NumberIsSpelled(configured.text, n);
      if ParseInt(configured.text).Some? { ReadIsSpelled(configured.text); }
    }
    if configured.Number? && RequestedCount(configured).Some? { assert AsksFor(configured, RequestedCount(configured).value); }
    if configured.Text? && RequestedCount(configured).Some? { assert AsksFor(configured, RequestedCount(configured).value); }
  }

  /** The preview of a count: the cores if it is left open, the request if it lies between one and the cores. */
  lemma PreviewIsRequest(configured: Setting, cores: int, n: int)
    requires cores >= 1
    ensures LeavesOpen(configured) ==> CorePreview(configured, cores) == Ok(cores)
    ensures !LeavesOpen(configured) && AsksFor(configured, n) ==>
      CorePreview(configured, cores)
      == if n < 0 then Err(BadCount) else if n == 0 then Ok(1) else if n <= cores then Ok(n) else Ok(cores)
  {
    OpenIsAuto(configured);
    if configured.Text? { NumberIsSpelled(configured.text, n); }
  }

  /** Each figure of a budget: the override, which must be positive, or what the reserve leaves of the machine, at least one. */
  lemma BudgetIsOverrideOrRest(machine: Budget, coreReserve: int, memoryReserve: real, cpu: string, memory: string, n: int)
    requires ResolveBudget(machine, coreReserve, memoryReserve, cpu, memory).Ok?
    ensures var b := ResolveBudget(machine, coreReserve, memoryReserve, cpu, memory).value;
      && (cpu != "" && SpellsNumber(cpu, n) ==> b.cores == n)
      && (cpu == "" && coreReserve < 0 ==> b.cores == if machine.cores < 1 then 1 else machine.cores)
      && (cpu == "" && coreReserve >= 0 ==>
            b.cores == if machine.cores <= coreReserve then 1 else machine.cores - coreReserve)
      && (memory != "" ==> ParseText(memory) == Ok(b.memory))
      && (memory == "" && memoryReserve < 0.0 ==> b.memory == if machine.memory < 1.0 then 1.0 else machine.memory)
      && (memory == "" && memoryReserve >= 0.0 ==>
            b.memory == if machine.memory <= memoryReserve + 1.0 then 1.0 else machine.memory - memoryReserve)
  {
    NumberIsSpelled(cpu, n);
  }

  /** A budget is refused exactly for an override that is no positive number or size. */
  lemma BadOverrides(machine: Budget, coreReserve: int, memoryReserve: real, cpu: string, memory: string)
    ensures ResolveBudget(machine, coreReserve, memoryReserve, cpu, memory).Err? <==>
            || (cpu != "" && forall n :: SpellsNumber(cpu, n) ==> n <= 0)
            || (memory != "" && (ParseText(memory).Ok? ==> ParseText(memory).value <= 0.0))
  {
    forall n ensures ParseInt(cpu) == Some(n) <==> SpellsNumber(cpu, n) { NumberIsSpelled(cpu, n); }
    if ParseInt(cpu).Some? { assert SpellsNumber(cpu, ParseInt(cpu).value); }
  }

  /** A count never passes its ceiling, and only a text spelling zero passes below one. */
  lemma CountIsBounded(configured: Setting, ceiling: int)
    requires ceiling >= 1 && ResolveCount(configured, ceiling).Ok?
    ensures 0 <= ResolveCount(configured, ceiling).value.effective <= ceiling
    ensures ResolveCount(configured, ceiling).value.effective == 0
        <==> configured.Text? && !IsAuto(configured) && ParseInt(configured.text) == Some(0)
  {
  }

  /** Zero workers: the number 0 asks for the ceiling, the text "0" is taken as a count. */
  lemma TextZeroIsNoWorkers(ceiling: int)
    requires ceiling >= 1
    ensures ResolveCount(Number(0.0), ceiling) == Ok(Resolution(ceiling, Derived))
    ensures ResolveCount(Text("0"), ceiling) == Ok(Resolution(0, Pinned))
  {
    assert Left("0", IsSpace) == "0" && TrimEnd("0") == "0";
    assert UpperAll("0") == "0";
    assert Digits("0") == 0;
  }

  /** The largest pool, within the cores, whose workers fit `room` together; one worker is always granted. */
  predicate IsLargestPool(n: int, cores: int, room: real, worker: real) {
    && 1 <= n
    && (n > 1 ==> n <= cores && Need(n, worker) <= room)
    && (n < cores ==> Need(n + 1, worker) > room)
  }

  /** There is only one such pool. */
  lemma LargestPoolIsUnique(n: int, k: int, cores: int, room: real, worker: real)
    requires worker > 0.0 && cores >= 1
    requires IsLargestPool(n, cores, room, worker) && IsLargestPool(k, cores, room, worker)
    ensures n == k
  {
    if n < k { MoreNeedMore(n + 1, k, worker); }
    if k < n { MoreNeedMore(k + 1, n, worker); }
  }

  /** Capping the number that fits by the cores gives the largest pool. */
  lemma CappedFitIsLargest(n: int, cores: int, room: real, worker: real)
    requires worker > 0.0 && cores >= 1 && n == Larger(1, Smaller(cores, Fits(room, worker)))
    ensures IsLargestPool(n, cores, room, worker)
  {
    FitsIsLargest(room, worker);
    var k := Fits(room, worker);
    if n > 1 { MoreNeedMore(n, k, worker); }
    if n < cores { MoreNeedMore(Larger(0, k + 1), n + 1, worker); }
  }

  lemma CeilingsAreLargestPools(budget: Budget, worker: real, driver: real)
    requires worker > 0.0 && budget.cores >= 1
    ensures IsLargestPool(PopsimCeiling(budget, worker), budget.cores, budget.memory, worker)
    ensures IsLargestPool(ChainsolverCeiling(budget, worker, driver), budget.cores, budget.memory - driver, worker)
  {
    CappedFitIsLargest(PopsimCeiling(budget, worker), budget.cores, budget.memory, worker);
    CappedFitIsLargest(ChainsolverCeiling(budget, worker, driver), budget.cores, budget.memory - driver, worker);
  }

  /** Both pools are counts below the largest pool; a worker of no size and a driver of negative size are refused. */
  lemma WorkersAreCounts(configured: Setting, budget: Budget, worker: real, driver: real, n: int)
    requires budget.cores >= 1
    ensures worker <= 0.0 ==>
      PopsimWorkers(configured, budget, worker).Err? && ChainsolverWorkers(configured, budget, worker, driver).Err?
    ensures driver < 0.0 ==> ChainsolverWorkers(configured, budget, worker, driver).Err?
    ensures worker > 0.0 && IsLargestPool(n, budget.cores, budget.memory, worker) ==>
      PopsimWorkers(configured, budget, worker) == ResolveCount(configured, n)
    ensures worker > 0.0 && driver >= 0.0 && IsLargestPool(n, budget.cores, budget.memory - driver, worker) ==>
      ChainsolverWorkers(configured, budget, worker, driver) == ResolveCount(configured, n)
  {
    if worker > 0.0 {
      CeilingsAreLargestPools(budget, worker, driver);
      if IsLargestPool(n, budget.cores, budget.memory, worker) {
        LargestPoolIsUnique(n, PopsimCeiling(budget, worker), budget.cores, budget.memory, worker);
      }
      if IsLargestPool(n, budget.cores, budget.memory - driver, worker) {
        LargestPoolIsUnique(n, ChainsolverCeiling(budget, worker, driver), budget.cores, budget.memory - driver, worker);
      }
    }
  }

  /** A count resolved against the largest pool fits the room unless at most one worker was granted. */
  lemma CountFitsRoom(configured: Setting, ceiling: int, cores: int, room: real, worker: real)
    requires worker > 0.0 && IsLargestPool(ceiling, cores, room, worker) && ResolveCount(configured, ceiling).Ok?
    ensures var n := ResolveCount(configured, ceiling).value.effective;
            n > 1 ==> Need(n, worker) <= room
  {
    var n := ResolveCount(configured, ceiling).value.effective;
    CountIsBounded(configured, ceiling);
    MoreNeedMore(n, ceiling, worker);
  }

  /** PopulationSim's workers fit the memory budget unless at most one was granted. */
  lemma PopsimFitsBudget(configured: Setting, budget: Budget, worker: real)
    requires budget.cores >= 1 && PopsimWorkers(configured, budget, worker).Ok?
    ensures var n := PopsimWorkers(configured, budget, worker).value.effective;
            n > 1 ==> Need(n, worker) <= budget.memory
  {
    CeilingsAreLargestPools(budget, worker, 0.0);
    CountFitsRoom(configured, PopsimCeiling(budget, worker), budget.cores, budget.memory, worker);
  }

  /** The chainsolver's workers and the driver they are forked from fit it together, unless at most one was granted. */
  lemma ChainsolverFitsBudget(configured: Setting, budget: Budget, worker: real, driver: real)
    requires budget.cores >= 1 && ChainsolverWorkers(configured, budget, worker, driver).Ok?
    ensures var n := ChainsolverWorkers(configured, budget, worker, driver).value.effective;
            n > 1 ==> Need(n, worker) + driver <= budget.memory
  {
    CeilingsAreLargestPools(budget, worker, driver);
    CountFitsRoom(configured, ChainsolverCeiling(budget, worker, driver), budget.cores, budget.memory - driver, worker);
  }

  /** The startup preview bounds the stage's own count from above, whatever the driver and a worker hold. */
  lemma PreviewIsUpperBound(configured: Setting, budget: Budget, worker: real, driver: real)
    requires budget.cores >= 1 && worker > 0.0 && driver >= 0.0
    ensures var preview, stage := CorePreview(configured, budget.cores), ChainsolverWorkers(configured, budget, worker, driver);
            && (preview.Ok? <==> stage.Ok?)
            && (stage.Ok? ==> stage.value.effective <= preview.value)
  {
  }

  /** The startup check of the PopulationSim pool against the memory budget. */
  predicate PoolExceedsBudget(workers: nat, budget: Budget, worker: real) {
    Need(workers, worker) > budget.memory
  }

  /** The check fires exactly when some worker is granted and a single one exceeds the budget, as its message says. */
  lemma ViolationMeansOneWorkerTooBig(configured: Setting, budget: Budget, worker: real, n: nat)
    requires budget.cores >= 1 && budget.memory > 0.0 && PopsimWorkers(configured, budget, worker).Ok?
    requires n == PopsimWorkers(configured, budget, worker).value.effective
    ensures PoolExceedsBudget(n, budget, worker) <==> n >= 1 && worker > budget.memory
  {
    PopsimFitsBudget(configured, budget, worker);
    assert Need(1, worker) == worker;
    if n >= 1 { MoreNeedMore(1, n, worker); }
  }
}

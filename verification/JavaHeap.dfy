/** The heap of a Java process, after the memory its driver already holds. */
module JavaHeap {
  import opened Wrappers
  import opened MemorySizes
  import opened Resources

  /** The heap size for a memory budget; a text that fits is handed on as it stands. */
  function ResolveJavaMemory(configured: Setting, memory: real): Result<Resolution<string>, Fault> {
    if IsAuto(configured) then Ok(Resolution(Format(memory), Derived))
    else match configured
      case Text(text) =>
        (match ParseText(text)
         case Err(_) => Err(BadSize)
         case Ok(gb) =>
           if gb <= 0.0 then Err(NonPositiveSize)
           else if gb > memory then Ok(Resolution(Format(memory), Clamped))
           else Ok(Resolution(text, Pinned)))
      case Number(gb) =>
        if gb <= 0.0 then Err(NonPositiveSize)
        else if gb > memory then Ok(Resolution(Format(memory), Clamped))
        else Ok(Resolution(Format(gb), Pinned))
      case _ => Err(BadSize)
  }

  function Room(memory: real, driver: Option<real>): real {
    LargerReal(1.0, memory - if driver.Some? then driver.value else 0.0)
  }

  /** The heap of a process started by a driver of the given size; an unknown size counts as nothing. */
  function EffectiveHeap(configured: Setting, memory: real, driver: Option<real>): Result<string, Fault> {
    if driver.Some? && driver.value < 0.0 then Err(NegativeFootprint)
    else HeapIn(configured, Room(memory, driver))
  }

  function HeapIn(configured: Setting, memory: real): Result<string, Fault> {
    match ResolveJavaMemory(configured, memory)
    case Err(fault) => Err(fault)
    case Ok(r) => Ok(r.effective)
  }

  /** Gigabytes of a resolved heap. */
  function HeapSize(heap: string): real {
    match ParseText(heap)
    case Ok(gb) => gb
    case Err(_) => 0.0
  }

  /** A heap stays within the memory it was resolved against, except for the floor of one gigabyte. */
  lemma HeapFitsMemory(configured: Setting, memory: real)
    requires ResolveJavaMemory(configured, memory).Ok?
    ensures ParseText(ResolveJavaMemory(configured, memory).value.effective).Ok?
    ensures HeapSize(ResolveJavaMemory(configured, memory).value.effective) <= LargerReal(1.0, memory)
  {
    FormatParses(memory);
    if configured.Number? { FormatParses(configured.value); }
  }

  /** `n` gigabytes, written for a JVM, are `memory` rounded down, but at least one. */
  predicate IsRoundedDown(n: nat, memory: real) {
    n >= 1 && memory < (n + 1) as real && (n as real <= memory || n == 1)
  }

  /** The heap is whole gigabytes of that memory. */
  ghost predicate IsWhole(heap: string, memory: real) {
    exists n: nat :: IsRoundedDown(n, memory) && heap == Decimal(n) + "G"
  }

  /** It is read back as that number of gigabytes. */
  lemma WholeIsRead(heap: string, memory: real) returns (n: nat)
    requires IsWhole(heap, memory)
    ensures IsRoundedDown(n, memory) && ParseText(heap) == Ok(n as real)
  {
    n :| IsRoundedDown(n, memory) && heap == Decimal(n) + "G";
    CountedSize(n, "G");
  }

  lemma FormatIsWhole(memory: real)
    ensures IsWhole(Format(memory), memory)
  {
    assert IsRoundedDown(WholeGigabytes(memory), memory);
  }

  /** What a heap becomes: left open or too large, the memory in whole gigabytes; a text that fits, as it stands; a number
      that fits, in whole gigabytes. */
  lemma HeapIsRequest(configured: Setting, memory: real)
    requires ResolveJavaMemory(configured, memory).Ok?
    ensures var heap := ResolveJavaMemory(configured, memory).value;
      && (LeavesOpen(configured) ==> heap.origin == Derived && IsWhole(heap.effective, memory))
      && (!LeavesOpen(configured) && configured.Text? && ParseText(configured.text).Ok? ==>
            if ParseText(configured.text).value <= memory then heap == Resolution(configured.text, Pinned)
            else heap.origin == Clamped && IsWhole(heap.effective, memory))
      && (!LeavesOpen(configured) && configured.Number? ==>
            if configured.value <= memory then heap.origin == Pinned && IsWhole(heap.effective, configured.value)
            else heap.origin == Clamped && IsWhole(heap.effective, memory))
  {
    OpenIsAuto(configured);
    FormatIsWhole(memory);
    if configured.Number? { FormatIsWhole(configured.value); }
  }

  /** A heap is refused exactly for a flag and for what is no positive size. */
  lemma BadHeaps(configured: Setting, memory: real)
    ensures ResolveJavaMemory(configured, memory).Err? <==>
            && !LeavesOpen(configured)
            && match configured
               case Text(text) => ParseText(text).Ok? ==> ParseText(text).value <= 0.0
               case Number(value) => value < 0.0
               case _ => true
  {
    OpenIsAuto(configured);
  }

  /** The same heap, or both refused. */
  predicate SameHeap(a: Result<string, Fault>, b: Result<Resolution<string>, Fault>) {
    (a.Ok? <==> b.Ok?) && (a.Ok? ==> a.value == b.value.effective)
  }

  /** The heap of a process is resolved against what the driver leaves, at least a gigabyte. */
  lemma HeapIsOfTheRest(configured: Setting, memory: real, driver: real)
    ensures driver < 0.0 ==> EffectiveHeap(configured, memory, Some(driver)).Err?
    ensures driver >= 0.0 ==>
      SameHeap(EffectiveHeap(configured, memory, Some(driver)),
               ResolveJavaMemory(configured, if memory - driver >= 1.0 then memory - driver else 1.0))
    ensures EffectiveHeap(configured, memory, None) == EffectiveHeap(configured, memory, Some(0.0))
  {
  }

  predicate IsPinnedText(configured: Setting, memory: real) {
    configured.Text? && !IsAuto(configured) && HeapSize(configured.text) <= memory
  }

  /** With less than a gigabyte to give, only a text that fits as it stands stays within it: all else gets "1G". */
  lemma FloorExceedsSmallMemory(configured: Setting, memory: real)
    requires memory < 1.0 && ResolveJavaMemory(configured, memory).Ok?
    ensures HeapSize(ResolveJavaMemory(configured, memory).value.effective) <= memory <==> IsPinnedText(configured, memory)
  {
    FormatParses(memory);
    if configured.Number? { FormatParses(configured.value); }
  }

  lemma HeapStaysInRoom(configured: Setting, room: real)
    requires room >= 1.0 && HeapIn(configured, room).Ok?
    ensures HeapSize(HeapIn(configured, room).value) <= room
  {
    HeapFitsMemory(configured, room);
  }

  /** Driver and heap share the budget; what exceeds it is at most the floor of one gigabyte. */
  lemma HeapLeavesRoomForDriver(configured: Setting, memory: real, driver: real)
    requires EffectiveHeap(configured, memory, Some(driver)).Ok?
    ensures var size := HeapSize(EffectiveHeap(configured, memory, Some(driver)).value);
            size + driver <= memory || size <= 1.0
  {
    HeapStaysInRoom(configured, Room(memory, Some(driver)));
  }

  lemma WholeGigabytesGrow(a: real, b: real)
    requires a <= b
    ensures WholeGigabytes(a) <= WholeGigabytes(b)
  {
  }

  /** Both rejected, or the first no larger than the second. */
  predicate NoLarger(a: Result<string, Fault>, b: Result<string, Fault>) {
    (a.Ok? <==> b.Ok?) && (a.Ok? ==> HeapSize(a.value) <= HeapSize(b.value))
  }

  /** More memory never gives a smaller heap, once there is a gigabyte to give. */
  lemma HeapGrowsWithMemory(configured: Setting, less: real, more: real)
    requires 1.0 <= less <= more
    ensures NoLarger(HeapIn(configured, less), HeapIn(configured, more))
  {
    FormatParses(less);
    FormatParses(more);
    WholeGigabytesGrow(less, more);
    if configured.Number? {
      FormatParses(configured.value);
      if configured.value > less { WholeGigabytesGrow(less, configured.value); }
    }
  }

  /** A larger driver never gets a larger heap, and is rejected for the same settings. */
  lemma HeapShrinksWithDriver(configured: Setting, memory: real, small: real, large: real)
    requires 0.0 <= small <= large
    ensures NoLarger(EffectiveHeap(configured, memory, Some(large)), EffectiveHeap(configured, memory, Some(small)))
  {
    HeapGrowsWithMemory(configured, Room(memory, Some(large)), Room(memory, Some(small)));
  }
}

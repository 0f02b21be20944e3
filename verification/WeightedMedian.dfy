/** `weighted_median`: sort, prefix sums and a search for half the total weight. */
module WeightedMedian {
  import opened Wrappers

  datatype Observation = Observation(value: real, weight: real)

  datatype Error = EmptyOrWeightless

  /** Which observations a sum of weights takes. */
  datatype Side = All | Below(bound: real) | UpTo(bound: real)

  predicate Takes(side: Side, value: real) {
    match side
    case All => true
    case Below(bound) => value < bound
    case UpTo(bound) => value <= bound
  }

  function Taken(o: Observation, side: Side): real {
    if Takes(side, o.value) then o.weight else 0.0
  }

  function Weight(obs: seq<Observation>, side: Side): real {
    if obs == [] then 0.0 else Taken(obs[0], side) + Weight(obs[1..], side)
  }

  function Total(obs: seq<Observation>): real {
    Weight(obs, All)
  }

  predicate NonNegative(obs: seq<Observation>) {
    forall o :: o in obs ==> o.weight >= 0.0
  }

  predicate Occurs(obs: seq<Observation>, m: real) {
    exists i :: 0 <= i < |obs| && obs[i].value == m
  }

  /** `m` is an input value, less than half the total lies below it and at least half does not lie above it. */
  predicate IsMedian(obs: seq<Observation>, m: real) {
    Occurs(obs, m) && Weight(obs, Below(m)) < 0.5 * Total(obs) <= Weight(obs, UpTo(m))
  }

  // ----- sums of weights

  lemma {:induction false} WeightOfConcat(a: seq<Observation>, b: seq<Observation>, side: Side)
    ensures Weight(a + b, side) == Weight(a, side) + Weight(b, side)
  {
    if a == [] {
      assert a + b == b;
    } else {
      assert (a + b)[1..] == a[1..] + b;
      WeightOfConcat(a[1..], b, side);
    }
  }

  /** Taking more observations never weighs less. */
  lemma {:induction false} WeightGrows(obs: seq<Observation>, a: Side, b: Side)
    requires NonNegative(obs)
    requires forall o :: o in obs && Takes(a, o.value) ==> Takes(b, o.value)
    ensures Weight(obs, a) <= Weight(obs, b)
  {
    if obs != [] {
      assert obs[0] in obs;
      WeightGrows(obs[1..], a, b);
    }
  }

  lemma {:induction false} WeightIsNonNegative(obs: seq<Observation>, side: Side)
    requires NonNegative(obs)
    ensures Weight(obs, side) >= 0.0
  {
    if obs != [] {
      assert obs[0] in obs;
      WeightIsNonNegative(obs[1..], side);
    }
  }

  lemma {:induction false} NothingTaken(obs: seq<Observation>, side: Side)
    requires forall o :: o in obs ==> !Takes(side, o.value)
    ensures Weight(obs, side) == 0.0
  {
    if obs != [] {
      assert obs[0] in obs;
      NothingTaken(obs[1..], side);
    }
  }

  function Without(obs: seq<Observation>, i: nat): seq<Observation>
    requires i < |obs|
  {
    obs[..i] + obs[i + 1..]
  }

  lemma WithoutOne(obs: seq<Observation>, i: nat, side: Side)
    requires i < |obs|
    ensures multiset(Without(obs, i)) == multiset(obs) - multiset{obs[i]}
    ensures Weight(obs, side) == Taken(obs[i], side) + Weight(Without(obs, i), side)
  {
    var head, tail := obs[..i], obs[i + 1..];
    assert obs == head + ([obs[i]] + tail);
    WeightOfConcat(head, [obs[i]] + tail, side);
    WeightOfConcat(head, tail, side);
    WeightOfFirst(obs[i], tail, side);
  }

  lemma {:induction false} WeightOfPermutation(a: seq<Observation>, b: seq<Observation>, side: Side)
    requires multiset(a) == multiset(b)
    ensures Weight(a, side) == Weight(b, side)
    decreases |a|
  {
    if a == [] {
      assert |b| == |multiset(b)| == 0;
    } else {
      assert a[0] in multiset(b);
      var i :| 0 <= i < |b| && b[i] == a[0];
      WithoutOne(a, 0, side);
      WithoutOne(b, i, side);
      WeightOfPermutation(Without(a, 0), Without(b, i), side);
    }
  }

  lemma WeightOfFirst(o: Observation, rest: seq<Observation>, side: Side)
    ensures Weight([o] + rest, side) == Taken(o, side) + Weight(rest, side)
  {
    assert ([o] + rest)[1..] == rest;
  }

  // ----- the computation

  function Zip(values: seq<real>, weights: seq<real>): seq<Observation>
    requires |values| == |weights|
  {
    seq(|values|, i requires 0 <= i < |values| => Observation(values[i], weights[i]))
  }

  function Picked(obs: seq<Observation>, order: seq<nat>): seq<Observation>
    requires forall k :: 0 <= k < |order| ==> order[k] < |obs|
  {
    seq(|order|, k requires 0 <= k < |order| => obs[order[k]])
  }

  predicate Ascending(obs: seq<Observation>) {
    forall i, j :: 0 <= i < j < |obs| ==> obs[i].value <= obs[j].value
  }

  ghost predicate Sorts(obs: seq<Observation>, order: seq<nat>, n: nat)
    requires n <= |obs|
  {
    && (forall k :: 0 <= k < |order| ==> order[k] < |obs|)
    && Ascending(Picked(obs, order))
    && multiset(Picked(obs, order)) == multiset(obs[..n])
  }

  function Inserted(s: seq<Observation>, at: nat, o: Observation): seq<Observation>
    requires at <= |s|
  {
    s[..at] + [o] + s[at..]
  }

  lemma InsertedIsAscending(s: seq<Observation>, at: nat, o: Observation)
    requires at <= |s| && Ascending(s)
    requires forall k :: 0 <= k < at ==> s[k].value <= o.value
    requires at < |s| ==> s[at].value >= o.value
    ensures Ascending(Inserted(s, at, o))
    ensures multiset(Inserted(s, at, o)) == multiset(s) + multiset{o}
  {
    assert s == s[..at] + s[at..];
  }

  lemma InsertionSorts(obs: seq<Observation>, order: seq<nat>, n: nat, at: nat)
    requires n < |obs| && Sorts(obs, order, n) && at <= |order|
    requires forall k :: 0 <= k < at ==> obs[order[k]].value <= obs[n].value
    requires at < |order| ==> obs[order[at]].value >= obs[n].value
    ensures Sorts(obs, order[..at] + [n] + order[at..], n + 1)
  {
    var s, next := Picked(obs, order), order[..at] + [n] + order[at..];
    InsertedIsAscending(s, at, obs[n]);
    assert Picked(obs, next) == Inserted(s, at, obs[n]);
    assert obs[..n + 1] == obs[..n] + [obs[n]];
  }

  method InsertionPoint(obs: seq<Observation>, order: seq<nat>, n: nat) returns (at: nat)
    requires n < |obs| && forall k :: 0 <= k < |order| ==> order[k] < |obs|
    ensures at <= |order|
    ensures forall k :: 0 <= k < at ==> obs[order[k]].value <= obs[n].value
    ensures at < |order| ==> obs[order[at]].value >= obs[n].value
  {
    at := 0;
    while at < |order| && obs[order[at]].value < obs[n].value
      invariant at <= |order|
      invariant forall k :: 0 <= k < at ==> obs[order[k]].value <= obs[n].value
    {
      at := at + 1;
    }
  }

  /** Some order that sorts the values; equal values may come in any order. */
  method Argsort(obs: seq<Observation>) returns (order: seq<nat>)
    ensures Sorts(obs, order, |obs|)
  {
    order := [];
    for n := 0 to |obs|
      invariant Sorts(obs, order, n)
    {
      var at := InsertionPoint(obs, order, n);
      InsertionSorts(obs, order, n, at);
      order := order[..at] + [n] + order[at..];
    }
  }

  method PrefixSums(obs: seq<Observation>) returns (sums: seq<real>)
    ensures |sums| == |obs| && forall i :: 0 <= i < |obs| ==> sums[i] == Total(obs[..i + 1])
  {
    sums := [];
    var sum := 0.0;
    for i := 0 to |obs|
      invariant |sums| == i && sum == Total(obs[..i])
      invariant forall k :: 0 <= k < i ==> sums[k] == Total(obs[..k + 1])
    {
      assert obs[..i + 1] == obs[..i] + [obs[i]];
      WeightOfConcat(obs[..i], [obs[i]], All);
      sum := sum + obs[i].weight;
      sums := sums + [sum];
    }
  }

  /** Binary search for where the sums first reach `key`; on sums in any order it still ends at a crossing. */
  method SearchSorted(sums: seq<real>, key: real) returns (at: nat)
    ensures at <= |sums|
    ensures at > 0 ==> sums[at - 1] < key
    ensures at < |sums| ==> key <= sums[at]
  {
    var lo, hi := 0, |sums|;
    while lo < hi
      invariant 0 <= lo <= hi <= |sums|
      invariant lo > 0 ==> sums[lo - 1] < key
      invariant hi < |sums| ==> key <= sums[hi]
    {
      var mid := lo + (hi - lo) / 2;
      if sums[mid] < key { lo := mid + 1; } else { hi := mid; }
    }
    at := lo;
  }

  /** The value at which the prefix sums of an ascending list cross half the total is the median. */
  lemma CrossingIsMedian(obs: seq<Observation>, at: nat)
    requires NonNegative(obs) && Ascending(obs) && at < |obs|
    requires Total(obs[..at]) < 0.5 * Total(obs) <= Total(obs[..at + 1])
    ensures IsMedian(obs, obs[at].value)
  {
    var m := obs[at].value;
    var head, tail := obs[..at], obs[at..];
    var within, beyond := obs[..at + 1], obs[at + 1..];
    assert obs == head + tail && obs == within + beyond;
    WeightOfConcat(head, tail, Below(m));
    NothingTaken(tail, Below(m));
    WeightGrows(head, Below(m), All);
    WeightOfConcat(within, beyond, UpTo(m));
    WeightIsNonNegative(beyond, UpTo(m));
    WeightGrows(within, All, UpTo(m));
  }

  lemma MedianOfPermutation(a: seq<Observation>, b: seq<Observation>, m: real)
    requires multiset(a) == multiset(b)
    ensures IsMedian(a, m) <==> IsMedian(b, m)
  {
    WeightOfPermutation(a, b, Below(m));
    WeightOfPermutation(a, b, UpTo(m));
    WeightOfPermutation(a, b, All);
    if Occurs(a, m) { OccursInPermutation(a, b, m); }
    if Occurs(b, m) { OccursInPermutation(b, a, m); }
  }

  lemma OccursInPermutation(a: seq<Observation>, b: seq<Observation>, m: real)
    requires multiset(a) == multiset(b) && Occurs(a, m)
    ensures Occurs(b, m)
  {
    var i :| 0 <= i < |a| && a[i].value == m;
    assert a[i] in multiset(b);
    var j :| 0 <= j < |b| && b[j] == a[i];
  }

  /** In some order that sorts the values, the running total crosses half the total at an observation of value `m`: it is
      under half before it and at least half with it. */
  ghost predicate CrossesHalfAt(obs: seq<Observation>, m: real) {
    exists sorted, at :: IsCrossing(obs, sorted, at, m)
  }

  ghost predicate IsCrossing(obs: seq<Observation>, sorted: seq<Observation>, at: nat, m: real) {
    && multiset(sorted) == multiset(obs) && Ascending(sorted)
    && at < |sorted| && sorted[at].value == m
    && Total(sorted[..at]) < 0.5 * Total(obs) <= Total(sorted[..at + 1])
  }

  method Median(values: seq<real>, weights: seq<real>) returns (r: Result<real, Error>)
    requires |values| == |weights|
    ensures r.Err? <==> values == [] || Total(Zip(values, weights)) <= 0.0
    ensures r.Ok? ==> r.value in values && CrossesHalfAt(Zip(values, weights), r.value)
    ensures r.Ok? && NonNegative(Zip(values, weights)) ==> IsMedian(Zip(values, weights), r.value)
  {
    var obs := Zip(values, weights);
    var given := PrefixSums(obs);
    assert obs[..|obs|] == obs;
    if |values| == 0 || given[|given| - 1] <= 0.0 { return Err(EmptyOrWeightless); }
    var order := Argsort(obs);
    var sorted := Picked(obs, order);
    assert multiset(sorted) == multiset(obs) by { assert obs[..|obs|] == obs; }
    WeightOfPermutation(sorted, obs, All);
    assert |sorted| == |multiset(sorted)| == |multiset(obs)| == |obs|;
    var sums := PrefixSums(sorted);
    assert sorted[..|sorted|] == sorted;
    var at := SearchSorted(sums, 0.5 * sums[|sums| - 1]);
    r := Ok(sorted[at].value);
    assert sorted[at] == obs[order[at]];
    assert at > 0 ==> sums[at - 1] == Total(sorted[..at]);
    assert IsCrossing(obs, sorted, at, r.value);
    if NonNegative(obs) {
      assert forall o :: o in sorted ==> o in multiset(obs);
      CrossingIsMedian(sorted, at);
      MedianOfPermutation(sorted, obs, r.value);
    }
  }

  // ----- what the rank bounds fix

  /** With non-negative weights at most one value meets the rank bounds. */
  lemma MedianIsUnique(obs: seq<Observation>, a: real, b: real)
    requires NonNegative(obs) && IsMedian(obs, a) && IsMedian(obs, b)
    ensures a == b
  {
    if a < b { WeightGrows(obs, UpTo(a), Below(b)); }
    if b < a { WeightGrows(obs, UpTo(b), Below(a)); }
  }

  /** The documented reading: the smallest input value at which the weight up to it reaches half the total. */
  lemma MedianIsSmallestReachingHalf(obs: seq<Observation>, m: real)
    requires NonNegative(obs) && Total(obs) > 0.0
    ensures IsMedian(obs, m) <==>
            && Occurs(obs, m)
            && 0.5 * Total(obs) <= Weight(obs, UpTo(m))
            && forall o :: o in obs && o.value < m ==> Weight(obs, UpTo(o.value)) < 0.5 * Total(obs)
  {
    forall o | o in obs && o.value < m ensures Weight(obs, UpTo(o.value)) <= Weight(obs, Below(m)) {
      WeightGrows(obs, UpTo(o.value), Below(m));
    }
    BelowIsUpToPredecessor(obs, m);
  }

  /** The weight below a bound is nothing, or the weight up to some smaller input value. */
  lemma BelowIsUpToPredecessor(obs: seq<Observation>, m: real)
    requires NonNegative(obs)
    ensures Weight(obs, Below(m)) == 0.0
         || exists o :: o in obs && o.value < m && Weight(obs, UpTo(o.value)) == Weight(obs, Below(m))
  {
    var p := Predecessor(obs, m);
    if p.None? {
      NothingTaken(obs, Below(m));
    } else {
      WeightGrows(obs, UpTo(p.value.value), Below(m));
      WeightGrows(obs, Below(m), UpTo(p.value.value));
    }
  }

  /** An observation with the largest value below a bound. */
  function Predecessor(obs: seq<Observation>, m: real): (p: Option<Observation>)
    ensures p.None? ==> forall o :: o in obs ==> o.value >= m
    ensures p.Some? ==> p.value in obs && p.value.value < m
    ensures p.Some? ==> forall o :: o in obs && o.value < m ==> o.value <= p.value.value
  {
    if obs == [] then None
    else
      var rest := Predecessor(obs[1..], m);
      if obs[0].value < m && (rest.None? || rest.value.value < obs[0].value) then Some(obs[0]) else rest
  }

  /** Splitting one observation's weight between two observations of its value. */
  lemma SplittingKeepsMedian(obs: seq<Observation>, i: nat, part: real, m: real)
    requires i < |obs|
    ensures var o := obs[i];
            var split := obs[..i] + [Observation(o.value, part), Observation(o.value, o.weight - part)] + obs[i + 1..];
            IsMedian(split, m) <==> IsMedian(obs, m)
  {
    var o := obs[i];
    var head, tail := obs[..i], obs[i + 1..];
    var two := [Observation(o.value, part), Observation(o.value, o.weight - part)];
    var split := head + two + tail;
    assert obs == head + [o] + tail;
    forall side ensures Weight(split, side) == Weight(obs, side) {
      WeightOfConcat(head, two, side);
      WeightOfConcat(head + two, tail, side);
      WeightOfConcat(head, [o], side);
      WeightOfConcat(head + [o], tail, side);
      assert two == [two[0]] + [two[1]];
      WeightOfFirst(two[0], [two[1]], side);
    }
    if k :| 0 <= k < |obs| && obs[k].value == m {
      assert split[if k <= i then k else k + 1].value == m;
    }
    if k :| 0 <= k < |split| && split[k].value == m {
      assert obs[if k <= i then k else k - 1].value == m;
    }
  }

  // ----- scaling the weights

  predicate AddsUp(scale: real -> real, x: real, y: real) {
    scale(x + y) == scale(x) + scale(y)
  }

  predicate KeepsSign(scale: real -> real, x: real) {
    scale(x) > 0.0 <==> x > 0.0
  }

  /** A change of unit: it adds up and keeps what is positive. */
  ghost predicate IsUnitChange(scale: real -> real) {
    (forall x, y :: AddsUp(scale, x, y)) && (forall x :: KeepsSign(scale, x))
  }

  function Rescaled(o: Observation, scale: real -> real): Observation {
    Observation(o.value, scale(o.weight))
  }

  function Scaled(obs: seq<Observation>, scale: real -> real): (r: seq<Observation>)
    ensures |r| == |obs| && forall i :: 0 <= i < |obs| ==> r[i] == Rescaled(obs[i], scale)
  {
    if obs == [] then [] else [Rescaled(obs[0], scale)] + Scaled(obs[1..], scale)
  }

  lemma {:induction false} WeightOfScaled(obs: seq<Observation>, scale: real -> real, side: Side)
    requires IsUnitChange(scale)
    ensures Weight(Scaled(obs, scale), side) == scale(Weight(obs, side))
  {
    assert AddsUp(scale, 0.0, 0.0);
    if obs != [] {
      WeightOfScaled(obs[1..], scale, side);
      WeightOfFirst(Rescaled(obs[0], scale), Scaled(obs[1..], scale), side);
      assert AddsUp(scale, Taken(obs[0], side), Weight(obs[1..], side));
    }
  }

  /** Scaling keeps how the weight on one side compares with half the total. */
  lemma ScalingKeepsHalf(obs: seq<Observation>, scale: real -> real, side: Side)
    requires IsUnitChange(scale)
    ensures Weight(Scaled(obs, scale), side) < 0.5 * Total(Scaled(obs, scale)) <==> Weight(obs, side) < 0.5 * Total(obs)
  {
    var part, half := Weight(obs, side), 0.5 * Total(obs);
    WeightOfScaled(obs, scale, side);
    WeightOfScaled(obs, scale, All);
    assert AddsUp(scale, half, half) && AddsUp(scale, half - part, part) && KeepsSign(scale, half - part);
  }

  lemma OccursInScaled(obs: seq<Observation>, scale: real -> real, m: real)
    ensures Occurs(Scaled(obs, scale), m) <==> Occurs(obs, m)
  {
    var scaled := Scaled(obs, scale);
    if k :| 0 <= k < |obs| && obs[k].value == m { assert scaled[k].value == m; }
    if k :| 0 <= k < |scaled| && scaled[k].value == m { assert obs[k].value == m; }
  }

  lemma FactorIsUnitChange(factor: real)
    requires factor > 0.0
    ensures IsUnitChange(x => factor * x)
  {
    var scale := x => factor * x;
    forall x, y ensures AddsUp(scale, x, y) {}
    forall x ensures KeepsSign(scale, x) { assert factor * x > 0.0 <==> x > 0.0; }
  }

  /** Multiplying all weights by a positive factor keeps the median. */
  lemma ScalingKeepsMedian(obs: seq<Observation>, factor: real, m: real)
    requires factor > 0.0
    ensures IsMedian(Scaled(obs, x => factor * x), m) <==> IsMedian(obs, m)
  {
    var scale := x => factor * x;
    FactorIsUnitChange(factor);
    UnitChangeKeepsMedian(obs, scale, m);
  }

  lemma UnitChangeKeepsMedian(obs: seq<Observation>, scale: real -> real, m: real)
    requires IsUnitChange(scale)
    ensures IsMedian(Scaled(obs, scale), m) <==> IsMedian(obs, m)
  {
    ScalingKeepsHalf(obs, scale, Below(m));
    ScalingKeepsHalf(obs, scale, UpTo(m));
    OccursInScaled(obs, scale, m);
  }
}

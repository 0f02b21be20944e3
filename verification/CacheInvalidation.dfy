/** `_drop_incoherent_metadata`: the worklist for descendants and the rounds that delete records. */
module CacheInvalidation {
  import opened Wrappers
  import opened Graphs
  import opened CacheRecords

  function Elements(s: seq<Entry>): set<Entry> {
    set x | x in s
  }

  type Counts = map<Reason, nat>

  function Count(counts: Counts, reason: Reason): nat {
    if reason in counts then counts[reason] else 0
  }

  ghost function WithReason(registry: Registry, stale: set<Entry>, reason: Reason): set<Entry> {
    set e | e in stale && e in registry && Incoherence(registry[e], registry) == Some(reason)
  }

  /** The reasons a call reports: first-round records by their own reason, all later ones as missing a parent. */
  ghost function Reported(registry: Registry, copied: set<Entry>, reason: Reason): nat {
    Found(registry, copied, Dropped(registry, copied), reason)
  }

  // ----- descendants

  function ChildrenOf(downstream: map<Entry, seq<Entry>>, p: Entry): seq<Entry> {
    if p in downstream then downstream[p] else []
  }

  /** `downstream` lists, for the records `seen`, the children of every parent. */
  ghost predicate ListsChildren(registry: Registry, seen: set<Entry>, downstream: map<Entry, seq<Entry>>) {
    forall p, c :: c in ChildrenOf(downstream, p) <==> c in seen && ChildEdge(registry)(p, c)
  }

  lemma NamesStep(ds: seq<Dependency>, d: Dependency, p: Entry)
    ensures Names(ds + [d], p) <==> Names(ds, p) || d.parent == p
  {
    if d.parent == p { assert d in ds + [d]; }
    if x :| x in ds && x.parent == p { assert x in ds + [d]; }
  }

  method AddChild(registry: Registry, ghost seen: set<Entry>, before: map<Entry, seq<Entry>>, c: Entry)
    returns (downstream: map<Entry, seq<Entry>>)
    requires c in registry && c !in seen && ListsChildren(registry, seen, before)
    ensures ListsChildren(registry, seen + {c}, downstream)
  {
    var ds := registry[c].dependencies;
    downstream := before;
    for i := 0 to |ds|
      invariant forall p, x :: x in ChildrenOf(downstream, p) <==>
        x in ChildrenOf(before, p) || (x == c && Names(ds[..i], p))
    {
      var q := ds[i].parent;
      assert ds[..i + 1] == ds[..i] + [ds[i]];
      ghost var last := downstream;
      downstream := downstream[q := ChildrenOf(downstream, q) + [c]];
      forall p, x ensures x in ChildrenOf(downstream, p) <==>
        x in ChildrenOf(before, p) || (x == c && Names(ds[..i + 1], p))
      {
        NamesStep(ds[..i], ds[i], p);
        assert x in ChildrenOf(downstream, p) <==> x in ChildrenOf(last, p) || (x == c && p == q);
      }
    }
    assert ds[..|ds|] == ds;
  }

  method ChildLists(registry: Registry) returns (downstream: map<Entry, seq<Entry>>)
    ensures ListsChildren(registry, registry.Keys, downstream)
  {
    downstream := map[];
    var todo := registry.Keys;
    while todo != {}
      invariant todo <= registry.Keys
      invariant ListsChildren(registry, registry.Keys - todo, downstream)
      decreases |todo|
    {
      var c :| c in todo;
      downstream := AddChild(registry, registry.Keys - todo, downstream, c);
      assert registry.Keys - (todo - {c}) == (registry.Keys - todo) + {c};
      todo := todo - {c};
    }
    assert registry.Keys - {} == registry.Keys;
  }

  /** The list `pending` grows while it is walked; its first `i` entries have been expanded. */
  ghost predicate Spreading(registry: Registry, copied: set<Entry>, affected: set<Entry>, pending: seq<Entry>, i: nat) {
    && i <= |pending|
    && affected == Elements(pending)
    && copied <= affected
    && affected <= copied + registry.Keys
    && (forall e :: e in affected ==> Affected(registry, copied, e))
    && forall k, c :: 0 <= k < i && ChildEdge(registry)(pending[k], c) ==> c in affected
  }

  /** Append those of `children` that are not yet in `affected`. */
  method AppendNew(children: seq<Entry>, before: set<Entry>, list: seq<Entry>) returns (affected: set<Entry>, pending: seq<Entry>)
    requires Elements(list) == before
    ensures affected == before + Elements(children)
    ensures Elements(pending) == affected && list <= pending
    ensures affected == before ==> pending == list
  {
    affected, pending := before, list;
    for j := 0 to |children|
      invariant affected == before + Elements(children[..j])
      invariant Elements(pending) == affected && list <= pending
      invariant affected == before ==> pending == list
    {
      var child := children[j];
      ElementsStep(children[..j], child);
      ElementsStep(pending, child);
      assert children[..j + 1] == children[..j] + [child];
      if child !in affected {
        affected := affected + {child};
        pending := pending + [child];
      }
    }
    assert children[..|children|] == children;
  }

  lemma ElementsStep(s: seq<Entry>, x: Entry)
    ensures Elements(s + [x]) == Elements(s) + {x}
  {
  }

  lemma SpreadStep(registry: Registry, copied: set<Entry>, before: set<Entry>, list: seq<Entry>, i: nat,
                   children: seq<Entry>, affected: set<Entry>, pending: seq<Entry>)
    requires Spreading(registry, copied, before, list, i) && i < |list|
    requires forall c :: c in children <==> ChildEdge(registry)(list[i], c)
    requires affected == before + Elements(children) && Elements(pending) == affected && list <= pending
    ensures Spreading(registry, copied, affected, pending, i + 1)
  {
    assert list[i] in Elements(list);
    forall c | c in children ensures Affected(registry, copied, c) { ChildIsAffected(registry, copied, list[i], c); }
    forall k, c | 0 <= k < i + 1 && ChildEdge(registry)(pending[k], c) ensures c in affected {
      assert pending[k] == list[k];
    }
  }

  /** Exactly the copied entries and their descendants. */
  method Descendants(registry: Registry, copied: seq<Entry>) returns (affected: set<Entry>)
    ensures forall e :: e in affected <==> Affected(registry, Elements(copied), e)
  {
    var downstream := ChildLists(registry);
    ghost var sources := Elements(copied);
    affected := Elements(copied);
    var pending := copied;
    forall e | e in sources { CopiedIsAffected(registry, sources, e); }
    var i := 0;
    while i < |pending|
      invariant Spreading(registry, sources, affected, pending, i)
      decreases |sources + registry.Keys - affected|, |pending| - i
    {
      ghost var before, list := affected, pending;
      var children := ChildrenOf(downstream, pending[i]);
      affected, pending := AppendNew(children, affected, pending);
      SpreadStep(registry, sources, before, list, i, children, affected, pending);
      FewerLeft(sources + registry.Keys, before, affected);
      i := i + 1;
    }
    SpreadIsComplete(registry, sources, affected, pending);
  }

  lemma SpreadIsComplete(registry: Registry, copied: set<Entry>, affected: set<Entry>, pending: seq<Entry>)
    requires Spreading(registry, copied, affected, pending, |pending|)
    ensures forall e :: e in affected <==> Affected(registry, copied, e)
  {
    var rel := ChildEdge(registry);
    forall p, c | p in affected && rel(p, c) ensures c in affected {
      var k :| 0 <= k < |pending| && pending[k] == p;
    }
    forall e | Affected(registry, copied, e) ensures e in affected {
      var a :| a in copied && Reaches(rel, a, e);
      ReachedStaysInClosed(rel, affected, a, e);
    }
  }

  // ----- rounds

  /** After some rounds the records `gone` have been deleted; `first` says that none has been completed. */
  ghost predicate Pruning(registry: Registry, copied: set<Entry>, current: Registry, gone: set<Entry>, first: bool) {
    && gone <= Dropped(registry, copied)
    && current == Without(registry, gone)
    && if first then gone == {} else StaleAtStart(registry, copied) <= gone
  }

  /** What a round finds stale is to be dropped; after the first round always for a missing parent. */
  lemma RoundFinds(registry: Registry, copied: set<Entry>, current: Registry, gone: set<Entry>, first: bool, e: Entry)
    requires Pruning(registry, copied, current, gone, first)
    requires e in current && Affected(registry, copied, e) && !Coherent(current[e], current)
    ensures e in Dropped(registry, copied)
    ensures first ==> e in StaleAtStart(registry, copied) && Incoherence(current[e], current) == Incoherence(registry[e], registry)
    ensures !first ==> e !in StaleAtStart(registry, copied) && Incoherence(current[e], current) == Some(MissingParent)
  {
    DroppedIsLeast(registry, copied);
    if first {
      assert current == registry;
    } else {
      assert e !in StaleAtStart(registry, copied);
      LossOfParents(registry, gone, registry[e]);
      var p :| p in gone && p in registry && IsParent(p, registry[e]) && p !in registry[e].recorded;
      assert UndigestedEdge(registry)(p, e);
    }
  }

  /** Nothing stale is left: everything to be dropped is gone. */
  lemma RoundsAreComplete(registry: Registry, copied: set<Entry>, current: Registry, gone: set<Entry>, first: bool)
    requires Pruning(registry, copied, current, gone, first)
    requires forall e :: e in current && Affected(registry, copied, e) ==> Coherent(current[e], current)
    ensures gone == Dropped(registry, copied)
  {
    DroppedIsLeast(registry, copied);
    if first {
      assert current == registry;
      assert StaleAtStart(registry, copied) == {};
    }
    forall p, c | p in gone && UndigestedEdge(registry)(p, c) ensures c in gone {
      LossIsSeen(registry, copied, current, gone, p, c);
    }
    assert LossClosed(registry, gone);
  }

  /** With nothing stale left, no record remains that lost a parent it has no digest for. */
  lemma LossIsSeen(registry: Registry, copied: set<Entry>, current: Registry, gone: set<Entry>, p: Entry, c: Entry)
    requires gone <= Dropped(registry, copied) && StaleAtStart(registry, copied) <= gone && current == Without(registry, gone)
    requires forall e :: e in current && Affected(registry, copied, e) ==> Coherent(current[e], current)
    requires p in gone && UndigestedEdge(registry)(p, c)
    ensures c in gone
  {
    DroppedIsAffected(registry, copied, p);
    ChildIsAffected(registry, copied, p, c);
    if Coherent(registry[c], registry) { LossOfParents(registry, gone, registry[c]); }
  }

  /** The stale records of this round with their reasons. */
  ghost function StaleNow(affected: set<Entry>, current: Registry): set<Entry> {
    set e | e in affected && e in current && !Coherent(current[e], current)
  }

  lemma RoundAdvances(registry: Registry, copied: set<Entry>, affected: set<Entry>, current: Registry, gone: set<Entry>, first: bool)
    requires Pruning(registry, copied, current, gone, first)
    requires forall e :: e in affected <==> Affected(registry, copied, e)
    ensures Pruning(registry, copied, Without(current, StaleNow(affected, current)), gone + StaleNow(affected, current), false)
  {
    var stale := StaleNow(affected, current);
    forall e | e in stale { RoundFinds(registry, copied, current, gone, first, e); }
    assert Without(current, stale) == Without(registry, gone + stale);
    RoundKinds(registry, copied, affected, current, gone, first);
  }

  /** A round never deletes twice; the first takes the records stale at the start, later ones no such record. */
  lemma RoundKinds(registry: Registry, copied: set<Entry>, affected: set<Entry>, current: Registry, gone: set<Entry>, first: bool)
    requires Pruning(registry, copied, current, gone, first)
    requires forall e :: e in affected <==> Affected(registry, copied, e)
    ensures StaleNow(affected, current) !! gone
    ensures first ==> gone == {} && current == registry && StaleNow(affected, current) == StaleAtStart(registry, copied)
    ensures !first ==> StaleNow(affected, current) !! StaleAtStart(registry, copied)
    ensures !first ==> forall e :: e in StaleNow(affected, current) ==> Incoherence(current[e], current) == Some(MissingParent)
  {
    var stale := StaleNow(affected, current);
    forall e | e in stale { RoundFinds(registry, copied, current, gone, first, e); }
    if first {
      assert current == registry;
      assert stale == StaleAtStart(registry, copied);
    }
  }

  /** Entries deleted so far for a reason, while `todo` is still to come. */
  ghost function Deleted(stale: map<Entry, Reason>, todo: set<Entry>, reason: Reason): set<Entry> {
    set e | e in stale && e !in todo && stale[e] == reason
  }

  lemma NothingDeleted(stale: map<Entry, Reason>)
    ensures forall r :: |Deleted(stale, stale.Keys, r)| == 0
  {
    forall r ensures Deleted(stale, stale.Keys, r) == {} {}
  }

  lemma DeletedStep(stale: map<Entry, Reason>, todo: set<Entry>, e: Entry)
    requires e in todo && todo <= stale.Keys
    ensures forall r :: |Deleted(stale, todo - {e}, r)| == |Deleted(stale, todo, r)| + (if stale[e] == r then 1 else 0)
  {
    forall r ensures |Deleted(stale, todo - {e}, r)| == |Deleted(stale, todo, r)| + (if stale[e] == r then 1 else 0) {
      var more := if stale[e] == r then {e} else {};
      assert Deleted(stale, todo - {e}, r) == Deleted(stale, todo, r) + more;
      assert Deleted(stale, todo, r) !! more;
    }
  }

  class Metadata {
    var records: Registry

    constructor (records: Registry)
      ensures this.records == records
    {
      this.records := records;
    }

    /** Delete the stale records one by one, counting reasons. */
    method DeleteAll(stale: map<Entry, Reason>, before: Counts) returns (removed: nat, counts: Counts)
      requires stale.Keys <= records.Keys
      modifies this
      ensures records == Without(old(records), stale.Keys)
      ensures removed == |stale|
      ensures forall r :: Count(counts, r) == Count(before, r) + |Deleted(stale, {}, r)|
    {
      ghost var all := records;
      removed, counts := 0, before;
      var todo := stale.Keys;
      assert all == Without(all, {});
      assert stale.Keys - todo == {};
      NothingDeleted(stale);
      assert |stale.Keys| == |stale|;
      while todo != {}
        invariant todo <= stale.Keys
        invariant records == Without(all, stale.Keys - todo)
        invariant removed + |todo| == |stale|
        invariant forall r :: Count(counts, r) == Count(before, r) + |Deleted(stale, todo, r)|
        decreases |todo|
      {
        var e :| e in todo;
        assert stale.Keys - (todo - {e}) == (stale.Keys - todo) + {e};
        DeletedStep(stale, todo, e);
        records := records - {e};
        removed := removed + 1;
        counts := counts[stale[e] := Count(counts, stale[e]) + 1];
        todo := todo - {e};
      }
      assert stale.Keys - {} == stale.Keys;
    }

    /** Retain only entries coherent with their parents, for copied entries and their descendants. */
    method DropIncoherent(copied: seq<Entry>, before: Counts) returns (removed: nat, counts: Counts)
      modifies this
      ensures records == Without(old(records), Dropped(old(records), Elements(copied)))
      ensures removed == |old(records)| - |records|
      ensures removed == |Dropped(old(records), Elements(copied))|
      ensures forall r :: Count(counts, r) == Count(before, r) + Reported(old(records), Elements(copied), r)
    {
      ghost var registry, sources := records, Elements(copied);
      var affected := Descendants(records, copied);
      removed, counts := 0, before;
      ghost var gone: set<Entry>, first := {}, true;
      assert registry == Without(registry, {});
      while true
        invariant Round(registry, sources, records, gone, first, removed, before, counts)
        decreases |records|
      {
        var stale := StaleReasons(affected, records);
        if stale == map[] { break; }
        ghost var current, earlier := records, counts;
        var more;
        more, counts := DeleteAll(stale, counts);
        RoundStep(registry, sources, affected, current, gone, first, removed, before, earlier, more, counts);
        removed := removed + more;
        gone := gone + stale.Keys;
        first := false;
      }
      NothingStaleIsDone(registry, sources, affected, records, gone, first);
      RemovedSize(registry, gone);
      FinalTally(registry, sources, first);
    }
  }

  /** The loop of `DropIncoherent` between two rounds. */
  ghost predicate Round(registry: Registry, copied: set<Entry>, current: Registry, gone: set<Entry>, first: bool,
                        removed: nat, before: Counts, counts: Counts) {
    && Pruning(registry, copied, current, gone, first)
    && removed == |gone|
    && Tallied(registry, copied, gone, first, before, counts)
  }

  lemma RoundStep(registry: Registry, copied: set<Entry>, affected: set<Entry>, current: Registry, gone: set<Entry>, first: bool,
                  removed: nat, before: Counts, earlier: Counts, more: nat, counts: Counts)
    requires Round(registry, copied, current, gone, first, removed, before, earlier)
    requires forall e :: e in affected <==> Affected(registry, copied, e)
    requires more == |StaleReasons(affected, current)|
    requires forall r :: Count(counts, r) == Count(earlier, r) + |Deleted(StaleReasons(affected, current), {}, r)|
    ensures var stale := StaleReasons(affected, current).Keys;
            && Round(registry, copied, Without(current, stale), gone + stale, false, removed + more, before, counts)
            && |Without(current, stale)| == |current| - more
  {
    var stale := StaleReasons(affected, current);
    assert |stale.Keys| == |stale|;
    RoundAdvances(registry, copied, affected, current, gone, first);
    RoundTallies(registry, copied, affected, current, gone, first, before, earlier, counts);
    RemovedSize(current, stale.Keys);
  }

  /** The entries one round deletes, with the reason for each. */
  function StaleReasons(affected: set<Entry>, current: Registry): (stale: map<Entry, Reason>)
    ensures stale.Keys == StaleNow(affected, current)
    ensures forall r :: Deleted(stale, {}, r) == WithReason(current, StaleNow(affected, current), r)
  {
    map e | e in affected && e in current && !Coherent(current[e], current) :: Incoherence(current[e], current).value
  }

  ghost predicate Tallied(registry: Registry, copied: set<Entry>, gone: set<Entry>, first: bool, before: Counts, counts: Counts) {
    forall r :: Count(counts, r) == Count(before, r) + (if first then 0 else Found(registry, copied, gone, r))
  }

  ghost function Found(registry: Registry, copied: set<Entry>, gone: set<Entry>, reason: Reason): nat {
    |WithReason(registry, StaleAtStart(registry, copied), reason)|
      + (if reason == MissingParent then |gone - StaleAtStart(registry, copied)| else 0)
  }

  lemma FinalTally(registry: Registry, copied: set<Entry>, first: bool)
    requires first ==> Dropped(registry, copied) == {}
    ensures first ==> forall r :: Reported(registry, copied, r) == 0
  {
    if first {
      DroppedIsLeast(registry, copied);
      assert StaleAtStart(registry, copied) == {};
      forall r ensures WithReason(registry, {}, r) == {} {}
    }
  }

  lemma RemovedSize(registry: Registry, gone: set<Entry>)
    requires gone <= registry.Keys
    ensures |Without(registry, gone)| == |registry| - |gone|
    ensures gone == {} ==> Without(registry, gone) == registry
  {
    var left := Without(registry, gone);
    assert left.Keys == registry.Keys - gone;
    assert registry.Keys == left.Keys + gone;
    assert |left.Keys| == |left| && |registry.Keys| == |registry|;
  }

  lemma RoundTallies(registry: Registry, copied: set<Entry>, affected: set<Entry>, current: Registry, gone: set<Entry>, first: bool,
                     before: Counts, earlier: Counts, counts: Counts)
    requires Pruning(registry, copied, current, gone, first)
    requires forall e :: e in affected <==> Affected(registry, copied, e)
    requires Tallied(registry, copied, gone, first, before, earlier)
    requires forall r :: Count(counts, r) == Count(earlier, r) + |WithReason(current, StaleNow(affected, current), r)|
    ensures |gone + StaleNow(affected, current)| == |gone| + |StaleNow(affected, current)|
    ensures Tallied(registry, copied, gone + StaleNow(affected, current), false, before, counts)
  {
    RoundKinds(registry, copied, affected, current, gone, first);
    TallyStep(registry, copied, current, gone, first, StaleNow(affected, current), before, earlier, counts);
  }

  lemma TallyStep(registry: Registry, copied: set<Entry>, current: Registry, gone: set<Entry>, first: bool, now: set<Entry>,
                  before: Counts, earlier: Counts, counts: Counts)
    requires now !! gone && now <= current.Keys
    requires first ==> gone == {} && current == registry && now == StaleAtStart(registry, copied)
    requires !first ==> now !! StaleAtStart(registry, copied)
    requires !first ==> forall e :: e in now ==> Incoherence(current[e], current) == Some(MissingParent)
    requires Tallied(registry, copied, gone, first, before, earlier)
    requires forall r :: Count(counts, r) == Count(earlier, r) + |WithReason(current, now, r)|
    ensures Tallied(registry, copied, gone + now, false, before, counts)
  {
    forall r ensures Count(counts, r) == Count(before, r) + Found(registry, copied, gone + now, r) {
      FoundStep(registry, copied, current, gone, first, now, r);
    }
  }

  lemma GrowsBeyond(start: set<Entry>, gone: set<Entry>, now: set<Entry>)
    requires now !! gone && now !! start
    ensures |(gone + now) - start| == |gone - start| + |now|
  {
    assert (gone + now) - start == (gone - start) + now;
  }

  lemma FoundStep(registry: Registry, copied: set<Entry>, current: Registry, gone: set<Entry>, first: bool, now: set<Entry>, r: Reason)
    requires now !! gone && now <= current.Keys
    requires first ==> gone == {} && current == registry && now == StaleAtStart(registry, copied)
    requires !first ==> now !! StaleAtStart(registry, copied)
    requires !first ==> forall e :: e in now ==> Incoherence(current[e], current) == Some(MissingParent)
    ensures Found(registry, copied, gone + now, r)
      == (if first then 0 else Found(registry, copied, gone, r)) + |WithReason(current, now, r)|
  {
    var start := StaleAtStart(registry, copied);
    if first {
      assert (gone + now) - start == {};
    } else {
      GrowsBeyond(start, gone, now);
      AllForMissingParents(current, now, r);
    }
  }

  lemma AllForMissingParents(current: Registry, now: set<Entry>, r: Reason)
    requires now <= current.Keys
    requires forall e :: e in now ==> Incoherence(current[e], current) == Some(MissingParent)
    ensures WithReason(current, now, r) == if r == MissingParent then now else {}
  {
  }

  lemma NothingStaleIsDone(registry: Registry, copied: set<Entry>, affected: set<Entry>, current: Registry, gone: set<Entry>, first: bool)
    requires Pruning(registry, copied, current, gone, first)
    requires forall e :: e in affected <==> Affected(registry, copied, e)
    requires StaleNow(affected, current) == {}
    ensures gone == Dropped(registry, copied)
  {
    forall e | e in current && Affected(registry, copied, e) ensures Coherent(current[e], current) {
      assert e !in StaleNow(affected, current);
    }
    RoundsAreComplete(registry, copied, current, gone, first);
  }

  /** Afterwards the descendants of `copied` are coherent, and no other record or its verdict has changed. */
  lemma AfterDrop(registry: Registry, copied: set<Entry>, e: Entry)
    requires e in registry
    ensures var left := Without(registry, Dropped(registry, copied));
            && (e in left && Affected(registry, copied, e) ==> Coherent(left[e], left))
            && (!Affected(registry, copied, e) ==>
                  e in left && left[e] == registry[e] && (Coherent(left[e], left) <==> Coherent(registry[e], registry)))
  {
    var gone := Dropped(registry, copied);
    var left := Without(registry, gone);
    DroppedIsLeast(registry, copied);
    if Affected(registry, copied, e) {
      if e in left {
        assert e !in StaleAtStart(registry, copied);
        LossOfParents(registry, gone, registry[e]);
        forall p | p in gone && p in registry && IsParent(p, registry[e]) ensures p in registry[e].recorded {
          assert !UndigestedEdge(registry)(p, e);
        }
      }
    } else {
      if e in gone { DroppedIsAffected(registry, copied, e); }
      forall d | d in registry[e].dependencies ensures Verdict(registry[e], d, left) == Verdict(registry[e], d, registry) {
        assert ChildEdge(registry)(d.parent, e);
        if d.parent in gone {
          DroppedIsAffected(registry, copied, d.parent);
          ChildIsAffected(registry, copied, d.parent, e);
        }
      }
      IncoherenceIsFailure(registry[e], registry);
      IncoherenceIsFailure(registry[e], left);
    }
  }
}

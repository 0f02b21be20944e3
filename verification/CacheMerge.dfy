/** The records that `prime` merges: popping leftovers, attaching imported records, and what the registry keeps. */
module CacheMerge {
  import opened Wrappers
  import opened Graphs
  import opened CacheRecords
  import opened CacheInvalidation
  import opened CacheDirectory

  /** Primed entries that have a record. */
  ghost function Attached(registry: Registry, primed: set<Entry>): set<Entry> {
    primed * registry.Keys
  }

  /** Every incoherent record is an attached one or descends from one; the final pass will look at it. */
  ghost predicate Guarded(registry: Registry, primed: set<Entry>) {
    forall e :: e in registry && !Coherent(registry[e], registry) ==> Affected(registry, Attached(registry, primed), e)
  }

  lemma AffectedGrows(registry: Registry, few: set<Entry>, many: set<Entry>, e: Entry)
    requires Affected(registry, few, e) && few <= many
    ensures Affected(registry, many, e)
  {
    var a :| a in few && Reaches(ChildEdge(registry), a, e);
  }

  /** The registry after a leftover record has been popped and its descendants checked. */
  ghost function AfterPop(registry: Registry, e: Entry): Registry {
    Without(registry - {e}, Dropped(registry - {e}, {e}))
  }

  /** A path of descendants that ends outside the reach of `e` does not touch what the pop removes. */
  lemma {:induction false} PathSurvivesPop(registry: Registry, e: Entry, p: seq<Entry>)
    requires e in registry && IsPath(ChildEdge(registry), p)
    requires p[|p| - 1] in registry - {e} && !Affected(registry - {e}, {e}, p[|p| - 1])
    ensures IsPath(ChildEdge(AfterPop(registry, e)), p)
    ensures p[0] in registry ==> p[0] in AfterPop(registry, e)
    decreases |p|
  {
    var popped, left := registry - {e}, AfterPop(registry, e);
    var last := p[|p| - 1];
    AfterDrop(popped, {e}, last);
    if |p| > 1 {
      var q := p[..|p| - 1];
      var x := p[|p| - 2];
      assert ChildEdge(registry)(x, last);
      assert ChildEdge(popped)(x, last);
      if x == e { CopiedIsAffected(popped, {e}, e); }
      if Affected(popped, {e}, x) { ChildIsAffected(popped, {e}, x, last); }
      assert ChildEdge(left)(x, last);
      assert IsPath(ChildEdge(registry), q);
      if |q| > 1 { assert ChildEdge(registry)(q[|q| - 2], x); }
      if x in registry { PathSurvivesPop(registry, e, q); }
      assert q[0] == p[0] && (x !in registry ==> q[0] == x);
      forall i, j | 0 <= i < |p| && j == i + 1 && j < |p| ensures ChildEdge(left)(p[i], p[j]) {
        if j < |p| - 1 { assert ChildEdge(left)(q[i], q[j]); }
      }
    }
  }

  /** Removing a record leaves the verdict on every record that does not depend on it. */
  lemma PopKeepsVerdict(registry: Registry, e: Entry, r: Record)
    requires !IsParent(e, r)
    ensures Coherent(r, registry - {e}) <==> Coherent(r, registry)
  {
    IncoherenceIsFailure(r, registry);
    IncoherenceIsFailure(r, registry - {e});
    forall d | d in r.dependencies ensures Verdict(r, d, registry - {e}) == Verdict(r, d, registry) {
      assert d.parent != e;
    }
  }

  /** Popping a leftover record keeps the guard: what was incoherent and survives is still reached from an attached record. */
  lemma PopKeepsGuard(registry: Registry, primed: set<Entry>, e: Entry)
    requires Guarded(registry, primed) && e in registry
    ensures Guarded(AfterPop(registry, e), primed)
  {
    var popped, left := registry - {e}, AfterPop(registry, e);
    forall x | x in left && !Coherent(left[x], left) ensures Affected(left, Attached(left, primed), x) {
      AfterDrop(popped, {e}, x);
      assert !Affected(popped, {e}, x);
      if IsParent(e, popped[x]) {
        CopiedIsAffected(popped, {e}, e);
        ChildIsAffected(popped, {e}, e, x);
      }
      PopKeepsVerdict(registry, e, registry[x]);
      var a :| a in Attached(registry, primed) && Reaches(ChildEdge(registry), a, x);
      var p :| PathBetween(ChildEdge(registry), p, a, x);
      PathSurvivesPop(registry, e, p);
      assert PathBetween(ChildEdge(left), p, a, x);
      assert a in Attached(left, primed) && Reaches(ChildEdge(left), a, x);
    }
  }

  /** Attaching a record, or none, keeps the guard for the larger set of primed entries. */
  lemma AddKeepsGuard(registry: Registry, primed: set<Entry>, e: Entry, record: Option<Record>)
    requires Guarded(registry, primed) && e !in registry
    ensures Guarded(Added(registry, e, record), primed + {e})
  {
    var larger := Added(registry, e, record);
    var few, many := Attached(registry, primed), Attached(larger, primed + {e});
    assert larger - {e} == registry;
    forall x | x in larger && !Coherent(larger[x], larger) ensures Affected(larger, many, x) {
      if e in larger { CopiedIsAffected(larger, many, e); }
      if x != e {
        if e in larger && IsParent(e, larger[x]) {
          ChildIsAffected(larger, many, e, x);
        } else {
          if e in larger { PopKeepsVerdict(larger, e, larger[x]); }
          var a :| a in few && Reaches(ChildEdge(registry), a, x);
          ReachesMonotone(ChildEdge(registry), ChildEdge(larger), a, x);
        }
      }
    }
  }

  /** The final pass makes everything coherent. */
  lemma FinalPassIsCoherent(registry: Registry, primed: set<Entry>)
    requires Guarded(registry, primed)
    ensures AllCoherent(Without(registry, Dropped(registry, primed)))
  {
    var left := Without(registry, Dropped(registry, primed));
    forall e | e in left ensures Coherent(left[e], left) {
      AfterDrop(registry, primed, e);
      if !Coherent(registry[e], registry) { AffectedGrows(registry, Attached(registry, primed), primed, e); }
    }
  }

  // ----- the records of a list of entries

  /** The store's envelope for `e` was written by this runtime and comes with a record and a cache. */
  predicate Compatible(store: Contents, e: Entry, environment: string) {
    && e in store.sidecars
    && store.sidecars[e].version == METADATA_VERSION
    && store.sidecars[e].environment == environment
    && store.sidecars[e].metadata.Some?
    && e in store.caches
  }

  function RecordFor(store: Contents, e: Entry, environment: string): Option<Record> {
    if Compatible(store, e, environment) then store.sidecars[e].metadata else None
  }

  /** Field by field: the store vouches that `record` is that of `e`, made by this very runtime, and has the cache too. */
  ghost predicate VouchedFor(store: Contents, e: Entry, environment: string, record: Record) {
    && e in store.sidecars && e in store.caches
    && store.sidecars[e] == Envelope(1, environment, Some(record))
  }

  /** A record comes along exactly when the store vouches for it. */
  lemma RecordIsVouchedFor(store: Contents, e: Entry, environment: string)
    ensures Compatible(store, e, environment) <==> exists record :: VouchedFor(store, e, environment, record)
    ensures forall record :: RecordFor(store, e, environment) == Some(record) <==> VouchedFor(store, e, environment, record)
  {
    if Compatible(store, e, environment) {
      var record := store.sidecars[e].metadata.value;
      assert VouchedFor(store, e, environment, record);
    }
  }

  /** The records that priming `entries` brings along. */
  function Imported(store: Contents, entries: set<Entry>, environment: string): Registry {
    map e | e in entries && Compatible(store, e, environment) :: store.sidecars[e].metadata.value
  }

  function Added(registry: Registry, e: Entry, record: Option<Record>): Registry {
    if record.Some? then registry[e := record.value] else registry
  }

  /** A leftover record of `e` must not validate a partial copy. */
  ghost function Cleared(registry: Registry, e: Entry): Registry {
    if e in registry then AfterPop(registry, e) else registry
  }

  /** The records in memory once the entries of `list` are primed, in this order. */
  ghost function MergedWith(registry: Registry, store: Contents, environment: string, list: seq<Entry>): Registry
    decreases |list|
  {
    if list == [] then registry
    else
      var e, most := list[|list| - 1], list[..|list| - 1];
      Added(Cleared(MergedWith(registry, store, environment, most), e), e, RecordFor(store, e, environment))
  }

  /** The registry on disk at that moment: it is written only when a leftover is popped. */
  ghost function OnDisk(registry: Registry, store: Contents, environment: string, list: seq<Entry>): Registry
    decreases |list|, 0
  {
    if list == [] then registry
    else DiskAt(registry, store, environment, list[..|list| - 1], list[|list| - 1])
  }

  /** The registry on disk while `e` is copied after `list` was primed. */
  ghost function DiskAt(registry: Registry, store: Contents, environment: string, list: seq<Entry>, e: Entry): Registry
    decreases |list|, 1
  {
    var merged := MergedWith(registry, store, environment, list);
    if e in merged then AfterPop(merged, e) else OnDisk(registry, store, environment, list)
  }

  /** The registry that a completed `prime` leaves. */
  ghost function PrimedRegistry(registry: Registry, store: Contents, environment: string, list: seq<Entry>): Registry {
    var merged := MergedWith(registry, store, environment, list);
    Without(merged, Dropped(merged, Elements(list)))
  }

  lemma MergedStep(registry: Registry, store: Contents, environment: string, list: seq<Entry>, e: Entry)
    ensures MergedWith(registry, store, environment, list + [e])
      == Added(Cleared(MergedWith(registry, store, environment, list), e), e, RecordFor(store, e, environment))
    ensures OnDisk(registry, store, environment, list + [e]) == DiskAt(registry, store, environment, list, e)
  {
    assert (list + [e])[..|list|] == list;
  }

  lemma ElementsOfFront(list: seq<Entry>)
    requires list != []
    ensures Elements(list) == Elements(list[..|list| - 1]) + {list[|list| - 1]}
  {
    assert list == list[..|list| - 1] + [list[|list| - 1]];
  }

  // ----- where records come from

  /** Records of listed entries are imported, all others are those of the original registry. */
  ghost predicate Descends(registry: Registry, store: Contents, environment: string, list: seq<Entry>, merged: Registry) {
    && (forall e :: e in merged && e in list ==>
          Compatible(store, e, environment) && merged[e] == store.sidecars[e].metadata.value)
    && (forall e :: e in merged && e !in list ==> e in registry && merged[e] == registry[e])
  }

  lemma {:induction false} MergedDescends(registry: Registry, store: Contents, environment: string, list: seq<Entry>)
    ensures Descends(registry, store, environment, list, MergedWith(registry, store, environment, list))
    decreases |list|
  {
    if list != [] {
      var most, e := list[..|list| - 1], list[|list| - 1];
      MergedDescends(registry, store, environment, most);
      assert forall x :: x in list <==> x in most || x == e by { assert list == most + [e]; }
    }
  }

  /** The registry on disk is a part of the merged one. */
  ghost predicate PartOf(disk: Registry, merged: Registry) {
    forall e :: e in disk ==> e in merged && merged[e] == disk[e]
  }

  lemma {:induction false} DiskIsPart(registry: Registry, store: Contents, environment: string, list: seq<Entry>)
    ensures PartOf(OnDisk(registry, store, environment, list), MergedWith(registry, store, environment, list))
    decreases |list|
  {
    if list != [] { DiskIsPart(registry, store, environment, list[..|list| - 1]); }
  }

  /** Without a leftover record in the list nothing is ever popped. */
  lemma {:induction false} WithoutLeftovers(registry: Registry, store: Contents, environment: string, list: seq<Entry>)
    requires NoDup(list) && Elements(list) !! registry.Keys
    ensures MergedWith(registry, store, environment, list) == registry + Imported(store, Elements(list), environment)
    ensures OnDisk(registry, store, environment, list) == registry
    decreases |list|
  {
    if list == [] {
      assert Elements(list) == {};
    } else {
      var most, e := list[..|list| - 1], list[|list| - 1];
      ElementsOfFront(list);
      assert NoDup(most) && e !in most by { assert forall k :: 0 <= k < |most| ==> most[k] == list[k]; }
      assert e in list;
      WithoutLeftovers(registry, store, environment, most);
      ImportStep(registry, store, environment, Elements(most), e);
    }
  }

  lemma ImportStep(registry: Registry, store: Contents, environment: string, listed: set<Entry>, e: Entry)
    requires e !in listed && e !in registry
    ensures e !in registry + Imported(store, listed, environment)
    ensures registry + Imported(store, listed + {e}, environment)
      == Added(registry + Imported(store, listed, environment), e, RecordFor(store, e, environment))
  {
  }

  lemma DiskWithoutLeftovers(registry: Registry, store: Contents, environment: string, list: seq<Entry>, e: Entry)
    requires NoDup(list) && e !in list && Elements(list) !! registry.Keys && e !in registry
    ensures DiskAt(registry, store, environment, list, e) == registry
  {
    WithoutLeftovers(registry, store, environment, list);
    assert e !in Elements(list);
  }

  /** Priming the `k`-th entry of the list pops a leftover record. */
  ghost predicate PopsAt(registry: Registry, store: Contents, environment: string, list: seq<Entry>, k: nat)
    requires k < |list|
  {
    list[k] in MergedWith(registry, store, environment, list[..k])
  }

  /** The registry on disk is the original one, or what the last pop wrote. */
  lemma {:induction false} DiskIsLastPop(registry: Registry, store: Contents, environment: string, list: seq<Entry>) returns (last: Option<nat>)
    ensures last.None? ==>
      && OnDisk(registry, store, environment, list) == registry
      && forall k :: 0 <= k < |list| ==> !PopsAt(registry, store, environment, list, k)
    ensures last.Some? ==>
      && last.value < |list| && PopsAt(registry, store, environment, list, last.value)
      && OnDisk(registry, store, environment, list)
         == AfterPop(MergedWith(registry, store, environment, list[..last.value]), list[last.value])
      && forall k :: last.value < k < |list| ==> !PopsAt(registry, store, environment, list, k)
    decreases |list|
  {
    if list == [] {
      last := None;
    } else {
      var n := |list| - 1;
      var most := list[..n];
      if PopsAt(registry, store, environment, list, n) {
        last := Some(n);
      } else {
        last := DiskIsLastPop(registry, store, environment, most);
        forall k | 0 <= k < n
          ensures PopsAt(registry, store, environment, list, k) == PopsAt(registry, store, environment, most, k)
          ensures list[..k] == most[..k]
        {
          assert list[..k] == most[..k];
        }
      }
    }
  }

  // ----- coherence

  lemma {:induction false} MergedIsGuarded(registry: Registry, store: Contents, environment: string, list: seq<Entry>)
    requires AllCoherent(registry)
    ensures Guarded(MergedWith(registry, store, environment, list), Elements(list))
    decreases |list|
  {
    if list != [] {
      var most, e := list[..|list| - 1], list[|list| - 1];
      var merged := MergedWith(registry, store, environment, most);
      MergedIsGuarded(registry, store, environment, most);
      ElementsOfFront(list);
      if e in merged { PopKeepsGuard(merged, Elements(most), e); }
      AddKeepsGuard(Cleared(merged, e), Elements(most), e, RecordFor(store, e, environment));
    }
  }

  lemma GuardedGrows(registry: Registry, few: set<Entry>, many: set<Entry>)
    requires Guarded(registry, few) && few <= many
    ensures Guarded(registry, many)
  {
    forall e | e in registry && !Coherent(registry[e], registry) ensures Affected(registry, Attached(registry, many), e) {
      AffectedGrows(registry, Attached(registry, few), Attached(registry, many), e);
    }
  }

  lemma {:induction false} DiskIsGuarded(registry: Registry, store: Contents, environment: string, list: seq<Entry>)
    requires AllCoherent(registry)
    ensures Guarded(OnDisk(registry, store, environment, list), Elements(list))
    decreases |list|, 1
  {
    if list != [] {
      var most, e := list[..|list| - 1], list[|list| - 1];
      DiskAtIsGuarded(registry, store, environment, most, e);
      ElementsOfFront(list);
      GuardedGrows(OnDisk(registry, store, environment, list), Elements(most), Elements(list));
    }
  }

  lemma {:induction false} DiskAtIsGuarded(registry: Registry, store: Contents, environment: string, list: seq<Entry>, e: Entry)
    requires AllCoherent(registry)
    ensures Guarded(DiskAt(registry, store, environment, list, e), Elements(list))
    decreases |list|, 2
  {
    var merged := MergedWith(registry, store, environment, list);
    if e in merged {
      MergedIsGuarded(registry, store, environment, list);
      PopKeepsGuard(merged, Elements(list), e);
    } else {
      DiskIsGuarded(registry, store, environment, list);
    }
  }

  /** Whatever else is incoherent descends from `e`. */
  ghost predicate OnlyBelow(registry: Registry, e: Entry) {
    forall x :: x in registry && x != e && !Coherent(registry[x], registry) ==> Affected(registry - {e}, {e}, x)
  }

  /** A record that a pop leaves without checking it keeps its verdict. */
  lemma UncheckedKeepsVerdict(registry: Registry, e: Entry, x: Entry)
    requires e in registry && x in registry && x != e && !Affected(registry - {e}, {e}, x)
    ensures var left := AfterPop(registry, e);
            x in left && left[x] == registry[x] && (Coherent(left[x], left) <==> Coherent(registry[x], registry))
  {
    var popped := registry - {e};
    AfterDrop(popped, {e}, x);
    if IsParent(e, popped[x]) {
      CopiedIsAffected(popped, {e}, e);
      ChildIsAffected(popped, {e}, e, x);
    }
    PopKeepsVerdict(registry, e, registry[x]);
  }

  /** What a pop leaves is coherent exactly when every other incoherent record descends from the popped one. */
  lemma PopIsCoherentIff(registry: Registry, e: Entry)
    requires e in registry
    ensures AllCoherent(AfterPop(registry, e)) <==> OnlyBelow(registry, e)
  {
    var popped, left := registry - {e}, AfterPop(registry, e);
    forall x | x in registry && x != e && !Affected(popped, {e}, x)
      ensures x in left && (Coherent(left[x], left) <==> Coherent(registry[x], registry))
    {
      UncheckedKeepsVerdict(registry, e, x);
    }
    forall x | x in left && Affected(popped, {e}, x) ensures Coherent(left[x], left) {
      AfterDrop(popped, {e}, x);
    }
  }

  /** The last of the entries for which a leftover record is popped. */
  ghost predicate IsLastPop(registry: Registry, store: Contents, environment: string, list: seq<Entry>, k: nat) {
    && k < |list| && PopsAt(registry, store, environment, list, k)
    && forall j :: k < j < |list| ==> !PopsAt(registry, store, environment, list, j)
  }

  /** Of the records merged before the last pop every incoherent one, the popped one apart, descends from the popped one. */
  ghost predicate LastPopRepairs(registry: Registry, store: Contents, environment: string, list: seq<Entry>) {
    forall k: nat :: IsLastPop(registry, store, environment, list, k) ==>
      OnlyBelow(MergedWith(registry, store, environment, list[..k]), list[k])
  }

  /** The registry on disk is coherent exactly when nothing was popped or the last pop found no other incoherence. */
  lemma DiskIsCoherentIff(registry: Registry, store: Contents, environment: string, list: seq<Entry>)
    requires AllCoherent(registry)
    ensures AllCoherent(OnDisk(registry, store, environment, list)) <==> LastPopRepairs(registry, store, environment, list)
  {
    var last := DiskIsLastPop(registry, store, environment, list);
    if last.Some? {
      var k := last.value;
      PopIsCoherentIff(MergedWith(registry, store, environment, list[..k]), list[k]);
      assert IsLastPop(registry, store, environment, list, k);
      forall j: nat | IsLastPop(registry, store, environment, list, j) ensures j == k {}
    }
  }

  /** A completed `prime` leaves a coherent registry if it found one. */
  lemma PrimedRegistryIsCoherent(registry: Registry, store: Contents, environment: string, list: seq<Entry>)
    requires AllCoherent(registry)
    ensures AllCoherent(PrimedRegistry(registry, store, environment, list))
  {
    MergedIsGuarded(registry, store, environment, list);
    FinalPassIsCoherent(MergedWith(registry, store, environment, list), Elements(list));
  }

  // ----- what is left alone

  /** Neither listed nor a descendant of a listed entry. */
  ghost predicate Unrelated(registry: Registry, listed: set<Entry>, e: Entry) {
    e in registry && e !in listed && !Affected(registry, listed, e)
  }

  ghost predicate KeepsUnrelated(registry: Registry, listed: set<Entry>, now: Registry) {
    forall e :: Unrelated(registry, listed, e) ==> e in now && now[e] == registry[e]
  }

  /** Records that are not listed are those of the original registry. */
  ghost predicate OthersOriginal(registry: Registry, listed: set<Entry>, merged: Registry) {
    forall e :: e in merged && e !in listed ==> e in registry && merged[e] == registry[e]
  }

  /** What descends from listed entries among the merged records did so from the start. */
  lemma AffectedFromTheStart(registry: Registry, listed: set<Entry>, merged: Registry, sources: set<Entry>, e: Entry)
    requires OthersOriginal(registry, listed, merged) && sources <= listed
    requires Affected(merged, sources, e) && e !in listed
    ensures Affected(registry, listed, e)
  {
    var s := listed + set y | y in registry && Affected(registry, listed, y);
    forall y, c | y in s && ChildEdge(merged)(y, c) ensures c in s {
      if c !in listed {
        if y in listed { CopiedIsAffected(registry, listed, y); }
        ChildIsAffected(registry, listed, y, c);
      }
    }
    var a :| a in sources && Reaches(ChildEdge(merged), a, e);
    ReachedStaysInClosed(ChildEdge(merged), s, a, e);
  }

  lemma PopKeepsUnrelated(registry: Registry, listed: set<Entry>, merged: Registry, e: Entry)
    requires OthersOriginal(registry, listed, merged) && KeepsUnrelated(registry, listed, merged) && e in listed
    ensures KeepsUnrelated(registry, listed, AfterPop(merged, e))
  {
    var popped := merged - {e};
    forall x | Unrelated(registry, listed, x) ensures x !in Dropped(popped, {e}) {
      if x in Dropped(popped, {e}) {
        DroppedIsAffected(popped, {e}, x);
        AffectedFromTheStart(registry, listed, popped, {e}, x);
      }
    }
  }

  lemma KeepsFewer(registry: Registry, few: set<Entry>, many: set<Entry>, now: Registry)
    requires KeepsUnrelated(registry, few, now) && few <= many
    ensures KeepsUnrelated(registry, many, now)
  {
    forall e | Unrelated(registry, many, e) ensures Unrelated(registry, few, e) {
      if Affected(registry, few, e) { AffectedGrows(registry, few, many, e); }
    }
  }

  lemma {:induction false} MergedKeepsUnrelated(registry: Registry, store: Contents, environment: string, list: seq<Entry>)
    ensures KeepsUnrelated(registry, Elements(list), MergedWith(registry, store, environment, list))
    decreases |list|
  {
    if list != [] {
      var most, e := list[..|list| - 1], list[|list| - 1];
      var merged := MergedWith(registry, store, environment, most);
      MergedKeepsUnrelated(registry, store, environment, most);
      MergedDescends(registry, store, environment, most);
      ElementsOfFront(list);
      KeepsFewer(registry, Elements(most), Elements(list), merged);
      PopKeepsUnrelated(registry, Elements(list), merged, e);
    }
  }

  /** While `e` is copied the registry on disk still has every record that no entry primed so far, nor `e`, is above. */
  lemma {:induction false} DiskKeepsUnrelated(registry: Registry, store: Contents, environment: string, list: seq<Entry>, e: Entry)
    ensures KeepsUnrelated(registry, Elements(list) + {e}, DiskAt(registry, store, environment, list, e))
    decreases |list|
  {
    var listed := Elements(list) + {e};
    var merged := MergedWith(registry, store, environment, list);
    if e in merged {
      MergedKeepsUnrelated(registry, store, environment, list);
      MergedDescends(registry, store, environment, list);
      KeepsFewer(registry, Elements(list), listed, merged);
      PopKeepsUnrelated(registry, listed, merged, e);
    } else if list != [] {
      DiskKeepsUnrelated(registry, store, environment, list[..|list| - 1], list[|list| - 1]);
      ElementsOfFront(list);
      KeepsFewer(registry, Elements(list), listed, OnDisk(registry, store, environment, list));
    }
  }

  /** A completed `prime` leaves every record alone that no primed entry is above. */
  lemma PrimedKeepsUnrelated(registry: Registry, store: Contents, environment: string, list: seq<Entry>)
    ensures KeepsUnrelated(registry, Elements(list), PrimedRegistry(registry, store, environment, list))
  {
    var listed, merged := Elements(list), MergedWith(registry, store, environment, list);
    MergedKeepsUnrelated(registry, store, environment, list);
    MergedDescends(registry, store, environment, list);
    forall x | Unrelated(registry, listed, x) ensures x !in Dropped(merged, listed) {
      if x in Dropped(merged, listed) {
        DroppedIsAffected(merged, listed, x);
        AffectedFromTheStart(registry, listed, merged, listed, x);
      }
    }
  }

  /** Every record that a completed `prime` leaves is an imported one of a primed entry or an original one. */
  lemma PrimedDescends(registry: Registry, store: Contents, environment: string, list: seq<Entry>)
    ensures Descends(registry, store, environment, list, PrimedRegistry(registry, store, environment, list))
  {
    MergedDescends(registry, store, environment, list);
  }

  /** The record of `e` came along, but a pop after it removed it as a descendant of what was popped, or the final pass did. */
  ghost predicate IsLost(registry: Registry, store: Contents, environment: string, list: seq<Entry>, e: Entry) {
    || e in Dropped(MergedWith(registry, store, environment, list), Elements(list))
    || exists j :: 0 <= j < |list| && e in list[..j] && PopTakes(registry, store, environment, list, j, e)
  }

  ghost predicate PopTakes(registry: Registry, store: Contents, environment: string, list: seq<Entry>, j: nat, e: Entry)
    requires j < |list|
  {
    PopsAt(registry, store, environment, list, j)
    && Affected(MergedWith(registry, store, environment, list[..j]) - {list[j]}, {list[j]}, e)
  }

  /** What came along stays until a pop takes it. */
  lemma {:induction false} ImportedStays(registry: Registry, store: Contents, environment: string, list: seq<Entry>, e: Entry, record: Record, n: nat)
    requires NoDup(list) && n <= |list| && e in list[..n] && VouchedFor(store, e, environment, record)
    ensures var merged := MergedWith(registry, store, environment, list[..n]);
            || (e in merged && merged[e] == record)
            || exists j :: 0 <= j < n && e in list[..j] && PopTakes(registry, store, environment, list, j, e)
    decreases n
  {
    var f, most := list[n - 1], list[..n - 1];
    assert list[..n] == most + [f];
    MergedStep(registry, store, environment, most, f);
    RecordIsVouchedFor(store, e, environment);
    var before := MergedWith(registry, store, environment, most);
    if e in most {
      ImportedStays(registry, store, environment, list, e, record, n - 1);
      var k :| 0 <= k < n - 1 && list[k] == e;
      if e in before && before[e] == record && e !in Cleared(before, f) {
        DroppedIsAffected(before - {f}, {f}, e);
        assert PopTakes(registry, store, environment, list, n - 1, e);
      }
    }
  }

  /** Of the primed entries those have a record for which the store vouches, unless it was lost. */
  lemma PrimedRecordsAreVouchedFor(registry: Registry, store: Contents, environment: string, list: seq<Entry>)
    requires NoDup(list)
    ensures var primed := PrimedRegistry(registry, store, environment, list);
            && (forall e :: e in primed && e in list ==> VouchedFor(store, e, environment, primed[e]))
            && (forall e :: e in primed && e !in list ==> e in registry && primed[e] == registry[e])
            && (forall e, record :: e in list && VouchedFor(store, e, environment, record) ==>
                  (e in primed && primed[e] == record) || IsLost(registry, store, environment, list, e))
  {
    PrimedDescends(registry, store, environment, list);
    var primed := PrimedRegistry(registry, store, environment, list);
    assert list[..|list|] == list;
    forall e, record | e in list && VouchedFor(store, e, environment, record)
      ensures (e in primed && primed[e] == record) || IsLost(registry, store, environment, list, e)
    {
      ImportedStays(registry, store, environment, list, e, record, |list|);
    }
    forall e | e in primed && e in list ensures VouchedFor(store, e, environment, primed[e]) {
      RecordIsVouchedFor(store, e, environment);
    }
  }
}

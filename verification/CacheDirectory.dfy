/** A cache directory and `_copy_entry`, the publish-or-roll-back protocol for one entry. */
module CacheDirectory {
  import opened Wrappers
  import opened CacheRecords

  type File = string

  /** Content of `<entry>.metadata.json`. */
  datatype Envelope = Envelope(version: int, environment: string, metadata: Option<Record>)

  const METADATA_VERSION := 1

  /** What a directory holds: results, caches and sidecars by entry, and the registry `pipeline.json`. */
  datatype Contents = Contents(
    results: map<Entry, File>, caches: map<Entry, File>, sidecars: map<Entry, Envelope>, pipeline: Registry)

  /** The files of one entry, as far as they exist. */
  datatype Artifacts = Artifacts(result: Option<File>, cache: Option<File>)

  function Lookup<V>(m: map<Entry, V>, e: Entry): Option<V> {
    if e in m then Some(m[e]) else None
  }

  function ArtifactsOf(c: Contents, e: Entry): Artifacts {
    Artifacts(Lookup(c.results, e), Lookup(c.caches, e))
  }

  /** The file-system operations of one copy that may raise; the last three belong to the rollback. */
  datatype Step =
    | StageResult | StageCache | BackUpResult | BackUpCache | PublishCache | PublishResult
    | RemoveCache | RestoreResult | RestoreCache

  datatype CopyOutcome = Copied | RolledBack | RollbackFailed

  predicate RollbackMayFail(faults: set<Step>) {
    RemoveCache in faults || RestoreResult in faults || RestoreCache in faults
  }

  /** The entry that a successful copy leaves: the cache is the source's if it has one and untouched otherwise. */
  function Published(before: Artifacts, source: Artifacts): Artifacts {
    Artifacts(source.result, if source.cache.Some? then source.cache else before.cache)
  }

  /** In a forward state a visible result belongs to the wholly old or the wholly new entry. */
  ghost predicate NeverMixed(trace: seq<Artifacts>, before: Artifacts, after: Artifacts) {
    forall k :: 0 <= k < |trace| && trace[k].result.Some? ==> trace[k] == before || trace[k] == after
  }

  /** Staging raises: nothing has been touched yet. */
  predicate StagingFails(source: Artifacts, faults: set<Step>) {
    source.result.None? || StageResult in faults || (source.cache.Some? && StageCache in faults)
  }

  /** A step between staging and the end raises. */
  predicate PublicationFails(before: Artifacts, source: Artifacts, faults: set<Step>) {
    || (before.result.Some? && BackUpResult in faults)
    || (source.cache.Some? && before.cache.Some? && BackUpCache in faults)
    || (source.cache.Some? && PublishCache in faults)
    || PublishResult in faults
  }

  // ----- the forward protocol

  /** The steps that copying an entry takes: a cache only if the source has one, moving aside only what is there. */
  function NeededSteps(before: Artifacts, source: Artifacts): set<Step> {
    {StageResult, PublishResult}
    + (if source.cache.Some? then {StageCache, PublishCache} else {})
    + (if before.result.Some? then {BackUpResult} else {})
    + (if before.cache.Some? && source.cache.Some? then {BackUpCache} else {})
  }

  /** A copy fails exactly without a result to copy or when a step that it needs raises. */
  lemma FailsIffNeededStepDoes(before: Artifacts, source: Artifacts, faults: set<Step>)
    ensures StagingFails(source, faults) || PublicationFails(before, source, faults) <==>
            source.result.None? || exists step :: step in NeededSteps(before, source) && step in faults
  {
    if !(StagingFails(source, faults) || PublicationFails(before, source, faults)) {
      forall step | step in NeededSteps(before, source) ensures step !in faults {}
    } else if source.result.Some? {
      assert StageResult in faults || StageCache in faults || BackUpResult in faults || BackUpCache in faults
          || PublishCache in faults || PublishResult in faults;
    }
  }

  /** The old files that are moved aside, in this order. */
  function BackUps(before: Artifacts, source: Artifacts): seq<Step> {
    (if before.result.Some? then [BackUpResult] else [])
    + (if source.cache.Some? && before.cache.Some? then [BackUpCache] else [])
  }

  /** The staged files that are published, the result last. */
  function Publications(source: Artifacts): seq<Step> {
    (if source.cache.Some? then [PublishCache] else []) + [PublishResult]
  }

  /** The entry after one more step. */
  function After(now: Artifacts, step: Step, source: Artifacts): Artifacts {
    match step
    case BackUpResult => now.(result := None)
    case BackUpCache => now.(cache := None)
    case PublishCache => now.(cache := source.cache)
    case PublishResult => now.(result := source.result)
    case _ => now
  }

  /** The states of the entry, its first one included, while the steps are taken up to the first that raises. */
  function Forward(now: Artifacts, steps: seq<Step>, source: Artifacts, faults: set<Step>): (states: seq<Artifacts>)
    ensures 1 <= |states| <= |steps| + 1 && states[0] == now
    decreases |steps|
  {
    if steps == [] || steps[0] in faults then [now]
    else [now] + Forward(After(now, steps[0], source), steps[1..], source, faults)
  }

  function Last<T>(s: seq<T>): T
    requires s != []
  {
    s[|s| - 1]
  }

  /** The states a copy passes through before it ends or is rolled back. */
  function ForwardStates(before: Artifacts, source: Artifacts, faults: set<Step>): (states: seq<Artifacts>)
    ensures states != []
  {
    if StagingFails(source, faults) then [before]
    else Forward(before, BackUps(before, source) + Publications(source), source, faults)
  }

  /** No step of the list raises. */
  predicate Passes(steps: seq<Step>, faults: set<Step>) {
    forall step :: step in steps ==> step !in faults
  }

  lemma {:induction false} ForwardStops(now: Artifacts, a: seq<Step>, b: seq<Step>, source: Artifacts, faults: set<Step>)
    requires !Passes(a, faults)
    ensures Forward(now, a + b, source, faults) == Forward(now, a, source, faults)
    decreases |a|
  {
    assert (a + b)[0] == a[0] && (a + b)[1..] == a[1..] + b;
    if a[0] !in faults {
      assert a == [a[0]] + a[1..];
      ForwardStops(After(now, a[0], source), a[1..], b, source, faults);
    }
  }

  lemma {:induction false} ForwardContinues(now: Artifacts, a: seq<Step>, b: seq<Step>, source: Artifacts, faults: set<Step>)
    requires Passes(a, faults)
    ensures Forward(now, a + b, source, faults)
      == Forward(now, a, source, faults) + Forward(Last(Forward(now, a, source, faults)), b, source, faults)[1..]
    decreases |a|
  {
    if a == [] {
      assert a + b == b;
      assert [now] + Forward(now, b, source, faults)[1..] == Forward(now, b, source, faults);
    } else {
      var next := After(now, a[0], source);
      var states := Forward(next, a[1..], source, faults);
      assert (a + b)[0] == a[0] && (a + b)[1..] == a[1..] + b;
      assert a[0] in a && forall step :: step in a[1..] ==> step in a;
      ForwardContinues(next, a[1..], b, source, faults);
      assert Last([now] + states) == Last(states);
      assert [now] + (states + Forward(Last(states), b, source, faults)[1..])
          == ([now] + states) + Forward(Last(states), b, source, faults)[1..];
    }
  }

  lemma ForwardStepwise(now: Artifacts, a: seq<Step>, b: seq<Step>, source: Artifacts, faults: set<Step>)
    ensures !Passes(a, faults) ==> Forward(now, a + b, source, faults) == Forward(now, a, source, faults)
    ensures Passes(a, faults) ==>
      Forward(now, a + b, source, faults)
      == Forward(now, a, source, faults) + Forward(Last(Forward(now, a, source, faults)), b, source, faults)[1..]
  {
    if Passes(a, faults) { ForwardContinues(now, a, b, source, faults); } else { ForwardStops(now, a, b, source, faults); }
  }

  /** While the old files are moved aside a visible result is that of the untouched entry. */
  lemma BackingUpHidesResult(before: Artifacts, source: Artifacts, faults: set<Step>)
    ensures var states := Forward(before, BackUps(before, source), source, faults);
            && (forall k :: 0 < k < |states| ==> states[k].result == None)
            && (Last(states).result.Some? ==> Last(states) == before)
  {
  }

  lemma {:induction false} ForwardCompletes(now: Artifacts, steps: seq<Step>, source: Artifacts, faults: set<Step>)
    ensures |Forward(now, steps, source, faults)| == |steps| + 1 <==> Passes(steps, faults)
    decreases |steps|
  {
    if steps != [] {
      assert steps == [steps[0]] + steps[1..];
      ForwardCompletes(After(now, steps[0], source), steps[1..], source, faults);
    }
  }

  lemma PublicationEndsPublished(before: Artifacts, now: Artifacts, source: Artifacts, faults: set<Step>)
    requires Passes(Publications(source), faults)
    requires source.cache.None? ==> now.cache == before.cache
    ensures Last(Forward(now, Publications(source), source, faults)) == Published(before, source)
  {
    assert PublishResult in Publications(source);
  }

  lemma BackUpEndsHidden(before: Artifacts, source: Artifacts, faults: set<Step>)
    requires Passes(BackUps(before, source), faults)
    ensures Last(Forward(before, BackUps(before, source), source, faults))
      == Artifacts(None, if source.cache.Some? then None else before.cache)
  {
    assert before.result.Some? ==> BackUpResult in BackUps(before, source);
    assert source.cache.Some? && before.cache.Some? ==> BackUpCache in BackUps(before, source);
  }

  /** While the staged files are published a visible result is that of the finished entry. */
  lemma PublishingShowsWhole(before: Artifacts, now: Artifacts, source: Artifacts, faults: set<Step>)
    requires now == Artifacts(None, if source.cache.Some? then None else before.cache)
    ensures var states := Forward(now, Publications(source), source, faults);
            forall k :: 0 <= k < |states| && states[k].result.Some? ==> states[k] == Published(before, source)
  {
  }

  /** In every forward state a visible result belongs to the wholly old or the wholly new entry. */
  lemma ForwardNeverMixes(before: Artifacts, source: Artifacts, faults: set<Step>)
    ensures NeverMixed(ForwardStates(before, source, faults), before, Published(before, source))
  {
    if !StagingFails(source, faults) {
      var a, b := BackUps(before, source), Publications(source);
      ForwardStepwise(before, a, b, source, faults);
      BackingUpHidesResult(before, source, faults);
      if Passes(a, faults) {
        BackUpEndsHidden(before, source, faults);
        PublishingShowsWhole(before, Last(Forward(before, a, source, faults)), source, faults);
      }
    }
  }

  /** A copy passes through all its steps, and ends with the published entry, exactly when none of them raises. */
  lemma ForwardEndsPublished(before: Artifacts, source: Artifacts, faults: set<Step>)
    requires !StagingFails(source, faults)
    ensures var states, steps := ForwardStates(before, source, faults), BackUps(before, source) + Publications(source);
            && (|states| == |steps| + 1 <==> !PublicationFails(before, source, faults))
            && (!PublicationFails(before, source, faults) ==> Last(states) == Published(before, source))
  {
    var a, b := BackUps(before, source), Publications(source);
    ForwardCompletes(before, a + b, source, faults);
    StepsOfACopy(before, source, faults);
    if !PublicationFails(before, source, faults) {
      BackUpEndsHidden(before, source, faults);
      PublicationEndsPublished(before, Last(Forward(before, a, source, faults)), source, faults);
      ForwardStepwise(before, a, b, source, faults);
    }
  }

  lemma StepsOfACopy(before: Artifacts, source: Artifacts, faults: set<Step>)
    ensures Passes(BackUps(before, source) + Publications(source), faults)
      <==> Passes(BackUps(before, source), faults) && Passes(Publications(source), faults)
    ensures Passes(BackUps(before, source), faults) && Passes(Publications(source), faults)
      <==> !PublicationFails(before, source, faults)
  {
    var a, b := BackUps(before, source), Publications(source);
    assert forall step :: step in a <==>
      (step == BackUpResult && before.result.Some?) || (step == BackUpCache && source.cache.Some? && before.cache.Some?);
    assert forall step :: step in b <==> (step == PublishCache && source.cache.Some?) || step == PublishResult;
  }

  /** What the rollback needs to know. */
  datatype Backup = Backup(result: Option<File>, cache: Option<File>, publishedCache: bool)

  /** The entry that the rollback restores from the state the failure left. */
  function Restored(now: Artifacts, b: Backup): Artifacts {
    Artifacts(if b.result.Some? then b.result else now.result,
              if b.cache.Some? then b.cache else if b.publishedCache then None else now.cache)
  }

  class Directory {
    var results: map<Entry, File>
    var caches: map<Entry, File>
    var sidecars: map<Entry, Envelope>
    var pipeline: Registry

    constructor Empty()
      ensures View() == Contents(map[], map[], map[], map[])
    {
      results, caches, sidecars, pipeline := map[], map[], map[], map[];
    }

    function View(): Contents reads this {
      Contents(results, caches, sidecars, pipeline)
    }

    /** Move the old files aside. */
    method BackUp(e: Entry, source: Artifacts, faults: set<Step>) returns (ok: bool, b: Backup, ghost trace: seq<Artifacts>)
      modifies this`results, this`caches
      ensures ok <==> Passes(BackUps(ArtifactsOf(old(View()), e), source), faults)
      ensures trace == Forward(ArtifactsOf(old(View()), e), BackUps(ArtifactsOf(old(View()), e), source), source, faults)
      ensures ArtifactsOf(View(), e) == Last(trace)
      ensures !b.publishedCache && Restored(ArtifactsOf(View(), e), b) == ArtifactsOf(old(View()), e)
      ensures ok ==> b.result == ArtifactsOf(old(View()), e).result
      ensures ok && source.cache.Some? ==> b.cache == ArtifactsOf(old(View()), e).cache
      ensures source.cache.None? ==> b.cache == None
      ensures forall x :: x != e ==> ArtifactsOf(View(), x) == ArtifactsOf(old(View()), x)
    {
      ok, b := false, Backup(None, None, false);
      trace := [ArtifactsOf(View(), e)];
      StepsOfACopy(ArtifactsOf(View(), e), source, faults);
      if e in results {
        if BackUpResult in faults { return; }
        b := b.(result := Some(results[e]));
        results := results - {e};
        trace := trace + [ArtifactsOf(View(), e)];
      }
      if source.cache.Some? && e in caches {
        if BackUpCache in faults { return; }
        b := b.(cache := Some(caches[e]));
        caches := caches - {e};
        trace := trace + [ArtifactsOf(View(), e)];
      }
      ok := true;
    }

    /** Publish the staged cache, then the staged result. */
    method PublishStaged(e: Entry, source: Artifacts, faults: set<Step>)
      returns (ok: bool, publishedCache: bool, ghost trace: seq<Artifacts>)
      requires source.result.Some?
      modifies this`results, this`caches
      ensures ok <==> Passes(Publications(source), faults)
      ensures trace == Forward(ArtifactsOf(old(View()), e), Publications(source), source, faults)
      ensures ArtifactsOf(View(), e) == Last(trace)
      ensures publishedCache <==> source.cache.Some? && PublishCache !in faults
      ensures !ok ==> ArtifactsOf(View(), e).result == ArtifactsOf(old(View()), e).result
      ensures !publishedCache ==> ArtifactsOf(View(), e).cache == ArtifactsOf(old(View()), e).cache
      ensures forall x :: x != e ==> ArtifactsOf(View(), x) == ArtifactsOf(old(View()), x)
    {
      ok, publishedCache := false, false;
      trace := [ArtifactsOf(View(), e)];
      StepsOfACopy(ArtifactsOf(View(), e), source, faults);
      if source.cache.Some? {
        if PublishCache in faults { return; }
        caches := caches[e := source.cache.value];
        publishedCache := true;
        trace := trace + [ArtifactsOf(View(), e)];
      }
      if PublishResult in faults { return; }
      results := results[e := source.result.value];
      trace := trace + [ArtifactsOf(View(), e)];
      ok := true;
    }

    /** Move the old files aside, publish the staged cache, then the staged result. */
    method Publish(e: Entry, source: Artifacts, faults: set<Step>)
      returns (ok: bool, b: Backup, ghost trace: seq<Artifacts>)
      requires !StagingFails(source, faults)
      modifies this`results, this`caches
      ensures ok <==> !PublicationFails(ArtifactsOf(old(View()), e), source, faults)
      ensures trace == ForwardStates(ArtifactsOf(old(View()), e), source, faults)
      ensures ArtifactsOf(View(), e) == Last(trace)
      ensures !ok ==> Restored(ArtifactsOf(View(), e), b) == ArtifactsOf(old(View()), e)
      ensures forall x :: x != e ==> ArtifactsOf(View(), x) == ArtifactsOf(old(View()), x)
    {
      ghost var before := ArtifactsOf(View(), e);
      StepsOfACopy(before, source, faults);
      ForwardStepwise(before, BackUps(before, source), Publications(source), source, faults);
      ok, b, trace := BackUp(e, source, faults);
      if ok {
        ghost var more;
        var publishedCache;
        ok, publishedCache, more := PublishStaged(e, source, faults);
        b := b.(publishedCache := publishedCache);
        trace := trace + more[1..];
      }
    }

    /** Undo what was published and put the backups back, the result before the cache. */
    method RollBack(e: Entry, b: Backup, faults: set<Step>) returns (ok: bool)
      modifies this`results, this`caches
      ensures ok ==> ArtifactsOf(View(), e) == Restored(ArtifactsOf(old(View()), e), b)
      ensures !ok ==> RollbackMayFail(faults)
      ensures forall x :: x != e ==> ArtifactsOf(View(), x) == ArtifactsOf(old(View()), x)
    {
      ok := false;
      if b.publishedCache {
        if RemoveCache in faults { return; }
        caches := caches - {e};
      }
      if b.result.Some? {
        if RestoreResult in faults { return; }
        results := results[e := b.result.value];
      }
      if b.cache.Some? {
        if RestoreCache in faults { return; }
        caches := caches[e := b.cache.value];
      }
      ok := true;
    }

    /** Copy `e` from `src`; both artifacts are staged before anything is published, the result last. */
    method CopyEntry(src: Directory, e: Entry, faults: set<Step>) returns (outcome: CopyOutcome, ghost trace: seq<Artifacts>)
      requires src != this
      modifies this`results, this`caches
      ensures outcome == Copied <==>
        !StagingFails(ArtifactsOf(src.View(), e), faults)
        && !PublicationFails(ArtifactsOf(old(View()), e), ArtifactsOf(src.View(), e), faults)
      ensures outcome == Copied ==>
        ArtifactsOf(View(), e) == Published(ArtifactsOf(old(View()), e), ArtifactsOf(src.View(), e))
      ensures outcome == RolledBack ==> ArtifactsOf(View(), e) == ArtifactsOf(old(View()), e)
      ensures outcome == RollbackFailed ==> RollbackMayFail(faults)
      ensures forall x :: x != e ==> ArtifactsOf(View(), x) == ArtifactsOf(old(View()), x)
      ensures trace == ForwardStates(ArtifactsOf(old(View()), e), ArtifactsOf(src.View(), e), faults)
      ensures NeverMixed(trace, ArtifactsOf(old(View()), e),
                         Published(ArtifactsOf(old(View()), e), ArtifactsOf(src.View(), e)))
    {
      var source := ArtifactsOf(src.View(), e);
      trace := [ArtifactsOf(View(), e)];
      ForwardNeverMixes(trace[0], source, faults);
      if StagingFails(source, faults) { return RolledBack, trace; }
      var ok, b;
      ok, b, trace := Publish(e, source, faults);
      if ok {
        ForwardEndsPublished(trace[0], source, faults);
        return Copied, trace;
      }
      ok := RollBack(e, b, faults);
      outcome := if ok then RolledBack else RollbackFailed;
    }
  }
}

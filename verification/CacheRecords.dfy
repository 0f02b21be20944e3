/** Records of `pipeline.json` and when a record is coherent with its parents. */
module CacheRecords {
  import opened Wrappers
  import opened Graphs

  type Entry = string
  type Digest = string
  type Timestamp = Option<string>

  datatype Dependency = Dependency(parent: Entry, timestamp: Timestamp)

  /** `recorded` are the digests of parent outputs the record remembers; `digest` is that of its own output. */
  datatype Record = Record(
    dependencies: seq<Dependency>, recorded: map<Entry, Digest>, digest: Option<Digest>, updated: Timestamp)

  type Registry = map<Entry, Record>

  datatype Reason = OutputHashMismatch | LegacyTimestampMismatch | MixedHashedLegacy | MissingParent

  /** What one dependency says about a record. */
  function Verdict(r: Record, d: Dependency, registry: Registry): Option<Reason> {
    if d.parent !in registry then
      if d.parent in r.recorded then None else Some(MissingParent)
    else
      var parent := registry[d.parent];
      if d.parent in r.recorded && parent.digest.Some? then
        if r.recorded[d.parent] != parent.digest.value then Some(OutputHashMismatch) else None
      else if d.parent !in r.recorded && parent.digest.None? then
        if parent.updated != d.timestamp then Some(LegacyTimestampMismatch) else None
      else Some(MixedHashedLegacy)
  }

  /** The first failing dependency decides. */
  function FirstFailure(r: Record, ds: seq<Dependency>, registry: Registry): Option<Reason> {
    if ds == [] then None
    else match Verdict(r, ds[0], registry)
      case Some(reason) => Some(reason)
      case None => FirstFailure(r, ds[1..], registry)
  }

  function Incoherence(r: Record, registry: Registry): Option<Reason> {
    FirstFailure(r, r.dependencies, registry)
  }

  predicate Coherent(r: Record, registry: Registry) {
    Incoherence(r, registry) == None
  }

  ghost predicate AllCoherent(registry: Registry) {
    forall e :: e in registry ==> Coherent(registry[e], registry)
  }

  lemma {:induction false} FirstFailureIsSome(r: Record, ds: seq<Dependency>, registry: Registry)
    ensures FirstFailure(r, ds, registry) == None <==> forall d :: d in ds ==> Verdict(r, d, registry) == None
    ensures FirstFailure(r, ds, registry).Some? ==>
      exists d :: d in ds && Verdict(r, d, registry) == FirstFailure(r, ds, registry)
  {
    if ds != [] {
      assert ds == [ds[0]] + ds[1..];
      FirstFailureIsSome(r, ds[1..], registry);
    }
  }

  /** A record is coherent exactly when no dependency objects; otherwise the reason is that of an objecting one. */
  lemma IncoherenceIsFailure(r: Record, registry: Registry)
    ensures Coherent(r, registry) <==> forall d :: d in r.dependencies ==> Verdict(r, d, registry) == None
    ensures !Coherent(r, registry) ==>
      exists d :: d in r.dependencies && Verdict(r, d, registry) == Incoherence(r, registry)
  {
    FirstFailureIsSome(r, r.dependencies, registry);
  }

  // ----- the rules of coherence, spelled out

  /** The dependency does not object: it is absent but has a recorded digest, both digests agree, or, neither side having
      one, the timestamps do. */
  ghost predicate Agrees(r: Record, d: Dependency, registry: Registry) {
    || (d.parent !in registry && d.parent in r.recorded)
    || (d.parent in registry && d.parent in r.recorded && registry[d.parent].digest == Some(r.recorded[d.parent]))
    || (&& d.parent in registry && d.parent !in r.recorded && registry[d.parent].digest == None
        && registry[d.parent].updated == d.timestamp)
  }

  /** What each reason says about the dependency that gives it. */
  ghost predicate Explains(reason: Reason, r: Record, d: Dependency, registry: Registry) {
    match reason
    case MissingParent => d.parent !in registry && d.parent !in r.recorded
    case OutputHashMismatch =>
      && d.parent in registry && d.parent in r.recorded && registry[d.parent].digest != None
      && registry[d.parent].digest != Some(r.recorded[d.parent])
    case LegacyTimestampMismatch =>
      && d.parent in registry && d.parent !in r.recorded && registry[d.parent].digest == None
      && registry[d.parent].updated != d.timestamp
    case MixedHashedLegacy =>
      d.parent in registry && (d.parent in r.recorded <==> registry[d.parent].digest == None)
  }

  ghost predicate AllAgree(r: Record, ds: seq<Dependency>, registry: Registry) {
    forall d :: d in ds ==> Agrees(r, d, registry)
  }

  lemma VerdictIsRule(r: Record, d: Dependency, registry: Registry)
    ensures Verdict(r, d, registry) == None <==> Agrees(r, d, registry)
    ensures forall reason :: Verdict(r, d, registry) == Some(reason) <==> Explains(reason, r, d, registry)
  {
  }

  /** The dependency at `i` is the first that does not agree, and for this reason. */
  ghost predicate IsFirstObjection(r: Record, ds: seq<Dependency>, registry: Registry, reason: Reason, i: nat) {
    i < |ds| && AllAgree(r, ds[..i], registry) && Explains(reason, r, ds[i], registry)
  }

  lemma ObjectionStep(r: Record, ds: seq<Dependency>, registry: Registry, reason: Reason, i: nat)
    requires ds != []
    ensures IsFirstObjection(r, ds, registry, reason, i + 1) <==>
            Agrees(r, ds[0], registry) && IsFirstObjection(r, ds[1..], registry, reason, i)
    ensures IsFirstObjection(r, ds, registry, reason, 0) <==> Explains(reason, r, ds[0], registry)
  {
    if i < |ds| - 1 { assert ds[..i + 1] == [ds[0]] + ds[1..][..i]; }
  }

  lemma {:induction false} FirstFailureIsRule(r: Record, ds: seq<Dependency>, registry: Registry, reason: Reason)
    ensures FirstFailure(r, ds, registry) == None <==> AllAgree(r, ds, registry)
    ensures FirstFailure(r, ds, registry) == Some(reason) <==> exists i :: IsFirstObjection(r, ds, registry, reason, i)
  {
    if ds != [] {
      VerdictIsRule(r, ds[0], registry);
      FirstFailureIsRule(r, ds[1..], registry, reason);
      ObjectionStep(r, ds, registry, reason, 0);
      if i :| IsFirstObjection(r, ds[1..], registry, reason, i) { ObjectionStep(r, ds, registry, reason, i); }
      if i: nat :| i > 0 && IsFirstObjection(r, ds, registry, reason, i) { ObjectionStep(r, ds, registry, reason, i - 1); }
      assert ds == [ds[0]] + ds[1..];
    }
  }

  /** A record is coherent exactly when all its dependencies agree; otherwise the reason is that of the first that does not. */
  lemma CoherentIffAllAgree(r: Record, registry: Registry, reason: Reason)
    ensures Coherent(r, registry) <==> AllAgree(r, r.dependencies, registry)
    ensures Incoherence(r, registry) == Some(reason) <==> exists i :: IsFirstObjection(r, r.dependencies, registry, reason, i)
  {
    FirstFailureIsRule(r, r.dependencies, registry, reason);
  }

  datatype Basis = NoParents | AbsentParentByDigest | LegacyTimestampMatch | OutputHashMatch

  /** The rule named for a record already known to be coherent; it looks only at which parents and digests exist. */
  function CoherenceBasis(r: Record, registry: Registry): Basis {
    if r.dependencies == [] then NoParents
    else if exists d :: d in r.dependencies && d.parent !in registry then AbsentParentByDigest
    else if exists d :: d in r.dependencies && d.parent !in r.recorded then LegacyTimestampMatch
    else OutputHashMatch
  }

  /** For a coherent record the named rule is the one that holds: the comparison it names came out equal. */
  lemma BasisNamesTheRule(r: Record, registry: Registry)
    requires Coherent(r, registry)
    ensures match CoherenceBasis(r, registry)
            case NoParents => r.dependencies == []
            case AbsentParentByDigest =>
              exists d :: d in r.dependencies && d.parent !in registry && d.parent in r.recorded
            case LegacyTimestampMatch =>
              exists d :: && d in r.dependencies && d.parent in registry
                          && registry[d.parent].digest == None && registry[d.parent].updated == d.timestamp
            case OutputHashMatch =>
              forall d :: d in r.dependencies ==>
                            && d.parent in registry && d.parent in r.recorded
                            && registry[d.parent].digest == Some(r.recorded[d.parent])
  {
    IncoherenceIsFailure(r, registry);
  }

  ghost predicate Names(ds: seq<Dependency>, p: Entry) {
    exists d :: d in ds && d.parent == p
  }

  ghost predicate IsParent(p: Entry, r: Record) {
    Names(r.dependencies, p)
  }

  /** From a parent to the records that depend on it; the parent itself need not be registered. */
  ghost function ChildEdge(registry: Registry): (Entry, Entry) -> bool {
    (p: Entry, c: Entry) => c in registry && IsParent(p, registry[c])
  }

  /** The child edges over which the child recorded no digest. */
  ghost function UndigestedEdge(registry: Registry): (Entry, Entry) -> bool {
    (p: Entry, c: Entry) => c in registry && IsParent(p, registry[c]) && p !in registry[c].recorded
  }

  /** `e` is one of `copied` or descends from one. */
  ghost predicate Affected(registry: Registry, copied: set<Entry>, e: Entry) {
    ReachedFrom(ChildEdge(registry), copied, e)
  }

  /** Affected records that are incoherent before anything is dropped. */
  ghost function StaleAtStart(registry: Registry, copied: set<Entry>): set<Entry> {
    set e | e in registry && Affected(registry, copied, e) && !Coherent(registry[e], registry)
  }

  /** The least set containing those and closed under losing an undigested parent. */
  ghost function Dropped(registry: Registry, copied: set<Entry>): set<Entry> {
    set e | e in registry && ReachedFrom(UndigestedEdge(registry), StaleAtStart(registry, copied), e)
  }

  ghost predicate LossClosed(registry: Registry, s: set<Entry>) {
    forall p, c :: p in s && UndigestedEdge(registry)(p, c) ==> c in s
  }

  /** `Dropped` is what it says: it contains the start, is closed, and lies in every such set. */
  lemma DroppedIsLeast(registry: Registry, copied: set<Entry>)
    ensures StaleAtStart(registry, copied) <= Dropped(registry, copied)
    ensures LossClosed(registry, Dropped(registry, copied))
    ensures forall s :: StaleAtStart(registry, copied) <= s && LossClosed(registry, s) ==> Dropped(registry, copied) <= s
  {
    var rel := UndigestedEdge(registry);
    forall e | e in StaleAtStart(registry, copied) ensures e in Dropped(registry, copied) { ReachesSelf(rel, e); }
    forall p, c | p in Dropped(registry, copied) && rel(p, c) ensures c in Dropped(registry, copied) {
      var a :| a in StaleAtStart(registry, copied) && Reaches(rel, a, p);
      ReachesStep(rel, a, p, c);
    }
    forall s | StaleAtStart(registry, copied) <= s && LossClosed(registry, s) ensures Dropped(registry, copied) <= s {
      assert Closed(rel, s);
      forall e | e in Dropped(registry, copied) ensures e in s {
        var a :| a in StaleAtStart(registry, copied) && Reaches(rel, a, e);
        ReachedStaysInClosed(rel, s, a, e);
      }
    }
  }

  lemma ChildIsAffected(registry: Registry, copied: set<Entry>, p: Entry, c: Entry)
    requires Affected(registry, copied, p) && ChildEdge(registry)(p, c)
    ensures Affected(registry, copied, c)
  {
    var a :| a in copied && Reaches(ChildEdge(registry), a, p);
    ReachesStep(ChildEdge(registry), a, p, c);
  }

  lemma CopiedIsAffected(registry: Registry, copied: set<Entry>, e: Entry)
    requires e in copied
    ensures Affected(registry, copied, e)
  {
    ReachesSelf(ChildEdge(registry), e);
  }

  /** Records outside the descendants of `copied` are never dropped. */
  lemma DroppedIsAffected(registry: Registry, copied: set<Entry>, e: Entry)
    requires e in Dropped(registry, copied)
    ensures Affected(registry, copied, e)
  {
    var rel := UndigestedEdge(registry);
    var s := set x | x in registry && Affected(registry, copied, x);
    var a :| a in StaleAtStart(registry, copied) && Reaches(rel, a, e);
    forall p, c | p in s && rel(p, c) ensures c in s { ChildIsAffected(registry, copied, p, c); }
    ReachedStaysInClosed(rel, s, a, e);
  }

  // ----- what the loss of parents does to a record

  function Without(registry: Registry, gone: set<Entry>): Registry {
    map e | e in registry && e !in gone :: registry[e]
  }

  /** A record coherent before stays coherent unless it loses a parent it has no digest for; then that is the reason. */
  lemma LossOfParents(registry: Registry, gone: set<Entry>, r: Record)
    requires Coherent(r, registry)
    ensures Coherent(r, Without(registry, gone)) <==>
      forall p :: p in gone && p in registry && IsParent(p, r) ==> p in r.recorded
    ensures !Coherent(r, Without(registry, gone)) ==> Incoherence(r, Without(registry, gone)) == Some(MissingParent)
  {
    var left := Without(registry, gone);
    IncoherenceIsFailure(r, registry);
    IncoherenceIsFailure(r, left);
    if p :| p in gone && p in registry && IsParent(p, r) && p !in r.recorded {
      var d :| d in r.dependencies && d.parent == p;
      assert Verdict(r, d, left) == Some(MissingParent);
    }
    forall d | d in r.dependencies && Verdict(r, d, left) != None
      ensures Verdict(r, d, left) == Some(MissingParent) && d.parent in gone && d.parent in registry && d.parent !in r.recorded
    {
      assert Verdict(r, d, registry) == None;
    }
    if !Coherent(r, left) {
      var d :| d in r.dependencies && Verdict(r, d, left) == Incoherence(r, left);
      assert IsParent(d.parent, r);
    }
  }
}

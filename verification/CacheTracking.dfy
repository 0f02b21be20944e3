/** `track_run` and `_refresh_envelope`: which envelopes a run leaves behind. */
module CacheTracking {
  import opened Wrappers
  import opened CacheRecords
  import opened CacheDirectory
  import opened CacheExport

  /** The envelope is current and names the runtime that made the entry. */
  predicate Known(s: Option<Envelope>) {
    s.Some? && s.value.version == METADATA_VERSION && s.value.environment != ""
  }

  /** The run re-used the entry: its record was there and was not updated. */
  predicate Reused(before: Registry, after: Registry, e: Entry) {
    e in before && e in after && before[e].updated == after[e].updated
  }

  predicate Produced(before: Registry, c: Contents, e: Entry) {
    e in c.pipeline && !Reused(before, c.pipeline, e) && e in c.results && e in c.caches
  }

  /** Update an existing, valid envelope; never create one. */
  method RefreshEnvelope(d: Directory, e: Entry, record: Record)
    modifies d`sidecars
    ensures forall x :: x != e ==> Lookup(d.sidecars, x) == Lookup(old(d.sidecars), x)
    ensures Known(Lookup(old(d.sidecars), e)) ==>
      Lookup(d.sidecars, e) == Some(old(d.sidecars)[e].(metadata := Some(record)))
    ensures !Known(Lookup(old(d.sidecars), e)) ==> Lookup(d.sidecars, e) == Lookup(old(d.sidecars), e)
  {
    if e !in d.sidecars { return; }
    var envelope := d.sidecars[e];
    if envelope.version == METADATA_VERSION && envelope.environment != "" && envelope.metadata != Some(record) {
      d.sidecars := d.sidecars[e := envelope.(metadata := Some(record))];
    }
  }

  /** The sidecar of `e` once a successful run has been tracked. */
  function Tracked(before: Registry, c: Contents, environment: string, e: Entry): Option<Envelope> {
    if Produced(before, c, e) then Some(Envelope(METADATA_VERSION, environment, Some(c.pipeline[e])))
    else if Reused(before, c.pipeline, e) && Known(Lookup(c.sidecars, e)) then
      Some(c.sidecars[e].(metadata := Some(c.pipeline[e])))
    else Lookup(c.sidecars, e)
  }

  /** `d` holds the state right after the run; `before` is the registry read when the run started. */
  method TrackRun(d: Directory, before: Registry, environment: string)
    modifies d`sidecars
    ensures forall e :: Lookup(d.sidecars, e) == Tracked(before, old(d.View()), environment, e)
  {
    ghost var c := d.View();
    var todo := d.pipeline.Keys;
    while todo != {}
      invariant todo <= d.pipeline.Keys
      invariant forall e :: Lookup(d.sidecars, e) ==
                            (if e in todo then Lookup(c.sidecars, e) else Tracked(before, c, environment, e))
      decreases |todo|
    {
      var e :| e in todo;
      var record := d.pipeline[e];
      assert Lookup(d.sidecars, e) == Lookup(c.sidecars, e);
      ghost var last := d.sidecars;
      if e in before && before[e].updated == record.updated {
        RefreshEnvelope(d, e, record);
      } else if e in d.results && e in d.caches {
        d.sidecars := d.sidecars[e := Envelope(METADATA_VERSION, environment, Some(record))];
      }
      assert forall x :: x != e ==> Lookup(d.sidecars, x) == Lookup(last, x);
      todo := todo - {e};
    }
  }

  /** After tracking, a fully stored entry may travel exactly when this run produced it or its origin was known before;
      a re-used entry keeps the runtime it was made by and never gains an envelope. */
  lemma TrackedIsShareable(before: Registry, c: Contents, after: Contents, environment: string, e: Entry)
    requires after.pipeline == c.pipeline && after.caches == c.caches && after.results == c.results
    requires forall x :: Lookup(after.sidecars, x) == Tracked(before, c, environment, x)
    requires e in c.results && e in c.caches && e in c.pipeline && environment != ""
    ensures Shareable(after, e) <==> !Reused(before, c.pipeline, e) || Known(Lookup(c.sidecars, e))
    ensures Reused(before, c.pipeline, e) && Shareable(after, e) ==> after.sidecars[e].environment == c.sidecars[e].environment
    ensures Reused(before, c.pipeline, e) && e !in c.sidecars ==> e !in after.sidecars
  {
    assert Lookup(after.sidecars, e) == Tracked(before, c, environment, e);
  }
}

/** `deep_merge`: a recursive merge of mappings that also reports what it changed. */
module DeepMerge {
  import opened Wrappers

  /** A mapping, or anything else a configuration holds (scalars and lists), told apart by equality only. */
  datatype Value = Leaf(content: string) | Node(entries: map<string, Value>)

  datatype Change = Added(path: seq<string>, new_: Value) | Overridden(path: seq<string>, old_: Value, new_: Value)

  // ----- the merged mapping

  function Merged(base: map<string, Value>, overlay: map<string, Value>): map<string, Value>
    decreases Node(overlay)
  {
    map k | k in base.Keys + overlay.Keys ::
      if k !in overlay then base[k]
      else if k !in base then overlay[k]
      else if base[k].Node? && overlay[k].Node? then Node(Merged(base[k].entries, overlay[k].entries))
      else overlay[k]
  }

  /** The value of one key after merging. */
  function Combined(base: Value, overlay: Value): Value {
    if base.Node? && overlay.Node? then Node(Merged(base.entries, overlay.entries)) else overlay
  }

  // ----- values at paths

  /** The value a path of keys leads to, if it leads anywhere. */
  function At(m: map<string, Value>, path: seq<string>): Option<Value>
    decreases |path|
  {
    if path == [] then Some(Node(m))
    else if path[0] !in m then None
    else if |path| == 1 then Some(m[path[0]])
    else if m[path[0]].Node? then At(m[path[0]].entries, path[1..])
    else None
  }

  /** Along a path the overlay has a value that is not a mapping, with keys of the path still to follow. */
  predicate Cut(overlay: map<string, Value>, path: seq<string>)
    decreases |path|
  {
    |path| > 1 && path[0] in overlay && (overlay[path[0]].Leaf? || Cut(overlay[path[0]].entries, path[1..]))
  }

  /** What the merged mapping holds at a path, from what base and overlay hold there. */
  function Expected(base: Option<Value>, overlay: Option<Value>, cut: bool): Option<Value> {
    if overlay.None? then (if cut then None else base)
    else if base.None? then overlay
    else Some(Combined(base.value, overlay.value))
  }

  lemma {:induction false} OverlayAlone(overlay: map<string, Value>, path: seq<string>)
    requires path != [] && Cut(overlay, path)
    ensures At(overlay, path) == None
    decreases |path|
  {
    if overlay[path[0]].Node? { OverlayAlone(overlay[path[0]].entries, path[1..]); }
  }

  /** Base values survive at every path outside the overlay unless it put a non-mapping above them. */
  lemma {:induction false} MergedAt(base: map<string, Value>, overlay: map<string, Value>, path: seq<string>)
    requires path != []
    ensures At(Merged(base, overlay), path) == Expected(At(base, path), At(overlay, path), Cut(overlay, path))
    decreases |path|
  {
    var k := path[0];
    if |path| > 1 && k in overlay {
      if overlay[k].Node? && k in base && base[k].Node? {
        MergedAt(base[k].entries, overlay[k].entries, path[1..]);
      } else if overlay[k].Node? && Cut(overlay[k].entries, path[1..]) {
        OverlayAlone(overlay[k].entries, path[1..]);
      }
    }
  }

  // ----- the reported changes

  /** `c` is a place, `d` keys into its path, where merging changes the base, with the right old and new values. */
  predicate Differs(base: map<string, Value>, overlay: map<string, Value>, c: Change, d: nat)
    requires d < |c.path|
    decreases |c.path| - d
  {
    var k := c.path[d];
    && k in overlay
    && if d + 1 < |c.path| then
         && k in base && base[k].Node? && overlay[k].Node?
         && Differs(base[k].entries, overlay[k].entries, c, d + 1)
       else if k !in base then c == Added(c.path, overlay[k])
       else
         && !(base[k].Node? && overlay[k].Node?) && base[k] != overlay[k]
         && c == Overridden(c.path, base[k], overlay[k])
  }

  /** `c` lies below `path` and is a difference between mappings found there. */
  predicate Below(base: map<string, Value>, overlay: map<string, Value>, path: seq<string>, c: Change) {
    |path| < |c.path| && path <= c.path && Differs(base, overlay, c, |path|)
  }

  /** `changes` lists every difference below `path` under one of `keys`, each path once. */
  ghost predicate Lists(base: map<string, Value>, overlay: map<string, Value>, path: seq<string>, keys: set<string>,
                        changes: seq<Change>) {
    && (forall c :: c in changes <==> Below(base, overlay, path, c) && c.path[|path|] in keys)
    && (forall i, j :: 0 <= i < j < |changes| ==> changes[i].path != changes[j].path)
  }

  function EntriesAt(m: map<string, Value>, k: string): map<string, Value> {
    if k in m && m[k].Node? then m[k].entries else map[]
  }

  /** Puts a value at a path, of which the first `d` keys have been followed. */
  function Put(m: map<string, Value>, path: seq<string>, d: nat, v: Value): map<string, Value>
    requires d < |path|
    decreases |path| - d
  {
    if d + 1 == |path| then m[path[d] := v]
    else m[path[d] := Node(Put(EntriesAt(m, path[d]), path, d + 1, v))]
  }

  /** Puts every reported value at its path, one after the other. */
  function Replay(m: map<string, Value>, changes: seq<Change>, d: nat): map<string, Value>
    requires forall c :: c in changes ==> d < |c.path|
    decreases |changes|
  {
    if changes == [] then m
    else Replay(Put(m, changes[0].path, d, changes[0].new_), changes[1..], d)
  }

  lemma {:induction false} ReplayAppends(m: map<string, Value>, a: seq<Change>, b: seq<Change>, d: nat)
    requires forall c :: c in a + b ==> d < |c.path|
    ensures (forall c :: c in a ==> c in a + b) && (forall c :: c in b ==> c in a + b)
    ensures Replay(m, a + b, d) == Replay(Replay(m, a, d), b, d)
    decreases |a|
  {
    assert forall c :: c in a ==> c in a + b;
    assert forall c :: c in b ==> c in a + b;
    if a == [] {
      assert a + b == b;
    } else {
      assert (a + b)[1..] == a[1..] + b;
      ReplayAppends(Put(m, a[0].path, d, a[0].new_), a[1..], b, d);
    }
  }

  /** Changes that all lie under one key are replayed inside the mapping of that key. */
  lemma {:induction false} ReplayUnderKey(m: map<string, Value>, k: string, changes: seq<Change>, d: nat)
    requires k in m && m[k].Node?
    requires forall c :: c in changes ==> d + 1 < |c.path| && c.path[d] == k
    ensures Replay(m, changes, d) == m[k := Node(Replay(m[k].entries, changes, d + 1))]
    decreases |changes|
  {
    if changes == [] {
      assert m == m[k := m[k]];
    } else {
      var next := Put(m, changes[0].path, d, changes[0].new_);
      ReplayUnderKey(next, k, changes[1..], d);
      assert next[k := Node(Replay(next[k].entries, changes[1..], d + 1))]
          == m[k := Node(Replay(next[k].entries, changes[1..], d + 1))];
    }
  }

  // ----- the operation

  /** The part of the overlay merged so far. */
  function Part(overlay: map<string, Value>, keys: set<string>): map<string, Value> {
    map k | k in overlay && k in keys :: overlay[k]
  }

  ghost predicate Explains(base: map<string, Value>, changes: seq<Change>, d: nat, merged: map<string, Value>) {
    (forall c :: c in changes ==> d < |c.path|) && Replay(base, changes, d) == merged
  }

  lemma OneMore(base: map<string, Value>, overlay: map<string, Value>, done: set<string>, k: string)
    requires k in overlay && k !in done
    ensures Merged(base, Part(overlay, done + {k}))
         == Merged(base, Part(overlay, done))[k := if k in base then Combined(base[k], overlay[k]) else overlay[k]]
    ensures k in Merged(base, Part(overlay, done)) <==> k in base
    ensures k in base ==> Merged(base, Part(overlay, done))[k] == base[k]
  {
  }

  /** The differences below `path` under one key. */
  ghost predicate ListsKey(base: map<string, Value>, overlay: map<string, Value>, path: seq<string>, k: string,
                           more: seq<Change>) {
    && (forall c :: c in more <==> Below(base, overlay, path, c) && c.path[|path|] == k)
    && (forall i, j :: 0 <= i < j < |more| ==> more[i].path != more[j].path)
  }

  /** The change reported for a key that is not merged recursively. */
  function Single(base: map<string, Value>, overlay: map<string, Value>, path: seq<string>, k: string): seq<Change>
    requires k in overlay
  {
    if k !in base then [Added(path + [k], overlay[k])]
    else if base[k] != overlay[k] then [Overridden(path + [k], base[k], overlay[k])]
    else []
  }

  lemma SingleIsListed(base: map<string, Value>, overlay: map<string, Value>, path: seq<string>, k: string)
    requires k in overlay && !(k in base && base[k].Node? && overlay[k].Node?)
    ensures ListsKey(base, overlay, path, k, Single(base, overlay, path, k))
  {
    var more := Single(base, overlay, path, k);
    forall c | Below(base, overlay, path, c) && c.path[|path|] == k ensures c in more {
      assert c.path == path + [k];
    }
  }

  lemma SubIsListed(base: map<string, Value>, overlay: map<string, Value>, path: seq<string>, k: string, more: seq<Change>)
    requires k in overlay && k in base && base[k].Node? && overlay[k].Node?
    requires Lists(base[k].entries, overlay[k].entries, path + [k], overlay[k].entries.Keys, more)
    ensures ListsKey(base, overlay, path, k, more)
  {
    var inner := path + [k];
    forall c ensures Below(base[k].entries, overlay[k].entries, inner, c) <==> Below(base, overlay, path, c) && c.path[|path|] == k {
      if inner <= c.path { assert path == inner[..|path|]; }
      if |inner| < |c.path| && path <= c.path && c.path[|path|] == k { assert inner <= c.path; }
    }
  }

  lemma ListsExtend(base: map<string, Value>, overlay: map<string, Value>, path: seq<string>, done: set<string>,
                    changes: seq<Change>, k: string, more: seq<Change>)
    requires Lists(base, overlay, path, done, changes) && k !in done
    requires ListsKey(base, overlay, path, k, more)
    ensures Lists(base, overlay, path, done + {k}, changes + more)
  {
    var all := changes + more;
    assert forall c :: c in all <==> c in changes || c in more;
    forall i, j | 0 <= i < j < |all| ensures all[i].path != all[j].path {
      assert all[i] in changes || i >= |changes|;
      if i < |changes| <= j {
        assert changes[i] in changes && more[j - |changes|] in more;
      }
    }
  }

  /** Replaying the changes of one more key. */
  lemma ExplainsExtend(base: map<string, Value>, changes: seq<Change>, d: nat, merged: map<string, Value>,
                       more: seq<Change>, next: map<string, Value>)
    requires Explains(base, changes, d, merged) && Explains(merged, more, d, next)
    ensures Explains(base, changes + more, d, next)
  {
    ReplayAppends(base, changes, more, d);
  }

  /** The loop of `Merge` when the keys of `done` have been merged. */
  ghost predicate Progress(base: map<string, Value>, overlay: map<string, Value>, path: seq<string>, done: set<string>,
                           merged: map<string, Value>, changes: seq<Change>) {
    && merged == Merged(base, Part(overlay, done))
    && Lists(base, overlay, path, done, changes)
    && Explains(base, changes, |path|, merged)
  }

  lemma ProgressStep(base: map<string, Value>, overlay: map<string, Value>, path: seq<string>, done: set<string>,
                     merged: map<string, Value>, changes: seq<Change>, k: string, v: Value, more: seq<Change>)
    requires Progress(base, overlay, path, done, merged, changes) && k in overlay && k !in done
    requires v == if k in base then Combined(base[k], overlay[k]) else overlay[k]
    requires ListsKey(base, overlay, path, k, more)
    requires Explains(merged, more, |path|, merged[k := v])
    ensures Progress(base, overlay, path, done + {k}, merged[k := v], changes + more)
  {
    OneMore(base, overlay, done, k);
    ExplainsExtend(base, changes, |path|, merged, more, merged[k := v]);
    ListsExtend(base, overlay, path, done, changes, k, more);
  }

  lemma SingleExplains(m: map<string, Value>, path: seq<string>, k: string, c: Change)
    requires c.path == path + [k]
    ensures Explains(m, [c], |path|, m[k := c.new_])
  {
  }

  lemma UnchangedExplains(m: map<string, Value>, d: nat, k: string)
    requires k in m
    ensures Explains(m, [], d, m[k := m[k]])
  {
    assert m[k := m[k]] == m;
  }

  lemma AllMerged(base: map<string, Value>, overlay: map<string, Value>, path: seq<string>, done: set<string>,
                  merged: map<string, Value>, changes: seq<Change>)
    requires Progress(base, overlay, path, done, merged, changes)
    requires forall k :: k in overlay ==> k in done
    ensures merged == Merged(base, overlay)
    ensures Lists(base, overlay, path, overlay.Keys, changes)
    ensures Explains(base, changes, |path|, merged)
  {
    assert Part(overlay, done) == overlay;
  }

  method Merge(base: map<string, Value>, overlay: map<string, Value>, path: seq<string>)
    returns (merged: map<string, Value>, changes: seq<Change>)
    ensures merged == Merged(base, overlay)
    ensures Lists(base, overlay, path, overlay.Keys, changes)
    ensures Explains(base, changes, |path|, merged)
    decreases Node(overlay)
  {
    merged, changes := base, [];
    var pending := overlay.Keys;
    ghost var done := {};
    assert Merged(base, Part(overlay, {})) == base;
    while pending != {}
      invariant pending !! done && pending <= overlay.Keys
      invariant forall k :: k in overlay ==> k in pending || k in done
      invariant Progress(base, overlay, path, done, merged, changes)
      decreases pending
    {
      var key :| key in pending;
      OneMore(base, overlay, done, key);
      var value, more := overlay[key], [];
      if key !in merged {
        more := [Added(path + [key], value)];
        SingleIsListed(base, overlay, path, key);
        SingleExplains(merged, path, key, more[0]);
      } else if merged[key].Node? && value.Node? {
        var sub;
        sub, more := Merge(merged[key].entries, value.entries, path + [key]);
        value := Node(sub);
        SubIsListed(base, overlay, path, key, more);
        ReplayUnderKey(merged, key, more, |path|);
      } else {
        SingleIsListed(base, overlay, path, key);
        if merged[key] != value {
          more := [Overridden(path + [key], merged[key], value)];
          SingleExplains(merged, path, key, more[0]);
        } else {
          UnchangedExplains(merged, |path|, key);
        }
      }
      ProgressStep(base, overlay, path, done, merged, changes, key, value, more);
      merged := merged[key := value];
      changes := changes + more;
      pending, done := pending - {key}, done + {key};
    }
    AllMerged(base, overlay, path, done, merged, changes);
  }

  // ----- what a report says about base and merged mapping

  /** `c` by the values at its path and the one above it. */
  predicate IsDifference(base: map<string, Value>, overlay: map<string, Value>, path: seq<string>, c: Change)
    requires path != []
  {
    var parent := path[..|path| - 1];
    && IsNode(At(base, parent)) && IsNode(At(overlay, parent))
    && match At(overlay, path)
       case None => false
       case Some(new_) =>
         match At(base, path)
         case None => c == Added(c.path, new_)
         case Some(old_) => !(old_.Node? && new_.Node?) && old_ != new_ && c == Overridden(c.path, old_, new_)
  }

  predicate IsNode(v: Option<Value>) {
    v.Some? && v.value.Node?
  }

  lemma {:induction false} DiffersPathwise(base: map<string, Value>, overlay: map<string, Value>, c: Change, d: nat)
    requires d < |c.path|
    ensures Differs(base, overlay, c, d) <==> IsDifference(base, overlay, c.path[d..], c)
    decreases |c.path| - d
  {
    var path := c.path[d..];
    var k, parent := path[0], path[..|path| - 1];
    if |path| > 1 {
      assert path[1..] == c.path[d + 1..];
      assert parent[1..] == path[1..][..|path| - 2];
      assert parent[0] == k;
      if k in base && k in overlay && base[k].Node? && overlay[k].Node? {
        DiffersPathwise(base[k].entries, overlay[k].entries, c, d + 1);
      }
    }
  }

  /** Every reported change is one: base and merged mapping hold its old and new value there, and these differ. */
  lemma ReportedValuesHold(base: map<string, Value>, overlay: map<string, Value>, changes: seq<Change>, c: Change)
    requires Lists(base, overlay, [], overlay.Keys, changes) && c in changes
    ensures At(base, c.path) == (if c.Added? then None else Some(c.old_))
    ensures At(Merged(base, overlay), c.path) == Some(c.new_) == At(overlay, c.path)
    ensures At(base, c.path) != At(Merged(base, overlay), c.path)
  {
    assert Below(base, overlay, [], c);
    DiffersPathwise(base, overlay, c, 0);
    assert c.path[0..] == c.path;
    MergedAt(base, overlay, c.path);
  }

  /** Nothing is reported exactly when nothing changed. */
  lemma SilentIffUnchanged(base: map<string, Value>, overlay: map<string, Value>, changes: seq<Change>)
    requires Lists(base, overlay, [], overlay.Keys, changes)
    requires Explains(base, changes, 0, Merged(base, overlay))
    ensures changes == [] <==> Merged(base, overlay) == base
  {
    if changes != [] { ReportedValuesHold(base, overlay, changes, changes[0]); }
  }

  lemma {:induction false} MergingTwice(base: map<string, Value>, overlay: map<string, Value>)
    ensures Merged(Merged(base, overlay), overlay) == Merged(base, overlay)
    decreases Node(overlay)
  {
    var once := Merged(base, overlay);
    forall k | k in once.Keys ensures Merged(once, overlay)[k] == once[k] {
      if k in overlay && overlay[k].Node? {
        if k in base && base[k].Node? {
          MergingTwice(base[k].entries, overlay[k].entries);
        } else {
          MergingWithItself(overlay[k].entries);
        }
      }
    }
  }

  lemma {:induction false} MergingWithItself(m: map<string, Value>)
    ensures Merged(m, m) == m
    decreases Node(m)
  {
    forall k | k in m ensures Merged(m, m)[k] == m[k] {
      if m[k].Node? { MergingWithItself(m[k].entries); }
    }
  }

  /** Merging the same overlay again reports nothing. */
  lemma SecondMergeIsSilent(base: map<string, Value>, overlay: map<string, Value>, changes: seq<Change>)
    requires Lists(Merged(base, overlay), overlay, [], overlay.Keys, changes)
    requires Explains(Merged(base, overlay), changes, 0, Merged(Merged(base, overlay), overlay))
    ensures changes == []
  {
    MergingTwice(base, overlay);
    SilentIffUnchanged(Merged(base, overlay), overlay, changes);
  }

  /** Two reports of one merge list the same changes, whatever order the overlay was read in. */
  lemma ReportsAgree(base: map<string, Value>, overlay: map<string, Value>, a: seq<Change>, b: seq<Change>)
    requires Lists(base, overlay, [], overlay.Keys, a) && Lists(base, overlay, [], overlay.Keys, b)
    ensures forall c :: c in a <==> c in b
    ensures |a| == |b|
  {
    assert forall c :: c in a <==> Below(base, overlay, [], c) && c.path[0] in overlay.Keys;
    assert forall c :: c in b <==> Below(base, overlay, [], c) && c.path[0] in overlay.Keys;
    SizeOfDistinct(a);
    SizeOfDistinct(b);
    assert (set c | c in a) == (set c | c in b);
  }

  lemma {:induction false} SizeOfDistinct(s: seq<Change>)
    requires forall i, j :: 0 <= i < j < |s| ==> s[i].path != s[j].path
    ensures |set c | c in s| == |s|
    decreases |s|
  {
    if s != [] {
      SizeOfDistinct(s[1..]);
      assert s[0] !in s[1..];
      assert (set c | c in s) == {s[0]} + (set c | c in s[1..]);
    }
  }
}

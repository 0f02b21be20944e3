/** Dotted names: re-export chasing, relative imports, and the coverage part of the audit report. */
module ImportResolution {
  import opened Wrappers
  import opened Graphs
  import opened ImportClosure

  // ----- dotted names

  /** `rsplit(".", 1)`: owner and last component, if there is a dot. */
  function SplitLast(dotted: string): (r: Option<(string, string)>)
    ensures r.Some? ==> dotted == r.value.0 + "." + r.value.1 && '.' !in r.value.1
    ensures r.None? <==> '.' !in dotted
    decreases |dotted|
  {
    if dotted == "" then None
    else
      var n := |dotted| - 1;
      if dotted[n] == '.' then Some((dotted[..n], ""))
      else match SplitLast(dotted[..n])
        case None => assert dotted == dotted[..n] + [dotted[n]]; None
        case Some((owner, last)) => assert dotted == dotted[..n] + [dotted[n]]; Some((owner, last + [dotted[n]]))
  }

  /** `rsplit(".", n)[0]`: the name without its last `n` components, but never less than the first one. */
  function DropLast(dotted: string, n: nat): string
    decreases n
  {
    if n == 0 || SplitLast(dotted).None? then dotted else DropLast(SplitLast(dotted).value.0, n - 1)
  }

  function RelativeAnchor(own: Module, isPackage: bool): string {
    if isPackage then own else DropLast(own, 1)
  }

  function ResolveRelative(m: Option<string>, package: string, level: nat): string
    requires level >= 1
  {
    var base := DropLast(package, level - 1);
    if m.Some? && m.value != "" then base + "." + m.value else base
  }

  function Join(parts: seq<string>): string
    requires parts != []
  {
    if |parts| == 1 then parts[0] else Join(parts[..|parts| - 1]) + "." + parts[|parts| - 1]
  }

  predicate Plain(parts: seq<string>) {
    parts != [] && forall p :: p in parts ==> '.' !in p
  }

  lemma {:induction false} SplitLastIsUnique(owner: string, last: string)
    requires '.' !in last
    ensures SplitLast(owner + "." + last) == Some((owner, last))
    decreases |last|
  {
    var dotted := owner + "." + last;
    var n := |dotted| - 1;
    if last == "" {
      assert dotted[..n] == owner;
    } else {
      var shorter := last[..|last| - 1];
      SplitLastIsUnique(owner, shorter);
      assert dotted[..n] == owner + "." + shorter;
      assert last == shorter + [dotted[n]];
    }
  }

  /** All but the last `n` components, but at least one. */
  function Keep(parts: seq<string>, n: nat): (r: seq<string>)
    requires parts != []
    ensures r != []
  {
    parts[..if n < |parts| then |parts| - n else 1]
  }

  lemma KeepAgain(parts: seq<string>, n: nat, k: nat)
    requires Plain(parts)
    ensures Plain(Keep(parts, n)) && Keep(Keep(parts, n), k) == Keep(parts, n + k)
  {
    forall p | p in Keep(parts, n) ensures '.' !in p { assert p in parts; }
  }

  lemma JoinWithoutLast(parts: seq<string>)
    requires Plain(parts)
    ensures |parts| > 1 ==> SplitLast(Join(parts)) == Some((Join(Keep(parts, 1)), parts[|parts| - 1]))
    ensures |parts| == 1 ==> SplitLast(Join(parts)) == None
  {
    if |parts| > 1 {
      SplitLastIsUnique(Join(Keep(parts, 1)), parts[|parts| - 1]);
    } else {
      assert parts[0] in parts;
    }
  }

  lemma {:induction false} DropLastOfJoin(parts: seq<string>, n: nat)
    requires Plain(parts)
    ensures DropLast(Join(parts), n) == Join(Keep(parts, n))
    decreases n
  {
    if n == 0 {
      assert Keep(parts, 0) == parts;
    } else {
      JoinWithoutLast(parts);
      if |parts| > 1 {
        KeepAgain(parts, 1, n - 1);
        DropLastOfJoin(Keep(parts, 1), n - 1);
      } else {
        assert Keep(parts, n) == parts;
      }
    }
  }

  lemma AnchorOfJoin(own: seq<string>, isPackage: bool)
    requires Plain(own)
    ensures RelativeAnchor(Join(own), isPackage) == Join(Keep(own, if isPackage then 0 else 1))
  {
    DropLastOfJoin(own, if isPackage then 0 else 1);
  }

  /** `from <level dots>m import x` in a module with these components: the components of the package that many levels up,
      then `m` if it is there; too many dots stop at the top package instead of failing. */
  lemma RelativeImportCountsComponents(own: seq<string>, isPackage: bool, level: nat, m: Option<string>)
    requires Plain(own) && level >= 1
    ensures var base := Join(Keep(own, if isPackage then level - 1 else level));
            ResolveRelative(m, RelativeAnchor(Join(own), isPackage), level)
            == if m.Some? && m.value != "" then base + "." + m.value else base
  {
    var up := if isPackage then 0 else 1;
    AnchorOfJoin(own, isPackage);
    KeepAgain(own, up, level - 1);
    DropLastOfJoin(Keep(own, up), level - 1);
  }

  /** In the module a.b.c: one dot is the package a.b, two are a, and so are more. */
  lemma RelativeImportsOfModule(a: string, b: string, c: string, x: string)
    requires Plain([a, b, c]) && x != ""
    ensures var own := a + "." + b + "." + c;
            && ResolveRelative(Some(x), RelativeAnchor(own, false), 1) == a + "." + b + "." + x
            && ResolveRelative(Some(x), RelativeAnchor(own, false), 2) == a + "." + x
            && ResolveRelative(Some(x), RelativeAnchor(own, false), 3) == a + "." + x
            && ResolveRelative(None, RelativeAnchor(own, false), 1) == a + "." + b
            && ResolveRelative(Some(x), RelativeAnchor(own, true), 1) == own + "." + x
            && ResolveRelative(None, RelativeAnchor(own, true), 2) == a + "." + b
  {
    var own := [a, b, c];
    JoinOfThree(a, b, c);
    RelativeImportCountsComponents(own, false, 1, Some(x));
    RelativeImportCountsComponents(own, false, 2, Some(x));
    RelativeImportCountsComponents(own, false, 3, Some(x));
    RelativeImportCountsComponents(own, false, 1, None);
    RelativeImportCountsComponents(own, true, 1, Some(x));
    RelativeImportCountsComponents(own, true, 2, None);
    assert Keep(own, 0) == own && Keep(own, 1) == [a, b] && Keep(own, 2) == [a] && Keep(own, 3) == [a];
  }

  lemma JoinOfThree(a: string, b: string, c: string)
    ensures Join([a, b, c]) == a + "." + b + "." + c && Join([a, b]) == a + "." + b && Join([a]) == a
  {
    assert Join([a]) == a;
    assert [a, b][..1] == [a] && Join([a, b]) == Join([a]) + "." + b;
    assert [a, b, c][..2] == [a, b] && Join([a, b, c]) == Join([a, b]) + "." + c;
  }

  // ----- re-exports

  /** What the modules on disk bind: for each parsed module, local name to dotted name. */
  type Bindings = map<Module, map<string, string>>

  /** One step along a re-export; `None` when the name is a module or cannot be followed. */
  function Follow(dotted: string, bindings: Bindings, onDisk: set<Module>): Option<string> {
    if dotted in onDisk then None
    else match SplitLast(dotted)
      case None => None
      case Some((owner, attribute)) =>
        if owner in bindings && attribute in bindings[owner] then Some(bindings[owner][attribute]) else None
  }

  ghost function FollowEdge(bindings: Bindings, onDisk: set<Module>): (string, string) -> bool {
    (a: string, b: string) => Follow(a, bindings, onDisk) == Some(b)
  }

  function Names(bindings: Bindings): set<string> {
    set owner, name | owner in bindings && name in bindings[owner] :: bindings[owner][name]
  }

  /** The names followed so far form one chain that has not met a module. */
  ghost predicate Chasing(start: string, bindings: Bindings, onDisk: set<Module>, seen: set<string>, current: string) {
    && Reaches(FollowEdge(bindings, onDisk), start, current)
    && (start == current || start in seen)
    && forall x :: x in seen ==>
         x !in onDisk && Follow(x, bindings, onDisk).Some?
         && (Follow(x, bindings, onDisk).value in seen || Follow(x, bindings, onDisk).value == current)
         && Reaches(FollowEdge(bindings, onDisk), x, current)
  }

  lemma {:induction false} ChaseStep(start: string, bindings: Bindings, onDisk: set<Module>, seen: set<string>, current: string)
    requires Chasing(start, bindings, onDisk, seen, current) && Follow(current, bindings, onDisk).Some?
    ensures Chasing(start, bindings, onDisk, seen + {current}, Follow(current, bindings, onDisk).value)
  {
    var rel, next := FollowEdge(bindings, onDisk), Follow(current, bindings, onDisk).value;
    ReachesStep(rel, start, current, next);
    ReachesSelf(rel, current);
    forall x | x in seen + {current} ensures Reaches(rel, x, next) { ReachesStep(rel, x, current, next); }
  }

  /** Where the chase ends it has met every module the chain can meet. */
  lemma ChaseIsComplete(start: string, bindings: Bindings, onDisk: set<Module>, seen: set<string>, current: string, m: Module)
    requires Chasing(start, bindings, onDisk, seen, current)
    requires current in onDisk || current in seen || Follow(current, bindings, onDisk).None?
    requires Reaches(FollowEdge(bindings, onDisk), start, m) && m in onDisk
    ensures current == m
  {
    var rel := FollowEdge(bindings, onDisk);
    var all := seen + {current};
    forall x, y | x in all && rel(x, y) ensures y in all {}
    ReachedStaysInClosed(rel, all, start, m);
  }

  /** One of the names followed so far leads back to the start only in the last step, which then is where the chase is. */
  ghost predicate ReturnsAtLast(start: string, bindings: Bindings, onDisk: set<Module>, seen: set<string>, current: string) {
    && (seen != {} ==> start in seen)
    && forall x :: x in seen && Follow(x, bindings, onDisk) == Some(start) ==> current == start
  }

  /** The name lies on a cycle of re-exports. */
  ghost predicate OnCycle(name: string, bindings: Bindings, onDisk: set<Module>) {
    var next := Follow(name, bindings, onDisk);
    next.Some? && Reaches(FollowEdge(bindings, onDisk), next.value, name)
  }

  lemma ReturnStep(start: string, bindings: Bindings, onDisk: set<Module>, seen: set<string>, current: string)
    requires Chasing(start, bindings, onDisk, seen, current) && ReturnsAtLast(start, bindings, onDisk, seen, current)
    requires current !in seen && Follow(current, bindings, onDisk).Some?
    ensures ReturnsAtLast(start, bindings, onDisk, seen + {current}, Follow(current, bindings, onDisk).value)
  {
  }

  /** Everything a name on a cycle leads to leads back to it, since each name leads to one other only. */
  lemma CycleIsMutual(start: string, bindings: Bindings, onDisk: set<Module>, all: set<string>, current: string)
    requires OnCycle(start, bindings, onDisk) && start in all && Closed(FollowEdge(bindings, onDisk), all)
    requires Reaches(FollowEdge(bindings, onDisk), start, current)
    ensures Reaches(FollowEdge(bindings, onDisk), current, start)
  {
    var rel := FollowEdge(bindings, onDisk);
    var back := set x | x in all && Reaches(rel, x, start);
    ReachesSelf(rel, start);
    forall x, y | x in back && rel(x, y) ensures y in back {
      ReachesHead(rel, x, start);
    }
    ReachedStaysInClosed(rel, back, start, current);
  }

  /** Where the chase ends without a module, it is back at its start exactly when that cannot be followed or lies on a cycle. */
  lemma ChaseReturns(start: string, bindings: Bindings, onDisk: set<Module>, seen: set<string>, current: string)
    requires Chasing(start, bindings, onDisk, seen, current) && ReturnsAtLast(start, bindings, onDisk, seen, current)
    requires current in seen || Follow(current, bindings, onDisk).None?
    ensures current == start <==> Follow(start, bindings, onDisk).None? || OnCycle(start, bindings, onDisk)
    ensures Follow(current, bindings, onDisk).Some? ==> OnCycle(current, bindings, onDisk)
  {
    var rel, all := FollowEdge(bindings, onDisk), seen + {current};
    assert Closed(rel, all);
    if OnCycle(start, bindings, onDisk) {
      var next := Follow(start, bindings, onDisk).value;
      if current in seen {
        ReachedStaysInClosed(rel, all, next, start);
        ReachesLast(rel, next, start);
        if b :| Reaches(rel, next, b) && rel(b, start) { ReachedStaysInClosed(rel, all, next, b); }
      } else {
        CycleIsMutual(start, bindings, onDisk, all, current);
        ReachesHead(rel, current, start);
      }
    }
  }

  /** The loop stops also on cyclic re-exports, and finds a module exactly when the chain of re-exports leads to one.
      The start comes back exactly when it has no re-export to follow or lies on a cycle of them; else the result is the
      end of the chain or, if there is none, a name on the cycle. */
  method ResolveModuleBinding(start: string, bindings: Bindings, onDisk: set<Module>) returns (dotted: string)
    ensures Reaches(FollowEdge(bindings, onDisk), start, dotted)
    ensures forall m :: m in onDisk && Reaches(FollowEdge(bindings, onDisk), start, m) ==> dotted == m
    ensures Follow(dotted, bindings, onDisk).Some? ==> OnCycle(dotted, bindings, onDisk)
    ensures dotted == start <==> Follow(start, bindings, onDisk).None? || OnCycle(start, bindings, onDisk)
  {
    var seen: set<string> := {};
    dotted := start;
    ReachesSelf(FollowEdge(bindings, onDisk), start);
    while dotted !in onDisk && '.' in dotted && dotted !in seen
      invariant Chasing(start, bindings, onDisk, seen, dotted)
      invariant ReturnsAtLast(start, bindings, onDisk, seen, dotted)
      invariant seen + {dotted} <= Names(bindings) + {start}
      decreases |Names(bindings) + {start} - seen|
    {
      ghost var before := seen;
      var split := SplitLast(dotted).value;
      if split.0 !in bindings || split.1 !in bindings[split.0] { break; }
      ChaseStep(start, bindings, onDisk, seen, dotted);
      ReturnStep(start, bindings, onDisk, seen, dotted);
      FewerLeft(Names(bindings) + {start}, before, before + {dotted});
      seen := seen + {dotted};
      dotted := bindings[split.0][split.1];
    }
    ReachesSelf(FollowEdge(bindings, onDisk), dotted);
    ChaseReturns(start, bindings, onDisk, seen, dotted);
    forall m | m in onDisk && Reaches(FollowEdge(bindings, onDisk), start, m) ensures dotted == m {
      ChaseIsComplete(start, bindings, onDisk, seen, dotted, m);
    }
  }

  /** A name that stands for no module and yet does not come back: `a.f` re-exports `b.g`, which is bound nowhere. */
  method UnresolvedNameChanges() returns (dotted: string)
    ensures dotted == "b.g"
  {
    var bindings: Bindings := map["a" := map["f" := "b.g"], "b" := map[]];
    SplitLastIsUnique("a", "f");
    SplitLastIsUnique("b", "g");
    assert Follow("a.f", bindings, {}) == Some("b.g") by { assert "a.f" == "a" + "." + "f"; }
    assert Follow("b.g", bindings, {}) == None by { assert "b.g" == "b" + "." + "g"; }
    dotted := ResolveModuleBinding("a.f", bindings, {});
    ReachesHead(FollowEdge(bindings, {}), "a.f", dotted);
    forall b | Reaches(FollowEdge(bindings, {}), "b.g", b) ensures b == "b.g" {
      ReachesHead(FollowEdge(bindings, {}), "b.g", b);
    }
  }

  // ----- coverage

  /** What the report reads off one source-hashing stage. */
  datatype StageSource = StageSource(
    required: set<Module>,             // first-party imports not covered by the stage graph
    helpers: set<string>,              // entries of the helper tuple, as bound names
    aliases: map<string, string>,      // what the bound names stand for
    deferred: set<string>,             // entries of the deferred tuple, dotted
    readsHelpers: bool,                // validate() reads the helper tuple
    readsDeferred: bool)

  datatype Coverage = Coverage(covered: set<Module>, uncovered: set<Module>, transitiveUncovered: set<Module>,
                               transitiveExempt: set<Module>, unreachedBoundaries: set<Module>)

  ghost function BoundName(s: StageSource, helper: string): string {
    if helper in s.aliases then s.aliases[helper] else helper
  }

  /** The stage's own token hashes the module `m`. */
  ghost predicate Hashed(s: StageSource, bindings: Bindings, onDisk: set<Module>, m: Module) {
    || (s.readsDeferred && m in s.deferred)
    || (s.readsHelpers && exists h :: h in s.helpers && Reaches(FollowEdge(bindings, onDisk), BoundName(s, h), m))
  }

  /** A name is followed from its owner to what the owner binds it to, unless it is a module; other names are not. */
  lemma FollowedName(owner: string, attribute: string, bindings: Bindings, onDisk: set<Module>)
    requires '.' !in attribute
    ensures var dotted := owner + "." + attribute;
            Follow(dotted, bindings, onDisk)
            == if dotted !in onDisk && owner in bindings && attribute in bindings[owner] then Some(bindings[owner][attribute]) else None
    ensures Follow(attribute, bindings, onDisk) == None
  {
    SplitLastIsUnique(owner, attribute);
  }

  /** Each name of the chain is a re-export of the next. */
  predicate IsReexportChain(bindings: Bindings, onDisk: set<Module>, c: seq<string>) {
    c != [] && forall i, j :: 0 <= i < |c| && j == i + 1 && j < |c| ==> Follow(c[i], bindings, onDisk) == Some(c[j])
  }

  /** The chain starts where the alias of a helper points, or at the helper itself if it has none, and ends at `m`. */
  predicate HelperLeadsTo(s: StageSource, bindings: Bindings, onDisk: set<Module>, h: string, c: seq<string>, m: Module) {
    && h in s.helpers && IsReexportChain(bindings, onDisk, c) && c[|c| - 1] == m
    && (h in s.aliases ==> c[0] == s.aliases[h]) && (h !in s.aliases ==> c[0] == h)
  }

  /** The token hashes the deferred entries exactly if it reads them, and where its helpers lead exactly if it reads those. */
  lemma HashedIff(s: StageSource, bindings: Bindings, onDisk: set<Module>, m: Module)
    ensures !s.readsHelpers ==> (Hashed(s, bindings, onDisk, m) <==> s.readsDeferred && m in s.deferred)
    ensures s.readsHelpers ==>
      (Hashed(s, bindings, onDisk, m) <==>
        (s.readsDeferred && m in s.deferred) || exists h, c :: HelperLeadsTo(s, bindings, onDisk, h, c, m))
  {
    var rel := FollowEdge(bindings, onDisk);
    forall h | h in s.helpers && Reaches(rel, BoundName(s, h), m) ensures exists c :: HelperLeadsTo(s, bindings, onDisk, h, c, m) {
      var c :| PathBetween(rel, c, BoundName(s, h), m);
      assert HelperLeadsTo(s, bindings, onDisk, h, c, m);
    }
    forall h, c | HelperLeadsTo(s, bindings, onDisk, h, c, m) ensures Reaches(rel, BoundName(s, h), m) {
      assert PathBetween(rel, c, BoundName(s, h), m);
    }
  }

  method Resolved(s: StageSource, bindings: Bindings, onDisk: set<Module>) returns (resolved: set<Module>)
    ensures forall m :: m in onDisk ==> (m in resolved <==> Hashed(s, bindings, onDisk, m))
  {
    resolved := {};
    var todo := if s.readsHelpers then s.helpers else {};
    while todo != {}
      invariant todo <= s.helpers && (todo != {} ==> s.readsHelpers)
      invariant forall m :: m in onDisk ==> (m in resolved <==>
        s.readsHelpers && exists h :: h in s.helpers && h !in todo && Reaches(FollowEdge(bindings, onDisk), BoundName(s, h), m))
      decreases |todo|
    {
      var h :| h in todo;
      var target := ResolveModuleBinding(if h in s.aliases then s.aliases[h] else h, bindings, onDisk);
      todo := todo - {h};
      resolved := resolved + {target};
    }
    resolved := resolved + if s.readsDeferred then s.deferred else {};
  }

  /** Coverage of one stage: nothing is transitively uncovered exactly when the token hashes all it reaches. */
  method Cover(s: StageSource, imports: map<Module, set<Module>>, b: Barriers, bindings: Bindings, onDisk: set<Module>)
    returns (c: Coverage)
    requires forall m :: m in AllTargets(imports) ==> m in onDisk
    ensures forall m :: m in onDisk ==> (m in c.covered <==> Hashed(s, bindings, onDisk, m))
    ensures forall m :: m in c.transitiveUncovered <==> InClosure(imports, b, m) && !Hashed(s, bindings, onDisk, m)
    ensures c.transitiveUncovered == {} <==> forall m :: InClosure(imports, b, m) ==> Hashed(s, bindings, onDisk, m)
    ensures forall m :: m in onDisk ==>
      (m in c.uncovered <==> m in s.required && m !in b.exempt && !Hashed(s, bindings, onDisk, m))
    ensures forall m :: m in c.transitiveExempt <==>
      m in b.exempt && exists w :: (w == b.stage || InClosure(imports, b, w)) && m in ImportsOf(imports, w)
    ensures forall m :: m in c.unreachedBoundaries <==>
      m in b.boundaries && forall w :: w == b.stage || InClosure(imports, b, w) ==> m !in ImportsOf(imports, w)
  {
    var resolved := Resolved(s, bindings, onDisk);
    var closure := Closure(imports, b);
    ClosureIsOnDisk(imports, b);
    var walked := closure + {b.stage};
    var transitiveExempt := set m | m in b.exempt && exists w :: w in walked && m in ImportsOf(imports, w);
    var unreached := set m | m in b.boundaries && !exists w :: w in walked && m in ImportsOf(imports, w);
    c := Coverage(resolved, s.required - resolved - b.exempt, closure - resolved, transitiveExempt, unreached);
  }

  lemma ClosureIsOnDisk(imports: map<Module, set<Module>>, b: Barriers)
    ensures forall m :: InClosure(imports, b, m) ==> m in AllTargets(imports)
  {
    forall m | InClosure(imports, b, m) ensures m in AllTargets(imports) {
      ReachesLast(ImportEdge(imports, b), b.stage, m);
    }
  }
}

/** `import_closure`, `resolve_module_binding` and relative imports: which modules a stage token has to hash. */
module ImportClosure {
  import opened Graphs

  type Module = string

  /** What ends the walk for one stage. */
  datatype Barriers = Barriers(stage: Module, stages: set<Module>, declared: set<Module>, exempt: set<Module>, boundaries: set<Module>)

  predicate Passes(b: Barriers, target: Module) {
    && target != b.stage
    && !(target in b.stages && target in b.declared)
    && target !in b.exempt
    && target !in b.boundaries
  }

  function ImportsOf(imports: map<Module, set<Module>>, m: Module): set<Module> {
    if m in imports then imports[m] else {}
  }

  /** An import that the walk may follow. */
  ghost function ImportEdge(imports: map<Module, set<Module>>, b: Barriers): (Module, Module) -> bool {
    (m: Module, target: Module) => target in ImportsOf(imports, m) && Passes(b, target)
  }

  /** `m` is another module than the stage and an import path that avoids all barriers leads to it. */
  ghost predicate InClosure(imports: map<Module, set<Module>>, b: Barriers, m: Module) {
    m != b.stage && Reaches(ImportEdge(imports, b), b.stage, m)
  }

  ghost predicate Walking(imports: map<Module, set<Module>>, b: Barriers, reached: set<Module>, frontier: seq<Module>) {
    && (forall m :: m in reached ==> InClosure(imports, b, m))
    && (forall m :: m in frontier ==> m == b.stage || m in reached)
    && (forall m, t :: (m == b.stage || m in reached) && m !in frontier && ImportEdge(imports, b)(m, t) ==> t in reached)
  }

  function AllTargets(imports: map<Module, set<Module>>): set<Module> {
    set m, t | m in imports && t in imports[m] :: t
  }

  /** Expand one module; its imports are visited in any order. */
  method Expand(imports: map<Module, set<Module>>, b: Barriers, m: Module, before: set<Module>, rest: seq<Module>)
    returns (reached: set<Module>, frontier: seq<Module>)
    ensures reached == before + set t | t in ImportsOf(imports, m) && Passes(b, t)
    ensures rest <= frontier && forall t :: t in frontier <==> t in rest || (t in reached && t !in before)
    ensures reached == before ==> frontier == rest
  {
    reached, frontier := before, rest;
    var todo := ImportsOf(imports, m);
    while todo != {}
      invariant todo <= ImportsOf(imports, m)
      invariant reached == before + set t | t in ImportsOf(imports, m) && t !in todo && Passes(b, t)
      invariant rest <= frontier && forall t :: t in frontier <==> t in rest || (t in reached && t !in before)
      invariant reached == before ==> frontier == rest
      decreases |todo|
    {
      var target :| target in todo;
      todo := todo - {target};
      if target == b.stage || target in reached { continue; }
      if target in b.stages && target in b.declared { continue; }
      if target in b.exempt || target in b.boundaries { continue; }
      reached := reached + {target};
      frontier := frontier + [target];
    }
  }

  lemma ExpandKeepsWalking(imports: map<Module, set<Module>>, b: Barriers, before: set<Module>, rest: seq<Module>, m: Module,
                           reached: set<Module>, frontier: seq<Module>)
    requires Walking(imports, b, before, rest + [m])
    requires reached == before + set t | t in ImportsOf(imports, m) && Passes(b, t)
    requires rest <= frontier && forall t :: t in frontier <==> t in rest || (t in reached && t !in before)
    ensures Walking(imports, b, reached, frontier)
  {
    var rel := ImportEdge(imports, b);
    assert m in rest + [m];
    forall t | t in reached ensures InClosure(imports, b, t) {
      if t !in before {
        if m == b.stage { ReachesSelf(rel, m); }
        ReachesStep(rel, b.stage, m, t);
      }
    }
    forall x, t | (x == b.stage || x in reached) && x !in frontier && rel(x, t) ensures t in reached {
      assert x == m || x !in rest + [m];
    }
  }

  /** Exactly the closure, whatever the order of frontier and imports. */
  method Closure(imports: map<Module, set<Module>>, b: Barriers) returns (reached: set<Module>)
    ensures forall m :: m in reached <==> InClosure(imports, b, m)
  {
    var frontier := [b.stage];
    reached := {};
    while frontier != []
      invariant Walking(imports, b, reached, frontier)
      invariant reached <= AllTargets(imports)
      decreases |AllTargets(imports) - reached|, |frontier|
    {
      var m := frontier[|frontier| - 1];
      var rest := frontier[..|frontier| - 1];
      assert frontier == rest + [m];
      ghost var before := reached;
      reached, frontier := Expand(imports, b, m, reached, rest);
      ExpandKeepsWalking(imports, b, before, rest, m, reached, frontier);
      FewerLeft(AllTargets(imports), before, reached);
    }
    WalkIsComplete(imports, b, reached);
  }

  lemma WalkIsComplete(imports: map<Module, set<Module>>, b: Barriers, reached: set<Module>)
    requires Walking(imports, b, reached, [])
    ensures forall m :: m in reached <==> InClosure(imports, b, m)
  {
    var rel := ImportEdge(imports, b);
    var all := reached + {b.stage};
    assert Closed(rel, all);
    forall m | InClosure(imports, b, m) ensures m in reached {
      ReachedStaysInClosed(rel, all, b.stage, m);
    }
  }

  /** More exemptions, boundaries, declared dependencies or stages can only shrink the closure. */
  lemma ClosureShrinks(imports: map<Module, set<Module>>, b: Barriers, c: Barriers, m: Module)
    requires b.stage == c.stage && b.exempt <= c.exempt && b.boundaries <= c.boundaries
    requires b.stages <= c.stages && b.declared <= c.declared
    requires InClosure(imports, c, m)
    ensures InClosure(imports, b, m)
  {
    ReachesMonotone(ImportEdge(imports, c), ImportEdge(imports, b), b.stage, m);
  }

  ghost function ClosureSet(imports: map<Module, set<Module>>, b: Barriers): (r: set<Module>)
    ensures forall m :: m in r <==> InClosure(imports, b, m)
  {
    forall m | InClosure(imports, b, m) ensures m in AllTargets(imports) {
      ReachesLast(ImportEdge(imports, b), b.stage, m);
    }
    set m | m in AllTargets(imports) && InClosure(imports, b, m)
  }

  /** A boundary that nothing walked imports is idle: dropping it changes nothing. */
  lemma UnreachedBoundaryIsIdle(imports: map<Module, set<Module>>, b: Barriers, idle: Module, m: Module)
    requires forall w :: w == b.stage || InClosure(imports, b, w) ==> idle !in ImportsOf(imports, w)
    ensures InClosure(imports, b.(boundaries := b.boundaries - {idle}), m) <==> InClosure(imports, b, m)
  {
    var c := b.(boundaries := b.boundaries - {idle});
    if InClosure(imports, b, m) { ClosureShrinks(imports, c, b, m); }
    if InClosure(imports, c, m) {
      var s := ClosureSet(imports, b) + {b.stage};
      forall x, t | x in s && ImportEdge(imports, c)(x, t) ensures t in s {
        assert t != idle;
        assert ImportEdge(imports, b)(x, t);
        if x == b.stage { ReachesSelf(ImportEdge(imports, b), x); }
        ReachesStep(ImportEdge(imports, b), b.stage, x, t);
      }
      ReachedStaysInClosed(ImportEdge(imports, c), s, b.stage, m);
    }
  }

  // ----- the closure, spelled out

  /** `x` imports `y`, and the walk does not stop there: it is not the stage itself, no stage that is declared, no exempt
      module and no boundary. */
  predicate GoesOn(imports: map<Module, set<Module>>, b: Barriers, x: Module, y: Module) {
    && x in imports && y in imports[x]
    && y != b.stage && y !in b.exempt && y !in b.boundaries && (y in b.stages ==> y !in b.declared)
  }

  /** Each module of the chain imports the next, and the walk goes on there. */
  predicate IsImportChain(imports: map<Module, set<Module>>, b: Barriers, c: seq<Module>) {
    forall i, j :: 0 <= i < |c| && j == i + 1 && j < |c| ==> GoesOn(imports, b, c[i], c[j])
  }

  predicate ChainLeadsTo(imports: map<Module, set<Module>>, b: Barriers, c: seq<Module>, m: Module) {
    |c| >= 2 && c[0] == b.stage && c[|c| - 1] == m && IsImportChain(imports, b, c)
  }

  /** The closure holds exactly the modules to which a chain of imports leads from the stage. */
  lemma ClosureIsOfChains(imports: map<Module, set<Module>>, b: Barriers, m: Module)
    ensures InClosure(imports, b, m) <==> exists c :: ChainLeadsTo(imports, b, c, m)
  {
    var rel := ImportEdge(imports, b);
    forall x, y ensures rel(x, y) <==> GoesOn(imports, b, x, y) {
      assert rel(x, y) == (y in ImportsOf(imports, x) && Passes(b, y));
    }
    if InClosure(imports, b, m) {
      var p :| PathBetween(rel, p, b.stage, m);
      assert ChainLeadsTo(imports, b, p, m);
    }
    if c :| ChainLeadsTo(imports, b, c, m) {
      assert PathBetween(rel, c, b.stage, m);
      var i := |c| - 2;
      assert GoesOn(imports, b, c[i], c[i + 1]);
    }
  }
}

# Verified models of the Braunschweig pipeline's stage graph, stage cache and helpers

This project models, in Dafny, the parts of the pipeline whose correctness depends on arguments about whole graphs,
whole runs or whole texts, and proves those arguments.

* **Stage graph** (`Stage*.dfy`). `process_stages` discovers stages, connects them by a walk without a visited set,
  propagates configuration options along a Kahn order and collapses stages by hash. `configure`, `resolve_stage`,
  `calculate_identification_hash` and `hash_name` are uninterpreted (`World`, `Settings`). The propagation is shown to
  compute, in one pass over any topological order, exactly the options carried along unblocked dependency paths,
  which is the least fixpoint of pushing options along edges, and to fail exactly on a cycle or an ambiguous option.
  Discovery and the walk are also step functions: how discovery ends, whether the walk ends at all and whether it
  leaves an empty slot are stated exactly (`StageWalk`), a cycle that passes unnoticed is carried through the whole of
  `process_stages` (`StageCycle`, `StageCycleRun`), and so are requests on which it fails (`StageFailures`). Registry or
  failure are determined by the request (`StagePipeline.OutcomeIsUnique`). `StageMeaning` says what a registry means in
  terms of definitions, declared options and calls alone; `StageKeys` is a request in which an upstream option is part
  of the downstream key.
* **Shared stage cache** (`Cache*.dfy`). A directory is a map from entries to result, cache and envelope plus a
  registry of records. Dropping incoherent records, copying an entry with roll-back, export, prime, the round trip
  from one directory through a store into another, and the tracking of a run are modelled; a set of faults names which
  steps of the copies of results and caches raise. `CacheMerge` gives the registry in memory and on disk as functions
  of the entries primed so far; `CacheInterruption` is a run of `prime` that leaves an incoherent one, `CacheForeign`
  one from a store that another runtime has filled.
* **Decoders and escapes** (`Protobuf.dfy`, `ProtobufTruncation.dfy`, `Escapes.dfy`). The varint and field reader
  inverts the wire format of the Protocol Buffers encoding (sections "Base 128 Varints" and "Message Structure"), and
  what it makes of every cut of a written message is stated exactly; the HSTORE scanner inverts its printer; the two
  escape layers of an Overpass regular-expression literal come undone to the name.
* **Helper-hash audit** (`ImportClosure.dfy`, `ImportResolution.dfy`). The import closure of a stage, re-exports,
  relative imports and the coverage verdict.
* **Population writer and backtracking iterator** (`PopulationWriter.dfy`, `PopulationText.dfy`,
  `BacklogIterator.dfy`). Every run of writer calls, and every run of iterator calls, against a stack of open elements
  and against a cursor; which calls may follow each other, and where each element stands in the text.
* **Configuration merge** (`DeepMerge.dfy`), **resource budgets** (`MemorySizes.dfy`, `Resources.dfy`,
  `JavaHeap.dfy`) and the **weighted median** (`WeightedMedian.dfy`).
* `Graphs.dfy`, `Orders.dfy` and `Wrappers.dfy` hold reachability, acyclicity and ranks, Python's `sorted` on
  strings, and `Option`/`Result`.

The functions that specify an operation are themselves pinned down by lemmas in other terms: coherence by its rules,
sizes in gigabytes, counts by the texts that spell them, the population by its text, a registry by its request.

Code that updates state in place is a class or a method with loops, proved against a specification function or
predicate; the properties are lemmas about that specification.

## Where the code and its description differ

* `find_stage_entries` says a module name that is a prefix of another never collides. It does exactly when the other
  name is the first followed by one underscore, or by the separator `__` and anything: `german_wide` is taken to own the
  entries of `german_wide_` and of `german_wide__xl` (`CacheExport.PrefixFindsOwner`, `PrefixesCollide`).
* A discovered graph with a cycle is not always noticed, and what is reported as a cycle need not be one. A cycle error
  needs two stages on a chain of requirements with equal cycle hashes and different identification hashes
  (`StageDiscovery.CycleErrorNeedsClash`; exactly when it is raised is `StageChains.CycleErrorIff`): where equal cycle
  hashes mean equal identification hashes none is ever raised (`FineCycleHashesNeverFail`), and where they do not, one
  requirement without any cycle can raise it (`StageFailures.ReportedWithoutCycle`). The connection walk ends exactly when no cycle is reached from a stage without
  requirements (`StageWalk.WalkEndsIff`; `StageFailures.EndlessWalk` is a request on which it does not). If it ends, an
  empty slot is left, on which the counting of dependencies raises, exactly when some stage has one requirement reached
  and another one not (`StageWalk.CompleteIffAllOrNone`, `StagePipeline.EmptySlotIff`; the request is
  `StageFailures.EmptySlotIsRaised`). Otherwise the cycle is silent: `c` requiring `a`, `a` requiring `b` and `b`
  requiring `a` yields a registry without any dependency (`StageCycle.CycleIsSilent`, `StageCycleRun.CycleIsProcessed`).
* While `prime` is under way the registry on disk may hold incoherent records, always imported ones or descendants of
  those (`CacheMerge.DiskAtIsGuarded`); only the final pass makes it coherent (`CachePrime.Prime`). If no entry to be
  primed has a leftover record, a copy that raises leaves the registry as it was (`CacheMerge.DiskWithoutLeftovers`).
  Otherwise the disk holds what the last pop wrote (`CacheMerge.DiskIsLastPop`). It is coherent exactly when of the
  records merged before that pop every incoherent one, other than the popped one, descends from the popped one
  (`CacheMerge.PopIsCoherentIff`, `DiskIsCoherentIff`); `CacheInterruption.InterruptedPrime` is a run in which one does
  not.
* A protobuf payload that ends early is handed out short instead of being rejected. Of the cuts of a written message
  exactly those inside a header or a number are noticed (`ProtobufTruncation.CutIsNoticedIff`); on any data the position
  lies behind the end exactly when the last payload is short (`ProtobufTruncation.BehindIffShort`).
* A name that no re-export resolves to a module does not always come back unchanged. It does exactly when it has no
  re-export to follow or lies on a cycle of them; otherwise the end of the chain or a name on its cycle does
  (`ImportResolution.ResolveModuleBinding`, `ImportResolution.UnresolvedNameChanges`).
* A relative import with too many dots resolves against the top package (`ImportResolution.RelativeImportCountsComponents`).
* `PopulationWriter` lets attributes be opened anywhere. Inside attributes this makes it impossible to finish, and
  the text is no longer nested exactly when some later calls end more than two blocks beyond those they start; before
  or after the population it makes a finished text something other than one document
  (`PopulationWriter.RunsAreNestedOrJammed`, `TextIsNestedIff`, `FinishedIsDocument`; the runs are `OpeningTwiceJams`,
  `ThreeEndsBreak`, `StrayBlockSpoilsDocument`).
* `backlog_iterator.previous` on a blank slot puts the blank in front of the next items (`BacklogIterator.BlankIsHandedOut`).
* The text `"0"` for a worker count passes as zero workers, while the number `0` asks for the derived count
  (`Resources.TextZeroIsNoWorkers`, `Resources.CountIsBounded`).
* A heap size "rounded down" is still one gigabyte when less than one is budgeted (`JavaHeap.FloorExceedsSmallMemory`).

## Model

| member | source | states |
|---|---|---|
| StageOrdering.CountDependencies | braunschweig/synpp_deterministic.py:81-87 | the counters hold each stage's number of dependencies with repetitions, and the dependents table mirrors the dependency lists with multiplicity |
| StageOrdering.Release | braunschweig/synpp_deterministic.py:92-100 | visiting a stage lowers each counter by the multiplicity of the dependency and reports exactly the stages whose last dependency it was |
| StageOrdering.VisitingOrder | braunschweig/synpp_deterministic.py:81-104 | the loop's order is the Kahn order of the graph, which is a function of the graph alone, whatever order the stage map is read in |
| StageOrder.KahnCompleteIffAcyclic | braunschweig/synpp_deterministic.py:89-104 | the order is duplicate-free, lists dependencies first, and contains all stages exactly when the dependency graph has no cycle |
| StageOrder.TopologicalMeansAcyclic | braunschweig/synpp_deterministic.py:101-104 | any complete topological order rules out a cycle |
| StageOrder.KahnOrderIgnoresOrder | braunschweig/synpp_deterministic.py:81-104 | graphs that differ only in the order of lists, or in repetitions, are visited in the same order |
| StagePropagation.Gather | braunschweig/synpp_deterministic.py:110-125 | the gathered options are exactly those some dependency offers, non-volatile and not passed explicitly by any caller; it fails exactly when two offers differ |
| StagePropagation.Absorb | braunschweig/synpp_deterministic.py:126-133 | own and passed options are united, own ones kept; it fails only on an option both bind differently |
| StagePropagation.VisitIsExact | braunschweig/synpp_deterministic.py:106-133 | if all dependencies hold exactly what they carry, so does the visited stage afterwards |
| StagePropagation.StageTable.PropagateAlong | braunschweig/synpp_deterministic.py:106-133 | along any topological order the pass ends with every stage exact, or fails because an option is ambiguous |
| StagePropagation.StageTable.Propagate | braunschweig/synpp_deterministic.py:67-133 | the outcome is a cycle exactly on a cyclic graph, a conflict exactly when two sources of some stage disagree, and otherwise every config holds exactly what unblocked paths carry |
| StageModel.CarriesStep | braunschweig/synpp_deterministic.py:110-133 | a stage carries an option exactly when it declares it or a dependency carries and offers it |
| StageModel.OutcomeIgnoresOrder | braunschweig/synpp_deterministic.py:67-79 | graphs that differ only in the order of lists have the same configs or the same kind of failure |
| StageModel.DoneIsLeastFixpoint | braunschweig/synpp_deterministic.py:75-79 | the result is stable under pushing options along edges, extends the declared configs, and lies in every such table |
| StageModel.ConflictMeansNoFixpoint | braunschweig/synpp_deterministic.py:119-131 | after a conflict no table at all is stable and extends the declared configs |
| StageModel.SecondRunIsIdle | braunschweig/synpp_deterministic.py:67-133 | running the propagation on its own result changes nothing and raises nothing |
| StageDiscovery.Discover | braunschweig/synpp_deterministic.py:145-225 | the outcome is exactly what the work list of `StageDiscovery.After` ends with; on success every call of every stage is recorded at the stage it resolves to and nothing else is, the requested stages alone have no callers and keep their index; a cycle error means that a chain of requirements holds two different stages with one cycle hash; a missing caller list means a stage was requested twice or both requested and required |
| StageDiscovery.EndIsUnique | braunschweig/synpp_deterministic.py:145-225 | discovery has one end: table, order and kind of failure are determined by the definitions |
| StageDiscovery.FailsIff | braunschweig/synpp_deterministic.py:151-225 | a cycle error is raised exactly when the work list comes to an entry that is not known yet and whose cycle hash its own chain holds; a missing caller list exactly when it comes to a known stage and one of the two has no callers |
| StageDiscovery.CycleErrorNeedsClash | braunschweig/synpp_deterministic.py:193-199 | a cycle error needs two stages with equal cycle hashes and different identification hashes on one chain of requirements |
| StageDiscovery.FineCycleHashesNeverFail | braunschweig/synpp_deterministic.py:160-199 | if equal cycle hashes imply equal identification hashes, discovery never raises a cycle error, whatever is required |
| StageChains.CycleErrorIff | braunschweig/synpp_deterministic.py:193-210 | the cycle error is raised exactly when the work list comes to a definition that is not known and some stage on the path of first callers to it, the first, the last or one between, has its cycle hash |
| StageChains.EphemeralIff | braunschweig/synpp_deterministic.py:203-225 | a stage is ephemeral exactly when it, or a stage on the path to it, was introduced by a call marked as ephemeral |
| StageDiscovery.EndIsDiscovered | braunschweig/synpp_deterministic.py:145-225 | every discovery that ends without a failure ends with a complete table of the requested stages |
| StageDiscovery.DiscoverySucceeds | braunschweig/synpp_deterministic.py:145-225 | stages requested once, not required by others and told apart by their cycle hashes are discovered, with cycles among their requirements or not |
| StageDiscovery.EveryStageIsRequired | braunschweig/synpp_deterministic.py:203-225 | every discovered stage was introduced by a stage discovered earlier, so a chain of requirements leads to it from a requested definition |
| StageDiscovery.IntroducedNew | braunschweig/synpp_deterministic.py:172-225 | a new stage keeps the definition and ephemerality its first caller gives it, where what an ephemeral stage requires is ephemeral and requested stages are not |
| StageDiscovery.RequestsAreNotRequired | braunschweig/synpp_deterministic.py:148-170 | after a successful discovery no call of any stage resolves to a requested one |
| StageConnection.StepUsesUpAPath | braunschweig/synpp_deterministic.py:238-254 | one step of the walk lowers the number of downstream paths left from the pending stages |
| StageConnection.Connect | braunschweig/synpp_deterministic.py:227-254 | without a visited set the walk ends, and the slots hold exactly the calls of the reached stages |
| StageConnection.SlotFilledIffReached | braunschweig/synpp_deterministic.py:244-252 | a slot holds the stage its call resolves to exactly when the walk reaches that stage, and is otherwise empty |
| StageConnection.AcyclicFillsAllSlots | braunschweig/synpp_deterministic.py:227-254 | on an acyclic graph every slot of every stage is filled with the discovered stage |
| StageConnection.AllSlotsFilledIffAcyclic | braunschweig/synpp_deterministic.py:235-254 | when the walk ends, all slots are filled exactly when there is no cycle among the callers |
| StageWalk.WalkEndsIff | braunschweig/synpp_deterministic.py:235-254 | after some number of rounds nothing is pending exactly when no cycle of requirements is reached from a stage that requires nothing; otherwise something is pending for ever |
| StageWalk.WalkFillsReachedSlots | braunschweig/synpp_deterministic.py:227-254 | after the walk a stage has a row exactly when one of its requirements is reached, and of its slots exactly the reached ones are filled, cycles elsewhere or not |
| StageWalk.CompleteIffAllOrNone | braunschweig/synpp_deterministic.py:81-87 | no empty slot reaches the counting of dependencies exactly when every stage has all or none of its requirements reached |
| StageWalk.RankedWorldIsAcyclic | braunschweig/synpp_deterministic.py:145-254 | if definitions can be ranked below those that require them, every discovered table is acyclic and the walk on it ends |
| StageCycle.CycleIsSilent | braunschweig/synpp_deterministic.py:145-254 | a request whose requirements form a cycle is discovered without error, the cycle is never entered and no slot is left empty |
| StageCycleRun.CycleIsProcessed | braunschweig/synpp_deterministic.py:136-292 | that request succeeds with a registry of all three stages in which no stage depends on another |
| StageFailures.EndlessWalk | braunschweig/synpp_deterministic.py:235-254 | a request whose requirements form a cycle that the walk enters is discovered without error, and the walk never ends |
| StageFailures.EmptySlotIsRaised | braunschweig/synpp_deterministic.py:81-87 | on a request with a connected and an unconnected requirement side by side the walk ends and the only outcome is the empty slot |
| StageFailures.ReportedWithoutCycle | braunschweig/synpp_deterministic.py:193-199 | a stage requiring one other stage of the same cycle hash raises the cycle error, although nothing is cyclic |
| StageFailures.ReportedAcrossStages | braunschweig/synpp_deterministic.py:193-210 | a stage that comes back under its cycle hash is reported also with another one between |
| StagePipeline.Collapse | braunschweig/synpp_deterministic.py:260-292 | the registry has one entry per final hash, that of the last stage, ephemeral exactly when all its stages are, with its required index; it fails exactly when two requested stages share a hash |
| StagePipeline.CollapseIsClosed | braunschweig/synpp_deterministic.py:282-290 | every dependency in the registry is a key of the registry |
| StagePipeline.PropagationIsReady | braunschweig/synpp_deterministic.py:256-258 | what the connection hands to the propagation without an empty slot is well formed and acyclic whatever cycles were discovered, so the cycle error cannot arise there |
| StagePipeline.ProcessStages | braunschweig/synpp_deterministic.py:136-292 | on success the registry is the collapse of an exactly propagated table whose rows hold exactly the reached requirements, all of them if there is no cycle; an empty slot, contradictory options, colliding requests and the failures of discovery are the other outcomes, each with its stated cause |
| StageMeaning.RegistryIsMeant | braunschweig/synpp_deterministic.py:136-292 | the keys of a returned registry are the hashes of the discovered definitions with the options they hold in the end, which are those declared by a stage from which they cross every step unblocked; the entry of a key is that of the last stage with it, ephemeral exactly when all are, required under an index exactly when the definition requested there has that key, and its dependencies are the keys of what it requires |
| StageMeaning.TableIsOfSettings | braunschweig/synpp_deterministic.py:75-133 | the propagated table takes declared and volatile options from the settings of each definition, and passed options from the calls of all stages |
| StageKeys.UpstreamOptionInKey | braunschweig/synpp_deterministic.py:256-265 | the key of a stage that declares nothing is the hash of its definition with the option that its requirement declares |
| StageKeys.PairSucceeds | braunschweig/synpp_deterministic.py:136-292 | every outcome of that request is such a registry |
| StageKeys.KeysDiffer | braunschweig/synpp_deterministic.py:264-265 | another value upstream gives the downstream stage another key, if the hash tells the two apart |
| StagePipeline.EmptySlotIff | braunschweig/synpp_deterministic.py:81-87 | the table that discovery ends with leaves an empty slot exactly when some stage has a requirement reached and another one not |
| StagePipeline.OutcomeIsUnique | braunschweig/synpp_deterministic.py:136-292 | `process_stages` has one result: two outcomes of one request are equal, registry or failure |
| StagePipeline.RankedWalkEnds | braunschweig/synpp_deterministic.py:145-254 | if definitions can be ranked below those that require them, every request is one that `ProcessStages` takes |
| CacheRecords.IncoherenceIsFailure | braunschweig/cache_share.py:145-172 | a record is coherent exactly when no dependency objects, and otherwise the reason is that of an objecting dependency |
| CacheRecords.CoherentIffAllAgree | braunschweig/cache_share.py:145-172 | a record is coherent exactly when each dependency is absent with a recorded digest, present with equal digests, or present without digests on either side and with equal timestamps; otherwise the reason is, exactly, that of the first that is not: absent without a digest, unequal digests, unequal timestamps, or a digest on one side only |
| CacheRecords.BasisNamesTheRule | braunschweig/cache_share.py:175-190 | for a coherent record the named basis is a comparison that holds, although it is computed only from what is present |
| CacheRecords.DroppedIsLeast | braunschweig/cache_share.py:202-235 | the records to drop are the least set with the affected ones stale at the start, closed under losing an undigested parent |
| CacheRecords.DroppedIsAffected | braunschweig/cache_share.py:209-210 | a dropped record is a copied entry or descends from one |
| CacheRecords.LossOfParents | braunschweig/cache_share.py:150-155 | removing records makes a coherent record incoherent exactly when it loses a parent it has no digest for, and then for that reason |
| CacheInvalidation.Descendants | braunschweig/cache_share.py:214-224 | the growing worklist collects exactly the copied entries and everything that descends from them |
| CacheInvalidation.RoundFinds | braunschweig/cache_share.py:226-235 | the first round finds records stale at the start with their own reasons, later rounds only new ones, always for a missing parent |
| CacheInvalidation.RoundsAreComplete | braunschweig/cache_share.py:226-230 | when a round finds nothing, exactly the records to drop are gone |
| CacheInvalidation.Metadata.DropIncoherent | braunschweig/cache_share.py:202-235 | the registry loses exactly the records to drop, the count is its shrinkage, and the counts per reason are those of the first round plus the missing parents later |
| CacheInvalidation.AfterDrop | braunschweig/cache_share.py:202-210 | afterwards every affected record is coherent, and all others and their verdicts are untouched |
| CacheDirectory.Directory.Publish | braunschweig/cache_share.py:283-294 | the states passed through are those of the forward protocol, taken up to the first step that raises, and a failure leaves what the roll-back needs |
| CacheDirectory.ForwardNeverMixes | braunschweig/cache_share.py:283-294 | in every forward state a visible result belongs to the wholly old or the wholly new entry, whichever step raises |
| CacheDirectory.ForwardEndsPublished | braunschweig/cache_share.py:283-294 | the protocol ends with the published entry when no step raises, having taken all its steps |
| CacheDirectory.FailsIffNeededStepDoes | braunschweig/cache_share.py:265-294 | a copy fails exactly if there is no result to copy or a step raises that it needs: staging and publishing the result, the same for a cache if the source has one, moving aside a result that is there, and a cache that is there if it is replaced |
| CacheDirectory.Directory.RollBack | braunschweig/cache_share.py:295-304 | a roll-back that completes restores the backed-up result and cache |
| CacheDirectory.Directory.CopyEntry | braunschweig/cache_share.py:254-304 | the copy succeeds exactly when no needed step fails; then the entry is the source's, an older cache kept if it has none; after a completed roll-back it is what it was; the states before a roll-back are those of the forward protocol and never mixed; other entries never change |
| CacheExport.PrefixFindsOwner | braunschweig/cache_share.py:238-251 | an entry is matched by its own module and by exactly those other names that are its module's name less a trailing underscore, or less everything from a separator in it on |
| CacheExport.PrefixesCollide | braunschweig/cache_share.py:238-251 | two entries that are found for a module whose name is only a prefix of their owner's |
| CacheExport.OrderIsRequested | braunschweig/cache_share.py:332-345 | the copies that `export` makes are those of the requested entries, less the ones to be skipped |
| CacheExport.StepFailsIff | braunschweig/cache_share.py:346-349 | when an entry is copied again it finds itself as exported |
| CacheExport.Export | braunschweig/cache_share.py:307-366 | `export` succeeds exactly when every copy in its order does; then the store holds each entry of the order as exported and every other as before, with an envelope only for a record that is current, registered and of known runtime, and the report lists exactly the exported entries, the skipped ones and the modules without entries; a failure leaves exactly the entries before the failing copy exported, that one untouched if it was rolled back, and all others as before |
| CacheMerge.PopKeepsGuard | braunschweig/cache_share.py:402-405 | popping a leftover record and dropping what it strands keeps every incoherent record a descendant of a primed entry |
| CacheMerge.AddKeepsGuard | braunschweig/cache_share.py:407-415 | attaching any record from the store keeps that invariant with the entry counted as primed |
| CacheMerge.FinalPassIsCoherent | braunschweig/cache_share.py:420-422 | under that invariant the final pass leaves every record coherent |
| CacheMerge.DiskAtIsGuarded | braunschweig/cache_share.py:400-415 | while an entry is copied every incoherent record on disk is an imported one or descends from one, if there was none before `prime` |
| CacheMerge.PopIsCoherentIff | braunschweig/cache_share.py:402-405 | what popping a record leaves is coherent exactly when every other incoherent record descends from the popped one |
| CacheMerge.DiskIsCoherentIff | braunschweig/cache_share.py:400-415 | while an entry is copied the registry on disk is coherent exactly when nothing was popped, or of the records merged before the last pop every incoherent one, other than the popped one, descends from the popped one, if it was coherent before `prime` |
| CacheMerge.DiskWithoutLeftovers | braunschweig/cache_share.py:402-406 | without a leftover record among the entries primed so far and the one being copied the registry on disk is the original one |
| CacheMerge.DiskIsLastPop | braunschweig/cache_share.py:402-406 | the registry on disk is the original one or what the last popped leftover made of the merged records, and nothing later wrote it |
| CacheMerge.MergedDescends | braunschweig/cache_share.py:400-419 | every merged record of a primed entry is the one the store vouches for, every other record an original one |
| CacheMerge.RecordIsVouchedFor | braunschweig/cache_share.py:409-415 | a record comes along exactly when the store has the cache and an envelope of version 1 with this very runtime and that record |
| CacheMerge.PrimedRecordsAreVouchedFor | braunschweig/cache_share.py:400-422 | a primed entry has a record exactly if the store vouches for it, then that record, unless a later pop or the final pass took it; all other records are original |
| CacheMerge.PrimedKeepsUnrelated | braunschweig/cache_share.py:402-422 | a completed `prime` keeps every record that is neither primed nor descends from a primed entry, unchanged |
| CacheMerge.PrimedDescends | braunschweig/cache_share.py:400-422 | every record a completed `prime` leaves is the imported one of a primed entry or an original one |
| CacheMerge.DiskKeepsUnrelated | braunschweig/cache_share.py:402-406 | the registry on disk keeps, at any moment of `prime`, every record that neither a primed entry nor the one being copied is above |
| CachePrime.OrderIsToPrime | braunschweig/cache_share.py:389-400 | the order in which `prime` copies lists each entry once, namely the store's entries of unforced modules that have no result |
| CachePrime.ToPrimeSpelledOut | braunschweig/cache_share.py:385-400 | to be primed are, unless everything is recomputed, the store's entries without a result here whose names start with a requested module that is not recomputed and the separator |
| CachePrime.CopyFailsIff | braunschweig/cache_share.py:265-294 | the copy of an entry to be primed fails exactly if the store lacks its result or a needed step raises |
| CacheInterruption.PopWritesOutdatedRecord | braunschweig/cache_share.py:402-415 | popping a leftover record writes an imported record that a changed parent makes incoherent |
| CacheInterruption.InterruptedPrime | braunschweig/cache_share.py:369-415 | a `prime` on a coherent registry whose second copy raises leaves an incoherent registry |
| CacheForeign.ForeignPrime | braunschweig/cache_share.py:369-449 | from a store filled by another runtime the files arrive and no record does; with the same runtime the record does |
| CachePrime.PrimeEntry | braunschweig/cache_share.py:400-419 | one entry is copied exactly when no needed step fails, and its record merged as `CacheMerge` says; otherwise the other files are as they were, those of the entry too after a completed roll-back, and the registry on disk is the one of that moment |
| CachePrime.Prime | braunschweig/cache_share.py:369-449 | `prime` succeeds exactly when every copy in its order does; then files and sidecars are as specified, the registry is exactly that of the chain of pops and additions less the records to drop, a primed entry has a record only if the store vouches for it with this runtime, and then unless it was lost, every record no primed entry is above is kept, and if the registry was coherent before it is coherent after; the report lists exactly what was primed, forced and missing, and all entries already present; a failure leaves the entries before it copied and the registry on disk of that moment, which keeps every record no copied entry is above and is coherent exactly when the last pop repaired what was merged before it |
| CacheRoundTrip.SurvivesIffParentsDo | braunschweig/cache_share.py:145-172 | a travelling record survives exactly when every parent it has no digest for survives, unchanged, and always when it has all digests |
| CacheRoundTrip.ExportThenPrime | braunschweig/cache_share.py:332-449 | from a coherent source through an empty store into an empty directory all requested files arrive and exactly the surviving records, unchanged |
| CacheTracking.TrackRun | braunschweig/cache_share.py:79-116 | new entries get an envelope of this runtime, re-used ones with a known envelope follow their record, and all other sidecars stay |
| CacheTracking.TrackedIsShareable | braunschweig/cache_share.py:80-91 | after a run a complete entry may travel exactly when the run produced it or its origin was known, and a re-used entry keeps its runtime |
| Protobuf.OrOfDisjointBits | scripts/build_parking_zones_from_osm.py:749 | or-ing a shifted group into lower bits adds it |
| Protobuf.Varint | scripts/build_parking_zones_from_osm.py:744-752 | the loop reads the little-endian base-128 number at the position, or reports truncation |
| Protobuf.VarintInverts | scripts/build_parking_zones_from_osm.py:744-752 | reading an encoded number anywhere in a text returns it and the position behind it |
| Protobuf.ProtobufFields | scripts/build_parking_zones_from_osm.py:755-772 | the loop yields the fields defined by reading one field after the other from ever larger positions |
| Protobuf.ReadInvertsWrite | scripts/build_parking_zones_from_osm.py:755-772 | reading the serialisation of any list of fields of wire types 0, 1, 2 and 5 returns the list |
| Protobuf.ReadOfConcatenation | scripts/build_parking_zones_from_osm.py:755-772 | a text that reads to its end, followed by any text, reads as the fields of both |
| Protobuf.CutIsSilent | scripts/build_parking_zones_from_osm.py:764-770 | cutting the last payload short yields it short without an error, with a position behind the data |
| ProtobufTruncation.CutMessage | scripts/build_parking_zones_from_osm.py:744-772 | what the reader yields on any first part of a written message: the complete fields, and of a cut payload what is there |
| ProtobufTruncation.CutIsNoticedIff | scripts/build_parking_zones_from_osm.py:744-772 | a cut is reported as truncated exactly inside a header or a number; at a boundary reading ends with the text, and inside the bytes of a payload it hands them out short and ends behind the text |
| ProtobufTruncation.PlaceIsThere | scripts/build_parking_zones_from_osm.py:755-772 | the place of a cut says which fields lie wholly before it and what of the next one is there |
| ProtobufTruncation.BehindIffShort | scripts/build_parking_zones_from_osm.py:764-772 | on any data that reads to its end the position lies behind the data exactly when the last payload is shorter than declared |
| Escapes.ScannedIsBody | scripts/build_parking_zones_from_osm.py:700 | what the scanner takes is a body of the pattern: units that are plain characters or escaped ones, up to an unescaped quote |
| Escapes.BodyIsDeterministic | scripts/build_parking_zones_from_osm.py:700 | a quoted body can be split off in one way only, so backtracking cannot change the match |
| Escapes.ParseInvertsPrint | scripts/build_parking_zones_from_osm.py:808-813 | scanning the printed pairs of any list, quotes and backslashes escaped, gives the map of the pairs |
| Escapes.LastPairCounts | scripts/build_parking_zones_from_osm.py:813 | of several pairs with one key the last one counts |
| Escapes.OtherKeysAreAbsent | scripts/build_parking_zones_from_osm.py:813 | a key that no pair has is not in the mapping |
| Escapes.TagsExample | scripts/build_parking_zones_from_osm.py:808-813 | one pair with an escaped quote in its value, written out; no text and an empty one give no tags |
| Escapes.RegexLayerUndone | scripts/build_parking_zones_from_osm.py:178-199 | in the regex layer every special character is escaped and the literal it denotes is the name |
| Escapes.EscapedCharacters | scripts/build_parking_zones_from_osm.py:178-199 | exactly the backslash and the operators dot, caret, dollar, bar, question mark, star, plus and the three kinds of brackets are escaped |
| Escapes.QlLayerUndone | scripts/build_parking_zones_from_osm.py:200 | reading the quoted string ends at the closing quote and returns the text, so no quote in it is unescaped |
| Escapes.LiteralDenotesName | scripts/build_parking_zones_from_osm.py:197-200 | both layers together denote exactly the street name |
| Escapes.LiteralExample | scripts/build_parking_zones_from_osm.py:197-200 | an operator comes out behind two backslashes and a quote behind one |
| ImportClosure.Closure | scripts/audit_synpp_helper_hash.py:363-389 | the walk returns exactly the modules other than the stage on import paths that avoid all barriers, in any order of the frontier |
| ImportClosure.ClosureIsOfChains | scripts/audit_synpp_helper_hash.py:363-389 | a module is in the closure exactly if a chain of imports leads to it from the stage of which no later module is the stage itself, a declared stage, exempt or a boundary |
| ImportClosure.ClosureShrinks | scripts/audit_synpp_helper_hash.py:373-375 | more exemptions, boundaries or declared stages only shrink the closure |
| ImportClosure.UnreachedBoundaryIsIdle | scripts/audit_synpp_helper_hash.py:500-501 | removing a boundary reported as unreached does not change the closure |
| ImportResolution.RelativeImportCountsComponents | scripts/audit_synpp_helper_hash.py:148-160 | a relative import resolves to the package that many components up, stopping at the top one, followed by the module if one is named |
| ImportResolution.RelativeImportsOfModule | scripts/audit_synpp_helper_hash.py:148-160 | in the module a.b.c one dot is a.b, two or more are a, also without a module name; a package counts from itself |
| ImportResolution.ResolveModuleBinding | scripts/audit_synpp_helper_hash.py:313-333 | the chase ends on cyclic re-exports too and follows only re-exports; it finds a module on disk whenever the chain leads to one, and otherwise returns the end of the chain or a name on its cycle; the name comes back unchanged exactly when it has nothing to follow or lies on a cycle itself |
| ImportResolution.FollowedName | scripts/audit_synpp_helper_hash.py:322-332 | a name is followed from its owner to what the owner binds it to, unless it is a module on disk; a name without a dot is not |
| ImportResolution.UnresolvedNameChanges | scripts/audit_synpp_helper_hash.py:320-333 | a name re-exporting one that is bound nowhere comes back as that other name |
| ImportResolution.HashedIff | scripts/audit_synpp_helper_hash.py:470-484 | a token hashes the deferred entries exactly if it reads them, and, exactly if it reads its helpers, what their aliases or they themselves lead to by re-exports |
| ImportResolution.Cover | scripts/audit_synpp_helper_hash.py:470-501 | nothing is transitively uncovered exactly when the token hashes every module in the closure; the other sets of the report are exact too |
| PopulationWriter.Writer.AddLeg | matsim/writers.py:214-238 | a leg is written with its attribute block through the public calls, or nothing happens outside a plan |
| PopulationWriter.Writer.EndAttributes | matsim/writers.py:163-168 | the scope remembered last is restored, which for nested attributes is the attributes themselves |
| PopulationWriter.WrittenMovesScope | matsim/writers.py:126-238 | what a call writes turns the open elements its scope stands for into those of the next scope |
| PopulationWriter.RunsAreNestedOrJammed | matsim/writers.py:116-238 | any run that raises nothing leaves a prefix of a well-nested document with the stack given by scope and saved scope and the indentation equal to its depth, unless it opened attributes inside attributes, and then it is jammed |
| PopulationText.EveryElementFits | matsim/writers.py:116-238 | in every run that raises nothing each activity and leg stands directly in a plan, each plan in a person, each person in the population and that at the top, and every line is indented by its depth, within a leg by one less |
| PopulationText.RunsIffCallsFollow | matsim/writers.py:116-238 | a run raises nothing exactly when every call comes where its element may stand or end, and only attribute calls come behind attributes opened inside attributes |
| PopulationText.RunEmits | matsim/writers.py:116-238 | a run writes the elements of its calls in their order, each with the attributes it is given, and no others |
| PopulationText.OrdinaryRun | matsim/writers.py:116-238 | a person with a plan of two activities and a leg is written as one document with just these elements |
| PopulationWriter.JamIsPermanent | matsim/writers.py:155-168 | once attributes were opened inside attributes only attribute calls are accepted, for ever |
| PopulationWriter.JamBreaksNesting | matsim/writers.py:155-168 | a jammed writer accepts one more end than there are open elements and the text is no longer nested |
| PopulationWriter.TextIsNestedIff | matsim/writers.py:116-238 | a run's text is nested exactly when it never opens attributes inside attributes, or the calls after that never end more than two blocks beyond those they start |
| PopulationWriter.JammedText | matsim/writers.py:155-168 | after a jam the open elements are those of the scope before and one block for each start not yet ended |
| PopulationWriter.OpeningTwiceJams | matsim/writers.py:155-161 | from any state two calls that open attributes raise nothing and jam the writer |
| PopulationWriter.ThreeEndsBreak | matsim/writers.py:155-168 | a run from a new writer that raises nothing and leaves a text that is not nested |
| PopulationWriter.FinishedMeansClosed | matsim/writers.py:137-141 | whatever was called, a finished text has no open element and indentation zero |
| PopulationWriter.FinishedIsDocument | matsim/writers.py:116-238 | a finished text is a prolog and one root element (section 2.1 of XML 1.0) exactly when attributes were opened neither before nor after the population |
| PopulationWriter.StrayBlockSpoilsDocument | matsim/writers.py:126-168 | a run from a new writer that finishes and leaves something other than one document |
| BacklogIterator.Iterator.Next | matsim/writers.py:446-454 | the log and the item are those of the step function; an exhausted stream leaves the log as it is |
| BacklogIterator.Iterator.Previous | matsim/writers.py:456-460 | the last slot goes back to the front and the window is refilled with a blank |
| BacklogIterator.Iterator.HasNext | matsim/writers.py:468-476 | at most one item is read ahead, and it is kept |
| BacklogIterator.FreshIsAtStart | matsim/writers.py:441-444 | a new iterator stands for the cursor at the start that remembers nothing |
| BacklogIterator.StepRefinesMove | matsim/writers.py:446-476 | every operation does to the log what the cursor does and answers alike, unless it goes back over a blank |
| BacklogIterator.BlankIsHandedOut | matsim/writers.py:456-460 | going back over a blank stands for no cursor, and the next item is the blank |
| BacklogIterator.NextUndoesPrevious | matsim/writers.py:446-460 | reading on after going back restores any log |
| BacklogIterator.CarefulRunsAreCursorRuns | matsim/writers.py:440-476 | a run never goes back over a blank exactly when the cursor can make it, and then all answers are the cursor's |
| BacklogIterator.ForwardRunsReadInOrder | matsim/writers.py:446-476 | without going back the items handed out are the stream in order, none lost or repeated, and all of it once it stops |
| DeepMerge.Merge | braunschweig/config_compose.py:27-48 | the merged mapping, and changes that list every difference once, whatever the order of the overlay, and that replayed on the base give the merged mapping |
| DeepMerge.MergedAt | braunschweig/config_compose.py:36-47 | at every path the merged value is given by those of base and overlay; outside the overlay the base value stays unless a non-mapping was put above it |
| DeepMerge.DiffersPathwise | braunschweig/config_compose.py:38-46 | a listed difference is one at its path: mappings above in both, a new key or unequal values that are not both mappings |
| DeepMerge.ReportedValuesHold | braunschweig/config_compose.py:30-31 | a reported change states the base value and the merged value at its path, and they differ |
| DeepMerge.SilentIffUnchanged | braunschweig/config_compose.py:30-31 | nothing is reported exactly when the merged mapping equals the base |
| DeepMerge.MergingTwice | braunschweig/config_compose.py:27-48 | merging an overlay again changes nothing |
| DeepMerge.SecondMergeIsSilent | braunschweig/config_compose.py:27-48 | and reports nothing |
| DeepMerge.ReportsAgree | braunschweig/config_compose.py:36-47 | two reports of one merge list the same changes |
| MemorySizes.SizedIffMatched | braunschweig/resources.py:50-89 | a text has a size exactly when it is digits, perhaps a fraction and a unit with blanks between; a lone B is the one rejected unit |
| MemorySizes.ReadInverts | braunschweig/resources.py:50 | the pieces of any matching text are recovered, so the match is unique |
| MemorySizes.CountedParses | braunschweig/resources.py:80-89 | a whole number followed by an accepted unit is that many of the unit, in any case of its letters |
| MemorySizes.CountedSize | braunschweig/resources.py:44-89 | a number in base ten followed by K or KB is that many 1048576ths of a gigabyte, by M or MB 1024ths, by G, GB or nothing gigabytes, by T or TB 1024 gigabytes each, in either case of each letter |
| MemorySizes.AcceptedUnits | braunschweig/resources.py:50-88 | no other suffix is a unit; B alone is told apart |
| MemorySizes.DecimalNotation | braunschweig/resources.py:50-89 | numbers are written in base ten |
| MemorySizes.PointMoves | braunschweig/resources.py:89 | moving the point behind the next digit multiplies a size by ten, which fixes the value of every fraction |
| MemorySizes.OneAndAHalf | braunschweig/resources.py:89 | "1.5G" is 1.5 |
| MemorySizes.BlanksDoNotMatter | braunschweig/resources.py:50-76 | blanks around and between the pieces change no size |
| MemorySizes.BlankCharacters | braunschweig/resources.py:50 | blanks are the space and the nine ASCII control characters that count as such |
| MemorySizes.UpperLetters | braunschweig/resources.py:74-76 | the letters are raised one by one and nothing else changes |
| MemorySizes.UnitsAreBinary | braunschweig/resources.py:44-88 | each unit is 1024 of the one before, and no unit means gigabytes |
| MemorySizes.FormatParses | braunschweig/resources.py:92-98 | a formatted size parses back to whole gigabytes, not above the given size unless that is under one |
| Resources.ResolveBudget | braunschweig/resources.py:364-456 | a budget has at least one core and positive memory, at least a gigabyte unless overridden |
| Resources.BudgetIsOverrideOrRest | braunschweig/resources.py:389-456 | each figure is the override as given, or what the reserve leaves of the machine, at least one; a negative reserve counts as none |
| Resources.BadOverrides | braunschweig/resources.py:364-416 | a budget is refused exactly for an override that spells no positive number or size |
| Resources.BudgetLeavesReserve | braunschweig/resources.py:446-454 | without overrides budget and reserve together fit the machine unless the floor of one applies |
| Resources.CountIsBounded | braunschweig/resources.py:459-496 | a resolved count lies between zero and the ceiling and is zero exactly for a text spelling zero |
| Resources.NumberIsSpelled | braunschweig/resources.py:478-483 | a text is read as a number exactly when it is digits with an optional sign between blanks, and as that number |
| Resources.CountIsRequest | braunschweig/resources.py:459-496 | a count left open is the ceiling; a number or text that asks for n is n if that does not exceed the ceiling, else the ceiling, and refused if n is negative; all else is refused |
| Resources.PreviewIsRequest | braunschweig/resources.py:775-809 | the preview is the cores if left open, else the request kept between one and the cores |
| Resources.TextZeroIsNoWorkers | braunschweig/resources.py:474-496 | the number 0 is derived, the text "0" is pinned to no workers |
| Resources.CeilingsAreLargestPools | braunschweig/resources.py:573-574 | the ceilings are the largest pools within the cores whose workers fit the memory together, at least one |
| Resources.LargestPoolIsUnique | braunschweig/resources.py:573-574 | there is only one largest pool |
| Resources.WorkersAreCounts | braunschweig/resources.py:546-578 | PopulationSim and chainsolver workers are the count resolved against the largest pool; a worker without size and a driver of negative size are refused |
| Resources.PopsimFitsBudget | braunschweig/resources.py:546-578 | PopulationSim workers fit the memory budget unless at most one was granted |
| Resources.ChainsolverFitsBudget | braunschweig/resources.py:1220-1262 | chainsolver workers and their driver fit it together unless at most one was granted |
| Resources.PreviewIsUpperBound | braunschweig/resources.py:775-809 | the startup preview accepts the same settings as the stage and bounds its count from above for any driver and worker size |
| Resources.ViolationMeansOneWorkerTooBig | braunschweig/resources.py:955-997 | the memory violation fires exactly when some worker is granted and a single one exceeds the budget |
| JavaHeap.HeapFitsMemory | braunschweig/resources.py:499-543 | a resolved heap parses to at most the memory, or one gigabyte |
| JavaHeap.HeapIsRequest | braunschweig/resources.py:499-543 | a heap left open or too large is the memory in whole gigabytes, rounded down, at least one; a text that fits stands as it is, a number that fits is written in whole gigabytes |
| JavaHeap.WholeIsRead | braunschweig/resources.py:92-98 | a heap in whole gigabytes reads back as the memory rounded down, at least one |
| JavaHeap.BadHeaps | braunschweig/resources.py:516-531 | a heap is refused exactly for a flag and for what is no positive size |
| JavaHeap.HeapIsOfTheRest | braunschweig/java_heap.py:94-108 | the heap of a process is the one resolved against what the driver leaves, at least a gigabyte |
| JavaHeap.FloorExceedsSmallMemory | braunschweig/resources.py:92-98 | with under a gigabyte to give the heap stays within it exactly for a text that fits as it stands |
| JavaHeap.HeapLeavesRoomForDriver | braunschweig/java_heap.py:94-108 | heap and driver together stay within the budget unless the heap is at most a gigabyte |
| JavaHeap.HeapShrinksWithDriver | braunschweig/java_heap.py:79-116 | a larger driver never gets a larger heap, and settings are rejected independently of it |
| WeightedMedian.Argsort | scripts/derive_escort_location_weights.py:86-87 | some order of the observations that sorts the values; ties in any order |
| WeightedMedian.SearchSorted | scripts/derive_escort_location_weights.py:89 | the search ends where the sums cross the key, also on sums that are not sorted |
| WeightedMedian.Median | scripts/derive_escort_location_weights.py:79-89 | an error exactly on empty input or non-positive total; otherwise, for weights of either sign, a value at which the running total in some sorted order crosses half the total, and for non-negative weights the value with less than half the weight below it and at least half up to it |
| WeightedMedian.MedianIsUnique | scripts/derive_escort_location_weights.py:79-89 | only one value meets those bounds |
| WeightedMedian.MedianIsSmallestReachingHalf | scripts/derive_escort_location_weights.py:80-81 | the bounds say the same as the documented smallest value whose cumulative weight reaches half the total |
| WeightedMedian.MedianOfPermutation | scripts/derive_escort_location_weights.py:86-88 | any joint permutation of the inputs has the same median |
| WeightedMedian.SplittingKeepsMedian | scripts/derive_escort_location_weights.py:86-89 | splitting an observation's weight between two of its value keeps the median |
| WeightedMedian.ScalingKeepsMedian | scripts/derive_escort_location_weights.py:88-89 | multiplying all weights by a positive factor keeps the median |

## Left out

- StageDiscovery.Discover: takes as given that only finitely many hashes can come up; the source simply does not end otherwise.
- StagePipeline.ProcessStages: takes requests on whose table the walk ends; on all others the source does not end, see `StageWalk.WalkEndsIff`.
- CacheExport.Export: an entry that several of the named modules match meets the same faults each time it is copied; every step still fails or not as the set says.
- StagePropagation.Absorb: reads the passed options in sorted order; which options were already written when a conflict is raised is therefore not modelled, only that everything written is justified.
- CacheDirectory.Directory.CopyEntry: the states inside the roll-back are excluded, since the result is restored before the cache; a roll-back that itself fails promises nothing about the entry.
- WeightedMedian.Median: for negative weights the running total may cross half the total several times; which crossing the search ends at is not fixed.
- Resources.ResolveBudget: machine figures are parameters; the readers of the machine are not modelled.
- Log lines, counts that are only logged, message texts and the severity of startup violations.
- JSON, YAML, file and process access; directories are maps, and a set of faults says which steps of copying results and caches fail. Reading, writing and removing sidecars and registries, and creating or removing the staging directory, never fail in the model.
- Digests, hashes and runtime fingerprints are opaque values with equality; the fork's own staleness rules are not part of this model.
- `hashed_twice`, parsing of Python sources and collection of imports; the audit works on the collected sets.
- Attribute values and escapes inside XML lines; `HouseholdsWriter`, `FacilitiesWriter` and the vehicle writers; `current` and `has_previous` of the iterator.
- Dotted spelling of change paths (keys may contain dots, paths are key sequences), Python's equality of `1` and `True`, and `compose`'s final checks.
- Signs other than plus and minus, underscores and non-ASCII digits or blanks in numbers; infinities and NaN.
- Rounding of floating-point numbers: sizes, weights and sums are exact reals.
- `resolve_processes`, thread warnings and the rest of the startup report, which only report.

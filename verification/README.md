# Verified model of the validator, the build-identity tools, the SQL compiler and the playground

A Dafny project that models the algorithms of this repository whose correctness spans several functions, and proves what
they promise for all inputs, all schedules and all runs. `dafny verify dfyconfig.toml` checks it.

## What is modelled

**The specification validator** (`metamodel.py`).
`SpecModel` holds the parts of a specification that the graph and gate rules read. `Cycles` is the depth-first cycle
search, as a class with its three variables and as a function on them. `Resolve` is capability resolution with its
version comparison. `Impact` is the
worklist of `impact_analysis`; `Waves`, `ChangePlan` and `CyclicPlan` are the provider-first waves of `change_plan`. `EvidenceState` is
supersession, verification and the closure of obligations. `Gates`, `GateCycles` and `GateMeaning` are the collection of
errors, the waivers and the stage filter of `validate_spec`, and what they say of the specification rule by rule. `Reach` is the theory of least closed sets that the worklists share.

The results join these parts: a gate that reports no dependency cycle, with no cycle waiver in force, makes every plan of
every target a topological order whose wave numbers are longest dependency chains; a later gate implies every earlier one;
release reports a finding about the evidence of an obligation exactly when some active requirement that a chain of
refinements reaches from an obligation is not fully verified.

**The build-identity tools** (`scripts/`).
`Dockerfile`, `LogicalLines`, `Recipe` and `BuildArgs` read a recipe into instructions, stages, images, materials and build
arguments; `StageMeaning` and `RecipeMeaning` say what a recipe means in terms of the words on its lines. `GitBatch` decodes `git cat-file --batch`.
`Workspace`, `Inventory` and `SmallTree` are the crate graph, its closure, the components a change marks and the files a component's
inventory holds. `Fetch` is the concurrent download loop, over every choice of which downloads complete and in which order
they are taken; `NpmMaterials`, `CargoLock`, `CargoMaterials`, `CargoStage`, `CargoMeaning` and `CargoRefused` are the plans,
preparations and stagings around it. `Regex` and `Patterns` are the regular expressions of these scripts and the predicates
of the model that stand for them. `ReleasePlan` and `ReleaseAdapter` are the immutable-release planner, its history and runs of releases.

**The IR-to-SQL compiler** (`sql_templates.rs`).
`FilterSql` prints filters and reads the printed SQL back with a lexer and a parser of its own; `Durations` holds the three
duration readers; `CounterSql` says what the counter queries compute.

**The browser playground** (`transport.rs`, `generator.rs`).
`Transport` is the bounded publish/subscribe transport as a class, its value, and runs of calls. `Generator` is the
xorshift generator and the spans and logs drawn from it.

`Basics`, `Ordering`, `Decimal`, `PyText` and `PyDict` hold the text, number, sorting and dictionary behaviour of Python that the
rest needs.

## What the model shows about the code

- The docstring of `change_plan` promises provider-first waves without a condition. The order holds exactly when the
  dependencies of the affected components have no cycle, and otherwise only the last wave breaks it
  (`ChangePlan.ProviderFirstIffAcyclic`, `Waves.OnlyLastWaveBreaks`). `CyclicPlan.PlanIsNotProviderFirst` gives a
  specification of two components that fails it.
- Cargo staging refuses some bundles that a preparation leaves: the preparation bounds the bytes it downloads but not the
  bytes they unpack to, and the reading of an archive refuses a repeated path but not a path that is needed as a file and as
  a directory. `CargoStage.MaterializedIsStaged` gives the exact condition, `CargoRefused.LargeBundleIsRefused` and
  `CargoRefused.ClashingBundleIsRefused` an instance of each.
- `collect_component_source.py` is part of every source inventory, yet a change of it marks no component
  (`Inventory.CollectorMarksNothing`, with a tree in `SmallTree.CollectorIsCollectedUnmarked`). `Inventory.MarkedFilesAreCollected`, `Inventory.CollectedFilesMark` and
  `Inventory.CollectedWebFilesMark` say exactly where marking and inventory differ.
- A resolution of zero, like `0m`, is accepted, and its rates are no numbers unless there is no row
  (`CounterSql.RatesSumToIncrease`, with `CounterSql.ZeroResolutionHasNoRate`).

## Model

| member | source | states |
|---|---|---|
| Cycles.Search.VisitNode | system-spec/reference-implementation/metamodel.py:382-387 | One call of the inner function moves `seen`, `stack` and `out` exactly as the search function does, and terminates because the unseen nodes shrink |
| Cycles.Search.VisitSuccessors | system-spec/reference-implementation/metamodel.py:386-388 | The loop over successors, and the top-level loop, move the three variables as the search function does |
| Cycles.FindCycles | system-spec/reference-implementation/metamodel.py:380-389 | The imperative search returns the list that the search function finds |
| Cycles.FoundAreSimpleCycles | system-spec/reference-implementation/metamodel.py:383 | Every returned list is a closed walk along real edges whose nodes are distinct apart from the endpoint |
| Cycles.EmptyReportOrders | system-spec/reference-implementation/metamodel.py:384-387 | If nothing is returned, the finishing order lists every node after all its successors |
| Cycles.TopologicalAcyclic | system-spec/reference-implementation/metamodel.py:380-389 | A graph whose nodes can be listed after their successors has no closed walk |
| Cycles.ReportsIffCyclic | system-spec/reference-implementation/metamodel.py:380-389 | The result is non-empty exactly when the graph has a directed cycle, self-loops included |
| SpecModel.RefParts | system-spec/reference-implementation/metamodel.py:368 | A reference names one capability and at most one version, split at the first `@^`, and those are read |
| Resolve.CompatibleMeans | system-spec/reference-implementation/metamodel.py:357-360 | A wanted version is accepted exactly if there is none, or both are dotted numbers with the same first number and, where they first differ, the wanted list has ended or the actual number is larger |
| Resolve.VersionOfDotted | system-spec/reference-implementation/metamodel.py:353-355 | Numbers written with dots are read as those numbers |
| Resolve.RaisedIsCompatible | system-spec/reference-implementation/metamodel.py:357-360 | A version is accepted where itself is wanted, and stays accepted when a number after the first is raised |
| Resolve.MinorVersions | system-spec/reference-implementation/metamodel.py:357-360 | `^1.0` accepts 1.1, and `^1.1` does not accept 1.0 |
| Resolve.ResolvesIffUnique | system-spec/reference-implementation/metamodel.py:357-375 | A reference to a capability in a version resolves to `p` exactly when the first capability of that id, or else the first import of its alias, has a version that accepts it, and `p` is the one component that provides it, is not the requirer and agrees with any binding |
| Resolve.DependsIffNeeds | system-spec/reference-implementation/metamodel.py:377-378 | With distinct ids a component depends on exactly the components that its references resolve to: no need is lost |
| Resolve.ProviderIsOther | system-spec/reference-implementation/metamodel.py:367-378 | A resolved dependency leads to another component of the specification |
| Impact.AffectedIsLeast | system-spec/reference-implementation/metamodel.py:795-803 | The visited set is the least one that holds the target and is closed under requires, derived-from, provides, owns and owner steps, with the provides step back at the target only |
| Impact.Visited | system-spec/reference-implementation/metamodel.py:795-803 | The worklist loop visits exactly that set |
| Impact.AffectedRequirementsIsLeast | system-spec/reference-implementation/metamodel.py:804-805 | The requirement set is the least one that holds the directly affected requirements and, with one, all that depend on it or refine it |
| Impact.FollowRequirements | system-spec/reference-implementation/metamodel.py:804-805 | The round-by-round loop computes that least set |
| Impact.ImpactAnalysis | system-spec/reference-implementation/metamodel.py:794-813 | The report lists components, capabilities, models, requirements and invalidated evidence of the two sets, in the order of the specification |
| Impact.ReportMeans | system-spec/reference-implementation/metamodel.py:806-813 | The report lists exactly the affected components, capabilities and data models, the affected requirements, and the evidence for one of these or about an affected subject |
| Waves.PlanPartitions | system-spec/reference-implementation/metamodel.py:986-988 | The waves are non-empty, disjoint and together the affected components, whatever the dependencies are |
| Waves.OnlyLastWaveBreaks | system-spec/reference-implementation/metamodel.py:986-988 | In every wave but the last, all providers are in strictly earlier waves |
| Waves.LongestChains | system-spec/reference-implementation/metamodel.py:986-988 | In a provider-first plan a component of wave `i` starts a dependency chain of `i + 1` components and none that is longer |
| Waves.ProviderFirstIsAcyclic | system-spec/reference-implementation/metamodel.py:985-988 | A plan in provider-first order shows that the dependencies have no cycle |
| ChangePlan.ProviderFirstIffAcyclic | system-spec/reference-implementation/metamodel.py:985-988 | A plan is in provider-first order exactly when the dependencies of the affected components have no cycle |
| ChangePlan.PlanAcyclic | system-spec/reference-implementation/metamodel.py:541-542 | If the graph that COMP-06 checks has no cycle, neither have the dependencies of any plan |
| ChangePlan.AcyclicPlansAreTopological | system-spec/reference-implementation/metamodel.py:981-989 | Without a dependency cycle every plan of every target partitions its components, puts providers strictly first and numbers waves by longest chains |
| Waves.PlanUnique | system-spec/reference-implementation/metamodel.py:985-988 | The dependencies determine the plan |
| ChangePlan.DeliveryWaves | system-spec/reference-implementation/metamodel.py:986-988 | The loop terminates; its waves are the plan, each in sorted order |
| ChangePlan.ListedPlanUnique | system-spec/reference-implementation/metamodel.py:986-988 | There is one such list of waves, so the output depends on the components and their dependencies only |
| ChangePlan.ChangePlan | system-spec/reference-implementation/metamodel.py:981-992 | The plan's waves are the plan of the affected components; it describes exactly those components and carries the requirements, evidence and priorities of the impact analysis |
| ChangePlan.DependenciesMean | system-spec/reference-implementation/metamodel.py:985 | In a plan a component waits for exactly the other affected components that its references resolve to |
| ChangePlan.SliceMeans | system-spec/reference-implementation/metamodel.py:990 | For each component the plan lists in order the capabilities that its resolved references name, with its own fakes and paths |
| ChangePlan.PrioritiesMean | system-spec/reference-implementation/metamodel.py:992 | The plan has the priority of exactly the affected requirements that have one |
| CyclicPlan.PlanIsNotProviderFirst | system-spec/reference-implementation/metamodel.py:981-988 | A specification, a target and its plan whose one wave holds two components that need each other |
| EvidenceState.VerifiedMeansFull | system-spec/reference-implementation/metamodel.py:391-409 | With distinct ids a requirement is verified exactly when some record of its current version counts, every record that counts passes with nothing skipped, and every criterion is covered by one; a record counts unless a passing record with a reason names it as superseded |
| EvidenceState.HasFailedMeans | system-spec/reference-implementation/metamodel.py:439 | A requirement has failed exactly when a record that counts did not pass |
| EvidenceState.ObligedIsLeast | system-spec/reference-implementation/metamodel.py:684-688 | Obligation is the least set that holds the mandatory, declassifying and resolving requirements and passes to every active requirement that refines a member |
| EvidenceState.GrowObligation | system-spec/reference-implementation/metamodel.py:688 | The loop that adds whole rounds ends with exactly the reachable requirements |
| EvidenceState.Obligation | system-spec/reference-implementation/metamodel.py:684-688 | Sources, refinement map and loop together compute the obligations |
| Gates.ValidateSpec | system-spec/reference-implementation/metamodel.py:421-712 | Collecting check by check and filtering gives the specified list of findings; checks that are not modelled enter as a parameter |
| Gates.WaiversShrink | system-spec/reference-implementation/metamodel.py:411-416 | A waiver in force at a later stage is in force at every earlier one on the same date |
| Gates.CollectedGrows | system-spec/reference-implementation/metamodel.py:486-492 | Whatever is collected at a stage is collected at every later one |
| Gates.GatesAreMonotone | system-spec/reference-implementation/metamodel.py:711-712 | Every error reported at a stage is reported at every later stage on the same date |
| Gates.LaterGateImpliesEarlier | system-spec/reference-implementation/metamodel.py:711-712 | Passing a gate implies passing every earlier one |
| Gates.CycleReportedUnlessWaived | system-spec/reference-implementation/metamodel.py:541-542 | From architecture on, a found cycle goes unreported exactly when a waiver in force names the rule or its kind and targets a component of the cycle or the system |
| Gates.AcceptedPlansAreTopological | system-spec/reference-implementation/metamodel.py:541-542 | If a gate from architecture on reports no dependency cycle and no cycle waiver is in force, every plan of every target is a topological partition numbered by longest chains |
| Gates.UnverifiedIsReported | system-spec/reference-implementation/metamodel.py:689-693 | An obliged active requirement that is not verified is an error of its own at release: REQ-04 if a record failed, REQ-05 otherwise |
| Gates.ReleaseVerifiesObligations | system-spec/reference-implementation/metamodel.py:684-693 | Acceptance at release means that every active requirement reachable by refinements from an obligation is fully verified |
| Gates.ObligedIffReachable | system-spec/reference-implementation/metamodel.py:684-688 | With distinct ids the obligations are exactly the requirements that a chain of refinements reaches |
| Gates.ObligationFindingsIffUnmet | system-spec/reference-implementation/metamodel.py:689-693 | Release reports REQ-04 or REQ-05 exactly when such a requirement is not fully verified |
| Gates.NoDuplicatesReported | system-spec/reference-implementation/metamodel.py:445-448 | If no duplicate is reported, requirement ids are distinct |
| Gates.ReleaseReportsAll | system-spec/reference-implementation/metamodel.py:711-712 | Release reports everything that is collected, in order: no gate is ahead and no waiver hides anything |
| GateMeaning.InForceMeans | system-spec/reference-implementation/metamodel.py:411-416 | A waiver is in force before release exactly if it has a treatment that allows it, a mitigation and an expiry, up to and including its last day or its own stage |
| GateMeaning.ShownMeans | system-spec/reference-implementation/metamodel.py:711-712 | A finding is shown exactly if the gate of its rule is reached and no waiver in force names its rule or kind and targets one of its subjects or the system |
| GateMeaning.ReportedMeans | system-spec/reference-implementation/metamodel.py:421-712 | With distinct requirement ids a gate reports exactly what a modelled rule says of the specification, written out for each rule, besides the findings of the other checks, as far as it is shown |
| GateMeaning.DuplicatesReported | system-spec/reference-implementation/metamodel.py:445-448 | Every gate reports exactly the requirement ids that occur twice |
| GateCycles.RequirementCyclesReportedIff | system-spec/reference-implementation/metamodel.py:570-571 | From verification on, REQ-02 is reported exactly if the graph of dependencies and refinements has a cycle; no waiver hides it |
| GateCycles.RequirementEdges | system-spec/reference-implementation/metamodel.py:570 | With distinct ids the edges of that graph are the `depends_on` and `refines` entries |
| GateCycles.DomainEdges | system-spec/reference-implementation/metamodel.py:546 | With distinct ids the edges of the domain graph lead to the declared domains that a domain uses |
| GateCycles.DomainCycleReportedUnlessWaived | system-spec/reference-implementation/metamodel.py:546-547 | From architecture on, a found domain cycle goes unreported exactly when a waiver in force names DOM-03 or its kind and targets a component in one of its domains or the system |
| GateCycles.AcceptedDomainsAreAcyclic | system-spec/reference-implementation/metamodel.py:543-547 | A gate that reports no domain cycle, with no such waiver in force, leaves the uses of domains without a cycle |
| FilterSql.EscapeIsCharMap | libs/query-core/src/sql_templates.rs:561-563 | The two sequential replaces are one character map |
| FilterSql.ReadEscaped | libs/query-core/src/sql_templates.rs:558-563 | The literal reader inverts the escape on any text and stops at the closing quote |
| FilterSql.LexColumn | libs/query-core/src/sql_templates.rs:727-737 | A mapped field reads as the tokens of the intended column, whatever the field text is |
| FilterSql.LexExpr | libs/query-core/src/sql_templates.rs:764-798 | A printed filter reads as the tokens of the intended predicate and leaves what follows as it is |
| FilterSql.LexClauses | libs/query-core/src/sql_templates.rs:806-818 | In front of any text the printed block reads as its clauses and leaves the reading of that text unchanged |
| FilterSql.ParseClauseTokens | libs/query-core/src/sql_templates.rs:806-818 | Parsing those tokens gives the intended predicates in order |
| FilterSql.FiltersRoundTrip | libs/query-core/src/sql_templates.rs:764-818 | For any list of filters with any field and value text, lexing and parsing the printed block gives back exactly the intended conjunction in order, string and numeric operators alike, and the SQL behind it as it reads alone |
| FilterSql.FailsAtFirstRejected | libs/query-core/src/sql_templates.rs:773-818 | Compilation fails exactly when a filter is rejected, and names the column of the first such filter |
| Durations.SecondsIffSpelled | libs/query-core/src/sql_templates.rs:545-556 | A text is accepted exactly if, between blanks, it is a 64-bit number and one of the four units, and gives that many times the seconds of the unit |
| Durations.IntervalIffSeconds | libs/query-core/src/sql_templates.rs:536-556 | The interval reader and the seconds reader accept the same texts, and the printed interval, read as a number of a named unit, is just those seconds |
| Durations.TimeExprAgrees | libs/query-core/src/sql_templates.rs:508-533 | `now-` and a text is accepted exactly when the text is a readable number of seconds whose nanoseconds fit 64 bits; the printed offset is exactly those nanoseconds |
| Durations.NowMinus | libs/query-core/src/sql_templates.rs:509-515 | Trimming before and after the prefix is cut off does not change what is read |
| Durations.LiteralTimes | libs/query-core/src/sql_templates.rs:509-512 | Between blanks `now` is the clock, and a number stands for itself |
| Durations.TimeExprAccepted | libs/query-core/src/sql_templates.rs:508-533 | Between blanks exactly `now`, numbers and `now-` with a duration that fits are accepted; an error names the trimmed expression |
| Durations.WindowAccepted | libs/query-core/src/sql_templates.rs:718-721 | A lookback window is accepted under the same condition and keeps the points from that many nanoseconds ago on |
| CounterSql.IncreaseTelescopes | libs/query-core/src/sql_templates.rs:261-270 | In one series with distinct times the sum is last minus first plus every value just before a reset |
| CounterSql.IncreaseBySeries | libs/query-core/src/sql_templates.rs:261-270 | Over several series the sum is the sum of the increases of each |
| CounterSql.RatesSumToIncrease | libs/query-core/src/sql_templates.rs:151-184 | For every accepted resolution and every bucketing, the bucket rates are numbers exactly if the resolution is not zero or there is no row, and then the rates times the interval seconds add up to the increase over the same rows |
| CounterSql.ZeroResolutionHasNoRate | libs/query-core/src/sql_templates.rs:151-184 | The resolution `0m` is accepted, and over a single row its bucket has no number for a rate |
| Transport.InMemoryTransport.constructor | libs/playground-wasm/src/transport.rs:41-46 | A new transport has no subscriber and hands out id 0 next |
| Transport.InMemoryTransport.Subscribe | libs/playground-wasm/src/transport.rs:49-65 | The new consumer gets the next id, an empty queue and its capacity; a capacity of zero or the end of the counter panics and changes nothing |
| Transport.InMemoryTransport.Publish | libs/playground-wasm/src/transport.rs:72-101 | A publish is rejected exactly when a subscriber of the topic is full, then changes nothing and names the lowest such id; otherwise every subscriber of the topic gets the message and the count is theirs |
| Transport.InMemoryTransport.Receive | libs/playground-wasm/src/transport.rs:104-108 | The oldest message is returned and removed, if there is one; nothing else changes |
| Transport.InMemoryTransport.Unsubscribe | libs/playground-wasm/src/transport.rs:110-112 | The consumer is removed, and the answer says whether it was there |
| Transport.StepBalances | libs/playground-wasm/src/transport.rs:49-112 | Any call keeps a consumer's topic and capacity, and received plus queued in step with what is logged on the topic |
| Transport.EveryRunIsFifo | libs/playground-wasm/src/transport.rs:67-108 | In every run a live consumer keeps the topic it subscribed to, and what it received, followed by its queue, is the log of that topic since the subscription; no queue exceeds its capacity |
| Transport.LiveWasSubscribed | libs/playground-wasm/src/transport.rs:54-63 | Every live consumer was subscribed by exactly one call of the run |
| Transport.IdsNeverReused | libs/playground-wasm/src/transport.rs:54-55 | Two subscriptions of a run never return the same id: the later one returns a larger id |
| Transport.RejectedPublishChangesNothing | libs/playground-wasm/src/transport.rs:82-91 | A publish leaves the transport as it is exactly when a matching queue is full or nobody subscribes to the topic |
| Fetch.Pool.SubmitNext | scripts/component_npm_materials.py:207-210 | The next entry of the plan, if any, becomes pending; the state is recorded and at most four are pending |
| Fetch.Pool.Complete | scripts/component_npm_materials.py:216-223 | Taking one result moves it from pending to finished or shows that the plan cannot succeed |
| Fetch.FetchAll | scripts/component_npm_materials.py:204-228 | For every schedule the loop succeeds exactly when all archives verify, paths differ and the total is within the limit; its states run from nothing submitted, one submission or completion at a time, to everything finished, and in each pending, finished and unsubmitted entries partition the plan with at most four pending |
| Fetch.FilesDetermined | scripts/component_npm_materials.py:215-223 | The files written depend on the plan only, not on the schedule |
| NpmMaterials.SriInjective | scripts/component_npm_materials.py:49-55 | The canonical-form check makes the integrity text a function of its bytes |
| NpmMaterials.SourcePlan | scripts/component_npm_materials.py:94-123 | The loop over the lock entries, with its grouping dictionary, yields the specified plan or fails where an entry is unsupported |
| NpmMaterials.PlanGroupsByIntegrity | scripts/component_npm_materials.py:112-122 | Every archive stands for exactly the records of one integrity and lists their URLs in order; every record has its archive; paths are distinct |
| NpmMaterials.PlanMeans | scripts/component_npm_materials.py:84-123 | A plan is made exactly for a lock of version 3 for the one workspace whose other entries, at least one, are packages with an archive URL and a canonical SHA-512; it lists each of them once, in order, as its entry says |
| NpmMaterials.DownloadSucceeds | scripts/component_npm_materials.py:166-218 | The downloads succeed exactly when every first URL answers with an archive of at most 64 MiB that has the integrity and layout, and all together are at most one GiB |
| NpmMaterials.Materialize | scripts/component_npm_materials.py:192-235 | Preparation succeeds exactly when the plan does, and leaves the metadata, every verified archive and the manifest that records their sizes |
| NpmMaterials.BundleIgnoresSchedule | scripts/component_npm_materials.py:199-232 | Two preparations of one plan leave the same bundle and manifest, whatever the order of completions and whatever the registry answered to each |
| NpmMaterials.StageBundle | scripts/component_npm_materials.py:238-275 | Staging succeeds exactly when header, metadata, integrity, sizes and total all match, and then copies the verified bytes |
| NpmMaterials.AcceptedMeans | scripts/component_npm_materials.py:238-275 | A bundle is accepted exactly when its manifest is the one that a preparation at its revision writes for the archives it holds, and manifest, metadata, archives and total are as committed and within their limits |
| NpmMaterials.MaterializedIsStaged | scripts/component_npm_materials.py:229-263 | A prepared bundle is accepted, at whatever revision, exactly when manifest and metadata are within the read limit |
| NpmMaterials.StagedIsCommitted | scripts/component_npm_materials.py:254-273 | Acceptance means that every archive has the committed integrity and recorded size, the manifest is the prepared one, and the total is within the limit |
| CargoLock.ReadLock | scripts/component_cargo_materials.py:83-98 | The loop accepts a lock exactly when every item is supported, none repeats a package version or a local name, something is to be fetched and the local versions agree |
| CargoMeaning.AcceptableMeans | scripts/component_cargo_materials.py:83-98 | A lock is accepted exactly when its items match the name, version and checksum patterns, come from nowhere or crates.io, repeat neither a version nor a local name, and list something to fetch and the local packages in their versions |
| CargoMeaning.PlannedPackages | scripts/component_cargo_materials.py:93-97 | The packages of the plan are those of crates.io with their checksums and the address of their archives |
| CargoLock.AcceptedArePackages | scripts/component_cargo_materials.py:84-97 | The packages of an accepted lock are well-named and distinct |
| Patterns.CrateNameMeans | scripts/component_cargo_materials.py:86 | The predicate of crate names is the pattern of the script |
| Patterns.CrateVersionMeans | scripts/component_cargo_materials.py:87 | So is that of crate versions |
| Patterns.ChecksumMeans | scripts/component_cargo_materials.py:94 | So is that of checksums |
| CargoLock.DirectoryInjective | scripts/component_cargo_materials.py:86-88 | Two package versions never share a vendor directory, although name and version are joined by a hyphen that both may contain |
| CargoMaterials.VerifiedChecksumsDiffer | scripts/component_cargo_materials.py:137-157 | Packages whose archives verify have different checksums: an archive verifies for one package version only |
| CargoMaterials.PreparableIffSucceeds | scripts/component_cargo_materials.py:168-184 | The download loop succeeds exactly when all archives verify and the total is within the limit |
| CargoMeaning.CrateMeans | scripts/component_cargo_materials.py:137-157 | An archive verifies exactly if it is at most 64 MiB, has the checksum and holds everything in the directory of its package, a `Cargo.toml` and no checksum file; its files are those of the directory |
| CargoMeaning.PreparableMeans | scripts/component_cargo_materials.py:160-184 | A preparation succeeds exactly when every address answers with such an archive and all together are at most one GiB |
| CargoMaterials.Materialize | scripts/component_cargo_materials.py:160-191 | Preparation succeeds exactly then, with at most four downloads pending in every state, and leaves metadata, archives and manifest |
| CargoMaterials.BundleIgnoresSchedule | scripts/component_cargo_materials.py:166-188 | Two preparations of one plan leave the same bundle, whatever the order of completions and whatever the registry answered to each |
| CargoStage.Unpack | scripts/component_cargo_materials.py:222-231 | The files of one archive and their checksums become one vendor directory, exactly unless one path is needed as a file and as a directory or the running total of unpacked bytes passes the limit |
| CargoStage.Stage | scripts/component_cargo_materials.py:194-238 | Staging succeeds exactly when header, metadata, archives and total match, no archive clashes with itself and the unpacked total is within the limit; the vendor tree is then that of the packages, and no two of them share a directory |
| CargoMeaning.AcceptsMeans | scripts/component_cargo_materials.py:194-231 | A bundle is accepted exactly when its manifest is the one to be written for its archives, all is as committed and within its limits, no archive needs a path as file and directory, and the unpacked total is at most one GiB |
| CargoMeaning.VendorMeans | scripts/component_cargo_materials.py:222-231 | The directory of a package, named after it, holds the files of its archive and a checksum file with the checksum of the archive and those of the files |
| CargoMeaning.VendorOnly | scripts/component_cargo_materials.py:222 | The vendor tree has these directories and no other |
| CargoStage.MaterializedIsStaged | scripts/component_cargo_materials.py:185-231 | A prepared bundle is accepted, at whatever revision, exactly when manifest and metadata are within the read limit, no archive uses a path as a file and as a directory, and all archives together unpack to no more than the total |
| CargoRefused.BundleIsPrepared | scripts/component_cargo_materials.py:160-191 | For any files, three locked packages, a fetch that yields their archives and the bundle that the preparation leaves |
| CargoRefused.LargeBundleIsRefused | scripts/component_cargo_materials.py:226-227 | Such a bundle, in order but for the size of its unpacked files, that staging refuses |
| CargoRefused.ClashingBundleIsRefused | scripts/component_cargo_materials.py:228-231 | Such a bundle of empty files that staging refuses for a file `a` beside a file `a/b` |
| CargoStage.StagedIsCommitted | scripts/component_cargo_materials.py:219-231 | In an accepted bundle every archive has the locked checksum and recorded size, and its vendor directory holds exactly its files and their checksums |
| GitBatch.GitSnapshot.ReadMany | scripts/collect_component_source.py:79-101 | Unsupported or missing entries change nothing; otherwise the loop succeeds exactly when the stream decodes to its end. Where git serves its objects, every path that was not read yet is left with the object that its entry names, whatever its bytes, and every other as it was |
| GitBatch.StoredHolds | scripts/collect_component_source.py:89-99 | Storing blob by blob leaves each path with its blob and keeps what was read before |
| GitBatch.ReadEncodedRecord | scripts/collect_component_source.py:90-99 | One record is read back exactly, wherever it stands in the stream |
| GitBatch.BatchRoundTrip | scripts/collect_component_source.py:79-101 | Every sequence of blobs with any bytes, in the format of git-cat-file(1), section BATCH OUTPUT, is read back exactly and the whole stream is consumed |
| GitBatch.LongerBatchRefused | scripts/collect_component_source.py:100-101 | A stream that goes on after the last record is refused |
| GitBatch.TruncatedBatchRefused | scripts/collect_component_source.py:90-101 | A stream cut short at any byte is refused |
| Workspace.NormalizeLoop | scripts/ci_changed_components.py:118-125 | The loop with push and pop computes the specified normal form |
| Workspace.NormalizeIffInside | scripts/ci_changed_components.py:118-125 | Normalization succeeds exactly when no prefix of the path climbs above its start; the result has no dots |
| Workspace.NormalizeBelow | scripts/ci_changed_components.py:103-109 | A path below a directory can be normalized in two steps |
| Workspace.DependenciesIsLeast | scripts/ci_changed_components.py:128-137 | The closure is the least set that holds the package and the dependencies of its members |
| Workspace.FindClosure | scripts/ci_changed_components.py:128-137 | The worklist returns exactly the reflexive-transitive dependencies, and fails exactly when one of them is missing from the graph |
| Workspace.LoadedIsClosed | scripts/ci_changed_components.py:73-115 | A loaded graph is closed, one directory belongs to one crate, and what the strict reader accepts the lenient one reads alike |
| Workspace.LoadMeans | scripts/ci_changed_components.py:73-115 | The strict reader accepts exactly workspaces of plain, distinct members without build scripts whose paths lead to members, the lenient one those whose paths can be normalized; the graph has one crate for every member, which depends on the members that its paths lead to |
| Workspace.JoinSplits | scripts/ci_changed_components.py:109 | A joined path can be split into its parts again |
| Workspace.StrictLosesNothing | scripts/ci_changed_components.py:98-114 | In a strictly loaded workspace every local declaration names a crate of the graph |
| Inventory.AffectedComponents | scripts/ci_changed_components.py:140-161 | The loop computes the components marked by the paths, in the fixed order, and fails only if a crate that it has to visit is missing |
| Inventory.MarksMeans | scripts/ci_changed_components.py:147-160 | A path marks every service if it is a shared input or lies in the areas of the crates and belongs to none, the web component if it is a web input, and otherwise the services that depend on the crate with the longest directory above it |
| Inventory.MarkedByUnion | scripts/ci_changed_components.py:146-160 | Marking distributes over unions of path sets and ignores order and repetition |
| Inventory.Collect | scripts/collect_component_source.py:128-146 | Selection yields the specified inventory or rejects unknown layouts, missing protocol sources, build scripts and irregular files |
| Inventory.LayoutMeans | scripts/collect_component_source.py:136-139 | The layout is known exactly if every file of the areas lies in the directory of a crate or under `services/.junie/` |
| Inventory.EndsWithMeans | scripts/collect_component_source.py:144-145 | A build script is a path with `/build.rs` at its end |
| Inventory.MarkedFilesAreCollected | scripts/collect_component_source.py:120-146 | A file of the tree that marks a component is in its inventory exactly if a crate owns it or it lies outside libs and services; the exceptions lie under `services/.junie/` |
| Inventory.CollectedFilesMark | scripts/ci_changed_components.py:147-160 | A collected file of a Rust component does not mark it exactly if it is the collector script or belongs to a crate outside its dependencies |
| Inventory.CollectedWebFilesMark | scripts/ci_changed_components.py:147-153 | A collected file of the web component does not mark it exactly if it is `.dockerignore` or a build script |
| Inventory.CollectedMarksNothing | scripts/ci_changed_components.py:147-160 | A collected file marks no component exactly if it is the collector script or belongs to a crate that no component depends on |
| Inventory.CollectorMarksNothing | scripts/collect_component_source.py:29-31 | The collector script is in an inventory exactly if it is in the tree, and marks nothing |
| SmallTree.CollectorIsCollectedUnmarked | scripts/collect_component_source.py:128-146 | A workspace of the seven packages and a tree with the collector script that is accepted: the script is selected and marks no component |
| LogicalLines.CommentsDoNotMatter | scripts/collect_component_inputs.py:69-72 | A comment line can stand anywhere, inside a continuation too, without changing the instructions |
| LogicalLines.SplittingDoesNotMatter | scripts/collect_component_inputs.py:75-80 | A line can be split by a backslash without changing the instructions |
| LogicalLines.PlainLinesRoundTrip | scripts/collect_component_inputs.py:62-82 | Instructions written one to a line are read back as they are |
| LogicalLines.InstructionsHaveText | scripts/collect_component_inputs.py:71-82 | No instruction is empty, and blank lines and comments alone give none |
| Dockerfile.StageGraphLoop | scripts/collect_component_inputs.py:118-146 | The loop builds the specified graph or rejects the layout |
| Dockerfile.StageGraphPointsBack | scripts/collect_component_inputs.py:85-137 | In every accepted graph a FROM points to a strictly earlier stage and a COPY to the same or an earlier one |
| StageMeaning.StageGraphMeans | scripts/collect_component_inputs.py:85-146 | Instructions form a stage graph exactly when each FROM line has one of the two forms and no reference is the number of a stage that is not there; each stage then has the name, image, instructions and references that the words of its lines say, a name meaning the last earlier stage so named |
| Dockerfile.WalkStages | scripts/collect_component_inputs.py:179-192 | The walk yields every reachable stage exactly once and none after the start |
| Dockerfile.Collect | scripts/collect_component_inputs.py:149-176 | It succeeds exactly when every external image of a reachable stage is pinned; images, their stages and materials are those of the reachable stages |
| Recipe.ParseRecipe | scripts/collect_component_inputs.py:244-263 | A recipe is accepted exactly when its frontend is pinned or absent, its stages are well-formed, the target is one stage and the reachable images are pinned |
| RecipeMeaning.RecipeMeans | scripts/collect_component_inputs.py:244-263 | A recipe is accepted exactly when its frontend is pinned or absent, its blocks are well-formed, the target is one stage, and every image is pinned that a stage it is built from names in its FROM line or in a `COPY --from=` |
| RecipeMeaning.ImagesMean | scripts/collect_component_inputs.py:149-167 | The evidence lists exactly the images that those stages name so, each with the names of those stages |
| RecipeMeaning.MaterialsMean | scripts/collect_component_inputs.py:168-176 | The evidence has exactly what is read from the RUN lines of those stages |
| RecipeMeaning.DirectiveMeans | scripts/collect_component_inputs.py:47-59 | The frontend is the one word after `# syntax=` in the first line that is not blank |
| RecipeMeaning.AcceptedHasBlocks | scripts/collect_component_inputs.py:118-146 | Every accepted recipe comes in blocks of a FROM line and the lines behind it |
| Patterns.StageNameMeans | scripts/collect_component_inputs.py:34 | The predicate of stage names is the pattern of the script |
| Patterns.ImageDigestMeans | scripts/collect_component_inputs.py:35 | So is that of pinned images |
| Recipe.ListedImagesArePinned | scripts/collect_component_inputs.py:149-167 | Every listed image is pinned by digest, and every external image of a reachable stage is listed |
| Recipe.UnreachableBodiesKeepReach | scripts/collect_component_inputs.py:158-192 | Rewriting the bodies of unreachable stages changes neither the start stage nor the reached stages nor whether all their images are pinned |
| Recipe.UnreachableBodiesDoNotMatter | scripts/collect_component_inputs.py:158-192 | Nor does it change images or materials |
| Recipe.AcceptedBeforeIffAfter | scripts/collect_component_inputs.py:244-263 | Written one instruction to a line, a recipe is accepted before such a rewriting exactly if it is after |
| BuildArgs.CheckDeclarations | scripts/collect_component_inputs.py:199-212 | The walk over the reachable stages accepts exactly when each of their ARG declarations is a reviewed one with its default and every reviewed one is declared |
| BuildArgs.EffectiveBuildArgs | scripts/collect_component_inputs.py:195-231 | Arguments are accepted exactly then, when the overrides are public configuration of the web component; they are the defaults with the overrides, or the fixed service |
| BuildArgs.RecipeReviewedMeans | scripts/collect_component_inputs.py:195-212 | Declarations are accepted exactly when the ARG lines of the stages that the component is built from declare the reviewed names with their defaults and no others |
| BuildArgs.EffectiveMeans | scripts/collect_component_inputs.py:213-231 | What overrides are accepted for each component, and which values the arguments have then |
| BuildArgs.UnreachableArgumentsDoNotMatter | scripts/collect_component_inputs.py:179-212 | Rewriting the bodies of stages the component is not built from changes neither the start stage nor whether its declarations are accepted |
| ReleasePlan.AcceptIdempotent | scripts/plan_component_release.py:41-59 | An accepted identity is accepted again, unchanged |
| ReleasePlan.AcceptIgnoresOrder | scripts/plan_component_release.py:54-59 | Listing the platforms in another order gives the same identity or the same rejection |
| Patterns.VersionMeans | scripts/plan_component_release.py:29 | The predicate of release versions is the pattern of the script |
| Patterns.AlgorithmMeans | scripts/plan_component_release.py:50 | So is that of algorithm names |
| Patterns.DigestMeans | scripts/plan_component_release.py:26 | So is that of digests |
| Patterns.RevisionMeans | scripts/plan_component_release.py:48 | So is that of revisions |
| Patterns.PlatformMeans | scripts/plan_component_release.py:56 | So is that of platforms |
| ReleasePlan.PlansExisting | scripts/plan_component_release.py:98-137 | An image that exists is planned for exactly when the request is well-formed and the record that decides, and any history, is accepted and agrees with it on component, version, algorithm, input digest and set of platforms; the plan names just that image, its evidence and the requested tag |
| ReleasePlan.PlansNew | scripts/plan_component_release.py:98-137 | Otherwise there is a plan exactly when the request is well-formed, without history and twice definitely missing; it is to publish the request |
| ReleasePlan.PublishNeedsTwoMisses | scripts/plan_component_release.py:106-129 | A publish plan needs no history and two definitive misses of exactly this component and version |
| ReleasePlan.ReuseNamesObserved | scripts/plan_component_release.py:117-137 | Any other plan names an observed accepted image built from the requested inputs, and is a reuse exactly when both kinds of evidence are there |
| ReleaseAdapter.LoadHistory | scripts/component_release_adapter.py:58-73 | The loop fills the dictionary or rejects |
| ReleaseAdapter.LoadedHistory | scripts/component_release_adapter.py:58-73 | A history loads exactly when every record is accepted and no two share component and version; it then holds each and nothing else |
| ReleaseAdapter.RecordedIsFinal | scripts/component_release_adapter.py:110-155 | With a record in the history there is a plan exactly when the request is well-formed, agrees with the record field by field and the registry answers the recorded image; it reuses or completes that image and identity |
| ReleaseAdapter.AttestedIsPlanned | scripts/component_release_adapter.py:116-135 | Without a record, an image that the registry has is planned exactly when the request is well-formed and verified attestations of just that digest vouch for it |
| ReleaseAdapter.PlanIgnoresPlatformOrder | scripts/component_release_adapter.py:138-155 | Permuting the platforms does not change the plan |
| ReleaseAdapter.AuthorizedIffUnpublished | scripts/component_release_adapter.py:138-180 | A release may write exactly when the request is well-formed, the history has no record of the version, the registry says twice that it has no such image, writing is enabled and a lock is held |
| ReleaseAdapter.ReleaseKeeps | scripts/component_release_adapter.py:138-180 | One release keeps the history valid and changes no recorded digest or identity |
| ReleaseAdapter.RunKeeps | scripts/component_release_adapter.py:138-180 | So does every run of serialized releases |
| ReleaseAdapter.PublishedForever | scripts/component_release_adapter.py:138-180 | After a version is published, every later plan for it in any run is a rejection, or a reuse or completion with the digest and identity first published |
| Generator.StepInjective | libs/playground-wasm/src/generator.rs:52-59 | A step of the generator loses no information |
| Generator.NeverZero | libs/playground-wasm/src/generator.rs:48-59 | For every 32-bit seed no state is ever zero |
| Generator.StaysDifferent | libs/playground-wasm/src/generator.rs:52-59 | Seeds with different first states never meet |
| Generator.Rng.NextU32 | libs/playground-wasm/src/generator.rs:52-59 | The three shifts in place advance the state by one step and return it |
| Generator.GenerateSpans | libs/playground-wasm/src/generator.rs:122-201 | The loop over one mutable generator returns the spans as a function of seed and time |
| Generator.SpanMeans | libs/playground-wasm/src/generator.rs:92-118 | A span takes two numbers: its duration is drawn between the bounds of its service and capped, and it is an error exactly if the second number is below the service's share |
| Generator.CallsMean | libs/playground-wasm/src/generator.rs:27-36 | Which service calls which |
| Generator.ChildFits | libs/playground-wasm/src/generator.rs:157-195 | A child drawn for a parent of at least two milliseconds lies strictly inside it and is of a service below the parent's |
| Generator.SpansAreTraces | libs/playground-wasm/src/generator.rs:126-198 | The spans are forty traces one after the other: a root of at least five milliseconds within the window, a child inside it, perhaps a grandchild inside the child |
| Generator.EverySpanIsNested | libs/playground-wasm/src/generator.rs:122-201 | For every seed and time each span lasts, exactly the first span of a trace names no parent, and any other lies inside the span before it, which the topology allows above it |
| Generator.SpanIdsUnique | libs/playground-wasm/src/generator.rs:127-187 | No two spans of a run share an id |
| Generator.TimesFit | libs/playground-wasm/src/generator.rs:129-182 | If the time is a window away from both ends of the 64-bit range, no time or duration leaves it |
| Generator.GenerateLogs | libs/playground-wasm/src/generator.rs:231-263 | The loop returns the logs as a function of seed and time |
| Generator.OneLogPerSpan | libs/playground-wasm/src/generator.rs:231-263 | There is one log per span with its ids, time, service and environment; the log of an error span has severity ERROR and says that the request failed, any other WARN or INFO and that it completed |

## Left out

- Gates.ValidateSpec: message texts, and the multiplicity of findings for repeated ids in `refines` or repeated
  requirement entries, are not modelled; the findings of the other checks are a parameter, since none of those checks reads
  the stage or the date. Expiry dates are day numbers.
- Transport.InMemoryTransport.Subscribe: a panic is a call that changes nothing, at the end of the counter too, as
  `Cargo.toml:26-27` keeps overflow checks on in release builds; memory that runs out is not modelled.
- FilterSql.FiltersRoundTrip: how a value is read as a floating-point number and rendered is a parameter, whose results are
  words, perhaps after a minus sign; of the escape sequences of ClickHouse literals the reader knows those of newline, tab, carriage return
  and zero, and takes any other escaped character as itself.
- Durations.TimeExprAgrees: seconds are exact numbers, not the floating-point product of the source.
- CounterSql.RatesSumToIncrease: a quotient by zero is no number, whatever the database makes of it.
- CounterSql.IncreaseTelescopes: values are exact numbers and the frame function is modelled for distinct times in a
  series; window and filter clauses select the rows beforehand, and `group_by` is not modelled.
- Fetch.FetchAll: downloads, threads and cancellation of what is still pending after a failure are not modelled; every
  choice of completed downloads is.
- NpmMaterials.SourcePlan: starts from the parsed lock file; base64, SHA-512, hexadecimal text, path and URL checks, the
  archive layout check and the canonical manifest text are parameters.
- NpmMaterials.StageBundle: starts from the parsed manifest, so malformed JSON and extra keys are not modelled, nor is the
  check that the output directory is new.
- CargoLock.ReadLock: starts from the parsed lock file; the manifest checks before it and the sorting of the packages after
  it are not modelled.
- NpmMaterials.BundleIgnoresSchedule: SHA-512 is taken to be injective.
- CargoMaterials.Materialize: SHA-256 is taken to be injective; decompression, and the paths, sizes and padding of an archive,
  are those of a reading that is a parameter.
- CargoStage.Stage: starts from the parsed manifest; the committed workspace files are a parameter, and the result file is
  not modelled.
- CargoStage.MaterializedIsStaged: limits of the file system, on the length of a name or path, on free space or on names
  that differ in case alone, are not modelled; an archive that meets one of them is prepared and fails when it is unpacked.
- GitBatch.GitSnapshot.ReadMany: the entries come from the parsed tree listing, whitespace and digits are those of ASCII,
  and what the dictionary holds after a failed read is not stated.
- Dockerfile.StageGraphLoop: lower case, blanks and digits are those of ASCII; the patterns that read a RUN line are a
  parameter.
- Inventory.Collect: the digest of the recipe, the npm workspace check and the final list of modes and digests are not
  modelled.
- ReleaseAdapter.PublishedForever: how a release is recorded after publication is not in the repository's code; the model
  records the built digest, and the evidence after a completion, with serialized writers. Malformed JSON and the path
  `allow_initial_miss_with_history` are not modelled.
- Generator.GenerateSpans: times stay numbers where the source prints decimals, and the comparison of a drawn fraction with
  a weight is exact.
- BuildArgs.EffectiveBuildArgs: overrides that are not a dictionary of texts are not modelled, and the check that an
  endpoint carries no credentials is a parameter.
- The digest of declared inputs: settled by reading it.
- Metrics and change events of the generator, histogram and quantile queries, catalog and log queries: formatting, or
  functions of the database.
- Backstage, Structurizr and Mermaid export, drift and isolation checks, JUnit import: file scanning and formatting.
- HTTP, TLS, Docker, git subprocesses, tar, gzip, TOML and JSON parsing: library code and I/O.

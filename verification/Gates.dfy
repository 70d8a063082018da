/** Stage gates and waivers: the error collection and the filter of `validate_spec`. */
module Gates {
  import opened Basics
  import opened SpecModel
  import opened EvidenceState
  import opened Reach
  import Cycles
  import Resolve
  import Impact
  import Waves
  import ChangePlan

  /** The modelled rows of the invariant table; `Other` stands for a row whose check reads neither stage nor date. */
  datatype Rule =
    | DuplicateId | WaiverForm | WaiverExpired
    | DependencyCycle | DomainCycle | RequirementCycle
    | SkippedChecks | FailingEvidence | MissingEvidence | UnverifiedDependency | UnverifiedRefinement
    | UnverifiedMitigation | WaiverAtRelease
    | Other(id: string, at: Stage, waivable: Option<string>)
  {
    function Id(): string {
      match this
      case DuplicateId => "REF-01"
      case WaiverForm => "RISK-01"
      case WaiverExpired => "RISK-02"
      case DependencyCycle => "COMP-06"
      case DomainCycle => "DOM-03"
      case RequirementCycle => "REQ-02"
      case SkippedChecks => "EV-05"
      case FailingEvidence => "REQ-04"
      case MissingEvidence => "REQ-05"
      case UnverifiedDependency => "REQ-06"
      case UnverifiedRefinement => "REQ-08"
      case UnverifiedMitigation => "RISK-04"
      case WaiverAtRelease => "RISK-08"
      case Other(id, _, _) => id
    }

    function Gate(): Stage {
      match this
      case DuplicateId | WaiverForm | WaiverExpired => Inventory
      case DependencyCycle | DomainCycle => Architecture
      case RequirementCycle => Verification
      case Other(_, at, _) => at
      case _ => Release
    }

    /** The waiver kind, for the rules that can be waived. */
    function Kind(): Option<string> {
      match this
      case DependencyCycle | DomainCycle => Some("dependency-cycle")
      case Other(_, _, kind) => kind
      case _ => None
    }
  }

  /** One collected error: its rule, the ids its message names, and the subjects a waiver can target. */
  datatype Finding = Finding(rule: Rule, args: seq<string>, subjects: set<string>)

  /* ----- waivers ----- */

  predicate Expired(x: Expiry, stage: Stage, today: int) {
    match x
    case OnDay(day) => day < today
    case AtStage(s) => s.Index() < stage.Index()
  }

  predicate IsWaiver(k: Risk) { k.waives.Some? && k.waives.value != "" }

  predicate WellFormedWaiver(k: Risk) {
    (k.treatment == Mitigation || k.treatment == Acceptance) && k.mitigatedBy != [] && k.expires.Some?
  }

  predicate IsActiveWaiver(k: Risk, stage: Stage, today: int) {
    IsWaiver(k) && WellFormedWaiver(k) && stage != Release && !Expired(k.expires.value, stage, today)
  }

  function ActiveWaivers(spec: Spec, stage: Stage, today: int): set<Risk> {
    set k | k in spec.risks && IsActiveWaiver(k, stage, today)
  }

  predicate Waives(k: Risk, f: Finding, systemId: string) {
    k.waives.Some? && (k.waives.value == f.rule.Id() || (f.rule.Kind().Some? && k.waives.value == f.rule.Kind().value))
    && k.target in f.subjects + {systemId}
  }

  /** A rule without a waiver kind cannot be waived, not even by its id. */
  predicate IsWaived(f: Finding, waivers: set<Risk>, systemId: string) {
    f.rule.Kind().Some? && exists k :: k in waivers && Waives(k, f, systemId)
  }

  /* ----- the collected errors, check by check ----- */

  function FlatMap<T, U>(xs: seq<T>, g: T -> seq<U>): seq<U> {
    if xs == [] then [] else FlatMap(xs[..|xs| - 1], g) + g(xs[|xs| - 1])
  }

  lemma {:induction false} FlatMapHas<T(!new), U>(xs: seq<T>, g: T -> seq<U>, u: U)
    ensures u in FlatMap(xs, g) <==> exists x :: x in xs && u in g(x)
  {
    if xs != [] {
      var last := |xs| - 1;
      FlatMapHas(xs[..last], g, u);
      assert xs == xs[..last] + [xs[last]];
    }
  }

  function Plain(rule: Rule, args: seq<string>): Finding { Finding(rule, args, {}) }

  function WhenFinding(c: bool, f: Finding): seq<Finding> { if c then [f] else [] }

  function RiskForm(stage: Stage, today: int): Risk -> seq<Finding> {
    (k: Risk) =>
      if !IsWaiver(k) then []
      else if !WellFormedWaiver(k) then [Plain(WaiverForm, [k.id])]
      else WhenFinding(Expired(k.expires.value, stage, today), Plain(WaiverExpired, [k.id]))
  }

  function Ids(reqs: seq<Requirement>): (ids: seq<string>)
    ensures |ids| == |reqs| && forall i | 0 <= i < |ids| :: ids[i] == reqs[i].id
  {
    seq(|reqs|, i requires 0 <= i < |reqs| => reqs[i].id)
  }

  /** The ids that occur more than once. */
  function Repeated(ids: seq<string>): seq<string> {
    if ids == [] then []
    else
      var last := ids[|ids| - 1];
      var before := ids[..|ids| - 1];
      Repeated(before) + if last in before && last !in Repeated(before) then [last] else []
  }

  function DuplicateFinding(): string -> seq<Finding> { id => [Plain(DuplicateId, [id])] }

  function CycleFinding(cy: seq<string>): Finding { Finding(DependencyCycle, cy, ToSet(cy)) }

  function DependencyCycleFinding(): seq<string> -> seq<Finding> { (cy: seq<string>) => [CycleFinding(cy)] }

  function DomainIds(spec: Spec): set<string> { set d | d in spec.domains :: d.id }

  function KeepIn(xs: seq<string>, s: set<string>): seq<string> {
    if xs == [] then [] else (if xs[0] in s then [xs[0]] else []) + KeepIn(xs[1..], s)
  }

  function PutNode(g: Cycles.Graph, n: string, succ: seq<string>): Cycles.Graph {
    Cycles.Graph(if n in g.adj then g.keys else g.keys + [n], g.adj[n := succ])
  }

  function DomainGraph(ids: set<string>, domains: seq<Domain>): (g: Cycles.Graph)
    ensures Cycles.WellFormed(g)
  {
    if domains == [] then Cycles.Graph([], map[])
    else
      var d := domains[|domains| - 1];
      PutNode(DomainGraph(ids, domains[..|domains| - 1]), d.id, KeepIn(d.uses, ids))
  }

  function RequirementGraph(reqs: seq<Requirement>): (g: Cycles.Graph)
    ensures Cycles.WellFormed(g)
  {
    if reqs == [] then Cycles.Graph([], map[])
    else
      var r := reqs[|reqs| - 1];
      PutNode(RequirementGraph(reqs[..|reqs| - 1]), r.id, r.dependsOn + r.elaborates)
  }

  /** The components in a domain of the cycle. */
  function InDomains(spec: Spec, cy: seq<string>): set<string> {
    set c | c in spec.components && c.domain.Some? && c.domain.value in cy :: c.id
  }

  function DomainFinding(spec: Spec, cy: seq<string>): Finding { Finding(DomainCycle, cy, InDomains(spec, cy)) }

  function DomainCycleFinding(spec: Spec): seq<string> -> seq<Finding> {
    (cy: seq<string>) => [DomainFinding(spec, cy)]
  }

  function RequirementCycleFinding(): seq<string> -> seq<Finding> {
    (cy: seq<string>) => [Plain(RequirementCycle, cy)]
  }

  function SkippedFinding(spec: Spec): Evidence -> seq<Finding> {
    (e: Evidence) => WhenFinding(e.id !in Superseded(spec) && e.skipped != [], Plain(SkippedChecks, [e.id]))
  }

  function Mitigating(spec: Spec): set<string> {
    set k, m | k in spec.risks && m in k.mitigatedBy :: m
  }

  function UnverifiedKid(active: map<string, Requirement>, ok: set<string>, id: string): Requirement -> seq<Finding> {
    (k: Requirement) =>
      WhenFinding(
        k.id in active && active[k.id] == k && id in k.elaborates && k.id !in ok,
        Plain(UnverifiedRefinement, [id, k.id]))
  }

  function UnverifiedNeeds(spec: Spec, ok: set<string>, id: string): string -> seq<Finding> {
    d => WhenFinding(
      (exists q :: q in spec.requirements && q.id == d) && d !in ok, Plain(UnverifiedDependency, [id, d]))
  }

  function ObligationPart(spec: Spec, ok: set<string>, oblig: set<string>, r: Requirement): seq<Finding> {
    if r.id in oblig && HasFailed(spec, r.id, r.version) then [Plain(FailingEvidence, [r.id, r.version])]
    else WhenFinding(r.id in oblig && r.id !in ok, Plain(MissingEvidence, [r.id, r.version]))
  }

  /** The release findings about one requirement, in the order of the source. */
  function RequirementFindings(
    spec: Spec, active: map<string, Requirement>, ok: set<string>, oblig: set<string>): Requirement -> seq<Finding> {
    (r: Requirement) =>
      if r.id !in active || active[r.id] != r then []
      else
        ObligationPart(spec, ok, oblig, r)
        + if r.id in oblig + Mitigating(spec)
          then FlatMap(spec.requirements, UnverifiedKid(active, ok, r.id))
            + FlatMap(r.dependsOn, UnverifiedNeeds(spec, ok, r.id))
          else []
  }

  function UnverifiedMitigations(spec: Spec, ok: set<string>, id: string): string -> seq<Finding> {
    m => WhenFinding(
      (exists q :: q in spec.requirements && q.id == m) && m !in ok, Plain(UnverifiedMitigation, [id, m]))
  }

  function RiskRelease(spec: Spec, ok: set<string>): Risk -> seq<Finding> {
    (k: Risk) =>
      FlatMap(k.mitigatedBy, UnverifiedMitigations(spec, ok, k.id))
      + WhenFinding(IsWaiver(k), Plain(WaiverAtRelease, [k.id]))
  }

  /** All errors that `validate_spec` collects; `others` holds the findings of the checks that are not modelled. */
  ghost function Collected(spec: Spec, others: seq<Finding>, stage: Stage, today: int): seq<Finding> {
    var active, ok := Active(spec.requirements), VerifiedIds(spec);
    others
    + FlatMap(Repeated(Ids(spec.requirements)), DuplicateFinding())
    + FlatMap(spec.risks, RiskForm(stage, today))
    + FlatMap(Cycles.Find(Resolve.DependencyGraph(spec)), DependencyCycleFinding())
    + FlatMap(Cycles.Find(DomainGraph(DomainIds(spec), spec.domains)), DomainCycleFinding(spec))
    + FlatMap(Cycles.Find(RequirementGraph(spec.requirements)), RequirementCycleFinding())
    + FlatMap(spec.evidence, SkippedFinding(spec))
    + FlatMap(spec.requirements, RequirementFindings(spec, active, ok, Obliged(spec)))
    + FlatMap(spec.risks, RiskRelease(spec, ok))
  }

  predicate Shown(spec: Spec, f: Finding, stage: Stage, today: int) {
    f.rule.Gate().Index() <= stage.Index() && !IsWaived(f, ActiveWaivers(spec, stage, today), spec.systemId)
  }

  function ShownOnly(spec: Spec, fs: seq<Finding>, stage: Stage, today: int): (r: seq<Finding>)
    ensures forall f :: f in r <==> f in fs && Shown(spec, f, stage, today)
  {
    if fs == [] then []
      else (if Shown(spec, fs[0], stage, today) then [fs[0]] else []) + ShownOnly(spec, fs[1..], stage, today)
  }

  /** The list that `validate_spec` returns. */
  ghost function Reported(spec: Spec, others: seq<Finding>, stage: Stage, today: int): seq<Finding> {
    ShownOnly(spec, Collected(spec, others, stage, today), stage, today)
  }

  ghost predicate Accepts(spec: Spec, others: seq<Finding>, stage: Stage, today: int) {
    Reported(spec, others, stage, today) == []
  }

  /* ----- the validator as the source runs it ----- */

  method AppendEach<T>(found: seq<Finding>, xs: seq<T>, g: T -> seq<Finding>) returns (more: seq<Finding>)
    ensures more == found + FlatMap(xs, g)
  {
    more := found;
    for i := 0 to |xs|
      invariant more == found + FlatMap(xs[..i], g)
    {
      assert xs[..i + 1][..i] == xs[..i];
      more := more + g(xs[i]);
    }
    assert xs[..|xs|] == xs;
  }

  method ValidateSpec(spec: Spec, others: seq<Finding>, stage: Stage, today: int) returns (errors: seq<Finding>)
    ensures errors == Reported(spec, others, stage, today)
  {
    var active, ok := Active(spec.requirements), VerifiedIds(spec);
    var found := AppendEach(others, Repeated(Ids(spec.requirements)), DuplicateFinding());
    found := AppendEach(found, spec.risks, RiskForm(stage, today));
    var cycles := Cycles.FindCycles(Resolve.DependencyGraph(spec));
    found := AppendEach(found, cycles, DependencyCycleFinding());
    cycles := Cycles.FindCycles(DomainGraph(DomainIds(spec), spec.domains));
    found := AppendEach(found, cycles, DomainCycleFinding(spec));
    cycles := Cycles.FindCycles(RequirementGraph(spec.requirements));
    found := AppendEach(found, cycles, RequirementCycleFinding());
    found := AppendEach(found, spec.evidence, SkippedFinding(spec));
    var oblig := Obligation(spec);
    found := AppendEach(found, spec.requirements, RequirementFindings(spec, active, ok, oblig));
    found := AppendEach(found, spec.risks, RiskRelease(spec, ok));
    errors := ShownOnly(spec, found, stage, today);
  }

  /* ----- a later gate reports everything an earlier one does ----- */

  lemma ExpiryGrows(x: Expiry, s1: Stage, s2: Stage, today: int)
    requires s1.Index() <= s2.Index() && Expired(x, s1, today)
    ensures Expired(x, s2, today)
  {
  }

  lemma WaiversShrink(spec: Spec, s1: Stage, s2: Stage, today: int)
    requires s1.Index() <= s2.Index()
    ensures ActiveWaivers(spec, s2, today) <= ActiveWaivers(spec, s1, today)
  {
    forall k | k in ActiveWaivers(spec, s2, today) ensures IsActiveWaiver(k, s1, today) {
      assert s1 != Release;
      if Expired(k.expires.value, s1, today) { ExpiryGrows(k.expires.value, s1, s2, today); }
    }
  }

  lemma RiskFormGrows(k: Risk, s1: Stage, s2: Stage, today: int, f: Finding)
    requires s1.Index() <= s2.Index() && f in RiskForm(s1, today)(k)
    ensures f in RiskForm(s2, today)(k)
  {
    if IsWaiver(k) && WellFormedWaiver(k) && Expired(k.expires.value, s1, today) {
      ExpiryGrows(k.expires.value, s1, s2, today);
    }
  }

  lemma RiskFindingsGrow(spec: Spec, s1: Stage, s2: Stage, today: int, f: Finding)
    requires s1.Index() <= s2.Index() && f in FlatMap(spec.risks, RiskForm(s1, today))
    ensures f in FlatMap(spec.risks, RiskForm(s2, today))
  {
    FlatMapHas(spec.risks, RiskForm(s1, today), f);
    var k :| k in spec.risks && f in RiskForm(s1, today)(k);
    RiskFormGrows(k, s1, s2, today, f);
    FlatMapHas(spec.risks, RiskForm(s2, today), f);
  }

  lemma CollectedGrows(spec: Spec, others: seq<Finding>, s1: Stage, s2: Stage, today: int, f: Finding)
    requires s1.Index() <= s2.Index() && f in Collected(spec, others, s1, today)
    ensures f in Collected(spec, others, s2, today)
  {
    if f in FlatMap(spec.risks, RiskForm(s1, today)) { RiskFindingsGrow(spec, s1, s2, today, f); }
  }

  /** Every error reported at a stage is reported at every later stage on the same date. */
  lemma GatesAreMonotone(spec: Spec, others: seq<Finding>, s1: Stage, s2: Stage, today: int, f: Finding)
    requires s1.Index() <= s2.Index() && f in Reported(spec, others, s1, today)
    ensures f in Reported(spec, others, s2, today)
  {
    CollectedGrows(spec, others, s1, s2, today, f);
    WaiversShrink(spec, s1, s2, today);
  }

  /** Passing a gate implies passing every earlier one. */
  lemma LaterGateImpliesEarlier(spec: Spec, others: seq<Finding>, s1: Stage, s2: Stage, today: int)
    requires s1.Index() <= s2.Index() && Accepts(spec, others, s2, today)
    ensures Accepts(spec, others, s1, today)
  {
    if Reported(spec, others, s1, today) != [] {
      GatesAreMonotone(spec, others, s1, s2, today, Reported(spec, others, s1, today)[0]);
    }
  }

  /* ----- what acceptance says about dependency cycles ----- */

  ghost predicate CycleWaiver(k: Risk) {
    k.waives == Some("COMP-06") || k.waives == Some("dependency-cycle")
  }

  lemma CyclesAreCollected(spec: Spec, others: seq<Finding>, stage: Stage, today: int, cy: seq<string>)
    requires cy in Cycles.Find(Resolve.DependencyGraph(spec))
    ensures CycleFinding(cy) in Collected(spec, others, stage, today)
  {
    FlatMapHas(Cycles.Find(Resolve.DependencyGraph(spec)), DependencyCycleFinding(), CycleFinding(cy));
    assert CycleFinding(cy) in DependencyCycleFinding()(cy);
  }

  lemma CycleWaivedBy(k: Risk, cy: seq<string>, systemId: string)
    ensures Waives(k, CycleFinding(cy), systemId) <==> CycleWaiver(k) && k.target in ToSet(cy) + {systemId}
  {
  }

  /** From the architecture gate on, a found cycle goes unreported exactly when a waiver in force names the rule or its
      kind and targets a component of the cycle or the system. */
  lemma CycleReportedUnlessWaived(spec: Spec, others: seq<Finding>, stage: Stage, today: int, cy: seq<string>)
    requires Architecture.Index() <= stage.Index() && cy in Cycles.Find(Resolve.DependencyGraph(spec))
    ensures CycleFinding(cy) !in Reported(spec, others, stage, today) <==>
              exists k ::
                k in ActiveWaivers(spec, stage, today) && CycleWaiver(k) && k.target in ToSet(cy) + {spec.systemId}
  {
    CyclesAreCollected(spec, others, stage, today, cy);
    CycleShown(spec, stage, today, cy);
  }

  lemma CycleShown(spec: Spec, stage: Stage, today: int, cy: seq<string>)
    requires Architecture.Index() <= stage.Index()
    ensures !Shown(spec, CycleFinding(cy), stage, today) <==>
              exists k ::
                k in ActiveWaivers(spec, stage, today) && CycleWaiver(k) && k.target in ToSet(cy) + {spec.systemId}
  {
    forall k
      ensures Waives(k, CycleFinding(cy), spec.systemId)
              <==> CycleWaiver(k) && k.target in ToSet(cy) + {spec.systemId} {
      CycleWaivedBy(k, cy, spec.systemId);
    }
  }

  /** A gate from architecture on that reports no dependency cycle, with no cycle waiver in force, leaves the
      dependency graph without a cycle, and so every plan of every target is a topological order. */
  lemma AcceptedPlansAreTopological(
    spec: Spec, others: seq<Finding>, stage: Stage, today: int, target: string, waves: seq<set<string>>)
    requires Architecture.Index() <= stage.Index()
    requires forall f | f in Reported(spec, others, stage, today) :: f.rule != DependencyCycle
    requires forall k | k in ActiveWaivers(spec, stage, today) :: !CycleWaiver(k)
    requires ChangePlan.IsSpecPlan(spec, target, waves)
    ensures !Cycles.Cyclic(Resolve.DependencyGraph(spec))
    ensures Waves.IsPartition(waves, Impact.AffectedComponents(spec, target))
    ensures Waves.ProviderFirst(ChangePlan.SpecDeps(spec, target), waves)
    ensures forall i, c | 0 <= i < |waves| && c in waves[i] ::
              Waves.WaveIsLongestChain(ChangePlan.SpecDeps(spec, target), i, c)
  {
    var g := Resolve.DependencyGraph(spec);
    Cycles.ReportsIffCyclic(g);
    if Cycles.Find(g) != [] {
      CycleReportedUnlessWaived(spec, others, stage, today, Cycles.Find(g)[0]);
    }
    ChangePlan.AcyclicPlansAreTopological(spec, target, waves);
  }

  /** At release no waiver is in force. */
  lemma ReleaseHasNoWaivers(spec: Spec, today: int)
    ensures ActiveWaivers(spec, Release, today) == {}
  {
    assert forall k | k in ActiveWaivers(spec, Release, today) :: false;
  }

  /* ----- what release acceptance says about obligations ----- */

  /** The active requirements that refine `p`, read off the requirement list. */
  ghost function Refiners(spec: Spec): string -> set<string> {
    p => set r | r in spec.requirements && r.status != Deprecated && p in r.elaborates :: r.id
  }

  /** The mandatory, declassifying and resolving requirements. */
  ghost function Obligations(spec: Spec): set<string> {
    (set r | r in spec.requirements && r.status != Deprecated && r.mandatory :: r.id)
    + (set d | d in spec.dataModels && d.declassifiedBy.Some? :: d.declassifiedBy.value)
    + (set r | r in spec.requirements && r.status != Deprecated && r.resolvedBy.Some? :: r.resolvedBy.value)
  }

  lemma {:induction false} RepeatedMeans(ids: seq<string>)
    ensures Repeated(ids) == [] ==> forall i, j | 0 <= i < j < |ids| :: ids[i] != ids[j]
  {
    if ids != [] {
      RepeatedMeans(ids[..|ids| - 1]);
      if Repeated(ids) == [] {
        forall i, j | 0 <= i < j < |ids| ensures ids[i] != ids[j] {
          assert ids[i] == ids[..|ids| - 1][i];
        }
      }
    }
  }

  lemma DuplicatesAreReported(spec: Spec, others: seq<Finding>, stage: Stage, today: int, id: string)
    requires id in Repeated(Ids(spec.requirements))
    ensures Plain(DuplicateId, [id]) in Reported(spec, others, stage, today)
  {
    var f := Plain(DuplicateId, [id]);
    assert f in DuplicateFinding()(id);
    FlatMapHas(Repeated(Ids(spec.requirements)), DuplicateFinding(), f);
    assert f in Collected(spec, others, stage, today);
  }

  lemma NoDuplicatesReported(spec: Spec, others: seq<Finding>, stage: Stage, today: int)
    requires forall f | f in Reported(spec, others, stage, today) :: f.rule != DuplicateId
    ensures UniqueIds(spec.requirements)
  {
    var ids := Ids(spec.requirements);
    if Repeated(ids) != [] {
      DuplicatesAreReported(spec, others, stage, today, Repeated(ids)[0]);
    }
    RepeatedMeans(ids);
    forall i, j | 0 <= i < j < |spec.requirements| ensures spec.requirements[i].id != spec.requirements[j].id {
      assert ids[i] != ids[j];
    }
  }

  lemma RefinersAreKids(spec: Spec, p: string)
    requires UniqueIds(spec.requirements)
    ensures Refiners(spec)(p) == KidsOf(Active(spec.requirements))(p)
  {
    var active := Active(spec.requirements);
    forall r | r in spec.requirements && IsActive(r) ensures r.id in active && active[r.id] == r {
      ActiveUnique(spec.requirements, r);
    }
  }

  lemma ObligationsAreSources(spec: Spec)
    requires UniqueIds(spec.requirements)
    ensures Obligations(spec) == Sources(spec, Active(spec.requirements))
  {
    var active := Active(spec.requirements);
    forall r | r in spec.requirements && IsActive(r) ensures r.id in active && active[r.id] == r {
      ActiveUnique(spec.requirements, r);
    }
  }

  lemma ReachableIsObliged(spec: Spec, id: string)
    requires UniqueIds(spec.requirements) && Reachable(Refiners(spec), Obligations(spec), id)
    ensures id in Obliged(spec)
  {
    ObligationsAreSources(spec);
    forall p ensures Refiners(spec)(p) == KidsOf(Active(spec.requirements))(p) { RefinersAreKids(spec, p); }
    ObligedIsLeast(spec, {});
    hide Refiners, KidsOf, Active, Obliged, Obligations, Sources, UniqueIds;
    assert Closed(Refiners(spec), Obliged(spec));
    ReachableInClosed(Refiners(spec), Obligations(spec), Obliged(spec));
  }

  lemma {:induction false} AllShown(spec: Spec, fs: seq<Finding>, stage: Stage, today: int)
    requires forall f | f in fs :: Shown(spec, f, stage, today)
    ensures ShownOnly(spec, fs, stage, today) == fs
  {
    if fs != [] { AllShown(spec, fs[1..], stage, today); }
  }

  /** Release reports everything that is collected, in order: no gate is still ahead and no waiver is in force. */
  lemma ReleaseReportsAll(spec: Spec, others: seq<Finding>, today: int)
    ensures Reported(spec, others, Release, today) == Collected(spec, others, Release, today)
  {
    var fs := Collected(spec, others, Release, today);
    forall f | f in fs ensures Shown(spec, f, Release, today) { ShownAtRelease(spec, today, f); }
    AllShown(spec, fs, Release, today);
  }

  lemma ReleaseShowsAll(spec: Spec, others: seq<Finding>, today: int, f: Finding)
    requires f in Collected(spec, others, Release, today)
    ensures f in Reported(spec, others, Release, today)
  {
    ShownAtRelease(spec, today, f);
  }

  lemma ShownAtRelease(spec: Spec, today: int, f: Finding)
    ensures Shown(spec, f, Release, today)
  {
    ReleaseHasNoWaivers(spec, today);
  }

  function ObligationFinding(spec: Spec, r: Requirement): Finding {
    if HasFailed(spec, r.id, r.version) then Plain(FailingEvidence, [r.id, r.version])
      else Plain(MissingEvidence, [r.id, r.version])
  }

  lemma UnverifiedIsFound(
    spec: Spec, active: map<string, Requirement>, ok: set<string>, oblig: set<string>, r: Requirement)
    requires r.id in active && active[r.id] == r && r.id in oblig && r.id !in ok
    ensures ObligationFinding(spec, r) in RequirementFindings(spec, active, ok, oblig)(r)
  {
    assert ObligationPart(spec, ok, oblig, r) == [ObligationFinding(spec, r)];
    assert RequirementFindings(spec, active, ok, oblig)(r)[0] == ObligationFinding(spec, r);
  }

  /** An obliged active requirement that is not verified is an error of its own at release. */
  lemma UnverifiedIsReported(spec: Spec, others: seq<Finding>, today: int, r: Requirement)
    requires UniqueIds(spec.requirements) && r in spec.requirements && IsActive(r)
    requires r.id in Obliged(spec) && r.id !in VerifiedIds(spec)
    ensures ObligationFinding(spec, r) in Reported(spec, others, Release, today)
  {
    var active, ok, f := Active(spec.requirements), VerifiedIds(spec), ObligationFinding(spec, r);
    ActiveUnique(spec.requirements, r);
    UnverifiedIsFound(spec, active, ok, Obliged(spec), r);
    FlatMapHas(spec.requirements, RequirementFindings(spec, active, ok, Obliged(spec)), f);
    ReleaseShowsAll(spec, others, today, f);
  }

  /** Acceptance at release means that every active requirement that a chain of refinements reaches from a mandatory,
      declassifying or resolving requirement is verified for its current version. */
  lemma ReleaseVerifiesObligations(spec: Spec, others: seq<Finding>, today: int)
    requires Accepts(spec, others, Release, today)
    ensures forall r | r in spec.requirements && r.status != Deprecated
                       && Reachable(Refiners(spec), Obligations(spec), r.id) :: FullyVerified(spec, r)
  {
    NoDuplicatesReported(spec, others, Release, today);
    forall r | r in spec.requirements && IsActive(r) && Reachable(Refiners(spec), Obligations(spec), r.id)
      ensures FullyVerified(spec, r) {
      ReachableIsObliged(spec, r.id);
      VerifiedMeansFull(spec, r);
      if r.id !in VerifiedIds(spec) { UnverifiedIsReported(spec, others, today, r); }
    }
  }

  /* ----- and nothing else is demanded of obligations ----- */

  ghost predicate IsObligationRule(rule: Rule) { rule == FailingEvidence || rule == MissingEvidence }

  /** No item gives the finding. */
  lemma NotMapped<T(!new)>(xs: seq<T>, g: T -> seq<Finding>, f: Finding)
    requires forall x :: f !in g(x)
    ensures f !in FlatMap(xs, g)
  {
    FlatMapHas(xs, g, f);
  }

  lemma OtherChecks(spec: Spec, today: int, f: Finding)
    requires IsObligationRule(f.rule)
    ensures f !in FlatMap(Repeated(Ids(spec.requirements)), DuplicateFinding())
    ensures f !in FlatMap(spec.risks, RiskForm(Release, today))
    ensures f !in FlatMap(Cycles.Find(Resolve.DependencyGraph(spec)), DependencyCycleFinding())
    ensures f !in FlatMap(Cycles.Find(DomainGraph(DomainIds(spec), spec.domains)), DomainCycleFinding(spec))
    ensures f !in FlatMap(Cycles.Find(RequirementGraph(spec.requirements)), RequirementCycleFinding())
    ensures f !in FlatMap(spec.evidence, SkippedFinding(spec))
  {
    NotMapped(Repeated(Ids(spec.requirements)), DuplicateFinding(), f);
    NotMapped(spec.risks, RiskForm(Release, today), f);
    NotMapped(Cycles.Find(Resolve.DependencyGraph(spec)), DependencyCycleFinding(), f);
    NotMapped(Cycles.Find(DomainGraph(DomainIds(spec), spec.domains)), DomainCycleFinding(spec), f);
    NotMapped(Cycles.Find(RequirementGraph(spec.requirements)), RequirementCycleFinding(), f);
    NotMapped(spec.evidence, SkippedFinding(spec), f);
  }

  lemma OtherRequirementParts(
    spec: Spec, active: map<string, Requirement>, ok: set<string>, oblig: set<string>, r: Requirement, f: Finding)
    requires IsObligationRule(f.rule) && f in RequirementFindings(spec, active, ok, oblig)(r)
    ensures r.id in active && active[r.id] == r && f in ObligationPart(spec, ok, oblig, r)
  {
    NotMapped(spec.requirements, UnverifiedKid(active, ok, r.id), f);
    NotMapped(r.dependsOn, UnverifiedNeeds(spec, ok, r.id), f);
  }

  lemma OtherRiskParts(spec: Spec, ok: set<string>, f: Finding)
    requires IsObligationRule(f.rule)
    ensures f !in FlatMap(spec.risks, RiskRelease(spec, ok))
  {
    forall k ensures f !in RiskRelease(spec, ok)(k) {
      NotMapped(k.mitigatedBy, UnverifiedMitigations(spec, ok, k.id), f);
    }
    NotMapped(spec.risks, RiskRelease(spec, ok), f);
  }

  lemma RequirementCheckOnly(spec: Spec, others: seq<Finding>, today: int, f: Finding)
    requires IsObligationRule(f.rule) && f !in others && f in Collected(spec, others, Release, today)
    ensures f in FlatMap(spec.requirements,
              RequirementFindings(spec, Active(spec.requirements), VerifiedIds(spec), Obliged(spec)))
  {
    OtherChecks(spec, today, f);
    OtherRiskParts(spec, VerifiedIds(spec), f);
    hide FlatMap, Repeated, RequirementFindings, RiskRelease, Obliged, VerifiedIds, Active, IsObligationRule;
  }

  lemma PartOrigin(spec: Spec, r: Requirement, f: Finding)
    requires UniqueIds(spec.requirements) && r in spec.requirements && r.id in Active(spec.requirements)
             && Active(spec.requirements)[r.id] == r
    requires f in ObligationPart(spec, VerifiedIds(spec), Obliged(spec), r)
    ensures IsActive(r) && r.id in Obliged(spec) && !FullyVerified(spec, r)
  {
    hide Obliged, FullyVerified;
    VerifiedMeansFull(spec, r);
    if HasFailed(spec, r.id, r.version) { FailedIsUnverified(spec, r); }
  }

  /** A finding about the evidence of an obligation comes from an obliged requirement that is not verified. */
  lemma ObligationOrigin(spec: Spec, others: seq<Finding>, today: int, f: Finding) returns (r: Requirement)
    requires UniqueIds(spec.requirements) && IsObligationRule(f.rule) && f !in others
    requires f in Collected(spec, others, Release, today)
    ensures r in spec.requirements && IsActive(r) && r.id in Obliged(spec) && !FullyVerified(spec, r)
  {
    var g := RequirementFindings(spec, Active(spec.requirements), VerifiedIds(spec), Obliged(spec));
    RequirementCheckOnly(spec, others, today, f);
    FlatMapHas(spec.requirements, g, f);
    r :| r in spec.requirements && f in g(r);
    OtherRequirementParts(spec, Active(spec.requirements), VerifiedIds(spec), Obliged(spec), r, f);
    hide Obliged, FullyVerified, VerifiedIds, ObligationPart, RequirementFindings;
    PartOrigin(spec, r, f);
  }

  lemma FailedIsUnverified(spec: Spec, r: Requirement)
    requires r.id in Active(spec.requirements) && Active(spec.requirements)[r.id] == r
             && HasFailed(spec, r.id, r.version)
    ensures r.id !in VerifiedIds(spec)
  {
  }

  /** Obliged are exactly the requirements that a chain of refinements reaches from an obligation. */
  lemma ObligedIffReachable(spec: Spec, id: string)
    requires UniqueIds(spec.requirements)
    ensures id in Obliged(spec) <==> Reachable(Refiners(spec), Obligations(spec), id)
  {
    if Reachable(Refiners(spec), Obligations(spec), id) { ReachableIsObliged(spec, id); }
    if id in Obliged(spec) {
      ObligationsAreSources(spec);
      forall p ensures Refiners(spec)(p) == KidsOf(Active(spec.requirements))(p) { RefinersAreKids(spec, p); }
      ObligedIsReach(spec);
      SameSteps(KidsOf(Active(spec.requirements)), Refiners(spec), Obligations(spec), id);
    }
  }

  /** An active requirement that a chain of refinements reaches from an obligation and that is not verified. */
  ghost predicate IsUnmet(spec: Spec, r: Requirement) {
    r in spec.requirements && r.status != Deprecated && Reachable(Refiners(spec), Obligations(spec), r.id)
    && !FullyVerified(spec, r)
  }

  /** With distinct ids, release reports a finding about the evidence of an obligation exactly when an obligation is
      unmet: the checks demand no more than the closure of the obligations under refinement, and no less. */
  lemma ObligationFindingsIffUnmet(spec: Spec, others: seq<Finding>, today: int)
    requires UniqueIds(spec.requirements) && forall f | f in others :: !IsObligationRule(f.rule)
    ensures (exists f :: f in Reported(spec, others, Release, today) && IsObligationRule(f.rule))
            <==> exists r :: IsUnmet(spec, r)
  {
    hide IsUnmet, Reported, UniqueIds;
    if f :| f in Reported(spec, others, Release, today) && IsObligationRule(f.rule) {
      UnmetOf(spec, others, today, f);
    }
    if r :| IsUnmet(spec, r) {
      UnmetIsReported(spec, others, today, r);
    }
  }

  lemma UnmetOf(spec: Spec, others: seq<Finding>, today: int, f: Finding)
    requires UniqueIds(spec.requirements) && f !in others && f in Reported(spec, others, Release, today)
             && IsObligationRule(f.rule)
    ensures exists r :: IsUnmet(spec, r)
  {
    var r := ObligationOrigin(spec, others, today, f);
    ObligedIffReachable(spec, r.id);
    assert IsUnmet(spec, r);
  }

  lemma UnmetIsReported(spec: Spec, others: seq<Finding>, today: int, r: Requirement)
    requires UniqueIds(spec.requirements) && IsUnmet(spec, r)
    ensures ObligationFinding(spec, r) in Reported(spec, others, Release, today)
  {
    ObligedIffReachable(spec, r.id);
    VerifiedMeansFull(spec, r);
    UnverifiedIsReported(spec, others, today, r);
  }
}

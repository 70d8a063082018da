/** Which errors a gate reports, read off the specification: when each rule has a finding and when a waiver hides it. */
module GateMeaning {
  import opened Basics
  import opened SpecModel
  import opened EvidenceState
  import opened Reach
  import opened Gates
  import Cycles
  import Resolve

  /* ----- waivers ----- */

  /** The risk waives something, with a treatment that allows it, a mitigation and an expiry. */
  ghost predicate IsProperWaiver(k: Risk) {
    && k.waives.Some? && k.waives.value != ""
    && (k.treatment == Mitigation || k.treatment == Acceptance)
    && |k.mitigatedBy| > 0 && k.expires.Some?
  }

  /** Its last day is not over, or the stage it expires with is not passed. */
  ghost predicate IsUnexpired(x: Expiry, stage: Stage, today: int) {
    match x
    case OnDay(day) => today <= day
    case AtStage(s) => stage.Index() <= s.Index()
  }

  /** A waiver is in force before release up to and including its last day, or its own stage. */
  lemma InForceMeans(spec: Spec, k: Risk, stage: Stage, today: int)
    ensures k in ActiveWaivers(spec, stage, today) <==>
              k in spec.risks && IsProperWaiver(k) && stage != Release && IsUnexpired(k.expires.value, stage, today)
  {
  }

  /** The waiver names the rule or its kind. */
  ghost predicate NamesRule(waived: string, rule: Rule) {
    match rule
    case DependencyCycle => waived == "COMP-06" || waived == "dependency-cycle"
    case DomainCycle => waived == "DOM-03" || waived == "dependency-cycle"
    case Other(id, _, Some(kind)) => waived == id || waived == kind
    case _ => false
  }

  /** Some waiver in force names the rule and targets a subject of the finding or the system. */
  ghost predicate IsHidden(spec: Spec, f: Finding, stage: Stage, today: int) {
    exists k ::
      && k in spec.risks && IsProperWaiver(k) && stage != Release && IsUnexpired(k.expires.value, stage, today)
      && NamesRule(k.waives.value, f.rule) && (k.target in f.subjects || k.target == spec.systemId)
  }

  lemma HiddenMeans(spec: Spec, f: Finding, stage: Stage, today: int)
    ensures IsWaived(f, ActiveWaivers(spec, stage, today), spec.systemId) <==> IsHidden(spec, f, stage, today)
  {
    forall k ensures k in ActiveWaivers(spec, stage, today) <==>
                       k in spec.risks && IsProperWaiver(k) && stage != Release
                       && IsUnexpired(k.expires.value, stage, today) {
      InForceMeans(spec, k, stage, today);
    }
    forall k | k in ActiveWaivers(spec, stage, today)
      ensures f.rule.Kind().Some? && Waives(k, f, spec.systemId) <==>
                NamesRule(k.waives.value, f.rule) && (k.target in f.subjects || k.target == spec.systemId) {
      WaivesMeans(k, f, spec.systemId);
    }
    hide ActiveWaivers, IsUnexpired, IsProperWaiver, NamesRule, Waives;
    hide Rule.Kind;
  }

  lemma WaivesMeans(k: Risk, f: Finding, systemId: string)
    requires k.waives.Some?
    ensures f.rule.Kind().Some? && Waives(k, f, systemId) <==>
              NamesRule(k.waives.value, f.rule) && (k.target in f.subjects || k.target == systemId)
  {
  }

  /** The index of a stage is its place in the list of stages. */
  lemma StagesInOrder(stage: Stage)
    ensures stage.Index() < 5 && [Inventory, Discovery, Architecture, Verification, Release][stage.Index()] == stage
  {
  }

  /** The gate of the rule is reached. */
  ghost predicate IsReached(rule: Rule, stage: Stage) {
    match rule
    case DuplicateId => true
    case WaiverForm => true
    case WaiverExpired => true
    case DependencyCycle => stage != Inventory && stage != Discovery
    case DomainCycle => stage != Inventory && stage != Discovery
    case RequirementCycle => stage == Verification || stage == Release
    case Other(_, at, _) => at.Index() <= stage.Index()
    case _ => stage == Release
  }

  lemma ShownMeans(spec: Spec, f: Finding, stage: Stage, today: int)
    ensures Shown(spec, f, stage, today) <==> IsReached(f.rule, stage) && !IsHidden(spec, f, stage, today)
  {
    HiddenMeans(spec, f, stage, today);
    hide IsWaived, IsHidden;
  }

  /* ----- when a rule has a finding ----- */

  /** The requirement is not deprecated, and a chain of refinements reaches it from an obligation. */
  ghost predicate IsObliged(spec: Spec, r: Requirement) {
    r in spec.requirements && r.status != Deprecated && Reachable(Refiners(spec), Obligations(spec), r.id)
  }

  /** The requirement is not deprecated, and is obliged or mitigates a risk. */
  ghost predicate IsRelied(spec: Spec, r: Requirement) {
    r in spec.requirements && r.status != Deprecated
    && (Reachable(Refiners(spec), Obligations(spec), r.id) || exists k :: k in spec.risks && r.id in k.mitigatedBy)
  }

  /** A requirement has the id, and none that is not deprecated and has it is verified. */
  ghost predicate IsUnverified(spec: Spec, id: string) {
    && (exists q :: q in spec.requirements && q.id == id)
    && !exists q :: q in spec.requirements && q.id == id && q.status != Deprecated && FullyVerified(spec, q)
  }

  ghost predicate IsFailing(spec: Spec, r: Requirement) { exists e :: Counts(spec, r, e) && !e.passed }

  ghost predicate IsCountingSkip(spec: Spec, e: Evidence) {
    && e in spec.evidence && e.skipped != []
    && !exists s :: s in spec.evidence && s.passed && s.supersedes == Some(e.id) && e.id != ""
                    && s.supersessionReason.Some? && s.supersessionReason.value != ""
  }

  /** What the rule of the finding says of the specification. */
  ghost predicate IsDue(spec: Spec, stage: Stage, today: int, f: Finding) {
    match f.rule
    case DuplicateId =>
      f.subjects == {} && exists i, j ::
        0 <= i < j < |spec.requirements| && spec.requirements[i].id == spec.requirements[j].id
        && f.args == [spec.requirements[i].id]
    case WaiverForm =>
      f.subjects == {} && exists k ::
        k in spec.risks && k.waives.Some? && k.waives.value != "" && !IsProperWaiver(k) && f.args == [k.id]
    case WaiverExpired =>
      f.subjects == {} && exists k ::
        k in spec.risks && IsProperWaiver(k) && !IsUnexpired(k.expires.value, stage, today) && f.args == [k.id]
    case DependencyCycle =>
      f.args in Cycles.Find(Resolve.DependencyGraph(spec)) && forall s :: s in f.subjects <==> s in f.args
    case DomainCycle =>
      f.args in Cycles.Find(DomainGraph(DomainIds(spec), spec.domains))
      && forall s :: s in f.subjects <==>
           exists c :: c in spec.components && c.id == s && c.domain.Some? && c.domain.value in f.args
    case RequirementCycle => f.args in Cycles.Find(RequirementGraph(spec.requirements)) && f.subjects == {}
    case SkippedChecks => f.subjects == {} && exists e :: IsCountingSkip(spec, e) && f.args == [e.id]
    case FailingEvidence =>
      f.subjects == {} && exists r :: IsObliged(spec, r) && IsFailing(spec, r) && f.args == [r.id, r.version]
    case MissingEvidence =>
      f.subjects == {} && exists r ::
        IsObliged(spec, r) && !IsFailing(spec, r) && !FullyVerified(spec, r) && f.args == [r.id, r.version]
    case UnverifiedRefinement =>
      f.subjects == {} && exists r, k ::
        IsRelied(spec, r) && k in spec.requirements && k.status != Deprecated && r.id in k.elaborates
        && !FullyVerified(spec, k) && f.args == [r.id, k.id]
    case UnverifiedDependency =>
      f.subjects == {} && exists r, d ::
        IsRelied(spec, r) && d in r.dependsOn && IsUnverified(spec, d) && f.args == [r.id, d]
    case UnverifiedMitigation =>
      f.subjects == {} && exists k, m ::
        k in spec.risks && m in k.mitigatedBy && IsUnverified(spec, m) && f.args == [k.id, m]
    case WaiverAtRelease =>
      f.subjects == {} && exists k :: k in spec.risks && k.waives.Some? && k.waives.value != "" && f.args == [k.id]
    case Other(_, _, _) => false
  }

  /* ----- check by check ----- */

  lemma {:induction false} RepeatedIff(ids: seq<string>, id: string)
    ensures id in Repeated(ids) <==> exists i, j :: 0 <= i < j < |ids| && ids[i] == ids[j] == id
  {
    if ids != [] {
      var n := |ids| - 1;
      var before := ids[..n];
      RepeatedIff(before, id);
      if i, j :| 0 <= i < j < |ids| && ids[i] == ids[j] == id {
        if j < n {
          assert before[i] == ids[i] && before[j] == ids[j];
        } else {
          assert before[i] == ids[i];
        }
      }
      if id in Repeated(ids) && id !in Repeated(before) {
        var i :| 0 <= i < |before| && before[i] == id;
        assert ids[i] == ids[n] == id;
      }
      if i, j :| 0 <= i < j < |before| && before[i] == before[j] == id {
        assert ids[i] == ids[j] == id;
      }
    }
  }

  lemma DuplicatesMean(spec: Spec, stage: Stage, today: int, f: Finding)
    ensures f in FlatMap(Repeated(Ids(spec.requirements)), DuplicateFinding()) <==>
              f.rule == DuplicateId && IsDue(spec, stage, today, f)
  {
    var ids := Ids(spec.requirements);
    FlatMapHas(Repeated(ids), DuplicateFinding(), f);
    hide FlatMap, Repeated;
    if id :| id in Repeated(ids) && f in DuplicateFinding()(id) {
      RepeatedIff(ids, id);
      var i, j :| 0 <= i < j < |ids| && ids[i] == ids[j] == id;
      assert spec.requirements[i].id == spec.requirements[j].id;
    }
    if f.rule == DuplicateId && IsDue(spec, stage, today, f) {
      var i, j :| 0 <= i < j < |spec.requirements| && spec.requirements[i].id == spec.requirements[j].id
        && f.args == [spec.requirements[i].id];
      RepeatedIff(ids, ids[i]);
      assert ids[i] == ids[j];
      assert f in DuplicateFinding()(ids[i]);
    }
  }

  lemma WaiverFormsMean(spec: Spec, stage: Stage, today: int, f: Finding)
    ensures f in FlatMap(spec.risks, RiskForm(stage, today)) <==>
              (f.rule == WaiverForm || f.rule == WaiverExpired) && IsDue(spec, stage, today, f)
  {
    FlatMapHas(spec.risks, RiskForm(stage, today), f);
    forall k ensures f in RiskForm(stage, today)(k) <==>
                       || (k.waives.Some? && k.waives.value != "" && !IsProperWaiver(k)
                           && f == Finding(WaiverForm, [k.id], {}))
                       || (IsProperWaiver(k) && !IsUnexpired(k.expires.value, stage, today)
                           && f == Finding(WaiverExpired, [k.id], {})) {
      RiskFormMeans(k, stage, today, f);
    }
    hide IsProperWaiver, IsUnexpired, RiskForm, FlatMap;
  }

  lemma RiskFormMeans(k: Risk, stage: Stage, today: int, f: Finding)
    ensures f in RiskForm(stage, today)(k) <==>
              || (k.waives.Some? && k.waives.value != "" && !IsProperWaiver(k)
                  && f == Finding(WaiverForm, [k.id], {}))
              || (IsProperWaiver(k) && !IsUnexpired(k.expires.value, stage, today)
                  && f == Finding(WaiverExpired, [k.id], {}))
  {
  }

  lemma CyclesMean(spec: Spec, stage: Stage, today: int, f: Finding)
    ensures f in FlatMap(Cycles.Find(Resolve.DependencyGraph(spec)), DependencyCycleFinding()) <==>
              f.rule == DependencyCycle && IsDue(spec, stage, today, f)
    ensures f in FlatMap(Cycles.Find(DomainGraph(DomainIds(spec), spec.domains)), DomainCycleFinding(spec)) <==>
              f.rule == DomainCycle && IsDue(spec, stage, today, f)
    ensures f in FlatMap(Cycles.Find(RequirementGraph(spec.requirements)), RequirementCycleFinding()) <==>
              f.rule == RequirementCycle && IsDue(spec, stage, today, f)
  {
    hide FlatMap, Cycles.Find, Resolve.DependencyGraph, DomainGraph, RequirementGraph;
    FlatMapHas(Cycles.Find(Resolve.DependencyGraph(spec)), DependencyCycleFinding(), f);
    FlatMapHas(Cycles.Find(DomainGraph(DomainIds(spec), spec.domains)), DomainCycleFinding(spec), f);
    FlatMapHas(Cycles.Find(RequirementGraph(spec.requirements)), RequirementCycleFinding(), f);
    forall cy: seq<string>
      ensures f in DependencyCycleFinding()(cy) <==>
                f.rule == DependencyCycle && f.args == cy && forall s :: s in f.subjects <==> s in cy
      ensures f in DomainCycleFinding(spec)(cy) <==>
                f.rule == DomainCycle && f.args == cy && forall s :: s in f.subjects <==>
                  exists c :: c in spec.components && c.id == s && c.domain.Some? && c.domain.value in cy
      ensures f in RequirementCycleFinding()(cy) <==> f == Finding(RequirementCycle, cy, {})
    {
      CycleFindingMeans(cy, f);
      DomainFindingMeans(spec, cy, f);
    }
  }

  lemma CycleFindingMeans(cy: seq<string>, f: Finding)
    ensures f == CycleFinding(cy) <==>
              f.rule == DependencyCycle && f.args == cy && forall s :: s in f.subjects <==> s in cy
  {
    assert forall s :: s in ToSet(cy) <==> s in cy;
    if f.rule == DependencyCycle && f.args == cy && forall s :: s in f.subjects <==> s in cy {
      assert f.subjects == ToSet(cy);
    }
  }

  lemma DomainFindingMeans(spec: Spec, cy: seq<string>, f: Finding)
    ensures f == DomainFinding(spec, cy) <==>
              f.rule == DomainCycle && f.args == cy && forall s :: s in f.subjects <==>
                exists c :: c in spec.components && c.id == s && c.domain.Some? && c.domain.value in cy
  {
    if f.rule == DomainCycle && f.args == cy && forall s :: s in f.subjects <==>
         exists c :: c in spec.components && c.id == s && c.domain.Some? && c.domain.value in cy {
      assert f.subjects == InDomains(spec, cy);
    }
  }

  lemma SkipsMean(spec: Spec, stage: Stage, today: int, f: Finding)
    ensures f in FlatMap(spec.evidence, SkippedFinding(spec)) <==>
              f.rule == SkippedChecks && IsDue(spec, stage, today, f)
  {
    FlatMapHas(spec.evidence, SkippedFinding(spec), f);
    forall e | e in spec.evidence
      ensures f in SkippedFinding(spec)(e) <==> IsCountingSkip(spec, e) && f == Finding(SkippedChecks, [e.id], {}) {
      SkipMeans(spec, e);
    }
    hide Superseded, FlatMap, SkippedFinding;
    assert forall e | IsCountingSkip(spec, e) :: e in spec.evidence;
    hide IsCountingSkip;
  }

  lemma SkipMeans(spec: Spec, e: Evidence)
    requires e in spec.evidence
    ensures IsCountingSkip(spec, e) <==> e.id !in Superseded(spec) && e.skipped != []
  {
    SupersededMeans(spec, e.id);
    hide Superseded;
  }

  /* ----- the checks of release ----- */

  ghost predicate IsCurrent(spec: Spec, r: Requirement) {
    r.id in Active(spec.requirements) && Active(spec.requirements)[r.id] == r
  }

  lemma CurrentMeans(spec: Spec)
    requires UniqueIds(spec.requirements)
    ensures forall r :: IsCurrent(spec, r) <==> r in spec.requirements && r.status != Deprecated
    ensures forall r, q | IsCurrent(spec, r) && q in spec.requirements && q.id == r.id :: q == r
  {
    forall r | r in spec.requirements && r.status != Deprecated ensures IsCurrent(spec, r) {
      ActiveUnique(spec.requirements, r);
    }
    forall r, q | IsCurrent(spec, r) && q in spec.requirements && q.id == r.id ensures q == r {
      var i :| 0 <= i < |spec.requirements| && spec.requirements[i] == r;
      var j :| 0 <= j < |spec.requirements| && spec.requirements[j] == q;
    }
  }

  lemma VerifiedIdMeans(spec: Spec, id: string)
    requires UniqueIds(spec.requirements)
    ensures id in VerifiedIds(spec) <==>
              exists q :: q in spec.requirements && q.id == id && q.status != Deprecated && FullyVerified(spec, q)
  {
    CurrentMeans(spec);
    hide FullyVerified, IsVerified;
    if id in VerifiedIds(spec) {
      var q := Active(spec.requirements)[id];
      assert IsCurrent(spec, q);
      VerifiedMeansFull(spec, q);
    }
    if q :| q in spec.requirements && q.id == id && q.status != Deprecated && FullyVerified(spec, q) {
      VerifiedMeansFull(spec, q);
    }
  }

  /** Verification of the one requirement with the id. */
  lemma VerifiedOneMeans(spec: Spec, r: Requirement)
    requires UniqueIds(spec.requirements) && r in spec.requirements && r.status != Deprecated
    ensures r.id in VerifiedIds(spec) <==> FullyVerified(spec, r)
  {
    VerifiedMeansFull(spec, r);
  }

  lemma UnverifiedMeans(spec: Spec, id: string)
    requires UniqueIds(spec.requirements)
    ensures (exists q :: q in spec.requirements && q.id == id) && id !in VerifiedIds(spec) <==> IsUnverified(spec, id)
  {
    VerifiedIdMeans(spec, id);
    hide FullyVerified, VerifiedIds;
  }

  lemma ReliedMeans(spec: Spec, r: Requirement)
    requires UniqueIds(spec.requirements)
    ensures IsCurrent(spec, r) && r.id in Obliged(spec) <==> IsObliged(spec, r)
    ensures IsCurrent(spec, r) && r.id in Obliged(spec) + Mitigating(spec) <==> IsRelied(spec, r)
  {
    CurrentMeans(spec);
    ObligedIffReachable(spec, r.id);
    hide Obliged, IsCurrent, Refiners, Obligations, Reachable;
  }

  lemma PartMeans(spec: Spec, r: Requirement, f: Finding)
    requires UniqueIds(spec.requirements) && IsCurrent(spec, r)
    ensures f in ObligationPart(spec, VerifiedIds(spec), Obliged(spec), r) <==>
              || (IsObliged(spec, r) && IsFailing(spec, r) && f == Finding(FailingEvidence, [r.id, r.version], {}))
              || (IsObliged(spec, r) && !IsFailing(spec, r) && !FullyVerified(spec, r)
                  && f == Finding(MissingEvidence, [r.id, r.version], {}))
  {
    ReliedMeans(spec, r);
    CurrentMeans(spec);
    VerifiedOneMeans(spec, r);
    HasFailedMeans(spec, r);
    hide Obliged, VerifiedIds, FullyVerified, HasFailed, IsObliged, Counts;
  }

  lemma RefinementsMean(spec: Spec, r: Requirement, f: Finding)
    requires UniqueIds(spec.requirements)
    ensures f in FlatMap(spec.requirements, UnverifiedKid(Active(spec.requirements), VerifiedIds(spec), r.id)) <==>
              exists k :: k in spec.requirements && k.status != Deprecated && r.id in k.elaborates
                && !FullyVerified(spec, k) && f == Finding(UnverifiedRefinement, [r.id, k.id], {})
  {
    var g := UnverifiedKid(Active(spec.requirements), VerifiedIds(spec), r.id);
    FlatMapHas(spec.requirements, g, f);
    forall k | k in spec.requirements
      ensures f in g(k) <==>
                k.status != Deprecated && r.id in k.elaborates && !FullyVerified(spec, k)
                && f == Finding(UnverifiedRefinement, [r.id, k.id], {}) {
      RefinementMeans(spec, r, k, f);
    }
    hide FullyVerified, FlatMap, UnverifiedKid, VerifiedIds, Active;
  }

  lemma RefinementMeans(spec: Spec, r: Requirement, k: Requirement, f: Finding)
    requires UniqueIds(spec.requirements) && k in spec.requirements
    ensures f in UnverifiedKid(Active(spec.requirements), VerifiedIds(spec), r.id)(k) <==>
              k.status != Deprecated && r.id in k.elaborates && !FullyVerified(spec, k)
              && f == Finding(UnverifiedRefinement, [r.id, k.id], {})
  {
    CurrentMeans(spec);
    assert IsCurrent(spec, k) <==> k.status != Deprecated;
    if k.status != Deprecated { VerifiedOneMeans(spec, k); }
    hide VerifiedIds, FullyVerified, Active;
  }

  lemma DependenciesMean(spec: Spec, r: Requirement, f: Finding)
    requires UniqueIds(spec.requirements)
    ensures f in FlatMap(r.dependsOn, UnverifiedNeeds(spec, VerifiedIds(spec), r.id)) <==>
              exists d :: d in r.dependsOn && IsUnverified(spec, d)
                && f == Finding(UnverifiedDependency, [r.id, d], {})
  {
    var g := UnverifiedNeeds(spec, VerifiedIds(spec), r.id);
    FlatMapHas(r.dependsOn, g, f);
    forall d ensures f in g(d) <==> IsUnverified(spec, d) && f == Finding(UnverifiedDependency, [r.id, d], {}) {
      UnverifiedMeans(spec, d);
      hide VerifiedIds, IsUnverified;
    }
    hide IsUnverified, FlatMap, UnverifiedNeeds, VerifiedIds;
  }

  /** What the check of one requirement finds. */
  ghost predicate IsDueFor(spec: Spec, r: Requirement, f: Finding) {
    || (IsObliged(spec, r) && IsFailing(spec, r) && f == Finding(FailingEvidence, [r.id, r.version], {}))
    || (IsObliged(spec, r) && !IsFailing(spec, r) && !FullyVerified(spec, r)
        && f == Finding(MissingEvidence, [r.id, r.version], {}))
    || (IsRelied(spec, r)
        && exists k :: k in spec.requirements && k.status != Deprecated && r.id in k.elaborates
                       && !FullyVerified(spec, k) && f == Finding(UnverifiedRefinement, [r.id, k.id], {}))
    || (IsRelied(spec, r)
        && exists d :: d in r.dependsOn && IsUnverified(spec, d) && f == Finding(UnverifiedDependency, [r.id, d], {}))
  }

  lemma RequirementMeans(spec: Spec, r: Requirement, f: Finding)
    requires UniqueIds(spec.requirements)
    ensures f in RequirementFindings(spec, Active(spec.requirements), VerifiedIds(spec), Obliged(spec))(r)
            <==> IsDueFor(spec, r, f)
  {
    ReliedMeans(spec, r);
    if IsCurrent(spec, r) {
      PartMeans(spec, r, f);
      RefinementsMean(spec, r, f);
      DependenciesMean(spec, r, f);
    }
    hide Obliged, VerifiedIds, FullyVerified, IsObliged, IsRelied, IsFailing, IsUnverified, FlatMap, ObligationPart,
      Mitigating, UnverifiedKid, UnverifiedNeeds, Active;
  }

  lemma RequirementsMean(spec: Spec, stage: Stage, today: int, f: Finding)
    requires UniqueIds(spec.requirements)
    ensures f in FlatMap(spec.requirements,
                         RequirementFindings(spec, Active(spec.requirements), VerifiedIds(spec), Obliged(spec))) <==>
              && (f.rule == FailingEvidence || f.rule == MissingEvidence || f.rule == UnverifiedRefinement
                  || f.rule == UnverifiedDependency)
              && IsDue(spec, stage, today, f)
  {
    var g := RequirementFindings(spec, Active(spec.requirements), VerifiedIds(spec), Obliged(spec));
    FlatMapHas(spec.requirements, g, f);
    forall r ensures f in g(r) <==> IsDueFor(spec, r, f) { RequirementMeans(spec, r, f); }
    hide RequirementFindings, VerifiedIds, Obliged, Active, FlatMap, FullyVerified, IsFailing, IsUnverified;
    assert forall r | IsDueFor(spec, r, f) :: r in spec.requirements;
    hide IsObliged, IsRelied;
    DueForSome(spec, stage, today, f);
    hide IsDue, IsDueFor;
  }

  lemma DueForSome(spec: Spec, stage: Stage, today: int, f: Finding)
    ensures (exists r :: IsDueFor(spec, r, f)) <==>
              && (f.rule == FailingEvidence || f.rule == MissingEvidence || f.rule == UnverifiedRefinement
                  || f.rule == UnverifiedDependency)
              && IsDue(spec, stage, today, f)
  {
    hide IsObliged, IsRelied, FullyVerified, IsFailing, IsUnverified;
    if r :| IsDueFor(spec, r, f) {
      assert IsDue(spec, stage, today, f);
    }
    if f.rule == UnverifiedRefinement && IsDue(spec, stage, today, f) {
      var r, k :| IsRelied(spec, r) && k in spec.requirements && k.status != Deprecated && r.id in k.elaborates
        && !FullyVerified(spec, k) && f.args == [r.id, k.id];
      assert IsDueFor(spec, r, f);
    }
    if f.rule == UnverifiedDependency && IsDue(spec, stage, today, f) {
      var r, d :| IsRelied(spec, r) && d in r.dependsOn && IsUnverified(spec, d) && f.args == [r.id, d];
      assert IsDueFor(spec, r, f);
    }
    if f.rule == FailingEvidence && IsDue(spec, stage, today, f) {
      var r :| IsObliged(spec, r) && IsFailing(spec, r) && f.args == [r.id, r.version];
      assert IsDueFor(spec, r, f);
    }
    if f.rule == MissingEvidence && IsDue(spec, stage, today, f) {
      var r :| IsObliged(spec, r) && !IsFailing(spec, r) && !FullyVerified(spec, r) && f.args == [r.id, r.version];
      assert IsDueFor(spec, r, f);
    }
  }

  /** What the check of one risk at release finds. */
  ghost predicate IsDueForRisk(spec: Spec, k: Risk, f: Finding) {
    || (exists m :: m in k.mitigatedBy && IsUnverified(spec, m) && f == Finding(UnverifiedMitigation, [k.id, m], {}))
    || (k.waives.Some? && k.waives.value != "" && f == Finding(WaiverAtRelease, [k.id], {}))
  }

  lemma RisksMean(spec: Spec, stage: Stage, today: int, f: Finding)
    requires UniqueIds(spec.requirements)
    ensures f in FlatMap(spec.risks, RiskRelease(spec, VerifiedIds(spec))) <==>
              (f.rule == UnverifiedMitigation || f.rule == WaiverAtRelease) && IsDue(spec, stage, today, f)
  {
    var g := RiskRelease(spec, VerifiedIds(spec));
    FlatMapHas(spec.risks, g, f);
    forall k ensures f in g(k) <==> IsDueForRisk(spec, k, f) { RiskMeans(spec, k, f); }
    DueForSomeRisk(spec, stage, today, f);
    hide RiskRelease, VerifiedIds, FlatMap, IsDue, IsDueForRisk;
  }

  lemma RiskMeans(spec: Spec, k: Risk, f: Finding)
    requires UniqueIds(spec.requirements)
    ensures f in RiskRelease(spec, VerifiedIds(spec))(k) <==> IsDueForRisk(spec, k, f)
  {
    var g := UnverifiedMitigations(spec, VerifiedIds(spec), k.id);
    FlatMapHas(k.mitigatedBy, g, f);
    forall m ensures f in g(m) <==> IsUnverified(spec, m) && f == Finding(UnverifiedMitigation, [k.id, m], {}) {
      UnverifiedMeans(spec, m);
      hide VerifiedIds, IsUnverified;
    }
    hide VerifiedIds, IsUnverified, FlatMap, UnverifiedMitigations;
  }

  lemma DueForSomeRisk(spec: Spec, stage: Stage, today: int, f: Finding)
    ensures (exists k :: k in spec.risks && IsDueForRisk(spec, k, f)) <==>
              (f.rule == UnverifiedMitigation || f.rule == WaiverAtRelease) && IsDue(spec, stage, today, f)
  {
    hide IsUnverified;
    if k :| k in spec.risks && IsDueForRisk(spec, k, f) {
      assert IsDue(spec, stage, today, f);
    }
    if f.rule == UnverifiedMitigation && IsDue(spec, stage, today, f) {
      var k, m :| k in spec.risks && m in k.mitigatedBy && IsUnverified(spec, m) && f.args == [k.id, m];
      assert IsDueForRisk(spec, k, f);
    }
    if f.rule == WaiverAtRelease && IsDue(spec, stage, today, f) {
      var k :| k in spec.risks && k.waives.Some? && k.waives.value != "" && f.args == [k.id];
      assert IsDueForRisk(spec, k, f);
    }
  }

  /* ----- what a gate reports ----- */

  lemma DueCases(spec: Spec, stage: Stage, today: int, f: Finding)
    ensures f.rule.Other? ==> !IsDue(spec, stage, today, f)
  {
  }

  /** With distinct requirement ids, what is collected is what some rule says of the specification, besides the findings
      of the other checks. */
  lemma CollectedMeans(spec: Spec, others: seq<Finding>, stage: Stage, today: int, f: Finding)
    requires UniqueIds(spec.requirements)
    ensures f in Collected(spec, others, stage, today) <==> f in others || IsDue(spec, stage, today, f)
  {
    DuplicatesMean(spec, stage, today, f);
    WaiverFormsMean(spec, stage, today, f);
    CyclesMean(spec, stage, today, f);
    SkipsMean(spec, stage, today, f);
    RequirementsMean(spec, stage, today, f);
    RisksMean(spec, stage, today, f);
    DueCases(spec, stage, today, f);
    hide IsDue, UniqueIds, FlatMap, Cycles.Find, Repeated, DomainGraph, RequirementGraph, RequirementFindings, Obliged,
      VerifiedIds, Active, Ids, DomainIds, Resolve.DependencyGraph;
  }

  /** With distinct requirement ids, a gate reports exactly what the other checks find and what some modelled rule says
      of the specification, as far as the gate of the rule is reached and no waiver in force hides the finding. */
  lemma ReportedMeans(spec: Spec, others: seq<Finding>, stage: Stage, today: int, f: Finding)
    requires UniqueIds(spec.requirements)
    ensures f in Reported(spec, others, stage, today) <==>
              && (f in others || IsDue(spec, stage, today, f))
              && IsReached(f.rule, stage) && !IsHidden(spec, f, stage, today)
  {
    CollectedMeans(spec, others, stage, today, f);
    ShownMeans(spec, f, stage, today);
    hide IsDue, UniqueIds, Collected, Shown, IsReached, IsHidden;
  }

  /** Whether or not ids are distinct: every gate reports exactly the requirement ids that occur twice. */
  lemma DuplicatesReported(spec: Spec, others: seq<Finding>, stage: Stage, today: int, id: string)
    requires forall f | f in others :: f.rule != DuplicateId
    ensures Finding(DuplicateId, [id], {}) in Reported(spec, others, stage, today) <==>
              exists i, j ::
                0 <= i < j < |spec.requirements| && spec.requirements[i].id == spec.requirements[j].id == id
  {
    var f := Finding(DuplicateId, [id], {});
    DuplicatesMean(spec, stage, today, f);
    WaiverFormsMean(spec, stage, today, f);
    CyclesMean(spec, stage, today, f);
    SkipsMean(spec, stage, today, f);
    NoDuplicateOf(spec, f);
    ShownMeans(spec, f, stage, today);
    assert IsDue(spec, stage, today, f) <==>
      exists i, j :: 0 <= i < j < |spec.requirements| && spec.requirements[i].id == spec.requirements[j].id == id;
    hide IsDue, FlatMap, Cycles.Find, Repeated, DomainGraph, RequirementGraph, RequirementFindings, Obliged,
      VerifiedIds, Active, Ids, DomainIds, Resolve.DependencyGraph, RiskRelease, Shown;
  }

  lemma NoDuplicateOf(spec: Spec, f: Finding)
    requires f.rule == DuplicateId
    ensures f !in FlatMap(spec.requirements,
                          RequirementFindings(spec, Active(spec.requirements), VerifiedIds(spec), Obliged(spec)))
    ensures f !in FlatMap(spec.risks, RiskRelease(spec, VerifiedIds(spec)))
  {
    var active, ok, oblig := Active(spec.requirements), VerifiedIds(spec), Obliged(spec);
    hide Active, VerifiedIds, Obliged, RequirementFindings, RiskRelease, FlatMap;
    forall r ensures f !in RequirementFindings(spec, active, ok, oblig)(r) {
      NoDuplicateOfRequirement(spec, active, ok, oblig, r, f);
    }
    NotMapped(spec.requirements, RequirementFindings(spec, active, ok, oblig), f);
    forall k ensures f !in RiskRelease(spec, ok)(k) { NoDuplicateOfRisk(spec, ok, k, f); }
    NotMapped(spec.risks, RiskRelease(spec, ok), f);
  }

  lemma NoDuplicateOfRequirement(
    spec: Spec, active: map<string, Requirement>, ok: set<string>, oblig: set<string>, r: Requirement, f: Finding)
    requires f.rule == DuplicateId
    ensures f !in RequirementFindings(spec, active, ok, oblig)(r)
  {
    NotMapped(spec.requirements, UnverifiedKid(active, ok, r.id), f);
    NotMapped(r.dependsOn, UnverifiedNeeds(spec, ok, r.id), f);
    hide FlatMap, HasFailed, Mitigating;
  }

  lemma NoDuplicateOfRisk(spec: Spec, ok: set<string>, k: Risk, f: Finding)
    requires f.rule == DuplicateId
    ensures f !in RiskRelease(spec, ok)(k)
  {
    NotMapped(k.mitigatedBy, UnverifiedMitigations(spec, ok, k.id), f);
    hide FlatMap;
  }
}

/** What the gates say about cycles of requirements and of domains. */
module GateCycles {
  import opened Basics
  import opened SpecModel
  import opened EvidenceState
  import opened Gates
  import Cycles
  import Resolve

  /* ----- requirements ----- */

  ghost function RequirementCycles(spec: Spec): seq<seq<string>> { Cycles.Find(RequirementGraph(spec.requirements)) }

  lemma NoCycleOfRequirement(
    spec: Spec, active: map<string, Requirement>, ok: set<string>, oblig: set<string>, r: Requirement, f: Finding)
    requires f.rule == RequirementCycle
    ensures f !in RequirementFindings(spec, active, ok, oblig)(r)
  {
    NotMapped(spec.requirements, UnverifiedKid(active, ok, r.id), f);
    NotMapped(r.dependsOn, UnverifiedNeeds(spec, ok, r.id), f);
  }

  lemma NoCycleOfRisk(spec: Spec, ok: set<string>, k: Risk, f: Finding)
    requires f.rule == RequirementCycle
    ensures f !in RiskRelease(spec, ok)(k)
  {
    NotMapped(k.mitigatedBy, UnverifiedMitigations(spec, ok, k.id), f);
  }

  lemma NoCycleOfFlat(spec: Spec, stage: Stage, today: int, f: Finding)
    requires f.rule == RequirementCycle
    ensures f !in FlatMap(Repeated(Ids(spec.requirements)), DuplicateFinding())
    ensures f !in FlatMap(spec.risks, RiskForm(stage, today))
    ensures f !in FlatMap(Cycles.Find(Resolve.DependencyGraph(spec)), DependencyCycleFinding())
    ensures f !in FlatMap(Cycles.Find(DomainGraph(DomainIds(spec), spec.domains)), DomainCycleFinding(spec))
    ensures f !in FlatMap(spec.evidence, SkippedFinding(spec))
  {
    NotMapped(Repeated(Ids(spec.requirements)), DuplicateFinding(), f);
    NotMapped(spec.risks, RiskForm(stage, today), f);
    NotMapped(Cycles.Find(Resolve.DependencyGraph(spec)), DependencyCycleFinding(), f);
    NotMapped(Cycles.Find(DomainGraph(DomainIds(spec), spec.domains)), DomainCycleFinding(spec), f);
    NotMapped(spec.evidence, SkippedFinding(spec), f);
  }

  lemma OnlyCycleCheck(spec: Spec, others: seq<Finding>, stage: Stage, today: int, f: Finding)
    requires f.rule == RequirementCycle && f !in others && f in Collected(spec, others, stage, today)
    ensures RequirementCycles(spec) != []
  {
    var active, ok, oblig := Active(spec.requirements), VerifiedIds(spec), Obliged(spec);
    NoCycleOfFlat(spec, stage, today, f);
    forall r ensures f !in RequirementFindings(spec, active, ok, oblig)(r) {
      NoCycleOfRequirement(spec, active, ok, oblig, r, f);
    }
    NotMapped(spec.requirements, RequirementFindings(spec, active, ok, oblig), f);
    forall k ensures f !in RiskRelease(spec, ok)(k) { NoCycleOfRisk(spec, ok, k, f); }
    NotMapped(spec.risks, RiskRelease(spec, ok), f);
    FromCycles(spec, others, stage, today, f);
    FlatMapHas(RequirementCycles(spec), RequirementCycleFinding(), f);
  }

  /** Where a collected finding comes from, if from none of the other checks. */
  lemma FromCycles(spec: Spec, others: seq<Finding>, stage: Stage, today: int, f: Finding)
    requires f in Collected(spec, others, stage, today) && f !in others
    requires f !in FlatMap(Repeated(Ids(spec.requirements)), DuplicateFinding())
    requires f !in FlatMap(spec.risks, RiskForm(stage, today))
    requires f !in FlatMap(Cycles.Find(Resolve.DependencyGraph(spec)), DependencyCycleFinding())
    requires f !in FlatMap(Cycles.Find(DomainGraph(DomainIds(spec), spec.domains)), DomainCycleFinding(spec))
    requires f !in FlatMap(spec.evidence, SkippedFinding(spec))
    requires f !in FlatMap(spec.requirements,
                     RequirementFindings(spec, Active(spec.requirements), VerifiedIds(spec), Obliged(spec)))
    requires f !in FlatMap(spec.risks, RiskRelease(spec, VerifiedIds(spec)))
    ensures f in FlatMap(RequirementCycles(spec), RequirementCycleFinding())
  {
    hide FlatMap, Repeated, RequirementFindings, RiskRelease, Obliged, VerifiedIds, Active;
  }

  lemma ReportedIff(spec: Spec, others: seq<Finding>, stage: Stage, today: int, f: Finding)
    ensures f in Reported(spec, others, stage, today)
            <==> f in Collected(spec, others, stage, today) && Shown(spec, f, stage, today)
  {
    hide Collected, Shown;
  }

  lemma CyclesOfRequirementsAreCollected(spec: Spec, others: seq<Finding>, stage: Stage, today: int, cy: seq<string>)
    requires cy in RequirementCycles(spec)
    ensures Plain(RequirementCycle, cy) in Collected(spec, others, stage, today)
  {
    assert Plain(RequirementCycle, cy) in RequirementCycleFinding()(cy);
    FlatMapHas(RequirementCycles(spec), RequirementCycleFinding(), Plain(RequirementCycle, cy));
    hide FlatMap, RequirementFindings, RiskRelease, Obliged, VerifiedIds, Active;
  }

  lemma NeverWaived(spec: Spec, stage: Stage, today: int, cy: seq<string>)
    requires Verification.Index() <= stage.Index()
    ensures Shown(spec, Plain(RequirementCycle, cy), stage, today)
  {
    hide ActiveWaivers;
  }

  lemma CycleIsReported(spec: Spec, others: seq<Finding>, stage: Stage, today: int, cy: seq<string>)
    requires Verification.Index() <= stage.Index() && cy in RequirementCycles(spec)
    ensures Plain(RequirementCycle, cy) in Reported(spec, others, stage, today)
  {
    CyclesOfRequirementsAreCollected(spec, others, stage, today, cy);
    NeverWaived(spec, stage, today, cy);
    hide Reported, Collected, Shown, RequirementCycles;
    ReportedIff(spec, others, stage, today, Plain(RequirementCycle, cy));
  }

  /** From the verification gate on, a requirement cycle is reported exactly if the requirements have one: no waiver
      hides it. */
  lemma RequirementCyclesReportedIff(spec: Spec, others: seq<Finding>, stage: Stage, today: int)
    requires Verification.Index() <= stage.Index() && forall f | f in others :: f.rule != RequirementCycle
    ensures (exists f :: f in Reported(spec, others, stage, today) && f.rule == RequirementCycle)
            <==> Cycles.Cyclic(RequirementGraph(spec.requirements))
  {
    Cycles.ReportsIffCyclic(RequirementGraph(spec.requirements));
    if RequirementCycles(spec) != [] { CycleIsReported(spec, others, stage, today, RequirementCycles(spec)[0]); }
    hide Cycles.Cyclic, Cycles.Find, Collected;
    if f :| f in Reported(spec, others, stage, today) && f.rule == RequirementCycle {
      OnlyCycleCheck(spec, others, stage, today, f);
    }
  }

  /** The edges of that graph, read off the requirements. */
  lemma {:induction false} RequirementEdges(reqs: seq<Requirement>, a: string, b: string)
    requires UniqueIds(reqs)
    ensures Cycles.Edge(RequirementGraph(reqs), a, b) <==>
              exists r :: r in reqs && r.id == a && (b in r.dependsOn || b in r.elaborates)
  {
    if reqs != [] {
      var front, last := reqs[..|reqs| - 1], reqs[|reqs| - 1];
      RequirementEdges(front, a, b);
      LastIsNew(reqs);
      hide UniqueIds;
      assert forall r :: r in reqs <==> r in front || r == last by { assert reqs == front + [last]; }
    }
  }

  lemma LastIsNew(reqs: seq<Requirement>)
    requires UniqueIds(reqs) && reqs != []
    ensures UniqueIds(reqs[..|reqs| - 1]) && forall r | r in reqs[..|reqs| - 1] :: r.id != reqs[|reqs| - 1].id
  {
    var front := reqs[..|reqs| - 1];
    forall r | r in front ensures r.id != reqs[|reqs| - 1].id {
      var i :| 0 <= i < |front| && front[i] == r;
      assert reqs[i] == r;
    }
  }

  /* ----- domains ----- */

  ghost function DomainCycles(spec: Spec): seq<seq<string>> {
    Cycles.Find(DomainGraph(DomainIds(spec), spec.domains))
  }

  ghost predicate DomainWaiver(k: Risk) {
    k.waives == Some("DOM-03") || k.waives == Some("dependency-cycle")
  }

  lemma DomainCyclesAreCollected(spec: Spec, others: seq<Finding>, stage: Stage, today: int, cy: seq<string>)
    requires cy in DomainCycles(spec)
    ensures DomainFinding(spec, cy) in Collected(spec, others, stage, today)
  {
    assert DomainFinding(spec, cy) in DomainCycleFinding(spec)(cy);
    FlatMapHas(DomainCycles(spec), DomainCycleFinding(spec), DomainFinding(spec, cy));
    hide FlatMap, RequirementFindings, RiskRelease, Obliged, VerifiedIds, Active;
  }

  /** From the architecture gate on, a found domain cycle goes unreported exactly when a waiver in force names the rule
      or its kind and targets a component in one of its domains or the system. */
  lemma DomainCycleReportedUnlessWaived(spec: Spec, others: seq<Finding>, stage: Stage, today: int, cy: seq<string>)
    requires Architecture.Index() <= stage.Index() && cy in DomainCycles(spec)
    ensures DomainFinding(spec, cy) !in Reported(spec, others, stage, today) <==>
              exists k ::
                k in ActiveWaivers(spec, stage, today) && DomainWaiver(k)
                && k.target in InDomains(spec, cy) + {spec.systemId}
  {
    DomainCyclesAreCollected(spec, others, stage, today, cy);
    DomainShown(spec, stage, today, cy);
    hide Reported, Collected, Shown, InDomains, DomainCycles, ActiveWaivers, DomainWaiver;
    ReportedIff(spec, others, stage, today, DomainFinding(spec, cy));
  }

  lemma DomainWaivedBy(spec: Spec, k: Risk, cy: seq<string>)
    ensures Waives(k, DomainFinding(spec, cy), spec.systemId)
            <==> DomainWaiver(k) && k.target in InDomains(spec, cy) + {spec.systemId}
  {
    hide InDomains;
  }

  lemma DomainShown(spec: Spec, stage: Stage, today: int, cy: seq<string>)
    requires Architecture.Index() <= stage.Index()
    ensures !Shown(spec, DomainFinding(spec, cy), stage, today) <==>
              exists k ::
                k in ActiveWaivers(spec, stage, today) && DomainWaiver(k)
                && k.target in InDomains(spec, cy) + {spec.systemId}
  {
    hide InDomains, ActiveWaivers, DomainWaiver, Waives;
    forall k
      ensures Waives(k, DomainFinding(spec, cy), spec.systemId)
              <==> DomainWaiver(k) && k.target in InDomains(spec, cy) + {spec.systemId}
    {
      DomainWaivedBy(spec, k, cy);
    }
  }

  /** A gate from architecture on that reports no domain cycle, with no such waiver in force, leaves the uses of domains
      without a cycle. */
  lemma AcceptedDomainsAreAcyclic(spec: Spec, others: seq<Finding>, stage: Stage, today: int)
    requires Architecture.Index() <= stage.Index()
    requires forall f | f in Reported(spec, others, stage, today) :: f.rule != DomainCycle
    requires forall k | k in ActiveWaivers(spec, stage, today) :: !DomainWaiver(k)
    ensures !Cycles.Cyclic(DomainGraph(DomainIds(spec), spec.domains))
  {
    Cycles.ReportsIffCyclic(DomainGraph(DomainIds(spec), spec.domains));
    if DomainCycles(spec) != [] { DomainCycleReportedUnlessWaived(spec, others, stage, today, DomainCycles(spec)[0]); }
  }

  lemma {:induction false} KeptIn(xs: seq<string>, s: set<string>, x: string)
    ensures x in KeepIn(xs, s) <==> x in xs && x in s
  {
    if xs != [] { KeptIn(xs[1..], s, x); }
  }

  lemma {:induction false} EdgesAmong(ids: set<string>, domains: seq<Domain>, d: Domain, b: string)
    requires d in domains && forall e | e in domains && e.id == d.id :: e == d
    ensures Cycles.Edge(DomainGraph(ids, domains), d.id, b) <==> b in d.uses && b in ids
  {
    var front, last := domains[..|domains| - 1], domains[|domains| - 1];
    assert domains == front + [last];
    KeptIn(d.uses, ids, b);
    if last != d { EdgesAmong(ids, front, d, b); }
  }

  /** With distinct ids the edges of that graph lead from a domain to the declared domains that it uses. */
  lemma DomainEdges(spec: Spec, d: Domain, b: string)
    requires d in spec.domains && forall e | e in spec.domains && e.id == d.id :: e == d
    ensures Cycles.Edge(DomainGraph(DomainIds(spec), spec.domains), d.id, b) <==>
              b in d.uses && exists e :: e in spec.domains && e.id == b
  {
    EdgesAmong(DomainIds(spec), spec.domains, d, b);
  }
}

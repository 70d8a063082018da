/** Provider-first delivery waves: `change_plan` of the specification validator. */
module ChangePlan {
  import opened Basics
  import opened SpecModel
  import opened Ordering
  import opened Waves
  import Cycles
  import Resolve
  import Impact

  /* ----- dependencies without a cycle can be ordered ----- */

  function DepsGraph(deps: Deps<string>): (g: Cycles.Graph)
    ensures Cycles.WellFormed(g)
    ensures forall a, b :: Cycles.Edge(g, a, b) <==> a in deps && b in deps[a]
  {
    Cycles.Graph(Sorted(deps.Keys), map c | c in deps :: Sorted(deps[c]))
  }

  lemma ChainIffWalk(deps: Deps<string>, p: seq<string>)
    requires |p| > 0
    ensures IsChain(deps, p) <==> Cycles.IsWalk(DepsGraph(deps), p)
  {
    var g := DepsGraph(deps);
    if Cycles.IsWalk(g, p) {
      forall i | 0 <= i < |p| - 1 ensures p[i] in deps && p[i + 1] in deps[p[i]] {
        assert Cycles.Edge(g, p[i], p[i + 1]);
      }
    }
  }

  lemma CycleIffWalk(deps: Deps<string>)
    ensures HasCycle(deps) <==> Cycles.Cyclic(DepsGraph(deps))
  {
    if HasCycle(deps) {
      var p :| IsChain(deps, p) && |p| >= 2 && p[0] == p[|p| - 1];
      ChainIffWalk(deps, p);
      assert Cycles.IsClosedWalk(DepsGraph(deps), p);
    }
    if Cycles.Cyclic(DepsGraph(deps)) {
      var p :| Cycles.IsClosedWalk(DepsGraph(deps), p);
      ChainIffWalk(deps, p);
    }
  }

  lemma AcyclicOrders(affected: set<string>, deps: Deps<string>) returns (order: seq<string>)
    requires WellFormed(affected, deps) && !HasCycle(deps)
    ensures Orders(affected, deps, order)
  {
    var g := DepsGraph(deps);
    CycleIffWalk(deps);
    Cycles.ReportsIffCyclic(g);
    order := Cycles.EmptyReportOrders(g);
    forall i, p | 0 <= i < |order| && order[i] in deps && p in deps[order[i]] ensures p in order[..i] {
      assert Cycles.Edge(g, order[i], p);
    }
  }

  /** The plan is provider-first exactly when the dependencies of the affected components have no cycle. */
  lemma ProviderFirstIffAcyclic(affected: set<string>, deps: Deps<string>, waves: seq<set<string>>)
    requires WellFormed(affected, deps) && IsPlan(affected, deps, waves)
    ensures ProviderFirst(deps, waves) <==> !HasCycle(deps)
  {
    if HasCycle(deps) {
      if ProviderFirst(deps, waves) { ProviderFirstIsAcyclic(affected, deps, waves); }
    } else {
      var order := AcyclicOrders(affected, deps);
      OrderedIsProviderFirst(affected, deps, waves, order);
    }
  }

  /* ----- the plan of a specification ----- */

  function PlanDeps(spec: Spec, affected: set<string>): (deps: Deps<string>)
    ensures WellFormed(affected, deps)
  {
    map c | c in affected :: set p | p in Resolve.ProvidersOf(spec, c) && p in affected && p != c
  }

  ghost function SpecDeps(spec: Spec, target: string): Deps<string> {
    PlanDeps(spec, Impact.AffectedComponents(spec, target))
  }

  ghost predicate IsSpecPlan(spec: Spec, target: string, waves: seq<set<string>>) {
    IsPlan(Impact.AffectedComponents(spec, target), SpecDeps(spec, target), waves)
  }

  lemma ChainIsDependencyWalk(spec: Spec, affected: set<string>, p: seq<string>)
    requires IsChain(PlanDeps(spec, affected), p) && |p| >= 2 && p[0] == p[|p| - 1]
    ensures Cycles.IsClosedWalk(Resolve.DependencyGraph(spec), p)
  {
    var g, deps := Resolve.DependencyGraph(spec), PlanDeps(spec, affected);
    forall i | 0 <= i < |p| - 1 ensures Cycles.Edge(g, p[i], p[i + 1]) {
      assert p[i] in deps && p[i + 1] in deps[p[i]];
    }
  }

  /** If the dependency graph that COMP-06 checks has no cycle, neither have the dependencies of any plan. */
  lemma PlanAcyclic(spec: Spec, affected: set<string>)
    requires !Cycles.Cyclic(Resolve.DependencyGraph(spec))
    ensures !HasCycle(PlanDeps(spec, affected))
  {
    if p :| IsChain(PlanDeps(spec, affected), p) && |p| >= 2 && p[0] == p[|p| - 1] {
      ChainIsDependencyWalk(spec, affected, p);
    }
  }

  /** What an acyclic dependency graph gives the planner: every plan of every target partitions its components into
      non-empty waves, puts providers strictly first, and numbers a component's wave by its longest dependency chain. */
  lemma AcyclicPlansAreTopological(spec: Spec, target: string, waves: seq<set<string>>)
    requires !Cycles.Cyclic(Resolve.DependencyGraph(spec)) && IsSpecPlan(spec, target, waves)
    ensures IsPartition(waves, Impact.AffectedComponents(spec, target))
    ensures ProviderFirst(SpecDeps(spec, target), waves)
    ensures forall i, c | 0 <= i < |waves| && c in waves[i] :: WaveIsLongestChain(SpecDeps(spec, target), i, c)
  {
    PlanAcyclic(spec, Impact.AffectedComponents(spec, target));
    AcyclicPlan(Impact.AffectedComponents(spec, target), SpecDeps(spec, target), waves);
  }

  lemma AcyclicPlan(affected: set<string>, deps: Deps<string>, waves: seq<set<string>>)
    requires WellFormed(affected, deps) && IsPlan(affected, deps, waves) && !HasCycle(deps)
    ensures IsPartition(waves, affected) && ProviderFirst(deps, waves)
    ensures forall i, c | 0 <= i < |waves| && c in waves[i] :: WaveIsLongestChain(deps, i, c)
  {
    ProviderFirstIffAcyclic(affected, deps, waves);
    PlanPartitions(affected, deps, waves);
    LongestChains(affected, deps, waves);
  }

  /** What the plan says about one component. */
  datatype Slice = Slice(
    needs: seq<string>, fakes: map<string, string>, sourcePaths: seq<string>, testPaths: seq<string>)

  datatype Plan = Plan(
    waves: seq<seq<string>>, components: map<string, Slice>, requirements: seq<string>,
    invalidatedEvidence: seq<string>,
    priorities: map<string, string>)

  /** The entry for an id in `{c.id: c for c in components}`: the last one. */
  function LastWith(components: seq<Component>, id: string): (c: Component)
    requires exists i :: 0 <= i < |components| && components[i].id == id
    ensures c in components && c.id == id
  {
    var last := components[|components| - 1];
    if last.id == id then last
    else
      assert components[..|components| - 1] + [last] == components;
      LastWith(components[..|components| - 1], id)
  }

  predicate HasComponent(spec: Spec, id: string) {
    exists i :: 0 <= i < |spec.components| && spec.components[i].id == id
  }

  /** `sorted(res.get(c, {}))` */
  function ResolvedNeeds(spec: Spec, id: string): seq<string> {
    var res := Resolve.ResolveCapabilities(spec);
    if id in res.entries then Sorted(res.entries[id].entries.Keys) else []
  }

  function SliceOf(spec: Spec, id: string): Slice
    requires HasComponent(spec, id)
  {
    var c := LastWith(spec.components, id);
    Slice(ResolvedNeeds(spec, id), c.fakes, c.sourcePaths, c.testPaths)
  }

  /** `{r.id: r.priority for r in requirements if r.id in ids and r.priority}` */
  function Priorities(reqs: seq<Requirement>, ids: seq<string>): (m: map<string, string>)
    ensures forall id | id in m ::
              id in ids && m[id] != "" && exists r :: r in reqs && r.id == id && r.priority == Some(m[id])
    ensures forall r | r in reqs && r.id in ids && r.priority.Some? && r.priority.value != "" :: r.id in m
  {
    if reqs == [] then map[]
    else
      var r := reqs[|reqs| - 1];
      assert reqs == reqs[..|reqs| - 1] + [r];
      var before := Priorities(reqs[..|reqs| - 1], ids);
      if r.id in ids && r.priority.Some? && r.priority.value != "" then before[r.id := r.priority.value] else before
  }

  /** What the plan says besides its waves: about the affected components, the requirements and the evidence. */
  ghost predicate IsRestOfPlan(spec: Spec, target: string, plan: Plan) {
    var report := Impact.MakeReport(spec, Impact.Affected(spec, target), Impact.AffectedRequirements(spec, target));
    && plan.requirements == report.requirements && plan.invalidatedEvidence == report.invalidatedEvidence
    && plan.priorities == Priorities(spec.requirements, report.requirements)
    && plan.components.Keys == Impact.AffectedComponents(spec, target)
    && forall id | id in plan.components :: HasComponent(spec, id) && plan.components[id] == SliceOf(spec, id)
  }

  function SetsOf(waves: seq<seq<string>>): (sets: seq<set<string>>)
    ensures |sets| == |waves| && forall i | 0 <= i < |waves| :: sets[i] == Elements(waves[i])
  {
    seq(|waves|, i requires 0 <= i < |waves| => Elements(waves[i]))
  }

  /** Each wave is listed in order, and the waves are those of the plan. */
  ghost predicate ListsPlan(affected: set<string>, deps: Deps<string>, waves: seq<seq<string>>)
    requires deps.Keys == affected
  {
    IsPlan(affected, deps, SetsOf(waves)) && forall i | 0 <= i < |waves| :: waves[i] == Sorted(Elements(waves[i]))
  }

  /** There is one plan, and one way to list it. */
  lemma ListedPlanUnique(affected: set<string>, deps: Deps<string>, a: seq<seq<string>>, b: seq<seq<string>>)
    requires deps.Keys == affected && ListsPlan(affected, deps, a) && ListsPlan(affected, deps, b)
    ensures a == b
  {
    PlanUnique(affected, deps, SetsOf(a), SetsOf(b));
    forall i | 0 <= i < |a| ensures a[i] == b[i] {
      assert SetsOf(a)[i] == SetsOf(b)[i];
    }
  }

  /** What the loop keeps: the listed waves are the first waves of the plan, and `done` is what they deliver. */
  ghost predicate Delivering(affected: set<string>, deps: Deps<string>, waves: seq<seq<string>>, done: set<string>)
    requires deps.Keys == affected
  {
    && done <= affected && (forall i | 0 <= i < |waves| :: waves[i] == Sorted(Elements(waves[i])))
    && Greedy(affected, deps, SetsOf(waves)) && done == Delivered(SetsOf(waves), |waves|)
  }

  lemma ListedStep(waves: seq<seq<string>>, wave: set<string>)
    ensures Elements(Sorted(wave)) == wave
    ensures SetsOf(waves + [Sorted(wave)]) == SetsOf(waves) + [wave]
  {
  }

  lemma DeliveringStep(affected: set<string>, deps: Deps<string>, waves: seq<seq<string>>, done: set<string>)
    requires WellFormed(affected, deps) && Delivering(affected, deps, waves, done) && done != affected
    ensures var wave := Wave(affected, deps, done);
      wave != {} && Delivering(affected, deps, waves + [Sorted(wave)], done + wave)
  {
    hide Wave, Sorted, Greedy;
    GreedyStep(affected, deps, SetsOf(waves));
    WaveNonEmpty(affected, deps, done);
    ListedStep(waves, Wave(affected, deps, done));
  }

  method DeliveryWaves(affected: set<string>, deps: Deps<string>) returns (waves: seq<seq<string>>)
    requires WellFormed(affected, deps)
    ensures ListsPlan(affected, deps, waves)
  {
    hide Wave, Sorted, Greedy;
    var done: set<string> := {};
    waves := [];
    assert Delivering(affected, deps, [], {}) by { EmptyPlan(affected, deps); }
    while done != affected
      invariant done <= affected && Delivering(affected, deps, waves, done)
      decreases affected - done
    {
      DeliveringStep(affected, deps, waves, done);
      var wave := Wave(affected, deps, done);
      waves := waves + [Sorted(wave)];
      done := done + wave;
    }
  }

  lemma EmptyPlan(affected: set<string>, deps: Deps<string>)
    requires deps.Keys == affected
    ensures Delivering(affected, deps, [], {})
  {
  }

  function SlicesOf(spec: Spec, affected: set<string>): map<string, Slice>
    requires forall id | id in affected :: HasComponent(spec, id)
  {
    map id | id in affected :: SliceOf(spec, id)
  }

  method ChangePlan(spec: Spec, target: string) returns (plan: Plan)
    ensures ListsPlan(Impact.AffectedComponents(spec, target), SpecDeps(spec, target), plan.waves)
    ensures IsRestOfPlan(spec, target, plan)
  {
    hide SliceOf, Priorities, ListsPlan, IsRestOfPlan, PlanDeps, HasComponent, Impact.MakeReport;
    var report := Impact.ImpactAnalysis(spec, target);
    var affected := Elements(report.components);
    ReportedAreAffected(spec, target, report);
    AffectedAreComponents(spec, target);
    var waves := DeliveryWaves(affected, PlanDeps(spec, affected));
    plan := Plan(waves, SlicesOf(spec, affected), report.requirements, report.invalidatedEvidence,
      Priorities(spec.requirements, report.requirements));
    RestOfPlan(spec, target, plan);
  }

  lemma ReportedAreAffected(spec: Spec, target: string, report: Impact.Report)
    requires report == Impact.MakeReport(spec, Impact.Affected(spec, target), Impact.AffectedRequirements(spec, target))
    ensures Elements(report.components) == Impact.AffectedComponents(spec, target)
  {
    Impact.ReportedComponents(spec, target);
    hide Impact.MakeReport, Impact.AffectedComponents;
  }

  lemma AffectedAreComponents(spec: Spec, target: string)
    ensures forall id | id in Impact.AffectedComponents(spec, target) :: HasComponent(spec, id)
  {
    hide Impact.Affected;
    forall id | id in Impact.AffectedComponents(spec, target) ensures HasComponent(spec, id) {
      var c :| c in spec.components && c.id == id;
      var i :| 0 <= i < |spec.components| && spec.components[i] == c;
    }
  }

  lemma RestOfPlan(spec: Spec, target: string, plan: Plan)
    requires forall id | id in Impact.AffectedComponents(spec, target) :: HasComponent(spec, id)
    requires plan.components == SlicesOf(spec, Impact.AffectedComponents(spec, target))
    requires var report :=
               Impact.MakeReport(spec, Impact.Affected(spec, target), Impact.AffectedRequirements(spec, target));
      && plan.requirements == report.requirements && plan.invalidatedEvidence == report.invalidatedEvidence
      && plan.priorities == Priorities(spec.requirements, report.requirements)
    ensures IsRestOfPlan(spec, target, plan)
  {
    hide SliceOf, Priorities, HasComponent, Impact.MakeReport, Impact.AffectedComponents;
  }

  /* ----- what a plan says, read off the specification ----- */

  /** No other component has its id. */
  ghost predicate IsOnly(spec: Spec, c: Component) {
    c in spec.components && forall d | d in spec.components && d.id == c.id :: d == c
  }

  /** In a plan a component waits for exactly the other affected components that its references resolve to. */
  lemma DependenciesMean(spec: Spec, affected: set<string>, c: Component, p: string)
    requires IsOnly(spec, c) && c.id in affected
    ensures p in PlanDeps(spec, affected)[c.id] <==>
              p in affected && p != c.id
              && exists ref :: ref in c.needs && Resolve.ResolveRef(spec, c, ref) == Resolve.Provider(p)
  {
    Resolve.DependsIffNeeds(spec, c, p);
    hide Resolve.ResolveRef, Resolve.ResolveCapabilities;
  }

  lemma LastIsOnly(spec: Spec, c: Component)
    requires IsOnly(spec, c)
    ensures HasComponent(spec, c.id) && LastWith(spec.components, c.id) == c
  {
    var i :| 0 <= i < |spec.components| && spec.components[i] == c;
  }

  /** The plan gives for a component the capabilities that its resolved references name, in order, and its own fakes
      and paths. */
  lemma SliceMeans(spec: Spec, c: Component)
    requires IsOnly(spec, c)
    ensures HasComponent(spec, c.id)
    ensures var slice := SliceOf(spec, c.id);
      && Increasing(slice.needs)
      && (forall k :: k in slice.needs <==>
            exists ref, p :: ref in c.needs && RefId(ref) == k
              && Resolve.ResolveRef(spec, c, ref) == Resolve.Provider(p))
      && slice.fakes == c.fakes && slice.sourcePaths == c.sourcePaths && slice.testPaths == c.testPaths
  {
    LastIsOnly(spec, c);
    Resolve.AllComplete(spec, spec.components, c);
    var d := Resolve.ResolveNeeds(spec, c, c.needs);
    assert ResolvedNeeds(spec, c.id) == Sorted(d.entries.Keys);
    hide Resolve.ResolveRef, Resolve.ResolveAll, RefId, Sorted, HasComponent, LastWith;
    forall k ensures k in d.entries <==>
                       exists ref, p :: ref in c.needs && RefId(ref) == k
                         && Resolve.ResolveRef(spec, c, ref) == Resolve.Provider(p) {
      if ref, p :| ref in c.needs && RefId(ref) == k && Resolve.ResolveRef(spec, c, ref) == Resolve.Provider(p) {
        Resolve.NeedsComplete(spec, c, c.needs, ref, p);
      }
    }
  }

  /** A requirement's priority is in the plan exactly if it has one and is affected. */
  lemma PrioritiesMean(spec: Spec, ids: seq<string>, r: Requirement)
    requires r in spec.requirements && forall q | q in spec.requirements && q.id == r.id :: q == r
    ensures r.id in Priorities(spec.requirements, ids) <==>
              r.id in ids && r.priority.Some? && r.priority.value != ""
    ensures r.id in Priorities(spec.requirements, ids) ==>
              r.priority == Some(Priorities(spec.requirements, ids)[r.id])
  {
  }
}

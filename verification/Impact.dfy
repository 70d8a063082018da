/** Change impact: `impact_analysis` of the specification validator. */
module Impact {
  import opened Basics
  import opened SpecModel
  import opened Reach
  import Resolve

  predicate Needs(c: Component, x: string) {
    exists i :: 0 <= i < |c.needs| && RefId(c.needs[i]) == x
  }

  /** What a change of `x` reaches in one step when the analysis started at `target`: the components that require
      it, the data models derived from it, what a component provides and owns, the owner of a data model; a step
      from a capability back to its provider is taken at the target only. */
  ghost function Steps(spec: Spec, target: string, x: string): set<string> {
    DependentIds(spec, target, x) + DerivedIds(spec, x) + Parts(spec, x) + OwnerIds(spec, x)
  }

  ghost function DependentIds(spec: Spec, target: string, x: string): set<string> {
    set c | c in spec.components && (Needs(c, x) || (x == target && x in c.offers)) :: c.id
  }

  ghost function DerivedIds(spec: Spec, x: string): set<string> {
    set d | d in spec.dataModels && x in d.derivedFrom :: d.id
  }

  ghost function OwnerIds(spec: Spec, x: string): set<string> {
    set d | d in spec.dataModels && d.id == x :: d.owner
  }

  ghost function Parts(spec: Spec, x: string): set<string> {
    set c, y | c in spec.components && c.id == x && y in c.offers + c.ownsData :: y
  }

  ghost function StepsFrom(spec: Spec, target: string): string -> set<string> {
    x => Steps(spec, target, x)
  }

  /** A requirement follows the requirements that it depends on or refines. */
  ghost function Followers(spec: Spec): string -> set<string> {
    y => set r | r in spec.requirements && (y in r.dependsOn || y in r.elaborates) :: r.id
  }

  ghost function Universe(spec: Spec, target: string): set<string> {
    {target} + (set c | c in spec.components :: c.id) + (set d | d in spec.dataModels :: d.id)
    + (set c, y | c in spec.components && y in c.offers + c.ownsData :: y) + (set d | d in spec.dataModels :: d.owner)
  }

  ghost function Affected(spec: Spec, target: string): set<string> {
    set x | x in Universe(spec, target) && Reachable(StepsFrom(spec, target), {target}, x)
  }

  ghost function DirectRequirements(spec: Spec, target: string): set<string> {
    set r | r in spec.requirements && (r.target in Affected(spec, target) + {spec.systemId} || r.id == target) :: r.id
  }

  ghost function AffectedRequirements(spec: Spec, target: string): set<string> {
    set r | r in spec.requirements && Reachable(Followers(spec), DirectRequirements(spec, target), r.id) :: r.id
  }

  lemma AffectedIsReach(spec: Spec, target: string)
    ensures IsReach(StepsFrom(spec, target), {target}, Affected(spec, target))
  {
    ReachableInClosed(StepsFrom(spec, target), {target}, Universe(spec, target));
  }

  lemma AffectedRequirementsIsReach(spec: Spec, target: string)
    ensures IsReach(Followers(spec), DirectRequirements(spec, target), AffectedRequirements(spec, target))
  {
    var all := set r | r in spec.requirements :: r.id;
    ReachableInClosed(Followers(spec), DirectRequirements(spec, target), all);
  }

  /** The impact is the least set that holds the target and is closed under the steps. */
  lemma AffectedIsLeast(spec: Spec, target: string, s: set<string>)
    ensures target in Affected(spec, target)
    ensures forall x | x in Affected(spec, target) :: Steps(spec, target, x) <= Affected(spec, target)
    ensures target in s && (forall x | x in s :: Steps(spec, target, x) <= s) ==> Affected(spec, target) <= s
  {
    AffectedIsReach(spec, target);
    hide Affected, Steps;
    ReachIsLeast(StepsFrom(spec, target), {target}, Affected(spec, target), s);
  }

  /** The affected requirements are the least set that holds the directly affected ones and, with a requirement,
      every requirement that depends on it or refines it. */
  lemma AffectedRequirementsIsLeast(spec: Spec, target: string, s: set<string>)
    ensures DirectRequirements(spec, target) <= AffectedRequirements(spec, target)
    ensures Closed(Followers(spec), AffectedRequirements(spec, target))
    ensures DirectRequirements(spec, target) <= s && Closed(Followers(spec), s)
            ==> AffectedRequirements(spec, target) <= s
  {
    AffectedRequirementsIsReach(spec, target);
    ReachIsLeast(Followers(spec), DirectRequirements(spec, target), AffectedRequirements(spec, target), s);
  }

  /* ----- the analysis as the source runs it ----- */

  datatype Report = Report(
    components: seq<string>, capabilities: seq<string>, dataModels: seq<string>,
    requirements: seq<string>, invalidatedEvidence: seq<string>)

  /** `[f(x) for x in xs if p(x)]` */
  function Select<T>(xs: seq<T>, p: T -> bool, f: T -> string): (r: seq<string>)
    ensures forall y :: y in r <==> exists x :: x in xs && p(x) && f(x) == y
  {
    if xs == [] then []
    else (if p(xs[0]) then [f(xs[0])] else []) + Select(xs[1..], p, f)
  }

  function MakeReport(spec: Spec, seen: set<string>, reqs: set<string>): Report {
    Report(
      Select(spec.components, (c: Component) => c.id in seen, (c: Component) => c.id),
      Select(spec.capabilities, (c: Capability) => c.id in seen, (c: Capability) => c.id),
      Select(spec.dataModels, (d: DataModel) => d.id in seen, (d: DataModel) => d.id),
      Select(spec.requirements, (r: Requirement) => r.id in reqs, (r: Requirement) => r.id),
      Select(spec.evidence,
        (e: Evidence) => e.requirementId in reqs || (e.subjectId.Some? && e.subjectId.value in seen),
        (e: Evidence) => e.id))
  }

  function PartsOf(components: seq<Component>, x: string): (r: seq<string>)
    ensures forall y :: y in r <==> exists c :: c in components && c.id == x && y in c.offers + c.ownsData
  {
    if components == [] then []
    else (if components[0].id == x then components[0].offers + components[0].ownsData else [])
         + PartsOf(components[1..], x)
  }

  function Dependents(spec: Spec, target: string, x: string): seq<string> {
    Select(spec.components, (c: Component) => Needs(c, x) || (x == target && x in c.offers), (c: Component) => c.id)
  }

  function Derived(spec: Spec, x: string): seq<string> {
    Select(spec.dataModels, (d: DataModel) => x in d.derivedFrom, (d: DataModel) => d.id)
  }

  function Owners(spec: Spec, x: string): seq<string> {
    Select(spec.dataModels, (d: DataModel) => d.id == x, (d: DataModel) => d.owner)
  }

  /** The entries that one visit of `x` appends to the worklist. */
  function Appended(spec: Spec, target: string, x: string): seq<string> {
    Dependents(spec, target, x) + Derived(spec, x) + PartsOf(spec.components, x) + Owners(spec, x)
  }

  lemma AppendedMembers(spec: Spec, target: string, x: string)
    ensures forall y :: y in Dependents(spec, target, x) <==> y in DependentIds(spec, target, x)
    ensures forall y :: y in Derived(spec, x) <==> y in DerivedIds(spec, x)
    ensures forall y :: y in PartsOf(spec.components, x) <==> y in Parts(spec, x)
    ensures forall y :: y in Owners(spec, x) <==> y in OwnerIds(spec, x)
  {
  }

  lemma AppendedAreSteps(spec: Spec, target: string, x: string)
    ensures forall y :: y in Appended(spec, target, x) <==> y in Steps(spec, target, x)
  {
    AppendedMembers(spec, target, x);
    hide Dependents, Derived, PartsOf, Owners, DependentIds, DerivedIds, Parts, OwnerIds;
  }

  lemma AppendedInUniverse(spec: Spec, target: string, x: string)
    ensures Steps(spec, target, x) <= Universe(spec, target)
  {
  }

  ghost predicate Visiting(spec: Spec, target: string, seen: set<string>, todo: seq<string>) {
    Searching(StepsFrom(spec, target), {target}, Universe(spec, target), seen, todo)
  }

  lemma VisitingStep(spec: Spec, target: string, seen: set<string>, todo: seq<string>, x: string)
    requires Visiting(spec, target, seen, todo + [x])
    ensures x in seen ==> Visiting(spec, target, seen, todo)
    ensures Visiting(spec, target, seen + {x}, todo + Appended(spec, target, x)) && x in Universe(spec, target)
  {
    var next, all := StepsFrom(spec, target), Universe(spec, target);
    if x in seen { SearchSkip(next, {target}, all, seen, todo, x); }
    AppendedAreSteps(spec, target, x);
    AppendedInUniverse(spec, target, x);
    SearchVisit(next, {target}, all, seen, todo, x, Appended(spec, target, x));
    assert x in todo + [x];
  }

  lemma VisitingEnd(spec: Spec, target: string, seen: set<string>)
    requires Visiting(spec, target, seen, [])
    ensures seen == Affected(spec, target)
  {
    SearchEnd(StepsFrom(spec, target), {target}, Universe(spec, target), seen);
    AffectedIsReach(spec, target);
    ReachUnique(StepsFrom(spec, target), {target}, seen, Affected(spec, target));
  }

  method Visited(spec: Spec, target: string) returns (seen: set<string>)
    ensures seen == Affected(spec, target)
  {
    ghost var all := Universe(spec, target);
    var todo := [target];
    seen := {};
    SearchStart(StepsFrom(spec, target), {target}, all, todo);
    while todo != []
      invariant Visiting(spec, target, seen, todo)
      decreases all - seen, |todo|
    {
      var x, rest := todo[|todo| - 1], todo[..|todo| - 1];
      SplitLast(todo);
      VisitingStep(spec, target, seen, rest, x);
      if x in seen {
        todo := rest;
      } else {
        seen, todo := seen + {x}, rest + Appended(spec, target, x);
      }
    }
    VisitingEnd(spec, target, seen);
  }

  predicate FollowsOne(r: Requirement, reqs: set<string>) {
    exists y :: y in reqs && (y in r.dependsOn || y in r.elaborates)
  }

  /** The requirements that one round of the loop adds. */
  function NewFollowers(spec: Spec, reqs: set<string>): set<string> {
    set r | r in spec.requirements && r.id !in reqs && FollowsOne(r, reqs) :: r.id
  }

  lemma NewFollowersAreSteps(spec: Spec, reqs: set<string>)
    ensures forall x | x in NewFollowers(spec, reqs) :: exists y :: y in reqs && x in Followers(spec)(y)
    ensures NewFollowers(spec, reqs) == {} ==> Closed(Followers(spec), reqs)
  {
    forall x | x in NewFollowers(spec, reqs) ensures exists y :: y in reqs && x in Followers(spec)(y) {
      var r :| r in spec.requirements && r.id !in reqs && FollowsOne(r, reqs) && r.id == x;
      var y :| y in reqs && (y in r.dependsOn || y in r.elaborates);
      assert x in Followers(spec)(y);
    }
    if NewFollowers(spec, reqs) == {} {
      forall y, x | y in reqs && x in Followers(spec)(y) ensures x in reqs {
        var r :| r in spec.requirements && (y in r.dependsOn || y in r.elaborates) && r.id == x;
        assert FollowsOne(r, reqs);
        assert x !in NewFollowers(spec, reqs);
      }
    }
  }

  /** `while new := ...: reqs |= new` */
  method FollowAll(spec: Spec, roots: set<string>) returns (reqs: set<string>)
    ensures IsReach(Followers(spec), roots, reqs)
  {
    hide Growing;
    ghost var next, all := Followers(spec), set r | r in spec.requirements :: r.id;
    reqs := roots;
    GrowStart(next, roots);
    var found := NewFollowers(spec, reqs);
    while found != {}
      invariant Growing(next, roots, reqs) && found == NewFollowers(spec, reqs)
      decreases all - reqs
    {
      NewFollowersAreSteps(spec, reqs);
      GrowRound(next, roots, reqs, found);
      ghost var x :| x in found;
      assert x in all - reqs;
      reqs := reqs + found;
      found := NewFollowers(spec, reqs);
    }
    NewFollowersAreSteps(spec, reqs);
    GrowEnd(next, roots, reqs);
  }

  method FollowRequirements(spec: Spec, target: string, seen: set<string>) returns (reqs: set<string>)
    requires seen == Affected(spec, target)
    ensures reqs == AffectedRequirements(spec, target)
  {
    reqs := set r | r in spec.requirements && (r.target in seen + {spec.systemId} || r.id == target) :: r.id;
    assert reqs == DirectRequirements(spec, target);
    reqs := FollowAll(spec, reqs);
    AffectedRequirementsIsReach(spec, target);
    ReachUnique(Followers(spec), DirectRequirements(spec, target), reqs, AffectedRequirements(spec, target));
  }

  method ImpactAnalysis(spec: Spec, target: string) returns (report: Report)
    ensures report == MakeReport(spec, Affected(spec, target), AffectedRequirements(spec, target))
  {
    var seen := Visited(spec, target);
    var reqs := FollowRequirements(spec, target, seen);
    report := MakeReport(spec, seen, reqs);
  }

  ghost function AffectedComponents(spec: Spec, target: string): set<string> {
    set c | c in spec.components && c.id in Affected(spec, target) :: c.id
  }

  /** The `components` of a report are the affected components. */
  lemma ReportedComponents(spec: Spec, target: string)
    ensures forall x :: x in MakeReport(spec, Affected(spec, target), AffectedRequirements(spec, target)).components
                        <==> x in AffectedComponents(spec, target)
  {
  }

  /** What each list of the report holds: the components, capabilities and data models that are affected, the affected
      requirements, and the evidence for an affected requirement or about an affected subject. */
  lemma ReportMeans(spec: Spec, target: string, x: string)
    ensures var report := MakeReport(spec, Affected(spec, target), AffectedRequirements(spec, target));
      && (x in report.components <==> x in Affected(spec, target) && exists c :: c in spec.components && c.id == x)
      && (x in report.capabilities <==> x in Affected(spec, target) && exists c :: c in spec.capabilities && c.id == x)
      && (x in report.dataModels <==> x in Affected(spec, target) && exists d :: d in spec.dataModels && d.id == x)
      && (x in report.requirements <==> x in AffectedRequirements(spec, target))
      && (x in report.invalidatedEvidence <==>
            exists e :: e in spec.evidence && e.id == x
              && (e.requirementId in AffectedRequirements(spec, target)
                  || exists s :: s in Affected(spec, target) && e.subjectId == Some(s)))
  {
    hide Affected, AffectedRequirements;
    forall y | y in AffectedRequirements(spec, target) ensures exists r :: r in spec.requirements && r.id == y {
      AffectedIsDeclared(spec, target, y);
    }
  }

  lemma AffectedIsDeclared(spec: Spec, target: string, y: string)
    requires y in AffectedRequirements(spec, target)
    ensures exists r :: r in spec.requirements && r.id == y
  {
  }

  /** A list is selected in order: of two parts, first what the first one gives, then what the second one gives, and one
      entry gives one item or none. */
  lemma {:induction false} SelectInOrder<T>(a: seq<T>, b: seq<T>, x: T, p: T -> bool, f: T -> string)
    ensures Select(a + b, p, f) == Select(a, p, f) + Select(b, p, f)
    ensures Select([x], p, f) == if p(x) then [f(x)] else []
  {
    assert [x][1..] == [];
    if a == [] {
      assert a + b == b;
    } else {
      assert (a + b)[1..] == a[1..] + b;
      SelectInOrder(a[1..], b, x, p, f);
      Associate(if p(a[0]) then [f(a[0])] else [], Select(a[1..], p, f), Select(b, p, f));
    }
  }
}

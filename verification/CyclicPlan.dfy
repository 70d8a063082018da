/** A specification whose plan is not in provider-first order: the promise of `change_plan` needs acyclic
    dependencies. */
module CyclicPlan {
  import opened Basics
  import opened SpecModel
  import opened Waves
  import Resolve
  import Impact
  import ChangePlan
  import PyDict

  /** Two components, each of which requires what the other provides. */
  function Left(): Component { Component("left", None, ["x"], ["y"], [], map[], map[], [], []) }

  function Right(): Component { Component("right", None, ["y"], ["x"], [], map[], map[], [], []) }

  function Pair(): Spec {
    Spec("system", [], [], [Capability("x", "1.0.0"), Capability("y", "1.0.0")], [Left(), Right()], [], [], [], [])
  }

  lemma References()
    ensures RefId("x") == "x" && RefId("y") == "y" && RefVersion("x") == "" && RefVersion("y") == ""
  {
    assert "x"[1..] == "" && "y"[1..] == "";
  }

  lemma LeftResolves()
    ensures Resolve.ResolveRef(Pair(), Left(), "y") == Resolve.Provider("right")
  {
    References();
    assert Resolve.IsCandidate(Left(), "y", Right()) && !Resolve.IsCandidate(Left(), "y", Left());
    assert Resolve.OnlyCandidate(Pair().components, Left(), "y", 1);
    Resolve.CandidatesSingle(Pair().components, Left(), "y", "right");
    Resolve.ResolvesToSingle(Pair(), Left(), "y", "right");
    Known();
  }

  lemma RightResolves()
    ensures Resolve.ResolveRef(Pair(), Right(), "x") == Resolve.Provider("left")
  {
    References();
    assert Resolve.IsCandidate(Right(), "x", Left()) && !Resolve.IsCandidate(Right(), "x", Right());
    assert Resolve.OnlyCandidate(Pair().components, Right(), "x", 0);
    Resolve.CandidatesSingle(Pair().components, Right(), "x", "left");
    Resolve.ResolvesToSingle(Pair(), Right(), "x", "left");
    Known();
  }

  lemma Known()
    ensures Resolve.KnownVersion(Pair(), "x") == Some("1.0.0") && Resolve.KnownVersion(Pair(), "y") == Some("1.0.0")
  {
    assert Pair().capabilities[0].id == "x" && Pair().capabilities[1..][0].id == "y";
  }

  lemma OneNeed(c: Component, ref: string, p: string)
    requires c.needs == [ref] && Resolve.ResolveRef(Pair(), c, ref) == Resolve.Provider(p)
    ensures Resolve.ResolveNeeds(Pair(), c, c.needs) == PyDict.Dict([RefId(ref)], map[RefId(ref) := p])
  {
    hide Resolve.ResolveRef, RefId;
    assert c.needs[..0] == [];
  }

  lemma ResolveTwo(spec: Spec, a: Component, b: Component)
    requires spec.components == [a, b] && a.id != b.id
    ensures Resolve.ResolveCapabilities(spec).entries
            == map[a.id := Resolve.ResolveNeeds(spec, a, a.needs), b.id := Resolve.ResolveNeeds(spec, b, b.needs)]
  {
    hide Resolve.ResolveNeeds;
    var cs := spec.components;
    assert cs[..1] == [a] && [a][..0] == [];
    assert Resolve.ResolveAll(spec, []).entries == map[];
    assert Resolve.ResolveAll(spec, [a]).entries == map[a.id := Resolve.ResolveNeeds(spec, a, a.needs)];
  }

  function One(k: string, v: string): PyDict.Dict<string, string> { PyDict.Dict([k], map[k := v]) }

  lemma ValuesOfOne(k: string, v: string)
    ensures PyDict.Values(One(k, v)) == [v]
  {
  }

  lemma Needs()
    ensures Resolve.ResolveNeeds(Pair(), Left(), Left().needs) == One("y", "right")
    ensures Resolve.ResolveNeeds(Pair(), Right(), Right().needs) == One("x", "left")
  {
    LeftResolves();
    RightResolves();
    References();
    hide Resolve.ResolveNeeds, Resolve.ResolveRef, RefId, RefVersion;
    OneNeed(Left(), "y", "right");
    OneNeed(Right(), "x", "left");
  }

  lemma Entries()
    ensures Resolve.ResolveCapabilities(Pair()).entries == map["left" := One("y", "right"), "right" := One("x", "left")]
  {
    hide Resolve.ResolveNeeds, Resolve.ResolveCapabilities, One;
    Needs();
    ResolveTwo(Pair(), Left(), Right());
    assert Left().id == "left" && Right().id == "right";
    hide Left, Right;
  }

  lemma Providers()
    ensures Resolve.ProvidersOf(Pair(), "left") == ["right"] && Resolve.ProvidersOf(Pair(), "right") == ["left"]
  {
    Entries();
    ValuesOfOne("y", "right");
    ValuesOfOne("x", "left");
    hide Pair, One, Resolve.ResolveCapabilities;
    var entries := Resolve.ResolveCapabilities(Pair()).entries;
    assert entries["left"] == One("y", "right") && entries["right"] == One("x", "left");
  }

  const BOTH: set<string> := {"left", "right"}

  lemma LeftReachesRight()
    ensures "x" in Impact.Steps(Pair(), "left", "left") && "right" in Impact.Steps(Pair(), "left", "x")
  {
    References();
    assert Left() in Pair().components && "x" in Left().offers + Left().ownsData;
    assert Right() in Pair().components && Right().needs[0] == "x" && Impact.Needs(Right(), "x");
  }

  lemma BothAffected()
    ensures "left" in Impact.Affected(Pair(), "left") && "right" in Impact.Affected(Pair(), "left")
  {
    LeftReachesRight();
    hide Pair, Impact.Steps, Impact.Affected;
    Impact.AffectedIsLeast(Pair(), "left", {});
  }

  lemma Both()
    ensures Impact.AffectedComponents(Pair(), "left") == BOTH
  {
    BothAffected();
    hide Impact.Affected;
    assert Left() in Pair().components && Right() in Pair().components;
  }

  lemma Dependencies()
    ensures ChangePlan.SpecDeps(Pair(), "left") == map["left" := {"right"}, "right" := {"left"}]
  {
    Both();
    Providers();
    hide Resolve.ProvidersOf, Impact.AffectedComponents;
    var deps := ChangePlan.SpecDeps(Pair(), "left");
    assert deps.Keys == BOTH;
    assert deps["left"] == {"right"} && deps["right"] == {"left"};
  }

  /** The one wave of the plan holds both components, each a provider of the other. */
  lemma PlanIsNotProviderFirst()
    ensures ChangePlan.IsSpecPlan(Pair(), "left", [BOTH])
    ensures !ProviderFirst(ChangePlan.SpecDeps(Pair(), "left"), [BOTH])
  {
    Both();
    Dependencies();
    var affected, deps := Impact.AffectedComponents(Pair(), "left"), ChangePlan.SpecDeps(Pair(), "left");
    hide Impact.AffectedComponents, ChangePlan.SpecDeps;
    assert Delivered([BOTH], 0) == {} && Delivered([BOTH], 1) == BOTH;
    assert Ready(affected, deps, {}) == {};
    assert !Provided(deps, [BOTH], 0);
  }
}

/** Build arguments of a component: `effective_build_args` on the reachable stages of its recipe. */
module BuildArgs {
  import opened Basics
  import opened Dockerfile
  import opened StageMeaning
  import RecipeMeaning
  import Inventory
  import Recipe

  const MODE: string := "VITE_OBSERVABLE_SELF_OBSERVABILITY_MODE"
  const ENDPOINT: string := "VITE_OBSERVABLE_SELF_OBSERVABILITY_OTLP_ENDPOINT"
  const WEB_DEFAULTS: map<string, string> := map[MODE := "self", ENDPOINT := ""]

  /** The arguments a recipe has to declare, each with its default, if it has one. */
  type Declarations = map<string, Option<string>>

  const WEB_EXPECTED: Declarations := map[MODE := Some("self"), ENDPOINT := Some("")]
  const RUST_EXPECTED: Declarations := map["SERVICE" := None]

  datatype Declaration = Declaration(name: string, default: Option<string>)

  /** `s.partition(mark)` as a name and, if the mark is there, what follows it. */
  function SplitOnce(s: string, mark: char): Declaration {
    if s == [] then Declaration("", None)
    else if s[0] == mark then Declaration("", Some(s[1..]))
    else
      var rest := SplitOnce(s[1..], mark);
      Declaration([s[0]] + rest.name, rest.default)
  }

  /** The declaration of an ARG instruction. */
  function ArgOf(line: string): Option<Declaration> {
    match InstructionParts(line)
    case None => None
    case Some(parts) => if Lower(parts.keyword) == "arg" then Some(SplitOnce(parts.rest, '=')) else None
  }

  predicate Reviewed(d: Declaration, expected: Declarations) { d.name in expected && expected[d.name] == d.default }

  predicate LineReviewed(line: string, expected: Declarations) {
    ArgOf(line).Some? ==> Reviewed(ArgOf(line).value, expected)
  }

  predicate Declares(line: string, name: string) { ArgOf(line).Some? && ArgOf(line).value.name == name }

  ghost predicate StageReviewed(lines: seq<string>, expected: Declarations) {
    forall line | line in lines :: LineReviewed(line, expected)
  }

  ghost predicate StageDeclares(lines: seq<string>, name: string) {
    exists line :: line in lines && Declares(line, name)
  }

  /** Every ARG of a reached stage is expected with its default, and every expected argument is declared in one of
      them. */
  ghost predicate DeclaresExactly(g: Graph, reached: set<nat>, expected: Declarations) {
    && (forall i | i in reached && i < |g.stages| :: StageReviewed(g.stages[i].instructions, expected))
    && (forall name | name in expected :: DeclaredIn(g, reached, name))
  }

  ghost predicate DeclaredIn(g: Graph, reached: set<nat>, name: string) {
    exists i :: i in reached && i < |g.stages| && StageDeclares(g.stages[i].instructions, name)
  }

  /** What the two loops gather; the values are determined by the names, as all of them are reviewed. */
  method ReadStage(
    lines: seq<string>, expected: Declarations, declared: Declarations) returns (ok: bool, after: Declarations)
    requires forall n | n in declared :: n in expected && declared[n] == expected[n]
    ensures ok <==> StageReviewed(lines, expected)
    ensures ok ==> forall n | n in after :: n in expected && after[n] == expected[n]
    ensures ok ==> forall n :: n in after <==> n in declared || StageDeclares(lines, n)
  {
    hide ArgOf;
    after := declared;
    for k := 0 to |lines|
      invariant forall n | n in after :: n in expected && after[n] == expected[n]
      invariant forall n :: n in after <==> n in declared || exists j :: 0 <= j < k && Declares(lines[j], n)
      invariant forall j | 0 <= j < k :: LineReviewed(lines[j], expected)
    {
      assert lines[k] in lines;
      match ArgOf(lines[k]) {
        case None =>
        case Some(d) =>
          if d.name !in expected || d.default != expected[d.name] { return false, after; }
          after := after[d.name := d.default];
      }
    }
    ok := true;
  }

  /** The declarations are those of the first `k` stages of the walk, all of them reviewed. */
  ghost predicate Declared(g: Graph, order: seq<nat>, k: nat, expected: Declarations, declared: Declarations)
    requires k <= |order| && forall j | 0 <= j < |order| :: order[j] < |g.stages|
  {
    && (forall n | n in declared :: n in expected && declared[n] == expected[n])
    && (forall n :: n in declared <==> exists j :: 0 <= j < k && StageDeclares(g.stages[order[j]].instructions, n))
    && (forall j | 0 <= j < k :: StageReviewed(g.stages[order[j]].instructions, expected))
  }

  lemma DeclaredStep(
    g: Graph, order: seq<nat>, k: nat, expected: Declarations, declared: Declarations, after: Declarations)
    requires k < |order| && (forall j | 0 <= j < |order| :: order[j] < |g.stages|)
             && Declared(g, order, k, expected, declared)
    requires StageReviewed(g.stages[order[k]].instructions, expected)
    requires forall n | n in after :: n in expected && after[n] == expected[n]
    requires forall n :: n in after <==> n in declared || StageDeclares(g.stages[order[k]].instructions, n)
    ensures Declared(g, order, k + 1, expected, after)
  {
    hide StageReviewed, StageDeclares;
  }

  lemma DeclaredEnd(g: Graph, order: seq<nat>, reached: set<nat>, expected: Declarations, declared: Declarations)
    requires Lists(order, reached) && (forall j | 0 <= j < |order| :: order[j] < |g.stages|)
    requires Declared(g, order, |order|, expected, declared)
    ensures declared == expected <==> DeclaresExactly(g, reached, expected)
  {
    hide StageReviewed, StageDeclares;
    InOrder(g, order, reached);
    hide Lists;
    assert declared == expected <==> forall n | n in expected :: n in declared;
  }

  method CheckDeclarations(g: Graph, start: nat, expected: Declarations) returns (ok: bool)
    requires PointsBack(g) && start < |g.stages|
    ensures ok <==> DeclaresExactly(g, ReachableStages(g, start), expected)
  {
    hide StageReviewed, StageDeclares, PointsBack, ReachableStages, Lists;
    var order := WalkStages(g, start);
    var declared: Declarations := map[];
    assert forall j | 0 <= j < |order| :: order[j] in order;
    for k := 0 to |order|
      invariant forall j | 0 <= j < |order| :: order[j] < |g.stages|
      invariant Declared(g, order, k, expected, declared)
    {
      ghost var before := declared;
      ok, declared := ReadStage(g.stages[order[k]].instructions, expected, declared);
      if !ok {
        NotReviewed(g, order, k, ReachableStages(g, start), expected);
        return;
      }
      DeclaredStep(g, order, k, expected, before, declared);
    }
    ok := declared == expected;
    DeclaredEnd(g, order, ReachableStages(g, start), expected, declared);
  }

  lemma NotReviewed(g: Graph, order: seq<nat>, k: nat, reached: set<nat>, expected: Declarations)
    requires Lists(order, reached) && k < |order| && order[k] < |g.stages|
    requires !StageReviewed(g.stages[order[k]].instructions, expected)
    ensures !DeclaresExactly(g, reached, expected)
  {
    hide StageReviewed;
    assert order[k] in order;
  }

  lemma InOrder(g: Graph, order: seq<nat>, reached: set<nat>)
    requires Lists(order, reached) && forall j | 0 <= j < |order| :: order[j] < |g.stages|
    ensures forall n ::
              DeclaredIn(g, reached, n)
              <==> exists j :: 0 <= j < |order| && StageDeclares(g.stages[order[j]].instructions, n)
    ensures forall i | i in reached :: exists j :: 0 <= j < |order| && order[j] == i
  {
    hide StageDeclares;
    forall n
      ensures DeclaredIn(g, reached, n)
              <==> exists j :: 0 <= j < |order| && StageDeclares(g.stages[order[j]].instructions, n) {
      if DeclaredIn(g, reached, n) {
        var i :| i in reached && i < |g.stages| && StageDeclares(g.stages[i].instructions, n);
        assert i in order;
      }
      if j :| 0 <= j < |order| && StageDeclares(g.stages[order[j]].instructions, n) {
        assert order[j] in order;
      }
    }
  }

  /* ----- the arguments ----- */

  const RUNTIME: string := "component-runtime"

  /** The web recipe is built to its last stage, every other to the runtime stage. */
  function StartOf(component: string, g: Graph): Option<nat>
    requires g.stages != []
  {
    if component == "web" then Some(|g.stages| - 1)
    else if RUNTIME in g.names then Some(g.names[RUNTIME])
    else None
  }

  function ExpectedBy(component: string): Declarations { if component == "web" then WEB_EXPECTED else RUST_EXPECTED }

  predicate IsPlain(value: string) { forall i | 0 <= i < |value| :: ' ' <= value[i] && value[i] != '\U{7F}' }

  /** `endpointOk`: the endpoint is a URL without credentials. */
  predicate OverridesOk(component: string, overrides: map<string, string>, endpointOk: string -> bool) {
    if component != "web" then component in Inventory.RUST_COMPONENTS && overrides == map[]
    else
      && (forall k | k in overrides :: k in WEB_DEFAULTS && IsPlain(overrides[k]))
      && (WEB_DEFAULTS + overrides)[MODE] in {"self", "observer_instance"}
      && endpointOk((WEB_DEFAULTS + overrides)[ENDPOINT])
  }

  function Arguments(component: string, overrides: map<string, string>): map<string, string> {
    if component == "web" then WEB_DEFAULTS + overrides
    else if component in Inventory.RUST_COMPONENTS then map["SERVICE" := Inventory.RUST_COMPONENTS[component]]
    else map[]
  }

  ghost predicate RecipeReviewed(component: string, lines: seq<string>) {
    var graph := StageGraph(Instructions(lines, ""));
    && graph.Some? && StartOf(component, graph.value).Some?
    && DeclaresExactly(graph.value, ReachableStages(graph.value, StartOf(component, graph.value).value),
       ExpectedBy(component))
  }

  /** Arguments are accepted exactly when the stages that the component is built from declare exactly the reviewed ones
      and the overrides are public configuration of the web component. */
  method EffectiveBuildArgs(
    component: string, lines: seq<string>, overrides: map<string, string>, endpointOk: string -> bool)
    returns (r: Option<map<string, string>>)
    ensures r == if RecipeReviewed(component, lines) && OverridesOk(component, overrides, endpointOk)
                 then Some(Arguments(component, overrides)) else None
  {
    var instructions := InstructionsLoop(lines);
    var graph := StageGraphLoop(instructions);
    if graph.None? { return None; }
    StageGraphPointsBack(instructions);
    var start := StartOf(component, graph.value);
    if start.None? { return None; }
    var ok := CheckDeclarations(graph.value, start.value, ExpectedBy(component));
    if !ok { return None; }
    r := if OverridesOk(component, overrides, endpointOk) then Some(Arguments(component, overrides)) else None;
  }

  lemma DeclarationsAlike(a: Graph, b: Graph, reached: set<nat>, expected: Declarations)
    requires Recipe.Alike(a, b, reached)
    ensures DeclaresExactly(a, reached, expected) <==> DeclaresExactly(b, reached, expected)
  {
    hide StageReviewed, StageDeclares;
    forall n ensures DeclaredIn(a, reached, n) <==> DeclaredIn(b, reached, n) {}
  }

  /** Rewriting the bodies of stages that the component is not built from changes neither the start stage nor whether
      the declared arguments are the reviewed ones. */
  lemma UnreachableArgumentsDoNotMatter(
    a: seq<Recipe.Block>, b: seq<Recipe.Block>, component: string, expected: Declarations)
    requires StageGraph(Recipe.Flatten(a)).Some? && StageGraph(Recipe.Flatten(b)).Some?
    requires var g := StageGraph(Recipe.Flatten(a)).value;
      StartOf(component, g).Some? && Recipe.SameOutside(a, b, ReachableStages(g, StartOf(component, g).value))
    ensures var g, h := StageGraph(Recipe.Flatten(a)).value, StageGraph(Recipe.Flatten(b)).value;
      StartOf(component, h) == StartOf(component, g)
      && (DeclaresExactly(g, ReachableStages(g, StartOf(component, g).value), expected) <==>
            DeclaresExactly(h, ReachableStages(h, StartOf(component, g).value), expected))
  {
    var g, h := StageGraph(Recipe.Flatten(a)).value, StageGraph(Recipe.Flatten(b)).value;
    var start := StartOf(component, g).value;
    StageGraphPointsBack(Recipe.Flatten(a));
    StageGraphPointsBack(Recipe.Flatten(b));
    Recipe.RunAlike(a, b, ReachableStages(g, start));
    hide Recipe.SameOutside, Recipe.Flatten, DeclaresExactly, ReachableStages, Run;
    Recipe.ReachAlike(g, h, start);
    DeclarationsAlike(g, h, ReachableStages(g, start), expected);
  }

  /* ----- what the declarations mean, read off the lines ----- */

  /** The line is `ARG name` or `ARG name=value`. */
  ghost predicate IsArg(line: string, d: Declaration) {
    exists text :: RecipeMeaning.IsCommand(line, "arg", text) && Writes(text, d)
  }

  ghost predicate Writes(text: string, d: Declaration) {
    '=' !in d.name && text == d.name + if d.default.Some? then "=" + d.default.value else ""
  }

  lemma WritesNameFirst(text: string, d: Declaration)
    requires Writes(text, d)
    ensures d.name != "" ==> text != "" && text[0] == d.name[0] && text[0] != '='
  {
  }

  lemma {:induction false} SplitOnceMeans(text: string, d: Declaration)
    ensures SplitOnce(text, '=') == d <==> Writes(text, d)
  {
    if text == "" {
      assert d.name + "" == d.name;
    } else if text[0] == '=' {
      if Writes(text, d) {
        WritesNameFirst(text, d);
        assert text[1..] == d.default.value;
      }
      if SplitOnce(text, '=') == d { assert text == "" + ("=" + d.default.value); }
    } else if d.name != "" {
      var rest := Declaration(d.name[1..], d.default);
      SplitOnceMeans(text[1..], rest);
      assert d.name == [d.name[0]] + rest.name;
      if Writes(text, d) {
        assert text[1..] == rest.name + if d.default.Some? then "=" + d.default.value else "";
      }
      if SplitOnce(text, '=') == d {
        assert SplitOnce(text[1..], '=') == rest;
        assert text == [text[0]] + text[1..];
      }
    }
  }

  lemma ArgMeans(line: string, d: Declaration)
    ensures ArgOf(line) == Some(d) <==> IsArg(line, d)
  {
    forall text ensures RecipeMeaning.IsCommand(line, "arg", text) <==>
                          && InstructionParts(line).Some? && Lower(InstructionParts(line).value.keyword) == "arg"
                          && InstructionParts(line).value.rest == text {
      RecipeMeaning.CommandMeans(line, "arg", text);
    }
    hide RecipeMeaning.IsCommand, InstructionParts, Lower, SplitOnce, Writes;
    forall text ensures SplitOnce(text, '=') == d <==> Writes(text, d) { SplitOnceMeans(text, d); }
    if ArgOf(line) == Some(d) {
      assert RecipeMeaning.IsCommand(line, "arg", InstructionParts(line).value.rest);
    }
  }

  /** The web recipe is built to its last stage, every other to the last stage named `component-runtime`. */
  ghost predicate IsStart(blocks: seq<Recipe.Block>, component: string, start: nat) {
    if component == "web" then start + 1 == |blocks| else LastNamed(StageNames(blocks), "component-runtime", start)
  }

  /** The reviewed arguments with their defaults. */
  ghost predicate IsReviewed(component: string, d: Declaration) {
    if component == "web" then
      || d == Declaration("VITE_OBSERVABLE_SELF_OBSERVABILITY_MODE", Some("self"))
      || d == Declaration("VITE_OBSERVABLE_SELF_OBSERVABILITY_OTLP_ENDPOINT", Some(""))
    else d == Declaration("SERVICE", None)
  }

  /** The stages that the start is built from declare the argument. */
  ghost predicate IsDeclared(blocks: seq<Recipe.Block>, start: nat, d: Declaration) {
    exists i: nat, line ::
      i < |blocks| && RecipeMeaning.IsBuilt(blocks, start, i) && line in blocks[i].body && IsArg(line, d)
  }

  lemma ReviewedMeans(component: string, d: Declaration)
    ensures Reviewed(d, ExpectedBy(component)) <==> IsReviewed(component, d)
  {
    assert MODE != ENDPOINT by { assert |MODE| != |ENDPOINT|; }
  }

  lemma StartMeans(blocks: seq<Recipe.Block>, g: Graph, component: string, start: nat)
    requires Describes(blocks, g) && HasNames(g, StageNames(blocks)) && blocks != []
    ensures StartOf(component, g) == Some(start) <==> IsStart(blocks, component, start)
  {
    LowerIs("component-runtime", RUNTIME);
    assert Lower(RUNTIME) == RUNTIME;
    var names := StageNames(blocks);
    if component != "web" {
      if LastNamed(names, RUNTIME, start) {
        assert IsNamed(names, RUNTIME);
        LastIsOne(names, RUNTIME, start, g.names[RUNTIME]);
      }
    }
  }

  lemma StageReviewedMeans(body: seq<string>, component: string)
    ensures StageReviewed(body, ExpectedBy(component))
            <==> forall line, d | line in body && IsArg(line, d) :: IsReviewed(component, d)
  {
    hide ArgOf, IsArg, Reviewed, IsReviewed, ExpectedBy;
    forall line ensures LineReviewed(line, ExpectedBy(component))
                        <==> forall d | IsArg(line, d) :: IsReviewed(component, d) {
      forall d ensures ArgOf(line) == Some(d) <==> IsArg(line, d) { ArgMeans(line, d); }
      if ArgOf(line).Some? { ReviewedMeans(component, ArgOf(line).value); }
    }
    hide LineReviewed;
  }

  lemma StageDeclaresMeans(body: seq<string>, name: string)
    ensures StageDeclares(body, name) <==> exists line, d :: line in body && IsArg(line, d) && d.name == name
  {
    hide ArgOf, IsArg;
    forall line, d ensures ArgOf(line) == Some(d) <==> IsArg(line, d) { ArgMeans(line, d); }
    if StageDeclares(body, name) {
      var line :| line in body && Declares(line, name);
      assert IsArg(line, ArgOf(line).value);
    }
  }

  lemma AllReviewedMean(
    blocks: seq<Recipe.Block>, g: Graph, component: string, start: nat, reached: set<nat>)
    requires RecipeMeaning.Matches(blocks, g, start, reached)
    ensures (forall i | i in reached && i < |g.stages| ::
               StageReviewed(g.stages[i].instructions, ExpectedBy(component)))
            <==> forall d | IsDeclared(blocks, start, d) :: IsReviewed(component, d)
  {
    hide RecipeMeaning.IsBuilt, StageReviewed, IsArg, ExpectedBy, IsReviewed, UsesImage, RecipeMeaning.StageMatches;
    forall i: nat | i < |blocks|
      ensures StageReviewed(g.stages[i].instructions, ExpectedBy(component))
              <==> forall line, d | line in blocks[i].body && IsArg(line, d) :: IsReviewed(component, d) {
      BodyOf(blocks, g, start, reached, i);
      StageReviewedMeans(blocks[i].body, component);
    }
  }

  lemma BodyOf(blocks: seq<Recipe.Block>, g: Graph, start: nat, reached: set<nat>, i: nat)
    requires RecipeMeaning.Matches(blocks, g, start, reached) && i < |blocks|
    ensures g.stages[i].instructions == blocks[i].body
  {
    assert RecipeMeaning.StageMatches(blocks, g.stages[i], i);
  }

  lemma DeclaredInMeans(
    blocks: seq<Recipe.Block>, g: Graph, start: nat, reached: set<nat>, name: string)
    requires RecipeMeaning.Matches(blocks, g, start, reached)
    ensures DeclaredIn(g, reached, name) <==> exists d :: IsDeclared(blocks, start, d) && d.name == name
  {
    hide RecipeMeaning.IsBuilt, StageDeclares, IsArg, UsesImage, RecipeMeaning.StageMatches;
    forall i: nat | i < |blocks|
      ensures StageDeclares(g.stages[i].instructions, name)
              <==> exists line, d :: line in blocks[i].body && IsArg(line, d) && d.name == name {
      BodyOf(blocks, g, start, reached, i);
      StageDeclaresMeans(blocks[i].body, name);
    }
    if DeclaredIn(g, reached, name) {
      var i :| i in reached && i < |g.stages| && StageDeclares(g.stages[i].instructions, name);
      var line, d :| line in blocks[i].body && IsArg(line, d) && d.name == name;
      assert IsDeclared(blocks, start, d);
    }
    if d :| IsDeclared(blocks, start, d) && d.name == name {
      var i: nat, line :|
        i < |blocks| && RecipeMeaning.IsBuilt(blocks, start, i) && line in blocks[i].body && IsArg(line, d);
      assert i in reached && StageDeclares(g.stages[i].instructions, name);
    }
  }

  lemma DeclaredMeans(
    blocks: seq<Recipe.Block>, g: Graph, component: string, start: nat, reached: set<nat>)
    requires RecipeMeaning.Matches(blocks, g, start, reached)
    ensures DeclaresExactly(g, reached, ExpectedBy(component)) <==>
              forall d :: IsDeclared(blocks, start, d) <==> IsReviewed(component, d)
  {
    AllReviewedMean(blocks, g, component, start, reached);
    forall name ensures DeclaredIn(g, reached, name) <==> exists d :: IsDeclared(blocks, start, d) && d.name == name {
      DeclaredInMeans(blocks, g, start, reached, name);
    }
    hide RecipeMeaning.Matches, IsDeclared, DeclaredIn, StageReviewed;
    ExpectedMeans(component);
    hide ExpectedBy, IsReviewed;
    if forall d :: IsDeclared(blocks, start, d) <==> IsReviewed(component, d) {
      forall name | name in ExpectedBy(component) ensures DeclaredIn(g, reached, name) {
        assert IsReviewed(component, Declaration(name, ExpectedBy(component)[name]));
      }
    }
    if DeclaresExactly(g, reached, ExpectedBy(component)) {
      forall d | IsReviewed(component, d) ensures IsDeclared(blocks, start, d) {
        assert DeclaredIn(g, reached, d.name);
      }
    }
  }

  lemma ExpectedMeans(component: string)
    ensures forall d :: IsReviewed(component, d)
                        <==> d.name in ExpectedBy(component) && ExpectedBy(component)[d.name] == d.default
  {
    forall d ensures IsReviewed(component, d)
                     <==> d.name in ExpectedBy(component) && ExpectedBy(component)[d.name] == d.default {
      ReviewedMeans(component, d);
    }
  }

  /** A recipe is reviewed exactly when its blocks are well-formed, the component's start stage is there, and the stages
      that it is built from declare exactly the reviewed arguments with their defaults. */
  lemma RecipeReviewedMeans(component: string, lines: seq<string>, blocks: seq<Recipe.Block>)
    requires RecipeMeaning.HasBlocks(lines, blocks)
    ensures RecipeReviewed(component, lines) <==>
              && blocks != [] && IsWellFormed(blocks)
              && exists start: nat ::
                   && IsStart(blocks, component, start)
                   && forall d :: IsDeclared(blocks, start, d) <==> IsReviewed(component, d)
  {
    StageGraphMeans(blocks);
    BlocksMean(blocks);
    if StageGraph(Recipe.Flatten(blocks)).Some? {
      var g := StageGraph(Recipe.Flatten(blocks)).value;
      StageGraphPointsBack(Recipe.Flatten(blocks));
      assert HasNames(g, StageNames(blocks));
      ReviewedOfGraph(component, blocks, g);
    }
    hide Recipe.Flatten, IsWellFormed, Describes, HasNames, IsStart, IsDeclared, IsReviewed, Instructions;
    hide DeclaresExactly, StartOf, ReachableStages;
  }

  lemma ReviewedOfGraph(component: string, blocks: seq<Recipe.Block>, g: Graph)
    requires Describes(blocks, g) && HasNames(g, StageNames(blocks)) && PointsBack(g) && blocks != []
    ensures g.stages != []
    ensures StartOf(component, g).Some?
            && DeclaresExactly(g, ReachableStages(g, StartOf(component, g).value), ExpectedBy(component))
            <==> exists start: nat ::
                   && IsStart(blocks, component, start)
                   && forall d :: IsDeclared(blocks, start, d) <==> IsReviewed(component, d)
  {
    RecipeMeaning.StagesOfBlocks(blocks, g);
    forall start: nat ensures StartOf(component, g) == Some(start) <==> IsStart(blocks, component, start) {
      StartMeans(blocks, g, component, start);
    }
    if StartOf(component, g).Some? {
      var start := StartOf(component, g).value;
      assert start < |g.stages|;
      RecipeMeaning.GraphMatches(blocks, g, start);
      DeclaredMeans(blocks, g, component, start, ReachableStages(g, start));
    }
    hide DeclaresExactly, StartOf, ReachableStages, IsStart, IsDeclared, IsReviewed, Describes, HasNames, PointsBack;
  }

  /** What is public configuration: for the web component printable values of its two arguments, with a known mode and
      an endpoint without credentials; for a service nothing. The effective arguments are then the given values where
      there are any and the defaults otherwise, or the service that the component is. */
  lemma EffectiveMeans(component: string, overrides: map<string, string>, endpointOk: string -> bool)
    ensures var mode, endpoint := "VITE_OBSERVABLE_SELF_OBSERVABILITY_MODE",
                                  "VITE_OBSERVABLE_SELF_OBSERVABILITY_OTLP_ENDPOINT";
      var args := Arguments(component, overrides);
      if component == "web" then
        && (OverridesOk(component, overrides, endpointOk) ==>
              && args.Keys == {mode, endpoint}
              && args[mode] == (if mode in overrides then overrides[mode] else "self")
              && args[endpoint] == (if endpoint in overrides then overrides[endpoint] else ""))
        && (OverridesOk(component, overrides, endpointOk) <==>
              && overrides.Keys <= {mode, endpoint}
              && (forall k, c | k in overrides && c in overrides[k] :: 0x20 <= c as int && c as int != 0x7F)
              && (mode in overrides ==> overrides[mode] == "self" || overrides[mode] == "observer_instance")
              && endpointOk(if endpoint in overrides then overrides[endpoint] else ""))
      else
        && (OverridesOk(component, overrides, endpointOk) <==>
              component in Inventory.RUST_COMPONENTS && overrides == map[])
        && (component in Inventory.RUST_COMPONENTS
            ==> args == map["SERVICE" := Inventory.RUST_COMPONENTS[component]])
  {
    assert MODE != ENDPOINT by { assert |MODE| != |ENDPOINT|; }
    forall k | k in overrides
      ensures IsPlain(overrides[k]) <==> forall c | c in overrides[k] :: 0x20 <= c as int && c as int != 0x7F {
      PlainMeans(overrides[k]);
    }
    hide IsPlain;
  }

  lemma PlainMeans(value: string)
    ensures IsPlain(value) <==> forall c | c in value :: 0x20 <= c as int && c as int != 0x7F
  {
    if forall c | c in value :: 0x20 <= c as int && c as int != 0x7F {
      forall i | 0 <= i < |value| ensures ' ' <= value[i] && value[i] != '\U{7F}' {
        assert value[i] in value;
      }
    }
  }
}

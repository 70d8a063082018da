/** A whole recipe: `parse_recipe`, and what it does not depend on. */
module Recipe {
  import opened Basics
  import opened Decimal
  import opened PyText
  import opened Reach
  import opened Dockerfile
  import opened LogicalLines

  /** The frontend named by a `# syntax=` comment on the first non-blank line. */
  function SyntaxDirective(lines: seq<string>): Option<string> {
    if lines == [] then None
    else
      var s := Strip(lines[0]);
      if s == "" then SyntaxDirective(lines[1..])
      else if s[0] != '#' then None
      else
        var t := StripLeft(s[1..]);
        if "syntax=" <= t && IsToken(t[7..]) then Some(t[7..]) else None
  }

  function StagesNamed(stages: seq<Stage>, name: string): set<nat> {
    set i: nat | i in UpTo(|stages|) && i < |stages| && Lower(stages[i].name) == Lower(name)
  }

  /** The stage to build: the last one, or the one stage with the name. */
  function StartStage(g: Graph, target: Option<string>): Option<nat>
    requires g.stages != []
  {
    match target
    case None => Some(|g.stages| - 1)
    case Some(name) =>
      var found := StagesNamed(g.stages, name);
      if |found| != 1 then None else Some(Only(found))
  }

  function Only(s: set<nat>): (x: nat)
    requires |s| == 1
    ensures s == {x}
  {
    OnlyExists(s);
    var x :| x in s && s == {x}; x
  }

  lemma OnlyExists(s: set<nat>)
    requires |s| == 1
    ensures exists x :: x in s && s == {x}
  {
    var x :| x in s;
    assert |s - {x}| == 0;
    assert s == {x};
  }

  lemma StartInRange(g: Graph, target: Option<string>)
    requires g.stages != [] && StartStage(g, target).Some?
    ensures StartStage(g, target).value < |g.stages|
  {
    if target.Some? {
      assert StartStage(g, target).value in StagesNamed(g.stages, target.value);
    }
  }

  datatype Parsed<M> = Parsed(evidence: Evidence<M>, frontend: Option<string>)

  /** What a recipe has to satisfy. */
  ghost predicate Parses(lines: seq<string>, target: Option<string>) {
    && (SyntaxDirective(lines).Some? ==> IsPinned(SyntaxDirective(lines).value))
    && StageGraph(Instructions(lines, "")).Some?
    && StartStage(StageGraph(Instructions(lines, "")).value, target).Some?
    && AllPinned(StageGraph(Instructions(lines, "")).value, Reached(lines, target))
  }

  ghost function Reached(lines: seq<string>, target: Option<string>): set<nat>
    requires StageGraph(Instructions(lines, "")).Some?
    requires StartStage(StageGraph(Instructions(lines, "")).value, target).Some?
  {
    var g := StageGraph(Instructions(lines, "")).value;
    ReachableStages(g, StartStage(g, target).value)
  }

  /** A recipe is accepted exactly when its frontend is pinned or absent, its stages are well-formed, its target is one
      stage and every external image reachable from there is pinned; the evidence is that of the reachable stages. */
  method ParseRecipe<M(!new)>(
    lines: seq<string>, target: Option<string>, extract: string -> set<M>) returns (r: Option<Parsed<M>>)
    ensures r.Some? <==> Parses(lines, target)
    ensures r.Some? ==> r.value.frontend == SyntaxDirective(lines)
    ensures r.Some?
            ==> IsEvidence(StageGraph(Instructions(lines, "")).value, Reached(lines, target), extract, r.value.evidence)
  {
    var frontend := SyntaxDirective(lines);
    if frontend.Some? && !IsPinned(frontend.value) { return None; }
    var instructions := InstructionsLoop(lines);
    var graph := StageGraphLoop(instructions);
    if graph.None? { return None; }
    StageGraphPointsBack(instructions);
    var start := StartStage(graph.value, target);
    if start.None? { return None; }
    StartInRange(graph.value, target);
    var evidence := Collect(graph.value, start.value, extract);
    r := if evidence.None? then None else Some(Parsed(evidence.value, frontend));
  }

  /** Every image that the evidence lists is pinned, and every external image of a reachable stage is listed. */
  lemma ListedImagesArePinned<M(!new)>(
    lines: seq<string>, target: Option<string>, extract: string -> set<M>, e: Evidence<M>)
    requires Parses(lines, target)
    requires IsEvidence(StageGraph(Instructions(lines, "")).value, Reached(lines, target), extract, e)
    ensures forall image | image in e.images :: IsPinned(image) && e.images[image] != {}
    ensures var g := StageGraph(Instructions(lines, "")).value;
      forall i, image | i in Reached(lines, target) && i < |g.stages| && image in ExternalReferences(g.stages[i]) ::
        image in e.images
  {
    var g := StageGraph(Instructions(lines, "")).value;
    forall image | image in e.images ensures IsPinned(image) && e.images[image] != {} {
      var i :| i in Reached(lines, target) && i < |g.stages| && image in ExternalReferences(g.stages[i]);
      assert StagePinned(g.stages[i]);
      assert g.stages[i].name in StagesUsing(g, Reached(lines, target), image);
    }
  }

  /* ----- what the body of an unreachable stage can change ----- */

  /** A FROM instruction and the instructions of its stage. */
  datatype Block = Block(from: string, body: seq<string>)

  ghost predicate IsBlock(b: Block) {
    IsFrom(b.from) && forall l | l in b.body :: !IsFrom(l)
  }

  ghost function Flatten(blocks: seq<Block>): seq<string> {
    if blocks == [] then []
      else Flatten(blocks[..|blocks| - 1]) + [blocks[|blocks| - 1].from] + blocks[|blocks| - 1].body
  }

  lemma {:induction false} RunAppend(g: Graph, a: seq<string>, b: seq<string>)
    ensures Run(g, a + b) == match Run(g, a) { case None => None case Some(mid) => Run(mid, b) }
    decreases |a|
  {
    if a == [] {
      assert a + b == b;
    } else {
      assert (a + b)[1..] == a[1..] + b;
      match Step(g, a[0])
      case None =>
      case Some(next) => RunAppend(next, a[1..], b);
    }
  }

  /** Apart from instructions and copies the two stages are alike. */
  ghost predicate SameHead(a: Stage, b: Stage) {
    a.index == b.index && a.name == b.name && a.reference == b.reference && a.internal == b.internal
  }

  /** The graphs differ at most in the bodies of stages outside `keep`. */
  ghost predicate Alike(a: Graph, b: Graph, keep: set<nat>) {
    && |a.stages| == |b.stages| && a.names == b.names
    && (forall i | 0 <= i < |a.stages| :: SameHead(a.stages[i], b.stages[i]))
    && (forall i | i in keep && i < |a.stages| :: a.stages[i] == b.stages[i])
  }

  lemma {:induction false} CopyReferencesAlike(a: Graph, b: Graph, tokens: seq<string>)
    requires |a.stages| == |b.stages| && a.names == b.names
    ensures CopyReferences(a, tokens) == CopyReferences(b, tokens)
  {
    if tokens != [] { CopyReferencesAlike(a, b, tokens[..|tokens| - 1]); }
  }

  lemma FromAlike(a: Graph, b: Graph, keep: set<nat>, line: string)
    requires Alike(a, b, keep) && IsFrom(line)
    ensures Step(a, line).Some? <==> Step(b, line).Some?
    ensures Step(a, line).Some? ==> Alike(Step(a, line).value, Step(b, line).value, keep)
    ensures Step(a, line).Some? ==> |Step(a, line).value.stages| == |a.stages| + 1
  {
  }

  /** One body instruction changes the body of the last stage only. */
  lemma BodyStep(a: Graph, line: string)
    requires a.stages != [] && !IsFrom(line) && Step(a, line).Some?
    ensures var n := Step(a, line).value;
      && |n.stages| == |a.stages| && n.names == a.names
      && (forall i | 0 <= i < |a.stages| - 1 :: n.stages[i] == a.stages[i])
      && SameHead(n.stages[|a.stages| - 1], a.stages[|a.stages| - 1])
  {
  }

  lemma {:induction false} BodyRun(a: Graph, body: seq<string>)
    requires a.stages != [] && (forall l | l in body :: !IsFrom(l)) && Run(a, body).Some?
    ensures var n := Run(a, body).value;
      && |n.stages| == |a.stages| && n.names == a.names
      && (forall i | 0 <= i < |a.stages| - 1 :: n.stages[i] == a.stages[i])
      && SameHead(n.stages[|a.stages| - 1], a.stages[|a.stages| - 1])
    decreases |body|
  {
    if body != [] {
      assert body[0] in body;
      BodyStep(a, body[0]);
      assert forall l | l in body[1..] :: l in body;
      BodyRun(Step(a, body[0]).value, body[1..]);
    }
  }

  lemma SameBodyStep(a: Graph, b: Graph, line: string)
    requires a.stages != [] && |a.stages| == |b.stages| && a.names == b.names && !IsFrom(line)
    requires a.stages[|a.stages| - 1] == b.stages[|b.stages| - 1]
    ensures Step(a, line).Some? <==> Step(b, line).Some?
    ensures Step(a, line).Some? ==>
              Step(a, line).value.stages != []
              && |Step(a, line).value.stages| == |Step(b, line).value.stages| == |a.stages|
              && Step(a, line).value.names == Step(b, line).value.names
              && Step(a, line).value.stages[|a.stages| - 1] == Step(b, line).value.stages[|a.stages| - 1]
  {
    match InstructionParts(line)
    case None =>
    case Some(parts) => CopyReferencesAlike(a, b, Tokens(parts.rest));
  }

  lemma {:induction false} SameBodyRun(a: Graph, b: Graph, body: seq<string>)
    requires a.stages != [] && |a.stages| == |b.stages| && a.names == b.names && forall l | l in body :: !IsFrom(l)
    requires a.stages[|a.stages| - 1] == b.stages[|b.stages| - 1]
    ensures Run(a, body).Some? ==>
              Run(b, body).Some? && |Run(a, body).value.stages| == |Run(b, body).value.stages| == |a.stages|
              && Run(a, body).value.stages[|a.stages| - 1] == Run(b, body).value.stages[|a.stages| - 1]
    decreases |body|
  {
    if body != [] {
      assert body[0] in body;
      SameBodyStep(a, b, body[0]);
      assert forall l | l in body[1..] :: l in body;
      if Step(a, body[0]).Some? { SameBodyRun(Step(a, body[0]).value, Step(b, body[0]).value, body[1..]); }
    }
  }

  ghost predicate SameOutside(a: seq<Block>, b: seq<Block>, keep: set<nat>) {
    && |a| == |b|
    && (forall i | 0 <= i < |a| :: IsBlock(a[i]) && IsBlock(b[i]) && a[i].from == b[i].from)
    && (forall i | i in keep && i < |a| :: a[i] == b[i])
  }

  /** What running the blocks makes of the empty graph. */
  ghost function RunBlocks(blocks: seq<Block>): Option<Graph> {
    Run(EMPTY, Flatten(blocks))
  }

  /** What one block makes of a graph. */
  ghost function RunBlock(g: Graph, b: Block): Option<Graph> {
    match Step(g, b.from)
    case None => None
    case Some(h) => Run(h, b.body)
  }

  lemma RunFlatten(blocks: seq<Block>)
    requires blocks != []
    ensures var front, last := blocks[..|blocks| - 1], blocks[|blocks| - 1];
      RunBlocks(blocks) ==
        match RunBlocks(front) {
          case None => None
          case Some(g) => RunBlock(g, last)
        }
  {
    var front, last := blocks[..|blocks| - 1], blocks[|blocks| - 1];
    RunAppend(EMPTY, Flatten(front) + [last.from], last.body);
    RunAppend(EMPTY, Flatten(front), [last.from]);
    if Run(EMPTY, Flatten(front)).Some? {
      var g := Run(EMPTY, Flatten(front)).value;
      assert Run(g, [last.from]) == Step(g, last.from) by { assert [last.from][1..] == []; }
    }
  }

  lemma FrontAlike(a: seq<Block>, b: seq<Block>, keep: set<nat>)
    requires SameOutside(a, b, keep) && a != []
    ensures SameOutside(a[..|a| - 1], b[..|a| - 1], keep)
    ensures var x, y := a[|a| - 1], b[|a| - 1];
              IsBlock(x) && IsBlock(y) && x.from == y.from && (|a| - 1 in keep ==> x == y)
  {
  }

  lemma {:induction false} RunAlike(a: seq<Block>, b: seq<Block>, keep: set<nat>)
    requires SameOutside(a, b, keep) && RunBlocks(a).Some? && RunBlocks(b).Some?
    ensures Alike(RunBlocks(a).value, RunBlocks(b).value, keep) && |RunBlocks(a).value.stages| == |a|
    decreases |a|
  {
    if a == [] {
      assert Flatten(a) == Flatten(b) == [];
    } else {
      var n := |a| - 1;
      FrontAlike(a, b, keep);
      RunFlatten(a);
      RunFlatten(b);
      hide RunBlocks, RunBlock, Alike, SameOutside, IsBlock;
      RunAlike(a[..n], b[..n], keep);
      BlockAlike(RunBlocks(a[..n]).value, RunBlocks(b[..n]).value, a[n], b[n], keep);
    }
  }

  lemma BlockAlike(ga: Graph, gb: Graph, a: Block, b: Block, keep: set<nat>)
    requires Alike(ga, gb, keep) && IsBlock(a) && IsBlock(b) && a.from == b.from
    requires |ga.stages| in keep ==> a == b
    requires RunBlock(ga, a).Some? && RunBlock(gb, b).Some?
    ensures Alike(RunBlock(ga, a).value, RunBlock(gb, b).value, keep)
    ensures |RunBlock(ga, a).value.stages| == |ga.stages| + 1
  {
    FromAlike(ga, gb, keep + {|ga.stages|}, a.from);
    var ha, hb := Step(ga, a.from).value, Step(gb, b.from).value;
    BodyRun(ha, a.body);
    BodyRun(hb, b.body);
    if |ga.stages| in keep { SameBodyRun(ha, hb, a.body); }
    BodiesAlike(ha, hb, Run(ha, a.body).value, Run(hb, b.body).value, keep);
  }

  lemma BodiesAlike(ha: Graph, hb: Graph, na: Graph, nb: Graph, keep: set<nat>)
    requires Alike(ha, hb, keep) && ha.stages != []
    requires |na.stages| == |ha.stages| && na.names == ha.names && |nb.stages| == |hb.stages| && nb.names == hb.names
    requires forall i | 0 <= i < |ha.stages| - 1 :: na.stages[i] == ha.stages[i] && nb.stages[i] == hb.stages[i]
    requires SameHead(na.stages[|ha.stages| - 1], ha.stages[|ha.stages| - 1])
    requires SameHead(nb.stages[|ha.stages| - 1], hb.stages[|ha.stages| - 1])
    requires |ha.stages| - 1 in keep ==> na.stages[|ha.stages| - 1] == nb.stages[|ha.stages| - 1]
    ensures Alike(na, nb, keep)
  {
    assert SameHead(ha.stages[|ha.stages| - 1], hb.stages[|ha.stages| - 1]);
    forall i | 0 <= i < |na.stages| ensures SameHead(na.stages[i], nb.stages[i]) {
      assert SameHead(ha.stages[i], hb.stages[i]);
    }
  }

  lemma {:induction false} PathAlike(a: Graph, b: Graph, start: nat, p: seq<nat>)
    requires PointsBack(a) && start < |a.stages| && Alike(a, b, ReachableStages(a, start))
    requires IsPath(Uses(a.stages), p) && p[0] == start
    ensures Reachable(Uses(b.stages), {start}, p[|p| - 1])
  {
    if |p| == 1 {
      RootReachable(Uses(b.stages), {start}, start);
    } else {
      var front := p[..|p| - 1];
      PathAlike(a, b, start, front);
      var x := front[|front| - 1];
      ReachableStagesIsReach(a, start);
      assert Reachable(Uses(a.stages), {start}, x);
      assert x in ReachableStages(a, start);
      assert p[|p| - 1] in Uses(a.stages)(x);
      StepReachable(Uses(b.stages), {start}, x, p[|p| - 1]);
    }
  }

  lemma AlsoReached(a: Graph, b: Graph, start: nat, i: nat)
    requires PointsBack(a) && start < |a.stages| && Alike(a, b, ReachableStages(a, start))
             && i in ReachableStages(a, start)
    ensures Reachable(Uses(b.stages), {start}, i)
  {
    var p :| IsPath(Uses(a.stages), p) && p[0] in {start} && p[|p| - 1] == i;
    PathAlike(a, b, start, p);
  }

  lemma UsesAlike(a: Graph, b: Graph, keep: set<nat>, i: nat)
    requires Alike(a, b, keep) && i in keep
    ensures Uses(a.stages)(i) == Uses(b.stages)(i)
  {
  }

  lemma ClosedAlike(a: Graph, b: Graph, keep: set<nat>)
    requires Alike(a, b, keep) && Closed(Uses(a.stages), keep)
    ensures Closed(Uses(b.stages), keep)
  {
    forall i | i in keep ensures Uses(b.stages)(i) <= keep { UsesAlike(a, b, keep, i); }
  }

  lemma ReachedClosed(g: Graph, start: nat)
    requires PointsBack(g) && start < |g.stages|
    ensures start in ReachableStages(g, start) && Closed(Uses(g.stages), ReachableStages(g, start))
  {
    ReachableStagesIsReach(g, start);
    ReachIsLeast(Uses(g.stages), {start}, ReachableStages(g, start), {});
  }

  lemma ClosedIsReached(g: Graph, start: nat, reached: set<nat>)
    requires PointsBack(g) && start < |g.stages| && start in reached && Closed(Uses(g.stages), reached)
    requires forall i | i in reached :: Reachable(Uses(g.stages), {start}, i)
    ensures reached == ReachableStages(g, start)
  {
    ClosedIsReach(Uses(g.stages), {start}, reached);
    ReachableStagesIsReach(g, start);
    ReachUnique(Uses(g.stages), {start}, reached, ReachableStages(g, start));
  }

  lemma ReachAlike(a: Graph, b: Graph, start: nat)
    requires PointsBack(a) && PointsBack(b) && start < |a.stages| && Alike(a, b, ReachableStages(a, start))
    ensures ReachableStages(b, start) == ReachableStages(a, start)
  {
    ReachedClosed(a, start);
    ClosedAlike(a, b, ReachableStages(a, start));
    AllAlsoReached(a, b, start);
    ClosedIsReached(b, start, ReachableStages(a, start));
  }

  lemma AllAlsoReached(a: Graph, b: Graph, start: nat)
    requires PointsBack(a) && start < |a.stages| && Alike(a, b, ReachableStages(a, start))
    ensures forall i | i in ReachableStages(a, start) :: Reachable(Uses(b.stages), {start}, i)
  {
    forall i | i in ReachableStages(a, start)
      ensures Reachable(Uses(b.stages), {start}, i) { AlsoReached(a, b, start, i); }
  }

  lemma ImagesAlike(a: Graph, b: Graph, reached: set<nat>)
    requires Alike(a, b, reached)
    ensures ImageNames(a, reached) == ImageNames(b, reached)
    ensures forall r :: StagesUsing(a, reached, r) == StagesUsing(b, reached, r)
  {
  }

  lemma MaterialsAlike<M(!new)>(a: Graph, b: Graph, reached: set<nat>, extract: string -> set<M>)
    requires Alike(a, b, reached)
    ensures AllMaterials(a, reached, extract) == AllMaterials(b, reached, extract)
  {
  }

  lemma EvidenceAlike<M(!new)>(
    a: Graph, b: Graph, reached: set<nat>, extract: string -> set<M>, e: Evidence<M>, f: Evidence<M>)
    requires Alike(a, b, reached) && IsEvidence(a, reached, extract, e) && IsEvidence(b, reached, extract, f)
    ensures e == f
  {
    ImagesAlike(a, b, reached);
    MaterialsAlike(a, b, reached, extract);
    SameEntries(e.images, f.images);
  }

  lemma SameEntries(m: map<string, set<string>>, n: map<string, set<string>>)
    requires m.Keys == n.Keys && forall r | r in m :: m[r] == n[r]
    ensures m == n
  {
  }

  lemma StartAlike(a: Graph, b: Graph, keep: set<nat>, target: Option<string>)
    requires Alike(a, b, keep) && a.stages != []
    ensures StartStage(a, target) == StartStage(b, target)
  {
    if target.Some? {
      forall i | 0 <= i < |a.stages| ensures a.stages[i].name == b.stages[i].name {
        assert SameHead(a.stages[i], b.stages[i]);
      }
      assert StagesNamed(a.stages, target.value) == StagesNamed(b.stages, target.value);
    }
  }

  lemma PinnedAlike(a: Graph, b: Graph, reached: set<nat>)
    requires Alike(a, b, reached)
    ensures AllPinned(a, reached) <==> AllPinned(b, reached)
  {
  }

  /** The two recipes are well-formed, and `b` differs from `a` in bodies of stages alone that the target does not
      reach. */
  ghost predicate RewritesUnreachable(a: seq<Block>, b: seq<Block>, target: Option<string>) {
    && StageGraph(Flatten(a)).Some? && StageGraph(Flatten(b)).Some?
    && var g := StageGraph(Flatten(a)).value;
       StartStage(g, target).Some? && SameOutside(a, b, ReachableStages(g, StartStage(g, target).value))
  }

  /** Rewriting such bodies changes neither the start stage nor what is reached, nor whether all that is reached is
      pinned. */
  lemma UnreachableBodiesKeepReach(a: seq<Block>, b: seq<Block>, target: Option<string>)
    requires RewritesUnreachable(a, b, target)
    ensures var g, h := StageGraph(Flatten(a)).value, StageGraph(Flatten(b)).value;
      var start := StartStage(g, target).value;
      && StartStage(h, target) == Some(start) && ReachableStages(h, start) == ReachableStages(g, start)
      && Alike(g, h, ReachableStages(g, start))
      && (AllPinned(g, ReachableStages(g, start)) <==> AllPinned(h, ReachableStages(h, start)))
  {
    var g, h := StageGraph(Flatten(a)).value, StageGraph(Flatten(b)).value;
    var start := StartStage(g, target).value;
    StageGraphPointsBack(Flatten(a));
    StageGraphPointsBack(Flatten(b));
    StartInRange(g, target);
    RunAlike(a, b, ReachableStages(g, start));
    hide Flatten, SameOutside, ReachableStages, AllPinned, Alike, StartStage, PointsBack;
    StartAlike(g, h, ReachableStages(g, start), target);
    ReachAlike(g, h, start);
    PinnedAlike(g, h, ReachableStages(g, start));
  }

  /** Nor does it change images or materials. */
  lemma UnreachableBodiesDoNotMatter<M(!new)>(
    a: seq<Block>, b: seq<Block>, target: Option<string>, extract: string -> set<M>, e: Evidence<M>, f: Evidence<M>)
    requires RewritesUnreachable(a, b, target)
    requires var g := StageGraph(Flatten(a)).value;
      IsEvidence(g, ReachableStages(g, StartStage(g, target).value), extract, e)
    requires var h := StageGraph(Flatten(b)).value;
      StartStage(h, target).Some? ==> IsEvidence(h, ReachableStages(h, StartStage(h, target).value), extract, f)
    ensures f == e
  {
    UnreachableBodiesKeepReach(a, b, target);
    hide Flatten, SameOutside, ReachableStages, Alike, StartStage, IsEvidence;
    var g, h := StageGraph(Flatten(a)).value, StageGraph(Flatten(b)).value;
    EvidenceAlike(g, h, ReachableStages(g, StartStage(g, target).value), extract, e, f);
  }

  /* ----- as recipes of one instruction to a line ----- */

  lemma {:induction false} FlattenStart(blocks: seq<Block>)
    requires blocks != []
    ensures Flatten(blocks) != [] && Flatten(blocks)[0] == blocks[0].from
  {
    if |blocks| > 1 {
      FlattenStart(blocks[..|blocks| - 1]);
    } else {
      assert Flatten(blocks[..0]) == [];
    }
  }

  lemma NoDirective(blocks: seq<Block>)
    requires blocks != [] && IsPlain(blocks[0].from)
    ensures SyntaxDirective(Flatten(blocks)) == None
  {
    FlattenStart(blocks);
  }

  ghost predicate PlainBlocks(blocks: seq<Block>) {
    blocks != [] && IsPlain(blocks[0].from) && forall line | line in Flatten(blocks) :: IsPlain(line)
  }

  /** With its instructions written one to a line, a recipe is accepted before such a rewriting exactly if it is
      after. */
  lemma AcceptedBeforeIffAfter(a: seq<Block>, b: seq<Block>, target: Option<string>)
    requires RewritesUnreachable(a, b, target) && PlainBlocks(a) && PlainBlocks(b)
    ensures Parses(Flatten(a), target) <==> Parses(Flatten(b), target)
  {
    PlainLinesRoundTrip(Flatten(a));
    PlainLinesRoundTrip(Flatten(b));
    NoDirective(a);
    NoDirective(b);
    UnreachableBodiesKeepReach(a, b, target);
    hide Flatten, SameOutside, ReachableStages, AllPinned, Alike, StartStage, Instructions, SyntaxDirective, StageGraph;
  }
}

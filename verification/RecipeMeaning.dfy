/** When a recipe is accepted and what its evidence holds, read off its words. */
module RecipeMeaning {
  import opened Basics
  import opened Decimal
  import opened PyText
  import opened Reach
  import opened Dockerfile
  import opened Recipe
  import opened StageMeaning

  /* ----- a whole recipe ----- */

  /** The stage to build: the last one, or the only one with the name. */
  ghost predicate IsStart(blocks: seq<Block>, target: Option<string>, start: nat) {
    match target
    case None => start + 1 == |blocks|
    case Some(name) =>
      start < |blocks| && forall i | 0 <= i < |blocks| :: SameWord(StageNames(blocks)[i], name) <==> i == start
  }

  /** A chain of stages, each based on the next or copying from it, leads from the start to the stage. */
  ghost predicate IsBuilt(blocks: seq<Block>, start: nat, i: nat) { Reachable(UsedStages(blocks), {start}, i) }

  lemma UsesAre(blocks: seq<Block>, g: Graph, i: nat)
    requires Describes(blocks, g)
    ensures Uses(g.stages)(i) == UsedStages(blocks)(i)
  {
    if i < |blocks| {
      StageUses(blocks, g, i);
      hide Describes, Pushed, UsesStage;
      forall j: nat | UsesStage(blocks, i, j) ensures j in UpTo(|blocks|) { UsedBack(blocks, i, j); }
    }
  }

  lemma UsedBack(blocks: seq<Block>, i: nat, j: nat)
    requires UsesStage(blocks, i, j)
    ensures j < |blocks|
  {
    var names := StageNames(blocks);
    if RefersTo(names[..i], Tokens(blocks[i].from)[1], j) {
      RefersBack(names[..i], Tokens(blocks[i].from)[1], j);
    } else {
      var line, v :| line in blocks[i].body && CopiesFrom(line, v) && RefersTo(names[..i + 1], v, j);
      RefersBack(names[..i + 1], v, j);
    }
  }

  lemma BuiltAre(blocks: seq<Block>, g: Graph, start: nat)
    requires Describes(blocks, g) && PointsBack(g) && start < |blocks|
    ensures forall i: nat :: i in ReachableStages(g, start) <==> IsBuilt(blocks, start, i)
  {
    ReachableStagesIsReach(g, start);
    forall i: nat ensures Uses(g.stages)(i) == UsedStages(blocks)(i) { UsesAre(blocks, g, i); }
    hide Uses, UsedStages, ReachableStages, Describes, PointsBack, Reachable;
    forall i: nat ensures i in ReachableStages(g, start) <==> IsBuilt(blocks, start, i) {
      if Reachable(Uses(g.stages), {start}, i) { SameSteps(Uses(g.stages), UsedStages(blocks), {start}, i); }
      if Reachable(UsedStages(blocks), {start}, i) { SameSteps(UsedStages(blocks), Uses(g.stages), {start}, i); }
    }
  }

  lemma StartMeans(blocks: seq<Block>, g: Graph, target: Option<string>, start: nat)
    requires Describes(blocks, g) && blocks != []
    ensures StartStage(g, target) == Some(start) <==> IsStart(blocks, target, start)
  {
    if target.Some? {
      var found := StagesNamed(g.stages, target.value);
      forall i: nat | i < |blocks|
        ensures i in found <==> SameWord(StageNames(blocks)[i], target.value) {
        LowerMeans(g.stages[i].name, target.value);
        assert IsStageOf(StageNames(blocks)[..i], blocks[i], g.stages[i]);
      }
      hide Lower, SameWord, Describes, IsStageOf;
      if IsStart(blocks, target, start) { assert found == {start}; }
      if StartStage(g, target) == Some(start) { assert found == {start}; }
    }
  }

  /** Every image that the built stages use is pinned. */
  ghost predicate BuiltPinned(blocks: seq<Block>, start: nat) {
    forall i: nat, image | IsBuilt(blocks, start, i) && UsesImage(blocks, i, image) :: IsPinned(image)
  }

  /** The reached stages of the graph are the built ones, and they have the images that the blocks use. */
  ghost predicate Matches(blocks: seq<Block>, g: Graph, start: nat, reached: set<nat>) {
    && |g.stages| == |blocks|
    && (forall i: nat :: i in reached <==> IsBuilt(blocks, start, i))
    && (forall i: nat | i < |blocks| :: StageMatches(blocks, g.stages[i], i))
    && (forall i: nat, image | UsesImage(blocks, i, image) :: i < |blocks|)
  }

  ghost predicate StageMatches(blocks: seq<Block>, stage: Stage, i: nat)
    requires i < |blocks|
  {
    && stage.name == StageNames(blocks)[i] && stage.instructions == blocks[i].body
    && forall image :: image in ExternalReferences(stage) <==> UsesImage(blocks, i, image)
  }

  lemma GraphMatches(blocks: seq<Block>, g: Graph, start: nat)
    requires Describes(blocks, g) && PointsBack(g) && start < |blocks|
    ensures Matches(blocks, g, start, ReachableStages(g, start))
  {
    BuiltAre(blocks, g, start);
    forall i: nat | i < |blocks| ensures StageMatches(blocks, g.stages[i], i) {
      StageUses(blocks, g, i);
      assert IsStageOf(StageNames(blocks)[..i], blocks[i], g.stages[i]);
      hide IsBuilt, ReachableStages, ExternalReferences, UsesImage;
    }
    hide IsBuilt, ReachableStages, ExternalReferences, StageMatches;
  }

  lemma PinnedMeans(blocks: seq<Block>, g: Graph, start: nat, reached: set<nat>)
    requires Matches(blocks, g, start, reached)
    ensures AllPinned(g, reached) <==> BuiltPinned(blocks, start)
  {
    hide IsBuilt, ExternalReferences, UsesImage, IsPinned, StageNames;
    if AllPinned(g, reached) {
      forall i: nat, image | IsBuilt(blocks, start, i) && UsesImage(blocks, i, image) ensures IsPinned(image) {
        assert StagePinned(g.stages[i]);
        assert StageMatches(blocks, g.stages[i], i);
      }
    }
    if BuiltPinned(blocks, start) {
      forall i: nat | i in reached && i < |g.stages| ensures StagePinned(g.stages[i]) {
        assert StageMatches(blocks, g.stages[i], i);
      }
    }
  }

  lemma StagesOfBlocks(blocks: seq<Block>, g: Graph)
    requires Describes(blocks, g)
    ensures |g.stages| == |blocks|
  {
  }

  /** The instructions of the recipe, in blocks. */
  ghost predicate HasBlocks(lines: seq<string>, blocks: seq<Block>) {
    Instructions(lines, "") == Flatten(blocks) && forall b | b in blocks :: IsBlock(b)
  }

  /** A recipe is accepted exactly when its frontend is pinned or absent, its blocks are well-formed, the target is one
      stage, and every image is pinned that a stage it is built from names in its FROM line or after `--from=`. */
  lemma RecipeMeans(lines: seq<string>, blocks: seq<Block>, target: Option<string>)
    requires HasBlocks(lines, blocks)
    ensures Parses(lines, target) <==>
              && (SyntaxDirective(lines).Some? ==> IsPinned(SyntaxDirective(lines).value))
              && blocks != [] && IsWellFormed(blocks)
              && exists start: nat :: IsStart(blocks, target, start) && BuiltPinned(blocks, start)
  {
    StageGraphMeans(blocks);
    hide SyntaxDirective, IsPinned, Instructions, Flatten, IsWellFormed, BuiltPinned, IsStart;
    hide AllPinned, ReachableStages, StartStage, StageGraph, Describes;
    if StageGraph(Flatten(blocks)).Some? {
      var g := StageGraph(Flatten(blocks)).value;
      StageGraphPointsBack(Flatten(blocks));
      StagesOfBlocks(blocks, g);
      forall start: nat ensures StartStage(g, target) == Some(start) <==> IsStart(blocks, target, start) {
        StartMeans(blocks, g, target, start);
      }
      if StartStage(g, target).Some? {
        var start := StartStage(g, target).value;
        StartInRange(g, target);
        GraphMatches(blocks, g, start);
        PinnedMeans(blocks, g, start, ReachableStages(g, start));
        assert forall other: nat | IsStart(blocks, target, other) :: other == start;
      }
    }
  }

  /** Image and stage name go together in what the start is built from. */
  ghost predicate IsListed(blocks: seq<Block>, start: nat, image: string, name: string) {
    exists i: nat ::
      i < |blocks| && IsBuilt(blocks, start, i) && UsesImage(blocks, i, image) && StageNames(blocks)[i] == name
  }

  /** The evidence of an accepted recipe lists exactly the images that the stages it is built from use, each with the
      names of those stages; all of them are pinned. */
  lemma ImagesMean<M(!new)>(
    lines: seq<string>, blocks: seq<Block>, target: Option<string>, start: nat, extract: string -> set<M>,
    e: Evidence<M>)
    requires HasBlocks(lines, blocks) && Parses(lines, target) && IsStart(blocks, target, start)
    requires IsEvidence(StageGraph(Instructions(lines, "")).value, Reached(lines, target), extract, e)
    ensures forall image :: image in e.images <==> exists name :: IsListed(blocks, start, image, name)
    ensures forall image, name | image in e.images :: name in e.images[image] <==> IsListed(blocks, start, image, name)
    ensures forall image | image in e.images :: IsPinned(image)
  {
    RecipeMatches(lines, blocks, target, start);
    RecipeMeans(lines, blocks, target);
    var g := StageGraph(Instructions(lines, "")).value;
    hide HasBlocks, Parses, StageGraph, Reached, Matches, IsEvidence, IsPinned, IsListed, IsStart, BuiltPinned;
    ListedImages(blocks, g, start, Reached(lines, target), extract, e);
    PinnedMeans(blocks, g, start, Reached(lines, target));
    ListedPinned(lines, target, extract, e);
  }

  lemma ListedPinned<M(!new)>(lines: seq<string>, target: Option<string>, extract: string -> set<M>, e: Evidence<M>)
    requires Parses(lines, target)
    requires IsEvidence(StageGraph(Instructions(lines, "")).value, Reached(lines, target), extract, e)
    ensures forall image | image in e.images :: IsPinned(image)
  {
    ListedImagesArePinned(lines, target, extract, e);
  }

  lemma RecipeMatches(lines: seq<string>, blocks: seq<Block>, target: Option<string>, start: nat)
    requires HasBlocks(lines, blocks) && Parses(lines, target) && IsStart(blocks, target, start)
    ensures Matches(blocks, StageGraph(Instructions(lines, "")).value, start, Reached(lines, target))
  {
    var g := StageGraph(Flatten(blocks)).value;
    StageGraphMeans(blocks);
    hide SyntaxDirective, Instructions, Flatten, IsStart, AllPinned, ReachableStages, StageGraph, Describes, Matches;
    StageGraphPointsBack(Flatten(blocks));
    StagesOfBlocks(blocks, g);
    StartMeans(blocks, g, target, start);
    StartInRange(g, target);
    GraphMatches(blocks, g, start);
  }

  lemma ListedImages<M(!new)>(
    blocks: seq<Block>, g: Graph, start: nat, reached: set<nat>, extract: string -> set<M>, e: Evidence<M>)
    requires Matches(blocks, g, start, reached) && IsEvidence(g, reached, extract, e)
    ensures forall image :: image in e.images <==> exists name :: IsListed(blocks, start, image, name)
    ensures forall image, name | image in e.images :: name in e.images[image] <==> IsListed(blocks, start, image, name)
  {
    forall image ensures image in e.images <==> exists name :: IsListed(blocks, start, image, name) {
      ImageListed(blocks, g, start, reached, image);
    }
    forall image, name | image in e.images
      ensures name in e.images[image] <==> IsListed(blocks, start, image, name) {
      NameListed(blocks, g, start, reached, image, name);
    }
  }

  lemma NameListed(blocks: seq<Block>, g: Graph, start: nat, reached: set<nat>, image: string, name: string)
    requires Matches(blocks, g, start, reached)
    ensures name in StagesUsing(g, reached, image) <==> IsListed(blocks, start, image, name)
  {
    hide IsBuilt, ExternalReferences, UsesImage, StageNames;
    forall i: nat | i < |blocks| ensures StageMatches(blocks, g.stages[i], i) {}
    if i: nat :| i in reached && i < |g.stages| && image in ExternalReferences(g.stages[i])
                 && g.stages[i].name == name {
      assert StageMatches(blocks, g.stages[i], i);
      assert IsBuilt(blocks, start, i) && UsesImage(blocks, i, image) && StageNames(blocks)[i] == name;
    }
    if i: nat :| i < |blocks| && IsBuilt(blocks, start, i) && UsesImage(blocks, i, image)
                 && StageNames(blocks)[i] == name {
      assert StageMatches(blocks, g.stages[i], i);
      assert i in reached && image in ExternalReferences(g.stages[i]) && g.stages[i].name == name;
    }
  }

  lemma ImageListed(blocks: seq<Block>, g: Graph, start: nat, reached: set<nat>, image: string)
    requires Matches(blocks, g, start, reached)
    ensures image in ImageNames(g, reached) <==> exists name :: IsListed(blocks, start, image, name)
  {
    hide Matches, IsListed, ExternalReferences;
    forall name ensures name in StagesUsing(g, reached, image) <==> IsListed(blocks, start, image, name) {
      NameListed(blocks, g, start, reached, image, name);
    }
    if image in ImageNames(g, reached) {
      var i :| i in reached && i < |g.stages| && image in ExternalReferences(g.stages[i]);
      assert g.stages[i].name in StagesUsing(g, reached, image);
    }
  }

  /* ----- what is downloaded ----- */

  predicate AllSpace(s: string) { forall i | 0 <= i < |s| :: IsSpace(s[i]) }

  /** The line is the keyword between blanks, and then the text, which is empty or starts behind a blank. */
  ghost predicate IsCommand(line: string, keyword: string, text: string) {
    exists before, word, gap ::
      && line == before + word + gap + text && AllSpace(before) && AllSpace(gap)
      && IsToken(word) && SameWord(word, keyword)
      && (text == "" || (gap != "" && !IsSpace(text[0])))
  }

  lemma {:induction false} StripLeftBlanks(before: string, s: string)
    requires AllSpace(before) && (s == "" || !IsSpace(s[0]))
    ensures StripLeft(before + s) == s
  {
    if before == "" {
      assert before + s == s;
    } else {
      assert IsSpace(before[0]);
      StripLeftBlanks(before[1..], s);
      assert (before + s)[1..] == before[1..] + s;
    }
  }

  lemma {:induction false} StripLeftSplits(s: string) returns (before: string)
    ensures s == before + StripLeft(s) && AllSpace(before)
  {
    if s != "" && IsSpace(s[0]) {
      var rest := StripLeftSplits(s[1..]);
      before := [s[0]] + rest;
    } else {
      before := "";
    }
  }

  lemma CommandParts(line: string, before: string, word: string, gap: string, text: string)
    requires line == before + word + gap + text && AllSpace(before) && AllSpace(gap) && IsToken(word)
    requires text == "" || (gap != "" && !IsSpace(text[0]))
    ensures InstructionParts(line) == Some(Parts(word, text))
  {
    var after := gap + text;
    assert line == before + (word + after) && (word + after)[0] == word[0];
    StripLeftBlanks(before, word + after);
    assert after == "" || IsSpace(after[0]);
    TokenRun(word, after);
    assert (word + after)[..|word|] == word && (word + after)[|word|..] == after;
    StripLeftBlanks(gap, text);
  }

  lemma PartsGiveCommand(line: string, keyword: string, text: string)
    requires InstructionParts(line).Some? && InstructionParts(line).value.rest == text
    requires SameWord(InstructionParts(line).value.keyword, keyword)
    ensures IsCommand(line, keyword, text)
  {
    hide SameWord, StripLeft, InstructionParts, IsToken, IsSpace, AllSpace, IsCommand;
    var word, after := PartsSplit(line);
    var before := StripLeftSplits(line);
    var gap := StripLeftSplits(after);
    Regroup(before, word, gap, text);
    IsCommandSoRead(line, keyword, text, before, word, gap);
  }

  lemma IsCommandSoRead(line: string, keyword: string, text: string, before: string, word: string, gap: string)
    requires line == before + word + gap + text && AllSpace(before) && AllSpace(gap)
    requires IsToken(word) && SameWord(word, keyword) && (text == "" || (gap != "" && !IsSpace(text[0])))
    ensures IsCommand(line, keyword, text)
  {
    hide AllSpace, IsToken, SameWord, IsSpace;
  }

  lemma Regroup(before: string, word: string, gap: string, text: string)
    ensures before + (word + (gap + text)) == before + word + gap + text
  {
  }

  lemma PartsSplit(line: string) returns (word: string, after: string)
    requires InstructionParts(line).Some?
    ensures StripLeft(line) == word + after && IsToken(word) && (after == "" || IsSpace(after[0]))
    ensures InstructionParts(line).value == Parts(word, StripLeft(after))
  {
    var t := StripLeft(line);
    word, after := t[..TokenLength(t)], t[TokenLength(t)..];
  }

  lemma CommandGivesParts(line: string, keyword: string, text: string)
    requires IsCommand(line, keyword, text)
    ensures InstructionParts(line).Some? && InstructionParts(line).value.rest == text
    ensures SameWord(InstructionParts(line).value.keyword, keyword)
  {
    hide AllSpace, IsToken, SameWord, InstructionParts, IsSpace;
    var before, word, gap :|
      && line == before + word + gap + text && AllSpace(before) && AllSpace(gap)
      && IsToken(word) && SameWord(word, keyword)
      && (text == "" || (gap != "" && !IsSpace(text[0])));
    CommandParts(line, before, word, gap, text);
  }

  /** The keyword and the rest are those of the one way to read the line so. */
  lemma CommandMeans(line: string, keyword: string, text: string)
    requires forall i | 0 <= i < |keyword| :: !IsUpper(keyword[i])
    ensures IsCommand(line, keyword, text) <==>
              && InstructionParts(line).Some? && Lower(InstructionParts(line).value.keyword) == keyword
              && InstructionParts(line).value.rest == text
  {
    if InstructionParts(line).Some? { LowerIs(InstructionParts(line).value.keyword, keyword); }
    hide InstructionParts, IsCommand, Lower, SameWord;
    if InstructionParts(line).Some? && InstructionParts(line).value.rest == text
       && SameWord(InstructionParts(line).value.keyword, keyword) {
      PartsGiveCommand(line, keyword, text);
    }
    if IsCommand(line, keyword, text) { CommandGivesParts(line, keyword, text); }
  }

  /** The material is read from a RUN line of the block. */
  ghost predicate BlockDownloads<M(!new)>(b: Block, extract: string -> set<M>, m: M) {
    exists line, text :: line in b.body && IsCommand(line, "run", text) && m in extract(text)
  }

  /** The material is read from a RUN line of a stage that the start is built from. */
  ghost predicate Downloads<M(!new)>(blocks: seq<Block>, start: nat, extract: string -> set<M>, m: M) {
    exists i: nat :: i < |blocks| && IsBuilt(blocks, start, i) && BlockDownloads(blocks[i], extract, m)
  }

  lemma RunMeans<M(!new)>(line: string, extract: string -> set<M>, m: M)
    ensures m in RunMaterials(line, extract) <==> exists text :: IsCommand(line, "run", text) && m in extract(text)
  {
    forall text ensures IsCommand(line, "run", text) <==>
                          && InstructionParts(line).Some? && Lower(InstructionParts(line).value.keyword) == "run"
                          && InstructionParts(line).value.rest == text {
      CommandMeans(line, "run", text);
    }
    hide IsCommand, InstructionParts, Lower;
    if m in RunMaterials(line, extract) { assert IsCommand(line, "run", InstructionParts(line).value.rest); }
  }

  lemma StageMaterials<M(!new)>(b: Block, stage: Stage, extract: string -> set<M>, m: M)
    requires stage.instructions == b.body
    ensures m in Materials(stage, extract) <==> BlockDownloads(b, extract, m)
  {
    hide IsCommand, RunMaterials;
    if m in Materials(stage, extract) {
      var k :| 0 <= k < |b.body| && m in RunMaterials(b.body[k], extract);
      RunMeans(b.body[k], extract, m);
    }
    if line, text :| line in b.body && IsCommand(line, "run", text) && m in extract(text) {
      RunMeans(line, extract, m);
    }
  }

  /** The evidence of an accepted recipe has exactly what is read from the RUN lines of the stages it is built from. */
  lemma MaterialsMean<M(!new)>(
    lines: seq<string>, blocks: seq<Block>, target: Option<string>, start: nat, extract: string -> set<M>,
    e: Evidence<M>)
    requires HasBlocks(lines, blocks) && Parses(lines, target) && IsStart(blocks, target, start)
    requires IsEvidence(StageGraph(Instructions(lines, "")).value, Reached(lines, target), extract, e)
    ensures forall m :: m in e.materials <==> Downloads(blocks, start, extract, m)
  {
    RecipeMatches(lines, blocks, target, start);
    var g, reached := StageGraph(Instructions(lines, "")).value, Reached(lines, target);
    assert e.materials == AllMaterials(g, reached, extract);
    forall i: nat, m | i < |blocks|
      ensures m in Materials(g.stages[i], extract) <==> BlockDownloads(blocks[i], extract, m) {
      assert StageMatches(blocks, g.stages[i], i);
      StageMaterials(blocks[i], g.stages[i], extract, m);
    }
    hide HasBlocks, Parses, StageGraph, Reached, IsStart, IsBuilt, StageMatches, BlockDownloads, Materials, IsEvidence;
  }

  /* ----- every recipe comes in blocks ----- */

  lemma {:induction false} BlocksOf(instructions: seq<string>) returns (blocks: seq<Block>)
    requires instructions == [] || IsFrom(instructions[0])
    ensures Flatten(blocks) == instructions && forall b | b in blocks :: IsBlock(b)
  {
    hide IsFrom;
    if instructions == [] {
      blocks := [];
    } else {
      var n := |instructions| - 1;
      var front, last := instructions[..n], instructions[n];
      assert instructions == front + [last];
      if IsFrom(last) {
        var before := BlocksOf(front);
        blocks := before + [Block(last, [])];
        assert blocks[..|blocks| - 1] == before;
      } else {
        var before := BlocksOf(front);
        var k := |before| - 1;
        blocks := before[..k] + [Block(before[k].from, before[k].body + [last])];
        assert blocks[..|blocks| - 1] == before[..k];
        assert Flatten(before) == Flatten(before[..k]) + [before[k].from] + before[k].body;
        assert before[k] in before;
      }
    }
  }

  /** An accepted recipe has blocks, so that what is said of blocks is said of every accepted recipe. */
  lemma AcceptedHasBlocks(lines: seq<string>, target: Option<string>) returns (blocks: seq<Block>)
    requires Parses(lines, target)
    ensures HasBlocks(lines, blocks)
  {
    blocks := BlocksOf(Instructions(lines, ""));
  }

  /* ----- the frontend ----- */

  /** The line is a comment `# syntax=` with the one word `f`. */
  ghost predicate IsSyntax(line: string, f: string) {
    exists before, gap, after ::
      && line == before + "#" + gap + "syntax=" + f + after
      && AllSpace(before) && AllSpace(gap) && AllSpace(after) && IsToken(f)
  }

  /** The first line that is not blank is such a comment. */
  ghost predicate IsDirective(lines: seq<string>, f: string) {
    exists k :: 0 <= k < |lines| && (forall j | 0 <= j < k :: AllSpace(lines[j])) && IsSyntax(lines[k], f)
  }

  lemma {:induction false} StripRightBlanks(s: string, after: string)
    requires AllSpace(after) && s != "" && !IsSpace(s[|s| - 1])
    ensures StripRight(s + after) == s
  {
    if after == "" {
      assert s + after == s;
    } else {
      assert IsSpace(after[|after| - 1]);
      StripRightBlanks(s, after[..|after| - 1]);
      assert (s + after)[..|s + after| - 1] == s + after[..|after| - 1];
    }
  }

  lemma {:induction false} StripRightSplits(s: string) returns (after: string)
    ensures s == StripRight(s) + after && AllSpace(after)
  {
    if s != "" && IsSpace(s[|s| - 1]) {
      var rest := StripRightSplits(s[..|s| - 1]);
      after := rest + [s[|s| - 1]];
    } else {
      after := "";
    }
  }

  lemma BlankMeans(s: string)
    ensures Strip(s) == "" <==> AllSpace(s)
  {
    var before := StripLeftSplits(s);
    var after := StripRightSplits(StripLeft(s));
    if AllSpace(s) { StripLeftBlanks(s, ""); assert s + "" == s; }
  }

  lemma LineDirective(line: string, f: string, before: string, gap: string, after: string)
    requires line == before + "#" + gap + "syntax=" + f + after
    requires AllSpace(before) && AllSpace(gap) && AllSpace(after) && IsToken(f)
    ensures Strip(line) == "#" + gap + "syntax=" + f && StripLeft(gap + "syntax=" + f) == "syntax=" + f
  {
    var s := "#" + gap + "syntax=" + f;
    assert line == before + (s + after) && (s + after)[0] == '#' && s[|s| - 1] == f[|f| - 1];
    StripLeftBlanks(before, s + after);
    StripRightBlanks(s, after);
    assert gap + "syntax=" + f == gap + ("syntax=" + f) && ("syntax=" + f)[0] == 's';
    StripLeftBlanks(gap, "syntax=" + f);
  }

  lemma {:induction false} DirectiveMeans(lines: seq<string>, f: string)
    ensures SyntaxDirective(lines) == Some(f) <==> IsDirective(lines, f)
  {
    if lines != [] {
      BlankMeans(lines[0]);
      if AllSpace(lines[0]) {
        DirectiveMeans(lines[1..], f);
        SyntaxHasText(lines[0], f);
        DirectiveBehindBlank(lines, f);
      } else {
        SyntaxMeans(lines, f);
        DirectiveInFront(lines, f);
      }
      hide AllSpace, IsSyntax, Strip, IsDirective;
    }
  }

  lemma DirectiveBehindBlank(lines: seq<string>, f: string)
    requires lines != [] && AllSpace(lines[0]) && !IsSyntax(lines[0], f)
    ensures IsDirective(lines, f) <==> IsDirective(lines[1..], f)
  {
    hide AllSpace, IsSyntax;
    var rest := lines[1..];
    if k :| 0 <= k < |rest| && (forall j | 0 <= j < k :: AllSpace(rest[j])) && IsSyntax(rest[k], f) {
      assert lines[k + 1] == rest[k];
      assert forall j | 0 < j < k + 1 :: lines[j] == rest[j - 1];
    }
    if k :| 0 <= k < |lines| && (forall j | 0 <= j < k :: AllSpace(lines[j])) && IsSyntax(lines[k], f) {
      assert lines[k] == rest[k - 1];
      assert forall j | 0 <= j < k - 1 :: rest[j] == lines[j + 1];
    }
  }

  lemma DirectiveInFront(lines: seq<string>, f: string)
    requires lines != [] && !AllSpace(lines[0])
    ensures IsDirective(lines, f) <==> IsSyntax(lines[0], f)
  {
    hide AllSpace, IsSyntax;
  }

  lemma SyntaxHasText(line: string, f: string)
    ensures IsSyntax(line, f) ==> !AllSpace(line)
  {
    if before, gap, after :| line == before + "#" + gap + "syntax=" + f + after {
      assert line[|before|] == '#';
    }
  }

  lemma SyntaxMeans(lines: seq<string>, f: string)
    requires lines != [] && !AllSpace(lines[0])
    ensures SyntaxDirective(lines) == Some(f) <==> IsSyntax(lines[0], f)
  {
    BlankMeans(lines[0]);
    if SyntaxDirective(lines) == Some(f) { DirectiveGivesSyntax(lines, f); }
    if before, gap, after :|
      && lines[0] == before + "#" + gap + "syntax=" + f + after
      && AllSpace(before) && AllSpace(gap) && AllSpace(after) && IsToken(f) {
      LineDirective(lines[0], f, before, gap, after);
      StartOfDirective(gap, f);
      hide Strip, AllSpace, IsToken;
    }
  }

  lemma StartOfDirective(gap: string, f: string)
    ensures ("#" + gap + "syntax=" + f)[1..] == gap + "syntax=" + f
    ensures ("syntax=" + f)[7..] == f && "syntax=" <= "syntax=" + f
  {
  }

  lemma DirectiveGivesSyntax(lines: seq<string>, f: string)
    requires lines != [] && Strip(lines[0]) != "" && SyntaxDirective(lines) == Some(f)
    ensures IsSyntax(lines[0], f)
  {
    var s := Strip(lines[0]);
    var before := StripLeftSplits(lines[0]);
    var after := StripRightSplits(StripLeft(lines[0]));
    DirectiveText(lines, f);
    hide SyntaxDirective, AllSpace, IsToken, StripLeft, StripRight;
    var gap := StripLeftSplits(s[1..]);
    assert s == "#" + gap + "syntax=" + f;
    assert lines[0] == before + s + after;
    hide IsSyntax;
    FlatText(before, gap, f, after);
    IsSyntaxSoRead(lines[0], f, before, gap, after);
  }

  lemma IsSyntaxSoRead(line: string, f: string, before: string, gap: string, after: string)
    requires line == before + "#" + gap + "syntax=" + f + after
    requires AllSpace(before) && AllSpace(gap) && AllSpace(after) && IsToken(f)
    ensures IsSyntax(line, f)
  {
    hide AllSpace, IsToken;
  }

  lemma FlatText(before: string, gap: string, f: string, after: string)
    ensures before + ("#" + gap + "syntax=" + f) + after == before + "#" + gap + "syntax=" + f + after
  {
  }

  lemma DirectiveText(lines: seq<string>, f: string)
    requires lines != [] && Strip(lines[0]) != "" && SyntaxDirective(lines) == Some(f)
    ensures var s := Strip(lines[0]);
      IsToken(f) && s[0] == '#' && StripLeft(s[1..]) == "syntax=" + f
  {
    hide Strip, StripLeft, IsToken;
    var t := StripLeft(Strip(lines[0])[1..]);
    assert t == t[..7] + t[7..];
  }
}

/** What a recipe says, read off its words: its stages, what their references name and what it needs to be accepted. */
module StageMeaning {
  import opened Basics
  import opened Decimal
  import opened PyText
  import opened Dockerfile
  import opened Recipe

  /* ----- words ----- */

  ghost predicate IsUpper(c: char) { 'A' <= c <= 'Z' }

  /** The letters differ in case at most. */
  ghost predicate SameLetter(a: char, b: char) {
    || a == b
    || (IsUpper(a) && b as int - a as int == 'a' as int - 'A' as int)
    || (IsUpper(b) && a as int - b as int == 'a' as int - 'A' as int)
  }

  /** The words differ in case at most. */
  ghost predicate SameWord(a: string, b: string) {
    |a| == |b| && forall i | 0 <= i < |a| :: SameLetter(a[i], b[i])
  }

  lemma LowerMeans(a: string, b: string)
    ensures Lower(a) == Lower(b) <==> SameWord(a, b)
  {
    if Lower(a) == Lower(b) {
      forall i | 0 <= i < |a| ensures SameLetter(a[i], b[i]) {
        assert Lower(a)[i] == Lower(b)[i];
      }
    }
  }

  lemma LowerIs(a: string, b: string)
    requires forall i | 0 <= i < |b| :: !IsUpper(b[i])
    ensures Lower(a) == b <==> SameWord(a, b)
  {
    assert Lower(b) == b;
    LowerMeans(a, b);
  }

  /** The first word of the line is the keyword, in whatever case. */
  ghost predicate HasKeyword(line: string, keyword: string) {
    Tokens(line) != [] && SameWord(Tokens(line)[0], keyword)
  }

  lemma {:induction false} StripLeftTwice(s: string)
    ensures StripLeft(StripLeft(s)) == StripLeft(s)
  {
    if s != [] && IsSpace(s[0]) { StripLeftTwice(s[1..]); }
  }

  lemma PartsAreWords(line: string)
    ensures InstructionParts(line).Some? <==> Tokens(line) != []
    ensures InstructionParts(line).Some? ==>
              && InstructionParts(line).value.keyword == Tokens(line)[0]
              && Tokens(InstructionParts(line).value.rest) == Tokens(line)[1..]
  {
    var t := StripLeft(line);
    if t != [] { StripLeftTwice(t[TokenLength(t)..]); }
  }

  lemma KeywordMeans(line: string, keyword: string)
    requires forall i | 0 <= i < |keyword| :: !IsUpper(keyword[i])
    ensures HasKeyword(line, keyword) <==>
              InstructionParts(line).Some? && Lower(InstructionParts(line).value.keyword) == keyword
  {
    PartsAreWords(line);
    if InstructionParts(line).Some? { LowerIs(InstructionParts(line).value.keyword, keyword); }
    hide Tokens, InstructionParts, Lower, SameWord;
  }

  /* ----- references ----- */

  /** Entry `j` is the last that has the name. */
  ghost predicate LastNamed(names: seq<string>, value: string, j: nat) {
    j < |names| && SameWord(names[j], value) && forall k | j < k < |names| :: !SameWord(names[k], value)
  }

  ghost predicate IsNamed(names: seq<string>, value: string) {
    exists k :: 0 <= k < |names| && SameWord(names[k], value)
  }

  ghost predicate IsNumeric(value: string) { value != "" && AllDigits(value) }

  /** Among stages with these names the text is a stage's name, the last one's if several have it, or else a number. */
  ghost predicate RefersTo(names: seq<string>, value: string, j: nat) {
    LastNamed(names, value, j) || (!IsNamed(names, value) && IsNumeric(value) && Value(value) == j && j < |names|)
  }

  /** Neither a stage's name nor a number: an image. */
  ghost predicate IsImage(names: seq<string>, value: string) { !IsNamed(names, value) && !IsNumeric(value) }

  ghost predicate IsTarget(names: seq<string>, value: string, target: Option<nat>) {
    match target
    case Some(j) => RefersTo(names, value, j)
    case None => IsImage(names, value)
  }

  /** Anything but the number of a stage that is not there. */
  ghost predicate IsResolvable(names: seq<string>, value: string) {
    IsNamed(names, value) || !IsNumeric(value) || Value(value) < |names|
  }

  /** The graph has stages with these names, and its dictionary leads to the last of each name. */
  ghost predicate HasNames(g: Graph, names: seq<string>) {
    && |g.stages| == |names| && (forall i | 0 <= i < |names| :: g.stages[i].name == names[i])
    && (forall v :: Lower(v) in g.names <==> IsNamed(names, v))
    && (forall v | Lower(v) in g.names :: LastNamed(names, v, g.names[Lower(v)]))
  }

  lemma LastIsOne(names: seq<string>, value: string, i: nat, j: nat)
    requires LastNamed(names, value, i) && LastNamed(names, value, j)
    ensures i == j
  {
  }

  lemma ReferenceMeans(g: Graph, names: seq<string>, value: string)
    requires HasNames(g, names)
    ensures ResolveReference(g, value).Invalid? <==> !IsResolvable(names, value)
    ensures ResolveReference(g, value).ToStage? ==> RefersTo(names, value, ResolveReference(g, value).index)
    ensures forall j | RefersTo(names, value, j) :: ResolveReference(g, value) == ToStage(j)
    ensures ResolveReference(g, value).External? <==> IsImage(names, value)
  {
    forall j | LastNamed(names, value, j) ensures ResolveReference(g, value) == ToStage(j) {
      assert IsNamed(names, value);
      LastIsOne(names, value, j, g.names[Lower(value)]);
    }
    if IsNamed(names, value) { assert LastNamed(names, value, g.names[Lower(value)]); }
    hide Lower, SameWord;
  }

  lemma TargetMeans(g: Graph, names: seq<string>, value: string, target: Option<nat>)
    requires HasNames(g, names) && IsResolvable(names, value)
    ensures Target(ResolveReference(g, value)) == target <==> IsTarget(names, value, target)
  {
    ReferenceMeans(g, names, value);
    hide ResolveReference, HasNames, RefersTo, IsImage, IsResolvable;
  }

  lemma EmptyHasNames()
    ensures HasNames(EMPTY, [])
  {
  }

  /** One more stage, under its own name. */
  lemma OneMoreName(g: Graph, names: seq<string>, stage: Stage)
    requires HasNames(g, names)
    ensures HasNames(Graph(g.stages + [stage], g.names[Lower(stage.name) := |g.stages|]), names + [stage.name])
  {
    var h, more := Graph(g.stages + [stage], g.names[Lower(stage.name) := |g.stages|]), names + [stage.name];
    assert forall i | 0 <= i < |names| :: more[i] == names[i];
    assert more[|names|] == stage.name;
    forall v ensures SameWord(stage.name, v) <==> Lower(v) == Lower(stage.name) { LowerMeans(stage.name, v); }
    hide Lower, SameWord;
    forall v ensures Lower(v) in h.names <==> IsNamed(more, v) {
      NamedOneMore(names, stage.name, v);
    }
    forall v | Lower(v) in h.names ensures LastNamed(more, v, h.names[Lower(v)]) {
      if !SameWord(stage.name, v) { assert LastNamed(names, v, g.names[Lower(v)]); }
    }
  }

  lemma NamedOneMore(names: seq<string>, name: string, v: string)
    ensures IsNamed(names + [name], v) <==> IsNamed(names, v) || SameWord(name, v)
  {
    var more := names + [name];
    assert forall i | 0 <= i < |names| :: more[i] == names[i];
    assert more[|names|] == name;
    hide SameWord;
  }

  /* ----- the copies of a stage ----- */

  /** The copies are those of the `--from=` words, each with what it refers to. */
  ghost predicate CopiesOf(names: seq<string>, words: seq<string>, copies: seq<Copy>) {
    forall v, target :: Copy(target, v) in copies <==> "--from=" + v in words && IsTarget(names, v, target)
  }

  ghost predicate AllResolvable(names: seq<string>, words: seq<string>) {
    forall v | "--from=" + v in words :: IsResolvable(names, v)
  }

  lemma FromWord(value: string)
    ensures "--from=" <= "--from=" + value && ("--from=" + value)[7..] == value
  {
  }

  lemma OtherWord(names: seq<string>, front: seq<string>, word: string, copies: seq<Copy>)
    requires !("--from=" <= word)
    ensures CopiesOf(names, front + [word], copies) <==> CopiesOf(names, front, copies)
    ensures AllResolvable(names, front + [word]) <==> AllResolvable(names, front)
  {
    hide IsTarget, IsResolvable;
    forall v ensures "--from=" + v in front + [word] <==> "--from=" + v in front { FromWord(v); }
  }

  lemma OneMoreFrom(names: seq<string>, front: seq<string>, value: string)
    ensures forall v :: "--from=" + v in front + ["--from=" + value] <==> "--from=" + v in front || v == value
    ensures AllResolvable(names, front + ["--from=" + value])
            <==> AllResolvable(names, front) && IsResolvable(names, value)
  {
    hide IsResolvable;
    forall v ensures "--from=" + v in front + ["--from=" + value] <==> "--from=" + v in front || v == value {
      FromWord(v);
      FromWord(value);
    }
  }

  lemma OneMoreCopy(names: seq<string>, front: seq<string>, value: string, before: seq<Copy>, target: Option<nat>)
    requires CopiesOf(names, front, before) && IsTarget(names, value, target)
    requires forall other | IsTarget(names, value, other) :: other == target
    ensures CopiesOf(names, front + ["--from=" + value], before + [Copy(target, value)])
  {
    hide IsTarget;
    OneMoreFrom(names, front, value);
  }

  lemma {:induction false} CopyReferencesMean(g: Graph, names: seq<string>, words: seq<string>)
    requires HasNames(g, names)
    ensures CopyReferences(g, words).Some? <==> AllResolvable(names, words)
    ensures CopyReferences(g, words).Some? ==> CopiesOf(names, words, CopyReferences(g, words).value)
  {
    if words != [] {
      var front, word := words[..|words| - 1], words[|words| - 1];
      assert words == front + [word];
      CopyReferencesMean(g, names, front);
      if FROM_OPTION <= word {
        var value := word[7..];
        assert word == "--from=" + value;
        ReferenceMeans(g, names, value);
        forall target | IsResolvable(names, value)
          ensures Target(ResolveReference(g, value)) == target <==> IsTarget(names, value, target) {
          TargetMeans(g, names, value, target);
        }
        hide ResolveReference, HasNames, IsTarget, RefersTo, IsImage, IsResolvable, CopiesOf, AllResolvable;
        OneMoreFrom(names, front, value);
        if CopyReferences(g, words).Some? {
          OneMoreCopy(names, front, value, CopyReferences(g, front).value, Target(ResolveReference(g, value)));
        }
      } else {
        if CopyReferences(g, front).Some? { OtherWord(names, front, word, CopyReferences(g, front).value); }
        OtherWord(names, front, word, []);
      }
    }
  }

  /* ----- the body of a stage ----- */

  /** A COPY line with the option `--from=v`. */
  ghost predicate CopiesFrom(line: string, v: string) {
    HasKeyword(line, "copy") && "--from=" + v in Tokens(line)[1..]
  }

  /** The line has a word, and what it copies from is no number of a stage that is not there. */
  ghost predicate IsBodyLine(names: seq<string>, line: string) {
    Tokens(line) != [] && forall v | CopiesFrom(line, v) :: IsResolvable(names, v)
  }

  /** The copies are those of the COPY lines, each with what it refers to. */
  ghost predicate BodyCopies(names: seq<string>, body: seq<string>, copies: seq<Copy>) {
    forall v, target :: Copy(target, v) in copies <==>
      (exists line :: line in body && CopiesFrom(line, v)) && IsTarget(names, v, target)
  }

  /** What a body line adds to the copies. */
  ghost predicate AddsCopies(names: seq<string>, line: string, copies: seq<Copy>) {
    forall v, target :: Copy(target, v) in copies <==> CopiesFrom(line, v) && IsTarget(names, v, target)
  }

  lemma RecordMeans(g: Graph, names: seq<string>, line: string) returns (added: seq<Copy>)
    requires g.stages != [] && HasNames(g, names) && !IsFrom(line)
    ensures Step(g, line).Some? <==> IsBodyLine(names, line)
    ensures Step(g, line).Some? ==>
              var last := g.stages[|g.stages| - 1];
              && Step(g, line).value
                 == WithLast(g, last.(instructions := last.instructions + [line], copies := last.copies + added))
              && AddsCopies(names, line, added)
  {
    hide HasKeyword, HasNames, AllResolvable, CopiesOf, AddsCopies, IsBodyLine, CopyReferences, Tokens, Lower;
    PartsAreWords(line);
    KeywordMeans(line, "copy");
    if HasKeyword(line, "copy") {
      CopyLineMeans(g, names, line);
      var found := CopyReferences(g, Tokens(line)[1..]);
      added := if found.Some? then found.value else [];
    } else {
      OtherLineMeans(names, line);
      added := [];
    }
    var last := g.stages[|g.stages| - 1];
    assert last.copies + [] == last.copies;
  }

  lemma CopyLineMeans(g: Graph, names: seq<string>, line: string)
    requires HasNames(g, names) && HasKeyword(line, "copy") && Tokens(line) != []
    ensures CopyReferences(g, Tokens(line)[1..]).Some? <==> IsBodyLine(names, line)
    ensures CopyReferences(g, Tokens(line)[1..]).Some? ==>
              AddsCopies(names, line, CopyReferences(g, Tokens(line)[1..]).value)
  {
    CopyReferencesMean(g, names, Tokens(line)[1..]);
    hide HasKeyword, IsResolvable, IsTarget, Tokens, CopyReferences, HasNames;
  }

  lemma OtherLineMeans(names: seq<string>, line: string)
    requires !HasKeyword(line, "copy")
    ensures AddsCopies(names, line, []) && (IsBodyLine(names, line) <==> Tokens(line) != [])
  {
    hide HasKeyword, IsResolvable, IsTarget, Tokens;
  }

  lemma OneMoreLine(names: seq<string>, front: seq<string>, line: string, copies: seq<Copy>, added: seq<Copy>)
    requires BodyCopies(names, front, copies) && AddsCopies(names, line, added)
    ensures BodyCopies(names, front + [line], copies + added)
  {
    hide CopiesFrom, IsTarget;
    forall v ensures (exists l :: l in front + [line] && CopiesFrom(l, v))
                     <==> (exists l :: l in front && CopiesFrom(l, v)) || CopiesFrom(line, v) {
      if CopiesFrom(line, v) { assert line in front + [line]; }
      if l :| l in front && CopiesFrom(l, v) { assert l in front + [line]; }
    }
  }

  lemma SameNames(g: Graph, names: seq<string>, stage: Stage)
    requires g.stages != [] && HasNames(g, names) && stage.name == g.stages[|g.stages| - 1].name
    ensures HasNames(WithLast(g, stage), names)
  {
    hide IsNamed, LastNamed, Lower;
  }

  /** The graph is `h` with the body in its last stage. */
  ghost predicate HasBody(h: Graph, names: seq<string>, body: seq<string>, g: Graph)
    requires h.stages != []
  {
    exists copies ::
      g == WithLast(h, h.stages[|h.stages| - 1].(instructions := body, copies := copies))
      && BodyCopies(names, body, copies)
  }

  lemma {:induction false} BodyMeans(h: Graph, names: seq<string>, body: seq<string>)
    requires h.stages != [] && HasNames(h, names) && forall line | line in body :: !IsFrom(line)
    requires h.stages[|h.stages| - 1].instructions == [] && h.stages[|h.stages| - 1].copies == []
    ensures Run(h, body).Some? <==> forall line | line in body :: IsBodyLine(names, line)
    ensures Run(h, body).Some? ==> HasBody(h, names, body, Run(h, body).value)
  {
    var head := h.stages[|h.stages| - 1];
    if body == [] {
      assert WithLast(h, head.(instructions := [], copies := [])) == h;
      assert BodyCopies(names, [], []);
    } else {
      var front, line := body[..|body| - 1], body[|body| - 1];
      assert body == front + [line];
      BodyMeans(h, names, front);
      RunAppend(h, front, [line]);
      hide HasNames, BodyCopies, AddsCopies, IsBodyLine, Step, IsFrom;
      if Run(h, front).Some? {
        var mid := Run(h, front).value;
        assert Run(mid, [line]) == Step(mid, line) by { assert [line][1..] == []; }
        var copies :| mid == WithLast(h, head.(instructions := front, copies := copies))
                      && BodyCopies(names, front, copies);
        SameNames(h, names, head.(instructions := front, copies := copies));
        var added := RecordMeans(mid, names, line);
        if Step(mid, line).Some? {
          OneMoreLine(names, front, line, copies, added);
          assert Step(mid, line).value == WithLast(h, head.(instructions := body, copies := copies + added));
        }
      }
    }
  }

  /* ----- a block, and all blocks ----- */

  /** `FROM image` or `FROM image AS name`, where the image is no option. */
  ghost predicate IsFromShape(words: seq<string>) {
    && (|words| == 2 || (|words| == 4 && SameWord(words[2], "as") && IsStageName(words[3])))
    && !("--" <= words[1])
  }

  /** The name in the FROM line, or else the number of the stage. */
  ghost function NameOf(b: Block, index: nat): string {
    if |Tokens(b.from)| == 4 then Tokens(b.from)[3] else Render(index)
  }

  /** After stages with these names the block can stand. */
  ghost predicate IsStageBlock(names: seq<string>, b: Block) {
    && IsFromShape(Tokens(b.from)) && IsResolvable(names, Tokens(b.from)[1])
    && forall line | line in b.body :: IsBodyLine(names + [NameOf(b, |names|)], line)
  }

  /** The stage is what the block says. */
  ghost predicate IsStageOf(names: seq<string>, b: Block, stage: Stage) {
    && |Tokens(b.from)| >= 2
    && stage.index == |names| && stage.name == NameOf(b, |names|) && stage.reference == Tokens(b.from)[1]
    && IsTarget(names, stage.reference, stage.internal)
    && stage.instructions == b.body && BodyCopies(names + [stage.name], b.body, stage.copies)
  }

  lemma FromMeans(g: Graph, names: seq<string>, b: Block)
    requires HasNames(g, names) && IsFrom(b.from)
    ensures Step(g, b.from).Some? <==> IsFromShape(Tokens(b.from)) && IsResolvable(names, Tokens(b.from)[1])
    ensures Step(g, b.from).Some? ==>
              var reference, name := Tokens(b.from)[1], NameOf(b, |names|);
              exists internal ::
                && Step(g, b.from).value
                   == Graph(g.stages + [Stage(|names|, name, reference, internal, [], [])],
                            g.names[Lower(name) := |g.stages|])
                && IsTarget(names, reference, internal)
  {
    PartsAreWords(b.from);
    var words := Tokens(b.from);
    if |words| == 4 { LowerIs(words[2], "as"); }
    if |words| >= 2 {
      ReferenceMeans(g, names, words[1]);
      if IsResolvable(names, words[1]) {
        TargetMeans(g, names, words[1], Target(ResolveReference(g, words[1])));
      }
    }
    hide ResolveReference, IsTarget, IsResolvable, SameWord, Lower, IsStageName, Tokens, InstructionParts;
    assert |g.stages| == |names|;
    hide HasNames;
  }

  lemma BlockMeans(g: Graph, names: seq<string>, b: Block)
    requires HasNames(g, names) && IsBlock(b)
    ensures RunBlock(g, b).Some? <==> IsStageBlock(names, b)
    ensures RunBlock(g, b).Some? ==>
              var h := RunBlock(g, b).value;
              && |h.stages| == |names| + 1 && h.stages[..|names|] == g.stages
              && IsStageOf(names, b, h.stages[|names|]) && HasNames(h, names + [NameOf(b, |names|)])
  {
    FromMeans(g, names, b);
    hide HasNames, IsTarget, IsResolvable, IsBodyLine, BodyCopies, Step, Lower, NameOf, IsFrom, Tokens;
    if Step(g, b.from).Some? {
      var reference, name := Tokens(b.from)[1], NameOf(b, |names|);
      var internal :| Step(g, b.from).value == Graph(g.stages + [Stage(|names|, name, reference, internal, [], [])],
                                                     g.names[Lower(name) := |g.stages|])
        && IsTarget(names, reference, internal);
      var stage := Stage(|names|, name, reference, internal, [], []);
      var h := Step(g, b.from).value;
      assert |g.stages| == |names| by { StageCount(g, names); }
      OneMoreName(g, names, stage);
      BodyMeans(h, names + [name], b.body);
      if Run(h, b.body).Some? {
        var copies :| Run(h, b.body).value == WithLast(h, stage.(instructions := b.body, copies := copies))
          && BodyCopies(names + [name], b.body, copies);
        SameNames(h, names + [name], stage.(instructions := b.body, copies := copies));
      }
    }
  }

  lemma StageCount(g: Graph, names: seq<string>)
    requires HasNames(g, names)
    ensures |g.stages| == |names|
  {
  }

  /** The names of the stages. */
  ghost function StageNames(blocks: seq<Block>): (names: seq<string>)
    ensures |names| == |blocks|
  {
    seq(|blocks|, i requires 0 <= i < |blocks| => NameOf(blocks[i], i))
  }

  /** Every block can stand after the ones before it. */
  ghost predicate IsWellFormed(blocks: seq<Block>) {
    forall i | 0 <= i < |blocks| :: IsStageBlock(StageNames(blocks)[..i], blocks[i])
  }

  /** The graph has one stage for every block, which is what the block says. */
  ghost predicate Describes(blocks: seq<Block>, g: Graph) {
    && |g.stages| == |blocks|
    && forall i | 0 <= i < |blocks| :: IsStageOf(StageNames(blocks)[..i], blocks[i], g.stages[i])
  }

  lemma NamesFront(blocks: seq<Block>)
    requires blocks != []
    ensures var n := |blocks| - 1;
      && StageNames(blocks) == StageNames(blocks[..n]) + [NameOf(blocks[n], n)]
      && StageNames(blocks)[..n] == StageNames(blocks[..n])
      && forall i | 0 <= i <= n :: StageNames(blocks)[..i] == StageNames(blocks[..n])[..i]
  {
  }

  lemma {:induction false} BlocksMean(blocks: seq<Block>)
    requires forall b | b in blocks :: IsBlock(b)
    ensures RunBlocks(blocks).Some? <==> IsWellFormed(blocks)
    ensures RunBlocks(blocks).Some? ==>
              Describes(blocks, RunBlocks(blocks).value) && HasNames(RunBlocks(blocks).value, StageNames(blocks))
  {
    if blocks == [] {
      EmptyHasNames();
      assert Flatten(blocks) == [];
    } else {
      var n := |blocks| - 1;
      var front, last := blocks[..n], blocks[n];
      BlocksMean(front);
      RunFlatten(blocks);
      NamesFront(blocks);
      OneMoreBlock(blocks);
      hide HasNames, IsStageBlock, IsStageOf, RunBlocks, RunBlock, StageNames, NameOf, IsWellFormed, Describes;
      if RunBlocks(front).Some? {
        BlockMeans(RunBlocks(front).value, StageNames(front), last);
        if RunBlocks(blocks).Some? {
          OneMoreStage(blocks, RunBlocks(front).value, RunBlocks(blocks).value);
        }
      }
    }
  }

  lemma OneMoreBlock(blocks: seq<Block>)
    requires blocks != []
    ensures var n := |blocks| - 1;
      IsWellFormed(blocks) <==> IsWellFormed(blocks[..n]) && IsStageBlock(StageNames(blocks[..n]), blocks[n])
  {
    NamesFront(blocks);
    hide IsStageBlock, StageNames, NameOf;
    var front := blocks[..|blocks| - 1];
    assert forall i | 0 <= i < |front| :: front[i] == blocks[i];
  }

  lemma OneMoreStage(blocks: seq<Block>, g: Graph, h: Graph)
    requires blocks != [] && Describes(blocks[..|blocks| - 1], g)
    requires |h.stages| == |blocks| && h.stages[..|blocks| - 1] == g.stages
    requires IsStageOf(StageNames(blocks[..|blocks| - 1]), blocks[|blocks| - 1], h.stages[|blocks| - 1])
    ensures Describes(blocks, h)
  {
    NamesFront(blocks);
    hide IsStageOf, StageNames, NameOf;
    var front := blocks[..|blocks| - 1];
    assert forall i | 0 <= i < |front| :: front[i] == blocks[i] && h.stages[i] == g.stages[i];
  }

  /** Instructions in blocks form a stage graph exactly when there is a block and each can stand after the ones before
      it: its FROM line has one of the two forms, and no reference is the number of a stage that is not there. The graph
      then has the stages that the blocks say. */
  lemma StageGraphMeans(blocks: seq<Block>)
    requires forall b | b in blocks :: IsBlock(b)
    ensures StageGraph(Flatten(blocks)).Some? <==> blocks != [] && IsWellFormed(blocks)
    ensures StageGraph(Flatten(blocks)).Some? ==> Describes(blocks, StageGraph(Flatten(blocks)).value)
  {
    BlocksMean(blocks);
    hide HasNames, IsWellFormed, IsStageOf, Flatten;
  }

  /* ----- what a stage is built from ----- */

  /** Stage `i` is based on stage `j` or copies from it. */
  ghost predicate UsesStage(blocks: seq<Block>, i: nat, j: nat) {
    && i < |blocks| && |Tokens(blocks[i].from)| >= 2
    && var names := StageNames(blocks);
       || RefersTo(names[..i], Tokens(blocks[i].from)[1], j)
       || exists line, v :: line in blocks[i].body && CopiesFrom(line, v) && RefersTo(names[..i + 1], v, j)
  }

  /** Stage `i` is based on the image or copies from it. */
  ghost predicate UsesImage(blocks: seq<Block>, i: nat, image: string) {
    && i < |blocks| && |Tokens(blocks[i].from)| >= 2
    && var names := StageNames(blocks);
       || (image == Tokens(blocks[i].from)[1] && IsImage(names[..i], image))
       || exists line :: line in blocks[i].body && CopiesFrom(line, image) && IsImage(names[..i + 1], image)
  }

  ghost function UsedStages(blocks: seq<Block>): nat -> set<nat> {
    (i: nat) => set j: nat | j in UpTo(|blocks|) && UsesStage(blocks, i, j)
  }

  lemma NamesTo(blocks: seq<Block>, i: nat)
    requires i < |blocks|
    ensures StageNames(blocks)[..i + 1] == StageNames(blocks)[..i] + [NameOf(blocks[i], i)]
  {
  }

  lemma RefersBack(names: seq<string>, value: string, j: nat)
    requires RefersTo(names, value, j)
    ensures j < |names|
  {
  }

  lemma PushedMeans(names: seq<string>, b: Block, stage: Stage, j: nat)
    requires IsStageOf(names, b, stage)
    ensures j in Pushed(stage) <==>
              || RefersTo(names, Tokens(b.from)[1], j)
              || exists line, v :: line in b.body && CopiesFrom(line, v) && RefersTo(names + [stage.name], v, j)
  {
    hide RefersTo, CopiesFrom, IsImage, NameOf, Tokens;
    assert stage.internal == Some(j) <==> RefersTo(names, stage.reference, j) by { OneTarget(names, stage, j); }
    CopyTargetsMean(stage.copies, j);
    var all := names + [stage.name];
    forall v ensures Copy(Some(j), v) in stage.copies
                     <==> (exists line :: line in b.body && CopiesFrom(line, v)) && RefersTo(all, v, j) {
      assert IsTarget(all, v, Some(j)) <==> RefersTo(all, v, j);
    }
    hide BodyCopies, IsTarget;
    assert (exists v :: Copy(Some(j), v) in stage.copies)
      <==> exists line, v :: line in b.body && CopiesFrom(line, v) && RefersTo(all, v, j) by {
      if line, v :| line in b.body && CopiesFrom(line, v) && RefersTo(all, v, j) {
        assert Copy(Some(j), v) in stage.copies;
      }
    }
  }

  lemma CopyTargetsMean(copies: seq<Copy>, j: nat)
    ensures j in CopyTargets(copies) <==> exists v :: Copy(Some(j), v) in copies
  {
    if c :| c in copies && c.target == Some(j) { assert Copy(Some(j), c.value) in copies; }
  }

  lemma OneTarget(names: seq<string>, stage: Stage, j: nat)
    requires IsTarget(names, stage.reference, stage.internal)
    ensures stage.internal == Some(j) <==> RefersTo(names, stage.reference, j)
  {
    if RefersTo(names, stage.reference, j) {
      ReferenceUnique(names, stage.reference, j, stage.internal);
    }
  }

  lemma ReferenceUnique(names: seq<string>, value: string, j: nat, target: Option<nat>)
    requires RefersTo(names, value, j) && IsTarget(names, value, target)
    ensures target == Some(j)
  {
    if LastNamed(names, value, j) { assert IsNamed(names, value); }
    if target.Some? && LastNamed(names, value, target.value) {
      assert IsNamed(names, value);
      LastIsOne(names, value, j, target.value);
    }
    hide SameWord;
  }

  lemma ImagesOfStage(names: seq<string>, b: Block, stage: Stage, image: string)
    requires IsStageOf(names, b, stage)
    ensures image in ExternalReferences(stage) <==>
              || (image == Tokens(b.from)[1] && IsImage(names, image))
              || exists line :: line in b.body && CopiesFrom(line, image) && IsImage(names + [stage.name], image)
  {
    hide RefersTo, CopiesFrom, NameOf, Tokens;
    assert stage.internal.None? <==> IsImage(names, stage.reference) by { NoTarget(names, stage); }
    assert (exists c :: c in stage.copies && c.target.None? && c.value == image)
      <==> Copy(None, image) in stage.copies by {
      if c :| c in stage.copies && c.target.None? && c.value == image { assert c == Copy(None, image); }
    }
  }

  lemma NoTarget(names: seq<string>, stage: Stage)
    requires IsTarget(names, stage.reference, stage.internal)
    ensures stage.internal.None? <==> IsImage(names, stage.reference)
  {
    if stage.internal.Some? && LastNamed(names, stage.reference, stage.internal.value) {
      assert IsNamed(names, stage.reference);
    }
  }

  lemma StageUses(blocks: seq<Block>, g: Graph, i: nat)
    requires Describes(blocks, g) && i < |blocks|
    ensures forall j: nat :: j in Pushed(g.stages[i]) <==> UsesStage(blocks, i, j)
    ensures forall image :: image in ExternalReferences(g.stages[i]) <==> UsesImage(blocks, i, image)
  {
    var names := StageNames(blocks)[..i];
    NamesTo(blocks, i);
    assert IsStageOf(names, blocks[i], g.stages[i]);
    hide RefersTo, CopiesFrom, IsImage, Tokens, Pushed, ExternalReferences, StageNames;
    forall j: nat ensures j in Pushed(g.stages[i]) <==> UsesStage(blocks, i, j) {
      PushedMeans(names, blocks[i], g.stages[i], j);
    }
    forall image ensures image in ExternalReferences(g.stages[i]) <==> UsesImage(blocks, i, image) {
      ImagesOfStage(names, blocks[i], g.stages[i], image);
    }
  }
}

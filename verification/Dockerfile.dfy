/** The Dockerfile stage graph: `collect_component_inputs.py` from instructions to images and materials. */
module Dockerfile {
  import opened Basics
  import opened Decimal
  import opened PyText
  import opened Reach

  /* ----- text ----- */

  function LowerChar(c: char): char {
    if 'A' <= c <= 'Z' then ((c as int) + 32) as char else c
  }

  function Lower(s: string): (r: string)
    ensures |r| == |s|
  {
    seq(|s|, i requires 0 <= i < |s| => LowerChar(s[i]))
  }

  /** Logical instructions: comments dropped, continuations joined. `buffer` is what is joined so far. */
  function Instructions(lines: seq<string>, buffer: string): seq<string> {
    if lines == [] then (if buffer == "" then [] else [buffer])
    else
      var line, rest := Strip(lines[0]), lines[1..];
      if "#" <= line || (buffer == "" && line == "") then Instructions(rest, buffer)
      else if line != "" && line[|line| - 1] == '\\'
           then Instructions(rest, buffer + StripRight(line[..|line| - 1]) + " ")
      else [buffer + line] + Instructions(rest, "")
  }

  method InstructionsLoop(lines: seq<string>) returns (out: seq<string>)
    ensures out == Instructions(lines, "")
  {
    out := [];
    var buffer := "";
    for i := 0 to |lines|
      invariant out + Instructions(lines[i..], buffer) == Instructions(lines, "")
    {
      assert lines[i..][1..] == lines[i + 1..];
      var line := Strip(lines[i]);
      if "#" <= line { continue; }
      if buffer == "" && line == "" { continue; }
      if line != "" && line[|line| - 1] == '\\' {
        buffer := buffer + StripRight(line[..|line| - 1]) + " ";
        continue;
      }
      buffer := buffer + line;
      assert out + ([buffer] + Instructions(lines[i + 1..], "")) == (out + [buffer]) + Instructions(lines[i + 1..], "");
      out := out + [buffer];
      buffer := "";
    }
    if buffer != "" { out := out + [buffer]; }
  }

  datatype Parts = Parts(keyword: string, rest: string)

  /** `instruction_parts`; an all-blank line has no keyword. */
  function InstructionParts(line: string): Option<Parts> {
    var t := StripLeft(line);
    if t == [] then None
    else
      var n := TokenLength(t);
      Some(Parts(t[..n], StripLeft(t[n..])))
  }

  predicate IsFrom(line: string) {
    InstructionParts(line).Some? && Lower(InstructionParts(line).value.keyword) == "from"
  }

  /* ----- the stage graph ----- */

  datatype Copy = Copy(target: Option<nat>, value: string)

  datatype Stage = Stage(
    index: nat, name: string, reference: string, internal: Option<nat>, instructions: seq<string>, copies: seq<Copy>)

  datatype Graph = Graph(stages: seq<Stage>, names: map<string, nat>)

  datatype Reference = ToStage(index: nat) | External | Invalid

  /** A defined stage name or number, an image reference, or a number no stage has yet. */
  function ResolveReference(g: Graph, value: string): Reference {
    if Lower(value) in g.names then ToStage(g.names[Lower(value)])
    else if value != "" && AllDigits(value) then
      if Value(value) >= |g.stages| then Invalid else ToStage(Value(value))
    else External
  }

  function Target(r: Reference): Option<nat> {
    match r
    case ToStage(i) => Some(i)
    case _ => None
  }

  const FROM_OPTION: string := "--from="

  /** The references of one COPY instruction; `None` if one is invalid. */
  function CopyReferences(g: Graph, tokens: seq<string>): Option<seq<Copy>> {
    if tokens == [] then Some([])
    else
      match CopyReferences(g, tokens[..|tokens| - 1])
      case None => None
      case Some(before) =>
        var token := tokens[|tokens| - 1];
        if !(FROM_OPTION <= token) then Some(before)
        else
          var value := token[7..];
          var r := ResolveReference(g, value);
          if r.Invalid? then None else Some(before + [Copy(Target(r), value)])
  }

  function WithLast(g: Graph, stage: Stage): Graph
    requires g.stages != []
  {
    g.(stages := g.stages[|g.stages| - 1 := stage])
  }

  /** `record_instruction` on the last stage */
  function RecordInstruction(g: Graph, line: string): Option<Graph>
    requires g.stages != []
  {
    var last := g.stages[|g.stages| - 1];
    var recorded := last.(instructions := last.instructions + [line]);
    match InstructionParts(line)
    case None => None
    case Some(parts) =>
      if Lower(parts.keyword) != "copy" then Some(WithLast(g, recorded))
      else
        match CopyReferences(g, Tokens(parts.rest))
        case None => None
        case Some(copies) => Some(WithLast(g, recorded.(copies := last.copies + copies)))
  }

  predicate IsNameChar(c: char) {
    'a' <= c <= 'z' || 'A' <= c <= 'Z' || '0' <= c <= '9' || c == '_' || c == '.' || c == '-'
  }

  predicate IsStageName(s: string) {
    s != "" && ('a' <= s[0] <= 'z' || 'A' <= s[0] <= 'Z') && forall i | 0 <= i < |s| :: IsNameChar(s[i])
  }

  function AddStage(g: Graph, rest: string): Option<Graph> {
    var tokens := Tokens(rest);
    if |tokens| != 1 && |tokens| != 3 then None
    else if "--" <= tokens[0] || (|tokens| == 3 && (Lower(tokens[1]) != "as" || !IsStageName(tokens[2]))) then None
    else
      var index := |g.stages|;
      var name := if |tokens| == 3 then tokens[2] else Render(index);
      var r := ResolveReference(g, tokens[0]);
      if r.Invalid? then None
      else Some(Graph(g.stages + [Stage(index, name, tokens[0], Target(r), [], [])], g.names[Lower(name) := index]))
  }

  function Step(g: Graph, line: string): Option<Graph> {
    match InstructionParts(line)
    case None => None
    case Some(parts) =>
      if Lower(parts.keyword) == "from" then AddStage(g, parts.rest)
      else if g.stages == [] then None
      else RecordInstruction(g, line)
  }

  function Run(g: Graph, lines: seq<string>): Option<Graph>
    decreases |lines|
  {
    if lines == [] then Some(g)
    else
      match Step(g, lines[0])
      case None => None
      case Some(next) => Run(next, lines[1..])
  }

  const EMPTY: Graph := Graph([], map[])

  function StageGraph(lines: seq<string>): Option<Graph> {
    match Run(EMPTY, lines)
    case None => None
    case Some(g) => if g.stages == [] then None else Some(g)
  }

  method StageGraphLoop(lines: seq<string>) returns (r: Option<Graph>)
    ensures r == StageGraph(lines)
  {
    var g := EMPTY;
    for i := 0 to |lines|
      invariant Run(g, lines[i..]) == Run(EMPTY, lines)
    {
      assert lines[i..][1..] == lines[i + 1..];
      match Step(g, lines[i]) {
        case None => return None;
        case Some(next) => g := next;
      }
    }
    r := if g.stages == [] then None else Some(g);
  }

  /* ----- references point backwards ----- */

  /** Base images point to strictly earlier stages, copies to the same or an earlier one. */
  ghost predicate PointsBack(g: Graph) {
    && (forall i | 0 <= i < |g.stages| :: StageBack(g.stages[i], i))
    && (forall n | n in g.names :: g.names[n] < |g.stages|)
  }

  ghost predicate StageBack(s: Stage, i: nat) {
    s.index == i && (s.internal.Some? ==> s.internal.value < i) && CopiesBack(s.copies, i)
  }

  ghost predicate CopiesBack(copies: seq<Copy>, i: nat) {
    forall c | c in copies :: c.target.Some? ==> c.target.value <= i
  }

  lemma ReferenceBack(g: Graph, value: string)
    requires PointsBack(g)
    ensures ResolveReference(g, value).ToStage? ==> ResolveReference(g, value).index < |g.stages|
  {
  }

  lemma {:induction false} CopyReferencesBack(g: Graph, tokens: seq<string>)
    requires PointsBack(g) && g.stages != [] && CopyReferences(g, tokens).Some?
    ensures CopiesBack(CopyReferences(g, tokens).value, |g.stages| - 1)
  {
    if tokens != [] {
      CopyReferencesBack(g, tokens[..|tokens| - 1]);
      var token := tokens[|tokens| - 1];
      if FROM_OPTION <= token { ReferenceBack(g, token[7..]); }
    }
  }

  lemma StepPointsBack(g: Graph, line: string)
    requires PointsBack(g) && Step(g, line).Some?
    ensures PointsBack(Step(g, line).value)
  {
    var parts := InstructionParts(line).value;
    if Lower(parts.keyword) == "from" {
      ReferenceBack(g, Tokens(parts.rest)[0]);
    } else if Lower(parts.keyword) == "copy" {
      CopyReferencesBack(g, Tokens(parts.rest));
    }
  }

  lemma {:induction false} RunPointsBack(g: Graph, lines: seq<string>)
    requires PointsBack(g) && Run(g, lines).Some?
    ensures PointsBack(Run(g, lines).value)
    decreases |lines|
  {
    if lines != [] {
      StepPointsBack(g, lines[0]);
      RunPointsBack(Step(g, lines[0]).value, lines[1..]);
    }
  }

  /** In every stage graph that is accepted, references point backwards. */
  lemma StageGraphPointsBack(lines: seq<string>)
    requires StageGraph(lines).Some?
    ensures PointsBack(StageGraph(lines).value)
  {
    RunPointsBack(EMPTY, lines);
  }

  /* ----- reachable stages ----- */

  function CopyTargets(copies: seq<Copy>): (r: seq<nat>)
    ensures forall t :: t in r <==> exists c :: c in copies && c.target == Some(t)
  {
    if copies == [] then []
      else (if copies[0].target.Some? then [copies[0].target.value] else []) + CopyTargets(copies[1..])
  }

  /** The entries that a visited stage pushes. */
  function Pushed(stage: Stage): seq<nat> {
    (if stage.internal.Some? then [stage.internal.value] else []) + CopyTargets(stage.copies)
  }

  /** One step from a stage to the stages it builds on or copies from. */
  function Uses(stages: seq<Stage>): nat -> set<nat> {
    (i: nat) => if i < |stages| then (set x: nat | x in Pushed(stages[i])) else {}
  }

  function UpTo(n: nat): (s: set<nat>)
    ensures forall i: nat :: i in s <==> i <= n
  {
    if n == 0 then {0} else UpTo(n - 1) + {n}
  }

  lemma UsesBack(g: Graph, i: nat)
    requires PointsBack(g) && i < |g.stages|
    ensures Uses(g.stages)(i) <= UpTo(i)
  {
    assert StageBack(g.stages[i], i);
    forall x: nat | x in Uses(g.stages)(i) ensures x in UpTo(i) {}
  }

  ghost function ReachableStages(g: Graph, start: nat): set<nat> {
    set i: nat | i in UpTo(start) && Reachable(Uses(g.stages), {start}, i)
  }

  lemma {:induction false} PathDescends(g: Graph, p: seq<nat>)
    requires PointsBack(g) && IsPath(Uses(g.stages), p) && p[0] < |g.stages|
    ensures p[|p| - 1] <= p[0]
  {
    if |p| > 1 {
      UsesBack(g, p[0]);
      assert p[1] in Uses(g.stages)(p[0]);
      PathDescends(g, p[1..]);
    }
  }

  lemma ReachableStagesIsReach(g: Graph, start: nat)
    requires PointsBack(g) && start < |g.stages|
    ensures IsReach(Uses(g.stages), {start}, ReachableStages(g, start))
  {
    forall i: nat | Reachable(Uses(g.stages), {start}, i) ensures i <= start {
      var p :| IsPath(Uses(g.stages), p) && p[0] in {start} && p[|p| - 1] == i;
      PathDescends(g, p);
    }
  }

  ghost predicate DistinctNumbers(q: seq<nat>) {
    forall i, j | 0 <= i < j < |q| :: q[i] != q[j]
  }

  ghost predicate Visiting(g: Graph, start: nat, seen: set<nat>, pending: seq<nat>) {
    Searching(Uses(g.stages), {start}, UpTo(start), seen, pending)
  }

  lemma VisitingStep(g: Graph, start: nat, seen: set<nat>, pending: seq<nat>, x: nat)
    requires PointsBack(g) && start < |g.stages| && Visiting(g, start, seen, pending + [x])
    ensures x <= start
    ensures x in seen ==> Visiting(g, start, seen, pending)
    ensures x < |g.stages| && Visiting(g, start, seen + {x}, pending + Pushed(g.stages[x]))
  {
    assert x in pending + [x] && x in UpTo(start);
    if x in seen { SearchSkip(Uses(g.stages), {start}, UpTo(start), seen, pending, x); }
    UsesBack(g, x);
    assert UpTo(x) <= UpTo(start);
    SearchVisit(Uses(g.stages), {start}, UpTo(start), seen, pending, x, Pushed(g.stages[x]));
  }

  lemma VisitingEnd(g: Graph, start: nat, seen: set<nat>)
    requires PointsBack(g) && start < |g.stages| && Visiting(g, start, seen, [])
    ensures seen == ReachableStages(g, start)
  {
    SearchEnd(Uses(g.stages), {start}, UpTo(start), seen);
    ReachableStagesIsReach(g, start);
    ReachUnique(Uses(g.stages), {start}, seen, ReachableStages(g, start));
  }

  /** `order` lists `seen`, each element once. */
  ghost predicate Lists(order: seq<nat>, seen: set<nat>) {
    DistinctNumbers(order) && forall i: nat :: i in order <==> i in seen
  }

  lemma ListsOneMore(order: seq<nat>, seen: set<nat>, x: nat)
    requires Lists(order, seen) && x !in seen
    ensures Lists(order + [x], seen + {x})
  {
    assert forall i | 0 <= i < |order| :: order[i] in order;
  }

  /** The walk yields every reachable stage exactly once and none after the start. */
  method WalkStages(g: Graph, start: nat) returns (order: seq<nat>)
    requires PointsBack(g) && start < |g.stages|
    ensures Lists(order, ReachableStages(g, start))
    ensures forall i | i in order :: i <= start && i < |g.stages|
  {
    var pending: seq<nat>, seen: set<nat> := [start], {};
    order := [];
    SearchStart(Uses(g.stages), {start}, UpTo(start), pending);
    while pending != []
      invariant Visiting(g, start, seen, pending) && Lists(order, seen)
      decreases UpTo(start) - seen, |pending|
    {
      var index, rest := pending[|pending| - 1], pending[..|pending| - 1];
      SplitLast(pending);
      VisitingStep(g, start, seen, rest, index);
      if index in seen {
        pending := rest;
      } else {
        ListsOneMore(order, seen, index);
        seen, order := seen + {index}, order + [index];
        pending := rest + Pushed(g.stages[index]);
      }
    }
    VisitingEnd(g, start, seen);
  }

  /* ----- images and materials ----- */

  predicate IsImageChar(c: char) {
    'a' <= c <= 'z' || 'A' <= c <= 'Z' || '0' <= c <= '9' || c == '.' || c == '_' || c == ':' || c == '/' || c == '-'
  }

  /** `name@sha256:` and 64 hexadecimal digits. */
  predicate IsPinned(reference: string) {
    var cut := |reference| - 72;
    cut >= 1 && reference[cut..cut + 8] == "@sha256:" && IsHex(reference[cut + 8..])
    && IsImageChar(reference[0]) && reference[0] != '.' && reference[0] != '_' && reference[0] != ':'
    && reference[0] != '/' && reference[0] != '-'
    && forall i | 0 <= i < cut :: IsImageChar(reference[i])
  }

  /** The image references of a stage that name no stage of the file. */
  function ExternalReferences(stage: Stage): set<string> {
    (if stage.internal.None? then {stage.reference} else {}) + set c | c in stage.copies && c.target.None? :: c.value
  }

  predicate StagePinned(stage: Stage) {
    forall r | r in ExternalReferences(stage) :: IsPinned(r)
  }

  /** What the RUN lines of a stage download; `extract` reads one RUN line. */
  function Materials<M>(stage: Stage, extract: string -> set<M>): set<M> {
    set i, m | 0 <= i < |stage.instructions| && m in RunMaterials(stage.instructions[i], extract) :: m
  }

  function RunMaterials<M>(line: string, extract: string -> set<M>): set<M> {
    match InstructionParts(line)
    case None => {}
    case Some(parts) => if Lower(parts.keyword) == "run" then extract(parts.rest) else {}
  }

  datatype Evidence<M> = Evidence(images: map<string, set<string>>, materials: set<M>)

  ghost function ImageNames(g: Graph, reached: set<nat>): set<string> {
    set i, r | i in reached && i < |g.stages| && r in ExternalReferences(g.stages[i]) :: r
  }

  ghost function StagesUsing(g: Graph, reached: set<nat>, r: string): set<string> {
    set i | i in reached && i < |g.stages| && r in ExternalReferences(g.stages[i]) :: g.stages[i].name
  }

  ghost function AllMaterials<M(!new)>(g: Graph, reached: set<nat>, extract: string -> set<M>): set<M> {
    set i, m | i in reached && i < |g.stages| && m in Materials(g.stages[i], extract) :: m
  }

  /** The evidence about the stages in `reached`. */
  ghost predicate IsEvidence<M(!new)>(g: Graph, reached: set<nat>, extract: string -> set<M>, e: Evidence<M>) {
    && e.images.Keys == ImageNames(g, reached)
    && (forall r | r in e.images :: e.images[r] == StagesUsing(g, reached, r))
    && e.materials == AllMaterials(g, reached, extract)
  }

  ghost predicate AllPinned(g: Graph, reached: set<nat>) {
    forall i | i in reached && i < |g.stages| :: StagePinned(g.stages[i])
  }

  function AddImages(images: map<string, set<string>>, refs: set<string>, name: string): map<string, set<string>> {
    map r | r in images.Keys + refs :: (if r in images then images[r] else {}) + (if r in refs then {name} else {})
  }

  lemma EvidenceGrows<M(!new)>(g: Graph, reached: set<nat>, extract: string -> set<M>, e: Evidence<M>, i: nat)
    requires IsEvidence(g, reached, extract, e) && i < |g.stages|
    ensures IsEvidence(g, reached + {i}, extract,
              Evidence(
                AddImages(e.images, ExternalReferences(g.stages[i]), g.stages[i].name),
                e.materials + Materials(g.stages[i], extract)))
  {
    var refs := ExternalReferences(g.stages[i]);
    assert ImageNames(g, reached + {i}) == ImageNames(g, reached) + refs;
    assert AllMaterials(g, reached + {i}, extract)
      == AllMaterials(g, reached, extract) + Materials(g.stages[i], extract);
    forall r | r in ImageNames(g, reached) + refs
      ensures StagesUsing(g, reached + {i}, r) ==
                (if r in e.images then StagesUsing(g, reached, r) else {})
                  + (if r in refs then {g.stages[i].name} else {})
    {
      UsingGrows(g, reached, i, r);
    }
  }

  lemma UsingGrows(g: Graph, reached: set<nat>, i: nat, r: string)
    requires i < |g.stages|
    ensures StagesUsing(g, reached + {i}, r) ==
              StagesUsing(g, reached, r) + if r in ExternalReferences(g.stages[i]) then {g.stages[i].name} else {}
    ensures r !in ImageNames(g, reached) ==> StagesUsing(g, reached, r) == {}
  {
  }

  lemma PinnedGrows(g: Graph, reached: set<nat>, i: nat)
    requires i < |g.stages|
    ensures AllPinned(g, reached + {i}) <==> AllPinned(g, reached) && StagePinned(g.stages[i])
  {
    hide StagePinned;
  }

  lemma PinnedSubset(g: Graph, part: set<nat>, all: set<nat>)
    requires part <= all && AllPinned(g, all)
    ensures AllPinned(g, part)
  {
    hide StagePinned;
  }

  /** The evidence is that of the first `k` stages of the walk, all of them pinned. */
  ghost predicate Gathered<M(!new)>(g: Graph, extract: string -> set<M>, order: seq<nat>, k: nat, e: Evidence<M>)
    requires k <= |order|
  {
    AllPinned(g, Numbers(order[..k])) && IsEvidence(g, Numbers(order[..k]), extract, e)
  }

  function Gather<M>(e: Evidence<M>, stage: Stage, extract: string -> set<M>): Evidence<M> {
    Evidence(AddImages(e.images, ExternalReferences(stage), stage.name), e.materials + Materials(stage, extract))
  }

  lemma GatherStart<M(!new)>(g: Graph, extract: string -> set<M>, order: seq<nat>)
    ensures Gathered(g, extract, order, 0, Evidence(map[], {}))
  {
  }

  lemma GatherStep<M(!new)>(g: Graph, extract: string -> set<M>, order: seq<nat>, k: nat, e: Evidence<M>)
    requires k < |order| && order[k] < |g.stages| && Gathered(g, extract, order, k, e)
    ensures StagePinned(g.stages[order[k]])
            ==> Gathered(g, extract, order, k + 1, Gather(e, g.stages[order[k]], extract))
    ensures !StagePinned(g.stages[order[k]]) ==> !AllPinned(g, Numbers(order))
  {
    NumbersSnoc(order, k);
    hide AllPinned, IsEvidence, StagePinned, AddImages, ExternalReferences, Materials;
    PinnedGrows(g, Numbers(order[..k]), order[k]);
    EvidenceGrows(g, Numbers(order[..k]), extract, e, order[k]);
    if AllPinned(g, Numbers(order)) { PinnedSubset(g, Numbers(order[..k + 1]), Numbers(order)); }
  }

  /** `reachable`; `None` where an image is not pinned. */
  method Collect<M(!new)>(g: Graph, start: nat, extract: string -> set<M>) returns (r: Option<Evidence<M>>)
    requires PointsBack(g) && start < |g.stages|
    ensures r.Some? <==> AllPinned(g, ReachableStages(g, start))
    ensures r.Some? ==> IsEvidence(g, ReachableStages(g, start), extract, r.value)
  {
    var order := WalkStages(g, start);
    assert Numbers(order) == ReachableStages(g, start);
    assert forall i | 0 <= i < |order| :: order[i] in order;
    hide PointsBack, ReachableStages, AllPinned, IsEvidence, StagePinned, Gathered, Gather, Lists, Numbers;
    var e: Evidence<M> := Evidence(map[], {});
    GatherStart(g, extract, order);
    for k := 0 to |order|
      invariant Gathered(g, extract, order, k, e)
    {
      GatherStep(g, extract, order, k, e);
      if !StagePinned(g.stages[order[k]]) { return None; }
      e := Gather(e, g.stages[order[k]], extract);
    }
    GatherEnd(g, extract, order, e);
    r := Some(e);
  }

  lemma GatherEnd<M(!new)>(g: Graph, extract: string -> set<M>, order: seq<nat>, e: Evidence<M>)
    requires Gathered(g, extract, order, |order|, e)
    ensures AllPinned(g, Numbers(order)) && IsEvidence(g, Numbers(order), extract, e)
  {
    assert order[..|order|] == order;
  }

  ghost function Numbers(q: seq<nat>): (s: set<nat>)
    ensures forall x :: x in s <==> x in q
  {
    set x | x in q
  }

  lemma NumbersSnoc(q: seq<nat>, k: nat)
    requires k < |q|
    ensures Numbers(q[..k + 1]) == Numbers(q[..k]) + {q[k]}
    ensures Numbers(q[..k + 1]) <= Numbers(q)
  {
    assert q[..k + 1] == q[..k] + [q[k]];
  }
}

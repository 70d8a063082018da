/** The playground's seeded trace and log generator. */
module Generator {
  import opened Decimal

  /* ----- the random number generator ----- */

  function Xor(x: bv32, y: bv32): bv32 { x ^ y }
  function Left5(x: bv32): bv32 { x << 5 }
  function Left10(x: bv32): bv32 { x << 10 }
  function Left13(x: bv32): bv32 { x << 13 }
  function Left20(x: bv32): bv32 { x << 20 }
  function Left26(x: bv32): bv32 { x << 26 }
  function Right17(x: bv32): bv32 { x >> 17 }

  /** `x ^= x << 13`, `x ^= x >> 17` and `x ^= x << 5` */
  function ShiftA(x: bv32): bv32 { Xor(x, Left13(x)) }
  function ShiftB(x: bv32): bv32 { Xor(x, Right17(x)) }
  function ShiftC(x: bv32): bv32 { Xor(x, Left5(x)) }

  function XorShift(x: bv32): bv32 { ShiftC(ShiftB(ShiftA(x))) }

  lemma Cancel(a: bv32, b: bv32, c: bv32)
    ensures Xor(Xor(a, b), Xor(b, c)) == Xor(a, c)
  {
  }

  lemma CancelAll(a: bv32, b: bv32)
    ensures Xor(Xor(a, b), Xor(b, 0)) == a
  {
  }

  lemma Left5OverXor(x: bv32, y: bv32)
    ensures Left5(Xor(x, y)) == Xor(Left5(x), Left5(y))
  {
  }

  lemma Left10OverXor(x: bv32, y: bv32)
    ensures Left10(Xor(x, y)) == Xor(Left10(x), Left10(y))
  {
  }

  lemma Left13OverXor(x: bv32, y: bv32)
    ensures Left13(Xor(x, y)) == Xor(Left13(x), Left13(y))
  {
  }

  lemma Left20OverXor(x: bv32, y: bv32)
    ensures Left20(Xor(x, y)) == Xor(Left20(x), Left20(y))
  {
  }

  lemma Left26OverXor(x: bv32, y: bv32)
    ensures Left26(Xor(x, y)) == Xor(Left26(x), Left26(y))
  {
  }

  lemma Right17OverXor(x: bv32, y: bv32)
    ensures Right17(Xor(x, y)) == Xor(Right17(x), Right17(y))
  {
  }

  /** A shift distributes over the exclusive or. */
  lemma ShiftOverXor(x: bv32, y: bv32)
    ensures Left5(Xor(x, y)) == Xor(Left5(x), Left5(y))
    ensures Left10(Xor(x, y)) == Xor(Left10(x), Left10(y))
    ensures Left13(Xor(x, y)) == Xor(Left13(x), Left13(y))
    ensures Left20(Xor(x, y)) == Xor(Left20(x), Left20(y))
    ensures Left26(Xor(x, y)) == Xor(Left26(x), Left26(y))
    ensures Right17(Xor(x, y)) == Xor(Right17(x), Right17(y))
  {
    hide Xor, Left5, Left10, Left13, Left20, Left26, Right17;
    Left5OverXor(x, y);
    Left10OverXor(x, y);
    Left13OverXor(x, y);
    Left20OverXor(x, y);
    Left26OverXor(x, y);
    Right17OverXor(x, y);
  }

  lemma ShiftTwice(x: bv32)
    ensures Left5(Left5(x)) == Left10(x) && Left10(Left10(x)) == Left20(x) && Left20(Left20(x)) == 0
    ensures Left13(Left13(x)) == Left26(x) && Left26(Left26(x)) == 0 && Right17(Right17(x)) == 0
  {
  }

  /** Applied twice, a step with shift `k` is a step with shift `2k`: the middle terms cancel. */
  lemma DoubleA(x: bv32)
    ensures ShiftA(ShiftA(x)) == Xor(x, Left26(x))
  {
    hide Xor, Left13, Left26;
    ShiftOverXor(x, Left13(x));
    ShiftTwice(x);
    Cancel(x, Left13(x), Left26(x));
  }

  lemma Double26(x: bv32)
    ensures Xor(Xor(x, Left26(x)), Left26(Xor(x, Left26(x)))) == x
  {
    hide Xor, Left26;
    ShiftOverXor(x, Left26(x));
    ShiftTwice(x);
    CancelAll(x, Left26(x));
  }

  lemma DoubleB(x: bv32)
    ensures ShiftB(ShiftB(x)) == x
  {
    hide Xor, Right17;
    ShiftOverXor(x, Right17(x));
    ShiftTwice(x);
    CancelAll(x, Right17(x));
  }

  lemma DoubleC(x: bv32)
    ensures ShiftC(ShiftC(x)) == Xor(x, Left10(x))
  {
    hide Xor, Left10, Left5;
    ShiftOverXor(x, Left5(x));
    ShiftTwice(x);
    Cancel(x, Left5(x), Left10(x));
  }

  lemma Double10(x: bv32)
    ensures Xor(Xor(x, Left10(x)), Left10(Xor(x, Left10(x)))) == Xor(x, Left20(x))
  {
    hide Xor, Left10, Left20;
    ShiftOverXor(x, Left10(x));
    ShiftTwice(x);
    Cancel(x, Left10(x), Left20(x));
  }

  lemma Double20(x: bv32)
    ensures Xor(Xor(x, Left20(x)), Left20(Xor(x, Left20(x)))) == x
  {
    hide Xor, Left20;
    ShiftOverXor(x, Left20(x));
    ShiftTwice(x);
    CancelAll(x, Left20(x));
  }

  lemma ShiftsInjective(x: bv32, y: bv32)
    ensures ShiftA(x) == ShiftA(y) ==> x == y
    ensures ShiftB(x) == ShiftB(y) ==> x == y
    ensures ShiftC(x) == ShiftC(y) ==> x == y
  {
    hide ShiftA, ShiftB, ShiftC, Xor, Left10, Left20, Left26;
    DoubleA(x); DoubleA(y); Double26(x); Double26(y);
    DoubleB(x); DoubleB(y);
    DoubleC(x); DoubleC(y); Double10(x); Double10(y); Double20(x); Double20(y);
  }

  /** A step loses no information. */
  lemma StepInjective(x: bv32, y: bv32)
    requires XorShift(x) == XorShift(y)
    ensures x == y
  {
    hide ShiftA, ShiftB, ShiftC;
    ShiftsInjective(ShiftB(ShiftA(x)), ShiftB(ShiftA(y)));
    ShiftsInjective(ShiftA(x), ShiftA(y));
    ShiftsInjective(x, y);
  }

  /** From a state that is not zero, a step never reaches zero. */
  lemma StepNonZero(x: bv32)
    requires x != 0
    ensures XorShift(x) != 0
  {
    assert XorShift(0) == 0;
    if XorShift(x) == 0 { StepInjective(x, 0); }
  }

  function FirstState(seed: bv32): (s: bv32)
    ensures s != 0
  {
    if seed == 0 then 1 else seed
  }

  /** The state after `n` draws. */
  function StateAfter(seed: bv32, n: nat): bv32 {
    if n == 0 then FirstState(seed) else XorShift(StateAfter(seed, n - 1))
  }

  /** For every seed the generator never gets stuck at zero. */
  lemma {:induction false} NeverZero(seed: bv32, n: nat)
    ensures StateAfter(seed, n) != 0
  {
    if n > 0 {
      NeverZero(seed, n - 1);
      StepNonZero(StateAfter(seed, n - 1));
    }
  }

  /** Two different states stay different. */
  lemma {:induction false} StaysDifferent(seed: bv32, other: bv32, n: nat)
    requires FirstState(seed) != FirstState(other)
    ensures StateAfter(seed, n) != StateAfter(other, n)
  {
    if n > 0 {
      StaysDifferent(seed, other, n - 1);
      if StateAfter(seed, n) == StateAfter(other, n) {
        StepInjective(StateAfter(seed, n - 1), StateAfter(other, n - 1));
      }
    }
  }

  datatype Draw<+T> = Draw(value: T, state: bv32)

  function Range(s: bv32, max: nat): (d: Draw<nat>)
    ensures max > 0 ==> d.value < max
  {
    if max == 0 then Draw(0, s) else Draw(XorShift(s) as int % max, XorShift(s))
  }

  /** `next_f64() < p` over exact numbers. */
  function Below(s: bv32, p: real): Draw<bool> {
    Draw(XorShift(s) as int as real / 4294967295.0 < p, XorShift(s))
  }

  class Rng {
    var state: bv32

    constructor (seed: bv32)
      ensures state == FirstState(seed)
    {
      state := if seed == 0 then 1 else seed;
    }

    method NextU32() returns (x: bv32)
      modifies this
      ensures x == state == XorShift(old(state))
    {
      x := state;
      x := Xor(x, Left13(x));
      x := Xor(x, Right17(x));
      x := Xor(x, Left5(x));
      state := x;
    }

    method NextRange(max: nat) returns (r: nat)
      modifies this
      ensures Draw(r, state) == Range(old(state), max)
    {
      if max == 0 { return 0; }
      var x := NextU32();
      r := x as int % max;
    }

    method NextBelow(p: real) returns (b: bool)
      modifies this
      ensures Draw(b, state) == Below(old(state), p)
    {
      var x := NextU32();
      b := x as int as real / 4294967295.0 < p;
    }
  }

  /* ----- the topology ----- */

  function ChildrenOf(service: string): seq<string> {
    match service
    case "web" => ["api-gateway"]
    case "api-gateway" => ["checkout", "catalog", "search"]
    case "checkout" => ["payment"]
    case "payment" => ["inventory"]
    case "inventory" => ["database"]
    case _ => []
  }

  const ROOT_SERVICES: seq<string> := ["web", "api-gateway"]
  const TRACE_COUNT: nat := 40
  const WINDOW_SECS: nat := 55 * 60
  const MILLI: int := 1_000_000
  const SECOND: int := 1_000_000_000

  function OperationName(service: string): string {
    match service
    case "web" => "GET /"
    case "api-gateway" => "GET /api/route"
    case "checkout" => "POST /checkout"
    case "payment" => "POST /charge"
    case "inventory" => "GET /inventory/check"
    case "database" => "QUERY spans"
    case "catalog" => "GET /catalog"
    case "search" => "GET /search"
    case _ => "UNKNOWN"
  }

  function ErrorWeight(service: string): real {
    match service
    case "payment" => 0.15
    case "inventory" => 0.08
    case _ => 0.04
  }

  function MinMs(service: string): nat {
    match service
    case "payment" => 50
    case "database" => 2
    case "inventory" => 10
    case _ => 5
  }

  function MaxMs(service: string): (m: nat)
    ensures MinMs(service) < m
  {
    match service
    case "payment" => 500
    case "database" => 40
    case "inventory" => 120
    case _ => 80
  }

  function BaseDuration(s: bv32, service: string): (d: Draw<int>)
    ensures MinMs(service) * MILLI <= d.value < MaxMs(service) * MILLI
  {
    var r := Range(s, MaxMs(service) - MinMs(service));
    Draw((MinMs(service) + r.value) * MILLI, r.state)
  }

  function Status(error: bool): string { if error then "ERROR" else "OK" }

  function Min(a: int, b: int): int { if a < b then a else b }
  function Max(a: int, b: int): int { if a > b then a else b }

  /* ----- spans ----- */

  /** Times are numbers here; the source prints them in decimal. */
  datatype Span = Span(
    traceId: string, spanId: string, parentSpanId: string, service: string, operation: string, duration: int,
    status: string, environment: string, start: int)

  function TraceId(i: nat): string { "playground-trace-" + Render(i) }

  function SpanId(i: nat, k: nat): string { "playground-span-" + Render(i) + "-" + Render(k) }

  /** One span: its duration, capped to leave a millisecond of its parent, and its status are drawn. */
  function MakeSpan(
    i: nat, k: nat, parent: string, service: string, cap: int, environment: string, start: int, s: bv32): Draw<Span> {
    var d := BaseDuration(s, service);
    var e := Below(d.state, ErrorWeight(service));
    var span := Span(
      TraceId(i), SpanId(i, k), parent, service, OperationName(service), Min(d.value, cap), Status(e.value),
      environment, start);
    Draw(span, e.state)
  }

  /** Longer than any drawn duration: the root is not capped. */
  const NO_CAP: int := 500 * MILLI

  function Cap(parent: Span): int { Max(parent.duration - MILLI, MILLI) }

  function RootSpan(i: nat, now: int, s: bv32): Draw<Span> {
    var which := Range(s, |ROOT_SERVICES|);
    var offset := Range(which.state, WINDOW_SECS);
    var staging := Below(offset.state, 0.25);
    MakeSpan(i, 0, "", ROOT_SERVICES[which.value], NO_CAP, if staging.value then "staging" else "production",
      now - offset.value * SECOND, staging.state)
  }

  /** A child of the given span, of a service below the parent's. */
  function ChildSpan(i: nat, k: nat, parent: Span, s: bv32): Draw<Span>
    requires ChildrenOf(parent.service) != []
  {
    var which := Range(s, |ChildrenOf(parent.service)|);
    MakeSpan(i, k, parent.spanId, ChildrenOf(parent.service)[which.value], Cap(parent), parent.environment,
      parent.start + MILLI, which.state)
  }

  function TraceSpans(i: nat, now: int, s: bv32): Draw<seq<Span>> {
    var root := RootSpan(i, now, s);
    if ChildrenOf(root.value.service) == [] then Draw([root.value], root.state)
    else
      var child := ChildSpan(i, 1, root.value, root.state);
      var deeper := Below(child.state, 0.15);
      if !deeper.value || ChildrenOf(child.value.service) == [] then Draw([root.value, child.value], deeper.state)
      else
        var grandchild := ChildSpan(i, 2, child.value, deeper.state);
        Draw([root.value, child.value, grandchild.value], grandchild.state)
  }

  function SpansUpTo(n: nat, now: int, s: bv32): Draw<seq<Span>> {
    if n == 0 then Draw([], s)
    else
      var before := SpansUpTo(n - 1, now, s);
      var trace := TraceSpans(n - 1, now, before.state);
      Draw(before.value + trace.value, trace.state)
  }

  function Spans(seed: bv32, now: int): seq<Span> {
    SpansUpTo(TRACE_COUNT, now, FirstState(seed)).value
  }

  method DrawSpan(
    rng: Rng, i: nat, k: nat, parent: string, service: string, cap: int, environment: string, start: int)
      returns (span: Span)
    modifies rng
    ensures Draw(span, rng.state) == MakeSpan(i, k, parent, service, cap, environment, start, old(rng.state))
  {
    var r := rng.NextRange(MaxMs(service) - MinMs(service));
    var duration := Min((MinMs(service) + r) * MILLI, cap);
    var error := rng.NextBelow(ErrorWeight(service));
    span := Span(
      TraceId(i), SpanId(i, k), parent, service, OperationName(service), duration, Status(error), environment, start);
  }

  method DrawRoot(rng: Rng, i: nat, now: int) returns (root: Span)
    modifies rng
    ensures Draw(root, rng.state) == RootSpan(i, now, old(rng.state))
  {
    hide MakeSpan, Below, XorShift;
    var which := rng.NextRange(|ROOT_SERVICES|);
    var offset := rng.NextRange(WINDOW_SECS);
    var staging := rng.NextBelow(0.25);
    var environment := if staging then "staging" else "production";
    root := DrawSpan(rng, i, 0, "", ROOT_SERVICES[which], NO_CAP, environment, now - offset * SECOND);
  }

  method DrawChild(rng: Rng, i: nat, k: nat, parent: Span) returns (child: Span)
    requires ChildrenOf(parent.service) != []
    modifies rng
    ensures Draw(child, rng.state) == ChildSpan(i, k, parent, old(rng.state))
  {
    var children := ChildrenOf(parent.service);
    var c := rng.NextRange(|children|);
    child := DrawSpan(rng, i, k, parent.spanId, children[c], Cap(parent), parent.environment, parent.start + MILLI);
  }

  method DrawTrace(rng: Rng, i: nat, now: int) returns (spans: seq<Span>)
    modifies rng
    ensures Draw(spans, rng.state) == TraceSpans(i, now, old(rng.state))
  {
    hide RootSpan, ChildSpan, Below, XorShift;
    var root := DrawRoot(rng, i, now);
    spans := [root];
    if ChildrenOf(root.service) == [] { return; }
    var child := DrawChild(rng, i, 1, root);
    spans := [root, child];
    var deeper := rng.NextBelow(0.15);
    if deeper && ChildrenOf(child.service) != [] {
      var grandchild := DrawChild(rng, i, 2, child);
      spans := [root, child, grandchild];
    }
  }

  /** The same seed and time always give the same spans: the result is a function of them. */
  method GenerateSpans(seed: bv32, now: int) returns (spans: seq<Span>)
    ensures spans == Spans(seed, now)
  {
    var rng := new Rng(seed);
    spans := [];
    for i := 0 to TRACE_COUNT
      invariant Draw(spans, rng.state) == SpansUpTo(i, now, FirstState(seed))
    {
      var trace := DrawTrace(rng, i, now);
      spans := spans + trace;
    }
  }

  /* ----- what is drawn for a span ----- */

  /** The shortest and the longest duration of a service in milliseconds, the longest one excluded. */
  ghost predicate HasDurations(service: string, shortest: nat, longest: nat) {
    || (service == "payment" && shortest == 50 && longest == 500)
    || (service == "database" && shortest == 2 && longest == 40)
    || (service == "inventory" && shortest == 10 && longest == 120)
    || (service !in {"payment", "database", "inventory"} && shortest == 5 && longest == 80)
  }

  /** How often a service fails. */
  ghost predicate HasWeight(service: string, weight: real) {
    || (service == "payment" && weight == 0.15)
    || (service == "inventory" && weight == 0.08)
    || (service !in {"payment", "inventory"} && weight == 0.04)
  }

  lemma DurationMeans(s: bv32, service: string, shortest: nat, longest: nat)
    requires HasDurations(service, shortest, longest)
    ensures BaseDuration(s, service)
            == Draw((shortest + XorShift(s) as int % (longest - shortest)) * 1_000_000, XorShift(s))
  {
    assert MinMs(service) == shortest && MaxMs(service) == longest;
    hide XorShift, MinMs, MaxMs;
  }

  lemma StatusMeans(s: bv32, service: string, weight: real)
    requires HasWeight(service, weight)
    ensures var error := Below(s, ErrorWeight(service));
      && error == Draw(XorShift(s) as int as real / 4294967295.0 < weight, XorShift(s))
      && (Status(error.value) == "ERROR" <==> error.value) && (Status(error.value) == "OK" <==> !error.value)
  {
    assert "ERROR"[0] == 'E' && "OK"[0] == 'O';
    hide XorShift;
  }

  /** A span takes two numbers from the generator: from the first its duration within the bounds of its service, at most
      the cap; from the second its status, an error exactly if the number is below the service's share of them. */
  lemma SpanMeans(
    i: nat, k: nat, parent: string, service: string, cap: int, environment: string, start: int, s: bv32,
    shortest: nat, longest: nat, weight: real)
    requires HasDurations(service, shortest, longest) && HasWeight(service, weight)
    ensures var first, second := XorShift(s), XorShift(XorShift(s));
      var drawn := MakeSpan(i, k, parent, service, cap, environment, start, s);
      var own, span := (shortest + first as int % (longest - shortest)) * 1_000_000, drawn.value;
      && drawn.state == second
      && span.duration == (if own < cap then own else cap)
      && (span.status == "ERROR" <==> second as int as real / 4294967295.0 < weight)
      && (span.status == "OK" <==> !(second as int as real / 4294967295.0 < weight))
      && span.traceId == "playground-trace-" + Render(i)
      && span.spanId == "playground-span-" + Render(i) + "-" + Render(k)
      && span.parentSpanId == parent && span.service == service && span.environment == environment
      && span.start == start
  {
    DurationMeans(s, service, shortest, longest);
    StatusMeans(XorShift(s), service, weight);
    hide XorShift, Render, BaseDuration, Below, Status, HasWeight, HasDurations, ErrorWeight, OperationName;
  }

  /** Which service calls which. */
  lemma CallsMean(service: string, child: string)
    ensures child in ChildrenOf(service) <==>
              (service, child) in {
                ("web", "api-gateway"), ("api-gateway", "checkout"), ("api-gateway", "catalog"),
                ("api-gateway", "search"), ("checkout", "payment"), ("payment", "inventory"),
                ("inventory", "database")}
  {
  }

  /** The operation is that of the service. */
  lemma OperationMeans(
    i: nat, k: nat, parent: string, service: string, cap: int, environment: string, start: int, s: bv32)
    ensures var operation := MakeSpan(i, k, parent, service, cap, environment, start, s).value.operation;
      || (service, operation) in {
           ("web", "GET /"), ("api-gateway", "GET /api/route"), ("checkout", "POST /checkout"),
           ("payment", "POST /charge"), ("inventory", "GET /inventory/check"), ("database", "QUERY spans"),
           ("catalog", "GET /catalog"), ("search", "GET /search")}
      || (operation == "UNKNOWN"
          && service !in {
               "web", "api-gateway", "checkout", "payment", "inventory", "database", "catalog", "search"})
  {
    hide XorShift;
  }

  /* ----- every child lies inside its parent ----- */

  ghost predicate Nested(parent: Span, child: Span) {
    && child.traceId == parent.traceId && child.parentSpanId == parent.spanId && child.environment == parent.environment
    && parent.start < child.start && child.start + child.duration <= parent.start + parent.duration
    && child.duration > 0 && child.service in ChildrenOf(parent.service)
  }

  /** Whatever is drawn, a child fits into a parent of at least two milliseconds. */
  lemma ChildFits(i: nat, k: nat, parent: Span, s: bv32)
    requires ChildrenOf(parent.service) != [] && parent.duration >= 2 * MILLI && parent.traceId == TraceId(i)
    ensures var child := ChildSpan(i, k, parent, s).value;
      Nested(parent, child) && child.duration >= Min(2 * MILLI, parent.duration - MILLI)
      && (child.service != "database" ==> child.duration >= Min(5 * MILLI, parent.duration - MILLI))
      && child.traceId == TraceId(i) && child.spanId == SpanId(i, k)
  {
    hide XorShift;
  }

  ghost predicate IsRoot(i: nat, now: int, root: Span) {
    && root.parentSpanId == "" && (root.service == "web" || root.service == "api-gateway") && root.duration >= 5 * MILLI
    && now - (WINDOW_SECS - 1) * SECOND <= root.start <= now && root.traceId == TraceId(i)
    && root.spanId == SpanId(i, 0)
  }

  lemma RootSpanIsRoot(i: nat, now: int, s: bv32)
    ensures IsRoot(i, now, RootSpan(i, now, s).value)
  {
    hide XorShift;
  }

  ghost predicate IsChild(i: nat, k: nat, parent: Span, child: Span) {
    Nested(parent, child) && child.traceId == TraceId(i) && child.spanId == SpanId(i, k)
  }

  /** Below a root there is no database, so a child of a root still has room for a grandchild. */
  lemma FirstChild(i: nat, now: int, root: Span, s: bv32)
    requires IsRoot(i, now, root)
    ensures ChildrenOf(root.service) != []
    ensures IsChild(i, 1, root, ChildSpan(i, 1, root, s).value) && ChildSpan(i, 1, root, s).value.duration >= 4 * MILLI
  {
    ChildFits(i, 1, root, s);
  }

  lemma SecondChild(i: nat, child: Span, s: bv32)
    requires ChildrenOf(child.service) != [] && child.duration >= 4 * MILLI && child.traceId == TraceId(i)
    ensures IsChild(i, 2, child, ChildSpan(i, 2, child, s).value)
  {
    ChildFits(i, 2, child, s);
  }

  /** Every trace has two or three spans: a root of at least five milliseconds, a child inside it, perhaps a grandchild
      inside the child. */
  ghost predicate IsTrace(i: nat, now: int, spans: seq<Span>) {
    && 2 <= |spans| <= 3
    && IsRoot(i, now, spans[0]) && IsChild(i, 1, spans[0], spans[1])
    && (|spans| == 3 ==> IsChild(i, 2, spans[1], spans[2]))
  }

  lemma TraceIsNested(i: nat, now: int, s: bv32)
    ensures IsTrace(i, now, TraceSpans(i, now, s).value)
  {
    hide RootSpan, ChildSpan, Below, IsRoot, IsChild;
    var root := RootSpan(i, now, s);
    RootSpanIsRoot(i, now, s);
    FirstChild(i, now, root.value, root.state);
    var child := ChildSpan(i, 1, root.value, root.state);
    var deeper := Below(child.state, 0.15);
    if deeper.value && ChildrenOf(child.value.service) != [] {
      ChildOfTrace(i, 1, root.value, child.value);
      SecondChild(i, child.value, deeper.state);
    }
  }

  lemma ChildOfTrace(i: nat, k: nat, parent: Span, child: Span)
    requires IsChild(i, k, parent, child)
    ensures child.traceId == TraceId(i)
  {
  }

  /* ----- ids are unique ----- */

  lemma SpanIdParts(i: nat, k: nat)
    requires k < 10
    ensures var a := SpanId(i, k);
      |a| >= 18 && a[16..|a| - 2] == Render(i) && a[|a| - 1..] == Render(k)
  {
    assert |Render(k)| == 1;
    hide Render;
    Parts("playground-span-", Render(i), "-", Render(k));
  }

  lemma Parts(head: string, middle: string, dash: string, tail: string)
    requires |head| == 16 && |dash| == 1 && |tail| == 1
    ensures var a := head + middle + dash + tail;
      a[16..|a| - 2] == middle && a[|a| - 1..] == tail
  {
    var a := head + middle + dash + tail;
    assert forall n | 0 <= n < |middle| :: a[16 + n] == middle[n];
  }

  lemma SpanIdInjective(i: nat, j: nat, k: nat, l: nat)
    requires SpanId(i, k) == SpanId(j, l) && k < 10 && l < 10
    ensures i == j && k == l
  {
    SpanIdParts(i, k);
    SpanIdParts(j, l);
    hide SpanId, Render;
    RenderInjective(i, j);
    RenderInjective(k, l);
  }

  lemma TraceIds(i: nat, now: int, s: bv32, l: nat)
    requires l < |TraceSpans(i, now, s).value|
    ensures l < 3 && TraceSpans(i, now, s).value[l].spanId == SpanId(i, l)
  {
    TraceIsNested(i, now, s);
    hide TraceSpans, XorShift;
  }

  /** Every span comes from one position of one trace. */
  lemma {:induction false} SpanOrigin(n: nat, now: int, s: bv32, k: nat) returns (i: nat, l: nat)
    requires k < |SpansUpTo(n, now, s).value|
    ensures i < n && l < 3 && SpansUpTo(n, now, s).value[k].spanId == SpanId(i, l)
    ensures k == |SpansUpTo(i, now, s).value| + l
  {
    hide TraceSpans, SpanId;
    var before := SpansUpTo(n - 1, now, s);
    if k < |before.value| {
      i, l := SpanOrigin(n - 1, now, s, k);
    } else {
      i, l := n - 1, k - |before.value|;
      TraceIds(i, now, before.state, l);
    }
  }

  /** No two spans of a run share an id. */
  lemma SpanIdsUnique(seed: bv32, now: int, j: nat, k: nat)
    requires j < k < |Spans(seed, now)|
    ensures Spans(seed, now)[j].spanId != Spans(seed, now)[k].spanId
  {
    hide SpansUpTo, SpanId;
    var a, l := SpanOrigin(TRACE_COUNT, now, FirstState(seed), j);
    var b, m := SpanOrigin(TRACE_COUNT, now, FirstState(seed), k);
    if SpanId(a, l) == SpanId(b, m) { SpanIdInjective(a, b, l, m); }
  }

  /* ----- the spans are whole traces ----- */

  /** Where trace `i` starts among the spans. */
  ghost function TraceStart(seed: bv32, now: int, i: nat): nat { |SpansUpTo(i, now, FirstState(seed)).value| }

  lemma {:induction false} TraceSlice(n: nat, now: int, s: bv32, i: nat)
    requires i < n
    ensures |SpansUpTo(i, now, s).value| <= |SpansUpTo(i + 1, now, s).value| <= |SpansUpTo(n, now, s).value|
    ensures SpansUpTo(n, now, s).value[|SpansUpTo(i, now, s).value|..|SpansUpTo(i + 1, now, s).value|]
            == TraceSpans(i, now, SpansUpTo(i, now, s).state).value
  {
    hide TraceSpans;
    var before, last := SpansUpTo(n - 1, now, s), TraceSpans(n - 1, now, SpansUpTo(n - 1, now, s).state);
    assert SpansUpTo(n, now, s).value == before.value + last.value;
    if i < n - 1 {
      TraceSlice(n - 1, now, s, i);
      hide SpansUpTo;
      SliceOfFront(before.value, last.value, |SpansUpTo(i, now, s).value|, |SpansUpTo(i + 1, now, s).value|);
    } else {
      SliceOfBack(before.value, last.value);
    }
  }

  lemma SliceOfFront(a: seq<Span>, b: seq<Span>, from: nat, to: nat)
    requires from <= to <= |a|
    ensures (a + b)[from..to] == a[from..to]
  {
  }

  lemma SliceOfBack(a: seq<Span>, b: seq<Span>)
    ensures (a + b)[|a|..|a + b|] == b
  {
  }

  /** The spans are the traces one after the other: each a root of at least five milliseconds within the window, a child
      inside it, and perhaps a grandchild inside the child. */
  lemma SpansAreTraces(seed: bv32, now: int, i: nat)
    requires i < TRACE_COUNT
    ensures TraceStart(seed, now, 0) == 0 && TraceStart(seed, now, TRACE_COUNT) == |Spans(seed, now)|
    ensures TraceStart(seed, now, i) < TraceStart(seed, now, i + 1) <= |Spans(seed, now)|
    ensures IsTrace(i, now, Spans(seed, now)[TraceStart(seed, now, i)..TraceStart(seed, now, i + 1)])
  {
    TraceSlice(TRACE_COUNT, now, FirstState(seed), i);
    TraceIsNested(i, now, SpansUpTo(i, now, FirstState(seed)).state);
    hide TraceSpans, IsRoot, IsChild;
  }

  lemma NoParentIffRoot(i: nat, now: int, spans: seq<Span>, l: nat)
    requires IsTrace(i, now, spans) && l < |spans|
    ensures spans[l].duration > 0 && (spans[l].parentSpanId == "" <==> l == 0)
    ensures l > 0 ==> Nested(spans[l - 1], spans[l])
  {
    if l > 0 { assert IsChild(i, l, spans[l - 1], spans[l]); }
  }

  lemma {:induction false} TraceOf(n: nat, now: int, s: bv32, k: nat) returns (i: nat)
    requires k < |SpansUpTo(n, now, s).value|
    ensures i < n && |SpansUpTo(i, now, s).value| <= k < |SpansUpTo(i + 1, now, s).value|
  {
    hide TraceSpans;
    if k < |SpansUpTo(n - 1, now, s).value| { i := TraceOf(n - 1, now, s, k); } else { i := n - 1; }
  }

  /** A span at a place of its trace. */
  lemma SpanInTrace(seed: bv32, now: int, i: nat, k: nat)
    requires i < TRACE_COUNT && TraceStart(seed, now, i) <= k < TraceStart(seed, now, i + 1)
    ensures k < |Spans(seed, now)| && Spans(seed, now)[k].duration > 0
    ensures Spans(seed, now)[k].parentSpanId == "" <==> k == TraceStart(seed, now, i)
    ensures k > TraceStart(seed, now, i) ==> Nested(Spans(seed, now)[k - 1], Spans(seed, now)[k])
  {
    SpansAreTraces(seed, now, i);
    hide Spans, IsTrace, Nested, TraceStart;
    InSlice(i, now, Spans(seed, now), TraceStart(seed, now, i), TraceStart(seed, now, i + 1), k);
  }

  lemma InSlice(i: nat, now: int, all: seq<Span>, from: nat, to: nat, k: nat)
    requires from <= k < to <= |all| && IsTrace(i, now, all[from..to])
    ensures all[k].duration > 0 && (all[k].parentSpanId == "" <==> k == from)
    ensures k > from ==> Nested(all[k - 1], all[k])
  {
    NoParentIffRoot(i, now, all[from..to], k - from);
    hide IsTrace, Nested;
  }

  /** For every seed and every time, each span lasts; exactly the first span of a trace names no parent, and any other
      lies strictly inside the span before it, of the same trace, which the topology allows above it. */
  lemma EverySpanIsNested(seed: bv32, now: int, k: nat)
    requires k < |Spans(seed, now)|
    ensures Spans(seed, now)[k].duration > 0
    ensures Spans(seed, now)[k].parentSpanId == ""
            <==> exists i :: 0 <= i < TRACE_COUNT && TraceStart(seed, now, i) == k
    ensures Spans(seed, now)[k].parentSpanId != "" ==> k > 0 && Nested(Spans(seed, now)[k - 1], Spans(seed, now)[k])
  {
    var i := TraceOf(TRACE_COUNT, now, FirstState(seed), k);
    SpanInTrace(seed, now, i, k);
    if j :| 0 <= j < TRACE_COUNT && TraceStart(seed, now, j) == k {
      SpansAreTraces(seed, now, j);
      SpanInTrace(seed, now, j, k);
    }
  }

  /* ----- 64-bit times ----- */

  predicate FitsI64(x: int) { -0x8000_0000_0000_0000 <= x < 0x8000_0000_0000_0000 }

  ghost predicate AllFit(spans: seq<Span>) {
    forall k | 0 <= k < |spans| :: FitsI64(spans[k].start) && FitsI64(spans[k].duration)
  }

  /** If the current time is a window away from both ends of the 64-bit range, no start time and no duration leaves
      it. */
  lemma {:induction false} TimesFit(n: nat, now: int, s: bv32)
    requires FitsI64(now - WINDOW_SECS * SECOND) && FitsI64(now + 2 * MILLI)
    ensures AllFit(SpansUpTo(n, now, s).value)
  {
    if n > 0 {
      hide TraceSpans, FitsI64, AllFit;
      var before := SpansUpTo(n - 1, now, s);
      assert SpansUpTo(n, now, s).value == before.value + TraceSpans(n - 1, now, before.state).value;
      hide SpansUpTo;
      TimesFit(n - 1, now, s);
      TraceTimesFit(n - 1, now, before.state);
      AllFitAppend(before.value, TraceSpans(n - 1, now, before.state).value);
    }
  }

  lemma AllFitAppend(a: seq<Span>, b: seq<Span>)
    requires AllFit(a) && AllFit(b)
    ensures AllFit(a + b)
  {
    hide FitsI64;
  }

  lemma TraceTimesFit(i: nat, now: int, s: bv32)
    requires FitsI64(now - WINDOW_SECS * SECOND) && FitsI64(now + 2 * MILLI)
    ensures AllFit(TraceSpans(i, now, s).value)
  {
    hide XorShift, Below, OperationName, ErrorWeight, SpanId, TraceId;
  }

  /* ----- logs ----- */

  datatype Log = Log(
    logId: string, timestamp: int, observed: int, severityNumber: int, severityText: string, body: string,
    traceId: string, spanId: string, service: string, environment: string, hostId: string)

  function LogBody(service: string, status: string): string {
    if status == "ERROR" then service + " request failed" else service + " request completed"
  }

  function MakeLog(span: Span, number: int, text: string): Log {
    Log("playground-log-" + span.spanId, span.start, span.start, number, text, LogBody(span.service, span.status),
      span.traceId, span.spanId, span.service, span.environment, "playground-host")
  }

  /** The log of one span; only a span that is not an error draws a number. */
  function LogOf(span: Span, s: bv32): Draw<Log> {
    if span.status == "ERROR" then Draw(MakeLog(span, 17, "ERROR"), s)
    else
      var warn := Below(s, 0.1);
      Draw(if warn.value then MakeLog(span, 13, "WARN") else MakeLog(span, 9, "INFO"), warn.state)
  }

  function LogsOf(spans: seq<Span>, s: bv32): Draw<seq<Log>> {
    if spans == [] then Draw([], s)
    else
      var before := LogsOf(spans[..|spans| - 1], s);
      var last := LogOf(spans[|spans| - 1], before.state);
      Draw(before.value + [last.value], last.state)
  }

  function Logs(seed: bv32, now: int): seq<Log> {
    LogsOf(Spans(seed, now), FirstState(seed + 0x9E3779B9)).value
  }

  method GenerateLogs(seed: bv32, now: int) returns (logs: seq<Log>)
    ensures logs == Logs(seed, now)
  {
    hide Spans, Below, XorShift, MakeLog;
    var spans := GenerateSpans(seed, now);
    var rng := new Rng(seed + 0x9E3779B9);
    logs := [];
    for i := 0 to |spans|
      invariant Draw(logs, rng.state) == LogsOf(spans[..i], FirstState(seed + 0x9E3779B9))
    {
      assert spans[..i + 1][..i] == spans[..i];
      var span := spans[i];
      if span.status == "ERROR" {
        logs := logs + [MakeLog(span, 17, "ERROR")];
      } else {
        var warn := rng.NextBelow(0.1);
        logs := logs + [if warn then MakeLog(span, 13, "WARN") else MakeLog(span, 9, "INFO")];
      }
    }
    assert spans[..|spans|] == spans;
  }

  /** The log of an error span is an error and says that the request failed, any other log is a warning or an
      information and says that it is completed. */
  ghost predicate LogsSpan(log: Log, span: Span) {
    && log.logId == "playground-log-" + span.spanId && log.hostId == "playground-host"
    && if span.status == "ERROR" then
         log.severityNumber == 17 && log.severityText == "ERROR" && log.body == span.service + " request failed"
       else
         && ((log.severityNumber == 13 && log.severityText == "WARN")
             || (log.severityNumber == 9 && log.severityText == "INFO"))
         && log.body == span.service + " request completed"
  }

  lemma LogMatches(span: Span, s: bv32)
    ensures var log := LogOf(span, s).value;
      && log.traceId == span.traceId && log.spanId == span.spanId
      && log.timestamp == log.observed == span.start
      && log.service == span.service && log.environment == span.environment
      && LogsSpan(log, span)
  {
    hide Below, XorShift;
    if span.status == "ERROR" {
      assert LogOf(span, s).value == MakeLog(span, 17, "ERROR");
    } else {
      assert LogOf(span, s).value == MakeLog(span, 13, "WARN") || LogOf(span, s).value == MakeLog(span, 9, "INFO");
    }
    hide LogOf;
  }

  lemma {:induction false} LogsMatch(spans: seq<Span>, s: bv32)
    ensures var logs := LogsOf(spans, s).value;
      && |logs| == |spans|
      && forall k | 0 <= k < |logs| ::
           && logs[k].traceId == spans[k].traceId && logs[k].spanId == spans[k].spanId
           && logs[k].timestamp == logs[k].observed == spans[k].start
           && logs[k].service == spans[k].service && logs[k].environment == spans[k].environment
           && LogsSpan(logs[k], spans[k])
  {
    if spans != [] {
      var n := |spans| - 1;
      LogsMatch(spans[..n], s);
      LogMatches(spans[n], LogsOf(spans[..n], s).state);
      hide LogOf, LogsSpan;
    }
  }

  /** For every seed there is one log per span, with its ids, its time and an error severity exactly for an error
      span. */
  lemma OneLogPerSpan(seed: bv32, now: int, k: nat)
    ensures |Logs(seed, now)| == |Spans(seed, now)|
    ensures k < |Logs(seed, now)| ==> var log, span := Logs(seed, now)[k], Spans(seed, now)[k];
              && log.traceId == span.traceId && log.spanId == span.spanId
              && log.timestamp == log.observed == span.start
              && log.service == span.service && log.environment == span.environment
              && LogsSpan(log, span)
  {
    LogsMatch(Spans(seed, now), FirstState(seed + 0x9E3779B9));
  }
}

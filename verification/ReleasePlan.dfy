/** Immutable release planning: `plan_component_release.py`. */
module ReleasePlan {
  import opened Basics
  import opened Decimal
  import opened Ordering

  datatype Result<+T> = Ok(value: T) | Rejected

  const ALL_COMPONENTS: set<string> :=
    {"auth", "control", "ingest", "process", "store-clickhouse", "query", "alerting", "web"}

  /** Release identity; `platforms` is a list in the request and sorted once accepted. */
  datatype Identity = Identity(
    component: string, version: string, sourceRevision: string, inputAlgorithm: string, inputDigest: string,
    platforms: seq<string>)

  datatype Record = Record(
    identity: Identity, digest: string, identityVerified: bool, sbomSubject: Option<string>,
    provenanceSubject: Option<string>)

  /* ----- the regular expressions ----- */

  predicate IsLower(c: char) { 'a' <= c <= 'z' }
  predicate IsAlpha(c: char) { 'a' <= c <= 'z' || 'A' <= c <= 'Z' }

  predicate IsDashed(c: char) { IsDigit(c) || IsAlpha(c) || c == '-' }
  predicate IsAlgorithmChar(c: char) { IsLower(c) || IsDigit(c) || c == '-' }
  predicate IsPlatformChar(c: char) { IsLower(c) || IsDigit(c) || c == '_' }

  predicate Every(s: string, p: char -> bool) { forall i | 0 <= i < |s| :: p(s[i]) }

  predicate IsNumber(s: string) {
    s == "0" || (s != "" && s[0] != '0' && Every(s, IsDigit))
  }

  predicate IsPrereleasePart(s: string) {
    IsNumber(s)
    || (Every(s, IsDashed) && exists i :: 0 <= i < |s| && (IsAlpha(s[i]) || s[i] == '-'))
  }

  /** The text before and after the first dash. */
  function Core(s: string): (core: string)
    ensures |core| <= |s|
  {
    if s == "" || s[0] == '-' then "" else [s[0]] + Core(s[1..])
  }

  predicate IsVersion(s: string) {
    var core := Core(s);
    && |Split(core, '.')| == 3 && (forall n :: n in Split(core, '.') ==> IsNumber(n))
    && (|core| == |s| || forall p :: p in Split(s[|core| + 1..], '.') ==> IsPrereleasePart(p))
  }

  predicate IsDigest(s: string) { |s| == 71 && s[..7] == "sha256:" && IsHex(s[7..]) }

  predicate IsAlgorithm(s: string) {
    exists i :: 1 <= i < |s| - 2 && s[i] == '-' && s[i + 1] == 'v'
      && IsLower(s[0]) && Every(s[..i], IsAlgorithmChar)
      && s[i + 2] != '0' && Every(s[i + 2..], IsDigit)
  }

  predicate IsPlatform(s: string) {
    var parts := Split(s, '/');
    && 2 <= |parts| <= 3 && parts[0] == "linux"
    && parts[1] != "" && Every(parts[1], IsPlatformChar)
    && (|parts| == 3 ==> |parts[2]| >= 2 && parts[2][0] == 'v' && Every(parts[2][1..], IsDigit))
  }

  /* ----- identity and record ----- */

  function Members(q: seq<string>): set<string> { set i | 0 <= i < |q| :: q[i] }

  predicate ValidIdentity(v: Identity) {
    && v.component in ALL_COMPONENTS
    && IsVersion(v.version) && |v.version| <= 128
    && IsRevision(v.sourceRevision) && IsAlgorithm(v.inputAlgorithm) && IsDigest(v.inputDigest)
    && v.platforms != [] && (forall p :: p in Members(v.platforms) ==> IsPlatform(p))
    && |Members(v.platforms)| == |v.platforms|
  }

  /** `identity`: validate, and put the platforms in order. */
  function Accept(v: Identity): Result<Identity> {
    if ValidIdentity(v) then Ok(v.(platforms := Sorted(Members(v.platforms)))) else Rejected
  }

  predicate SubjectOk(subject: Option<string>, digest: string) { subject.None? || subject.value == digest }

  /** `record` */
  function AcceptRecord(r: Record): Result<Record> {
    match Accept(r.identity)
    case Rejected => Rejected
    case Ok(id) =>
      if r.identityVerified && IsDigest(r.digest) && SubjectOk(r.sbomSubject, r.digest)
         && SubjectOk(r.provenanceSubject, r.digest)
      then Ok(r.(identity := id)) else Rejected
  }

  lemma SortedMembers(s: set<string>)
    ensures Members(Sorted(s)) == s && Sorted(Members(Sorted(s))) == Sorted(s)
  {
    var q := Sorted(s);
    forall x ensures x in Members(q) <==> x in s { assert x in Members(q) <==> x in q; }
  }

  /** An accepted identity or record is accepted again, unchanged. */
  lemma AcceptIdempotent(v: Identity)
    requires Accept(v).Ok?
    ensures Accept(Accept(v).value) == Accept(v)
  {
    var s := Members(v.platforms);
    SortedMembers(s);
    assert |Sorted(s)| == |s|;
    assert Sorted(s) != [];
  }

  lemma AcceptRecordIdempotent(r: Record)
    requires AcceptRecord(r).Ok?
    ensures AcceptRecord(AcceptRecord(r).value) == AcceptRecord(r)
  {
    AcceptIdempotent(r.identity);
  }

  /** Listing the platforms in another order gives the same identity. */
  lemma AcceptIgnoresOrder(v: Identity, platforms: seq<string>)
    requires multiset(platforms) == multiset(v.platforms)
    ensures Accept(v.(platforms := platforms)) == Accept(v)
  {
    var w := v.(platforms := platforms);
    assert |platforms| == |multiset(platforms)| == |v.platforms|;
    forall p ensures p in Members(platforms) <==> p in Members(v.platforms) {
      assert p in Members(platforms) <==> p in platforms;
      assert p in Members(v.platforms) <==> p in v.platforms;
      assert p in platforms <==> p in multiset(platforms);
      assert p in v.platforms <==> p in multiset(v.platforms);
    }
    assert Members(platforms) == Members(v.platforms);
    assert platforms == [] <==> v.platforms == [];
  }

  /* ----- planning ----- */

  /** All identity fields but the source revision. */
  predicate SameInputs(desired: Identity, published: Identity) {
    desired.(sourceRevision := "") == published.(sourceRevision := "")
  }

  /** What a call of `inspect` yields: an exception, a miss for a component and version, a record, or anything else. */
  datatype Inspection = Raised | Missing(component: string, version: string) | Found(record: Record) | Unavailable

  /** `observation`; `Ok(None)` is a definitive miss. */
  function Observe(seen: Inspection, desired: Identity): Result<Option<Record>> {
    match seen
    case Raised => Rejected
    case Unavailable => Rejected
    case Missing(component, version) =>
      if component == desired.component && version == desired.version then Ok(None) else Rejected
    case Found(r) =>
      match AcceptRecord(r)
      case Rejected => Rejected
      case Ok(accepted) => Ok(Some(accepted))
  }

  datatype Action = Publish | Reuse | CompleteEvidence

  datatype Plan = Plan(
    identity: Identity, action: Action, image: string, digest: Option<string>, missingEvidence: seq<string>,
    authorized: bool)

  function Image(desired: Identity): string {
    "ghcr.io/ktjn/observable-" + desired.component + ":" + desired.version
  }

  function MissingEvidence(r: Record): seq<string> {
    (if r.sbomSubject.None? then ["sbom"] else []) + (if r.provenanceSubject.None? then ["provenance"] else [])
  }

  function PlanPublished(desired: Identity, history: Option<Record>, published: Record): Result<Plan> {
    if !SameInputs(desired, published.identity) then Rejected
    else if history.Some? && (history.value.digest != published.digest || history.value.identity != published.identity)
         then Rejected
    else
      var missing := MissingEvidence(published);
      var action := if missing == [] then Reuse else CompleteEvidence;
      Ok(Plan(published.identity, action, Image(desired), Some(published.digest), missing, false))
  }

  /** `plan_release`; `first` and `second` are the answers of the two inspections, the second asked only after a
      miss. */
  function PlanRelease(
    request: Identity, first: Inspection, second: Inspection, history: Option<Record>): Result<Plan> {
    match Accept(request)
    case Rejected => Rejected
    case Ok(desired) =>
      if history.Some? && AcceptRecord(history.value).Rejected? then Rejected
      else
        var historical := if history.Some? then Some(AcceptRecord(history.value).value) else None;
        if historical.Some? && !SameInputs(desired, historical.value.identity) then Rejected
        else
          match Observe(first, desired)
          case Rejected => Rejected
          case Ok(Some(published)) => PlanPublished(desired, historical, published)
          case Ok(None) =>
            if historical.Some? then Rejected
            else
              match Observe(second, desired)
              case Rejected => Rejected
              case Ok(Some(published)) => PlanPublished(desired, None, published)
              case Ok(None) => Ok(Plan(desired, Publish, Image(desired), None, ["sbom", "provenance"], false))
  }

  /** A plan to publish needs two definitive misses of exactly this component and version, and no history. */
  lemma PublishNeedsTwoMisses(request: Identity, first: Inspection, second: Inspection, history: Option<Record>)
    requires PlanRelease(request, first, second, history).Ok?
             && PlanRelease(request, first, second, history).value.action == Publish
    ensures history == None && first == second == Missing(request.component, request.version)
    ensures PlanRelease(request, first, second, history).value.identity == Accept(request).value
  {
    hide Accept, AcceptRecord, SameInputs, PlanPublished, Observe, Image;
    AcceptKeepsVersion(request);
    forall h, p ensures PlanPublished(Accept(request).value, h, p).Ok?
                        ==> PlanPublished(Accept(request).value, h, p).value.action != Publish
    {
      PublishedIsKept(Accept(request).value, h, p);
    }
    MissedExactly(first, Accept(request).value);
    MissedExactly(second, Accept(request).value);
  }

  lemma MissedExactly(seen: Inspection, desired: Identity)
    ensures Observe(seen, desired) == Ok(None) <==> seen == Missing(desired.component, desired.version)
  {
    hide AcceptRecord;
  }

  lemma PublishedIsKept(desired: Identity, history: Option<Record>, published: Record)
    ensures PlanPublished(desired, history, published).Ok?
            ==> PlanPublished(desired, history, published).value.action != Publish
  {
    hide SameInputs, MissingEvidence;
  }

  lemma AcceptKeepsVersion(v: Identity)
    requires Accept(v).Ok?
    ensures Accept(v).value.component == v.component && Accept(v).value.version == v.version
  {
    hide ValidIdentity;
  }

  /* ----- the decision, field by field ----- */

  /** The two identities agree on everything but the source revision, whatever the order of the platforms. */
  ghost predicate Agrees(a: Identity, b: Identity) {
    && a.component == b.component && a.version == b.version
    && a.inputAlgorithm == b.inputAlgorithm && a.inputDigest == b.inputDigest
    && Members(a.platforms) == Members(b.platforms)
  }

  lemma AcceptMeans(v: Identity)
    requires Accept(v).Ok?
    ensures var id := Accept(v).value;
      && id.component == v.component && id.version == v.version && id.sourceRevision == v.sourceRevision
      && id.inputAlgorithm == v.inputAlgorithm && id.inputDigest == v.inputDigest
      && Members(id.platforms) == Members(v.platforms) && Increasing(id.platforms)
      && id.platforms == Sorted(Members(v.platforms))
  {
    hide ValidIdentity;
    SortedMembers(Members(v.platforms));
  }

  lemma SameInputsMeans(a: Identity, b: Identity)
    requires Accept(a).Ok? && Accept(b).Ok?
    ensures SameInputs(Accept(a).value, Accept(b).value) <==> Agrees(a, b)
  {
    AcceptMeans(a);
    AcceptMeans(b);
    hide Accept, Sorted;
    var x, y := Accept(a).value, Accept(b).value;
    if Agrees(a, b) {
      assert x.platforms == y.platforms;
    }
  }

  /** The record was accepted, and it is of the requested version and inputs. */
  ghost predicate Fits(r: Record, request: Identity) { AcceptRecord(r).Ok? && Agrees(request, r.identity) }

  /** The record that decides: the one first observed, or without a history the one observed after a definitive
      miss. */
  ghost predicate Decides(
    r: Record, request: Identity, first: Inspection, second: Inspection, history: Option<Record>) {
    first == Found(r)
    || (history == None && first == Missing(request.component, request.version) && second == Found(r))
  }

  /** The two records are of one image and one release identity. */
  ghost predicate SameRelease(a: Record, b: Record) {
    a.digest == b.digest && a.identity.sourceRevision == b.identity.sourceRevision && Agrees(a.identity, b.identity)
  }

  /** What is planned for an image that exists: its own identity, the requested tag, its digest and what evidence it
      lacks. */
  ghost predicate PlansFor(plan: Plan, request: Identity, r: Record) {
    && Agrees(plan.identity, r.identity) && plan.identity.sourceRevision == r.identity.sourceRevision
    && Increasing(plan.identity.platforms)
    && plan.image == "ghcr.io/ktjn/observable-" + request.component + ":" + request.version
    && plan.digest == Some(r.digest) && !plan.authorized
    && plan.action == (if r.sbomSubject.Some? && r.provenanceSubject.Some? then Reuse else CompleteEvidence)
    && plan.missingEvidence ==
       (if r.sbomSubject.None? then ["sbom"] else []) + (if r.provenanceSubject.None? then ["provenance"] else [])
  }

  lemma AcceptedRecordMeans(r: Record)
    requires AcceptRecord(r).Ok?
    ensures Accept(r.identity).Ok? && AcceptRecord(r).value == r.(identity := Accept(r.identity).value)
  {
    hide Accept;
  }

  lemma SameReleaseMeans(a: Record, b: Record)
    requires AcceptRecord(a).Ok? && AcceptRecord(b).Ok?
    ensures var x, y := AcceptRecord(a).value, AcceptRecord(b).value;
      x.digest == y.digest && x.identity == y.identity <==> SameRelease(a, b)
  {
    AcceptedRecordMeans(a);
    AcceptedRecordMeans(b);
    AcceptMeans(a.identity);
    AcceptMeans(b.identity);
    hide AcceptRecord, Accept, Sorted;
    var x, y := Accept(a.identity).value, Accept(b.identity).value;
    if SameRelease(a, b) {
      assert x.platforms == y.platforms;
    }
  }

  /** An accepted record, if there is one. */
  function AcceptedHistory(history: Option<Record>): Option<Record>
    requires history.Some? ==> AcceptRecord(history.value).Ok?
  {
    if history.Some? then Some(AcceptRecord(history.value).value) else None
  }

  lemma PlanPublishedMeans(request: Identity, history: Option<Record>, r: Record)
    requires Accept(request).Ok? && AcceptRecord(r).Ok? && (history.Some? ==> AcceptRecord(history.value).Ok?)
    ensures var plan := PlanPublished(Accept(request).value, AcceptedHistory(history), AcceptRecord(r).value);
      && (plan.Ok? <==> Agrees(request, r.identity) && (history.Some? ==> SameRelease(history.value, r)))
      && (plan.Ok? ==> PlansFor(plan.value, request, r))
  {
    var h, published := AcceptedHistory(history), AcceptRecord(r).value;
    var plan := PlanPublished(Accept(request).value, h, published);
    AcceptedRecordMeans(r);
    SameInputsMeans(request, r.identity);
    if history.Some? { SameReleaseMeans(history.value, r); }
    hide AcceptRecord, Accept, SameInputs, SameRelease, Agrees, PlansFor;
    if plan.Ok? { PublishedPlanFor(request, h, r); }
  }

  lemma PublishedPlanFor(request: Identity, h: Option<Record>, r: Record)
    requires Accept(request).Ok? && AcceptRecord(r).Ok?
    requires PlanPublished(Accept(request).value, h, AcceptRecord(r).value).Ok?
    ensures PlansFor(PlanPublished(Accept(request).value, h, AcceptRecord(r).value).value, request, r)
  {
    AcceptedRecordMeans(r);
    AcceptMeans(r.identity);
    AcceptMeans(request);
    hide AcceptRecord, Accept, SameInputs, Sorted;
  }

  lemma PlansPublished(
    request: Identity, first: Inspection, second: Inspection, history: Option<Record>, r: Record)
    requires Decides(r, request, first, second, history) && Accept(request).Ok? && AcceptRecord(r).Ok?
    requires history.Some? ==> AcceptRecord(history.value).Ok?
    requires history.Some? ==> SameInputs(Accept(request).value, AcceptRecord(history.value).value.identity)
    ensures PlanRelease(request, first, second, history)
            == PlanPublished(Accept(request).value, AcceptedHistory(history), AcceptRecord(r).value)
  {
    AcceptKeepsVersion(request);
    hide AcceptRecord, Accept, SameInputs, PlanPublished;
  }

  lemma PlansNothing(request: Identity, first: Inspection, second: Inspection, history: Option<Record>, r: Record)
    requires Decides(r, request, first, second, history) && PlanRelease(request, first, second, history).Ok?
    ensures Accept(request).Ok? && AcceptRecord(r).Ok?
    ensures history.Some? ==> AcceptRecord(history.value).Ok?
    ensures history.Some? ==> SameInputs(Accept(request).value, AcceptRecord(history.value).value.identity)
  {
    if Accept(request).Ok? { AcceptKeepsVersion(request); }
    hide AcceptRecord, Accept, SameInputs, PlanPublished;
  }

  /** An image that exists is planned for exactly when the request is well-formed, the record that decides is accepted
      and agrees with it, and so does any history, which has to be of the same release; what is planned is then the
      reuse of just that image, or the completion of its evidence. */
  lemma PlansExisting(request: Identity, first: Inspection, second: Inspection, history: Option<Record>, r: Record)
    requires Decides(r, request, first, second, history)
    ensures PlanRelease(request, first, second, history).Ok? <==>
              && Accept(request).Ok? && Fits(r, request)
              && (history.Some? ==> Fits(history.value, request) && SameRelease(history.value, r))
    ensures PlanRelease(request, first, second, history).Ok?
            ==> PlansFor(PlanRelease(request, first, second, history).value, request, r)
  {
    hide PlanRelease, AcceptRecord, Accept, SameInputs, SameRelease, PlanPublished, PlansFor, Agrees, Decides;
    if PlanRelease(request, first, second, history).Ok? { PlansNothing(request, first, second, history, r); }
    if Accept(request).Ok? && AcceptRecord(r).Ok? && (history.Some? ==> AcceptRecord(history.value).Ok?) {
      if history.Some? {
        AcceptedRecordMeans(history.value);
        SameInputsMeans(request, history.value.identity);
      }
      PlanPublishedMeans(request, history, r);
      if history.Some? ==> Agrees(request, history.value.identity) {
        PlansPublished(request, first, second, history, r);
      }
    }
  }

  lemma FoundDecides(request: Identity, first: Inspection, second: Inspection, history: Option<Record>)
    ensures first.Found? || (second.Found? && history == None && first == Missing(request.component, request.version))
            ==> exists r :: Decides(r, request, first, second, history)
  {
    if first.Found? {
      assert Decides(first.record, request, first, second, history);
    } else if second.Found? && history == None && first == Missing(request.component, request.version) {
      assert Decides(second.record, request, first, second, history);
    }
  }

  /** Without such a record there is a plan exactly when the request is well-formed, has no history and is definitely
      missing twice; it is to publish the request as it stands. */
  lemma PlansNew(request: Identity, first: Inspection, second: Inspection, history: Option<Record>)
    requires !exists r :: Decides(r, request, first, second, history)
    ensures PlanRelease(request, first, second, history).Ok? <==>
              && Accept(request).Ok? && history == None
              && first == second == Missing(request.component, request.version)
    ensures PlanRelease(request, first, second, history).Ok? ==>
              var plan := PlanRelease(request, first, second, history).value;
              && plan.action == Publish && plan.identity == Accept(request).value && plan.digest == None
              && plan.image == "ghcr.io/ktjn/observable-" + request.component + ":" + request.version
              && plan.missingEvidence == ["sbom", "provenance"] && !plan.authorized
  {
    hide AcceptRecord, Accept, SameInputs, PlanPublished;
    FoundDecides(request, first, second, history);
    if Accept(request).Ok? {
      AcceptKeepsVersion(request);
      MissedExactly(first, Accept(request).value);
      MissedExactly(second, Accept(request).value);
    }
  }

  /** A plan to reuse or complete names an image that was observed, built from the requested inputs; it is a reuse
      exactly when the image carries both kinds of evidence. */
  lemma ReuseNamesObserved(request: Identity, first: Inspection, second: Inspection, history: Option<Record>)
    requires PlanRelease(request, first, second, history).Ok?
             && PlanRelease(request, first, second, history).value.action != Publish
    ensures var plan := PlanRelease(request, first, second, history).value;
      exists r :: (first == Found(r) || second == Found(r)) && AcceptRecord(r).Ok?
        && plan.digest == Some(r.digest) && plan.identity == AcceptRecord(r).value.identity
        && Agrees(request, plan.identity)
        && (plan.action == Reuse <==> r.sbomSubject == Some(r.digest) && r.provenanceSubject == Some(r.digest))
        && (plan.action == Reuse <==> plan.missingEvidence == [])
  {
    hide Accept, AcceptRecord, MissingEvidence, PlanRelease;
    DecidesWhenPlanned(request, first, second, history);
    var r := if first.Found? then first.record else second.record;
    PlansExisting(request, first, second, history, r);
    AcceptedRecordMeans(r);
    AcceptMeans(r.identity);
    PlanIdentity(request, first, second, history, r);
    EvidenceOfAccepted(r);
  }

  lemma DecidesWhenPlanned(request: Identity, first: Inspection, second: Inspection, history: Option<Record>)
    requires PlanRelease(request, first, second, history).Ok?
             && PlanRelease(request, first, second, history).value.action != Publish
    ensures first.Found? || second.Found?
    ensures Decides(if first.Found? then first.record else second.record, request, first, second, history)
  {
    if !exists r :: Decides(r, request, first, second, history) { PlansNew(request, first, second, history); }
    hide PlanRelease;
  }

  lemma PlanIdentity(request: Identity, first: Inspection, second: Inspection, history: Option<Record>, r: Record)
    requires Decides(r, request, first, second, history) && PlanRelease(request, first, second, history).Ok?
    ensures AcceptRecord(r).Ok?
            && PlanRelease(request, first, second, history).value.identity == AcceptRecord(r).value.identity
  {
    if Accept(request).Ok? { AcceptKeepsVersion(request); }
    hide AcceptRecord, Accept, SameInputs, MissingEvidence;
  }

  /** An accepted record says of each kind of evidence that it belongs to the digest, or that it is missing. */
  lemma EvidenceOfAccepted(r: Record)
    requires AcceptRecord(r).Ok?
    ensures r.sbomSubject.Some? ==> r.sbomSubject == Some(r.digest)
    ensures r.provenanceSubject.Some? ==> r.provenanceSubject == Some(r.digest)
  {
  }
}

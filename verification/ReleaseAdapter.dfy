/** Release history, the registry adapter and the publication boundary: `component_release_adapter.py`. */
module ReleaseAdapter {
  import opened Basics
  import opened ReleasePlan

  datatype Key = Key(component: string, version: string)

  type History = map<Key, Record>

  function KeyOf(id: Identity): Key { Key(id.component, id.version) }

  /* ----- history ----- */

  /** Accepted records under their own component and version. */
  ghost predicate ValidHistory(h: History) {
    forall k | k in h :: AcceptRecord(h[k]) == Ok(h[k]) && KeyOf(h[k].identity) == k
  }

  function AddAll(records: seq<Record>): Option<History> {
    if records == [] then Some(map[])
    else
      match AddAll(records[..|records| - 1])
      case None => None
      case Some(h) =>
        match AcceptRecord(records[|records| - 1])
        case Rejected => None
        case Ok(r) => if KeyOf(r.identity) in h then None else Some(h[KeyOf(r.identity) := r])
  }

  lemma {:induction false} AddAllPrefix(records: seq<Record>, n: nat)
    requires n <= |records| && AddAll(records).Some?
    ensures AddAll(records[..n]).Some?
  {
    if n == |records| {
      assert records[..n] == records;
    } else {
      AddAllPrefix(records[..|records| - 1], n);
      assert records[..|records| - 1][..n] == records[..n];
    }
  }

  /** `load_history` on the parsed list of records. */
  method LoadHistory(records: seq<Record>) returns (r: Result<History>)
    ensures r == match AddAll(records) { case None => Rejected case Some(h) => Ok(h) }
  {
    var history: History := map[];
    for i := 0 to |records|
      invariant AddAll(records[..i]) == Some(history)
    {
      assert records[..i + 1][..i] == records[..i];
      if AddAll(records).Some? { AddAllPrefix(records, i + 1); }
      match AcceptRecord(records[i]) {
        case Rejected => return Rejected;
        case Ok(rec) =>
          var key := KeyOf(rec.identity);
          if key in history { return Rejected; }
          history := history[key := rec];
      }
    }
    assert records[..|records|] == records;
    r := Ok(history);
  }

  ghost predicate Loadable(records: seq<Record>) {
    && (forall i | 0 <= i < |records| :: AcceptRecord(records[i]).Ok?)
    && (forall i, j | 0 <= i < j < |records| :: KeyOf(records[i].identity) != KeyOf(records[j].identity))
  }

  /** The history holds every record under its key, and nothing else. */
  ghost predicate HoldsRecords(h: History, records: seq<Record>) {
    && |h| == |records|
    && (forall i | 0 <= i < |records| ::
          KeyOf(records[i].identity) in h && AcceptRecord(records[i]) == Ok(h[KeyOf(records[i].identity)]))
    && (forall k | k in h :: exists i :: 0 <= i < |records| && KeyOf(records[i].identity) == k)
  }

  lemma HoldsOneMore(h: History, front: seq<Record>, r: Record)
    requires HoldsRecords(h, front) && AcceptRecord(r).Ok? && KeyOf(r.identity) !in h
    ensures HoldsRecords(h[KeyOf(r.identity) := AcceptRecord(r).value], front + [r])
  {
    hide AcceptRecord, KeyOf;
    var records, after := front + [r], h[KeyOf(r.identity) := AcceptRecord(r).value];
    assert forall i | 0 <= i < |front| :: records[i] == front[i];
    forall k | k in after ensures exists i :: 0 <= i < |records| && KeyOf(records[i].identity) == k {
      if k in h {
        var i :| 0 <= i < |front| && KeyOf(front[i].identity) == k;
        assert KeyOf(records[i].identity) == k;
      } else {
        assert KeyOf(records[|front|].identity) == k;
      }
    }
  }

  lemma LoadableOneMore(h: History, front: seq<Record>, r: Record)
    requires HoldsRecords(h, front) && Loadable(front)
    ensures Loadable(front + [r]) <==> AcceptRecord(r).Ok? && KeyOf(r.identity) !in h
  {
    hide AcceptRecord;
    var records := front + [r];
    assert records[|front|] == r && forall i | 0 <= i < |front| :: records[i] == front[i];
    if KeyOf(r.identity) in h {
      var i :| 0 <= i < |front| && KeyOf(front[i].identity) == KeyOf(r.identity);
      assert KeyOf(records[i].identity) == KeyOf(records[|front|].identity);
    }
  }

  lemma AcceptKeepsKey(r: Record)
    requires AcceptRecord(r).Ok?
    ensures KeyOf(AcceptRecord(r).value.identity) == KeyOf(r.identity)
  {
  }

  /** A history loads exactly when every record is accepted and no two are for one component and version; it then holds
      each of them, under its key, and nothing else. */
  lemma {:induction false} LoadedHistory(records: seq<Record>)
    ensures AddAll(records).Some? <==> Loadable(records)
    ensures AddAll(records).Some?
            ==> ValidHistory(AddAll(records).value) && HoldsRecords(AddAll(records).value, records)
  {
    hide AcceptRecord;
    if records != [] {
      var front, r := records[..|records| - 1], records[|records| - 1];
      assert records == front + [r];
      LoadedHistory(front);
      if AddAll(front).Some? {
        LoadableOneMore(AddAll(front).value, front, r);
        if AcceptRecord(r).Ok? {
          AcceptKeepsKey(r);
          AcceptRecordIdempotent(r);
          if KeyOf(r.identity) !in AddAll(front).value { HoldsOneMore(AddAll(front).value, front, r); }
        }
      } else {
        assert forall i | 0 <= i < |front| :: front[i] == records[i];
      }
    }
  }

  /* ----- the adapter ----- */

  /** What the registry answers for one component and version. */
  datatype Registry = Failed | NotFound | Image(digest: string) | Other

  datatype Attestation = Attestation(sbomSubject: Option<string>, provenanceSubject: Option<string>)

  /** `attest` verifies the attestations of a digest for a component and revision, if that is configured. */
  type Attest = (string, string, string) -> Option<Attestation>

  /** `observe`: history first, then attestations; an image that neither vouches for is refused. */
  function Adapt(desired: Identity, answer: Registry, history: History, attest: Attest): Inspection {
    match answer
    case Failed => Raised
    case Other => Raised
    case NotFound => Missing(desired.component, desired.version)
    case Image(digest) =>
      if !IsDigest(digest) then Raised
      else if KeyOf(desired) in history then
        if history[KeyOf(desired)].digest != digest then Raised else Found(history[KeyOf(desired)])
      else
        match attest(desired.component, digest, desired.sourceRevision)
        case None => Raised
        case Some(a) =>
          var r := Record(desired, digest, true, a.sbomSubject, a.provenanceSubject);
          match AcceptRecord(r)
          case Rejected => Raised
          case Ok(accepted) => Found(accepted)
  }

  /** `plan_component_release_with_adapter` on its default path. */
  function PlanWithAdapter(
    request: Identity, history: History, first: Registry, second: Registry, attest: Attest): Result<Plan> {
    match Accept(request)
    case Rejected => Rejected
    case Ok(desired) =>
      var recorded := if KeyOf(desired) in history then Some(history[KeyOf(desired)]) else None;
      PlanRelease(desired, Adapt(desired, first, history, attest), Adapt(desired, second, history, attest), recorded)
  }

  datatype Authorized = Authorized(plan: Plan, lockToken: Option<string>)

  /** `enforce_publication_boundary` */
  function Enforce(plan: Plan, writeEnabled: bool, lockToken: Option<string>): Result<Authorized> {
    match plan.action
    case Publish =>
      if !writeEnabled || lockToken.None? || lockToken.value == "" then Rejected
      else Ok(Authorized(plan.(authorized := true), lockToken))
    case _ => Ok(Authorized(plan.(authorized := false), None))
  }

  lemma AcceptedKey(request: Identity)
    requires Accept(request).Ok?
    ensures KeyOf(Accept(request).value) == KeyOf(request)
  {
  }

  lemma AdaptRecorded(desired: Identity, answer: Registry, history: History, attest: Attest)
    requires KeyOf(desired) in history && AcceptRecord(history[KeyOf(desired)]).Ok?
    ensures var r := history[KeyOf(desired)];
      && (answer == Image(r.digest) ==> Adapt(desired, answer, history, attest) == Found(r))
      && (answer != Image(r.digest) ==> !Adapt(desired, answer, history, attest).Found?)
  {
  }

  /** With a record in the history a plan is made exactly when the request is well-formed and agrees with the record
      field by field, and the registry still answers the recorded image; whatever else the registry answers, the plan is
      to reuse or complete just that image under its recorded identity. */
  lemma RecordedIsFinal(request: Identity, history: History, first: Registry, second: Registry, attest: Attest)
    requires ValidHistory(history) && KeyOf(request) in history
    ensures var r := history[KeyOf(request)];
      && (PlanWithAdapter(request, history, first, second, attest).Ok? <==>
            Accept(request).Ok? && Agrees(request, r.identity) && first == Image(r.digest))
      && (PlanWithAdapter(request, history, first, second, attest).Ok? ==>
            var plan := PlanWithAdapter(request, history, first, second, attest).value;
            && plan.action != Publish && plan.digest == Some(r.digest) && plan.identity == r.identity
            && PlansFor(plan, request, r))
  {
    if Accept(request).Ok? {
      var desired, r := Accept(request).value, history[KeyOf(request)];
      AcceptIdempotent(request);
      AcceptMeans(request);
      AcceptedKey(request);
      AdaptRecorded(desired, first, history, attest);
      hide Accept, AcceptRecord, Agrees, Adapt, PlanRelease, PlansFor, KeyOf;
      PlanRecorded(request, Adapt(desired, first, history, attest), Adapt(desired, second, history, attest), r);
    }
  }

  lemma PlanRecorded(request: Identity, first: Inspection, second: Inspection, h: Record)
    requires Accept(request).Ok? && AcceptRecord(h) == Ok(h) && (first.Found? ==> first.record == h)
    ensures PlanRelease(Accept(request).value, first, second, Some(h)).Ok?
            <==> first == Found(h) && Agrees(request, h.identity)
    ensures PlanRelease(Accept(request).value, first, second, Some(h)).Ok? ==>
              var plan := PlanRelease(Accept(request).value, first, second, Some(h)).value;
              && plan.action != Publish && plan.digest == Some(h.digest) && plan.identity == h.identity
              && PlansFor(plan, request, h)
  {
    AcceptIdempotent(request);
    SameDesired(request, h);
    hide *;
    if first == Found(h) {
      PlanFound(Accept(request).value, second, h);
    } else {
      NothingDecides(Accept(request).value, first, second, h);
    }
  }

  lemma PlanFound(desired: Identity, second: Inspection, h: Record)
    requires Accept(desired) == Ok(desired) && AcceptRecord(h) == Ok(h)
    ensures PlanRelease(desired, Found(h), second, Some(h)).Ok? <==> Agrees(desired, h.identity)
    ensures PlanRelease(desired, Found(h), second, Some(h)).Ok? ==>
              var plan := PlanRelease(desired, Found(h), second, Some(h)).value;
              && plan.action != Publish && plan.digest == Some(h.digest) && plan.identity == h.identity
              && PlansFor(plan, desired, h)
  {
    assert SameRelease(h, h) && Decides(h, desired, Found(h), second, Some(h));
    PlansExisting(desired, Found(h), second, Some(h), h);
    hide Accept, AcceptRecord, Agrees, PlanRelease, Decides, SameRelease;
    if PlanRelease(desired, Found(h), second, Some(h)).Ok? { PlanIdentity(desired, Found(h), second, Some(h), h); }
  }

  /** What an accepted request agrees with, and what is planned for it, is the same as for the request. */
  lemma SameDesired(request: Identity, h: Record)
    requires Accept(request).Ok?
    ensures Agrees(Accept(request).value, h.identity) <==> Agrees(request, h.identity)
    ensures forall plan :: PlansFor(plan, Accept(request).value, h) <==> PlansFor(plan, request, h)
  {
    AcceptMeans(request);
    hide Accept;
    forall plan ensures PlansFor(plan, Accept(request).value, h) <==> PlansFor(plan, request, h) {}
  }

  lemma NothingDecides(desired: Identity, first: Inspection, second: Inspection, h: Record)
    requires !first.Found?
    ensures PlanRelease(desired, first, second, Some(h)).Rejected?
  {
    hide PlanRelease;
    assert !exists r :: Decides(r, desired, first, second, Some(h));
    PlansNew(desired, first, second, Some(h));
  }

  /** The attestations that the registry's image has to carry, if any evidence is there. */
  ghost predicate Attested(request: Identity, digest: string, attest: Attest, a: Attestation) {
    && IsDigest(digest) && attest(request.component, digest, request.sourceRevision) == Some(a)
    && (a.sbomSubject.Some? ==> a.sbomSubject.value == digest)
    && (a.provenanceSubject.Some? ==> a.provenanceSubject.value == digest)
  }

  /** The registry's image, where it is looked at: at once, or after a definitive miss. */
  ghost predicate Answers(first: Registry, second: Registry, digest: string) {
    first == Image(digest) || (first == NotFound && second == Image(digest))
  }

  lemma AdaptUnrecorded(request: Identity, answer: Registry, history: History, attest: Attest)
    requires Accept(request).Ok? && KeyOf(request) !in history
    ensures var desired := Accept(request).value;
      && (forall digest, a | answer == Image(digest) && Attested(request, digest, attest, a) ::
            Adapt(desired, answer, history, attest)
            == Found(Record(desired, digest, true, a.sbomSubject, a.provenanceSubject)))
      && (answer.Image? && (forall a :: !Attested(request, answer.digest, attest, a))
          ==> Adapt(desired, answer, history, attest) == Raised)
      && (!answer.Image? ==> !Adapt(desired, answer, history, attest).Found?)
  {
    hide Accept, IsDigest;
    var desired := Accept(request).value;
    AcceptMeans(request);
    AcceptIdempotent(request);
    if answer.Image? && attest(request.component, answer.digest, request.sourceRevision).Some? {
      var a := attest(request.component, answer.digest, request.sourceRevision).value;
      assert Attested(request, answer.digest, attest, a)
        <==> AcceptRecord(Record(desired, answer.digest, true, a.sbomSubject, a.provenanceSubject)).Ok?;
    }
  }

  lemma AttestedOnce(request: Identity, digest: string, attest: Attest, a: Attestation)
    requires Attested(request, digest, attest, a)
    ensures forall b | Attested(request, digest, attest, b) :: b == a
  {
    hide IsDigest;
  }

  lemma MadeRecord(request: Identity, digest: string, attest: Attest, a: Attestation)
    requires Accept(request).Ok? && Attested(request, digest, attest, a)
    ensures var r := Record(Accept(request).value, digest, true, a.sbomSubject, a.provenanceSubject);
      AcceptRecord(r) == Ok(r) && Fits(r, Accept(request).value)
  {
    AcceptIdempotent(request);
    hide Accept, IsDigest;
  }

  /** Without a record in the history an image that the registry has is reused or completed exactly when the request is
      well-formed and the image carries verified attestations for it; the plan is then that image under the requested
      identity. */
  lemma AttestedIsPlanned(
    request: Identity, history: History, first: Registry, second: Registry, attest: Attest, digest: string)
    requires KeyOf(request) !in history && Answers(first, second, digest)
    ensures PlanWithAdapter(request, history, first, second, attest).Ok? <==>
              Accept(request).Ok? && exists a :: Attested(request, digest, attest, a)
    ensures forall a | Attested(request, digest, attest, a) && Accept(request).Ok? ::
              var plan := PlanWithAdapter(request, history, first, second, attest).value;
              plan.digest == Some(digest) && plan.identity == Accept(request).value
              && plan.action == (if a.sbomSubject.Some? && a.provenanceSubject.Some? then Reuse else CompleteEvidence)
  {
    if Accept(request).Ok? {
      var desired := Accept(request).value;
      AcceptIdempotent(request);
      AcceptedKey(request);
      AdaptUnrecorded(request, first, history, attest);
      AdaptUnrecorded(request, second, history, attest);
      MissOnly(desired, first, history, attest);
      var seen, again := Adapt(desired, first, history, attest), Adapt(desired, second, history, attest);
      hide Accept, AcceptRecord, Attested, Adapt, PlanRelease, KeyOf, Fits, PlansFor;
      if a :| Attested(request, digest, attest, a) {
        var r := Record(desired, digest, true, a.sbomSubject, a.provenanceSubject);
        MadeRecord(request, digest, attest, a);
        assert Decides(r, desired, seen, again, None);
        PlanOfMade(desired, seen, again, r);
        AttestedOnce(request, digest, attest, a);
      } else {
        NothingSeen(desired, seen, again);
      }
    }
  }

  lemma NothingSeen(desired: Identity, first: Inspection, second: Inspection)
    requires Accept(desired) == Ok(desired)
    requires first == Raised || (first == Missing(desired.component, desired.version) && second == Raised)
    ensures PlanRelease(desired, first, second, None).Rejected?
  {
    hide Accept;
  }

  lemma PlanOfMade(desired: Identity, first: Inspection, second: Inspection, r: Record)
    requires Accept(desired) == Ok(desired) && AcceptRecord(r) == Ok(r) && r.identity == desired
    requires Decides(r, desired, first, second, None)
    ensures var plan := PlanRelease(desired, first, second, None);
      plan.Ok? && plan.value.digest == Some(r.digest) && plan.value.identity == desired
      && plan.value.action == (if r.sbomSubject.Some? && r.provenanceSubject.Some? then Reuse else CompleteEvidence)
  {
    PlansExisting(desired, first, second, None, r);
    assert Fits(r, desired);
    PlanIdentity(desired, first, second, None, r);
    hide Accept, AcceptRecord, PlanRelease, Decides;
  }

  lemma MissOnly(desired: Identity, answer: Registry, history: History, attest: Attest)
    requires KeyOf(desired) !in history
    ensures Adapt(desired, answer, history, attest).Missing? <==> answer == NotFound
    ensures answer == NotFound
            ==> Adapt(desired, answer, history, attest) == Missing(desired.component, desired.version)
  {
    hide AcceptRecord;
  }

  /** A release may write exactly when the request is well-formed, the history has no record of the version, the
      registry twice says that it has no such image, writing is enabled and a lock is held. */
  lemma AuthorizedIffUnpublished(
    request: Identity, history: History, first: Registry, second: Registry, attest: Attest, writeEnabled: bool,
    lockToken: Option<string>)
    requires ValidHistory(history)
    ensures var plan := PlanWithAdapter(request, history, first, second, attest);
      (plan.Ok? && Enforce(plan.value, writeEnabled, lockToken).Ok?
      && Enforce(plan.value, writeEnabled, lockToken).value.plan.authorized) <==>
        Accept(request).Ok? && KeyOf(request) !in history && first == NotFound && second == NotFound
        && writeEnabled && lockToken.Some? && lockToken.value != ""
  {
    if Accept(request).Ok? {
      AcceptedKey(request);
      AcceptIdempotent(request);
      var desired := Accept(request).value;
      if KeyOf(request) in history {
        if PlanWithAdapter(request, history, first, second, attest).Ok? {
          RecordedIsFinal(request, history, first, second, attest);
        }
      } else {
        MissOnly(desired, first, history, attest);
        MissOnly(desired, second, history, attest);
        PublishIffTwoMisses(desired, Adapt(desired, first, history, attest), Adapt(desired, second, history, attest));
      }
    }
  }

  lemma PublishIffTwoMisses(desired: Identity, first: Inspection, second: Inspection)
    requires Accept(desired) == Ok(desired)
    ensures var plan := PlanRelease(desired, first, second, None);
      plan.Ok? && plan.value.action == Publish <==> first == second == Missing(desired.component, desired.version)
  {
    hide AcceptRecord, Accept, SameInputs, MissingEvidence;
  }

  /** The plan does not depend on the order in which the request lists its platforms. */
  lemma PlanIgnoresPlatformOrder(
    request: Identity, platforms: seq<string>, history: History, first: Registry, second: Registry, attest: Attest)
    requires multiset(platforms) == multiset(request.platforms)
    ensures PlanWithAdapter(request.(platforms := platforms), history, first, second, attest)
            == PlanWithAdapter(request, history, first, second, attest)
  {
    AcceptIgnoresOrder(request, platforms);
  }

  /* ----- runs of serialized release steps ----- */

  /** One release: the request, what the registry answers during it, whether it may write, and the digest of the image
      if one is built. The registry answers freely: tags may have vanished or been replaced. */
  datatype Release = Release(
    request: Identity, first: Registry, second: Registry, attest: Attest, writeEnabled: bool, lockToken: Option<string>,
    built: string)

  function PlanOf(h: History, s: Release): Result<Plan> {
    PlanWithAdapter(s.request, h, s.first, s.second, s.attest)
  }

  ghost predicate Publishes(h: History, s: Release) {
    PlanOf(h, s).Ok? && Enforce(PlanOf(h, s).value, s.writeEnabled, s.lockToken).Ok?
    && Enforce(PlanOf(h, s).value, s.writeEnabled, s.lockToken).value.plan.authorized && IsDigest(s.built)
  }

  /** The history after a release. An authorized publication is recorded with the digest that was built; a completion
      records the evidence for the image that the plan names, if the history has it. */
  ghost function AfterRelease(h: History, s: Release): History {
    if Publishes(h, s) then
      var id := PlanOf(h, s).value.identity;
      h[KeyOf(id) := Record(id, s.built, true, None, None)]
    else if PlanOf(h, s).Ok? && PlanOf(h, s).value.action == CompleteEvidence && KeyOf(s.request) in h then
      var r := h[KeyOf(s.request)];
      h[KeyOf(s.request) := r.(sbomSubject := Some(r.digest), provenanceSubject := Some(r.digest))]
    else h
  }

  ghost function AfterRun(h: History, run: seq<Release>): History {
    if run == [] then h else AfterRelease(AfterRun(h, run[..|run| - 1]), run[|run| - 1])
  }

  lemma PublishedIdentity(h: History, s: Release)
    requires ValidHistory(h) && Publishes(h, s)
    ensures KeyOf(s.request) !in h
    ensures KeyOf(PlanOf(h, s).value.identity) == KeyOf(s.request)
    ensures Accept(PlanOf(h, s).value.identity) == Ok(PlanOf(h, s).value.identity)
  {
    if KeyOf(s.request) in h { RecordedIsFinal(s.request, h, s.first, s.second, s.attest); }
    AcceptIdempotent(s.request);
    AcceptedKey(s.request);
    var desired := Accept(s.request).value;
    PublishNeedsTwoMisses(desired, Adapt(desired, s.first, h, s.attest), Adapt(desired, s.second, h, s.attest), None);
  }

  lemma NewRecordValid(id: Identity, digest: string)
    requires Accept(id) == Ok(id) && IsDigest(digest)
    ensures var r := Record(id, digest, true, None, None); AcceptRecord(r) == Ok(r)
  {
  }

  lemma CompletedRecordValid(r: Record)
    requires AcceptRecord(r) == Ok(r)
    ensures var c := r.(sbomSubject := Some(r.digest), provenanceSubject := Some(r.digest)); AcceptRecord(c) == Ok(c)
  {
  }

  /** The image and identity of a recorded version are kept. */
  ghost predicate KeepsReleases(before: History, after: History) {
    forall k | k in before ::
      k in after && after[k].digest == before[k].digest && after[k].identity == before[k].identity
  }

  /** One release keeps the history valid and never changes the image or identity of a recorded version. */
  lemma ReleaseKeeps(h: History, s: Release)
    requires ValidHistory(h)
    ensures ValidHistory(AfterRelease(h, s)) && KeepsReleases(h, AfterRelease(h, s))
  {
    hide AcceptRecord, Accept, PlanOf;
    if Publishes(h, s) {
      PublishedIdentity(h, s);
      NewRecordValid(PlanOf(h, s).value.identity, s.built);
    } else if KeyOf(s.request) in h {
      CompletedRecordValid(h[KeyOf(s.request)]);
    }
  }

  lemma {:induction false} RunKeeps(h: History, run: seq<Release>)
    requires ValidHistory(h)
    ensures ValidHistory(AfterRun(h, run)) && KeepsReleases(h, AfterRun(h, run))
  {
    if run != [] {
      RunKeeps(h, run[..|run| - 1]);
      ReleaseKeeps(AfterRun(h, run[..|run| - 1]), run[|run| - 1]);
    }
  }

  lemma PublicationIsRecorded(h: History, s: Release)
    requires ValidHistory(h) && Publishes(h, s)
    ensures var first := AfterRelease(h, s);
      KeyOf(s.request) in first && first[KeyOf(s.request)].digest == s.built
      && first[KeyOf(s.request)].identity == PlanOf(h, s).value.identity
  {
    PublishedIdentity(h, s);
    hide PlanOf, KeyOf;
  }

  /** A release of a recorded version publishes nothing and names the recorded image. */
  lemma RecordedPlan(h: History, s: Release)
    requires ValidHistory(h) && KeyOf(s.request) in h
    ensures !Publishes(h, s)
    ensures PlanOf(h, s).Ok? ==>
              && PlanOf(h, s).value.action != Publish && PlanOf(h, s).value.digest == Some(h[KeyOf(s.request)].digest)
              && PlanOf(h, s).value.identity == h[KeyOf(s.request)].identity
  {
    RecordedIsFinal(s.request, h, s.first, s.second, s.attest);
    if Publishes(h, s) { PublishedIdentity(h, s); }
  }

  /** After a version has been published, however long the run of releases that follows and whatever the registry
      answers, a plan for it is a rejection, or a reuse or completion with the digest and identity first published; it
      is never published again. */
  lemma PublishedForever(h: History, s: Release, run: seq<Release>, later: Release)
    requires ValidHistory(h) && Publishes(h, s) && KeyOf(later.request) == KeyOf(s.request)
    ensures var now := AfterRun(AfterRelease(h, s), run);
      && !Publishes(now, later)
      && (PlanOf(now, later).Ok? ==>
            && (PlanOf(now, later).value.action == Reuse || PlanOf(now, later).value.action == CompleteEvidence)
            && PlanOf(now, later).value.digest == Some(s.built)
            && PlanOf(now, later).value.identity == PlanOf(h, s).value.identity)
  {
    var first := AfterRelease(h, s);
    var now := AfterRun(first, run);
    hide PlanOf, Publishes, AfterRelease, AfterRun, KeyOf, ValidHistory;
    PublicationIsRecorded(h, s);
    ReleaseKeeps(h, s);
    RunKeeps(first, run);
    RecordedPlan(now, later);
  }
}

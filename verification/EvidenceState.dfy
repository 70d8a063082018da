/** Evidence, supersession and obligation: which requirements are verified, and which have to be. */
module EvidenceState {
  import opened Basics
  import opened SpecModel
  import opened Reach

  /** `_superseded`: the records named by a passing record that states a reason. */
  function Superseded(spec: Spec): set<string> {
    set e | e in spec.evidence && e.passed && e.supersedes.Some? && e.supersedes.value != ""
            && e.supersessionReason.Some? && e.supersessionReason.value != "" :: e.supersedes.value
  }

  predicate Good(e: Evidence) { e.passed && e.skipped == [] }

  /** The records that count for one requirement version. */
  function Records(spec: Spec, id: string, version: string): set<Evidence> {
    set e | e in spec.evidence && e.id !in Superseded(spec) && e.requirementId == id && e.requirementVersion == version
  }

  /** The criteria under a requirement version; the last entry of the list wins. */
  function CriteriaOf(reqs: seq<Requirement>, id: string, version: string): seq<string> {
    if reqs == [] then []
    else
      var r := reqs[|reqs| - 1];
      if r.id == id && r.version == version then r.criteria else CriteriaOf(reqs[..|reqs| - 1], id, version)
  }

  predicate Covers(records: set<Evidence>, criterion: string) {
    exists e :: e in records && Good(e) && criterion in e.criteria
  }

  /** `_evidence_state(...)[0]`: all records good, and no criterion uncovered unless a good record covers everything. */
  predicate IsVerified(spec: Spec, id: string, version: string) {
    var records := Records(spec, id, version);
    && records != {}
    && (forall e :: e in records ==> Good(e))
    && ((exists e :: e in records && Good(e) && e.criteria == [])
        || forall c :: c in CriteriaOf(spec.requirements, id, version) ==> Covers(records, c))
  }

  predicate HasFailed(spec: Spec, id: string, version: string) {
    exists e :: e in Records(spec, id, version) && !e.passed
  }

  predicate IsActive(r: Requirement) { r.status != Deprecated }

  /** `{r.id: r for r in requirements if active}` */
  function Active(reqs: seq<Requirement>): (m: map<string, Requirement>)
    ensures forall id | id in m :: m[id] in reqs && m[id].id == id && IsActive(m[id])
    ensures forall r | r in reqs && IsActive(r) :: r.id in m
  {
    if reqs == [] then map[]
    else
      var r := reqs[|reqs| - 1];
      var before := Active(reqs[..|reqs| - 1]);
      if IsActive(r) then before[r.id := r] else before
  }

  function VerifiedIds(spec: Spec): set<string> {
    set id | id in Active(spec.requirements) && IsVerified(spec, id, Active(spec.requirements)[id].version)
  }

  /* ----- obligation ----- */

  /** `kids`: the active requirements that refine `p`. */
  function Kids(active: map<string, Requirement>, p: string): set<string> {
    set id | id in active && p in active[id].elaborates
  }

  function KidsOf(active: map<string, Requirement>): string -> set<string> {
    p => Kids(active, p)
  }

  function Sources(spec: Spec, active: map<string, Requirement>): set<string> {
    (set id | id in active && active[id].mandatory)
    + (set d | d in spec.dataModels && d.declassifiedBy.Some? :: d.declassifiedBy.value)
    + (set id | id in active && active[id].resolvedBy.Some? :: active[id].resolvedBy.value)
  }

  ghost function Obliged(spec: Spec): set<string> {
    var active := Active(spec.requirements);
    set id | id in Sources(spec, active) + active.Keys && Reachable(KidsOf(active), Sources(spec, active), id)
  }

  lemma ObligedIsReach(spec: Spec)
    ensures IsReach(KidsOf(Active(spec.requirements)), Sources(spec, Active(spec.requirements)), Obliged(spec))
  {
    var active := Active(spec.requirements);
    ReachableInClosed(KidsOf(active), Sources(spec, active), Sources(spec, active) + active.Keys);
  }

  /** Obligation is the least set that holds its sources and passes from a requirement to those that refine it. */
  lemma ObligedIsLeast(spec: Spec, s: set<string>)
    ensures Sources(spec, Active(spec.requirements)) <= Obliged(spec)
    ensures Closed(KidsOf(Active(spec.requirements)), Obliged(spec))
    ensures Sources(spec, Active(spec.requirements)) <= s && Closed(KidsOf(Active(spec.requirements)), s)
            ==> Obliged(spec) <= s
  {
    ObligedIsReach(spec);
    ReachIsLeast(KidsOf(Active(spec.requirements)), Sources(spec, Active(spec.requirements)), Obliged(spec), s);
  }

  function NewKids(active: map<string, Requirement>, oblig: set<string>): set<string> {
    set id | id in active && id !in oblig && exists p :: p in oblig && p in active[id].elaborates
  }

  lemma NewKidsAreSteps(active: map<string, Requirement>, oblig: set<string>)
    ensures forall id | id in NewKids(active, oblig) :: exists p :: p in oblig && id in KidsOf(active)(p)
    ensures NewKids(active, oblig) == {} ==> Closed(KidsOf(active), oblig)
  {
    forall id | id in NewKids(active, oblig) ensures exists p :: p in oblig && id in KidsOf(active)(p) {
      var p :| p in oblig && p in active[id].elaborates;
      assert id in KidsOf(active)(p);
    }
    if NewKids(active, oblig) == {} {
      forall p, id | p in oblig && id in KidsOf(active)(p) ensures id in oblig {
        assert id !in NewKids(active, oblig);
      }
    }
  }

  /** `while new := ...: oblig |= new` */
  method GrowObligation(active: map<string, Requirement>, sources: set<string>) returns (oblig: set<string>)
    ensures IsReach(KidsOf(active), sources, oblig)
  {
    hide Growing;
    oblig := sources;
    GrowStart(KidsOf(active), sources);
    var found := NewKids(active, oblig);
    while found != {}
      invariant Growing(KidsOf(active), sources, oblig) && found == NewKids(active, oblig)
      decreases active.Keys - oblig
    {
      NewKidsAreSteps(active, oblig);
      GrowRound(KidsOf(active), sources, oblig, found);
      ghost var id :| id in found;
      assert id in active.Keys - oblig;
      oblig := oblig + found;
      found := NewKids(active, oblig);
    }
    NewKidsAreSteps(active, oblig);
    GrowEnd(KidsOf(active), sources, oblig);
  }

  method Obligation(spec: Spec) returns (oblig: set<string>)
    ensures oblig == Obliged(spec)
  {
    var active := Active(spec.requirements);
    oblig := GrowObligation(active, Sources(spec, active));
    ObligedIsReach(spec);
    ReachUnique(KidsOf(active), Sources(spec, active), oblig, Obliged(spec));
  }

  /* ----- what verification means when ids are unique ----- */

  ghost predicate UniqueIds(reqs: seq<Requirement>) {
    forall i, j | 0 <= i < j < |reqs| :: reqs[i].id != reqs[j].id
  }

  /** The record is of the current version, and no passing record with a reason supersedes it. */
  ghost predicate Counts(spec: Spec, r: Requirement, e: Evidence) {
    && e in spec.evidence && e.requirementId == r.id && e.requirementVersion == r.version
    && !exists s :: s in spec.evidence && s.passed && s.supersedes == Some(e.id) && e.id != ""
                    && s.supersessionReason.Some? && s.supersessionReason.value != ""
  }

  /** Some record counts, every record that counts passes with nothing skipped, and every criterion is covered by a
      record that counts, one without criteria covering all. */
  ghost predicate FullyVerified(spec: Spec, r: Requirement) {
    && (exists e :: Counts(spec, r, e))
    && (forall e | Counts(spec, r, e) :: e.passed && e.skipped == [])
    && (forall c | c in r.criteria :: exists e :: Counts(spec, r, e) && (e.criteria == [] || c in e.criteria))
  }

  lemma SupersededMeans(spec: Spec, id: string)
    ensures id in Superseded(spec) <==>
              exists s :: s in spec.evidence && s.passed && s.supersedes == Some(id) && id != ""
                && s.supersessionReason.Some? && s.supersessionReason.value != ""
  {
    if id in Superseded(spec) {
      var s :| s in spec.evidence && s.passed && s.supersedes.Some? && s.supersedes.value != ""
        && s.supersessionReason.Some? && s.supersessionReason.value != "" && s.supersedes.value == id;
      assert s.supersedes == Some(id);
    }
  }

  lemma RecordsCount(spec: Spec, r: Requirement, e: Evidence)
    ensures e in Records(spec, r.id, r.version) <==> Counts(spec, r, e)
  {
    SupersededMeans(spec, e.id);
    hide Superseded;
  }

  lemma AllRecordsCount(spec: Spec, r: Requirement)
    ensures forall e :: e in Records(spec, r.id, r.version) <==> Counts(spec, r, e)
  {
    forall e ensures e in Records(spec, r.id, r.version) <==> Counts(spec, r, e) { RecordsCount(spec, r, e); }
  }

  lemma {:induction false} CriteriaOfUnique(reqs: seq<Requirement>, r: Requirement)
    requires UniqueIds(reqs) && r in reqs
    ensures CriteriaOf(reqs, r.id, r.version) == r.criteria
  {
    var last := reqs[|reqs| - 1];
    if last != r {
      assert r in reqs[..|reqs| - 1];
      var i :| 0 <= i < |reqs| - 1 && reqs[i] == r;
      assert last.id != r.id;
      CriteriaOfUnique(reqs[..|reqs| - 1], r);
    }
  }

  lemma {:induction false} ActiveUnique(reqs: seq<Requirement>, r: Requirement)
    requires UniqueIds(reqs) && r in reqs && IsActive(r)
    ensures r.id in Active(reqs) && Active(reqs)[r.id] == r
  {
    var a := Active(reqs)[r.id];
    var i :| 0 <= i < |reqs| && reqs[i] == r;
    var j :| 0 <= j < |reqs| && reqs[j] == a;
  }

  lemma FullIsVerified(spec: Spec, r: Requirement)
    requires CriteriaOf(spec.requirements, r.id, r.version) == r.criteria && FullyVerified(spec, r)
    ensures IsVerified(spec, r.id, r.version)
  {
    AllRecordsCount(spec, r);
    hide Records, Counts, CriteriaOf;
    var records := Records(spec, r.id, r.version);
    if !(exists e :: e in records && Good(e) && e.criteria == []) {
      forall c | c in r.criteria ensures Covers(records, c) {
        var e :| Counts(spec, r, e) && (e.criteria == [] || c in e.criteria);
        assert e in records && Good(e);
      }
    }
  }

  lemma VerifiedIsFull(spec: Spec, r: Requirement)
    requires CriteriaOf(spec.requirements, r.id, r.version) == r.criteria && IsVerified(spec, r.id, r.version)
    ensures FullyVerified(spec, r)
  {
    AllRecordsCount(spec, r);
    hide Records, Counts, CriteriaOf;
    var records := Records(spec, r.id, r.version);
    var first :| first in records;
    assert Counts(spec, r, first);
    forall e | Counts(spec, r, e) ensures e.passed && e.skipped == [] {
      assert e in records;
    }
    forall c | c in r.criteria ensures exists e :: Counts(spec, r, e) && (e.criteria == [] || c in e.criteria) {
      if e :| e in records && Good(e) && e.criteria == [] {
        assert Counts(spec, r, e);
      } else {
        assert Covers(records, c);
        var e :| e in records && Good(e) && c in e.criteria;
        assert Counts(spec, r, e);
      }
    }
  }

  /** A requirement has failed when a record that counts did not pass. */
  lemma HasFailedMeans(spec: Spec, r: Requirement)
    ensures HasFailed(spec, r.id, r.version) <==> exists e :: Counts(spec, r, e) && !e.passed
  {
    AllRecordsCount(spec, r);
    hide Records, Counts;
  }

  lemma VerifiedMeansFull(spec: Spec, r: Requirement)
    requires UniqueIds(spec.requirements) && r in spec.requirements && r.status != Deprecated
    ensures r.id in VerifiedIds(spec) <==> FullyVerified(spec, r)
  {
    hide IsVerified, FullyVerified;
    ActiveUnique(spec.requirements, r);
    CriteriaOfUnique(spec.requirements, r);
    if FullyVerified(spec, r) { FullIsVerified(spec, r); }
    if IsVerified(spec, r.id, r.version) { VerifiedIsFull(spec, r); }
  }
}

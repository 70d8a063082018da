/** The parts of a system specification that the validator's graph and gate rules read. */
module SpecModel {
  import opened Basics

  datatype Status = Draft | Specified | Verified | Deprecated

  datatype Treatment = Mitigation | Acceptance | Avoidance | Transfer

  /** Stages in order; a later gate includes the earlier ones. */
  datatype Stage = Inventory | Discovery | Architecture | Verification | Release {
    function Index(): nat {
      match this
      case Inventory => 0
      case Discovery => 1
      case Architecture => 2
      case Verification => 3
      case Release => 4
    }
  }

  /** A waiver expires on a day or with a stage. */
  datatype Expiry = OnDay(day: int) | AtStage(stage: Stage)

  datatype Import = Import(id: string, capabilities: map<string, string>)

  datatype Domain = Domain(id: string, uses: seq<string>)

  datatype Capability = Capability(id: string, version: string)

  /** `offers` and `needs` are the fields `provides` and `requires`; `needs` holds capability ids, each optionally
      followed by `@^version`. */
  datatype Component = Component(
    id: string, domain: Option<string>, offers: seq<string>, needs: seq<string>, ownsData: seq<string>,
    bindings: map<string, string>, fakes: map<string, string>, sourcePaths: seq<string>, testPaths: seq<string>)

  datatype DataModel = DataModel(
    id: string, owner: string, derivedFrom: seq<string>, declassifiedBy: Option<string>)

  /** `elaborates` is the field `refines`. */
  datatype Requirement = Requirement(
    id: string, version: string, target: string, status: Status, mandatory: bool, criteria: seq<string>,
    dependsOn: seq<string>, elaborates: seq<string>, resolvedBy: Option<string>, priority: Option<string>)

  datatype Risk = Risk(
    id: string, target: string, treatment: Treatment, mitigatedBy: seq<string>,
    waives: Option<string>, expires: Option<Expiry>)

  datatype Evidence = Evidence(
    id: string, requirementId: string, requirementVersion: string, passed: bool, skipped: seq<string>,
    criteria: seq<string>, subjectId: Option<string>, supersedes: Option<string>, supersessionReason: Option<string>)

  datatype Spec = Spec(
    systemId: string, imports: seq<Import>, domains: seq<Domain>, capabilities: seq<Capability>,
    components: seq<Component>, dataModels: seq<DataModel>, requirements: seq<Requirement>,
    risks: seq<Risk>, evidence: seq<Evidence>)

  function ToSet<T>(q: seq<T>): set<T> {
    set i | 0 <= i < |q| :: q[i]
  }

  /** `s.partition(mark)[0]` for a two-character mark: the text before its first occurrence. */
  function Before(s: string, a: char, b: char): string {
    if s == [] then []
    else if |s| >= 2 && s[0] == a && s[1] == b then []
    else [s[0]] + Before(s[1..], a, b)
  }

  /** `s.partition(mark)[2]`: the text after its first occurrence, empty if there is none. */
  function After(s: string, a: char, b: char): string {
    if s == [] then []
    else if |s| >= 2 && s[0] == a && s[1] == b then s[2..]
    else After(s[1..], a, b)
  }

  /** The capability id of a reference `id@^version`. */
  function RefId(ref: string): string { Before(ref, '@', '^') }

  function RefVersion(ref: string): string { After(ref, '@', '^') }

  /** The reference names capability `k` in version `v`: `k@^v` at the first `@^`, or `k` alone and no version. */
  ghost predicate IsRef(ref: string, k: string, v: string) {
    && (ref == k + "@^" + v || (ref == k && v == ""))
    && forall i | 0 <= i < |k| && i + 1 < |ref| :: !(ref[i] == '@' && ref[i + 1] == '^')
  }

  lemma {:induction false} PartitionAt(s: string, a: char, b: char, i: nat)
    requires i + 1 < |s| && s[i] == a && s[i + 1] == b
    requires forall j | 0 <= j < i :: !(s[j] == a && s[j + 1] == b)
    ensures Before(s, a, b) == s[..i] && After(s, a, b) == s[i + 2..]
  {
    if i > 0 {
      PartitionAt(s[1..], a, b, i - 1);
      assert s[..i] == [s[0]] + s[1..][..i - 1];
    }
  }

  lemma {:induction false} PartitionNowhere(s: string, a: char, b: char)
    requires forall j | 0 <= j < |s| - 1 :: !(s[j] == a && s[j + 1] == b)
    ensures Before(s, a, b) == s && After(s, a, b) == ""
  {
    if s != [] { PartitionNowhere(s[1..], a, b); }
  }

  /** A reference has one reading, the one that resolution takes. */
  lemma RefParts(ref: string, k: string, v: string)
    requires IsRef(ref, k, v)
    ensures RefId(ref) == k && RefVersion(ref) == v
  {
    if ref == k + "@^" + v {
      assert ref[|k|] == '@' && ref[|k| + 1] == '^';
      PartitionAt(ref, '@', '^', |k|);
    } else {
      PartitionNowhere(ref, '@', '^');
    }
  }

  lemma {:induction false} FirstMark(s: string, a: char, b: char)
    ensures s == Before(s, a, b) + [a, b] + After(s, a, b) || (s == Before(s, a, b) && After(s, a, b) == "")
    ensures forall i | 0 <= i < |Before(s, a, b)| && i + 1 < |s| :: !(s[i] == a && s[i + 1] == b)
  {
    if s != [] && !(|s| >= 2 && s[0] == a && s[1] == b) {
      FirstMark(s[1..], a, b);
      assert forall i | 0 < i < |s| :: s[i] == s[1..][i - 1];
    }
  }

  lemma ReadRef(ref: string)
    ensures IsRef(ref, RefId(ref), RefVersion(ref))
  {
    FirstMark(ref, '@', '^');
  }
}

/** Capability resolution: `_ver`, `_ver_ok`, `_import_cap`, `_resolve`, `resolve_capabilities`. */
module Resolve {
  import opened Basics
  import opened SpecModel
  import opened PyDict
  import Decimal
  import Cycles

  function ParseInts(parts: seq<string>): (ns: Option<seq<int>>)
    ensures ns.Some? ==> |ns.value| == |parts|
  {
    if parts == [] then Some([])
    else
      match (Decimal.PyInt(parts[0]), ParseInts(parts[1..]))
      case (IntOk(n), Some(ns)) => Some([n] + ns)
      case _ => None
  }

  function Version(v: string): Option<seq<int>> { ParseInts(Split(v, '.')) }

  /** `a >= b` on Python tuples. */
  predicate AtLeast(a: seq<int>, b: seq<int>) {
    if b == [] then true
    else if a == [] then false
    else a[0] > b[0] || (a[0] == b[0] && AtLeast(a[1..], b[1..]))
  }

  predicate Compatible(wanted: string, actual: string) {
    wanted == "" ||
    match (Version(wanted), Version(actual))
    case (Some(r), Some(a)) => r != [] && a != [] && r[0] == a[0] && AtLeast(a[1..], r[1..])
    case _ => false
  }

  /* ----- what the version comparison means ----- */

  /** The actual numbers agree with the wanted ones until the wanted list ends or the actual number is larger. */
  ghost predicate NotBelow(actual: seq<int>, wanted: seq<int>) {
    exists i ::
      && 0 <= i <= |actual| && i <= |wanted| && actual[..i] == wanted[..i]
      && (i == |wanted| || (i < |actual| && actual[i] > wanted[i]))
  }

  lemma AgreeFurther(a: seq<int>, b: seq<int>, i: nat)
    requires a != [] && b != [] && a[0] == b[0] && i < |a| && i < |b|
    ensures a[..i + 1] == b[..i + 1] <==> a[1..][..i] == b[1..][..i]
  {
    assert a[..i + 1] == [a[0]] + a[1..][..i] && b[..i + 1] == [b[0]] + b[1..][..i];
  }

  lemma {:induction false} AtLeastMeans(a: seq<int>, b: seq<int>)
    ensures AtLeast(a, b) <==> NotBelow(a, b)
  {
    if b == [] {
      assert a[..0] == b[..0];
    } else if a != [] && a[0] == b[0] {
      AtLeastMeans(a[1..], b[1..]);
      if i :| 0 <= i <= |a[1..]| && i <= |b[1..]| && a[1..][..i] == b[1..][..i]
              && (i == |b[1..]| || (i < |a[1..]| && a[1..][i] > b[1..][i])) {
        AgreeFurther(a, b, i);
        assert a[..i + 1] == b[..i + 1];
      }
      if i :| 0 <= i <= |a| && i <= |b| && a[..i] == b[..i] && (i == |b| || (i < |a| && a[i] > b[i])) {
        assert i > 0;
        AgreeFurther(a, b, i - 1);
        assert a[1..][..i - 1] == b[1..][..i - 1];
      }
    } else {
      assert a[..0] == b[..0];
      forall i | 0 < i <= |a| && i <= |b| ensures a[..i] != b[..i] {
        assert a != [] && a[..i][0] != b[..i][0];
      }
    }
  }

  /** No version is wanted, or both are dotted numbers with the same first number and the actual one is not below. */
  ghost predicate AcceptsVersion(wanted: string, actual: string) {
    wanted == "" ||
    (Version(wanted).Some? && Version(actual).Some?
     && var r, a := Version(wanted).value, Version(actual).value;
     r[0] == a[0] && NotBelow(a, r))
  }

  lemma CompatibleMeans(wanted: string, actual: string)
    ensures Compatible(wanted, actual) <==> AcceptsVersion(wanted, actual)
  {
    if Version(wanted).Some? && Version(actual).Some? {
      var r, a := Version(wanted).value, Version(actual).value;
      AtLeastMeans(a[1..], r[1..]);
      AtLeastMeans(a, r);
    }
  }

  lemma NotBelowRaised(a: seq<int>, r: seq<int>, i: nat, n: int)
    requires i < |a| && n >= a[i] && NotBelow(a, r)
    ensures NotBelow(a[i := n], r)
  {
    var b := a[i := n];
    var k :| 0 <= k <= |a| && k <= |r| && a[..k] == r[..k] && (k == |r| || (k < |a| && a[k] > r[k]));
    if k <= i {
      assert b[..k] == a[..k];
    } else {
      assert a[i] == a[..k][i] == r[..k][i] == r[i];
      assert b[..i] == a[..k][..i] == r[..k][..i] == r[..i];
      if n == a[i] { assert b == a; }
    }
  }

  /** A version is accepted where itself is wanted, and stays accepted when a number after the first is raised. */
  lemma RaisedIsCompatible(wanted: string, actual: string, raised: string, i: nat, n: int)
    requires Version(actual).Some? && 0 < i < |Version(actual).value| && n >= Version(actual).value[i]
    requires Version(raised) == Some(Version(actual).value[i := n])
    ensures Compatible(actual, actual)
    ensures Compatible(wanted, actual) ==> Compatible(wanted, raised)
  {
    var a := Version(actual).value;
    CompatibleMeans(actual, actual);
    CompatibleMeans(wanted, actual);
    CompatibleMeans(wanted, raised);
    hide Compatible, Version;
    assert NotBelow(a, a) by { assert a[..|a|] == a[..|a|]; }
    if Compatible(wanted, actual) && wanted != "" { NotBelowRaised(a, Version(wanted).value, i, n); }
  }

  /** Numbers written with dots between them. */
  function Dotted(ns: seq<nat>): (s: string)
    requires ns != []
  {
    if |ns| == 1 then Decimal.Render(ns[0]) else Decimal.Render(ns[0]) + "." + Dotted(ns[1..])
  }

  lemma NoDot(w: string)
    requires Decimal.AllDigits(w)
    ensures '.' !in w
  {
    assert !Decimal.IsDigit('.');
  }

  lemma ParseFront(n: nat, parts: seq<string>, ns: seq<int>)
    requires ParseInts(parts) == Some(ns)
    ensures ParseInts([Decimal.Render(n)] + parts) == Some([n] + ns)
  {
    Decimal.PyIntOfRender(n);
    assert ([Decimal.Render(n)] + parts)[1..] == parts;
  }

  /** Dotted numbers are read as those numbers. */
  lemma {:induction false} VersionOfDotted(ns: seq<nat>)
    requires ns != []
    ensures Version(Dotted(ns)) == Some(ns)
  {
    assert ParseInts([]) == Some([]);
    assert '.' !in Decimal.Render(ns[0]) by { NoDot(Decimal.Render(ns[0])); }
    hide ParseInts, Split, Decimal.Render;
    var w := Decimal.Render(ns[0]);
    if |ns| == 1 {
      SplitWord(w, '.');
      ParseFront(ns[0], [], []);
      assert [w] + [] == [w] && [ns[0]] + [] == ns;
    } else {
      VersionOfDotted(ns[1..]);
      SplitFront(w, '.', Dotted(ns[1..]));
      ParseFront(ns[0], Split(Dotted(ns[1..]), '.'), ns[1..]);
      assert [ns[0]] + ns[1..] == ns;
    }
  }

  /** `^1.0` accepts 1.1, and `^1.1` does not accept 1.0. */
  lemma MinorVersions()
    ensures Compatible("1.0", "1.1") && !Compatible("1.1", "1.0")
  {
    var early, late: seq<nat> := [1, 0], [1, 1];
    assert early[1..] == [0] && late[1..] == [1];
    assert Dotted(early) == "1.0" && Dotted(late) == "1.1";
    VersionOfDotted(early);
    VersionOfDotted(late);
  }

  function CapabilityVersion(caps: seq<Capability>, k: string): Option<string> {
    if caps == [] then None
    else if caps[0].id == k then Some(caps[0].version)
    else CapabilityVersion(caps[1..], k)
  }

  function AfterColon(s: string): string {
    if s == [] then [] else if s[0] == ':' then s[1..] else AfterColon(s[1..])
  }

  function BeforeColon(s: string): string {
    if s == [] then [] else if s[0] == ':' then [] else [s[0]] + BeforeColon(s[1..])
  }

  /** The version that the first import named by the alias pins. */
  function ImportedVersion(imports: seq<Import>, ref: string): Option<string> {
    if AfterColon(ref) == "" || imports == [] then None
    else if imports[0].id == BeforeColon(ref) then
      if AfterColon(ref) in imports[0].capabilities then Some(imports[0].capabilities[AfterColon(ref)]) else None
    else ImportedVersion(imports[1..], ref)
  }

  function KnownVersion(spec: Spec, k: string): Option<string> {
    match CapabilityVersion(spec.capabilities, k)
    case Some(v) => Some(v)
    case None => ImportedVersion(spec.imports, k)
  }

  predicate IsCandidate(c: Component, k: string, p: Component) {
    k in p.offers && p.id != c.id && (k in c.bindings ==> p.id == c.bindings[k])
  }

  function Candidates(components: seq<Component>, c: Component, k: string): (ps: seq<string>)
    ensures forall x :: x in ps <==> exists p :: p in components && IsCandidate(c, k, p) && p.id == x
  {
    if components == [] then []
    else (if IsCandidate(c, k, components[0]) then [components[0].id] else []) + Candidates(components[1..], c, k)
  }

  datatype Resolution = Provider(id: string) | Unresolved | Ambiguous

  function ResolveRef(spec: Spec, c: Component, ref: string): Resolution {
    var k := RefId(ref);
    var ps := Candidates(spec.components, c, k);
    match KnownVersion(spec, k)
    case None => Unresolved
    case Some(v) =>
      if !Compatible(RefVersion(ref), v) || ps == [] then Unresolved
      else if |ps| > 1 then Ambiguous
      else Provider(ps[0])
  }

  function ResolveNeeds(spec: Spec, c: Component, refs: seq<string>): (d: Dict<string, string>)
    ensures WellFormed(d)
    ensures forall k | k in d.entries ::
              exists ref :: ref in refs && RefId(ref) == k && ResolveRef(spec, c, ref) == Provider(d.entries[k])
  {
    if refs == [] then Empty()
    else
      var last := |refs| - 1;
      var before := ResolveNeeds(spec, c, refs[..last]);
      match ResolveRef(spec, c, refs[last])
      case Provider(p) => Put(before, RefId(refs[last]), p)
      case _ => before
  }

  function ResolveAll(spec: Spec, components: seq<Component>): (d: Dict<string, Dict<string, string>>)
    ensures WellFormed(d)
    ensures forall id | id in d.entries ::
              exists c :: c in components && c.id == id && d.entries[id] == ResolveNeeds(spec, c, c.needs)
  {
    if components == [] then Empty()
    else
      var last := |components| - 1;
      var c := components[last];
      Put(ResolveAll(spec, components[..last]), c.id, ResolveNeeds(spec, c, c.needs))
  }

  function ResolveCapabilities(spec: Spec): Dict<string, Dict<string, string>> {
    ResolveAll(spec, spec.components)
  }

  /** `res.get(c, {}).values()` */
  function ProvidersOf(spec: Spec, id: string): seq<string> {
    var res := ResolveCapabilities(spec);
    if id in res.entries then Values(res.entries[id]) else []
  }

  /** The graph whose cycles COMP-06 reports. */
  function DependencyGraph(spec: Spec): (g: Cycles.Graph)
    ensures Cycles.WellFormed(g)
    ensures forall a :: Cycles.Succ(g, a) == ProvidersOf(spec, a)
  {
    var res := ResolveCapabilities(spec);
    Cycles.Graph(res.keys, map id | id in res.entries :: Values(res.entries[id]))
  }

  /** Entry `i` is the only candidate. */
  ghost predicate OnlyCandidate(components: seq<Component>, c: Component, k: string, i: int) {
    0 <= i < |components| && forall j | 0 <= j < |components| :: IsCandidate(c, k, components[j]) <==> j == i
  }

  lemma {:induction false} CandidatesNone(components: seq<Component>, c: Component, k: string)
    ensures Candidates(components, c, k) == [] <==>
              forall j | 0 <= j < |components| :: !IsCandidate(c, k, components[j])
  {
    if components != [] {
      CandidatesNone(components[1..], c, k);
      assert forall j | 0 < j < |components| :: components[j] == components[1..][j - 1];
      assert forall j | 0 <= j < |components| - 1 :: components[1..][j] == components[j + 1];
    }
  }

  lemma OnlyCandidateShift(components: seq<Component>, c: Component, k: string, i: int)
    requires components != [] && !IsCandidate(c, k, components[0])
    ensures OnlyCandidate(components[1..], c, k, i) ==> OnlyCandidate(components, c, k, i + 1)
    ensures OnlyCandidate(components, c, k, i) ==> i > 0 && OnlyCandidate(components[1..], c, k, i - 1)
  {
    assert forall j | 0 < j < |components| :: components[j] == components[1..][j - 1];
    assert forall j | 0 <= j < |components| - 1 :: components[1..][j] == components[j + 1];
  }

  lemma {:induction false} CandidatesSingle(components: seq<Component>, c: Component, k: string, p: string)
    ensures Candidates(components, c, k) == [p] <==>
              exists i :: OnlyCandidate(components, c, k, i) && components[i].id == p
  {
    if components != [] {
      var rest := components[1..];
      if IsCandidate(c, k, components[0]) {
        CandidatesNone(rest, c, k);
        if Candidates(rest, c, k) == [] {
          assert forall j | 0 < j < |components| :: components[j] == rest[j - 1];
          assert OnlyCandidate(components, c, k, 0);
          assert forall i | OnlyCandidate(components, c, k, i) :: i == 0;
          assert Candidates(components, c, k) == [components[0].id];
        } else {
          var j :| 0 <= j < |rest| && IsCandidate(c, k, rest[j]);
          assert rest[j] == components[j + 1];
          assert IsCandidate(c, k, components[0]) && IsCandidate(c, k, components[j + 1]);
        }
      } else {
        CandidatesSingle(rest, c, k, p);
        if i :| OnlyCandidate(rest, c, k, i) && rest[i].id == p { OnlyCandidateShift(components, c, k, i); }
        if i :| OnlyCandidate(components, c, k, i) && components[i].id == p { OnlyCandidateShift(components, c, k, i); }
      }
    }
  }

  /* ----- what resolution means ----- */

  /** The first declared capability named `k` has the version. */
  ghost predicate DeclaresVersion(caps: seq<Capability>, k: string, v: string) {
    exists i ::
      0 <= i < |caps| && caps[i].id == k && caps[i].version == v && forall j | 0 <= j < i :: caps[j].id != k
  }

  /** `k` is an alias, a colon and a name, and the first import with that alias pins the version of that name. */
  ghost predicate PinsVersion(imports: seq<Import>, k: string, v: string) {
    exists alias, name, i ::
      && k == alias + ":" + name && ':' !in alias && name != ""
      && 0 <= i < |imports| && IsFirstImport(imports, alias, i)
      && name in imports[i].capabilities && imports[i].capabilities[name] == v
  }

  ghost predicate IsFirstImport(imports: seq<Import>, alias: string, i: int)
    requires 0 <= i < |imports|
  {
    imports[i].id == alias && forall j | 0 <= j < i :: imports[j].id != alias
  }

  /** A declared capability has its own version, any other the one that an import pins. */
  ghost predicate HasVersion(spec: Spec, k: string, v: string) {
    if exists c :: c in spec.capabilities && c.id == k then DeclaresVersion(spec.capabilities, k, v)
    else PinsVersion(spec.imports, k, v)
  }

  /** Component `i` is the only one that provides `k`, is not the requirer and agrees with any binding of `k`. */
  ghost predicate OnlyProvider(components: seq<Component>, c: Component, k: string, i: int) {
    0 <= i < |components| && forall j | 0 <= j < |components| ::
      k in components[j].offers && components[j].id != c.id && (k in c.bindings ==> components[j].id == c.bindings[k])
      <==> j == i
  }

  lemma {:induction false} CapabilityVersionMeans(caps: seq<Capability>, k: string, v: string)
    ensures CapabilityVersion(caps, k) == Some(v) <==> DeclaresVersion(caps, k, v)
    ensures CapabilityVersion(caps, k).Some? <==> exists c :: c in caps && c.id == k
  {
    if caps != [] {
      CapabilityVersionMeans(caps[1..], k, v);
      if caps[0].id != k {
        if i :| 0 <= i < |caps[1..]| && caps[1..][i].id == k && caps[1..][i].version == v
                && forall j | 0 <= j < i :: caps[1..][j].id != k {
          assert caps[i + 1].id == k;
          assert forall j | 0 <= j < i + 1 :: j > 0 ==> caps[j] == caps[1..][j - 1];
        }
        if i :| 0 <= i < |caps| && caps[i].id == k && caps[i].version == v && forall j | 0 <= j < i :: caps[j].id != k {
          assert caps[1..][i - 1] == caps[i];
          assert forall j | 0 <= j < i - 1 :: caps[1..][j] == caps[j + 1];
        }
        assert forall c | c in caps && c.id == k :: c in caps[1..];
      }
    }
  }

  lemma {:induction false} ColonParts(k: string, alias: string, name: string)
    requires k == alias + ":" + name && ':' !in alias
    ensures BeforeColon(k) == alias && AfterColon(k) == name
  {
    if alias != [] {
      assert k[1..] == alias[1..] + ":" + name;
      ColonParts(k[1..], alias[1..], name);
      assert [alias[0]] + alias[1..] == alias;
    } else {
      assert k[1..] == name;
    }
  }

  lemma {:induction false} ColonSplits(k: string)
    requires AfterColon(k) != ""
    ensures k == BeforeColon(k) + ":" + AfterColon(k) && ':' !in BeforeColon(k)
  {
    if k != [] && k[0] != ':' { ColonSplits(k[1..]); }
  }

  lemma {:induction false} ImportedMeans(imports: seq<Import>, k: string, v: string)
    ensures ImportedVersion(imports, k) == Some(v) <==>
              && AfterColon(k) != ""
              && exists i ::
                   && 0 <= i < |imports| && IsFirstImport(imports, BeforeColon(k), i)
                   && AfterColon(k) in imports[i].capabilities && imports[i].capabilities[AfterColon(k)] == v
  {
    if AfterColon(k) != "" && imports != [] && imports[0].id != BeforeColon(k) {
      var rest, alias := imports[1..], BeforeColon(k);
      ImportedMeans(rest, k, v);
      forall i | 0 <= i < |rest| ensures IsFirstImport(rest, alias, i) <==> IsFirstImport(imports, alias, i + 1) {
        assert forall j | 0 < j <= i :: imports[j] == rest[j - 1];
        assert forall j | 0 <= j < i :: rest[j] == imports[j + 1];
      }
      if i :| 0 <= i < |imports| && IsFirstImport(imports, alias, i) && AfterColon(k) in imports[i].capabilities
              && imports[i].capabilities[AfterColon(k)] == v {
        assert i > 0 && rest[i - 1] == imports[i];
      }
    } else if AfterColon(k) != "" && imports != [] {
      assert forall i | 0 <= i < |imports| && IsFirstImport(imports, BeforeColon(k), i) :: i == 0;
      assert IsFirstImport(imports, BeforeColon(k), 0);
    }
  }

  lemma ImportedVersionMeans(imports: seq<Import>, k: string, v: string)
    ensures ImportedVersion(imports, k) == Some(v) <==> PinsVersion(imports, k, v)
  {
    ImportedMeans(imports, k, v);
    if AfterColon(k) != "" { ColonSplits(k); }
    if alias, name, i :|
      && k == alias + ":" + name && ':' !in alias && name != ""
      && 0 <= i < |imports| && IsFirstImport(imports, alias, i)
      && name in imports[i].capabilities && imports[i].capabilities[name] == v {
      ColonParts(k, alias, name);
    }
  }

  lemma KnownVersionMeans(spec: Spec, k: string, v: string)
    ensures KnownVersion(spec, k) == Some(v) <==> HasVersion(spec, k, v)
  {
    hide CapabilityVersion, ImportedVersion, DeclaresVersion, PinsVersion;
    CapabilityVersionMeans(spec.capabilities, k, v);
    ImportedVersionMeans(spec.imports, k, v);
  }

  lemma OnlyIsSingle(components: seq<Component>, c: Component, k: string, p: string)
    ensures Candidates(components, c, k) == [p] <==>
              exists i :: OnlyProvider(components, c, k, i) && components[i].id == p
  {
    CandidatesSingle(components, c, k, p);
    forall i ensures OnlyProvider(components, c, k, i) <==> OnlyCandidate(components, c, k, i) {
    }
  }

  lemma ResolvesToSingle(spec: Spec, c: Component, ref: string, p: string)
    ensures ResolveRef(spec, c, ref) == Provider(p) <==>
              && KnownVersion(spec, RefId(ref)).Some?
              && Compatible(RefVersion(ref), KnownVersion(spec, RefId(ref)).value)
              && Candidates(spec.components, c, RefId(ref)) == [p]
  {
    hide Candidates, KnownVersion, Compatible, RefId, RefVersion;
  }

  lemma VersionFits(spec: Spec, k: string, v: string)
    ensures KnownVersion(spec, k).Some? && Compatible(v, KnownVersion(spec, k).value)
            <==> exists known :: HasVersion(spec, k, known) && AcceptsVersion(v, known)
  {
    hide KnownVersion, HasVersion, Compatible, AcceptsVersion;
    if KnownVersion(spec, k).Some? {
      KnownVersionMeans(spec, k, KnownVersion(spec, k).value);
      CompatibleMeans(v, KnownVersion(spec, k).value);
    }
    if known :| HasVersion(spec, k, known) && AcceptsVersion(v, known) {
      KnownVersionMeans(spec, k, known);
    }
  }

  /** A reference to capability `k` in version `v` resolves to `p` exactly when the capability has a version that
      accepts `v`, and `p` is the one component that provides it, is not the requirer and agrees with any binding. */
  lemma ResolvesIffUnique(spec: Spec, c: Component, ref: string, k: string, v: string, p: string)
    requires IsRef(ref, k, v)
    ensures ResolveRef(spec, c, ref) == Provider(p) <==>
              && (exists known :: HasVersion(spec, k, known) && AcceptsVersion(v, known))
              && exists i :: OnlyProvider(spec.components, c, k, i) && spec.components[i].id == p
  {
    hide *;
    RefParts(ref, k, v);
    ResolvesToSingle(spec, c, ref, p);
    OnlyIsSingle(spec.components, c, k, p);
    VersionFits(spec, k, v);
  }

  lemma NeedIsOther(spec: Spec, c: Component, k: string)
    requires k in ResolveNeeds(spec, c, c.needs).entries
    ensures exists p ::
              p in spec.components && p.id == ResolveNeeds(spec, c, c.needs).entries[k] && p.id != c.id && k in p.offers
  {
    var d := ResolveNeeds(spec, c, c.needs);
    var ref :| ref in c.needs && RefId(ref) == k && ResolveRef(spec, c, ref) == Provider(d.entries[k]);
    ReadRef(ref);
    ResolvesIffUnique(spec, c, ref, k, RefVersion(ref), d.entries[k]);
    var i :| OnlyProvider(spec.components, c, k, i) && spec.components[i].id == d.entries[k];
    assert spec.components[i] in spec.components;
  }

  /** A resolved dependency leads to another component of the specification. */
  lemma ProviderIsOther(spec: Spec, a: string, p: string)
    requires p in ProvidersOf(spec, a)
    ensures p != a && exists c :: c in spec.components && c.id == p
  {
    var d := ResolveCapabilities(spec).entries[a];
    var i :| 0 <= i < |Values(d)| && Values(d)[i] == p;
    assert d.keys[i] in d.entries;
    var c :| c in spec.components && c.id == a && d == ResolveNeeds(spec, c, c.needs);
    NeedIsOther(spec, c, d.keys[i]);
  }

  /* ----- no need is lost ----- */

  lemma {:induction false} NeedsComplete(spec: Spec, c: Component, refs: seq<string>, ref: string, p: string)
    requires ref in refs && ResolveRef(spec, c, ref) == Provider(p)
    ensures RefId(ref) in ResolveNeeds(spec, c, refs).entries
            && ResolveNeeds(spec, c, refs).entries[RefId(ref)] == p
  {
    hide ResolveRef, RefId;
    var last := |refs| - 1;
    if refs[last] != ref {
      NeedsComplete(spec, c, refs[..last], ref, p);
      SameProvider(spec, c, ref, refs[last]);
    }
  }

  /** Two references to one capability that both resolve lead to the same provider. */
  lemma SameProvider(spec: Spec, c: Component, a: string, b: string)
    ensures RefId(a) == RefId(b) && ResolveRef(spec, c, a).Provider? && ResolveRef(spec, c, b).Provider?
            ==> ResolveRef(spec, c, a) == ResolveRef(spec, c, b)
  {
    hide Compatible, Candidates, KnownVersion, RefId, RefVersion;
  }

  lemma {:induction false} AllComplete(spec: Spec, components: seq<Component>, c: Component)
    requires c in components && forall d | d in components && d.id == c.id :: d == c
    ensures c.id in ResolveAll(spec, components).entries
            && ResolveAll(spec, components).entries[c.id] == ResolveNeeds(spec, c, c.needs)
  {
    var last := |components| - 1;
    if components[last] != c {
      AllComplete(spec, components[..last], c);
    }
  }

  /** With distinct ids a component depends on exactly the components that its references resolve to. */
  lemma DependsIffNeeds(spec: Spec, c: Component, p: string)
    requires c in spec.components && forall d | d in spec.components && d.id == c.id :: d == c
    ensures Cycles.Edge(DependencyGraph(spec), c.id, p) <==>
              exists ref :: ref in c.needs && ResolveRef(spec, c, ref) == Provider(p)
  {
    hide ResolveNeeds, ResolveAll, ResolveRef;
    ProvidersAre(spec, c);
    hide ProvidersOf, DependencyGraph;
    ValuesMean(spec, c, p);
  }

  lemma ProvidersAre(spec: Spec, c: Component)
    requires c in spec.components && forall d | d in spec.components && d.id == c.id :: d == c
    ensures ProvidersOf(spec, c.id) == Values(ResolveNeeds(spec, c, c.needs))
    ensures forall p :: Cycles.Edge(DependencyGraph(spec), c.id, p) <==> p in ProvidersOf(spec, c.id)
  {
    AllComplete(spec, spec.components, c);
    hide ResolveNeeds, ResolveAll;
  }

  lemma ValuesMean(spec: Spec, c: Component, p: string)
    ensures p in Values(ResolveNeeds(spec, c, c.needs)) <==>
              exists ref :: ref in c.needs && ResolveRef(spec, c, ref) == Provider(p)
  {
    hide ResolveNeeds, ResolveRef;
    var d := ResolveNeeds(spec, c, c.needs);
    if p in Values(d) {
      var i :| 0 <= i < |Values(d)| && Values(d)[i] == p;
      assert d.keys[i] in d.entries;
    }
    if ref :| ref in c.needs && ResolveRef(spec, c, ref) == Provider(p) {
      NeedsComplete(spec, c, c.needs, ref, p);
      var i :| 0 <= i < |d.keys| && d.keys[i] == RefId(ref);
      assert Values(d)[i] == p;
    }
  }
}

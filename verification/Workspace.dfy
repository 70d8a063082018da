/** The Cargo workspace graph and the components a change affects: `ci_changed_components.py`. */
module Workspace {
  import opened Basics
  import opened Reach
  import opened Ordering

  /* ----- paths ----- */

  /** `_normalize`; `None` where `out.pop()` raises. */
  function Normalize(parts: seq<string>): Option<seq<string>> {
    if parts == [] then Some([])
    else
      var part := parts[|parts| - 1];
      match Normalize(parts[..|parts| - 1])
      case None => None
      case Some(out) =>
        if part == ".." then (if out == [] then None else Some(out[..|out| - 1]))
        else if part == "." || part == "" then Some(out)
        else Some(out + [part])
  }

  method NormalizeLoop(parts: seq<string>) returns (r: Option<seq<string>>)
    ensures r == Normalize(parts)
  {
    var out: seq<string> := [];
    for i := 0 to |parts|
      invariant Normalize(parts[..i]) == Some(out)
    {
      assert parts[..i + 1][..i] == parts[..i];
      if parts[i] == ".." && out == [] {
        NormalizeFails(parts, i + 1);
        return None;
      }
      if parts[i] == ".." {
        out := out[..|out| - 1];
      } else if parts[i] != "." && parts[i] != "" {
        out := out + [parts[i]];
      }
    }
    assert parts[..|parts|] == parts;
    r := Some(out);
  }

  lemma {:induction false} NormalizeFails(parts: seq<string>, n: nat)
    requires n <= |parts| && Normalize(parts[..n]) == None
    ensures Normalize(parts) == None
  {
    if n == |parts| {
      assert parts[..n] == parts;
    } else {
      assert parts[..|parts| - 1][..n] == parts[..n];
      NormalizeFails(parts[..|parts| - 1], n);
    }
  }

  function Depth(parts: seq<string>): int {
    if parts == [] then 0
    else
      var part := parts[|parts| - 1];
      Depth(parts[..|parts| - 1]) + if part == ".." then -1 else if part == "." || part == "" then 0 else 1
  }

  ghost predicate IsClean(out: seq<string>) {
    forall i | 0 <= i < |out| :: out[i] != ".." && out[i] != "." && out[i] != ""
  }

  /** Normalization succeeds exactly when no prefix of the path climbs above its start; the result is clean and as long
      as the path is deep. */
  lemma {:induction false} NormalizeIffInside(parts: seq<string>)
    ensures Normalize(parts).Some? <==> forall i | 0 <= i <= |parts| :: Depth(parts[..i]) >= 0
    ensures Normalize(parts).Some? ==> IsClean(Normalize(parts).value) && |Normalize(parts).value| == Depth(parts)
  {
    assert parts[..|parts|] == parts;
    if parts != [] {
      var front := parts[..|parts| - 1];
      NormalizeIffInside(front);
      assert forall i | 0 <= i < |parts| :: front[..i] == parts[..i];
      if Normalize(parts).Some? {
        forall i | 0 <= i <= |parts| ensures Depth(parts[..i]) >= 0 {
          if i < |parts| { assert Depth(front[..i]) >= 0; }
        }
      } else if Normalize(front).None? {
        var i :| 0 <= i <= |front| && Depth(front[..i]) < 0;
        assert Depth(parts[..i]) < 0;
      }
    }
  }

  /** A clean path is its own normal form, so normalizing twice changes nothing. */
  lemma {:induction false} NormalizeClean(out: seq<string>)
    requires IsClean(out)
    ensures Normalize(out) == Some(out)
  {
    if out != [] {
      CleanParts(out);
      hide IsClean, Normalize;
      NormalizeClean(out[..|out| - 1]);
      NormalizeOneMore(out);
    }
  }

  lemma CleanParts(out: seq<string>)
    requires IsClean(out) && out != []
    ensures IsClean(out[..|out| - 1]) && IsClean([out[|out| - 1]])
  {
  }

  lemma CleanPart(part: string)
    requires IsClean([part])
    ensures part != ".." && part != "." && part != ""
  {
    assert [part][0] == part;
  }

  lemma NormalizePart(front: seq<string>, part: string)
    requires Normalize(front) == Some(front) && part != ".." && part != "." && part != ""
    ensures Normalize(front + [part]) == Some(front + [part])
  {
    assert (front + [part])[..|front + [part]| - 1] == front;
  }

  lemma NormalizeOneMore(out: seq<string>)
    requires out != [] && IsClean([out[|out| - 1]]) && Normalize(out[..|out| - 1]) == Some(out[..|out| - 1])
    ensures Normalize(out) == Some(out)
  {
    hide IsClean, Normalize;
    var part := out[|out| - 1];
    CleanPart(part);
    NormalizePart(out[..|out| - 1], part);
    assert out == out[..|out| - 1] + [part];
  }

  /** A path below a directory can be normalized in two steps. */
  lemma {:induction false} NormalizeBelow(dir: seq<string>, parts: seq<string>)
    requires Normalize(dir).Some?
    ensures Normalize(dir + parts) == Normalize(Normalize(dir).value + parts)
  {
    var clean := Normalize(dir).value;
    if parts == [] {
      NormalizeIffInside(dir);
      NormalizeClean(clean);
      assert dir + parts == dir && clean + parts == clean;
    } else {
      var front := parts[..|parts| - 1];
      NormalizeBelow(dir, front);
      assert (dir + parts)[..|dir + parts| - 1] == dir + front;
      assert (clean + parts)[..|clean + parts| - 1] == clean + front;
    }
  }

  /* ----- the graph ----- */

  datatype Crate = Crate(dir: string, deps: set<string>)

  type Graph = map<string, Crate>

  function DepsIn(graph: Graph): string -> set<string> {
    p => if p in graph then graph[p].deps else {}
  }

  ghost function GraphNodes(graph: Graph, package: string): set<string> {
    {package} + graph.Keys + set p, d | p in graph.Keys && d in graph[p].deps :: d
  }

  /** The crates that `package` depends on, directly or not, and itself. */
  ghost function Dependencies(graph: Graph, package: string): set<string> {
    set p | p in GraphNodes(graph, package) && Reachable(DepsIn(graph), {package}, p)
  }

  lemma DependenciesIsReach(graph: Graph, package: string)
    ensures IsReach(DepsIn(graph), {package}, Dependencies(graph, package))
  {
    ReachableInClosed(DepsIn(graph), {package}, GraphNodes(graph, package));
  }

  /** The dependencies are the least set that holds the package and the dependencies of its members. */
  lemma DependenciesIsLeast(graph: Graph, package: string, s: set<string>)
    ensures package in Dependencies(graph, package) && Closed(DepsIn(graph), Dependencies(graph, package))
    ensures package in s && Closed(DepsIn(graph), s) ==> Dependencies(graph, package) <= s
  {
    DependenciesIsReach(graph, package);
    ReachIsLeast(DepsIn(graph), {package}, Dependencies(graph, package), s);
  }

  datatype ClosureResult = KeyError(key: string) | Closure(seen: set<string>)

  ghost predicate Visiting(graph: Graph, package: string, seen: set<string>, stack: seq<string>) {
    Searching(DepsIn(graph), {package}, GraphNodes(graph, package), seen, stack)
  }

  lemma VisitingStep(graph: Graph, package: string, seen: set<string>, stack: seq<string>, x: string)
    requires Visiting(graph, package, seen, stack + [x])
    ensures x in seen ==> Visiting(graph, package, seen, stack)
    ensures x in graph ==> Visiting(graph, package, seen + {x}, stack + Sorted(graph[x].deps))
    ensures x in GraphNodes(graph, package) && x in Dependencies(graph, package)
  {
    var next, all := DepsIn(graph), GraphNodes(graph, package);
    if x in seen { SearchSkip(next, {package}, all, seen, stack, x); }
    if x in graph { SearchVisit(next, {package}, all, seen, stack, x, Sorted(graph[x].deps)); }
    assert x in stack + [x];
  }

  lemma VisitingEnd(graph: Graph, package: string, seen: set<string>)
    requires Visiting(graph, package, seen, [])
    ensures seen == Dependencies(graph, package)
  {
    SearchEnd(DepsIn(graph), {package}, GraphNodes(graph, package), seen);
    DependenciesIsReach(graph, package);
    ReachUnique(DepsIn(graph), {package}, seen, Dependencies(graph, package));
  }

  /** `closure`; it fails exactly when a crate it has to visit is missing from the graph. */
  method FindClosure(graph: Graph, package: string) returns (r: ClosureResult)
    ensures r.Closure? <==> Dependencies(graph, package) <= graph.Keys
    ensures r.Closure? ==> r.seen == Dependencies(graph, package)
    ensures r.KeyError? ==> r.key in Dependencies(graph, package) && r.key !in graph
  {
    var seen: set<string>, stack := {}, [package];
    SearchStart(DepsIn(graph), {package}, GraphNodes(graph, package), stack);
    while stack != []
      invariant Visiting(graph, package, seen, stack) && seen <= graph.Keys
      decreases GraphNodes(graph, package) - seen, |stack|
    {
      var current, rest := stack[|stack| - 1], stack[..|stack| - 1];
      SplitLast(stack);
      VisitingStep(graph, package, seen, rest, current);
      if current in seen {
        stack := rest;
      } else {
        if current !in graph { return KeyError(current); }
        seen, stack := seen + {current}, rest + Sorted(graph[current].deps);
      }
    }
    VisitingEnd(graph, package, seen);
    r := Closure(seen);
  }

  /** Every dependency is a crate of the graph. */
  ghost predicate IsClosedGraph(graph: Graph) {
    forall p | p in graph :: graph[p].deps <= graph.Keys
  }

  lemma ClosedGraphContains(graph: Graph, package: string)
    requires IsClosedGraph(graph) && package in graph
    ensures Dependencies(graph, package) <= graph.Keys
  {
    DependenciesIsLeast(graph, package, graph.Keys);
  }

  /* ----- loading the graph ----- */

  /** A dependency declaration with a path, by its parts, or taken from the workspace. */
  datatype Dependency = ByPath(parts: seq<string>) | FromWorkspace(name: string) | External

  datatype CrateManifest = CrateManifest(package: string, dependencies: seq<Dependency>, buildScript: bool)

  /** The parsed manifests: the members in order, each member's manifest, and the path dependencies of the workspace. */
  datatype Manifests = Manifests(
    members: seq<string>, crates: map<string, CrateManifest>, workspacePaths: map<string, seq<string>>)

  function Join(parts: seq<string>): string {
    if parts == [] then "." else if |parts| == 1 then parts[0] else parts[0] + "/" + Join(parts[1..])
  }

  /** Joined parts can be split again; no parts give the directory itself. */
  lemma {:induction false} JoinSplits(parts: seq<string>)
    requires forall p | p in parts :: '/' !in p
    ensures parts == [] ==> Join(parts) == "."
    ensures parts != [] ==> Split(Join(parts), '/') == parts
  {
    if |parts| == 1 {
      assert parts[0] in parts;
      SplitWord(parts[0], '/');
      assert parts == [parts[0]];
    } else if parts != [] {
      var rest := parts[1..];
      assert parts[0] in parts && forall p | p in rest :: p in parts;
      JoinSplits(rest);
      assert Join(parts) == parts[0] + ['/'] + Join(rest);
      SplitFront(parts[0], '/', Join(rest));
      assert parts == [parts[0]] + rest;
    }
  }

  predicate SupportedLayout(member: string) {
    ("libs/" <= member || "services/" <= member)
    && forall p :: p in Split(member, '/') ==> p != ".." && p != "." && p != "*"
  }

  /** The two dictionaries over the members read so far. */
  datatype Members = Members(byPackage: map<string, string>, byDir: map<string, string>)

  function LoadMembers(m: Manifests, members: seq<string>, strict: bool): Option<Members>
  {
    if members == [] then Some(Members(map[], map[]))
    else
      var member := members[|members| - 1];
      match LoadMembers(m, members[..|members| - 1], strict)
      case None => None
      case Some(before) =>
        if member !in m.crates then None
        else
          var package := m.crates[member].package;
          if strict && (!SupportedLayout(member) || package in before.byPackage || member in before.byDir) then None
          else Some(Members(before.byPackage[package := member], before.byDir[member := package]))
  }

  /** Where a declaration points, if it is a local one. */
  function TargetParts(m: Manifests, member: string, d: Dependency): Option<seq<string>> {
    match d
    case ByPath(parts) => Some(Split(member, '/') + parts)
    case FromWorkspace(name) => if name in m.workspacePaths then Some(m.workspacePaths[name]) else None
    case External => None
  }

  datatype Target = NotLocal | Bad | Unresolved | Local(package: string)

  function ResolveTarget(m: Manifests, byDir: map<string, string>, member: string, d: Dependency): Target {
    match TargetParts(m, member, d)
    case None => NotLocal
    case Some(parts) =>
      match Normalize(parts)
      case None => Bad
      case Some(clean) => if Join(clean) in byDir then Local(byDir[Join(clean)]) else Unresolved
  }

  predicate DependencyFails(m: Manifests, byDir: map<string, string>, member: string, d: Dependency, strict: bool) {
    var t := ResolveTarget(m, byDir, member, d);
    t.Bad? || (strict && t.Unresolved?)
  }

  function DepSet(m: Manifests, byDir: map<string, string>, member: string, ds: seq<Dependency>): (deps: set<string>)
    ensures deps <= byDir.Values
  {
    set i | 0 <= i < |ds| && ResolveTarget(m, byDir, member, ds[i]).Local? ::
      ResolveTarget(m, byDir, member, ds[i]).package
  }

  predicate CrateFails(m: Manifests, byDir: map<string, string>, member: string, strict: bool) {
    member !in m.crates || (strict && m.crates[member].buildScript)
    || exists d :: d in m.crates[member].dependencies && DependencyFails(m, byDir, member, d, strict)
  }

  /** `load_workspace` from the parsed manifests; `None` where it raises. */
  function LoadWorkspace(m: Manifests, strict: bool): Option<Graph> {
    match LoadMembers(m, m.members, strict)
    case None => None
    case Some(ms) =>
      if exists p :: p in ms.byPackage && CrateFails(m, ms.byDir, ms.byPackage[p], strict) then None
      else Some(map p | p in ms.byPackage && ms.byPackage[p] in m.crates ::
        Crate(ms.byPackage[p], DepSet(m, ms.byDir, ms.byPackage[p], m.crates[ms.byPackage[p]].dependencies)))
  }

  /** Member directories and packages determine each other. */
  ghost predicate Consistent(m: Manifests, ms: Members) {
    && (forall p | p in ms.byPackage ::
          ms.byPackage[p] in ms.byDir && ms.byPackage[p] in m.crates && m.crates[ms.byPackage[p]].package == p)
    && (forall d | d in ms.byDir :: d in m.crates && ms.byDir[d] == m.crates[d].package && ms.byDir[d] in ms.byPackage)
  }

  lemma {:induction false} MembersConsistent(m: Manifests, members: seq<string>, strict: bool)
    ensures LoadMembers(m, members, strict).Some? ==> Consistent(m, LoadMembers(m, members, strict).value)
    ensures strict && LoadMembers(m, members, strict).Some? ==>
              LoadMembers(m, members, false) == LoadMembers(m, members, strict)
              && forall d | d in LoadMembers(m, members, strict).value.byDir :: SupportedLayout(d)
  {
    if members != [] { MembersConsistent(m, members[..|members| - 1], strict); }
  }

  ghost predicate DistinctDirs(graph: Graph) {
    forall p, q | p in graph && q in graph && graph[p].dir == graph[q].dir :: p == q
  }

  lemma LoadedDirs(m: Manifests, strict: bool)
    requires LoadWorkspace(m, strict).Some?
    ensures DistinctDirs(LoadWorkspace(m, strict).value)
    ensures strict
            ==> forall p | p in LoadWorkspace(m, strict).value :: SupportedLayout(LoadWorkspace(m, strict).value[p].dir)
  {
    MembersConsistent(m, m.members, strict);
  }

  lemma LoadedDeps(m: Manifests, strict: bool)
    requires LoadWorkspace(m, strict).Some?
    ensures IsClosedGraph(LoadWorkspace(m, strict).value)
  {
    MembersConsistent(m, m.members, strict);
    var ms, graph := LoadMembers(m, m.members, strict).value, LoadWorkspace(m, strict).value;
    forall p | p in graph ensures graph[p].deps <= graph.Keys {
      forall q | q in graph[p].deps ensures q in graph {
        assert q in ms.byDir.Values;
        var d :| d in ms.byDir && ms.byDir[d] == q;
      }
    }
  }

  /** A workspace that loads has a closed graph with one crate per directory, so the closure of each of its crates
      exists; and what the strict reader accepts, the lenient one reads alike. */
  lemma LoadedIsClosed(m: Manifests, strict: bool)
    requires LoadWorkspace(m, strict).Some?
    ensures IsClosedGraph(LoadWorkspace(m, strict).value) && DistinctDirs(LoadWorkspace(m, strict).value)
    ensures LoadWorkspace(m, false) == LoadWorkspace(m, strict)
  {
    LoadedDirs(m, strict);
    LoadedDeps(m, strict);
    MembersConsistent(m, m.members, strict);
    if strict {
      var ms := LoadMembers(m, m.members, strict).value;
      assert forall p | p in ms.byPackage ::
        CrateFails(m, ms.byDir, ms.byPackage[p], false) ==> CrateFails(m, ms.byDir, ms.byPackage[p], true);
    }
  }

  /** In a strictly loaded workspace no local declaration is lost: each names a crate of the graph. */
  lemma StrictLosesNothing(m: Manifests, p: string, d: Dependency)
    requires LoadWorkspace(m, true).Some? && p in LoadWorkspace(m, true).value
    requires d in m.crates[LoadWorkspace(m, true).value[p].dir].dependencies
    requires TargetParts(m, LoadWorkspace(m, true).value[p].dir, d).Some?
    ensures var graph := LoadWorkspace(m, true).value;
      exists q :: q in graph[p].deps && q in graph
        && Normalize(TargetParts(m, graph[p].dir, d).value).Some?
        && Join(Normalize(TargetParts(m, graph[p].dir, d).value).value) in LoadMembers(m, m.members, true).value.byDir
        && LoadMembers(m, m.members, true).value.byDir[Join(Normalize(TargetParts(m, graph[p].dir, d).value).value)]
           == q
  {
    var ms, graph := LoadMembers(m, m.members, true).value, LoadWorkspace(m, true).value;
    LoadedDeps(m, true);
    var ds := m.crates[graph[p].dir].dependencies;
    assert !CrateFails(m, ms.byDir, ms.byPackage[p], true);
    assert !DependencyFails(m, ms.byDir, graph[p].dir, d, true);
    var i :| 0 <= i < |ds| && ds[i] == d;
    var q := ResolveTarget(m, ms.byDir, graph[p].dir, d).package;
    assert q in DepSet(m, ms.byDir, graph[p].dir, ds);
  }

  /* ----- when a workspace loads, and what its graph is, read off the manifests ----- */

  /** No two members share a directory or a package name. */
  ghost predicate DistinctMembers(m: Manifests) {
    forall i, j | 0 <= i < j < |m.members| && m.members[i] in m.crates && m.members[j] in m.crates ::
      m.members[i] != m.members[j] && m.crates[m.members[i]].package != m.crates[m.members[j]].package
  }

  /** The declaration is a path: one of its own, from the member's directory, or one of the workspace, from its root. */
  ghost predicate HasPath(m: Manifests, member: string, d: Dependency, parts: seq<string>) {
    match d
    case ByPath(own) => parts == Split(member, '/') + own
    case FromWorkspace(name) => name in m.workspacePaths && parts == m.workspacePaths[name]
    case External => false
  }

  /** The path leads to the directory. */
  ghost predicate LeadsTo(m: Manifests, member: string, d: Dependency, dir: string) {
    exists parts :: HasPath(m, member, d, parts) && Normalize(parts).Some? && Join(Normalize(parts).value) == dir
  }

  /** Every path can be normalized; for the strict reader every path leads to a member. */
  ghost predicate IsResolved(m: Manifests, member: string, d: Dependency, strict: bool) {
    forall parts | HasPath(m, member, d, parts) ::
      Normalize(parts).Some? && (strict ==> Join(Normalize(parts).value) in m.members)
  }

  /** Below `libs/` or `services/`, by a plain path. */
  ghost predicate IsPlainMember(member: string) {
    && ("libs/" <= member || "services/" <= member)
    && ".." !in Split(member, '/') && "." !in Split(member, '/') && "*" !in Split(member, '/')
  }

  ghost predicate IsLoadable(m: Manifests, strict: bool) {
    && (forall member | member in m.members :: member in m.crates)
    && (forall member, d | member in m.members && d in m.crates[member].dependencies ::
          IsResolved(m, member, d, strict))
    && (strict ==>
          DistinctMembers(m)
          && forall member | member in m.members :: IsPlainMember(member) && !m.crates[member].buildScript)
  }

  /** One crate for every member, which depends on the members that its paths lead to. */
  ghost predicate IsGraphOf(m: Manifests, graph: Graph)
    requires forall member | member in m.members :: member in m.crates
  {
    && (forall p :: p in graph <==> exists member :: member in m.members && m.crates[member].package == p)
    && (forall member | member in m.members ::
          m.crates[member].package in graph && IsCrateOf(m, member, graph[m.crates[member].package]))
  }

  ghost predicate IsCrateOf(m: Manifests, member: string, c: Crate)
    requires member in m.crates && forall other | other in m.members :: other in m.crates
  {
    && c.dir == member
    && forall q :: q in c.deps <==> exists d, other ::
         d in m.crates[member].dependencies && other in m.members && LeadsTo(m, member, d, other)
         && m.crates[other].package == q
  }

  ghost predicate MembersLoad(m: Manifests, members: seq<string>, strict: bool) {
    && (forall member | member in members :: member in m.crates)
    && (strict ==> (forall member | member in members :: IsPlainMember(member)) && AllDiffer(m, members))
  }

  ghost predicate AllDiffer(m: Manifests, members: seq<string>)
    requires forall member | member in members :: member in m.crates
  {
    forall i, j | 0 <= i < j < |members| ::
      members[i] != members[j] && m.crates[members[i]].package != m.crates[members[j]].package
  }

  lemma {:induction false} MembersMean(m: Manifests, members: seq<string>, strict: bool)
    ensures LoadMembers(m, members, strict).Some? <==> MembersLoad(m, members, strict)
    ensures LoadMembers(m, members, strict).Some? ==>
              var ms := LoadMembers(m, members, strict).value;
              && (forall d :: d in ms.byDir <==> d in members)
              && (forall p :: p in ms.byPackage <==> exists d :: d in members && m.crates[d].package == p)
              && (forall d | d in members :: ms.byDir[d] == m.crates[d].package)
    ensures LoadMembers(m, members, strict).Some? && AllDiffer(m, members) ==>
              forall d | d in members :: LoadMembers(m, members, strict).value.byPackage[m.crates[d].package] == d
  {
    hide SupportedLayout, IsPlainMember;
    if members != [] {
      var n := |members| - 1;
      var front, last := members[..n], members[n];
      assert members == front + [last];
      MembersMean(m, front, strict);
      PlainLayout(last);
      if MembersLoad(m, front, strict) && last in m.crates { DifferOneMore(m, front, last); }
    }
  }

  lemma PlainLayout(member: string)
    ensures SupportedLayout(member) <==> IsPlainMember(member)
  {
  }

  lemma DifferOneMore(m: Manifests, front: seq<string>, last: string)
    requires (forall member | member in front :: member in m.crates) && last in m.crates
    ensures AllDiffer(m, front + [last]) <==>
              && AllDiffer(m, front) && last !in front
              && !exists d :: d in front && m.crates[d].package == m.crates[last].package
  {
    var members := front + [last];
    assert members[|front|] == last && forall i | 0 <= i < |front| :: members[i] == front[i];
    if AllDiffer(m, members) {
      forall d | d in front ensures d != last && m.crates[d].package != m.crates[last].package {
        var i :| 0 <= i < |front| && front[i] == d;
        assert members[i] == d;
      }
    }
  }

  lemma PathMeans(m: Manifests, member: string, d: Dependency, parts: seq<string>)
    ensures TargetParts(m, member, d) == Some(parts) <==> HasPath(m, member, d, parts)
  {
  }

  lemma FailsMeans(m: Manifests, byDir: map<string, string>, member: string, d: Dependency, strict: bool)
    requires forall dir :: dir in byDir <==> dir in m.members
    ensures DependencyFails(m, byDir, member, d, strict) <==> !IsResolved(m, member, d, strict)
  {
    forall parts ensures TargetParts(m, member, d) == Some(parts) <==> HasPath(m, member, d, parts) {
      PathMeans(m, member, d, parts);
    }
    hide HasPath, Normalize, TargetParts, Join;
    if TargetParts(m, member, d).Some? { assert HasPath(m, member, d, TargetParts(m, member, d).value); }
  }

  lemma LocalMeans(m: Manifests, byDir: map<string, string>, member: string, d: Dependency, q: string)
    requires forall member | member in m.members :: member in m.crates
    requires forall dir :: dir in byDir <==> dir in m.members
    requires forall dir | dir in m.members :: byDir[dir] == m.crates[dir].package
    ensures ResolveTarget(m, byDir, member, d) == Local(q) <==>
              exists other :: other in m.members && LeadsTo(m, member, d, other) && m.crates[other].package == q
  {
    forall parts ensures TargetParts(m, member, d) == Some(parts) <==> HasPath(m, member, d, parts) {
      PathMeans(m, member, d, parts);
    }
    hide HasPath, Normalize, TargetParts, Join;
    if ResolveTarget(m, byDir, member, d) == Local(q) {
      var parts := TargetParts(m, member, d).value;
      assert HasPath(m, member, d, parts);
      assert LeadsTo(m, member, d, Join(Normalize(parts).value));
    }
  }

  lemma CrateMeans(m: Manifests, byDir: map<string, string>, member: string, c: Crate)
    requires (forall member | member in m.members :: member in m.crates) && member in m.members
    requires forall dir :: dir in byDir <==> dir in m.members
    requires forall dir | dir in m.members :: byDir[dir] == m.crates[dir].package
    requires c == Crate(member, DepSet(m, byDir, member, m.crates[member].dependencies))
    ensures IsCrateOf(m, member, c)
  {
    var ds := m.crates[member].dependencies;
    forall q
      ensures q in c.deps <==> exists d, other ::
                d in ds && other in m.members && LeadsTo(m, member, d, other) && m.crates[other].package == q {
      forall d ensures ResolveTarget(m, byDir, member, d) == Local(q) <==>
                         exists other ::
                           other in m.members && LeadsTo(m, member, d, other) && m.crates[other].package == q {
        LocalMeans(m, byDir, member, d, q);
      }
      hide LeadsTo, ResolveTarget;
      if d, other :| d in ds && other in m.members && LeadsTo(m, member, d, other) && m.crates[other].package == q {
        assert ResolveTarget(m, byDir, member, d) == Local(q);
        var i :| 0 <= i < |ds| && ds[i] == d;
      }
    }
  }

  lemma CratesLoad(m: Manifests, ms: Members, strict: bool)
    requires forall member | member in m.members :: member in m.crates
    requires forall d :: d in ms.byDir <==> d in m.members
    requires forall p | p in ms.byPackage :: ms.byPackage[p] in m.members
    requires forall d | d in m.members ::
               m.crates[d].package in ms.byPackage && ms.byPackage[m.crates[d].package] == d
    ensures (exists p :: p in ms.byPackage && CrateFails(m, ms.byDir, ms.byPackage[p], strict)) <==>
              exists member :: member in m.members
                && ((strict && m.crates[member].buildScript)
                    || exists d :: d in m.crates[member].dependencies && !IsResolved(m, member, d, strict))
  {
    forall member, d ensures DependencyFails(m, ms.byDir, member, d, strict) <==> !IsResolved(m, member, d, strict) {
      FailsMeans(m, ms.byDir, member, d, strict);
    }
    hide DependencyFails, IsResolved;
    if member :| member in m.members
                 && ((strict && m.crates[member].buildScript)
                     || exists d :: d in m.crates[member].dependencies && !IsResolved(m, member, d, strict)) {
      assert CrateFails(m, ms.byDir, ms.byPackage[m.crates[member].package], strict);
    }
  }

  lemma DifferMeans(m: Manifests)
    requires forall member | member in m.members :: member in m.crates
    ensures AllDiffer(m, m.members) <==> DistinctMembers(m)
  {
    if DistinctMembers(m) {
      forall i, j | 0 <= i < j < |m.members|
        ensures m.members[i] != m.members[j]
                && m.crates[m.members[i]].package != m.crates[m.members[j]].package {
        assert m.members[i] in m.members && m.members[j] in m.members;
      }
    }
  }

  /** The strict reader accepts exactly the workspaces whose members are plain, distinct, without build scripts, and
      depend by path on members alone; the lenient reader, where members are distinct, exactly those whose paths can be
      normalized. The graph has one crate for every member, which depends on the members its paths lead to. */
  lemma LoadMeans(m: Manifests, strict: bool)
    requires strict || DistinctMembers(m)
    ensures LoadWorkspace(m, strict).Some? <==> IsLoadable(m, strict)
    ensures LoadWorkspace(m, strict).Some? ==>
              (forall member | member in m.members :: member in m.crates)
              && IsGraphOf(m, LoadWorkspace(m, strict).value)
  {
    hide *;
    MembersLoadIff(m, strict);
    if LoadMembers(m, m.members, strict).Some? { GraphLoads(m, strict); }
    NothingLoads(m, strict);
    LoadableMeans(m, strict);
  }

  /** What the members have to satisfy, and what each crate. */
  ghost predicate CratesResolve(m: Manifests, strict: bool)
    requires forall member | member in m.members :: member in m.crates
  {
    forall member | member in m.members ::
      && (strict ==> !m.crates[member].buildScript)
      && forall d | d in m.crates[member].dependencies :: IsResolved(m, member, d, strict)
  }

  lemma LoadableMeans(m: Manifests, strict: bool)
    ensures IsLoadable(m, strict) <==>
              (forall member | member in m.members :: member in m.crates)
              && MembersLoad(m, m.members, strict) && CratesResolve(m, strict)
  {
    if forall member | member in m.members :: member in m.crates { DifferMeans(m); }
    hide IsResolved, IsPlainMember, AllDiffer, DistinctMembers;
  }

  lemma MembersLoadIff(m: Manifests, strict: bool)
    ensures LoadMembers(m, m.members, strict).Some? <==> MembersLoad(m, m.members, strict)
    ensures MembersLoad(m, m.members, strict) ==> forall member | member in m.members :: member in m.crates
  {
    MembersMean(m, m.members, strict);
  }

  lemma NothingLoads(m: Manifests, strict: bool)
    ensures LoadMembers(m, m.members, strict).None? ==> LoadWorkspace(m, strict).None?
  {
  }

  lemma GraphLoads(m: Manifests, strict: bool)
    requires (strict || DistinctMembers(m)) && LoadMembers(m, m.members, strict).Some?
    ensures forall member | member in m.members :: member in m.crates
    ensures LoadWorkspace(m, strict).Some? <==> CratesResolve(m, strict)
    ensures LoadWorkspace(m, strict).Some? ==> IsGraphOf(m, LoadWorkspace(m, strict).value)
  {
    hide LoadMembers, IsResolved, DistinctMembers, DepSet, CrateFails, IsGraphOf;
    var ms := LoadMembers(m, m.members, strict).value;
    LoadedMembers(m, strict);
    CratesLoad(m, ms, strict);
    if LoadWorkspace(m, strict).Some? {
      MembersGiveGraph(m, ms, LoadWorkspace(m, strict).value);
    }
  }

  lemma LoadedMembers(m: Manifests, strict: bool)
    requires (strict || DistinctMembers(m)) && LoadMembers(m, m.members, strict).Some?
    ensures var ms := LoadMembers(m, m.members, strict).value;
      && (forall member | member in m.members :: member in m.crates)
      && (forall d :: d in ms.byDir <==> d in m.members)
      && (forall d | d in m.members :: ms.byDir[d] == m.crates[d].package)
      && (forall p :: p in ms.byPackage <==> exists d :: d in m.members && m.crates[d].package == p)
      && (forall d | d in m.members ::
            m.crates[d].package in ms.byPackage && ms.byPackage[m.crates[d].package] == d)
      && (forall p | p in ms.byPackage :: ms.byPackage[p] in m.members)
  {
    MembersMean(m, m.members, strict);
    if forall member | member in m.members :: member in m.crates { DifferMeans(m); }
    hide LoadMembers, IsPlainMember, AllDiffer, DistinctMembers;
  }

  lemma MembersGiveGraph(m: Manifests, ms: Members, graph: Graph)
    requires forall member | member in m.members :: member in m.crates
    requires (forall d :: d in ms.byDir <==> d in m.members)
             && forall d | d in m.members :: ms.byDir[d] == m.crates[d].package
    requires forall p :: p in ms.byPackage <==> exists d :: d in m.members && m.crates[d].package == p
    requires forall d | d in m.members :: ms.byPackage[m.crates[d].package] == d
    requires graph == map p | p in ms.byPackage && ms.byPackage[p] in m.crates ::
                        Crate(ms.byPackage[p],
                          DepSet(m, ms.byDir, ms.byPackage[p], m.crates[ms.byPackage[p]].dependencies))
    ensures IsGraphOf(m, graph)
  {
    hide *;
    forall member | member in m.members
      ensures m.crates[member].package in graph
              && graph[m.crates[member].package]
                 == Crate(member, DepSet(m, ms.byDir, member, m.crates[member].dependencies)) {
      assert ms.byPackage[m.crates[member].package] == member;
    }
    assert forall p :: p in graph <==> exists member :: member in m.members && m.crates[member].package == p;
    MembersAreCrates(m, ms, graph);
  }

  lemma MembersAreCrates(m: Manifests, ms: Members, graph: Graph)
    requires forall member | member in m.members :: member in m.crates
    requires (forall d :: d in ms.byDir <==> d in m.members)
             && forall d | d in m.members :: ms.byDir[d] == m.crates[d].package
    requires forall p :: p in graph <==> exists member :: member in m.members && m.crates[member].package == p
    requires forall member | member in m.members ::
               m.crates[member].package in graph
               && graph[m.crates[member].package]
                  == Crate(member, DepSet(m, ms.byDir, member, m.crates[member].dependencies))
    ensures IsGraphOf(m, graph)
  {
    hide IsCrateOf, DepSet;
    forall member | member in m.members
      ensures m.crates[member].package in graph && IsCrateOf(m, member, graph[m.crates[member].package]) {
      CrateMeans(m, ms.byDir, member, graph[m.crates[member].package]);
    }
  }
}

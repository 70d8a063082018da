/** Which components a changed path marks, and which files a component's source inventory holds. */
module Inventory {
  import opened Basics
  import opened Workspace
  import opened Ordering

  const RUST_COMPONENTS: map<string, string> := map[
    "auth" := "auth-service", "control" := "admin-service", "ingest" := "ingest-gateway",
    "process" := "stream-processor", "store-clickhouse" := "storage-writer", "query" := "query-api",
    "alerting" := "alert-evaluator"]

  const ALL_COMPONENTS: seq<string> :=
    ["auth", "control", "ingest", "process", "store-clickhouse", "query", "alerting", "web"]

  const GLOBAL_RUST_PATHS: set<string> := {
    "Cargo.toml", "Cargo.lock", "Dockerfile", ".dockerignore", ".github/workflows/build.yml",
    "scripts/build-component-images.sh", "scripts/ci-changed-surfaces.sh", "scripts/ci_changed_components.py"}

  const WEB_PATHS: set<string> := {"package.json", "package-lock.json"}

  const BUILD_SCRIPTS: set<string> := {
    ".github/workflows/build.yml", "scripts/build-component-images.sh", "scripts/ci_changed_components.py",
    "scripts/ci-changed-surfaces.sh", "scripts/collect_component_source.py"}

  const COLLECTOR: string := "scripts/collect_component_source.py"

  /* ----- what a changed path marks ----- */

  predicate Under(dir: string, path: string) { path == dir || dir + "/" <= path }

  predicate IsOwner(graph: Graph, p: string, path: string) {
    p in graph && Under(graph[p].dir, path)
    && forall q | q in graph && Under(graph[q].dir, path) :: |graph[q].dir| <= |graph[p].dir|
  }

  lemma UnderPrefix(dir: string, path: string)
    ensures Under(dir, path) ==> dir <= path
  {
    if dir + "/" <= path { assert dir == (dir + "/")[..|dir|]; }
  }

  lemma OwnerUnique(graph: Graph, p: string, q: string, path: string)
    requires DistinctDirs(graph) && IsOwner(graph, p, path) && IsOwner(graph, q, path)
    ensures p == q
  {
    UnderPrefix(graph[p].dir, path);
    UnderPrefix(graph[q].dir, path);
    assert graph[p].dir == path[..|graph[p].dir|] && graph[q].dir == path[..|graph[q].dir|];
  }

  lemma {:induction false} OwnerExists(graph: Graph, candidates: set<string>, path: string) returns (p: string)
    requires candidates != {} && forall c | c in candidates :: c in graph && Under(graph[c].dir, path)
    ensures p in candidates && forall c | c in candidates :: |graph[c].dir| <= |graph[p].dir|
    decreases candidates
  {
    var c :| c in candidates;
    if candidates - {c} == {} {
      p := c;
      assert candidates == {c};
    } else {
      var q := OwnerExists(graph, candidates - {c}, path);
      p := if |graph[c].dir| > |graph[q].dir| then c else q;
      assert forall x | x in candidates && x != c :: x in candidates - {c};
    }
  }

  /** The crate with the longest directory above the path. */
  function Owner(graph: Graph, path: string): (o: Option<string>)
    requires DistinctDirs(graph)
    ensures o.Some? ==> IsOwner(graph, o.value, path)
    ensures o.None? ==> forall p | p in graph :: !Under(graph[p].dir, path)
  {
    if !exists p :: p in graph && Under(graph[p].dir, path) then None
    else
      assert exists p :: IsOwner(graph, p, path) by {
        var some :| some in graph && Under(graph[some].dir, path);
        var candidates := set p | p in graph && Under(graph[p].dir, path);
        assert some in candidates;
        var p := OwnerExists(graph, candidates, path);
        assert IsOwner(graph, p, path);
      }
      assert forall p, q | IsOwner(graph, p, path) && IsOwner(graph, q, path) :: p == q by {
        forall p, q | IsOwner(graph, p, path) && IsOwner(graph, q, path)
          ensures p == q { OwnerUnique(graph, p, q, path); }
      }
      var p :| p in graph && IsOwner(graph, p, path);
      Some(p)
  }

  predicate FeedsEveryImage(path: string) { path in GLOBAL_RUST_PATHS || "proto/" <= path }

  predicate FeedsWeb(path: string) { path in WEB_PATHS || "apps/frontend/" <= path }

  predicate InWorkspaceArea(path: string) { "libs/" <= path || "services/" <= path }

  /** The components that one path marks. */
  ghost function Marks(graph: Graph, path: string): set<string>
    requires DistinctDirs(graph)
  {
    if FeedsEveryImage(path) then RUST_COMPONENTS.Keys
    else if FeedsWeb(path) then {"web"}
    else
      match Owner(graph, path)
      case None => if InWorkspaceArea(path) then RUST_COMPONENTS.Keys else {}
      case Some(o) => set c | c in RUST_COMPONENTS && o in Dependencies(graph, RUST_COMPONENTS[c])
  }

  ghost function MarkedBy(graph: Graph, paths: seq<string>): set<string>
    requires DistinctDirs(graph)
  {
    if paths == [] then {} else MarkedBy(graph, paths[..|paths| - 1]) + Marks(graph, paths[|paths| - 1])
  }

  function InOrder(components: seq<string>, marked: set<string>): (r: seq<string>)
    ensures forall c :: c in r <==> c in components && c in marked
  {
    if components == [] then []
    else (if components[0] in marked then [components[0]] else []) + InOrder(components[1..], marked)
  }

  /** Every component's package is in the graph, as `load_workspace` of this repository provides. */
  ghost predicate Ready(graph: Graph) {
    DistinctDirs(graph) && IsClosedGraph(graph) && forall c | c in RUST_COMPONENTS :: RUST_COMPONENTS[c] in graph
  }

  /** What the body of the loop adds for one path, given the closures of the packages. */
  function Touched(graph: Graph, reach: map<string, set<string>>, path: string): set<string>
    requires DistinctDirs(graph)
  {
    if FeedsEveryImage(path) then RUST_COMPONENTS.Keys
    else if FeedsWeb(path) then {"web"}
    else
      match Owner(graph, path)
      case None => if InWorkspaceArea(path) then RUST_COMPONENTS.Keys else {}
      case Some(o) => set c | c in reach && o in reach[c]
  }

  lemma TouchedIsMarked(graph: Graph, reach: map<string, set<string>>, path: string)
    requires DistinctDirs(graph) && reach.Keys == RUST_COMPONENTS.Keys
    requires forall c | c in RUST_COMPONENTS :: reach[c] == Dependencies(graph, RUST_COMPONENTS[c])
    ensures Touched(graph, reach, path) == Marks(graph, path)
  {
    hide Dependencies, FeedsEveryImage, FeedsWeb, InWorkspaceArea, DistinctDirs;
  }

  /** `affected_components`; without one of the packages it fails. */
  method AffectedComponents(graph: Graph, paths: seq<string>) returns (ok: bool, affected: seq<string>)
    requires DistinctDirs(graph)
    ensures ok <==> forall c | c in RUST_COMPONENTS :: Dependencies(graph, RUST_COMPONENTS[c]) <= graph.Keys
    ensures ok ==> affected == InOrder(ALL_COMPONENTS, MarkedBy(graph, paths))
    ensures Ready(graph) ==> ok
  {
    if Ready(graph) { ReadyHasClosures(graph); }
    hide Ready, Dependencies, Touched, Marks, DistinctDirs;
    var reach: map<string, set<string>>;
    ok, reach := ClosuresOf(graph, RUST_COMPONENTS);
    affected := [];
    if !ok { return; }
    var marked: set<string> := {};
    for i := 0 to |paths|
      invariant marked == MarkedBy(graph, paths[..i])
    {
      assert paths[..i + 1][..i] == paths[..i];
      var path := paths[i];
      TouchedIsMarked(graph, reach, path);
      marked := marked + Touched(graph, reach, path);
    }
    assert paths[..|paths|] == paths;
    affected := InOrder(ALL_COMPONENTS, marked);
  }

  /** `{component: closure(graph, package) for ...}` */
  method ClosuresOf(graph: Graph, packages: map<string, string>) returns (ok: bool, reach: map<string, set<string>>)
    ensures ok <==> forall c | c in packages :: Dependencies(graph, packages[c]) <= graph.Keys
    ensures ok
            ==> reach.Keys == packages.Keys && forall c | c in packages :: reach[c] == Dependencies(graph, packages[c])
  {
    hide Dependencies;
    var left := packages.Keys;
    reach := map[];
    while left != {}
      invariant left !! reach.Keys && left + reach.Keys == packages.Keys
      invariant forall c | c in reach :: reach[c] == Dependencies(graph, packages[c]) <= graph.Keys
    {
      var c :| c in left;
      var r := FindClosure(graph, packages[c]);
      if r.KeyError? { return false, reach; }
      reach := reach[c := r.seen];
      left := left - {c};
    }
    ok := true;
  }

  lemma ReadyHasClosures(graph: Graph)
    requires Ready(graph)
    ensures forall c | c in RUST_COMPONENTS :: Dependencies(graph, RUST_COMPONENTS[c]) <= graph.Keys
  {
    forall c | c in RUST_COMPONENTS ensures Dependencies(graph, RUST_COMPONENTS[c]) <= graph.Keys {
      ClosedGraphContains(graph, RUST_COMPONENTS[c]);
    }
  }

  lemma {:induction false} MarkedByEach(graph: Graph, paths: seq<string>, c: string)
    requires DistinctDirs(graph)
    ensures c in MarkedBy(graph, paths) <==> exists p :: p in paths && c in Marks(graph, p)
  {
    if paths != [] {
      MarkedByEach(graph, paths[..|paths| - 1], c);
      assert paths == paths[..|paths| - 1] + [paths[|paths| - 1]];
    }
  }

  /** The affected components of a union are the union of the affected components, whatever the order and the
      repetitions. */
  lemma MarkedByUnion(graph: Graph, a: seq<string>, b: seq<string>, both: seq<string>)
    requires DistinctDirs(graph) && forall p :: p in both <==> p in a || p in b
    ensures MarkedBy(graph, both) == MarkedBy(graph, a) + MarkedBy(graph, b)
  {
    forall c ensures c in MarkedBy(graph, both) <==> c in MarkedBy(graph, a) || c in MarkedBy(graph, b) {
      MarkedByEach(graph, a, c);
      MarkedByEach(graph, b, c);
      MarkedByEach(graph, both, c);
    }
  }

  /* ----- the source inventory ----- */

  datatype Collected = InvalidSource | Selected(paths: set<string>)

  predicate UnderAny(path: string, dirs: set<string>) {
    exists d :: d in dirs && d + "/" <= path
  }

  ghost function DirsOf(graph: Graph, packages: set<string>): set<string> {
    set p | p in graph && p in packages :: graph[p].dir
  }

  ghost function RustSelection(graph: Graph, entries: set<string>, component: string): set<string>
    requires component in RUST_COMPONENTS
  {
    {"Dockerfile", ".dockerignore", "Cargo.toml", "Cargo.lock"}
    + (set p | p in graph :: graph[p].dir + "/Cargo.toml")
    + (set path | path in entries && (UnderAny(path, DirsOf(graph, Dependencies(graph, RUST_COMPONENTS[component])))
         || "proto/" <= path || path in BUILD_SCRIPTS))
  }

  ghost function WebSelection(entries: set<string>): set<string> {
    {"apps/frontend/Dockerfile", ".dockerignore", "package.json", "package-lock.json", "apps/frontend/package.json"}
    + set path | path in entries && ("apps/frontend/" <= path || path in BUILD_SCRIPTS)
  }

  ghost predicate KnownLayout(graph: Graph, entries: set<string>) {
    forall path | path in entries && InWorkspaceArea(path) ::
      UnderAny(path, DirsOf(graph, graph.Keys)) || "services/.junie/" <= path
  }

  /** `_collect` after the recipe and the workspace have been read: `entries` are the files of the tree, `regular` those
      that `read_many` accepts. */
  ghost predicate Collects(
    graph: Graph, entries: set<string>, regular: set<string>, component: string, selected: set<string>) {
    if component == "web" then
      selected == WebSelection(entries) && selected <= regular
    else
      && component in RUST_COMPONENTS && RUST_COMPONENTS[component] in graph
      && KnownLayout(graph, entries)
      && (exists path :: path in entries && "proto/otlp/" <= path)
      && selected == RustSelection(graph, entries, component)
      && (forall path | path in selected :: !EndsWith(path, "/build.rs"))
      && selected <= regular
  }

  predicate EndsWith(s: string, suffix: string) { |suffix| <= |s| && s[|s| - |suffix|..] == suffix }

  method Collect(graph: Graph, entries: set<string>, regular: set<string>, component: string) returns (r: Collected)
    requires regular <= entries && IsClosedGraph(graph)
    ensures match r
      case InvalidSource => forall s :: !Collects(graph, entries, regular, component, s)
      case Selected(s) => Collects(graph, entries, regular, component, s)
  {
    hide Dependencies;
    if component !in ALL_COMPONENTS { return InvalidSource; }
    var selected: set<string>;
    if component == "web" {
      selected :=
        {"apps/frontend/Dockerfile", ".dockerignore", "package.json", "package-lock.json",
          "apps/frontend/package.json"};
      selected := selected + set path | path in entries && ("apps/frontend/" <= path || path in BUILD_SCRIPTS);
      assert selected == WebSelection(entries);
    } else {
      if RUST_COMPONENTS[component] !in graph { return InvalidSource; }
      selected := {"Dockerfile", ".dockerignore", "Cargo.toml", "Cargo.lock"};
      selected := selected + set p | p in graph :: graph[p].dir + "/Cargo.toml";
      ClosedGraphContains(graph, RUST_COMPONENTS[component]);
      var closure := FindClosure(graph, RUST_COMPONENTS[component]);
      var directories := set p | p in graph && p in closure.seen :: graph[p].dir;
      var known := set p | p in graph :: graph[p].dir;
      assert known == DirsOf(graph, graph.Keys);
      if exists path ::
        path in entries && InWorkspaceArea(path) && !UnderAny(path, known) && !("services/.junie/" <= path) {
        return InvalidSource;
      }
      if !exists path :: path in entries && "proto/otlp/" <= path { return InvalidSource; }
      selected := selected + set path | path in entries
                    && (UnderAny(path, directories) || "proto/" <= path || path in BUILD_SCRIPTS);
      assert selected == RustSelection(graph, entries, component);
      if exists path :: path in selected && EndsWith(path, "/build.rs") { return InvalidSource; }
    }
    if !(selected <= regular) { return InvalidSource; }
    r := Selected(selected);
  }

  /* ----- the two scripts agree ----- */

  /** No file of the tree is also a directory of it. */
  ghost predicate IsTree(entries: set<string>) {
    forall p, q | p in entries && q in entries :: !(p + "/" <= q)
  }

  /** A path that no crate owns, in an area where all code belongs to a crate. */
  ghost predicate Unowned(graph: Graph, path: string) {
    InWorkspaceArea(path) && forall p | p in graph :: !Under(graph[p].dir, path)
  }

  lemma DirectoryIsNoFile(entries: set<string>, dir: string, path: string)
    requires IsTree(entries) && path in entries && dir + "/Cargo.toml" in entries
    ensures path != dir
  {
    assert dir + "/" <= dir + "/Cargo.toml" by { assert dir + "/Cargo.toml" == (dir + "/") + "Cargo.toml"; }
  }

  lemma OwnedIsSelected(graph: Graph, entries: set<string>, component: string, o: string, path: string)
    requires component in RUST_COMPONENTS && path in entries && o in graph && Under(graph[o].dir, path)
    requires o in Dependencies(graph, RUST_COMPONENTS[component])
    requires IsTree(entries) && graph[o].dir + "/Cargo.toml" in entries
    ensures path in RustSelection(graph, entries, component)
  {
    var dir := graph[o].dir;
    DirectoryIsNoFile(entries, dir, path);
    assert dir in DirsOf(graph, Dependencies(graph, RUST_COMPONENTS[component]));
  }

  /** A file of the tree that marks a component is in that component's source inventory exactly if it is not unowned;
      and an accepted tree has unowned files under `services/.junie/` only. */
  lemma MarkedFilesAreCollected(
    graph: Graph, entries: set<string>, regular: set<string>, component: string, selected: set<string>, path: string)
    requires Ready(graph) && IsTree(entries) && regular <= entries
    requires Collects(graph, entries, regular, component, selected)
    requires path in entries && component in Marks(graph, path)
    ensures path in selected <==> !Unowned(graph, path)
    ensures Unowned(graph, path) ==> "services/.junie/" <= path
  {
    WebIsNotRust();
    if InWorkspaceArea(path) { AreaIsNoInput(path); }
    if component != "web" {
      if path in selected { SelectionReason(graph, entries, component, path); }
      if !FeedsEveryImage(path) && !FeedsWeb(path) {
        match Owner(graph, path) {
          case Some(o) =>
            assert graph[o].dir + "/Cargo.toml" in selected;
            OwnedIsSelected(graph, entries, component, o, path);
          case None => UnownedIsJunie(graph, entries, path);
        }
      }
    }
  }

  /** Paths of the workspace area are none of the fixed inputs. */
  lemma AreaIsNoInput(path: string)
    requires InWorkspaceArea(path)
    ensures !FeedsEveryImage(path) && !FeedsWeb(path) && path != COLLECTOR
  {
    assert path[0] == 'l' || path[1] == 'e';
    assert path[0] == 'l' || path[0] == 's';
    assert COLLECTOR[0] == 's' && COLLECTOR[1] == 'c';
    forall g | g in GLOBAL_RUST_PATHS ensures g[0] != 'l' && g[1] != 'e' {
    }
    forall g | g in WEB_PATHS ensures g[0] == 'p' {
    }
  }

  lemma WebIsNotRust()
    ensures "web" !in RUST_COMPONENTS
  {
    assert forall c | c in RUST_COMPONENTS :: |c| != 3;
  }

  lemma UnownedIsJunie(graph: Graph, entries: set<string>, path: string)
    requires KnownLayout(graph, entries) && path in entries && Unowned(graph, path)
    ensures "services/.junie/" <= path
  {
    forall d | d in DirsOf(graph, graph.Keys) ensures !(d + "/" <= path) {
      var p :| p in graph && graph[p].dir == d;
      assert !Under(graph[p].dir, path);
    }
  }

  lemma ManifestIsOwned(graph: Graph, p: string)
    requires p in graph
    ensures Under(graph[p].dir, graph[p].dir + "/Cargo.toml")
  {
    assert graph[p].dir + "/Cargo.toml" == (graph[p].dir + "/") + "Cargo.toml";
  }

  /** Why a path is in a Rust selection: it feeds every image, it is the collector, or a crate directory is above it. */
  lemma SelectionReason(graph: Graph, entries: set<string>, component: string, path: string)
    requires component in RUST_COMPONENTS && path in RustSelection(graph, entries, component)
    ensures FeedsEveryImage(path) || path == COLLECTOR || exists p :: p in graph && Under(graph[p].dir, path)
  {
    hide Dependencies;
    if path in (set p | p in graph :: graph[p].dir + "/Cargo.toml") {
      var p :| p in graph && graph[p].dir + "/Cargo.toml" == path;
      ManifestIsOwned(graph, p);
    } else if UnderAny(path, DirsOf(graph, Dependencies(graph, RUST_COMPONENTS[component]))) {
      var d :| d in DirsOf(graph, Dependencies(graph, RUST_COMPONENTS[component])) && d + "/" <= path;
      var p :| p in graph && graph[p].dir == d;
      assert Under(graph[p].dir, path);
    } else {
      FixedReason(path);
    }
  }

  lemma FixedReason(path: string)
    requires path in {"Dockerfile", ".dockerignore", "Cargo.toml", "Cargo.lock"} || "proto/" <= path
             || path in BUILD_SCRIPTS
    ensures FeedsEveryImage(path) || path == COLLECTOR
  {
  }

  /** The graph is the strictly read one of this repository. */
  ghost predicate ReadyLayout(graph: Graph) {
    Ready(graph) && forall p | p in graph :: SupportedLayout(graph[p].dir)
  }

  lemma OwnedIsInArea(graph: Graph, p: string, path: string)
    requires ReadyLayout(graph) && p in graph && Under(graph[p].dir, path)
    ensures InWorkspaceArea(path) && !FeedsEveryImage(path) && !FeedsWeb(path) && path != COLLECTOR
  {
    UnderPrefix(graph[p].dir, path);
    AreaIsNoInput(path);
  }

  /** The other direction: a file of a Rust inventory does not mark the component exactly if it is the collector script,
      or its nearest crate is outside the component's dependencies. */
  lemma CollectedFilesMark(
    graph: Graph, entries: set<string>, regular: set<string>, component: string, selected: set<string>, path: string)
    requires ReadyLayout(graph) && component != "web" && Collects(graph, entries, regular, component, selected)
             && path in selected
    ensures component !in Marks(graph, path) <==>
              path == COLLECTOR
              || (Owner(graph, path).Some?
                  && Owner(graph, path).value !in Dependencies(graph, RUST_COMPONENTS[component]))
  {
    hide Dependencies, FeedsEveryImage, FeedsWeb;
    SelectionReason(graph, entries, component, path);
    CollectorUnmarked(graph);
    match Owner(graph, path)
    case Some(o) => OwnedIsInArea(graph, o, path);
    case None =>
  }

  /** A file of the web inventory does not mark the web component exactly if it is one of the inputs that it shares. */
  lemma CollectedWebFilesMark(graph: Graph, entries: set<string>, path: string)
    requires DistinctDirs(graph) && path in entries && path in WebSelection(entries)
    ensures "web" !in Marks(graph, path) <==> path == ".dockerignore" || path in BUILD_SCRIPTS
  {
    WebIsNotRust();
    if path == ".dockerignore" || path in BUILD_SCRIPTS {
      SharedIsNotWeb(path);
    } else {
      WebIsNotShared(path);
    }
  }

  lemma SharedIsNotWeb(path: string)
    requires path == ".dockerignore" || path in BUILD_SCRIPTS
    ensures FeedsEveryImage(path) || (path == COLLECTOR && !FeedsWeb(path))
  {
    if path == COLLECTOR { CollectorIsNoInput(); }
  }

  lemma WebIsNotShared(path: string)
    requires path == "apps/frontend/Dockerfile" || path == "package.json" || path == "package-lock.json"
             || path == "apps/frontend/package.json" || "apps/frontend/" <= path
    ensures FeedsWeb(path) && !FeedsEveryImage(path)
  {
    assert path[0] == 'a' || (path[0] == 'p' && path[1] == 'a');
    forall g | g in GLOBAL_RUST_PATHS ensures g[0] != 'a' && g[0] != 'p' {
    }
  }

  /** A collected file marks no component at all exactly if it is the collector script or the file of a crate that no
      component depends on. */
  lemma CollectedMarksNothing(
    graph: Graph, entries: set<string>, regular: set<string>, component: string, selected: set<string>, path: string)
    requires ReadyLayout(graph) && regular <= entries && Collects(graph, entries, regular, component, selected)
             && path in selected
    ensures Marks(graph, path) == {} <==>
              path == COLLECTOR
              || (Owner(graph, path).Some?
                  && forall c | c in RUST_COMPONENTS ::
                        Owner(graph, path).value !in Dependencies(graph, RUST_COMPONENTS[c]))
  {
    if component == "web" { WebSelectionReason(entries, path); }
    else { SelectionReason(graph, entries, component, path); }
    hide Collects;
    MarksNothingIff(graph, path);
  }

  lemma MarksNothingIff(graph: Graph, path: string)
    requires ReadyLayout(graph)
    requires FeedsEveryImage(path) || FeedsWeb(path) || path == COLLECTOR || Owner(graph, path).Some?
    ensures Marks(graph, path) == {} <==>
              path == COLLECTOR
              || (Owner(graph, path).Some?
                  && forall c | c in RUST_COMPONENTS ::
                        Owner(graph, path).value !in Dependencies(graph, RUST_COMPONENTS[c]))
  {
    hide Dependencies, FeedsEveryImage, FeedsWeb, SupportedLayout;
    CollectorUnmarked(graph);
    SomeRustComponent();
    match Owner(graph, path)
    case Some(o) =>
      OwnedIsInArea(graph, o, path);
      assert forall c | c in RUST_COMPONENTS ::
        c in Marks(graph, path) <==> o in Dependencies(graph, RUST_COMPONENTS[c]);
    case None =>
  }

  lemma SomeRustComponent()
    ensures RUST_COMPONENTS.Keys != {}
  {
    assert "auth" in RUST_COMPONENTS;
  }

  lemma WebSelectionReason(entries: set<string>, path: string)
    requires path in WebSelection(entries)
    ensures FeedsEveryImage(path) || FeedsWeb(path) || path == COLLECTOR
  {
  }

  lemma LayoutNotCollector(dir: string)
    requires SupportedLayout(dir)
    ensures !Under(dir, COLLECTOR)
  {
    UnderPrefix(dir, COLLECTOR);
    assert COLLECTOR[1] == 'c' && COLLECTOR[0] == 's';
    assert dir[0] == 'l' || dir[1] == 'e';
  }

  lemma GlobalPathsAreShort(path: string)
    requires path in GLOBAL_RUST_PATHS
    ensures |path| < 35
  {
  }

  lemma CollectorIsNoInput()
    ensures !FeedsEveryImage(COLLECTOR) && !FeedsWeb(COLLECTOR) && !InWorkspaceArea(COLLECTOR)
  {
    assert |COLLECTOR| == 35 && COLLECTOR[0] == 's' && COLLECTOR[1] == 'c';
    if COLLECTOR in GLOBAL_RUST_PATHS { GlobalPathsAreShort(COLLECTOR); }
  }

  lemma CollectorUnmarked(graph: Graph)
    requires ReadyLayout(graph)
    ensures Marks(graph, COLLECTOR) == {} && Owner(graph, COLLECTOR).None?
    ensures !FeedsEveryImage(COLLECTOR) && !FeedsWeb(COLLECTOR)
  {
    CollectorIsNoInput();
    forall p | p in graph ensures !Under(graph[p].dir, COLLECTOR) { LayoutNotCollector(graph[p].dir); }
  }

  /** The collector script itself is part of every inventory of a tree that has it, yet a change of it marks nothing. */
  lemma CollectorMarksNothing(
    graph: Graph, entries: set<string>, regular: set<string>, component: string, selected: set<string>)
    requires ReadyLayout(graph) && regular <= entries && Collects(graph, entries, regular, component, selected)
    ensures COLLECTOR in selected <==> COLLECTOR in entries
    ensures Marks(graph, COLLECTOR) == {}
  {
    assert COLLECTOR in BUILD_SCRIPTS;
    CollectorUnmarked(graph);
  }

  /* ----- the rules, path by path ----- */

  /** The crate's directory is the longest one above the path. */
  ghost predicate Owns(graph: Graph, p: string, path: string) {
    && p in graph && (path == graph[p].dir || graph[p].dir + "/" <= path)
    && forall q | q in graph && (path == graph[q].dir || graph[q].dir + "/" <= path) ::
         |graph[q].dir| <= |graph[p].dir|
  }

  ghost predicate IsSharedInput(path: string) {
    || path in {"Cargo.toml", "Cargo.lock", "Dockerfile", ".dockerignore", ".github/workflows/build.yml",
                "scripts/build-component-images.sh", "scripts/ci-changed-surfaces.sh",
                "scripts/ci_changed_components.py"}
    || "proto/" <= path
  }

  ghost predicate IsWebInput(path: string) {
    path == "package.json" || path == "package-lock.json" || "apps/frontend/" <= path
  }

  /** A path marks every service if it is a shared input, or lies in `libs/` or `services/` and no crate owns it; the
      web component if it is a web input; and otherwise the services whose crate depends on the one that owns it. */
  lemma MarksMeans(graph: Graph, path: string, c: string)
    requires DistinctDirs(graph)
    ensures c in Marks(graph, path) <==>
              if IsSharedInput(path) then c in RUST_COMPONENTS
              else if IsWebInput(path) then c == "web"
              else
                && c in RUST_COMPONENTS
                && if exists p :: Owns(graph, p, path)
                   then exists p :: Owns(graph, p, path) && p in Dependencies(graph, RUST_COMPONENTS[c])
                   else "libs/" <= path || "services/" <= path
  {
    forall p ensures IsOwner(graph, p, path) <==> Owns(graph, p, path) {
    }
    SharedMeans(path);
    hide Dependencies, FeedsEveryImage, FeedsWeb, IsSharedInput, IsWebInput;
    match Owner(graph, path)
    case None =>
    case Some(o) =>
      assert Owns(graph, o, path);
      forall p | Owns(graph, p, path) ensures p == o { OwnerUnique(graph, p, o, path); }
      hide Owns, IsOwner;
  }

  lemma SharedMeans(path: string)
    ensures FeedsEveryImage(path) <==> IsSharedInput(path)
    ensures FeedsWeb(path) <==> IsWebInput(path)
  {
  }

  lemma EndsWithMeans(s: string, suffix: string)
    ensures EndsWith(s, suffix) <==> exists front :: s == front + suffix
  {
    if EndsWith(s, suffix) { assert s == s[..|s| - |suffix|] + suffix; }
    if front :| s == front + suffix { assert s[|s| - |suffix|..] == suffix; }
  }

  /** No file of the areas lies outside the crates, but for the notes of a tool. */
  lemma LayoutMeans(graph: Graph, entries: set<string>)
    ensures KnownLayout(graph, entries) <==>
              forall path | path in entries && ("libs/" <= path || "services/" <= path) ::
                "services/.junie/" <= path || exists p :: p in graph && graph[p].dir + "/" <= path
  {
    forall path ensures UnderAny(path, DirsOf(graph, graph.Keys)) <==>
                          exists p :: p in graph && graph[p].dir + "/" <= path {
      if p :| p in graph && graph[p].dir + "/" <= path { assert graph[p].dir in DirsOf(graph, graph.Keys); }
    }
  }
}

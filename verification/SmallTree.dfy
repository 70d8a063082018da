/** A tree that the source inventory accepts, with the collector script in it. */
module SmallTree {
  import opened Basics
  import opened Reach
  import opened Workspace
  import opened Inventory

  /** The seven packages, each a crate of its own below `services/`. */
  function Packages(): set<string> { RUST_COMPONENTS.Values }

  function DirOf(p: string): string { "services" + "/" + p }

  function TreeGraph(): Graph { map p | p in Packages() :: Crate(DirOf(p), {}) }

  function Manifest(p: string): string { DirOf(p) + "/Cargo.toml" }

  function FixedFiles(): set<string> {
    {"Dockerfile", ".dockerignore", "Cargo.toml", "Cargo.lock", "proto/otlp/trace.proto", COLLECTOR}
  }

  function Tree(): set<string> { FixedFiles() + set p | p in Packages() :: Manifest(p) }

  ghost predicate NoSlash(s: string) { forall i | 0 <= i < |s| :: s[i] != '/' }

  lemma {:induction false} SplitWhole(s: string)
    requires NoSlash(s)
    ensures Split(s, '/') == [s]
  {
    if s != [] {
      assert NoSlash(s[1..]);
      SplitWhole(s[1..]);
      assert [s[0]] + s[1..] == s;
    }
  }

  lemma {:induction false} SplitTwo(a: string, b: string)
    requires NoSlash(a) && NoSlash(b)
    ensures Split(a + "/" + b, '/') == [a, b]
  {
    var s := a + "/" + b;
    if a == [] {
      SplitWhole(b);
      assert s[0] == '/' && s[1..] == b;
    } else {
      assert NoSlash(a[1..]);
      SplitTwo(a[1..], b);
      assert s[0] == a[0] && s[1..] == a[1..] + "/" + b;
      assert [a[0]] + a[1..] == a;
    }
  }

  /** A package has a name of several letters without a slash. */
  predicate IsPackageName(p: string) { |p| >= 9 && forall i | 0 <= i < |p| :: p[i] != '/' }

  lemma NamesArePlain(p: string)
    requires p in Packages()
    ensures IsPackageName(p)
  {
    assert p in {"auth-service", "admin-service", "ingest-gateway", "stream-processor", "storage-writer", "query-api",
      "alert-evaluator"};
  }

  lemma LayoutSupported(p: string)
    requires IsPackageName(p)
    ensures SupportedLayout(DirOf(p))
  {
    SplitTwo("services", p);
    var parts := Split(DirOf(p), '/');
    assert parts == ["services", p];
    assert "services/" <= DirOf(p) by { assert "services" + "/" == "services/"; }
    assert |"services"| > 2 && |p| > 2;
    forall part | part in parts ensures part != ".." && part != "." && part != "*" {
      assert part == "services" || part == p;
      assert |part| > 2;
    }
  }

  lemma DirsDiffer(p: string, q: string)
    requires DirOf(p) == DirOf(q)
    ensures p == q
  {
    assert DirOf(p)[9..] == p && DirOf(q)[9..] == q;
  }

  lemma TreeIsReady()
    ensures ReadyLayout(TreeGraph())
  {
    var g := TreeGraph();
    forall p, q | p in g && q in g && g[p].dir == g[q].dir ensures p == q { DirsDiffer(p, q); }
    hide DirOf;
    forall p | p in g ensures SupportedLayout(g[p].dir) {
      NamesArePlain(p);
      LayoutSupported(p);
    }
  }

  /* ----- the tree is accepted ----- */

  lemma FixedOutside(path: string)
    requires path in FixedFiles()
    ensures !InWorkspaceArea(path) && path[|path| - 1] != 's' && |path| >= 10
  {
    assert COLLECTOR[0] == 's' && COLLECTOR[1] == 'c' && COLLECTOR[|COLLECTOR| - 1] == 'y';
    assert path[0] != 'l' && path[1] != 'e';
    OutsideArea(path);
  }

  lemma OutsideArea(path: string)
    requires |path| >= 2 && path[0] != 'l' && path[1] != 'e'
    ensures !InWorkspaceArea(path)
  {
    assert "libs/"[0] == 'l' && "services/"[1] == 'e';
  }

  lemma ManifestInside(p: string)
    ensures DirOf(p) + "/" <= Manifest(p) && Manifest(p)[|Manifest(p)| - 1] == 'l' && |Manifest(p)| >= 10
  {
    assert Manifest(p) == (DirOf(p) + "/") + "Cargo.toml";
  }

  lemma LastLetter(path: string)
    requires path in Tree()
    ensures path[|path| - 1] != 's' && !EndsWith(path, "/build.rs")
  {
    if path in FixedFiles() {
      FixedOutside(path);
    } else {
      var p :| p in Packages() && path == Manifest(p);
      ManifestInside(p);
    }
    OtherEnding(path);
  }

  lemma OtherEnding(path: string)
    requires path != "" && path[|path| - 1] != 's'
    ensures !EndsWith(path, "/build.rs")
  {
    var suffix := "/build.rs";
    assert suffix[|suffix| - 1] == 's';
  }

  lemma LayoutKnown()
    ensures KnownLayout(TreeGraph(), Tree())
  {
    forall path | path in Tree() && InWorkspaceArea(path)
      ensures UnderAny(path, DirsOf(TreeGraph(), TreeGraph().Keys)) {
      if path in FixedFiles() { FixedOutside(path); }
      var p :| p in Packages() && path == Manifest(p);
      ManifestInside(p);
      assert p in TreeGraph() && DirOf(p) in DirsOf(TreeGraph(), TreeGraph().Keys);
    }
  }

  lemma SelectionInTree()
    ensures RustSelection(TreeGraph(), Tree(), "auth") <= Tree()
  {
    hide Dependencies, InWorkspaceArea;
    forall p | p in TreeGraph() ensures TreeGraph()[p].dir + "/Cargo.toml" in Tree() {
      assert TreeGraph()[p].dir + "/Cargo.toml" == Manifest(p);
    }
  }

  /** The tree is read, its source is collected for a component, the collector script is in the inventory, and a change
      of the script marks no component. */
  lemma CollectorIsCollectedUnmarked()
    ensures var selected := RustSelection(TreeGraph(), Tree(), "auth");
      && ReadyLayout(TreeGraph()) && Collects(TreeGraph(), Tree(), Tree(), "auth", selected)
      && COLLECTOR in selected && Marks(TreeGraph(), COLLECTOR) == {}
  {
    hide TreeGraph, RustSelection, KnownLayout, ReadyLayout, EndsWith;
    var selected := RustSelection(TreeGraph(), Tree(), "auth");
    TreeIsReady();
    LayoutKnown();
    SelectionInTree();
    ComponentInTree();
    forall path | path in selected ensures !EndsWith(path, "/build.rs") { LastLetter(path); }
    assert Collects(TreeGraph(), Tree(), Tree(), "auth", selected);
    CollectorMarksNothing(TreeGraph(), Tree(), Tree(), "auth", selected);
    assert COLLECTOR in Tree();
  }

  lemma ComponentInTree()
    ensures "auth" in RUST_COMPONENTS && RUST_COMPONENTS["auth"] in TreeGraph() && |"auth"| != |"web"|
    ensures exists path :: path in Tree() && "proto/otlp/" <= path
  {
    var path := "proto/otlp/trace.proto";
    assert path in Tree() && "proto/otlp/" <= path;
  }
}

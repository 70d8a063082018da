/** The registry packages of a Cargo lock file, as `source_plan` accepts them. */
module CargoLock {
  import opened Basics
  import opened Decimal

  datatype Package = Package(name: string, version: string, checksum: string, url: string)

  datatype LockItem = LockItem(name: string, version: string, source: Option<string>, checksum: Option<string>)

  const REGISTRY: string := "registry+https://github.com/rust-lang/crates.io-index"

  predicate IsCrateChar(c: char) { 'A' <= c <= 'Z' || 'a' <= c <= 'z' || IsDigit(c) || c == '_' || c == '-' }

  /** `[A-Za-z0-9_][A-Za-z0-9_-]*` */
  predicate IsName(s: string) { s != [] && s[0] != '-' && forall i | 0 <= i < |s| :: IsCrateChar(s[i]) }

  predicate IsHexChecksum(s: string) { |s| == 64 && forall i | 0 <= i < |s| :: IsDigit(s[i]) || 'a' <= s[i] <= 'f' }

  predicate IsSuffixChar(c: char) { (IsCrateChar(c) && c != '_') || c == '.' || c == '+' }

  /** `[0-9]+(?:[-+][A-Za-z0-9.+-]+)?` */
  predicate IsPatch(s: string) {
    var n := DigitRun(s);
    n > 0 && (n == |s| || ((s[n] == '-' || s[n] == '+') && n + 1 < |s| && forall i | n < i < |s| :: IsSuffixChar(s[i])))
  }

  /** `[0-9]+\.[0-9]+\.` and a patch. */
  predicate IsVersion(s: string) {
    var n := DigitRun(s);
    n > 0 && n < |s| && s[n] == '.' &&
    var t := s[n + 1..];
    var m := DigitRun(t);
    m > 0 && m < |t| && t[m] == '.' && IsPatch(t[m + 1..])
  }

  function Url(name: string, version: string): string {
    "https://static.crates.io/crates/" + name + "/" + name + "-" + version + ".crate"
  }

  predicate IsLocal(item: LockItem) { item.source.None? }

  predicate IsSupported(item: LockItem) {
    && IsName(item.name) && IsVersion(item.version)
    && (IsLocal(item) || (item.source.value == REGISTRY && item.checksum.Some? && IsHexChecksum(item.checksum.value)))
  }

  function PackageOf(item: LockItem): Package {
    var checksum := if item.checksum.Some? then item.checksum.value else "";
    Package(item.name, item.version, checksum, Url(item.name, item.version))
  }

  /** The registry packages in the order of the lock file; the plan sorts them. */
  function PackagesOf(items: seq<LockItem>): seq<Package> {
    if items == [] then []
    else
      var last := items[|items| - 1];
      PackagesOf(items[..|items| - 1]) + if IsLocal(last) then [] else [PackageOf(last)]
  }

  function LocalsOf(items: seq<LockItem>): map<string, string> {
    if items == [] then map[]
    else
      var last := items[|items| - 1];
      if IsLocal(last) then LocalsOf(items[..|items| - 1])[last.name := last.version]
        else LocalsOf(items[..|items| - 1])
  }

  /** No item repeats a package version, and no local item repeats a name. */
  ghost predicate NoRepeats(items: seq<LockItem>) {
    forall i, j | 0 <= i < j < |items| :: !Repeats(items[i], items[j])
  }

  predicate Repeats(a: LockItem, b: LockItem) {
    (a.name, a.version) == (b.name, b.version) || (IsLocal(a) && IsLocal(b) && a.name == b.name)
  }

  /** Every item is supported and none repeats another. */
  ghost predicate Readable(items: seq<LockItem>) {
    (forall i | 0 <= i < |items| :: IsSupported(items[i])) && NoRepeats(items)
  }

  ghost predicate Acceptable(items: seq<LockItem>, localVersions: map<string, string>) {
    Readable(items) && PackagesOf(items) != [] && LocalsOf(items) == localVersions
  }

  lemma {:induction false} LocalNames(items: seq<LockItem>, name: string)
    ensures name in LocalsOf(items) <==> exists i :: 0 <= i < |items| && IsLocal(items[i]) && items[i].name == name
  {
    if items != [] {
      var front := items[..|items| - 1];
      LocalNames(front, name);
      assert forall i | 0 <= i < |front| :: front[i] == items[i];
      if IsLocal(items[|items| - 1]) && items[|items| - 1].name == name { assert name in LocalsOf(items); }
    }
  }

  ghost function Versions(items: seq<LockItem>): set<(string, string)> {
    set k | 0 <= k < |items| :: (items[k].name, items[k].version)
  }

  lemma VersionsSnoc(front: seq<LockItem>, item: LockItem)
    ensures Versions(front + [item]) == Versions(front) + {(item.name, item.version)}
  {
    var all := front + [item];
    assert all[|front|] == item && forall k | 0 <= k < |front| :: all[k] == front[k];
  }

  /** What one more item needs. */
  lemma ReadableSnoc(front: seq<LockItem>, item: LockItem)
    requires Readable(front)
    ensures Readable(front + [item]) <==>
              IsSupported(item) && (item.name, item.version) !in Versions(front)
              && (IsLocal(item) ==> item.name !in LocalsOf(front))
  {
    hide IsSupported, LocalsOf;
    var all := front + [item];
    LocalNames(front, item.name);
    assert all[|front|] == item && forall k | 0 <= k < |front| :: all[k] == front[k];
    assert (exists i :: 0 <= i < |front| && Repeats(front[i], item)) <==>
      (item.name, item.version) in Versions(front) || (IsLocal(item) && item.name in LocalsOf(front));
  }

  lemma ReadablePrefix(items: seq<LockItem>, n: nat)
    requires Readable(items) && n <= |items|
    ensures Readable(items[..n])
  {
  }

  lemma PackagesSnoc(front: seq<LockItem>, item: LockItem)
    ensures PackagesOf(front + [item]) == PackagesOf(front) + if IsLocal(item) then [] else [PackageOf(item)]
    ensures LocalsOf(front + [item])
            == if IsLocal(item) then LocalsOf(front)[item.name := item.version] else LocalsOf(front)
  {
    assert (front + [item])[..|front|] == front;
  }

  method ReadLock(items: seq<LockItem>, localVersions: map<string, string>) returns (packages: Option<seq<Package>>)
    ensures packages == if Acceptable(items, localVersions) then Some(PackagesOf(items)) else None
  {
    hide IsName, IsVersion, IsHexChecksum, Readable, Versions;
    var seen: set<(string, string)> := {};
    var local: map<string, string> := map[];
    var found: seq<Package> := [];
    EmptyReadable();
    for i := 0 to |items|
      invariant found == PackagesOf(items[..i]) && local == LocalsOf(items[..i])
      invariant seen == Versions(items[..i]) && Readable(items[..i])
    {
      var item := items[i];
      assert items[..i + 1] == items[..i] + [item];
      ReadableSnoc(items[..i], item);
      VersionsSnoc(items[..i], item);
      PackagesSnoc(items[..i], item);
      hide PackagesOf, LocalsOf;
      if Readable(items) { ReadablePrefix(items, i + 1); }
      if !IsName(item.name) || !IsVersion(item.version) || (item.name, item.version) in seen { return None; }
      seen := seen + {(item.name, item.version)};
      if IsLocal(item) {
        if item.name in local { return None; }
        local := local[item.name := item.version];
      } else {
        if item.source.value != REGISTRY || item.checksum.None? || !IsHexChecksum(item.checksum.value) { return None; }
        found := found + [PackageOf(item)];
      }
    }
    assert items[..|items|] == items;
    packages := if found == [] || local != localVersions then None else Some(found);
  }

  lemma EmptyReadable()
    ensures Readable([]) && Versions([]) == {}
  {
  }

  /* ----- what acceptance gives the rest of the preparation ----- */

  ghost predicate DistinctVersions(packages: seq<Package>) {
    forall i, j | 0 <= i < j < |packages| ::
      (packages[i].name, packages[i].version) != (packages[j].name, packages[j].version)
  }

  ghost predicate WellNamed(packages: seq<Package>) {
    forall i | 0 <= i < |packages| :: IsName(packages[i].name) && IsVersion(packages[i].version)
  }

  lemma {:induction false} PackageFromItem(items: seq<LockItem>, p: Package) returns (k: nat)
    requires p in PackagesOf(items)
    ensures k < |items| && PackageOf(items[k]) == p
  {
    if p in PackagesOf(items[..|items| - 1]) {
      k := PackageFromItem(items[..|items| - 1], p);
    } else {
      k := |items| - 1;
    }
  }

  lemma {:induction false} AcceptedArePackages(items: seq<LockItem>)
    requires Readable(items)
    ensures WellNamed(PackagesOf(items)) && DistinctVersions(PackagesOf(items))
  {
    if items != [] {
      var n := |items| - 1;
      ReadablePrefix(items, n);
      AcceptedArePackages(items[..n]);
      NewVersion(items);
      assert IsSupported(items[n]);
      OneMorePackage(PackagesOf(items[..n]), PackageOf(items[n]));
    }
  }

  lemma OneMorePackage(before: seq<Package>, p: Package)
    requires WellNamed(before) && DistinctVersions(before) && IsName(p.name) && IsVersion(p.version)
    requires forall q | q in before :: (q.name, q.version) != (p.name, p.version)
    ensures WellNamed(before + [p]) && DistinctVersions(before + [p])
  {
    hide IsName, IsVersion;
  }

  lemma NewVersion(items: seq<LockItem>)
    requires Readable(items) && items != []
    ensures var n := |items| - 1;
      forall p | p in PackagesOf(items[..n]) :: (p.name, p.version) != (items[n].name, items[n].version)
  {
    hide IsSupported;
    var n := |items| - 1;
    forall p | p in PackagesOf(items[..n]) ensures (p.name, p.version) != (items[n].name, items[n].version) {
      var k := PackageFromItem(items[..n], p);
      assert items[..n][k] == items[k] && !Repeats(items[k], items[n]);
    }
  }

  /* ----- the vendor directory of a package ----- */

  function Directory(p: Package): string { p.name + "-" + p.version }

  /** The text up to the first dot is the name, a hyphen and digits. */
  lemma FirstDot(p: Package) returns (dot: nat)
    requires IsName(p.name) && IsVersion(p.version)
    ensures dot == |p.name| + 1 + DigitRun(p.version) && |p.name| + 1 < dot < |Directory(p)| && Directory(p)[dot] == '.'
    ensures Directory(p)[|p.name|] == '-' && forall i | 0 <= i < dot :: Directory(p)[i] != '.'
    ensures forall i | |p.name| < i < dot :: IsDigit(Directory(p)[i])
  {
    var d := Directory(p);
    dot := |p.name| + 1 + DigitRun(p.version);
    assert d[|p.name|] == '-';
    forall i | 0 <= i < dot ensures d[i] != '.' && (|p.name| < i ==> IsDigit(d[i])) {
      if i < |p.name| { assert d[i] == p.name[i]; }
      if i > |p.name| { assert d[i] == p.version[i - |p.name| - 1]; }
    }
    assert d[dot] == p.version[DigitRun(p.version)];
  }

  lemma SplitDirectory(p: Package)
    ensures Directory(p)[..|p.name|] == p.name && Directory(p)[|p.name| + 1..] == p.version
  {
  }

  /** No two package versions share a vendor directory: the hyphen between name and version can be found again. */
  lemma DirectoryInjective(p: Package, q: Package)
    requires IsName(p.name) && IsVersion(p.version) && IsName(q.name) && IsVersion(q.version)
    requires Directory(p) == Directory(q)
    ensures p.name == q.name && p.version == q.version
  {
    var i := FirstDot(p);
    var j := FirstDot(q);
    SplitDirectory(p);
    SplitDirectory(q);
    hide IsName, IsVersion, DigitRun, Directory;
    assert i == j;
    assert |p.name| == |q.name|;
  }

  ghost predicate NoSlash(s: string) { forall i | 0 <= i < |s| :: s[i] != '/' }

  lemma VersionNoSlash(s: string)
    requires IsVersion(s)
    ensures NoSlash(s)
  {
    var n := DigitRun(s);
    var t := s[n + 1..];
    var m := DigitRun(t);
    PatchNoSlash(t[m + 1..]);
    hide IsPatch, DigitRun, NoSlash;
    DottedNoSlash(t, m);
    DottedNoSlash(s, n);
  }

  lemma PatchNoSlash(s: string)
    requires IsPatch(s)
    ensures NoSlash(s)
  {
    var n := DigitRun(s);
    assert forall i | 0 <= i < n :: s[i] == s[..n][i];
  }

  /** Digits, a dot and a text without a slash. */
  lemma DottedNoSlash(s: string, n: nat)
    requires n < |s| && AllDigits(s[..n]) && s[n] == '.' && NoSlash(s[n + 1..])
    ensures NoSlash(s)
  {
    forall i | 0 <= i < |s| ensures s[i] != '/' {
      if i < n { assert s[i] == s[..n][i]; }
      if i > n { assert s[i] == s[n + 1..][i - n - 1]; }
    }
  }

  lemma DirectoryNoSlash(p: Package)
    requires IsName(p.name) && IsVersion(p.version)
    ensures NoSlash(Directory(p))
  {
    VersionNoSlash(p.version);
    hide IsVersion;
    var d := Directory(p);
    forall i | 0 <= i < |d| ensures d[i] != '/' {
      if i < |p.name| { assert d[i] == p.name[i]; }
      if i > |p.name| { assert d[i] == p.version[i - |p.name| - 1]; }
    }
  }
}

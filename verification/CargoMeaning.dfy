/** The Cargo material read off its inputs: which locks are accepted, which archives verify, what is prepared and
    staged. */
module CargoMeaning {
  import opened Basics
  import opened Fetch
  import opened CargoLock
  import opened CargoMaterials
  import opened CargoStage
  import Patterns
  import Regex

  /* ----- the lock file ----- */

  /** A crate name and a version, from no source at all or from crates.io with a checksum. */
  ghost predicate IsItem(item: LockItem) {
    && Regex.Matches(Patterns.CRATE_NAME, item.name) && Regex.Matches(Patterns.CRATE_VERSION, item.version)
    && (item.source.Some? ==>
          item.source.value == "registry+https://github.com/rust-lang/crates.io-index"
          && item.checksum.Some? && Regex.Matches(Patterns.CHECKSUM, item.checksum.value))
  }

  /** The lock lists items, no version of a package twice and no local package twice, at least one of crates.io, and the
      local packages in just these versions. */
  ghost predicate IsLock(items: seq<LockItem>, localVersions: map<string, string>) {
    && (forall i | 0 <= i < |items| :: IsItem(items[i]))
    && ItemsDiffer(items)
    && (exists i :: 0 <= i < |items| && items[i].source.Some?)
    && AreLocal(items, localVersions)
  }

  /** No version of a package is listed twice, and no local package in any. */
  ghost predicate ItemsDiffer(items: seq<LockItem>) {
    forall i, j | 0 <= i < j < |items| && items[i].name == items[j].name ::
      items[i].version != items[j].version && (items[i].source.Some? || items[j].source.Some?)
  }

  /** These are the items from nowhere, with their versions. */
  ghost predicate AreLocal(items: seq<LockItem>, localVersions: map<string, string>) {
    && (forall name :: name in localVersions <==>
          exists i :: 0 <= i < |items| && items[i].source.None? && items[i].name == name)
    && (forall i | 0 <= i < |items| && items[i].source.None? :: localVersions[items[i].name] == items[i].version)
  }

  lemma SupportedMeans(item: LockItem)
    ensures IsSupported(item) <==> IsItem(item)
  {
    Patterns.CrateNameMeans(item.name);
    Patterns.CrateVersionMeans(item.version);
    if item.checksum.Some? { Patterns.ChecksumMeans(item.checksum.value); }
    hide IsName, IsVersion, IsHexChecksum, Regex.Matches;
  }

  ghost predicate LocalsDiffer(items: seq<LockItem>) {
    forall i, j | 0 <= i < j < |items| && IsLocal(items[i]) && IsLocal(items[j]) :: items[i].name != items[j].name
  }

  lemma {:induction false} LocalsMean(items: seq<LockItem>, i: nat)
    requires LocalsDiffer(items) && i < |items| && IsLocal(items[i])
    ensures items[i].name in LocalsOf(items) && LocalsOf(items)[items[i].name] == items[i].version
  {
    var n := |items| - 1;
    if i < n {
      LocalsMean(items[..n], i);
    }
  }

  lemma {:induction false} PackagesMean(items: seq<LockItem>, p: Package)
    ensures p in PackagesOf(items) <==> exists i ::
              0 <= i < |items| && items[i].source.Some? && PackageOf(items[i]) == p
    ensures PackagesOf(items) != [] <==> exists i :: 0 <= i < |items| && items[i].source.Some?
  {
    if items != [] {
      var n := |items| - 1;
      var front := items[..n];
      PackagesMean(front, p);
      assert forall i | 0 <= i < n :: front[i] == items[i];
      if !IsLocal(items[n]) { assert items[n].source.Some?; }
    }
  }

  lemma RepeatsMean(items: seq<LockItem>)
    ensures NoRepeats(items) <==> ItemsDiffer(items)
  {
    if NoRepeats(items) {
      forall i, j | 0 <= i < j < |items| && items[i].name == items[j].name
        ensures items[i].version != items[j].version && (items[i].source.Some? || items[j].source.Some?) {
        assert !Repeats(items[i], items[j]);
      }
    }
  }

  lemma LocalVersionsMean(items: seq<LockItem>, localVersions: map<string, string>)
    requires LocalsDiffer(items)
    ensures LocalsOf(items) == localVersions <==> AreLocal(items, localVersions)
  {
    var locals := LocalsOf(items);
    forall name ensures name in locals <==>
                          exists i :: 0 <= i < |items| && items[i].source.None? && items[i].name == name {
      LocalNames(items, name);
    }
    forall i | 0 <= i < |items| && items[i].source.None? ensures locals[items[i].name] == items[i].version {
      LocalsMean(items, i);
    }
    hide LocalsOf;
  }

  lemma DistinctLocals(items: seq<LockItem>)
    requires NoRepeats(items)
    ensures LocalsDiffer(items)
  {
    forall i, j | 0 <= i < j < |items| && IsLocal(items[i]) && IsLocal(items[j])
      ensures items[i].name != items[j].name {
      assert !Repeats(items[i], items[j]);
    }
  }

  lemma SomePackage(items: seq<LockItem>)
    ensures PackagesOf(items) != [] <==> exists i :: 0 <= i < |items| && items[i].source.Some?
  {
    if items != [] { PackagesMean(items, PackageOf(items[0])); }
  }

  /** A lock is accepted exactly when it is such a list. */
  lemma AcceptableMeans(items: seq<LockItem>, localVersions: map<string, string>)
    ensures Acceptable(items, localVersions) <==> IsLock(items, localVersions)
  {
    forall i | 0 <= i < |items| ensures IsSupported(items[i]) <==> IsItem(items[i]) { SupportedMeans(items[i]); }
    hide IsSupported, IsItem, PackagesOf, LocalsOf, NoRepeats, LocalsDiffer, ItemsDiffer, AreLocal;
    RepeatsMean(items);
    SomePackage(items);
    if NoRepeats(items) {
      DistinctLocals(items);
      LocalVersionsMean(items, localVersions);
    }
  }

  lemma UrlMeans(item: LockItem, p: Package)
    requires item.checksum.Some?
    ensures PackageOf(item) == p <==>
              && p.name == item.name && p.version == item.version && Some(p.checksum) == item.checksum
              && p.url == "https://static.crates.io/crates/" + p.name + "/" + p.name + "-" + p.version + ".crate"
  {
  }

  /** The packages of the plan are those of crates.io, with their checksums and the address of their archives. */
  lemma PlannedPackages(items: seq<LockItem>, p: Package)
    requires Readable(items)
    ensures p in PackagesOf(items) <==> exists i ::
              && 0 <= i < |items| && items[i].source.Some?
              && p.name == items[i].name && p.version == items[i].version && Some(p.checksum) == items[i].checksum
              && p.url == "https://static.crates.io/crates/" + p.name + "/" + p.name + "-" + p.version + ".crate"
  {
    PackagesMean(items, p);
    hide PackagesOf, IsName, IsVersion, IsHexChecksum, NoRepeats;
    forall i | 0 <= i < |items| && items[i].source.Some?
      ensures PackageOf(items[i]) == p <==>
                && p.name == items[i].name && p.version == items[i].version && Some(p.checksum) == items[i].checksum
                && p.url == "https://static.crates.io/crates/" + p.name + "/" + p.name + "-" + p.version + ".crate" {
      assert IsSupported(items[i]);
      UrlMeans(items[i], p);
    }
    hide PackageOf;
  }

  /* ----- one archive ----- */

  /** At most 64 MiB with the checksum of the lock file, whose members all lie in the directory of the package, a
      `Cargo.toml` among them and no `.cargo-checksum.json`; `files` are its files relative to that directory. */
  ghost predicate IsCrate(lib: Library, data: Bytes, p: Package, files: map<string, Item>) {
    && |data| <= 67_108_864 && lib.sha256(data) == p.checksum
    && lib.readTar(data).Some?
    && var tar, below := lib.readTar(data).value, p.name + "-" + p.version + "/";
       && (forall path | path in tar.files :: below <= path)
       && (forall d | d in tar.directories :: d == p.name + "-" + p.version || below <= d)
       && "Cargo.toml" in files && ".cargo-checksum.json" !in files
       && (forall n :: n in files <==> below + n in tar.files)
       && forall n | n in files :: files[n] == tar.files[below + n]
  }

  lemma RelativeMeans(t: Tar, dir: string, files: map<string, Item>)
    requires forall path | path in t.files :: Inside(dir, path)
    ensures RelativeFiles(t, dir) == files <==>
              && (forall n :: n in files <==> dir + "/" + n in t.files)
              && forall n | n in files :: files[n] == t.files[dir + "/" + n]
  {
    var relative := RelativeFiles(t, dir);
    forall n ensures n in relative <==> dir + "/" + n in t.files {
      if dir + "/" + n in t.files { assert Relative(dir, dir + "/" + n) == n; }
    }
    assert forall n | n in relative :: relative[n] == t.files[dir + "/" + n];
    hide RelativeFiles;
  }

  lemma CrateMeans(lib: Library, data: Bytes, p: Package, files: map<string, Item>)
    ensures ArchiveFiles(lib, data, p) == Some(files) <==> IsCrate(lib, data, p, files)
  {
    if lib.readTar(data).Some? {
      var tar, dir := lib.readTar(data).value, Directory(p);
      assert dir + "/" == p.name + "-" + p.version + "/";
      if forall path | path in tar.files :: Inside(dir, path) {
        RelativeMeans(tar, dir, files);
      }
      hide RelativeFiles;
    }
  }

  /* ----- preparation ----- */

  /** The address of the package answers with its archive. */
  ghost predicate IsFetched(lib: Library, fetch: string -> Option<Bytes>, p: Package) {
    exists data, files :: fetch(p.url) == Some(data) && IsCrate(lib, data, p, files)
  }

  lemma DownloadMeans(lib: Library, fetch: string -> Option<Bytes>, p: Package)
    ensures DownloadOf(lib, fetch, p).Verified? <==> IsFetched(lib, fetch, p)
  {
    if fetch(p.url).Some? {
      forall files ensures ArchiveFiles(lib, fetch(p.url).value, p) == Some(files)
                           <==> IsCrate(lib, fetch(p.url).value, p, files) {
        CrateMeans(lib, fetch(p.url).value, p, files);
      }
      hide ArchiveFiles, IsCrate;
      if ArchiveFiles(lib, fetch(p.url).value, p).Some? {
        assert IsCrate(lib, fetch(p.url).value, p, ArchiveFiles(lib, fetch(p.url).value, p).value);
      }
    }
  }

  /** A preparation succeeds exactly when every package's archive is fetched and all together are at most one GiB. */
  lemma PreparableMeans(lib: Library, fetch: string -> Option<Bytes>, packages: seq<Package>)
    ensures Preparable(lib, fetch, packages) <==>
              && (forall i | 0 <= i < |packages| :: IsFetched(lib, fetch, packages[i]))
              && TotalSize(JobsOf(lib, fetch, packages)) <= 1_073_741_824
  {
    hide DownloadOf, IsFetched, TotalSize;
    forall i | 0 <= i < |packages|
      ensures DownloadOf(lib, fetch, packages[i]).Verified? <==> IsFetched(lib, fetch, packages[i]) {
      DownloadMeans(lib, fetch, packages[i]);
    }
  }

  /* ----- staging ----- */

  /** The archive of the package is in the bundle, under its checksum, and these are its files. */
  ghost predicate IsStored(lib: Library, p: Package, archives: map<string, Bytes>, files: map<string, Item>) {
    && "archives/" + p.checksum + ".crate" in archives
    && IsCrate(lib, archives["archives/" + p.checksum + ".crate"], p, files)
  }

  lemma StoredMeans(lib: Library, p: Package, archives: map<string, Bytes>)
    ensures Holds(lib, p, archives) <==> exists files :: IsStored(lib, p, archives, files)
    ensures forall files | IsStored(lib, p, archives, files) :: FilesOf(lib, p, archives) == files
  {
    if ArchivePath(p) in archives {
      forall files ensures ArchiveFiles(lib, archives[ArchivePath(p)], p) == Some(files)
                           <==> IsStored(lib, p, archives, files) {
        CrateMeans(lib, archives[ArchivePath(p)], p, files);
      }
      hide ArchiveFiles, IsStored;
      if ArchiveFiles(lib, archives[ArchivePath(p)], p).Some? {
        assert IsStored(lib, p, archives, ArchiveFiles(lib, archives[ArchivePath(p)], p).value);
      }
    }
  }

  /** No file is needed as a directory for another one, the checksum file included. */
  ghost predicate IsFlat(files: map<string, Item>) {
    && (forall a, b | a in files && b in files :: !(a + "/" <= b))
    && (forall a | a in files :: !(a + "/" <= ".cargo-checksum.json") && !(".cargo-checksum.json/" <= a))
  }

  lemma FlatMeans(files: map<string, Item>)
    ensures NoClash(files) <==> IsFlat(files)
  {
    assert !(CHECKSUMS + "/" <= CHECKSUMS) by { assert |CHECKSUMS + "/"| > |CHECKSUMS|; }
    assert CHECKSUMS + "/" == ".cargo-checksum.json/";
    if NoClash(files) {
      forall a, b | a in files && b in files ensures !(a + "/" <= b) { assert !Inside(a, b); }
      forall a | a in files ensures !(a + "/" <= ".cargo-checksum.json") && !(".cargo-checksum.json/" <= a) {
        assert !Inside(a, CHECKSUMS) && !Inside(CHECKSUMS, a);
      }
    }
  }

  /** A bundle is accepted exactly when its manifest is the one that a preparation at its revision writes for the
      archives it holds, manifest and metadata are within 4 MiB, the metadata is the committed one, every package has
      its archive, no archive needs one path as a file and as a directory, and neither the archives nor what they unpack
      to is more than one GiB. */
  lemma AcceptsMeans(lib: Library, metadata: map<string, Bytes>, plan: Plan, b: Bundle)
    ensures Accepts(lib, metadata, plan, b) <==>
              && (|b.manifest.sourceRevision| == 40 || |b.manifest.sourceRevision| == 64)
              && IsHex(b.manifest.sourceRevision)
              && lib.manifestSize(b.manifest) <= 4_194_304
              && b.manifest == ManifestOf(lib, b.manifest.sourceRevision, plan, b.archives)
              && (forall name | name in metadata ::
                    name in b.sources && b.sources[name] == metadata[name] && |metadata[name]| <= 4_194_304)
              && (forall i | 0 <= i < |plan.packages| ::
                    exists files :: IsStored(lib, plan.packages[i], b.archives, files) && IsFlat(files))
              && TotalIn(plan.packages, b.archives) <= 1_073_741_824
              && ExpandedTotal(lib, plan.packages, b.archives) <= 1_073_741_824
  {
    forall i | 0 <= i < |plan.packages|
      ensures Holds(lib, plan.packages[i], b.archives) && NoClash(FilesOf(lib, plan.packages[i], b.archives))
              <==> exists files :: IsStored(lib, plan.packages[i], b.archives, files) && IsFlat(files)
      ensures Holds(lib, plan.packages[i], b.archives) ==> SizeIn(plan.packages[i], b.archives) <= 67_108_864
    {
      PackageMeans(lib, plan.packages[i], b.archives);
    }
    HeaderMeans(lib, metadata, plan, b);
    hide HeaderMatches, SourcesMatch, Holds, NoClash, IsStored, IsFlat, TotalIn, ExpandedTotal, IsHex, ManifestOf,
      ArchiveMatches, FilesOf, SizeIn;
  }

  lemma PackageMeans(lib: Library, p: Package, archives: map<string, Bytes>)
    ensures Holds(lib, p, archives) && NoClash(FilesOf(lib, p, archives))
            <==> exists files :: IsStored(lib, p, archives, files) && IsFlat(files)
    ensures Holds(lib, p, archives) ==> SizeIn(p, archives) <= 67_108_864
  {
    StoredMeans(lib, p, archives);
    FlatMeans(FilesOf(lib, p, archives));
    WithinLimit(lib, p, archives);
    hide Holds, IsStored, IsFlat, NoClash, FilesOf, SizeIn;
  }

  lemma WithinLimit(lib: Library, p: Package, archives: map<string, Bytes>)
    ensures Holds(lib, p, archives) ==> SizeIn(p, archives) <= 67_108_864
  {
  }

  /** Header and sizes agree exactly if the manifest is the one to be written. */
  lemma HeaderMeans(lib: Library, metadata: map<string, Bytes>, plan: Plan, b: Bundle)
    requires forall i | 0 <= i < |plan.packages| ::
               Holds(lib, plan.packages[i], b.archives) ==> SizeIn(plan.packages[i], b.archives) <= 67_108_864
    ensures (HeaderMatches(lib, plan, b.manifest)
             && forall i | 0 <= i < |plan.packages| ::
                  ArchiveMatches(lib, plan.packages[i], b.manifest.payload.packages[i].size, b.archives)) <==>
              && (|b.manifest.sourceRevision| == 40 || |b.manifest.sourceRevision| == 64)
              && IsHex(b.manifest.sourceRevision)
              && lib.manifestSize(b.manifest) <= 4_194_304
              && b.manifest == ManifestOf(lib, b.manifest.sourceRevision, plan, b.archives)
              && forall i | 0 <= i < |plan.packages| :: Holds(lib, plan.packages[i], b.archives)
    ensures SourcesMatch(metadata, b) <==>
              forall name | name in metadata ::
                name in b.sources && b.sources[name] == metadata[name] && |metadata[name]| <= 4_194_304
  {
    var sized := SizedPackages(plan.packages, b.archives);
    forall i | 0 <= i < |plan.packages| && i < |b.manifest.payload.packages|
      ensures ArchiveMatches(lib, plan.packages[i], b.manifest.payload.packages[i].size, b.archives)
              <==> Holds(lib, plan.packages[i], b.archives)
                   && b.manifest.payload.packages[i].size == SizeIn(plan.packages[i], b.archives) {
    }
    hide ArchiveMatches, Holds, IsHex;
    if |b.manifest.payload.packages| == |plan.packages|
       && forall i | 0 <= i < |plan.packages| :: b.manifest.payload.packages[i] == sized[i] {
      assert b.manifest.payload.packages == sized;
    }
  }

  /** The vendor tree has one directory for every package, named after it, with the files of its archive and, as
      `.cargo-checksum.json`, the checksum of the archive and those of the files. */
  lemma VendorMeans(
    lib: Library, packages: seq<Package>, archives: map<string, Bytes>, i: nat, files: map<string, Item>)
    requires WellNamed(packages) && DistinctVersions(packages) && i < |packages|
    requires IsStored(lib, packages[i], archives, files)
    ensures var vendor, p := VendorOf(lib, packages, archives), packages[i];
      && p.name + "-" + p.version in vendor
      && var directory := vendor[p.name + "-" + p.version];
         && directory.Keys == files.Keys + {".cargo-checksum.json"}
         && (forall n | n in files :: n != ".cargo-checksum.json" && directory[n] == Unpacked(files[n]))
         && directory[".cargo-checksum.json"].Checksums?
         && directory[".cargo-checksum.json"].package == p.checksum
         && directory[".cargo-checksum.json"].files.Keys == files.Keys
         && forall n | n in files :: directory[".cargo-checksum.json"].files[n] == lib.sha256(files[n].data)
  {
    VendorAt(lib, packages, archives, i);
    StoredMeans(lib, packages[i], archives);
    hide VendorOf, FilesOf;
    assert Directory(packages[i]) == packages[i].name + "-" + packages[i].version;
  }

  lemma VendorOnly(lib: Library, packages: seq<Package>, archives: map<string, Bytes>, dir: string)
    ensures dir in VendorOf(lib, packages, archives) <==>
              exists i :: 0 <= i < |packages| && dir == packages[i].name + "-" + packages[i].version
  {
    VendorKeys(lib, packages, archives, dir);
    hide VendorOf;
    forall i | 0 <= i < |packages|
      ensures Directory(packages[i]) == packages[i].name + "-" + packages[i].version {
    }
  }
}

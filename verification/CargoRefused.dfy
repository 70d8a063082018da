/** Cargo bundles that a preparation leaves and staging refuses. */
module CargoRefused {
  import opened Basics
  import opened Fetch
  import opened CargoLock
  import opened CargoMaterials
  import opened CargoStage
  import opened Ordering
  import Npm = NpmMaterials

  /* ----- three archives of half a mebibyte ----- */

  const ARCHIVE_SIZE: nat := 512 * 1024

  function ArchiveBytes(k: Byte): Bytes { seq(ARCHIVE_SIZE, _ => k) }

  function Hex(c: char): string { seq(64, _ => c) }

  function PackageNamed(name: string, checksum: char): Package {
    Package(name, "1.0.0", Hex(checksum), Url(name, "1.0.0"))
  }

  function A(): Package { PackageNamed("a", '1') }
  function B(): Package { PackageNamed("b", '2') }
  function C(): Package { PackageNamed("c", '3') }

  function Packages(): (ps: seq<Package>)
    ensures |ps| == 3
  {
    [A(), B(), C()]
  }

  function Archives(): map<string, Bytes> {
    map[ArchivePath(A()) := ArchiveBytes(1), ArchivePath(B()) := ArchiveBytes(2), ArchivePath(C()) := ArchiveBytes(3)]
  }

  /** The metadata of a workspace, and the plan over it. */
  function Metadata(): map<string, Bytes> { map["Cargo.toml" := [1, 2, 3], "Cargo.lock" := [4, 5, 6]] }

  function ThePlan(): Plan {
    Plan("cargo-materials-v1", [Npm.FileDigest("Cargo.lock", "sha256:4"), Npm.FileDigest("Cargo.toml", "sha256:1")],
      Packages())
  }

  function FetchOf(url: string): Option<Bytes> {
    if url == A().url then Some(ArchiveBytes(1))
    else if url == B().url then Some(ArchiveBytes(2))
    else if url == C().url then Some(ArchiveBytes(3))
    else None
  }

  /** The checksums of the lock for the three archives, and no collision anywhere. */
  function HashOf(data: Bytes): string {
    if data == ArchiveBytes(1) then Hex('1')
    else if data == ArchiveBytes(2) then Hex('2')
    else if data == ArchiveBytes(3) then Hex('3')
    else Plain(data)
  }

  function Plain(data: Bytes): string { "x" + seq(|data|, i requires 0 <= i < |data| => data[i] as char) }

  /** An archive that holds the given files in one directory. */
  function TarOf(dir: string, contents: map<string, Item>): Tar {
    var paths := set n | n in contents :: dir + "/" + n;
    Tar(map path | path in paths && Inside(dir, path) && Relative(dir, path) in contents ::
          contents[Relative(dir, path)],
      {dir})
  }

  function ReadWith(contents: map<string, Item>): Bytes -> Option<Tar> {
    (data: Bytes) =>
      if data == ArchiveBytes(1) then Some(TarOf(Directory(A()), contents))
      else if data == ArchiveBytes(2) then Some(TarOf(Directory(B()), contents))
      else if data == ArchiveBytes(3) then Some(TarOf(Directory(C()), contents))
      else None
  }

  /** All three archives hold the same files, each in the directory of its package. */
  function LibraryWith(contents: map<string, Item>): Library {
    Library(data => HashOf(data), ReadWith(contents), (p: Payload) => "sha256:5", (m: Manifest) => 1000)
  }

  function BundleWith(contents: map<string, Item>, revision: string): Bundle {
    Bundle(ManifestOf(LibraryWith(contents), revision, ThePlan(), Archives()), Metadata(), Archives())
  }

  /** Files that an archive may hold. */
  ghost predicate IsContents(contents: map<string, Item>) { MANIFEST in contents && CHECKSUMS !in contents }

  /* ----- they are prepared ----- */

  lemma ArchivesDiffer()
    ensures ArchiveBytes(1) != ArchiveBytes(2) && ArchiveBytes(1) != ArchiveBytes(3)
            && ArchiveBytes(2) != ArchiveBytes(3)
  {
    assert ArchiveBytes(1)[0] == 1 && ArchiveBytes(2)[0] == 2 && ArchiveBytes(3)[0] == 3;
  }

  lemma ChecksumsDiffer()
    ensures Hex('1') != Hex('2') && Hex('1') != Hex('3') && Hex('2') != Hex('3')
    ensures Hex('1')[0] != 'x' && Hex('2')[0] != 'x' && Hex('3')[0] != 'x'
  {
    assert Hex('1')[0] == '1' && Hex('2')[0] == '2' && Hex('3')[0] == '3';
  }

  lemma PlainInjective(a: Bytes, b: Bytes)
    requires Plain(a) == Plain(b)
    ensures a == b
  {
    assert |Plain(a)| == |a| + 1 && |Plain(b)| == |b| + 1;
    forall i | 0 <= i < |a| ensures a[i] == b[i] {
      assert Plain(a)[i + 1] == a[i] as char && Plain(b)[i + 1] == b[i] as char;
    }
  }

  lemma HashesDiffer(contents: map<string, Item>)
    ensures HashInjective(LibraryWith(contents))
  {
    forall a, b | HashOf(a) == HashOf(b) ensures a == b {
      ChecksumsDiffer();
      hide Hex, ArchiveBytes;
      assert Plain(a)[0] == 'x' && Plain(b)[0] == 'x';
      if HashOf(a) == Plain(a) && HashOf(b) == Plain(b) { PlainInjective(a, b); }
    }
  }

  ghost predicate IsLocked(p: Package) { IsName(p.name) && IsVersion(p.version) && IsHexChecksum(p.checksum) }

  lemma LettersAccepted()
    ensures IsName("a") && IsName("b") && IsName("c")
  {
  }

  lemma PackageLocked(name: string, c: char)
    requires IsName(name) && '0' <= c <= '9'
    ensures IsLocked(PackageNamed(name, c))
  {
    VersionAccepted();
    ChecksumAccepted(c);
    hide IsName, IsVersion, IsHexChecksum, Hex, Url;
  }

  lemma LockedAll()
    ensures IsLocked(A()) && IsLocked(B()) && IsLocked(C())
  {
    LettersAccepted();
    hide IsName, PackageNamed, IsLocked;
    PackageLocked("a", '1');
    PackageLocked("b", '2');
    PackageLocked("c", '3');
  }

  lemma NamesDiffer()
    ensures A().name != B().name && A().name != C().name && B().name != C().name
  {
    hide Hex, Url;
  }

  lemma NamesAccepted()
    ensures WellNamed(Packages()) && DistinctVersions(Packages()) && forall i | 0 <= i < |Packages()| ::
              IsHexChecksum(Packages()[i].checksum)
  {
    LockedAll();
    NamesDiffer();
    hide A, B, C, IsName, IsVersion, IsHexChecksum;
    assert forall i | 0 <= i < |Packages()| :: IsLocked(Packages()[i]);
  }

  lemma ChecksumAccepted(c: char)
    requires '0' <= c <= '9'
    ensures IsHexChecksum(Hex(c))
  {
  }

  lemma VersionAccepted()
    ensures IsVersion("1.0.0")
  {
    var s := "1.0.0";
    assert s[1..] == ".0.0" && s[2..] == "0.0" && s[2..][1..] == ".0" && s[2..][2..] == "0" && s[2..][2..][1..] == "";
  }

  lemma ContentsOfTar(dir: string, contents: map<string, Item>)
    requires IsContents(contents)
    ensures Contents(TarOf(dir, contents), dir) == Some(contents)
  {
    var t := TarOf(dir, contents);
    forall n | n in contents ensures Inside(dir, dir + "/" + n) && Relative(dir, dir + "/" + n) == n {
    }
    forall n | n in contents ensures dir + "/" + n in t.files && t.files[dir + "/" + n] == contents[n] {
    }
    assert RelativeFiles(t, dir) == contents;
  }

  lemma FetchedAre()
    ensures FetchOf(A().url) == Some(ArchiveBytes(1)) && FetchOf(B().url) == Some(ArchiveBytes(2))
            && FetchOf(C().url) == Some(ArchiveBytes(3))
  {
    UrlsDiffer();
    hide A, B, C, ArchiveBytes;
  }

  lemma HashesAre()
    ensures HashOf(ArchiveBytes(1)) == A().checksum && HashOf(ArchiveBytes(2)) == B().checksum
            && HashOf(ArchiveBytes(3)) == C().checksum
  {
    ArchivesDiffer();
    hide ArchiveBytes, Hex;
  }

  lemma TarsAre(contents: map<string, Item>)
    ensures var read := ReadWith(contents);
      && read(ArchiveBytes(1)) == Some(TarOf(Directory(A()), contents))
      && read(ArchiveBytes(2)) == Some(TarOf(Directory(B()), contents))
      && read(ArchiveBytes(3)) == Some(TarOf(Directory(C()), contents))
  {
    ArchivesDiffer();
    hide ArchiveBytes, TarOf, A, B, C;
  }

  /** Each archive is fetched, verifies, and holds the files. */
  lemma PackageVerifies(contents: map<string, Item>, i: nat)
    requires IsContents(contents) && i < |Packages()|
    ensures var data := ArchiveBytes(i + 1);
      && FetchOf(Packages()[i].url) == Some(data)
      && ArchiveFiles(LibraryWith(contents), data, Packages()[i]) == Some(contents)
  {
    FetchedAre();
    HashesAre();
    TarsAre(contents);
    hide ArchiveBytes, TarOf, IsContents, A, B, C, ReadWith, HashOf, FetchOf, ArchiveFiles, LibraryWith;
    if i == 0 { OneVerifies(contents, A(), 1); }
    if i == 1 { OneVerifies(contents, B(), 2); }
    if i == 2 { OneVerifies(contents, C(), 3); }
  }

  lemma OneVerifies(contents: map<string, Item>, p: Package, k: Byte)
    requires IsContents(contents) && HashOf(ArchiveBytes(k)) == p.checksum
    requires ReadWith(contents)(ArchiveBytes(k)) == Some(TarOf(Directory(p), contents))
    ensures ArchiveFiles(LibraryWith(contents), ArchiveBytes(k), p) == Some(contents)
  {
    SizeOfArchive(k);
    ContentsOfTar(Directory(p), contents);
    hide ArchiveBytes, TarOf, Contents, IsContents, ReadWith, HashOf, ArchiveFiles;
    Verifies(LibraryWith(contents), ArchiveBytes(k), p, TarOf(Directory(p), contents), contents);
  }

  lemma Verifies(lib: Library, data: Bytes, p: Package, t: Tar, contents: map<string, Item>)
    requires |data| <= Npm.MAX_ARCHIVE && lib.sha256(data) == p.checksum && lib.readTar(data) == Some(t)
    requires Contents(t, Directory(p)) == Some(contents)
    ensures ArchiveFiles(lib, data, p) == Some(contents)
  {
  }

  lemma SizeOfArchive(k: Byte)
    ensures |ArchiveBytes(k)| == ARCHIVE_SIZE
  {
  }

  lemma UrlsDiffer()
    ensures A().url != B().url && A().url != C().url && B().url != C().url
  {
    assert A().url[32] == 'a' && B().url[32] == 'b' && C().url[32] == 'c';
  }

  lemma ArchiveAt(i: nat)
    requires i < |Packages()|
    ensures ArchivePath(Packages()[i]) in Archives() && Archives()[ArchivePath(Packages()[i])] == ArchiveBytes(i + 1)
  {
    ChecksumsDiffer();
    PathIffChecksum(A(), B());
    PathIffChecksum(A(), C());
    PathIffChecksum(B(), C());
    hide ArchivePath, ArchiveBytes, Hex, Url;
  }

  /** What the verified archive of one package gives. */
  lemma HeldIf(
    lib: Library, fetch: string -> Option<Bytes>, p: Package, archives: map<string, Bytes>, data: Bytes,
    contents: map<string, Item>)
    requires ArchivePath(p) in archives && archives[ArchivePath(p)] == data
    requires fetch(p.url) == Some(data) && ArchiveFiles(lib, data, p) == Some(contents)
    ensures IsHeld(lib, fetch, p, archives, |data|, contents)
  {
    hide ArchiveFiles, ArchivePath;
  }

  ghost predicate IsHeld(
    lib: Library, fetch: string -> Option<Bytes>, p: Package, archives: map<string, Bytes>, size: nat,
    contents: map<string, Item>) {
    && Holds(lib, p, archives) && SizeIn(p, archives) == size && FilesOf(lib, p, archives) == contents
    && DownloadOf(lib, fetch, p) == Verified(archives[ArchivePath(p)])
  }

  lemma PackageHeld(contents: map<string, Item>, i: nat)
    requires IsContents(contents) && i < |Packages()|
    ensures IsHeld(LibraryWith(contents), FetchOf, Packages()[i], Archives(), ARCHIVE_SIZE, contents)
  {
    PackageVerifies(contents, i);
    ArchiveAt(i);
    SizeOfArchive(i + 1);
    hide ArchiveFiles, ArchiveBytes, LibraryWith, ArchivePath, IsHeld, IsContents, Packages, Archives, FetchOf;
    HeldIf(LibraryWith(contents), FetchOf, Packages()[i], Archives(), ArchiveBytes(i + 1), contents);
  }

  lemma {:induction false} AlikeTotals(
    lib: Library, ps: seq<Package>, archives: map<string, Bytes>, size: nat, expanded: nat)
    requires forall i | 0 <= i < |ps| ::
               SizeIn(ps[i], archives) == size && FilesSize(FilesOf(lib, ps[i], archives)) == expanded
    ensures TotalIn(ps, archives) == |ps| * size && ExpandedTotal(lib, ps, archives) == |ps| * expanded
  {
    hide SizeIn, FilesOf, FilesSize;
    if ps != [] { AlikeTotals(lib, ps[..|ps| - 1], archives, size, expanded); }
  }

  lemma AllHeld(contents: map<string, Item>)
    requires IsContents(contents)
    ensures var lib := LibraryWith(contents);
      && (forall i | 0 <= i < |Packages()| :: IsHeld(lib, FetchOf, Packages()[i], Archives(), ARCHIVE_SIZE, contents))
      && TotalIn(Packages(), Archives()) == 3 * ARCHIVE_SIZE
      && ExpandedTotal(lib, Packages(), Archives()) == 3 * FilesSize(contents)
  {
    var lib := LibraryWith(contents);
    forall i | 0 <= i < |Packages()| ensures IsHeld(lib, FetchOf, Packages()[i], Archives(), ARCHIVE_SIZE, contents) {
      PackageHeld(contents, i);
    }
    hide Holds, SizeIn, FilesOf, FilesSize, DownloadOf, LibraryWith, Packages, Archives;
    AlikeTotals(lib, Packages(), Archives(), ARCHIVE_SIZE, FilesSize(contents));
  }

  /** A file of the bundle is the archive of one of the packages. */
  lemma ArchivesOnly(path: string)
    requires path in Archives()
    ensures exists i :: 0 <= i < |Packages()| && ArchivePath(Packages()[i]) == path
  {
    hide ArchivePath, ArchiveBytes, A, B, C;
    assert Packages()[0] == A() && Packages()[1] == B() && Packages()[2] == C();
  }

  ghost predicate DownloadedTo(lib: Library, fetch: string -> Option<Bytes>, p: Package, archives: map<string, Bytes>) {
    ArchivePath(p) in archives && DownloadOf(lib, fetch, p) == Verified(archives[ArchivePath(p)])
  }

  lemma DownloadedHold(
    lib: Library, fetch: string -> Option<Bytes>, packages: seq<Package>, archives: map<string, Bytes>)
    requires forall i | 0 <= i < |packages| :: DownloadedTo(lib, fetch, packages[i], archives)
    requires forall path | path in archives :: exists i :: 0 <= i < |packages| && ArchivePath(packages[i]) == path
    ensures var jobs := JobsOf(lib, fetch, packages);
      AllDownloaded(lib, fetch, packages) && HoldsFiles(jobs, Everything(jobs), archives)
      && TotalSize(jobs) == TotalIn(packages, archives)
  {
    hide DownloadOf, ArchivePath;
    var jobs := JobsOf(lib, fetch, packages);
    forall i | 0 <= i < |packages|
      ensures Size(jobs[i]) == SizeIn(packages[i], archives) && DownloadOf(lib, fetch, packages[i]).Verified? {
      assert DownloadedTo(lib, fetch, packages[i], archives);
    }
    TotalsAgree(jobs, packages, archives);
    forall i | i in Everything(jobs)
      ensures jobs[i].data == Verified(archives[jobs[i].path]) && jobs[i].path in archives {
      assert DownloadedTo(lib, fetch, packages[i], archives);
    }
    forall path | path in archives ensures exists i :: i in Everything(jobs) && i < |jobs| && jobs[i].path == path {
      var i :| 0 <= i < |packages| && ArchivePath(packages[i]) == path;
      assert i in Everything(jobs);
    }
  }

  lemma Downloaded(contents: map<string, Item>)
    requires IsContents(contents)
    ensures var jobs := JobsOf(LibraryWith(contents), FetchOf, Packages());
      Preparable(LibraryWith(contents), FetchOf, Packages()) && HoldsFiles(jobs, Everything(jobs), Archives())
  {
    var lib := LibraryWith(contents);
    AllHeld(contents);
    hide DownloadOf, LibraryWith, ArchivePath, TotalIn, ExpandedTotal, FilesOf, FilesSize, ArchiveFiles, AllDownloaded,
      HoldsFiles, Everything, Packages, Archives;
    forall i | 0 <= i < |Packages()| ensures DownloadedTo(lib, FetchOf, Packages()[i], Archives()) {
      assert IsHeld(lib, FetchOf, Packages()[i], Archives(), ARCHIVE_SIZE, contents);
    }
    forall path | path in Archives()
      ensures exists i :: 0 <= i < |Packages()| && ArchivePath(Packages()[i]) == path { ArchivesOnly(path); }
    DownloadedHold(lib, FetchOf, Packages(), Archives());
  }

  /** For files of any kind, the lock is accepted, the downloads succeed, and the bundle is what they leave. */
  lemma BundleIsPrepared(contents: map<string, Item>, revision: string)
    requires IsContents(contents)
    ensures var lib, b := LibraryWith(contents), BundleWith(contents, revision);
      var jobs := JobsOf(lib, FetchOf, Packages());
      && HashInjective(lib) && WellNamed(Packages()) && DistinctVersions(Packages())
      && (forall i | 0 <= i < |Packages()| :: IsHexChecksum(Packages()[i].checksum))
      && Preparable(lib, FetchOf, Packages()) && HoldsFiles(jobs, Everything(jobs), b.archives)
      && IsBundleOf(lib, revision, Metadata(), ThePlan(), b)
  {
    HashesDiffer(contents);
    NamesAccepted();
    Downloaded(contents);
    BundleHolds(contents, revision);
    hide HashInjective, WellNamed, DistinctVersions, IsHexChecksum, Preparable, HoldsFiles, IsBundleOf, LibraryWith,
      Packages, Archives;
    assert BundleWith(contents, revision).archives == Archives();
  }

  lemma BundleHolds(contents: map<string, Item>, revision: string)
    requires IsContents(contents)
    ensures IsBundleOf(LibraryWith(contents), revision, Metadata(), ThePlan(), BundleWith(contents, revision))
  {
    AllHeld(contents);
    hide Holds, TotalIn, ExpandedTotal, ManifestOf, LibraryWith, Packages, Archives, FilesOf, SizeIn, DownloadOf,
      Metadata, IsContents, FilesSize;
    assert ThePlan().packages == Packages();
    forall i | 0 <= i < |Packages()| ensures Holds(LibraryWith(contents), Packages()[i], Archives()) {
      assert IsHeld(LibraryWith(contents), FetchOf, Packages()[i], Archives(), ARCHIVE_SIZE, contents);
    }
  }

  /* ----- they are refused ----- */

  /** 400 MiB unpacked: within the limit for one archive, while three of them pass the total. */
  const BIG: nat := 400 * 1024 * 1024

  const DATA: string := "data"

  function BigFiles(): map<string, Item> { map[MANIFEST := Item([], false), DATA := Item(seq(BIG, _ => 0), false)] }

  /** A file `a` and a file below a directory `a`. */
  function ClashingFiles(): map<string, Item> {
    map[MANIFEST := Item([], false), "a" := Item([], false), "a/b" := Item([], false)]
  }

  lemma TwoNames(files: map<string, Item>, names: seq<string>)
    requires |names| == 2 && names[0] in files && names[1] in files
    ensures NamesSize(files, names) == |files[names[0]].data| + |files[names[1]].data|
  {
    var one := names[..1];
    assert one[..|one| - 1] == [] && one[|one| - 1] == names[0];
    assert NamesSize(files, one) == |files[names[0]].data|;
  }

  lemma BigSize()
    ensures IsContents(BigFiles()) && FilesSize(BigFiles()) == BIG
  {
    var files := BigFiles();
    BigFilesHave();
    var names := Sorted(files.Keys);
    assert names[0] in names && names[1] in names;
    assert names[0] != names[1] by { LessIrreflexive(names[0]); }
    TwoNames(files, names);
    hide BigFiles, Increasing, Sorted, NamesSize;
  }

  lemma BigFilesHave()
    ensures IsContents(BigFiles()) && BigFiles().Keys == {MANIFEST, DATA} && |BigFiles().Keys| == 2
    ensures BigFiles()[MANIFEST].data == [] && |BigFiles()[DATA].data| == BIG
  {
    assert CHECKSUMS[0] == '.' && MANIFEST[0] == 'C' && DATA[0] == 'd';
  }

  lemma BigFilesAreFlat()
    ensures NoClash(BigFiles())
  {
    var names := BigFiles().Keys + {CHECKSUMS};
    forall a, b | a in names && b in names ensures !Inside(a, b) {
      assert NoSlash(MANIFEST) && NoSlash(DATA) && NoSlash(CHECKSUMS);
      NothingInside(a, b);
    }
  }

  lemma NothingInside(a: string, b: string)
    requires NoSlash(b)
    ensures !Inside(a, b)
  {
    assert (a + "/")[|a|] == '/';
  }

  lemma FilesClash()
    ensures IsContents(ClashingFiles()) && !NoClash(ClashingFiles())
  {
    assert CHECKSUMS[0] == '.' && MANIFEST[0] == 'C';
    assert Inside("a", "a/b") by { assert "a" + "/" == "a/" && "a/" <= "a/b"; }
    assert "a" in ClashingFiles() && "a/b" in ClashingFiles();
    hide Inside;
  }

  lemma ClashingFilesAreEmpty()
    ensures FilesSize(ClashingFiles()) == 0
  {
    EmptyFiles(ClashingFiles(), Sorted(ClashingFiles().Keys));
  }

  lemma {:induction false} EmptyFiles(files: map<string, Item>, names: seq<string>)
    requires forall n | n in files :: files[n].data == []
    ensures NamesSize(files, names) == 0
  {
    if names != [] { EmptyFiles(files, names[..|names| - 1]); }
  }

  /** What the preparation leaves: header, metadata and archives are in order, and staging turns on the files. */
  lemma StagedIf(contents: map<string, Item>, revision: string)
    requires IsRevision(revision) && IsContents(contents)
    ensures var lib, b := LibraryWith(contents), BundleWith(contents, revision);
      && HeaderMatches(lib, ThePlan(), b.manifest) && SourcesMatch(Metadata(), b)
      && (Accepts(lib, Metadata(), ThePlan(), b) <==> NoClash(contents) && 3 * FilesSize(contents) <= MAX_TOTAL)
  {
    var lib, b := LibraryWith(contents), BundleWith(contents, revision);
    BundleIsPrepared(contents, revision);
    HeaderOfBundle(lib, revision, Metadata(), ThePlan(), b);
    MaterializedIsStaged(lib, revision, Metadata(), ThePlan(), b);
    ClashOfAll(contents);
    assert lib.manifestSize(b.manifest) == 1000;
    AllHeld(contents);
    MetadataIsShort();
    hide HeaderMatches, SourcesMatch, IsBundleOf, NoClash, NoClashes, FilesSize, ExpandedTotal, TotalIn, Accepts,
      LibraryWith, ManifestOf,
      Metadata, Packages, Archives, IsHeld, HashInjective, WellNamed, DistinctVersions, IsHexChecksum, Preparable,
      HoldsFiles, Everything, JobsOf;
  }

  lemma MetadataIsShort()
    ensures forall name | name in Metadata() :: |Metadata()[name]| <= Npm.READ_LIMIT
  {
  }

  lemma ClashOfAll(contents: map<string, Item>)
    requires IsContents(contents)
    ensures NoClashes(LibraryWith(contents), Packages(), Archives()) <==> NoClash(contents)
  {
    AllHeld(contents);
    hide NoClash, TotalIn, ExpandedTotal, LibraryWith, FilesOf, Holds, DownloadOf, Packages, Archives, SizeIn;
    assert IsHeld(LibraryWith(contents), FetchOf, Packages()[0], Archives(), ARCHIVE_SIZE, contents);
  }

  /** Staging refuses what the preparation left for the size of the unpacked files alone. */
  lemma LargeBundleIsRefused(revision: string)
    requires IsRevision(revision)
    ensures var lib, b := LibraryWith(BigFiles()), BundleWith(BigFiles(), revision);
      && IsBundleOf(lib, revision, Metadata(), ThePlan(), b) && HeaderMatches(lib, ThePlan(), b.manifest)
      && SourcesMatch(Metadata(), b)
      && NoClash(BigFiles()) && !Accepts(lib, Metadata(), ThePlan(), b)
  {
    BigSize();
    BigFilesAreFlat();
    hide BigFiles, LibraryWith, BundleWith, IsBundleOf, HeaderMatches, SourcesMatch, Accepts, NoClash, FilesSize;
    BundleIsPrepared(BigFiles(), revision);
    StagedIf(BigFiles(), revision);
  }

  /** And it refuses empty files alone for a path that is needed as a file and as a directory. */
  lemma ClashingBundleIsRefused(revision: string)
    requires IsRevision(revision)
    ensures var lib, b := LibraryWith(ClashingFiles()), BundleWith(ClashingFiles(), revision);
      && IsBundleOf(lib, revision, Metadata(), ThePlan(), b) && HeaderMatches(lib, ThePlan(), b.manifest)
      && SourcesMatch(Metadata(), b)
      && FilesSize(ClashingFiles()) == 0 && !Accepts(lib, Metadata(), ThePlan(), b)
  {
    FilesClash();
    ClashingFilesAreEmpty();
    hide ClashingFiles, LibraryWith, BundleWith, IsBundleOf, HeaderMatches, SourcesMatch, Accepts, NoClash, FilesSize;
    BundleIsPrepared(ClashingFiles(), revision);
    StagedIf(ClashingFiles(), revision);
  }
}

/** `stage` of the Cargo material: unpacking a bundle into a directory source. */
module CargoStage {
  import opened Basics
  import opened Fetch
  import opened CargoLock
  import opened CargoMaterials
  import opened Ordering
  import Npm = NpmMaterials

  /** A file below `vendor/<directory>`: one of the archive, or the checksums of all of them. */
  datatype VendorFile = Unpacked(item: Item) | Checksums(package: string, files: map<string, string>)

  type VendorDirectory = map<string, VendorFile>

  type Vendor = map<string, VendorDirectory>

  /* ----- what is unpacked ----- */

  function FilesOf(lib: Library, p: Package, archives: map<string, Bytes>): map<string, Item> {
    if ArchivePath(p) in archives then
      match ArchiveFiles(lib, archives[ArchivePath(p)], p)
      case Some(files) => files
      case None => map[]
    else map[]
  }

  function NamesSize(files: map<string, Item>, names: seq<string>): nat {
    if names == [] then 0
    else
      var last := names[|names| - 1];
      NamesSize(files, names[..|names| - 1]) + if last in files then |files[last].data| else 0
  }

  function FilesSize(files: map<string, Item>): nat { NamesSize(files, Sorted(files.Keys)) }

  /** The bytes that all packages unpack to. */
  function ExpandedTotal(lib: Library, packages: seq<Package>, archives: map<string, Bytes>): nat {
    if packages == [] then 0
    else
      ExpandedTotal(lib, packages[..|packages| - 1], archives)
        + FilesSize(FilesOf(lib, packages[|packages| - 1], archives))
  }

  function ChecksumsOf(lib: Library, p: Package, files: map<string, Item>): VendorFile {
    Checksums(p.checksum, map n | n in files :: lib.sha256(files[n].data))
  }

  /** The directory of one package. */
  function DirectoryFiles(lib: Library, p: Package, files: map<string, Item>): VendorDirectory {
    (map n | n in files :: Unpacked(files[n]))[CHECKSUMS := ChecksumsOf(lib, p, files)]
  }

  function VendorOf(lib: Library, packages: seq<Package>, archives: map<string, Bytes>): Vendor {
    if packages == [] then map[]
    else
      var p := packages[|packages| - 1];
      var directory := DirectoryFiles(lib, p, FilesOf(lib, p, archives));
      VendorOf(lib, packages[..|packages| - 1], archives)[Directory(p) := directory]
  }

  /** No name is a directory above another. */
  predicate Flat(names: set<string>) {
    forall a, b :: a in names && b in names ==> !Inside(a, b)
  }

  /** The files of an archive and its checksums can lie in one directory: no file is needed as a directory as well. The
      reading of an archive refuses a repeated path only. */
  predicate NoClash(files: map<string, Item>) { Flat(files.Keys + {CHECKSUMS}) }

  /* ----- when a bundle is accepted ----- */

  predicate DescriptorsMatch(packages: seq<SizedPackage>, expected: seq<Package>) {
    |packages| == |expected|
    && forall i | 0 <= i < |packages| :: packages[i].package == expected[i] && packages[i].size <= Npm.MAX_ARCHIVE
  }

  predicate HeaderMatches(lib: Library, plan: Plan, m: Manifest) {
    && lib.manifestSize(m) <= Npm.READ_LIMIT && m.bytesVerified && !m.identityVerified && IsRevision(m.sourceRevision)
    && m.payload.algorithm == plan.algorithm && m.payload.files == plan.files
    && DescriptorsMatch(m.payload.packages, plan.packages)
    && m.materialDigest == lib.payloadDigest(m.payload)
  }

  predicate SourcesMatch(metadata: map<string, Bytes>, b: Bundle) {
    forall name | name in metadata :: Npm.Readable(b.sources, name, Npm.READ_LIMIT) && b.sources[name] == metadata[name]
  }

  predicate ArchiveMatches(lib: Library, p: Package, size: nat, archives: map<string, Bytes>) {
    && Npm.Readable(archives, ArchivePath(p), Npm.MAX_ARCHIVE) && |archives[ArchivePath(p)]| == size
    && ArchiveFiles(lib, archives[ArchivePath(p)], p).Some?
  }

  ghost predicate NoClashes(lib: Library, packages: seq<Package>, archives: map<string, Bytes>) {
    forall i | 0 <= i < |packages| :: NoClash(FilesOf(lib, packages[i], archives))
  }

  ghost predicate Accepts(lib: Library, metadata: map<string, Bytes>, plan: Plan, b: Bundle) {
    && HeaderMatches(lib, plan, b.manifest) && SourcesMatch(metadata, b)
    && (forall i | 0 <= i < |plan.packages| ::
          ArchiveMatches(lib, plan.packages[i], b.manifest.payload.packages[i].size, b.archives))
    && NoClashes(lib, plan.packages, b.archives)
    && TotalIn(plan.packages, b.archives) <= MAX_TOTAL
    && ExpandedTotal(lib, plan.packages, b.archives) <= MAX_TOTAL
  }

  /* ----- unpacking one archive ----- */

  /** The first files of a directory, in the order in which they are written. */
  function Written(files: map<string, Item>, names: seq<string>): VendorDirectory {
    map n | n in names && n in files :: Unpacked(files[n])
  }

  function Summed(lib: Library, files: map<string, Item>, names: seq<string>): map<string, string> {
    map n | n in names && n in files :: lib.sha256(files[n].data)
  }

  lemma {:induction false} NamesGrow(files: map<string, Item>, names: seq<string>, n: nat)
    requires n <= |names|
    ensures NamesSize(files, names[..n]) <= NamesSize(files, names)
  {
    if n < |names| {
      NamesGrow(files, names[..|names| - 1], n);
      assert names[..|names| - 1][..n] == names[..n];
    } else {
      assert names[..n] == names;
    }
  }

  lemma SizeStep(files: map<string, Item>, names: seq<string>, i: nat)
    requires i < |names| && names[i] in files
    ensures NamesSize(files, names[..i + 1])
            == NamesSize(files, names[..i]) + |files[names[i]].data| <= NamesSize(files, names)
  {
    NamesGrow(files, names, i + 1);
    assert names[..i + 1][..i] == names[..i];
  }

  lemma NewName(names: seq<string>, i: nat)
    requires Increasing(names) && i < |names|
    ensures names[i] !in names[..i] && forall n :: n in names[..i + 1] <==> n in names[..i] || n == names[i]
  {
    if names[i] in names[..i] {
      var j :| 0 <= j < i && names[j] == names[i];
      IncreasingDistinct(names, i, j);
    }
    assert names[..i + 1] == names[..i] + [names[i]];
  }

  /** The next file is new, and writing it is one more step. */
  lemma WriteStep(lib: Library, files: map<string, Item>, names: seq<string>, i: nat)
    requires Increasing(names) && i < |names| && names[i] in files
    ensures names[i] !in Written(files, names[..i])
    ensures Written(files, names[..i + 1]) == Written(files, names[..i])[names[i] := Unpacked(files[names[i]])]
    ensures Summed(lib, files, names[..i + 1])
            == Summed(lib, files, names[..i])[names[i] := lib.sha256(files[names[i]].data)]
  {
    NewName(names, i);
    hide Increasing;
  }

  lemma WriteEnd(lib: Library, p: Package, files: map<string, Item>)
    requires CHECKSUMS !in files
    ensures var names := Sorted(files.Keys);
      CHECKSUMS !in Written(files, names)
      && Written(files, names)[CHECKSUMS := Checksums(p.checksum, Summed(lib, files, names))]
         == DirectoryFiles(lib, p, files)
  {
    hide Directory, Increasing;
    var names := Sorted(files.Keys);
    assert Written(files, names) == map n | n in files :: Unpacked(files[n]);
    assert Summed(lib, files, names) == map n | n in files :: lib.sha256(files[n].data);
  }

  lemma WriteStart(lib: Library, files: map<string, Item>)
    ensures Written(files, []) == map[] && Summed(lib, files, []) == map[] && NamesSize(files, []) == 0
    ensures Flat({})
  {
  }

  /** `write_file`: a file is created, never overwritten, and so are the directories above it. */
  predicate CanWrite(directory: VendorDirectory, name: string) {
    name !in directory && forall w | w in directory :: !Inside(w, name) && !Inside(name, w)
  }

  lemma WritesStayFlat(directory: VendorDirectory, name: string)
    requires Flat(directory.Keys) && name !in directory
    ensures CanWrite(directory, name) <==> Flat(directory.Keys + {name})
  {
    assert !Inside(name, name) by { assert |name + "/"| > |name|; }
  }

  /** A file that cannot be written clashes with one of the archive. */
  lemma FileFits(lib: Library, files: map<string, Item>, names: seq<string>, i: nat)
    requires Increasing(names) && i < |names| && names[i] in files && Flat(Written(files, names[..i]).Keys)
    ensures CanWrite(Written(files, names[..i]), names[i]) ==> Flat(Written(files, names[..i + 1]).Keys)
    ensures !CanWrite(Written(files, names[..i]), names[i]) ==> !NoClash(files)
  {
    WriteStep(lib, files, names, i);
    hide Increasing, Inside;
    var directory, name := Written(files, names[..i]), names[i];
    assert Written(files, names[..i + 1]).Keys == directory.Keys + {name} <= files.Keys;
    WritesStayFlat(directory, name);
  }

  lemma ChecksumsFit(files: map<string, Item>)
    requires CHECKSUMS !in files && Flat(Written(files, Sorted(files.Keys)).Keys)
    ensures CanWrite(Written(files, Sorted(files.Keys)), CHECKSUMS) <==> NoClash(files)
  {
    hide Increasing, Inside;
    assert Written(files, Sorted(files.Keys)).Keys == files.Keys;
    WritesStayFlat(Written(files, Sorted(files.Keys)), CHECKSUMS);
  }

  /** The files and then the checksums are written; within a directory of its own that fails only if one is needed as a
      file and as a directory. */
  method Unpack(lib: Library, vendor: Vendor, p: Package, files: map<string, Item>, expanded: nat)
    returns (ok: bool, after: Vendor, total: nat)
    requires Directory(p) !in vendor && CHECKSUMS !in files && expanded <= MAX_TOTAL
    ensures ok <==> NoClash(files) && expanded + FilesSize(files) <= MAX_TOTAL
    ensures ok
            ==> after == vendor[Directory(p) := DirectoryFiles(lib, p, files)] && total == expanded + FilesSize(files)
  {
    hide Directory, DirectoryFiles, Written, Summed, NamesSize, Increasing, Flat, CanWrite, NoClash;
    var names := Sorted(files.Keys);
    var directory: VendorDirectory := map[];
    var checksums: map<string, string> := map[];
    after, total := vendor, expanded;
    WriteStart(lib, files);
    assert directory.Keys == {};
    for i := 0 to |names|
      invariant total == expanded + NamesSize(files, names[..i]) <= MAX_TOTAL
      invariant directory == Written(files, names[..i]) && checksums == Summed(lib, files, names[..i])
      invariant Flat(directory.Keys)
    {
      var name := names[i];
      assert name in names;
      WriteStep(lib, files, names, i);
      SizeStep(files, names, i);
      FileFits(lib, files, names, i);
      total := total + |files[name].data|;
      if total > MAX_TOTAL || !CanWrite(directory, name) { return false, after, total; }
      directory := directory[name := Unpacked(files[name])];
      checksums := checksums[name := lib.sha256(files[name].data)];
    }
    assert names[..|names|] == names;
    WriteEnd(lib, p, files);
    ChecksumsFit(files);
    if !CanWrite(directory, CHECKSUMS) { return false, after, total; }
    directory := directory[CHECKSUMS := Checksums(p.checksum, checksums)];
    ok, after := true, vendor[Directory(p) := directory];
  }

  /* ----- unpacking all of them ----- */

  lemma {:induction false} VendorKeys(lib: Library, packages: seq<Package>, archives: map<string, Bytes>, dir: string)
    ensures dir in VendorOf(lib, packages, archives)
            <==> exists i :: 0 <= i < |packages| && Directory(packages[i]) == dir
  {
    hide Directory, DirectoryFiles;
    if packages != [] {
      var front := packages[..|packages| - 1];
      VendorKeys(lib, front, archives, dir);
      assert forall i | 0 <= i < |front| :: front[i] == packages[i];
      if Directory(packages[|packages| - 1]) == dir { assert dir in VendorOf(lib, packages, archives); }
    }
  }

  /** The directory of the next package is a new one. */
  lemma NextIsNew(lib: Library, packages: seq<Package>, archives: map<string, Bytes>, i: nat)
    requires WellNamed(packages) && DistinctVersions(packages) && i < |packages|
    ensures Directory(packages[i]) !in VendorOf(lib, packages[..i], archives)
  {
    hide IsName, IsVersion, VendorOf;
    VendorKeys(lib, packages[..i], archives, Directory(packages[i]));
    if Directory(packages[i]) in VendorOf(lib, packages[..i], archives) {
      var j :| 0 <= j < i && Directory(packages[j]) == Directory(packages[i]);
      DirectoryInjective(packages[j], packages[i]);
    }
  }

  lemma {:induction false} TotalsGrow(lib: Library, packages: seq<Package>, archives: map<string, Bytes>, n: nat)
    requires n <= |packages|
    ensures TotalIn(packages[..n], archives) <= TotalIn(packages, archives)
    ensures ExpandedTotal(lib, packages[..n], archives) <= ExpandedTotal(lib, packages, archives)
  {
    if n < |packages| {
      TotalsGrow(lib, packages[..|packages| - 1], archives, n);
      assert packages[..|packages| - 1][..n] == packages[..n];
    } else {
      assert packages[..n] == packages;
    }
  }

  lemma PackageStep(lib: Library, packages: seq<Package>, archives: map<string, Bytes>, i: nat)
    requires i < |packages|
    ensures var p, front := packages[i], packages[..i];
      && TotalIn(packages[..i + 1], archives)
         == TotalIn(front, archives) + SizeIn(p, archives) <= TotalIn(packages, archives)
      && ExpandedTotal(lib, packages[..i + 1], archives)
         == ExpandedTotal(lib, front, archives) + FilesSize(FilesOf(lib, p, archives))
         <= ExpandedTotal(lib, packages, archives)
      && VendorOf(lib, packages[..i + 1], archives)
         == VendorOf(lib, front, archives)[Directory(p) := DirectoryFiles(lib, p, FilesOf(lib, p, archives))]
  {
    TotalsGrow(lib, packages, archives, i + 1);
    assert packages[..i + 1][..i] == packages[..i];
    hide FilesOf, Directory, DirectoryFiles, FilesSize, SizeIn;
  }

  datatype Staged = Staged(workspace: map<string, Bytes>, vendor: Vendor)

  const CONFIG_FILE: string := ".cargo/config.toml"

  /** `workspace` holds the committed workspace files, none of them below `.cargo`, and `config` the offline
      configuration. */
  method Stage(
    lib: Library, metadata: map<string, Bytes>, plan: Plan, workspace: map<string, Bytes>, config: Bytes, b: Bundle)
    returns (r: Result<Staged>)
    requires WellNamed(plan.packages) && DistinctVersions(plan.packages) && CONFIG_FILE !in workspace
    ensures r.Ok? <==> Accepts(lib, metadata, plan, b)
    ensures r.Ok? ==> r.value == Staged(workspace[CONFIG_FILE := config], VendorOf(lib, plan.packages, b.archives))
  {
    hide IsName, IsVersion, Directory, DirectoryFiles, VendorOf, SourcesMatch, NoClash;
    hide WellNamed, DistinctVersions, TotalIn, ExpandedTotal, FilesSize, ArchivePath, ArchiveFiles, SizeIn, FilesOf;
    if !HeaderMatches(lib, plan, b.manifest) || !SourcesMatch(metadata, b) { return MaterialFailed; }
    var entries, total, expanded := b.manifest.payload.packages, 0, 0;
    var vendor: Vendor := map[];
    EmptyStage(lib, b.archives);
    for i := 0 to |entries|
      invariant forall j | 0 <= j < i :: ArchiveMatches(lib, plan.packages[j], entries[j].size, b.archives)
      invariant total == TotalIn(plan.packages[..i], b.archives) <= MAX_TOTAL
      invariant expanded == ExpandedTotal(lib, plan.packages[..i], b.archives) <= MAX_TOTAL
      invariant vendor == VendorOf(lib, plan.packages[..i], b.archives)
      invariant forall j | 0 <= j < i :: NoClash(FilesOf(lib, plan.packages[j], b.archives))
    {
      var p, size := entries[i].package, entries[i].size;
      assert p == plan.packages[i];
      PackageStep(lib, plan.packages, b.archives, i);
      NextIsNew(lib, plan.packages, b.archives, i);
      if !Npm.Readable(b.archives, ArchivePath(p), Npm.MAX_ARCHIVE) { return MaterialFailed; }
      var data := b.archives[ArchivePath(p)];
      ReadEntry(lib, p, b.archives);
      total := total + |data|;
      if |data| != size || total > MAX_TOTAL { return MaterialFailed; }
      var files := ArchiveFiles(lib, data, p);
      if files.None? { return MaterialFailed; }
      var ok;
      NoReserved(lib, data, p);
      ok, vendor, expanded := Unpack(lib, vendor, p, files.value, expanded);
      if !ok { return MaterialFailed; }
    }
    assert plan.packages[..|entries|] == plan.packages;
    r := Ok(Staged(workspace[CONFIG_FILE := config], vendor));
  }

  lemma EmptyStage(lib: Library, archives: map<string, Bytes>)
    ensures TotalIn([], archives) == 0 && ExpandedTotal(lib, [], archives) == 0 && VendorOf(lib, [], archives) == map[]
  {
  }

  lemma ReadEntry(lib: Library, p: Package, archives: map<string, Bytes>)
    requires ArchivePath(p) in archives
    ensures SizeIn(p, archives) == |archives[ArchivePath(p)]|
    ensures ArchiveFiles(lib, archives[ArchivePath(p)], p).Some? ==>
              FilesOf(lib, p, archives) == ArchiveFiles(lib, archives[ArchivePath(p)], p).value
  {
  }

  lemma NoReserved(lib: Library, data: Bytes, p: Package)
    requires ArchiveFiles(lib, data, p).Some?
    ensures CHECKSUMS !in ArchiveFiles(lib, data, p).value
  {
  }

  /* ----- preparation and staging ----- */

  /** A prepared bundle is staged for the same metadata, at whatever revision, exactly when its manifest and every
      metadata file are within the read limit, no archive uses one path as a file and as a directory, and the archives
      together do not unpack to more than the total: the preparation checks neither of the last two. */
  lemma MaterializedIsStaged(lib: Library, revision: string, metadata: map<string, Bytes>, plan: Plan, b: Bundle)
    requires IsRevision(revision) && IsBundleOf(lib, revision, metadata, plan, b)
    ensures Accepts(lib, metadata, plan, b) <==>
              && lib.manifestSize(b.manifest) <= Npm.READ_LIMIT
              && (forall name | name in metadata :: |metadata[name]| <= Npm.READ_LIMIT)
              && NoClashes(lib, plan.packages, b.archives) && ExpandedTotal(lib, plan.packages, b.archives) <= MAX_TOTAL
  {
    HeldMatches(lib, plan, b);
    HeaderOfBundle(lib, revision, metadata, plan, b);
    hide HeaderMatches, IsBundleOf, ExpandedTotal, TotalIn, ArchiveMatches, Holds, ManifestOf, NoClashes;
  }

  lemma HeldMatches(lib: Library, plan: Plan, b: Bundle)
    requires |b.manifest.payload.packages| == |plan.packages|
    requires forall i | 0 <= i < |plan.packages| ::
               Holds(lib, plan.packages[i], b.archives)
               && b.manifest.payload.packages[i].size == SizeIn(plan.packages[i], b.archives)
    ensures forall i | 0 <= i < |plan.packages| ::
              ArchiveMatches(lib, plan.packages[i], b.manifest.payload.packages[i].size, b.archives)
  {
    hide ArchivePath;
  }

  lemma HeaderOfBundle(lib: Library, revision: string, metadata: map<string, Bytes>, plan: Plan, b: Bundle)
    requires IsRevision(revision) && IsBundleOf(lib, revision, metadata, plan, b)
    ensures HeaderMatches(lib, plan, b.manifest) <==> lib.manifestSize(b.manifest) <= Npm.READ_LIMIT
    ensures SourcesMatch(metadata, b) <==> forall name | name in metadata :: |metadata[name]| <= Npm.READ_LIMIT
  {
  }

  /** In an accepted bundle every archive has the checksum of the lock file and the recorded size, and the vendor
      directory of its package holds exactly its files and their checksums. */
  lemma StagedIsCommitted(lib: Library, metadata: map<string, Bytes>, plan: Plan, b: Bundle, i: nat)
    requires WellNamed(plan.packages) && DistinctVersions(plan.packages) && Accepts(lib, metadata, plan, b)
             && i < |plan.packages|
    ensures var p := plan.packages[i];
      && ArchivePath(p) in b.archives && lib.sha256(b.archives[ArchivePath(p)]) == p.checksum
      && b.manifest.payload.packages[i] == SizedPackage(p, |b.archives[ArchivePath(p)]|)
      && ArchiveFiles(lib, b.archives[ArchivePath(p)], p).Some?
      && Directory(p) in VendorOf(lib, plan.packages, b.archives)
      && VendorOf(lib, plan.packages, b.archives)[Directory(p)]
         == DirectoryFiles(lib, p, ArchiveFiles(lib, b.archives[ArchivePath(p)], p).value)
  {
    assert ArchiveMatches(lib, plan.packages[i], b.manifest.payload.packages[i].size, b.archives);
    ReadEntry(lib, plan.packages[i], b.archives);
    VendorAt(lib, plan.packages, b.archives, i);
  }

  lemma {:induction false} VendorAt(lib: Library, packages: seq<Package>, archives: map<string, Bytes>, i: nat)
    requires WellNamed(packages) && DistinctVersions(packages) && i < |packages|
    ensures Directory(packages[i]) in VendorOf(lib, packages, archives)
    ensures VendorOf(lib, packages, archives)[Directory(packages[i])]
            == DirectoryFiles(lib, packages[i], FilesOf(lib, packages[i], archives))
  {
    hide IsName, IsVersion, Directory, DirectoryFiles, FilesOf;
    var n := |packages| - 1;
    if i < n {
      VendorAt(lib, packages[..n], archives, i);
      NextIsNew(lib, packages, archives, n);
    }
  }
}

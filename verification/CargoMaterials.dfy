/** Cargo archive material: the second `materialize`, which keeps one download per package, and `stage`, which unpacks a
    bundle into a directory source. */
module CargoMaterials {
  import opened Basics
  import opened Fetch
  import opened CargoLock
  import opened Ordering
  import Npm = NpmMaterials

  type FileDigest = Npm.FileDigest

  datatype Item = Item(data: Bytes, executable: bool)

  /** The members of an archive under their safe, distinct paths. */
  datatype Tar = Tar(files: map<string, Item>, directories: set<string>)

  /** The library code the script relies on: the hash, the reading of a compressed archive (`None` where a size, a path,
      a kind of member or the padding is refused), the digest of a payload and the length of the canonical manifest
      text. */
  datatype Library = Library(
    sha256: Bytes -> string, readTar: Bytes -> Option<Tar>, payloadDigest: Payload -> string,
    manifestSize: Manifest -> nat)

  /** The hash is taken to be free of collisions. */
  ghost predicate HashInjective(lib: Library) {
    forall a, b :: lib.sha256(a) == lib.sha256(b) ==> a == b
  }

  datatype Plan = Plan(algorithm: string, files: seq<FileDigest>, packages: seq<Package>)

  datatype SizedPackage = SizedPackage(package: Package, size: nat)

  datatype Payload = Payload(algorithm: string, files: seq<FileDigest>, packages: seq<SizedPackage>)

  datatype Manifest = Manifest(
    payload: Payload, sourceRevision: string, materialDigest: string, bytesVerified: bool, identityVerified: bool)

  /** What `materialize` leaves on disk. */
  datatype Bundle = Bundle(manifest: Manifest, sources: map<string, Bytes>, archives: map<string, Bytes>)

  function ArchivePath(p: Package): string { "archives/" + p.checksum + ".crate" }

  const CHECKSUMS: string := ".cargo-checksum.json"
  const MANIFEST: string := "Cargo.toml"

  /** The path is below the directory. */
  predicate Inside(dir: string, path: string) { dir + "/" <= path }

  function Relative(dir: string, path: string): string
    requires Inside(dir, path)
  {
    path[|dir| + 1..]
  }

  /** The files of an archive relative to a directory that holds them all. */
  function RelativeFiles(t: Tar, dir: string): map<string, Item>
    requires forall path | path in t.files :: Inside(dir, path)
  {
    map n | n in (set path | path in t.files :: Relative(dir, path)) && dir + "/" + n in t.files ::
      t.files[dir + "/" + n]
  }

  /** Every member has to lie in the directory of the package, `Cargo.toml` has to be there, and the name of the
      checksum file is reserved. */
  function Contents(t: Tar, dir: string): Option<map<string, Item>> {
    if (exists path :: path in t.files && !Inside(dir, path))
       || (exists d :: d in t.directories && d != dir && !Inside(dir, d)) then None
    else
      var files := RelativeFiles(t, dir);
      if CHECKSUMS in files || MANIFEST !in files then None else Some(files)
  }

  /** `archive_files`: the files of an archive, if its bytes are those of the package. */
  function ArchiveFiles(lib: Library, data: Bytes, p: Package): Option<map<string, Item>> {
    if |data| > Npm.MAX_ARCHIVE || lib.sha256(data) != p.checksum then None
    else
      match lib.readTar(data)
      case None => None
      case Some(t) => Contents(t, Directory(p))
  }

  function DownloadOf(lib: Library, fetch: string -> Option<Bytes>, p: Package): Download {
    match fetch(p.url)
    case None => Failed
    case Some(data) => if ArchiveFiles(lib, data, p).Some? then Verified(data) else Failed
  }

  function JobOf(lib: Library, fetch: string -> Option<Bytes>, p: Package): Job<(string, string)> {
    Job((p.name, p.version), ArchivePath(p), DownloadOf(lib, fetch, p))
  }

  function JobsOf(
    lib: Library, fetch: string -> Option<Bytes>, packages: seq<Package>): (jobs: seq<Job<(string, string)>>)
    ensures |jobs| == |packages| && forall i | 0 <= i < |jobs| :: jobs[i] == JobOf(lib, fetch, packages[i])
  {
    seq(|packages|, i requires 0 <= i < |packages| => JobOf(lib, fetch, packages[i]))
  }

  /* ----- what a preparation needs ----- */

  /** An archive has one directory: it cannot hold the files of two packages. */
  lemma OneDirectory(t: Tar, a: string, b: string)
    requires NoSlash(a) && NoSlash(b) && Contents(t, a).Some? && Contents(t, b).Some?
    ensures a == b
  {
    var path := a + "/" + MANIFEST;
    assert path in t.files && Inside(b, path);
    hide Contents;
    assert path[|a|] == '/' && forall i | 0 <= i < |a| :: path[i] == a[i];
    assert path[|b|] == '/' && forall i | 0 <= i < |b| :: path[i] == b[i] by {
      assert forall i | 0 <= i <= |b| :: path[i] == (b + "/")[i];
    }
    assert |a| == |b|;
  }

  ghost predicate DistinctChecksums(packages: seq<Package>) {
    forall i, j | 0 <= i < j < |packages| :: packages[i].checksum != packages[j].checksum
  }

  ghost predicate AllDownloaded(lib: Library, fetch: string -> Option<Bytes>, packages: seq<Package>) {
    forall i | 0 <= i < |packages| :: DownloadOf(lib, fetch, packages[i]).Verified?
  }

  lemma VerifiedOnce(lib: Library, data: Bytes, p: Package, q: Package)
    requires IsName(p.name) && IsVersion(p.version) && IsName(q.name) && IsVersion(q.version)
    requires ArchiveFiles(lib, data, p).Some? && ArchiveFiles(lib, data, q).Some?
    ensures p.name == q.name && p.version == q.version
  {
    hide IsName, IsVersion, Contents;
    DirectoryNoSlash(p);
    DirectoryNoSlash(q);
    OneDirectory(lib.readTar(data).value, Directory(p), Directory(q));
    DirectoryInjective(p, q);
  }

  /** Packages whose archives all verify have different checksums: one checksum means one archive, and an archive
      verifies for one package version only. */
  lemma VerifiedChecksumsDiffer(lib: Library, fetch: string -> Option<Bytes>, packages: seq<Package>)
    requires HashInjective(lib) && WellNamed(packages) && DistinctVersions(packages)
             && AllDownloaded(lib, fetch, packages)
    ensures DistinctChecksums(packages)
  {
    hide IsName, IsVersion, Contents;
    forall i, j | 0 <= i < j < |packages| ensures packages[i].checksum != packages[j].checksum {
      var a, b := DownloadOf(lib, fetch, packages[i]).bytes, DownloadOf(lib, fetch, packages[j]).bytes;
      if packages[i].checksum == packages[j].checksum {
        assert lib.sha256(a) == lib.sha256(b);
        VerifiedOnce(lib, a, packages[i], packages[j]);
      }
    }
  }

  lemma PathIffChecksum(p: Package, q: Package)
    ensures ArchivePath(p) == ArchivePath(q) <==> p.checksum == q.checksum
  {
    assert ArchivePath(p)[9..|ArchivePath(p)| - 6] == p.checksum;
    assert ArchivePath(q)[9..|ArchivePath(q)| - 6] == q.checksum;
  }

  lemma PathsDiffer(lib: Library, fetch: string -> Option<Bytes>, packages: seq<Package>)
    requires DistinctChecksums(packages)
    ensures DistinctPaths(JobsOf(lib, fetch, packages))
  {
    forall i, j | 0 <= i < j < |packages|
      ensures JobsOf(lib, fetch, packages)[i].path != JobsOf(lib, fetch, packages)[j].path {
      PathIffChecksum(packages[i], packages[j]);
    }
  }

  ghost predicate Preparable(lib: Library, fetch: string -> Option<Bytes>, packages: seq<Package>) {
    AllDownloaded(lib, fetch, packages) && TotalSize(JobsOf(lib, fetch, packages)) <= MAX_TOTAL
  }

  /** The download loop succeeds exactly when every archive verifies and the total is within the limit: archives are
      written under their checksum, and no two of them clash. */
  lemma PreparableIffSucceeds(lib: Library, fetch: string -> Option<Bytes>, packages: seq<Package>)
    requires HashInjective(lib) && WellNamed(packages) && DistinctVersions(packages)
    ensures Preparable(lib, fetch, packages) <==> Succeeds(JobsOf(lib, fetch, packages))
  {
    hide IsName, IsVersion, DownloadOf;
    if AllDownloaded(lib, fetch, packages) {
      VerifiedChecksumsDiffer(lib, fetch, packages);
      PathsDiffer(lib, fetch, packages);
    }
    var jobs := JobsOf(lib, fetch, packages);
    assert forall i | 0 <= i < |packages| :: jobs[i].data == DownloadOf(lib, fetch, packages[i]);
  }

  /* ----- the bundle ----- */

  function SizeIn(p: Package, archives: map<string, Bytes>): nat {
    if ArchivePath(p) in archives then |archives[ArchivePath(p)]| else 0
  }

  function SizedPackages(packages: seq<Package>, archives: map<string, Bytes>): (s: seq<SizedPackage>)
    ensures |s| == |packages| && forall i | 0 <= i < |s| ::
              s[i] == SizedPackage(packages[i], SizeIn(packages[i], archives))
  {
    seq(|packages|, i requires 0 <= i < |packages| => SizedPackage(packages[i], SizeIn(packages[i], archives)))
  }

  function TotalIn(packages: seq<Package>, archives: map<string, Bytes>): nat {
    if packages == [] then 0
    else TotalIn(packages[..|packages| - 1], archives) + SizeIn(packages[|packages| - 1], archives)
  }

  function ManifestOf(lib: Library, revision: string, plan: Plan, archives: map<string, Bytes>): Manifest {
    var payload := Payload(plan.algorithm, plan.files, SizedPackages(plan.packages, archives));
    Manifest(payload, revision, lib.payloadDigest(payload), true, false)
  }

  /** The archive of the package is there and verifies. */
  ghost predicate Holds(lib: Library, p: Package, archives: map<string, Bytes>) {
    ArchivePath(p) in archives && ArchiveFiles(lib, archives[ArchivePath(p)], p).Some?
  }

  ghost predicate IsBundleOf(lib: Library, revision: string, metadata: map<string, Bytes>, plan: Plan, b: Bundle) {
    && b.sources == metadata
    && (forall i | 0 <= i < |plan.packages| :: Holds(lib, plan.packages[i], b.archives))
    && b.manifest == ManifestOf(lib, revision, plan, b.archives)
    && TotalIn(plan.packages, b.archives) <= MAX_TOTAL
  }

  lemma {:induction false} TotalsAgree(
    jobs: seq<Job<(string, string)>>, packages: seq<Package>, archives: map<string, Bytes>)
    requires |jobs| == |packages| && forall i | 0 <= i < |jobs| :: Size(jobs[i]) == SizeIn(packages[i], archives)
    ensures TotalSize(jobs) == TotalIn(packages, archives)
  {
    if jobs != [] { TotalsAgree(jobs[..|jobs| - 1], packages[..|packages| - 1], archives); }
  }

  lemma FetchedHolds(
    lib: Library, fetch: string -> Option<Bytes>, packages: seq<Package>, archives: map<string, Bytes>, i: nat)
    requires HoldsFiles(JobsOf(lib, fetch, packages), Everything(JobsOf(lib, fetch, packages)), archives)
             && i < |packages|
    ensures Holds(lib, packages[i], archives) && Size(JobsOf(lib, fetch, packages)[i]) == SizeIn(packages[i], archives)
  {
    assert i in Everything(JobsOf(lib, fetch, packages));
  }

  function SizedBy(packages: seq<Package>, sizes: seq<nat>): seq<SizedPackage>
    requires |packages| == |sizes|
  {
    seq(|packages|, i requires 0 <= i < |packages| => SizedPackage(packages[i], sizes[i]))
  }

  lemma AllFetchedHold(
    lib: Library, fetch: string -> Option<Bytes>, packages: seq<Package>, archives: map<string, Bytes>)
    requires HoldsFiles(JobsOf(lib, fetch, packages), Everything(JobsOf(lib, fetch, packages)), archives)
    ensures forall i | 0 <= i < |packages| ::
              Holds(lib, packages[i], archives)
              && Size(JobsOf(lib, fetch, packages)[i]) == SizeIn(packages[i], archives)
  {
    forall i | 0 <= i < |packages|
      ensures Holds(lib, packages[i], archives)
              && Size(JobsOf(lib, fetch, packages)[i]) == SizeIn(packages[i], archives)
    {
      FetchedHolds(lib, fetch, packages, archives, i);
    }
  }

  lemma FetchedAreSized(
    lib: Library, fetch: string -> Option<Bytes>, packages: seq<Package>, archives: map<string, Bytes>, sizes: seq<nat>)
    requires var jobs := JobsOf(lib, fetch, packages);
      Succeeds(jobs) && HoldsFiles(jobs, Everything(jobs), archives) && |sizes| == |jobs|
      && forall i | 0 <= i < |jobs| :: sizes[i] == Size(jobs[i])
    ensures SizedBy(packages, sizes) == SizedPackages(packages, archives) && TotalIn(packages, archives) <= MAX_TOTAL
    ensures forall i | 0 <= i < |packages| :: Holds(lib, packages[i], archives)
  {
    hide HoldsFiles, Everything, JobsOf;
    AllFetchedHold(lib, fetch, packages, archives);
    TotalsAgree(JobsOf(lib, fetch, packages), packages, archives);
  }

  method Materialize(
    lib: Library, revision: string, metadata: map<string, Bytes>, plan: Plan, fetch: string -> Option<Bytes>)
    returns (r: Result<Bundle>, ghost trace: seq<Snapshot>)
    requires HashInjective(lib) && WellNamed(plan.packages) && DistinctVersions(plan.packages)
    ensures r.Ok? <==> Preparable(lib, fetch, plan.packages)
    ensures r.Ok? ==> IsBundleOf(lib, revision, metadata, plan, r.value)
    ensures r.Ok?
            ==> HoldsFiles(JobsOf(lib, fetch, plan.packages), Everything(JobsOf(lib, fetch, plan.packages)),
              r.value.archives)
    ensures IsTrace(JobsOf(lib, fetch, plan.packages), trace)
            && (r.Ok? ==> Completes(JobsOf(lib, fetch, plan.packages), trace))
  {
    hide ArchiveFiles, Preparable, Succeeds, HoldsFiles, IsTrace, Completes;
    PreparableIffSucceeds(lib, fetch, plan.packages);
    var jobs := JobsOf(lib, fetch, plan.packages);
    var outcome;
    outcome, trace := FetchAll(jobs);
    match outcome {
      case Rejected => r := MaterialFailed;
      case Fetched(data, sizes) =>
        FetchedAreSized(lib, fetch, plan.packages, data, sizes);
        var payload := Payload(plan.algorithm, plan.files, SizedBy(plan.packages, sizes));
        r := Ok(Bundle(Manifest(payload, revision, lib.payloadDigest(payload), true, false), metadata, data));
    }
  }

  /** Whatever a registry answers, only one archive verifies. */
  lemma DownloadDetermined(lib: Library, fetch: string -> Option<Bytes>, other: string -> Option<Bytes>, p: Package)
    requires HashInjective(lib) && DownloadOf(lib, fetch, p).Verified? && DownloadOf(lib, other, p).Verified?
    ensures DownloadOf(lib, fetch, p) == DownloadOf(lib, other, p)
  {
    hide Contents;
    var x, y := DownloadOf(lib, fetch, p).bytes, DownloadOf(lib, other, p).bytes;
    assert lib.sha256(x) == lib.sha256(y);
  }

  /** Two preparations of one plan leave the same bundle, whatever the schedules were and whatever the registry answered
      to each of them. */
  lemma BundleIgnoresSchedule(
    lib: Library, revision: string, metadata: map<string, Bytes>, plan: Plan, fetch: string -> Option<Bytes>,
    other: string -> Option<Bytes>,
    b: Bundle, c: Bundle)
    requires HashInjective(lib)
    requires IsBundleOf(lib, revision, metadata, plan, b) && IsBundleOf(lib, revision, metadata, plan, c)
    requires HoldsFiles(JobsOf(lib, fetch, plan.packages), Everything(JobsOf(lib, fetch, plan.packages)), b.archives)
    requires HoldsFiles(JobsOf(lib, other, plan.packages), Everything(JobsOf(lib, other, plan.packages)), c.archives)
    ensures b == c
  {
    SameJobs(lib, fetch, other, plan.packages, b.archives, c.archives);
    hide HashInjective, JobsOf, HoldsFiles, Everything;
    FilesDetermined(JobsOf(lib, fetch, plan.packages), b.archives, c.archives);
  }

  lemma SameJobs(
    lib: Library, fetch: string -> Option<Bytes>, other: string -> Option<Bytes>, packages: seq<Package>,
    f: map<string, Bytes>, g: map<string, Bytes>)
    requires HashInjective(lib)
    requires HoldsFiles(JobsOf(lib, fetch, packages), Everything(JobsOf(lib, fetch, packages)), f)
    requires HoldsFiles(JobsOf(lib, other, packages), Everything(JobsOf(lib, other, packages)), g)
    ensures JobsOf(lib, fetch, packages) == JobsOf(lib, other, packages)
  {
    hide HashInjective, DownloadOf, HoldsFiles, Everything;
    var these, those := JobsOf(lib, fetch, packages), JobsOf(lib, other, packages);
    forall i | 0 <= i < |these| ensures these[i] == those[i] {
      HeldIsVerified(these, f, i);
      HeldIsVerified(those, g, i);
      DownloadDetermined(lib, fetch, other, packages[i]);
    }
  }
}

/** Npm archive material: `source_plan`, `materialize` and `stage_bundle`. */
module NpmMaterials {
  import opened Basics
  import opened Ordering
  import opened Fetch

  const MAX_ARCHIVE: nat := 64 * 1024 * 1024
  const READ_LIMIT: nat := 4 * 1024 * 1024
  const ALGORITHM: string := "npm-materials-v1"

  /** The library code the scripts rely on: base64, hex, hashes, the archive layout and the path and origin checks.
      `manifestSize` is the length of the canonical manifest text. */
  datatype Library = Library(
    decode: string -> Option<Bytes>, encode: Bytes -> string, hex: Bytes -> string,
    sha512: Bytes -> Bytes, layoutOk: Bytes -> bool, safePath: string -> bool, archiveUrl: string -> bool,
    fileDigest: Bytes -> string, payloadDigest: Payload -> string, manifestSize: Manifest -> nat)

  datatype LockEntry = LockEntry(
    resolved: Option<string>, integrity: Option<string>, link: bool, workspaces: seq<string>)

  datatype Lock = Lock(version: int, packages: map<string, LockEntry>)

  datatype Record = Record(path: string, resolved: string, integrity: string, archive: string)

  datatype Archive = Archive(path: string, integrity: string, urls: seq<string>)

  datatype FileDigest = FileDigest(path: string, digest: string)

  datatype Plan = Plan(algorithm: string, files: seq<FileDigest>, packages: seq<Record>, archives: seq<Archive>)

  datatype SizedArchive = SizedArchive(archive: Archive, size: nat)

  datatype Payload = Payload(
    algorithm: string, files: seq<FileDigest>, packages: seq<Record>, archives: seq<SizedArchive>)

  datatype Manifest = Manifest(
    payload: Payload, sourceRevision: string, materialDigest: string, bytesVerified: bool, identityVerified: bool)

  /** What `materialize` leaves on disk. */
  datatype Bundle = Bundle(manifest: Manifest, sources: map<string, Bytes>, archives: map<string, Bytes>)

  /* ----- the plan ----- */

  function SriBytes(lib: Library, value: string): Option<Bytes> {
    if !("sha512-" <= value) then None
    else
      match lib.decode(value[7..])
      case None => None
      case Some(raw) => if |raw| != 64 || lib.encode(raw) != value[7..] then None else Some(raw)
  }

  /** The canonical-form check makes the integrity string a function of its bytes. */
  lemma SriInjective(lib: Library, a: string, b: string)
    requires SriBytes(lib, a).Some? && SriBytes(lib, a) == SriBytes(lib, b)
    ensures a == b
  {
    assert a == a[..7] + a[7..] && b == b[..7] + b[7..];
    assert a[..7] == "sha512-" && b[..7] == "sha512-";
  }

  function ArchivePath(lib: Library, raw: Bytes): string { "archives/" + lib.hex(raw) + ".tgz" }

  function LocalPaths(name: string): set<string> { {"", "apps/frontend", "node_modules/" + name} }

  predicate SupportedLock(lock: Lock, name: string) {
    && lock.version == 3 && LocalPaths(name) <= lock.packages.Keys
    && lock.packages[""].workspaces == ["apps/frontend"]
    && lock.packages["node_modules/" + name].resolved == Some("apps/frontend")
    && lock.packages["node_modules/" + name].link
  }

  predicate PlainLocal(e: LockEntry) {
    (e.resolved.None? || e.resolved.value == "") && (e.integrity.None? || e.integrity.value == "") && !e.link
  }

  /** The record of one lock entry; `None` where the source raises. */
  function RecordOf(lib: Library, path: string, e: LockEntry): Option<Record> {
    if !lib.safePath(path) || !("node_modules/" <= path || "apps/frontend/node_modules/" <= path) || e.link
       || e.resolved.None? || e.integrity.None? || !lib.archiveUrl(e.resolved.value) then None
    else
      match SriBytes(lib, e.integrity.value)
      case None => None
      case Some(raw) => Some(Record(path, e.resolved.value, e.integrity.value, ArchivePath(lib, raw)))
  }

  /** One lock entry; `skip` marks an accepted local path. */
  datatype Visit = Reject | Skip | Take(record: Record)

  function VisitPath(lib: Library, lock: Lock, name: string, p: string): Visit
    requires p in lock.packages
  {
    if p in LocalPaths(name) then
      if p != "node_modules/" + name && !PlainLocal(lock.packages[p]) then Reject else Skip
    else
      match RecordOf(lib, p, lock.packages[p])
      case None => Reject
      case Some(r) => Take(r)
  }

  function RecordsOf(lib: Library, lock: Lock, name: string, paths: seq<string>): Option<seq<Record>>
    requires forall p | p in paths :: p in lock.packages
  {
    if paths == [] then Some([])
    else
      match (RecordsOf(lib, lock, name, paths[..|paths| - 1]), VisitPath(lib, lock, name, paths[|paths| - 1]))
      case (Some(before), Skip) => Some(before)
      case (Some(before), Take(r)) => Some(before + [r])
      case _ => None
  }

  function ArchiveNames(records: seq<Record>): set<string> {
    set i | 0 <= i < |records| :: records[i].archive
  }

  function UrlsOf(records: seq<Record>, archive: string): set<string> {
    set i | 0 <= i < |records| && records[i].archive == archive :: records[i].resolved
  }

  /** The integrity of the first record that names the archive. */
  function IntegrityOf(records: seq<Record>, archive: string): string
    requires archive in ArchiveNames(records)
  {
    if records[0].archive == archive then records[0].integrity
    else
      assert forall i | 0 < i < |records| :: records[i] == records[1..][i - 1];
      IntegrityOf(records[1..], archive)
  }

  function ArchivesOf(records: seq<Record>): (archives: seq<Archive>)
    ensures |archives| == |ArchiveNames(records)|
    ensures forall i | 0 <= i < |archives| :: archives[i].path == Sorted(ArchiveNames(records))[i]
  {
    var names := Sorted(ArchiveNames(records));
    seq(|names|, i requires 0 <= i < |names| && names[i] in ArchiveNames(records) =>
      Archive(names[i], IntegrityOf(records, names[i]), Sorted(UrlsOf(records, names[i]))))
  }

  function FileDigests(lib: Library, files: map<string, Bytes>): seq<FileDigest> {
    var names := Sorted(files.Keys);
    seq(|names|, i requires 0 <= i < |names| && names[i] in files =>
      FileDigest(names[i], lib.fileDigest(files[names[i]])))
  }

  function PlanOf(lib: Library, files: map<string, Bytes>, lock: Lock, name: string): Option<Plan> {
    if !SupportedLock(lock, name) then None
    else
      match RecordsOf(lib, lock, name, Sorted(lock.packages.Keys))
      case None => None
      case Some(records) =>
        if records == [] then None else Some(Plan(ALGORITHM, FileDigests(lib, files), records, ArchivesOf(records)))
  }

  /** The archive entry under construction. */
  datatype Entry = Entry(integrity: string, urls: set<string>)

  ghost predicate Groups(records: seq<Record>, archives: map<string, Entry>) {
    && archives.Keys == ArchiveNames(records)
    && forall a | a in archives :: archives[a] == Entry(IntegrityOf(records, a), UrlsOf(records, a))
  }

  lemma {:induction false} IntegrityOfSnoc(records: seq<Record>, r: Record, a: string)
    requires a in ArchiveNames(records + [r])
    ensures a in ArchiveNames(records) ==> IntegrityOf(records + [r], a) == IntegrityOf(records, a)
    ensures a !in ArchiveNames(records) ==> a == r.archive && IntegrityOf(records + [r], a) == r.integrity
  {
    var all := records + [r];
    if records == [] {
      assert all[0] == r;
    } else if records[0].archive != a {
      assert all[1..] == records[1..] + [r];
      assert forall i | 0 < i < |all| :: all[i] == all[1..][i - 1];
      assert forall i | 0 < i < |records| :: records[i] == records[1..][i - 1];
      IntegrityOfSnoc(records[1..], r, a);
    }
  }

  lemma NamesSnoc(records: seq<Record>, r: Record)
    ensures ArchiveNames(records + [r]) == ArchiveNames(records) + {r.archive}
  {
    var all := records + [r];
    assert all[|records|] == r;
    assert forall i | 0 <= i < |records| :: all[i] == records[i];
  }

  lemma UrlsSnoc(records: seq<Record>, r: Record, a: string)
    ensures UrlsOf(records + [r], a) == UrlsOf(records, a) + if a == r.archive then {r.resolved} else {}
  {
    var all := records + [r];
    assert all[|records|] == r;
    assert forall i | 0 <= i < |records| :: all[i] == records[i];
  }

  lemma UrlsOfUnnamed(records: seq<Record>, a: string)
    requires a !in ArchiveNames(records)
    ensures UrlsOf(records, a) == {}
  {
  }

  /** `setdefault`, then `add` */
  function AddRecord(archives: map<string, Entry>, r: Record): map<string, Entry> {
    var entry := if r.archive in archives then archives[r.archive] else Entry(r.integrity, {});
    archives[r.archive := entry.(urls := entry.urls + {r.resolved})]
  }

  lemma GroupsSnoc(records: seq<Record>, archives: map<string, Entry>, r: Record)
    requires Groups(records, archives)
    ensures Groups(records + [r], AddRecord(archives, r))
  {
    NamesSnoc(records, r);
    forall a | a in AddRecord(archives, r)
      ensures AddRecord(archives, r)[a] == Entry(IntegrityOf(records + [r], a), UrlsOf(records + [r], a))
    {
      IntegrityOfSnoc(records, r, a);
      UrlsSnoc(records, r, a);
      if a !in archives { UrlsOfUnnamed(records, a); }
    }
  }

  /** The records of the visited paths and the archives grouped from them. */
  method CollectRecords(lib: Library, lock: Lock, name: string, paths: seq<string>)
    returns (ok: bool, records: seq<Record>, archives: map<string, Entry>)
    requires forall p | p in paths :: p in lock.packages
    ensures ok <==> RecordsOf(lib, lock, name, paths).Some?
    ensures ok ==> RecordsOf(lib, lock, name, paths) == Some(records) && Groups(records, archives)
  {
    records, archives := [], map[];
    assert Groups([], map[]);
    for i := 0 to |paths|
      invariant RecordsOf(lib, lock, name, paths[..i]) == Some(records)
      invariant Groups(records, archives)
    {
      PrefixStep(lib, lock, name, paths, i);
      match VisitPath(lib, lock, name, paths[i]) {
        case Reject => return false, records, archives;
        case Skip =>
        case Take(record) =>
          GroupsSnoc(records, archives, record);
          archives := AddRecord(archives, record);
          records := records + [record];
      }
    }
    assert paths[..|paths|] == paths;
    ok := true;
  }

  lemma PrefixStep(lib: Library, lock: Lock, name: string, paths: seq<string>, i: nat)
    requires (forall p | p in paths :: p in lock.packages) && i < |paths|
             && RecordsOf(lib, lock, name, paths[..i]).Some?
    ensures RecordsOf(lib, lock, name, paths[..i + 1]) ==
              match VisitPath(lib, lock, name, paths[i]) {
                case Reject => None
                case Skip => RecordsOf(lib, lock, name, paths[..i])
                case Take(r) => Some(RecordsOf(lib, lock, name, paths[..i]).value + [r])
              }
    ensures VisitPath(lib, lock, name, paths[i]) == Reject ==> RecordsOf(lib, lock, name, paths).None?
  {
    assert paths[..i + 1][..i] == paths[..i];
    if VisitPath(lib, lock, name, paths[i]) == Reject && RecordsOf(lib, lock, name, paths).Some? {
      RecordsOfPrefix(lib, lock, name, paths, i + 1);
    }
  }

  method SourcePlan(lib: Library, files: map<string, Bytes>, lock: Lock, name: string) returns (r: Result<Plan>)
    ensures r == match PlanOf(lib, files, lock, name) { case None => MaterialFailed case Some(plan) => Ok(plan) }
  {
    if !SupportedLock(lock, name) { return MaterialFailed; }
    var ok, records, archives := CollectRecords(lib, lock, name, Sorted(lock.packages.Keys));
    if !ok || records == [] { return MaterialFailed; }
    r := Ok(Plan(ALGORITHM, FileDigests(lib, files), records, ListArchives(records, archives)));
  }

  function ListArchives(ghost records: seq<Record>, archives: map<string, Entry>): (listed: seq<Archive>)
    requires Groups(records, archives)
    ensures listed == ArchivesOf(records)
  {
    ListedAreArchives(records, archives);
    Listed(archives)
  }

  function ListedAs(archives: map<string, Entry>, name: string): Archive
    requires name in archives
  {
    Archive(name, archives[name].integrity, Sorted(archives[name].urls))
  }

  /** `[... for _, entry in sorted(archives.items())]` */
  function Listed(archives: map<string, Entry>): seq<Archive> {
    var names := Sorted(archives.Keys);
    seq(|names|, i requires 0 <= i < |names| && names[i] in archives => ListedAs(archives, names[i]))
  }

  lemma ListedAreArchives(records: seq<Record>, archives: map<string, Entry>)
    requires Groups(records, archives)
    ensures Listed(archives) == ArchivesOf(records)
  {
    hide ArchiveNames, UrlsOf, IntegrityOf;
    var names := Sorted(archives.Keys);
    forall i | 0 <= i < |names|
      ensures names[i] in archives
              && ListedAs(archives, names[i])
                 == Archive(names[i], IntegrityOf(records, names[i]), Sorted(UrlsOf(records, names[i])))
    {
      assert names[i] in names;
    }
  }

  lemma {:induction false} RecordsOfPrefix(lib: Library, lock: Lock, name: string, paths: seq<string>, i: nat)
    requires (forall p | p in paths :: p in lock.packages) && i <= |paths| && RecordsOf(lib, lock, name, paths).Some?
    ensures RecordsOf(lib, lock, name, paths[..i]).Some?
  {
    if i == |paths| {
      assert paths[..i] == paths;
    } else {
      RecordsOfPrefix(lib, lock, name, paths[..|paths| - 1], i);
      assert paths[..|paths| - 1][..i] == paths[..i];
    }
  }

  /* ----- deduplication ----- */

  ghost predicate HexInjective(lib: Library) {
    forall a, b :: lib.hex(a) == lib.hex(b) ==> a == b
  }

  ghost predicate IsRecord(lib: Library, r: Record) {
    SriBytes(lib, r.integrity).Some? && r.archive == ArchivePath(lib, SriBytes(lib, r.integrity).value)
  }

  lemma {:induction false} RecordsAreRecords(lib: Library, lock: Lock, name: string, paths: seq<string>)
    requires (forall p | p in paths :: p in lock.packages) && RecordsOf(lib, lock, name, paths).Some?
    ensures forall r | r in RecordsOf(lib, lock, name, paths).value :: IsRecord(lib, r)
  {
    if paths != [] { RecordsAreRecords(lib, lock, name, paths[..|paths| - 1]); }
  }

  lemma SamePathSameIntegrity(lib: Library, r: Record, q: Record)
    requires HexInjective(lib) && IsRecord(lib, r) && IsRecord(lib, q) && r.archive == q.archive
    ensures r.integrity == q.integrity
  {
    var a, b := SriBytes(lib, r.integrity).value, SriBytes(lib, q.integrity).value;
    var x, y := lib.hex(a), lib.hex(b);
    assert r.archive[9..|r.archive| - 4] == x && q.archive[9..|q.archive| - 4] == y;
    SriInjective(lib, r.integrity, q.integrity);
  }

  lemma {:induction false} IntegrityIsOfRecord(records: seq<Record>, a: string)
    requires a in ArchiveNames(records)
    ensures exists i :: 0 <= i < |records| && records[i].archive == a && records[i].integrity == IntegrityOf(records, a)
  {
    if records[0].archive != a {
      assert forall i | 0 < i < |records| :: records[i] == records[1..][i - 1];
      IntegrityIsOfRecord(records[1..], a);
      var i :| 0 <= i < |records[1..]| && records[1..][i].archive == a
        && records[1..][i].integrity == IntegrityOf(records[1..], a);
      assert records[i + 1].archive == a;
    }
  }

  ghost predicate DistinctArchives(archives: seq<Archive>) {
    forall i, j | 0 <= i < j < |archives| :: archives[i].path != archives[j].path
  }

  /** The archive lists the URLs of exactly the records with its integrity, in order and without repetition. */
  ghost predicate ArchiveGroups(records: seq<Record>, a: Archive) {
    && a.urls != [] && Increasing(a.urls)
    && (forall u ::
          u in a.urls
          <==> exists i :: 0 <= i < |records| && records[i].integrity == a.integrity && records[i].resolved == u)
    && (forall r | r in records :: r.archive == a.path <==> r.integrity == a.integrity)
  }

  lemma ArchiveOfNameGroups(lib: Library, records: seq<Record>, a: string)
    requires HexInjective(lib) && (forall r | r in records :: IsRecord(lib, r)) && a in ArchiveNames(records)
    ensures ArchiveGroups(records, Archive(a, IntegrityOf(records, a), Sorted(UrlsOf(records, a))))
  {
    IntegrityIsOfRecord(records, a);
    var i :| 0 <= i < |records| && records[i].archive == a && records[i].integrity == IntegrityOf(records, a);
    assert records[i] in records && records[i].resolved in UrlsOf(records, a);
    assert records[i].resolved in Sorted(UrlsOf(records, a));
    forall r | r in records ensures r.archive == a <==> r.integrity == IntegrityOf(records, a) {
      if r.archive == a { SamePathSameIntegrity(lib, r, records[i]); }
    }
    forall u ensures u in Sorted(UrlsOf(records, a)) <==>
      exists k :: 0 <= k < |records| && records[k].integrity == IntegrityOf(records, a) && records[k].resolved == u
    {
      assert forall k | 0 <= k < |records| :: records[k] in records;
    }
  }

  lemma ArchivesGroup(lib: Library, records: seq<Record>)
    requires HexInjective(lib) && forall r | r in records :: IsRecord(lib, r)
    ensures DistinctArchives(ArchivesOf(records))
    ensures forall i | 0 <= i < |ArchivesOf(records)| :: ArchiveGroups(records, ArchivesOf(records)[i])
    ensures forall r | r in records ::
              exists i :: 0 <= i < |ArchivesOf(records)| && ArchivesOf(records)[i].path == r.archive
  {
    var names, archives := Sorted(ArchiveNames(records)), ArchivesOf(records);
    forall i, j | 0 <= i < j < |archives| ensures archives[i].path != archives[j].path {
      if names[i] == names[j] { IncreasingDistinct(names, i, j); }
    }
    forall i | 0 <= i < |archives| ensures ArchiveGroups(records, archives[i]) {
      assert names[i] in names;
      ArchiveOfNameGroups(lib, records, names[i]);
    }
    forall r | r in records ensures exists i :: 0 <= i < |archives| && archives[i].path == r.archive {
      var k :| 0 <= k < |records| && records[k] == r;
      assert r.archive in names;
      var i :| 0 <= i < |names| && names[i] == r.archive;
      assert archives[i].path == r.archive;
    }
  }

  /** Every archive of a plan stands for exactly the records with one integrity, every record has its archive, and no
      two archives share a path. */
  lemma PlanGroupsByIntegrity(lib: Library, files: map<string, Bytes>, lock: Lock, name: string, plan: Plan)
    requires HexInjective(lib) && PlanOf(lib, files, lock, name) == Some(plan)
    ensures DistinctArchives(plan.archives)
    ensures forall i | 0 <= i < |plan.archives| :: ArchiveGroups(plan.packages, plan.archives[i])
    ensures forall r | r in plan.packages :: exists i :: 0 <= i < |plan.archives| && plan.archives[i].path == r.archive
  {
    RecordsAreRecords(lib, lock, name, Sorted(lock.packages.Keys));
    ArchivesGroup(lib, plan.packages);
  }

  /* ----- what a plan is, read off the lock file ----- */

  /** A package with its own archive: below a `node_modules`, from an archive URL, with the SHA-512 of 64 bytes in
      canonical base64. */
  ghost predicate IsPackage(lib: Library, p: string, e: LockEntry, raw: Bytes) {
    && lib.safePath(p) && ("node_modules/" <= p || "apps/frontend/node_modules/" <= p) && !e.link
    && e.resolved.Some? && lib.archiveUrl(e.resolved.value)
    && |raw| == 64 && e.integrity == Some("sha512-" + lib.encode(raw)) && lib.decode(lib.encode(raw)) == Some(raw)
  }

  ghost predicate IsUnset(text: Option<string>) { text == None || text == Some("") }

  /** The workspace itself, the frontend and the link to it. */
  ghost predicate IsLocal(name: string, p: string) {
    p == "" || p == "apps/frontend" || p == "node_modules/" + name
  }

  /** A lock of version 3 for the one workspace, whose own entries come from nowhere and whose other entries, at least
      one, are packages. */
  ghost predicate IsPlannable(lib: Library, lock: Lock, name: string) {
    && lock.version == 3
    && "" in lock.packages && lock.packages[""].workspaces == ["apps/frontend"]
    && "apps/frontend" in lock.packages
    && "node_modules/" + name in lock.packages
    && lock.packages["node_modules/" + name].resolved == Some("apps/frontend")
    && lock.packages["node_modules/" + name].link
    && OwnArePlain(lock) && OthersArePackages(lib, lock, name)
    && exists p :: p in lock.packages && !IsLocal(name, p)
  }

  ghost predicate OwnArePlain(lock: Lock) {
    forall p | p in lock.packages && (p == "" || p == "apps/frontend") ::
      IsUnset(lock.packages[p].resolved) && IsUnset(lock.packages[p].integrity) && !lock.packages[p].link
  }

  ghost predicate OthersArePackages(lib: Library, lock: Lock, name: string) {
    forall p | p in lock.packages && !IsLocal(name, p) :: exists raw :: IsPackage(lib, p, lock.packages[p], raw)
  }

  /** The record repeats the entry and names the archive by the hash. */
  ghost predicate IsRecordOf(lib: Library, lock: Lock, name: string, r: Record) {
    && r.path in lock.packages && !IsLocal(name, r.path)
    && var e := lock.packages[r.path];
       exists raw ::
         && IsPackage(lib, r.path, e, raw)
         && r.resolved == e.resolved.value && r.integrity == e.integrity.value
         && r.archive == "archives/" + lib.hex(raw) + ".tgz"
  }

  lemma SriMeans(lib: Library, value: string, raw: Bytes)
    ensures SriBytes(lib, value) == Some(raw) <==>
              |raw| == 64 && value == "sha512-" + lib.encode(raw) && lib.decode(lib.encode(raw)) == Some(raw)
  {
    if "sha512-" <= value { assert value == "sha512-" + value[7..]; }
    assert ("sha512-" + lib.encode(raw))[7..] == lib.encode(raw);
  }

  lemma RecordMeans(lib: Library, p: string, e: LockEntry, r: Record)
    ensures RecordOf(lib, p, e) == Some(r) <==>
              r.path == p && exists raw ::
                && IsPackage(lib, p, e, raw)
                && r.resolved == e.resolved.value && r.integrity == e.integrity.value
                && r.archive == "archives/" + lib.hex(raw) + ".tgz"
  {
    if e.integrity.Some? {
      forall raw ensures SriBytes(lib, e.integrity.value) == Some(raw) <==>
                           |raw| == 64 && e.integrity.value == "sha512-" + lib.encode(raw)
                           && lib.decode(lib.encode(raw)) == Some(raw) {
        SriMeans(lib, e.integrity.value, raw);
      }
    }
    hide SriBytes;
    if RecordOf(lib, p, e) == Some(r) { assert IsPackage(lib, p, e, SriBytes(lib, e.integrity.value).value); }
  }

  lemma VisitMeans(lib: Library, lock: Lock, name: string, p: string)
    requires p in lock.packages
    ensures IsLocal(name, p) ==>
              (VisitPath(lib, lock, name, p) == Skip <==>
                 p != "node_modules/" + name ==>
                   IsUnset(lock.packages[p].resolved) && IsUnset(lock.packages[p].integrity) && !lock.packages[p].link)
    ensures IsLocal(name, p) ==> !VisitPath(lib, lock, name, p).Take?
    ensures !IsLocal(name, p) ==> VisitPath(lib, lock, name, p) != Skip
    ensures !IsLocal(name, p) ==>
              (VisitPath(lib, lock, name, p).Take? <==> exists raw :: IsPackage(lib, p, lock.packages[p], raw))
    ensures forall r :: VisitPath(lib, lock, name, p) == Take(r) <==> r.path == p && IsRecordOf(lib, lock, name, r)
  {
    var e := lock.packages[p];
    forall r ensures RecordOf(lib, p, e) == Some(r) <==>
                       r.path == p && exists raw ::
                         && IsPackage(lib, p, e, raw)
                         && r.resolved == e.resolved.value && r.integrity == e.integrity.value
                         && r.archive == "archives/" + lib.hex(raw) + ".tgz" {
      RecordMeans(lib, p, e, r);
    }
    hide RecordOf;
    if raw :| IsPackage(lib, p, e, raw) {
      var r := Record(p, e.resolved.value, e.integrity.value, "archives/" + lib.hex(raw) + ".tgz");
      assert RecordOf(lib, p, e) == Some(r);
    }
    if RecordOf(lib, p, e).Some? { assert RecordOf(lib, p, e) == Some(RecordOf(lib, p, e).value); }
    hide IsPackage;
  }

  ghost predicate PathsIncrease(records: seq<Record>) {
    forall i, j | 0 <= i < j < |records| :: Less(records[i].path, records[j].path)
  }

  lemma {:induction false} RecordsMean(lib: Library, lock: Lock, name: string, paths: seq<string>)
    requires (forall p | p in paths :: p in lock.packages) && Increasing(paths)
    ensures RecordsOf(lib, lock, name, paths).Some?
            <==> forall p | p in paths :: VisitPath(lib, lock, name, p) != Reject
    ensures RecordsOf(lib, lock, name, paths).Some? ==>
              var records := RecordsOf(lib, lock, name, paths).value;
              && (forall r :: r in records <==> r.path in paths && IsRecordOf(lib, lock, name, r))
              && PathsIncrease(records)
  {
    if paths != [] {
      var front, p := paths[..|paths| - 1], paths[|paths| - 1];
      assert paths == front + [p];
      RecordsMean(lib, lock, name, front);
      VisitMeans(lib, lock, name, p);
      hide VisitPath, IsRecordOf, Less;
      if RecordsOf(lib, lock, name, paths).Some? && VisitPath(lib, lock, name, p).Take? {
        var before, r := RecordsOf(lib, lock, name, front).value, VisitPath(lib, lock, name, p).record;
        OneMoreRecord(before, r, front, p);
      }
    }
  }

  lemma OneMoreRecord(before: seq<Record>, r: Record, front: seq<string>, p: string)
    requires Increasing(front + [p]) && r.path == p
    requires (forall q | q in before :: q.path in front) && PathsIncrease(before)
    ensures PathsIncrease(before + [r])
  {
    hide Less;
    forall i | 0 <= i < |before| ensures Less(before[i].path, p) {
      assert before[i] in before;
      var k :| 0 <= k < |front| && front[k] == before[i].path;
      assert (front + [p])[k] == front[k] && (front + [p])[|front|] == p;
    }
  }

  /** A plan is made exactly for such a lock; it lists every package once, in order of the paths, as its entry says, and
      the digest of every metadata file. */
  lemma PlanMeans(lib: Library, files: map<string, Bytes>, lock: Lock, name: string)
    ensures PlanOf(lib, files, lock, name).Some? <==> IsPlannable(lib, lock, name)
    ensures PlanOf(lib, files, lock, name).Some? ==>
              var plan := PlanOf(lib, files, lock, name).value;
              && plan.algorithm == "npm-materials-v1"
              && (forall r :: r in plan.packages <==> IsRecordOf(lib, lock, name, r)) && PathsIncrease(plan.packages)
              && |plan.files| == |files|
              && forall f :: f in plan.files <==> f.path in files && f.digest == lib.fileDigest(files[f.path])
  {
    hide *;
    PlanWhen(lib, files, lock, name);
    PlannableMeans(lib, lock, name);
    if PlanOf(lib, files, lock, name).Some? {
      PackagesMean(lib, lock, name);
      FilesMean(lib, files);
    }
  }

  /** The records of the whole lock, in the order of the paths. */
  function LockRecords(lib: Library, lock: Lock, name: string): Option<seq<Record>> {
    RecordsOf(lib, lock, name, Sorted(lock.packages.Keys))
  }

  lemma PlanWhen(lib: Library, files: map<string, Bytes>, lock: Lock, name: string)
    ensures PlanOf(lib, files, lock, name).Some? <==>
              SupportedLock(lock, name)
              && LockRecords(lib, lock, name).Some? && LockRecords(lib, lock, name) != Some([])
    ensures PlanOf(lib, files, lock, name).Some? ==>
              var plan := PlanOf(lib, files, lock, name).value;
              && LockRecords(lib, lock, name) == Some(plan.packages)
              && plan.algorithm == "npm-materials-v1" && plan.files == FileDigests(lib, files)
  {
    hide SupportedLock, RecordsOf, Sorted, FileDigests, ArchivesOf;
  }

  lemma PackagesMean(lib: Library, lock: Lock, name: string)
    requires LockRecords(lib, lock, name).Some?
    ensures var records := LockRecords(lib, lock, name).value;
      (forall r :: r in records <==> IsRecordOf(lib, lock, name, r)) && PathsIncrease(records)
  {
    var paths := Sorted(lock.packages.Keys);
    RecordsMean(lib, lock, name, paths);
    assert forall p :: p in paths <==> p in lock.packages;
    assert forall r | IsRecordOf(lib, lock, name, r) :: r.path in lock.packages;
    hide VisitPath, RecordsOf, Sorted, PathsIncrease, IsRecordOf;
  }

  lemma LockRecordsMean(lib: Library, lock: Lock, name: string)
    ensures LockRecords(lib, lock, name).Some? <==> OwnArePlain(lock) && OthersArePackages(lib, lock, name)
  {
    var paths := Sorted(lock.packages.Keys);
    RecordsMean(lib, lock, name, paths);
    VisitsMean(lib, lock, name);
    assert forall p :: p in paths <==> p in lock.packages;
    hide VisitPath, RecordsOf, Sorted, PathsIncrease, IsRecordOf, OwnArePlain, OthersArePackages;
  }

  lemma PlannableMeans(lib: Library, lock: Lock, name: string)
    ensures IsPlannable(lib, lock, name) <==>
              SupportedLock(lock, name)
              && LockRecords(lib, lock, name).Some? && LockRecords(lib, lock, name) != Some([])
  {
    SupportedMeans(lock, name);
    LockRecordsMean(lib, lock, name);
    if LockRecords(lib, lock, name).Some? {
      PackagesMean(lib, lock, name);
      RecordsThere(lib, lock, name, LockRecords(lib, lock, name).value);
    }
    hide SupportedLock, LockRecords, OwnArePlain, OthersArePackages, IsLocal, IsRecordOf;
  }

  lemma VisitsMean(lib: Library, lock: Lock, name: string)
    ensures (forall p | p in lock.packages :: VisitPath(lib, lock, name, p) != Reject)
            <==> OwnArePlain(lock) && OthersArePackages(lib, lock, name)
  {
    LinkIsOther(name);
    forall p | p in lock.packages
      ensures IsLocal(name, p) ==>
                (VisitPath(lib, lock, name, p) != Reject <==>
                   p != "node_modules/" + name ==>
                     IsUnset(lock.packages[p].resolved) && IsUnset(lock.packages[p].integrity)
                     && !lock.packages[p].link)
      ensures !IsLocal(name, p) ==>
                (VisitPath(lib, lock, name, p) != Reject <==> exists raw :: IsPackage(lib, p, lock.packages[p], raw))
    {
      VisitMeans(lib, lock, name, p);
      hide VisitPath, IsPackage;
    }
    hide VisitPath, IsPackage, IsUnset;
  }

  lemma SupportedMeans(lock: Lock, name: string)
    ensures SupportedLock(lock, name) <==>
              && lock.version == 3
              && "" in lock.packages && lock.packages[""].workspaces == ["apps/frontend"]
              && "apps/frontend" in lock.packages
              && "node_modules/" + name in lock.packages
              && lock.packages["node_modules/" + name].resolved == Some("apps/frontend")
              && lock.packages["node_modules/" + name].link
  {
  }

  lemma RecordsThere(lib: Library, lock: Lock, name: string, records: seq<Record>)
    requires forall r :: r in records <==> IsRecordOf(lib, lock, name, r)
    requires OthersArePackages(lib, lock, name)
    ensures records != [] <==> exists p :: p in lock.packages && !IsLocal(name, p)
  {
    if records != [] {
      assert records[0] in records;
    }
    if p :| p in lock.packages && !IsLocal(name, p) {
      var e := lock.packages[p];
      var raw :| IsPackage(lib, p, e, raw);
      var r := Record(p, e.resolved.value, e.integrity.value, "archives/" + lib.hex(raw) + ".tgz");
      assert IsRecordOf(lib, lock, name, r);
    }
  }

  lemma LinkIsOther(name: string)
    ensures "node_modules/" + name != "" && "node_modules/" + name != "apps/frontend"
  {
    assert ("node_modules/" + name)[0] == 'n' && "apps/frontend"[0] == 'a';
  }

  lemma FilesMean(lib: Library, files: map<string, Bytes>)
    ensures |FileDigests(lib, files)| == |files|
    ensures forall f :: f in FileDigests(lib, files) <==> f.path in files && f.digest == lib.fileDigest(files[f.path])
  {
    var names := Sorted(files.Keys);
    assert |files.Keys| == |files|;
    forall f: FileDigest | f.path in files && f.digest == lib.fileDigest(files[f.path])
      ensures f in FileDigests(lib, files) {
      assert f.path in names;
      var i :| 0 <= i < |names| && names[i] == f.path;
      assert FileDigests(lib, files)[i] == f;
    }
    forall f | f in FileDigests(lib, files) ensures f.path in files && f.digest == lib.fileDigest(files[f.path]) {
      var i :| 0 <= i < |names| && FileDigests(lib, files)[i] == f;
      assert names[i] in names;
    }
  }

  /* ----- materialize ----- */

  predicate VerifyArchive(lib: Library, data: Bytes, integrity: string) {
    |data| <= MAX_ARCHIVE && Some(lib.sha512(data)) == SriBytes(lib, integrity) && lib.layoutOk(data)
  }

  /** Fetch the first URL and verify what it returns. */
  function DownloadOf(lib: Library, fetch: string -> Option<Bytes>, a: Archive): Download {
    if a.urls == [] then Failed
    else
      match fetch(a.urls[0])
      case None => Failed
      case Some(data) => if VerifyArchive(lib, data, a.integrity) then Verified(data) else Failed
  }

  function JobsOf(lib: Library, fetch: string -> Option<Bytes>, archives: seq<Archive>): (jobs: seq<Job<string>>)
    ensures |jobs| == |archives|
    ensures forall i | 0 <= i < |jobs| ::
              jobs[i] == Job(archives[i].path, archives[i].path, DownloadOf(lib, fetch, archives[i]))
  {
    seq(|archives|, i requires 0 <= i < |archives| =>
      Job(archives[i].path, archives[i].path, DownloadOf(lib, fetch, archives[i])))
  }

  /** The bytes are at most 64 MiB, have the integrity and are laid out as an archive. */
  ghost predicate IsArchive(lib: Library, data: Bytes, integrity: string) {
    && |data| <= 67_108_864 && lib.layoutOk(data)
    && exists raw ::
         && |raw| == 64 && integrity == "sha512-" + lib.encode(raw) && lib.decode(lib.encode(raw)) == Some(raw)
         && lib.sha512(data) == raw
  }

  lemma VerifyMeans(lib: Library, data: Bytes, integrity: string)
    ensures VerifyArchive(lib, data, integrity) <==> IsArchive(lib, data, integrity)
  {
    SriMeans(lib, integrity, lib.sha512(data));
    hide SriBytes;
  }

  /** Its first URL answers with such an archive. */
  ghost predicate IsFetched(lib: Library, fetch: string -> Option<Bytes>, a: Archive) {
    a.urls != [] && exists data :: fetch(a.urls[0]) == Some(data) && IsArchive(lib, data, a.integrity)
  }

  lemma DownloadMeans(lib: Library, fetch: string -> Option<Bytes>, a: Archive)
    ensures DownloadOf(lib, fetch, a).Verified? <==> IsFetched(lib, fetch, a)
    ensures DownloadOf(lib, fetch, a).Verified? ==> fetch(a.urls[0]) == Some(DownloadOf(lib, fetch, a).bytes)
  {
    if a.urls != [] && fetch(a.urls[0]).Some? { VerifyMeans(lib, fetch(a.urls[0]).value, a.integrity); }
    hide VerifyArchive, IsArchive;
  }

  /** The download succeeds exactly when every archive is fetched from its first URL and all together are at most one
      GiB. */
  lemma DownloadSucceeds(lib: Library, fetch: string -> Option<Bytes>, archives: seq<Archive>)
    requires DistinctArchives(archives)
    ensures Succeeds(JobsOf(lib, fetch, archives)) <==>
              && (forall i | 0 <= i < |archives| :: IsFetched(lib, fetch, archives[i]))
              && TotalSize(JobsOf(lib, fetch, archives)) <= 1_073_741_824
  {
    hide DownloadOf, IsFetched, TotalSize;
    var jobs := JobsOf(lib, fetch, archives);
    forall i | 0 <= i < |archives| ensures jobs[i].data.Verified? <==> IsFetched(lib, fetch, archives[i]) {
      DownloadMeans(lib, fetch, archives[i]);
    }
  }

  function Sized(archives: seq<Archive>, sizes: seq<nat>): (s: seq<SizedArchive>)
    requires |archives| == |sizes|
    ensures |s| == |archives| && forall i | 0 <= i < |s| :: s[i] == SizedArchive(archives[i], sizes[i])
  {
    seq(|archives|, i requires 0 <= i < |archives| => SizedArchive(archives[i], sizes[i]))
  }

  function ManifestOf(lib: Library, revision: string, plan: Plan, sizes: seq<nat>): Manifest
    requires |plan.archives| == |sizes|
  {
    var payload := Payload(plan.algorithm, plan.files, plan.packages, Sized(plan.archives, sizes));
    Manifest(payload, revision, lib.payloadDigest(payload), true, false)
  }

  /** The bundle holds the plan's metadata and every archive, verified, with its size. */
  ghost predicate IsBundleOf(lib: Library, revision: string, files: map<string, Bytes>, plan: Plan, b: Bundle) {
    && b.sources == files
    && |b.manifest.payload.archives| == |plan.archives|
    && (forall i | 0 <= i < |plan.archives| :: plan.archives[i].path in b.archives
          && VerifyArchive(lib, b.archives[plan.archives[i].path], plan.archives[i].integrity)
          && b.manifest.payload.archives[i] == SizedArchive(plan.archives[i], |b.archives[plan.archives[i].path]|))
    && b.manifest == ManifestOf(lib, revision, plan, ArchiveSizes(plan.archives, b.archives))
    && StagedTotal(plan.archives, b.archives) <= MAX_TOTAL
  }

  ghost function ArchiveSizes(archives: seq<Archive>, data: map<string, Bytes>): (sizes: seq<nat>)
    ensures |sizes| == |archives|
    ensures forall i | 0 <= i < |sizes| :: sizes[i] == SizeIn(archives[i], data)
  {
    seq(|archives|, i requires 0 <= i < |archives| => SizeIn(archives[i], data))
  }

  function SizeIn(a: Archive, data: map<string, Bytes>): nat { if a.path in data then |data[a.path]| else 0 }

  function StagedTotal(archives: seq<Archive>, data: map<string, Bytes>): nat {
    if archives == [] then 0 else StagedTotal(archives[..|archives| - 1], data) + SizeIn(archives[|archives| - 1], data)
  }

  lemma {:induction false} TotalsAgree(jobs: seq<Job<string>>, archives: seq<Archive>, data: map<string, Bytes>)
    requires |jobs| == |archives| && forall i | 0 <= i < |jobs| :: Size(jobs[i]) == SizeIn(archives[i], data)
    ensures TotalSize(jobs) == StagedTotal(archives, data)
  {
    if jobs != [] { TotalsAgree(jobs[..|jobs| - 1], archives[..|archives| - 1], data); }
  }

  method Materialize(
    lib: Library, revision: string, files: map<string, Bytes>, plan: Plan, fetch: string -> Option<Bytes>)
    returns (r: Result<Bundle>, ghost trace: seq<Snapshot>)
    requires DistinctArchives(plan.archives)
    ensures r.Ok? <==> Succeeds(JobsOf(lib, fetch, plan.archives))
    ensures r.Ok? ==> IsBundleOf(lib, revision, files, plan, r.value)
    ensures r.Ok?
            ==> HoldsFiles(JobsOf(lib, fetch, plan.archives), Everything(JobsOf(lib, fetch, plan.archives)),
              r.value.archives)
    ensures IsTrace(JobsOf(lib, fetch, plan.archives), trace)
            && (r.Ok? ==> Completes(JobsOf(lib, fetch, plan.archives), trace))
  {
    var jobs := JobsOf(lib, fetch, plan.archives);
    var outcome;
    outcome, trace := FetchAll(jobs);
    match outcome {
      case Rejected => r := MaterialFailed;
      case Fetched(data, sizes) =>
        BundleIsOfPlan(lib, fetch, plan, data, sizes);
        r := Ok(Bundle(ManifestOf(lib, revision, plan, sizes), files, data));
    }
  }

  lemma BundleIsOfPlan(
    lib: Library, fetch: string -> Option<Bytes>, plan: Plan, data: map<string, Bytes>, sizes: seq<nat>)
    requires var jobs := JobsOf(lib, fetch, plan.archives);
      Succeeds(jobs) && HoldsFiles(jobs, Everything(jobs), data) && |sizes| == |jobs| && forall i | 0 <= i < |jobs| ::
        sizes[i] == Size(jobs[i])
    ensures sizes == ArchiveSizes(plan.archives, data)
    ensures StagedTotal(plan.archives, data) <= MAX_TOTAL
    ensures forall i | 0 <= i < |plan.archives| ::
              plan.archives[i].path in data
              && VerifyArchive(lib, data[plan.archives[i].path], plan.archives[i].integrity)
  {
    hide VerifyArchive;
    var jobs := JobsOf(lib, fetch, plan.archives);
    forall i | 0 <= i < |jobs|
      ensures jobs[i].path in data && jobs[i].data == Verified(data[jobs[i].path])
    {
      assert i in Everything(jobs);
    }
    TotalsAgree(jobs, plan.archives, data);
  }

  /** The hash is taken to be free of collisions. */
  ghost predicate HashInjective(lib: Library) {
    forall a, b :: lib.sha512(a) == lib.sha512(b) ==> a == b
  }

  /** Whatever a registry answers, only one archive verifies. */
  lemma DownloadDetermined(lib: Library, fetch: string -> Option<Bytes>, other: string -> Option<Bytes>, a: Archive)
    requires HashInjective(lib) && DownloadOf(lib, fetch, a).Verified? && DownloadOf(lib, other, a).Verified?
    ensures DownloadOf(lib, fetch, a) == DownloadOf(lib, other, a)
  {
    hide SriBytes;
    var x, y := DownloadOf(lib, fetch, a).bytes, DownloadOf(lib, other, a).bytes;
    assert lib.sha512(x) == lib.sha512(y);
  }

  /** Two preparations of one plan leave the same bundle, whatever the schedules were and whatever the registry answered
      to each of them. */
  lemma BundleIgnoresSchedule(
    lib: Library, revision: string, files: map<string, Bytes>, plan: Plan, fetch: string -> Option<Bytes>,
    other: string -> Option<Bytes>,
    b: Bundle, c: Bundle)
    requires HashInjective(lib)
    requires IsBundleOf(lib, revision, files, plan, b) && IsBundleOf(lib, revision, files, plan, c)
    requires HoldsFiles(JobsOf(lib, fetch, plan.archives), Everything(JobsOf(lib, fetch, plan.archives)), b.archives)
    requires HoldsFiles(JobsOf(lib, other, plan.archives), Everything(JobsOf(lib, other, plan.archives)), c.archives)
    ensures b == c
  {
    SameJobs(lib, fetch, other, plan.archives, b.archives, c.archives);
    hide HashInjective, JobsOf, HoldsFiles, Everything;
    FilesDetermined(JobsOf(lib, fetch, plan.archives), b.archives, c.archives);
  }

  lemma SameJobs(
    lib: Library, fetch: string -> Option<Bytes>, other: string -> Option<Bytes>, archives: seq<Archive>,
    f: map<string, Bytes>, g: map<string, Bytes>)
    requires HashInjective(lib)
    requires HoldsFiles(JobsOf(lib, fetch, archives), Everything(JobsOf(lib, fetch, archives)), f)
    requires HoldsFiles(JobsOf(lib, other, archives), Everything(JobsOf(lib, other, archives)), g)
    ensures JobsOf(lib, fetch, archives) == JobsOf(lib, other, archives)
  {
    hide HashInjective, DownloadOf, HoldsFiles, Everything;
    var these, those := JobsOf(lib, fetch, archives), JobsOf(lib, other, archives);
    forall i | 0 <= i < |these| ensures these[i] == those[i] {
      HeldIsVerified(these, f, i);
      HeldIsVerified(those, g, i);
      DownloadDetermined(lib, fetch, other, archives[i]);
    }
  }

  /* ----- stage_bundle ----- */

  /** `read_file` on a file of the bundle. */
  predicate Readable(files: map<string, Bytes>, name: string, limit: nat) {
    name in files && |files[name]| <= limit
  }

  predicate DescriptorsMatch(archives: seq<SizedArchive>, expected: seq<Archive>) {
    |archives| == |expected|
    && forall i | 0 <= i < |archives| :: archives[i].archive == expected[i] && archives[i].size <= MAX_ARCHIVE
  }

  predicate HeaderMatches(lib: Library, plan: Plan, m: Manifest) {
    && lib.manifestSize(m) <= READ_LIMIT && m.bytesVerified && !m.identityVerified && IsRevision(m.sourceRevision)
    && m.payload.algorithm == plan.algorithm && m.payload.files == plan.files && m.payload.packages == plan.packages
    && DescriptorsMatch(m.payload.archives, plan.archives)
    && m.materialDigest == lib.payloadDigest(m.payload)
  }

  predicate SourcesMatch(files: map<string, Bytes>, b: Bundle) {
    forall name | name in files :: Readable(b.sources, name, READ_LIMIT) && b.sources[name] == files[name]
  }

  ghost predicate ArchivesMatch(lib: Library, plan: Plan, b: Bundle) {
    && |b.manifest.payload.archives| == |plan.archives|
    && (forall i | 0 <= i < |plan.archives| ::
          && Readable(b.archives, plan.archives[i].path, MAX_ARCHIVE)
          && VerifyArchive(lib, b.archives[plan.archives[i].path], plan.archives[i].integrity)
          && |b.archives[plan.archives[i].path]| == b.manifest.payload.archives[i].size)
    && StagedTotal(plan.archives, b.archives) <= MAX_TOTAL
  }

  datatype Staged = Staged(workspace: map<string, Bytes>, archives: map<string, Bytes>)

  lemma {:induction false} StagedTotalGrows(archives: seq<Archive>, data: map<string, Bytes>, n: nat)
    requires n <= |archives|
    ensures StagedTotal(archives[..n], data) <= StagedTotal(archives, data)
  {
    if n == |archives| {
      assert archives[..n] == archives;
    } else {
      StagedTotalGrows(archives[..|archives| - 1], data, n);
      assert archives[..|archives| - 1][..n] == archives[..n];
    }
  }

  method StageBundle(lib: Library, files: map<string, Bytes>, plan: Plan, b: Bundle) returns (r: Result<Staged>)
    requires DistinctArchives(plan.archives)
    ensures r.Ok? <==> HeaderMatches(lib, plan, b.manifest) && SourcesMatch(files, b) && ArchivesMatch(lib, plan, b)
    ensures r.Ok? ==> r.value.workspace == files
    ensures r.Ok? ==> forall i | 0 <= i < |plan.archives| ::
              plan.archives[i].path in r.value.archives && plan.archives[i].path in b.archives
              && r.value.archives[plan.archives[i].path] == b.archives[plan.archives[i].path]
  {
    hide VerifyArchive, SourcesMatch, IsRevision;
    if !HeaderMatches(lib, plan, b.manifest) || !SourcesMatch(files, b) { return MaterialFailed; }
    var total := 0;
    var staged: map<string, Bytes> := map[];
    var archives := b.manifest.payload.archives;
    for i := 0 to |archives|
      invariant total == StagedTotal(plan.archives[..i], b.archives) <= MAX_TOTAL
      invariant forall j | 0 <= j < i ::
                  && Readable(b.archives, plan.archives[j].path, MAX_ARCHIVE)
                  && VerifyArchive(lib, b.archives[plan.archives[j].path], plan.archives[j].integrity)
                  && |b.archives[plan.archives[j].path]| == archives[j].size
                  && plan.archives[j].path in staged
                  && staged[plan.archives[j].path] == b.archives[plan.archives[j].path]
    {
      var entry := archives[i];
      assert entry.archive == plan.archives[i];
      if !Readable(b.archives, entry.archive.path, MAX_ARCHIVE) { return MaterialFailed; }
      var data := b.archives[entry.archive.path];
      if !VerifyArchive(lib, data, entry.archive.integrity) { return MaterialFailed; }
      StagedTotalGrows(plan.archives, b.archives, i + 1);
      assert plan.archives[..i + 1][..i] == plan.archives[..i];
      total := total + |data|;
      if |data| != entry.size || total > MAX_TOTAL { return MaterialFailed; }
      staged := staged[entry.archive.path := data];
    }
    assert plan.archives[..|archives|] == plan.archives;
    r := Ok(Staged(files, staged));
  }

  /* ----- the two agree ----- */

  /** A bundle that `materialize` wrote is accepted by `stage_bundle` for the same metadata, at whatever revision,
      exactly when its manifest and every metadata file are within the read limit. */
  lemma MaterializedIsStaged(lib: Library, revision: string, files: map<string, Bytes>, plan: Plan, b: Bundle)
    requires IsRevision(revision) && IsBundleOf(lib, revision, files, plan, b)
    ensures HeaderMatches(lib, plan, b.manifest) && SourcesMatch(files, b) && ArchivesMatch(lib, plan, b) <==>
              lib.manifestSize(b.manifest) <= READ_LIMIT && forall name | name in files :: |files[name]| <= READ_LIMIT
  {
    if forall name | name in files :: |files[name]| <= READ_LIMIT {
      assert SourcesMatch(files, b);
    } else {
      var name :| name in files && |files[name]| > READ_LIMIT;
      assert !Readable(b.sources, name, READ_LIMIT);
    }
  }

  /** The bundle is accepted exactly when its manifest is the one that a preparation at its revision writes for the
      archives it holds, manifest and metadata are within 4 MiB, the metadata is the committed one, every archive is
      what the plan says, and all together are at most one GiB. */
  lemma AcceptedMeans(lib: Library, files: map<string, Bytes>, plan: Plan, b: Bundle)
    ensures HeaderMatches(lib, plan, b.manifest) && SourcesMatch(files, b) && ArchivesMatch(lib, plan, b) <==>
              && (|b.manifest.sourceRevision| == 40 || |b.manifest.sourceRevision| == 64)
              && IsHex(b.manifest.sourceRevision)
              && lib.manifestSize(b.manifest) <= 4_194_304
              && b.manifest
                 == ManifestOf(lib, b.manifest.sourceRevision, plan, ArchiveSizes(plan.archives, b.archives))
              && (forall name | name in files ::
                    name in b.sources && b.sources[name] == files[name] && |files[name]| <= 4_194_304)
              && (forall i | 0 <= i < |plan.archives| ::
                    plan.archives[i].path in b.archives
                    && IsArchive(lib, b.archives[plan.archives[i].path], plan.archives[i].integrity))
              && StagedTotal(plan.archives, b.archives) <= 1_073_741_824
  {
    forall data, integrity ensures VerifyArchive(lib, data, integrity) <==> IsArchive(lib, data, integrity) {
      VerifyMeans(lib, data, integrity);
    }
    hide VerifyArchive, StagedTotal, IsHex;
    var sizes := ArchiveSizes(plan.archives, b.archives);
    if |b.manifest.payload.archives| == |plan.archives|
       && forall i | 0 <= i < |plan.archives| ::
            b.manifest.payload.archives[i] == SizedArchive(plan.archives[i], sizes[i]) {
      assert b.manifest.payload.archives == Sized(plan.archives, sizes);
    }
    AllWithinLimit(lib, plan, b);
    hide IsArchive;
  }

  lemma AllWithinLimit(lib: Library, plan: Plan, b: Bundle)
    ensures forall data, integrity | IsArchive(lib, data, integrity) :: |data| <= MAX_ARCHIVE
  {
  }

  /** Acceptance means that every staged archive has the committed integrity and the recorded size, and that together
      they stay within the total. */
  lemma StagedIsCommitted(lib: Library, files: map<string, Bytes>, plan: Plan, b: Bundle, i: nat)
    requires HeaderMatches(lib, plan, b.manifest) && SourcesMatch(files, b) && ArchivesMatch(lib, plan, b)
             && i < |plan.archives|
    ensures plan.archives[i].path in b.archives
    ensures Some(lib.sha512(b.archives[plan.archives[i].path])) == SriBytes(lib, plan.archives[i].integrity)
    ensures b.manifest.payload.archives[i] == SizedArchive(plan.archives[i], |b.archives[plan.archives[i].path]|)
    ensures b.manifest == ManifestOf(lib, b.manifest.sourceRevision, plan, ArchiveSizes(plan.archives, b.archives))
    ensures StagedTotal(plan.archives, b.archives) <= MAX_TOTAL
  {
    assert b.manifest.payload.archives == Sized(plan.archives, ArchiveSizes(plan.archives, b.archives));
  }
}

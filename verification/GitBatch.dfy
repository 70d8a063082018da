/** Reading blobs from the output of `git cat-file --batch`: `GitSnapshot.read_many`. */
module GitBatch {
  import opened Basics
  import opened Decimal
  import opened PyText
  import opened Ordering

  const LF: Byte := 10

  /* ----- Python slices and searches, negative positions included ----- */

  function Position(i: int, length: nat): (n: nat)
    ensures n <= length
  {
    if i < 0 then (if length + i < 0 then 0 else length + i) else if i > length then length else i
  }

  function Slice(b: Bytes, i: int, j: int): Bytes {
    var from, to := Position(i, |b|), Position(j, |b|);
    if from < to then b[from..to] else []
  }

  function FindFrom(b: Bytes, c: Byte, from: nat): (r: Option<nat>)
    requires from <= |b|
    ensures r.Some? ==> from <= r.value < |b| && b[r.value] == c && c !in b[from..r.value]
    ensures r.None? ==> c !in b[from..]
    decreases |b| - from
  {
    if from == |b| then None
    else if b[from] == c then Some(from)
    else
      assert b[from..] == [b[from]] + b[from + 1..];
      var r := FindFrom(b, c, from + 1);
      assert r.Some? ==> b[from..r.value] == [b[from]] + b[from + 1..r.value];
      r
  }

  /** `bytes.decode("ascii")` */
  function DecodeAscii(b: Bytes): Option<string> {
    if b == [] then Some([])
    else if b[0] >= 128 then None
    else
      match DecodeAscii(b[1..])
      case None => None
      case Some(s) => Some([b[0] as char] + s)
  }

  /* ----- one record, and all of them ----- */

  datatype Record = Record(content: Bytes, next: int)

  function ReadRecord(output: Bytes, offset: int, oid: string): Option<Record> {
    match FindFrom(output, LF, Position(offset, |output|))
    case None => None
    case Some(end) =>
      match DecodeAscii(Slice(output, offset, end))
      case None => None
      case Some(header) =>
        var parts := Tokens(header);
        if |parts| != 3 || PyInt(parts[2]).IntError? || parts[0] != oid || parts[1] != "blob" then None
        else
          var start := end + 1;
          var next := start + PyInt(parts[2]).value;
          if Slice(output, next, next + 1) != [LF] then None else Some(Record(Slice(output, start, next), next + 1))
  }

  /** The blobs read from `offset` on; the output must end with the last record. */
  function ReadAll(output: Bytes, oids: seq<string>, offset: int): Option<seq<Bytes>> {
    if oids == [] then (if offset == |output| then Some([]) else None)
    else
      match ReadRecord(output, offset, oids[0])
      case None => None
      case Some(record) =>
        match ReadAll(output, oids[1..], record.next)
        case None => None
        case Some(rest) => Some([record.content] + rest)
  }

  /* ----- the snapshot ----- */

  datatype TreeEntry = TreeEntry(mode: string, kind: string, oid: string)

  predicate IsRegular(e: TreeEntry) { e.kind == "blob" && (e.mode == "100644" || e.mode == "100755") }

  /** The contents after reading `paths[i]` as `blobs[i]`. */
  function Stored(contents: map<string, Bytes>, paths: seq<string>, blobs: seq<Bytes>): map<string, Bytes>
    requires |blobs| <= |paths|
    decreases |blobs|
  {
    if blobs == [] then contents else Stored(contents[paths[0] := blobs[0]], paths[1..], blobs[1..])
  }

  lemma {:induction false} ReadAllLength(output: Bytes, oids: seq<string>, offset: int)
    ensures ReadAll(output, oids, offset).Some? ==> |ReadAll(output, oids, offset).value| == |oids|
  {
    if oids != [] {
      match ReadRecord(output, offset, oids[0])
      case None =>
      case Some(record) => ReadAllLength(output, oids[1..], record.next);
    }
  }

  lemma ReadStep(output: Bytes, oids: seq<string>, offset: int, content: Bytes, next: int)
    requires oids != [] && ReadRecord(output, offset, oids[0]) == Some(Record(content, next))
    ensures ReadAll(output, oids, offset) ==
              match ReadAll(output, oids[1..], next) { case None => None case Some(rest) => Some([content] + rest) }
  {
  }

  lemma ReadStops(output: Bytes, oids: seq<string>, offset: int)
    requires oids != [] && ReadRecord(output, offset, oids[0]).None?
    ensures ReadAll(output, oids, offset) == None
  {
    hide ReadRecord;
  }

  lemma StoredStep(contents: map<string, Bytes>, paths: seq<string>, blob: Bytes, rest: seq<Bytes>)
    requires |rest| + 1 <= |paths|
    ensures Stored(contents, paths, [blob] + rest) == Stored(contents[paths[0] := blob], paths[1..], rest)
  {
    assert ([blob] + rest)[1..] == rest;
  }

  /** The loop stands at record `i`: what is left decodes exactly if the whole does, and stores what is missing. */
  ghost predicate Reading(
    output: Bytes, oids: seq<string>, paths: seq<string>, before: map<string, Bytes>, i: nat, offset: int,
    now: map<string, Bytes>)
    requires i <= |oids| == |paths|
  {
    && (ReadAll(output, oids, 0).Some? <==> ReadAll(output, oids[i..], offset).Some?)
    && (ReadAll(output, oids, 0).Some? ==>
          && |ReadAll(output, oids, 0).value| == |paths|
          && |ReadAll(output, oids[i..], offset).value| == |paths| - i
          && Stored(now, paths[i..], ReadAll(output, oids[i..], offset).value)
             == Stored(before, paths, ReadAll(output, oids, 0).value))
  }

  lemma ReadingStart(output: Bytes, oids: seq<string>, paths: seq<string>, before: map<string, Bytes>)
    requires |oids| == |paths|
    ensures Reading(output, oids, paths, before, 0, 0, before)
  {
    ReadAllLength(output, oids, 0);
    assert oids[0..] == oids && paths[0..] == paths;
    hide ReadAll, Stored;
  }

  lemma ReadingStep(
    output: Bytes, oids: seq<string>, paths: seq<string>, before: map<string, Bytes>, i: nat, offset: int,
    now: map<string, Bytes>)
    requires i < |oids| == |paths| && Reading(output, oids, paths, before, i, offset, now)
    ensures match ReadRecord(output, offset, oids[i])
      case None => ReadAll(output, oids, 0).None?
      case Some(record) => Reading(output, oids, paths, before, i + 1, record.next, now[paths[i] := record.content])
  {
    assert oids[i..][1..] == oids[i + 1..] && paths[i..][1..] == paths[i + 1..];
    assert oids[i..][0] == oids[i] && paths[i..][0] == paths[i] && oids[i..] != [];
    hide ReadRecord, ReadAll, Stored;
    match ReadRecord(output, offset, oids[i])
    case None => ReadStops(output, oids[i..], offset);
    case Some(record) =>
      ReadStep(output, oids[i..], offset, record.content, record.next);
      if ReadAll(output, oids[i + 1..], record.next).Some?
         && |ReadAll(output, oids[i + 1..], record.next).value| < |paths| - i {
        StoredStep(now, paths[i..], record.content, ReadAll(output, oids[i + 1..], record.next).value);
      }
  }

  lemma ReadingEnd(
    output: Bytes, oids: seq<string>, paths: seq<string>, before: map<string, Bytes>, offset: int,
    now: map<string, Bytes>)
    requires |oids| == |paths| && Reading(output, oids, paths, before, |oids|, offset, now)
    ensures match ReadAll(output, oids, 0)
      case None => offset != |output|
      case Some(blobs) => offset == |output| && |blobs| == |oids| && now == Stored(before, paths, blobs)
  {
    hide ReadRecord;
  }

  /** Each path holds its blob, and every other entry is as it was. */
  ghost predicate HoldsBlobs(
    before: map<string, Bytes>, paths: seq<string>, blobs: seq<Bytes>, after: map<string, Bytes>) {
    && |paths| == |blobs|
    && (forall i | 0 <= i < |paths| :: paths[i] in after && after[paths[i]] == blobs[i])
    && (forall p | p !in paths :: (p in after <==> p in before) && (p in before ==> after[p] == before[p]))
  }

  lemma {:induction false} StoredHolds(contents: map<string, Bytes>, paths: seq<string>, blobs: seq<Bytes>)
    requires |blobs| == |paths| && Increasing(paths)
    ensures HoldsBlobs(contents, paths, blobs, Stored(contents, paths, blobs))
    decreases |blobs|
  {
    if blobs != [] {
      var next := contents[paths[0] := blobs[0]];
      StoredHolds(next, paths[1..], blobs[1..]);
      FirstIsNew(paths);
      hide Increasing;
      HoldsOneMore(contents, paths, blobs, Stored(next, paths[1..], blobs[1..]));
    }
  }

  lemma FirstIsNew(paths: seq<string>)
    requires Increasing(paths) && paths != []
    ensures paths[0] !in paths[1..]
  {
    if paths[0] in paths[1..] {
      var j :| 0 <= j < |paths| - 1 && paths[1..][j] == paths[0];
      IncreasingDistinct(paths, 0, j + 1);
    }
  }

  lemma HoldsOneMore(before: map<string, Bytes>, paths: seq<string>, blobs: seq<Bytes>, after: map<string, Bytes>)
    requires paths != [] && blobs != [] && paths[0] !in paths[1..]
    requires HoldsBlobs(before[paths[0] := blobs[0]], paths[1..], blobs[1..], after)
    ensures HoldsBlobs(before, paths, blobs, after)
  {
    forall i | 0 <= i < |paths| ensures paths[i] in after && after[paths[i]] == blobs[i] {
      if i > 0 { assert paths[i] == paths[1..][i - 1] && blobs[i] == blobs[1..][i - 1]; }
    }
    forall p | p !in paths ensures (p in after <==> p in before) && (p in before ==> after[p] == before[p]) {
      assert p !in paths[1..] && p != paths[0];
    }
  }

  /** The contents of the objects. */
  ghost function ObjectsOf(objects: string -> Bytes, oids: seq<string>): (blobs: seq<Bytes>)
    ensures |blobs| == |oids| && forall i | 0 <= i < |blobs| :: blobs[i] == objects(oids[i])
  {
    seq(|oids|, i requires 0 <= i < |oids| => objects(oids[i]))
  }

  class GitSnapshot {
    const entries: map<string, TreeEntry>
    var contents: map<string, Bytes>

    constructor (entries: map<string, TreeEntry>)
      ensures this.entries == entries && contents == map[]
    {
      this.entries := entries;
      contents := map[];
    }

    /** The paths still to read, in order. */
    function Pending(paths: set<string>): (pending: seq<string>)
      reads this
      ensures Increasing(pending) && forall p :: p in pending <==> p in paths && p !in contents
    {
      Sorted(paths - contents.Keys)
    }

    predicate Supported(paths: seq<string>) {
      forall p | p in paths :: p in entries && IsRegular(entries[p])
    }

    function Oids(paths: seq<string>): (oids: seq<string>)
      requires Supported(paths)
      ensures |oids| == |paths|
    {
      seq(|paths|, i requires 0 <= i < |paths| && paths[i] in paths => entries[paths[i]].oid)
    }

    /** Git answers the ids of the pending paths with these blobs, in the format of its batches. */
    ghost predicate Answers(paths: set<string>, catFile: seq<string> -> Bytes, blobs: seq<Bytes>)
      reads this
    {
      var pending := Pending(paths);
      Supported(pending) && |blobs| == |pending| && (forall o | o in Oids(pending) :: IsOid(o))
      && catFile(Oids(pending)) == Encode(Oids(pending), blobs)
    }

    /** The entry is a regular file, executable or not. */
    ghost predicate IsFile(p: string) {
      p in entries && entries[p].kind == "blob" && (entries[p].mode == "100644" || entries[p].mode == "100755")
    }

    /** Git has these objects and answers every list of ids with their contents. */
    ghost predicate Serves(catFile: seq<string> -> Bytes, objects: string -> Bytes) {
      forall oids | forall o | o in oids :: IsOid(o) :: catFile(oids) == Encode(oids, ObjectsOf(objects, oids))
    }

    lemma ServedAnswers(paths: set<string>, catFile: seq<string> -> Bytes, objects: string -> Bytes)
      requires Serves(catFile, objects)
      requires forall p | p in paths && p !in contents :: IsFile(p) && IsOid(entries[p].oid)
      ensures Supported(Pending(paths)) && Answers(paths, catFile, ObjectsOf(objects, Oids(Pending(paths))))
    {
      var pending := Pending(paths);
      forall o | o in Oids(pending) ensures IsOid(o) {
        var i :| 0 <= i < |pending| && Oids(pending)[i] == o;
        assert pending[i] in pending;
      }
    }

    /** Each path has the object that its entry names, and what was read before is as it was. */
    ghost predicate HoldsObjects(
      paths: set<string>, objects: string -> Bytes, before: map<string, Bytes>, after: map<string, Bytes>) {
      && (forall p | p in paths && p !in before ::
            p in entries && p in after && after[p] == objects(entries[p].oid))
      && (forall p | p in before :: p in after && after[p] == before[p])
    }

    lemma ServedHold(
      paths: set<string>, catFile: seq<string> -> Bytes, objects: string -> Bytes, after: map<string, Bytes>)
      requires Supported(Pending(paths)) && Answers(paths, catFile, ObjectsOf(objects, Oids(Pending(paths))))
      requires HoldsBlobs(contents, Pending(paths), ObjectsOf(objects, Oids(Pending(paths))), after)
      ensures HoldsObjects(paths, objects, contents, after)
    {
      var pending := Pending(paths);
      forall p | p in paths && p !in contents ensures p in after && after[p] == objects(entries[p].oid) {
        var i :| 0 <= i < |pending| && pending[i] == p;
      }
    }

    /** What is claimed of the contents when git serves its objects follows from what is claimed of its answers. */
    lemma ServedResult(paths: set<string>, catFile: seq<string> -> Bytes)
      ensures forall objects | Serves(catFile, objects)
                               && (forall p | p in paths && p !in contents :: IsFile(p) && IsOid(entries[p].oid)) ::
                && Answers(paths, catFile, ObjectsOf(objects, Oids(Pending(paths))))
                && forall after
                     | HoldsBlobs(contents, Pending(paths), ObjectsOf(objects, Oids(Pending(paths))), after) ::
                     HoldsObjects(paths, objects, contents, after)
    {
      forall objects | Serves(catFile, objects)
                       && (forall p | p in paths && p !in contents :: IsFile(p) && IsOid(entries[p].oid))
        ensures Answers(paths, catFile, ObjectsOf(objects, Oids(Pending(paths)))) {
        ServedAnswers(paths, catFile, objects);
      }
      hide Serves, HoldsBlobs, IsOid;
      forall objects, after | Serves(catFile, objects)
                              && (forall p | p in paths && p !in contents :: IsFile(p) && IsOid(entries[p].oid))
                              && HoldsBlobs(contents, Pending(paths), ObjectsOf(objects, Oids(Pending(paths))), after)
        ensures HoldsObjects(paths, objects, contents, after) {
        ServedHold(paths, catFile, objects, after);
      }
    }

    lemma AnswersAreRead(paths: set<string>, catFile: seq<string> -> Bytes)
      ensures forall blobs | Answers(paths, catFile, blobs) ::
                && Supported(Pending(paths))
                && ReadAll(catFile(Oids(Pending(paths))), Oids(Pending(paths)), 0) == Some(blobs)
                && (Pending(paths) == [] ==> HoldsBlobs(contents, [], blobs, contents))
    {
      hide ReadAll;
      forall blobs | Answers(paths, catFile, blobs)
        ensures ReadAll(catFile(Oids(Pending(paths))), Oids(Pending(paths)), 0) == Some(blobs)
      {
        BatchRoundTrip(Oids(Pending(paths)), blobs);
      }
    }

    lemma OtherEntry(paths: set<string>)
      ensures (exists p :: p in paths && p !in contents && !IsFile(p)) ==> !Supported(Pending(paths))
    {
      if p :| p in paths && p !in contents && !IsFile(p) {
        assert p in Pending(paths);
      }
    }

    /** `catFile` stands for the git process: it answers a list of object ids with its output. When git answers with the
        blobs of the pending paths, whatever bytes they hold, each of these paths is left with its blob. */
    method ReadMany(paths: set<string>, catFile: seq<string> -> Bytes) returns (ok: bool)
      modifies this
      ensures !old(Supported(Pending(paths))) ==> !ok && contents == old(contents)
      ensures old(Supported(Pending(paths))) && old(Pending(paths)) == [] ==> ok && contents == old(contents)
      ensures old(Supported(Pending(paths))) && old(Pending(paths)) != [] ==>
                var oids := Oids(old(Pending(paths)));
                match ReadAll(catFile(oids), oids, 0)
                case None => !ok
                case Some(blobs) =>
                  ok && |blobs| == |oids| && HoldsBlobs(old(contents), old(Pending(paths)), blobs, contents)
      ensures forall blobs | old(Answers(paths, catFile, blobs)) ::
                ok && HoldsBlobs(old(contents), old(Pending(paths)), blobs, contents)
      ensures (exists p :: p in paths && p !in old(contents) && !IsFile(p)) ==> !ok && contents == old(contents)
      ensures forall objects | Serves(catFile, objects)
                               && (forall p | p in paths && p !in old(contents) ::
                                     IsFile(p) && IsOid(entries[p].oid)) ::
                ok && HoldsObjects(paths, objects, old(contents), contents)
    {
      hide *;
      ServedResult(paths, catFile);
      AnswersAreRead(paths, catFile);
      OtherEntry(paths);
      var pending := Pending(paths);
      if !Supported(pending) { return false; }
      if pending == [] { return true; }
      var oids := Oids(pending);
      var output := catFile(oids);
      var offset: int := 0;
      ReadingStart(output, oids, pending, contents);
      for i := 0 to |pending|
        invariant Reading(output, oids, pending, old(contents), i, offset, contents)
      {
        ReadingStep(output, oids, pending, old(contents), i, offset, contents);
        match ReadRecord(output, offset, oids[i]) {
          case None => return false;
          case Some(record) =>
            contents := contents[pending[i] := record.content];
            offset := record.next;
        }
      }
      ReadingEnd(output, oids, pending, old(contents), offset, contents);
      ok := offset == |output|;
      if ok { StoredHolds(old(contents), pending, ReadAll(output, oids, 0).value); }
    }
  }

  /* ----- the format, and that reading inverts it ----- */

  function EncodeAscii(s: string): Bytes
    requires forall i | 0 <= i < |s| :: s[i] as int < 128
  {
    seq(|s|, i requires 0 <= i < |s| => s[i] as int)
  }

  predicate IsOid(s: string) {
    s != [] && forall i | 0 <= i < |s| :: '0' <= s[i] <= '9' || 'a' <= s[i] <= 'f'
  }

  function HeaderText(oid: string, size: nat): (s: string)
    requires IsOid(oid)
    ensures forall i | 0 <= i < |s| :: s[i] as int < 128 && s[i] != '\n'
  {
    var digits := Render(size);
    assert forall i | 0 <= i < |digits| :: IsDigit(digits[i]);
    oid + " blob " + digits
  }

  /** `<oid> blob <size>` LF, the content, LF */
  function EncodeRecord(oid: string, blob: Bytes): Bytes
    requires IsOid(oid)
  {
    EncodeAscii(HeaderText(oid, |blob|)) + [LF] + blob + [LF]
  }

  function Encode(oids: seq<string>, blobs: seq<Bytes>): Bytes
    requires |oids| == |blobs| && forall o | o in oids :: IsOid(o)
  {
    if oids == [] then [] else EncodeRecord(oids[0], blobs[0]) + Encode(oids[1..], blobs[1..])
  }

  lemma {:induction false} DecodeEncode(s: string)
    requires forall i | 0 <= i < |s| :: s[i] as int < 128
    ensures DecodeAscii(EncodeAscii(s)) == Some(s)
  {
    if s != [] {
      DecodeEncode(s[1..]);
      assert EncodeAscii(s)[1..] == EncodeAscii(s[1..]);
      assert s == [s[0]] + s[1..];
    }
  }

  lemma HeaderTokens(oid: string, size: nat)
    requires IsOid(oid)
    ensures Tokens(HeaderText(oid, size)) == [oid, "blob", Render(size)]
  {
    var digits := Render(size);
    assert IsToken("blob");
    assert IsToken(digits) by { assert forall i | 0 <= i < |digits| :: IsDigit(digits[i]); }
    ThreeTokens(oid, "blob", digits);
    assert " blob " == " " + "blob" + " ";
    assert oid + " blob " + digits == oid + " " + "blob" + " " + digits;
  }

  lemma MiddleElements(pre: Bytes, middle: Bytes, post: Bytes, c: Byte)
    requires c !in middle
    ensures forall i | |pre| <= i < |pre| + |middle| :: (pre + middle + post)[i] != c
  {
    forall i | |pre| <= i < |pre| + |middle| ensures (pre + middle + post)[i] != c {
      assert (pre + middle + post)[i] == middle[i - |pre|];
    }
  }

  lemma FindHeader(before: Bytes, header: Bytes, post: Bytes)
    requires LF !in header && post != [] && post[0] == LF
    ensures FindFrom(before + header + post, LF, |before|) == Some(|before| + |header|)
    ensures Slice(before + header + post, |before|, |before| + |header|) == header
  {
    SliceMiddle(before, header, post);
    MiddleElements(before, header, post, LF);
    assert (before + header + post)[|before| + |header|] == post[0];
    HeaderEnd(before + header + post, |before|, |before| + |header|);
  }

  lemma ReadAfterHeader(output: Bytes, offset: nat, end: nat, oid: string, size: nat)
    requires IsOid(oid) && offset <= |output| && FindFrom(output, LF, offset) == Some(end)
    requires Slice(output, offset, end) == EncodeAscii(HeaderText(oid, size))
    ensures ReadRecord(output, offset, oid) ==
              if Slice(output, end + 1 + size, end + 1 + size + 1) != [LF] then None
              else Some(Record(Slice(output, end + 1, end + 1 + size), end + 1 + size + 1))
  {
    hide FindFrom, Slice, DecodeAscii, EncodeAscii, Tokens, PyInt, HeaderText;
    DecodeEncode(HeaderText(oid, size));
    HeaderTokens(oid, size);
    PyIntOfRender(size);
  }

  /** The line that starts at the offset is the header. */
  ghost predicate HeaderAt(output: Bytes, offset: nat, header: Bytes) {
    && offset <= |output| && FindFrom(output, LF, offset) == Some(offset + |header|)
    && Slice(output, offset, offset + |header|) == header
  }

  /** What is read at the offset is what stands from `start` on, if an end of line follows. */
  ghost predicate ReadsContent(output: Bytes, offset: nat, start: nat, oid: string, size: nat) {
    ReadRecord(output, offset, oid) ==
    if Slice(output, start + size, start + size + 1) != [LF] then None
    else Some(Record(Slice(output, start, start + size), start + size + 1))
  }

  /** What follows the header of a record decides how it is read. */
  lemma ReadHeader(output: Bytes, before: Bytes, header: Bytes, oid: string, size: nat, after: Bytes)
    requires IsOid(oid) && header == EncodeAscii(HeaderText(oid, size)) && output == before + header + [LF] + after
    ensures ReadsContent(output, |before|, |before| + |header| + 1, oid, size)
  {
    hide *;
    HeaderWithoutEnd(oid, size);
    HeaderFound(output, before, header, after);
    ReadHeaderAt(output, |before|, header, oid, size);
  }

  lemma ReadHeaderAt(output: Bytes, offset: nat, header: Bytes, oid: string, size: nat)
    requires IsOid(oid) && header == EncodeAscii(HeaderText(oid, size)) && HeaderAt(output, offset, header)
    ensures ReadsContent(output, offset, offset + |header| + 1, oid, size)
  {
    hide ReadRecord, EncodeAscii, HeaderText, Slice, FindFrom, IsOid;
    ReadAfterHeader(output, offset, offset + |header|, oid, size);
  }

  lemma HeaderFound(output: Bytes, before: Bytes, header: Bytes, after: Bytes)
    requires LF !in header && output == before + header + [LF] + after
    ensures HeaderAt(output, |before|, header)
  {
    Associate(before + header, [LF], after);
    hide FindFrom, Slice;
    FindHeader(before, header, [LF] + after);
  }

  lemma HeaderWithoutEnd(oid: string, size: nat)
    requires IsOid(oid)
    ensures LF !in EncodeAscii(HeaderText(oid, size))
  {
    var text := HeaderText(oid, size);
    hide HeaderText;
    assert forall i | 0 <= i < |text| :: text[i] as int != 10;
  }

  lemma EncodeStep(oids: seq<string>, blobs: seq<Bytes>)
    requires |oids| == |blobs| && oids != [] && forall o | o in oids :: IsOid(o)
    ensures Encode(oids, blobs) == EncodeRecord(oids[0], blobs[0]) + Encode(oids[1..], blobs[1..])
  {
  }

  lemma {:induction false} HeaderEnd(output: Bytes, from: nat, end: nat)
    requires from <= end < |output| && output[end] == LF && forall i | from <= i < end :: output[i] != LF
    ensures FindFrom(output, LF, from) == Some(end)
    decreases end - from
  {
    if from < end { HeaderEnd(output, from + 1, end); }
  }

  lemma SliceMiddle(pre: Bytes, middle: Bytes, post: Bytes)
    ensures Slice(pre + middle + post, |pre|, |pre| + |middle|) == middle
  {
  }

  lemma ReadContent(pre: Bytes, blob: Bytes, after: Bytes)
    ensures var output := pre + (blob + [LF] + after);
      Slice(output, |pre|, |pre| + |blob|) == blob && Slice(output, |pre| + |blob|, |pre| + |blob| + 1) == [LF]
  {
    SliceMiddle(pre, blob, [LF] + after);
    assert pre + (blob + [LF] + after) == pre + blob + ([LF] + after);
    SliceMiddle(pre + blob, [LF], after);
    assert pre + (blob + [LF] + after) == (pre + blob) + [LF] + after;
  }

  lemma ReadEncodedRecord(before: Bytes, oid: string, blob: Bytes, after: Bytes)
    requires IsOid(oid)
    ensures ReadRecord(before + EncodeRecord(oid, blob) + after, |before|, oid)
            == Some(Record(blob, |before| + |EncodeRecord(oid, blob)|))
  {
    hide ReadRecord, Slice, EncodeAscii, HeaderText, EncodeRecord;
    var header := EncodeAscii(HeaderText(oid, |blob|));
    var pre := before + header + [LF];
    ReadHeader(pre + (blob + [LF] + after), before, header, oid, |blob|, blob + [LF] + after);
    ReadContent(pre, blob, after);
    RecordText(before, oid, blob, after);
  }

  lemma RecordText(before: Bytes, oid: string, blob: Bytes, after: Bytes)
    requires IsOid(oid)
    ensures before + EncodeRecord(oid, blob) + after
            == before + EncodeAscii(HeaderText(oid, |blob|)) + [LF] + (blob + [LF] + after)
  {
    var header := EncodeAscii(HeaderText(oid, |blob|)) + [LF];
    assert EncodeRecord(oid, blob) == header + (blob + [LF]);
    Regroup(before, header, blob + [LF], after);
  }

  lemma ReadOneMore(output: Bytes, oids: seq<string>, blobs: seq<Bytes>, extra: Bytes, offset: int, next: int)
    requires |oids| == |blobs| && oids != []
    requires ReadRecord(output, offset, oids[0]) == Some(Record(blobs[0], next))
    requires ReadAll(output, oids[1..], next) == if extra == [] then Some(blobs[1..]) else None
    ensures ReadAll(output, oids, offset) == if extra == [] then Some(blobs) else None
  {
    hide ReadAll, ReadRecord;
    ReadStep(output, oids, offset, blobs[0], next);
    assert blobs == [blobs[0]] + blobs[1..];
  }

  lemma {:induction false} ReadEncodedFrom(before: Bytes, oids: seq<string>, blobs: seq<Bytes>, extra: Bytes)
    requires |oids| == |blobs| && forall o | o in oids :: IsOid(o)
    ensures ReadAll(before + Encode(oids, blobs) + extra, oids, |before|) == if extra == [] then Some(blobs) else None
    decreases |oids|
  {
    if oids == [] {
      assert before + Encode(oids, blobs) + extra == before + extra;
    } else {
      hide ReadRecord, ReadAll, EncodeRecord, Encode;
      var record, rest := EncodeRecord(oids[0], blobs[0]), Encode(oids[1..], blobs[1..]);
      EncodeStep(oids, blobs);
      Regroup(before, record, rest, extra);
      Associate(before + record, rest, extra);
      ReadEncodedRecord(before, oids[0], blobs[0], rest + extra);
      ReadEncodedFrom(before + record, oids[1..], blobs[1..], extra);
      ReadOneMore(before + record + (rest + extra), oids, blobs, extra, |before|, |before + record|);
    }
  }

  /** Every sequence of blobs, with any bytes in them, is read back exactly and the whole stream is consumed. */
  lemma BatchRoundTrip(oids: seq<string>, blobs: seq<Bytes>)
    requires |oids| == |blobs| && forall o | o in oids :: IsOid(o)
    ensures ReadAll(Encode(oids, blobs), oids, 0) == Some(blobs)
  {
    assert [] + Encode(oids, blobs) + [] == Encode(oids, blobs);
    ReadEncodedFrom([], oids, blobs, []);
  }

  /** A stream that goes on after the last record is refused. */
  lemma LongerBatchRefused(oids: seq<string>, blobs: seq<Bytes>, extra: Bytes)
    requires |oids| == |blobs| && extra != [] && forall o | o in oids :: IsOid(o)
    ensures ReadAll(Encode(oids, blobs) + extra, oids, 0) == None
  {
    assert [] + Encode(oids, blobs) + extra == Encode(oids, blobs) + extra;
    ReadEncodedFrom([], oids, blobs, extra);
  }

  /* ----- a stream that is cut short ----- */

  lemma ReadCutRecord(before: Bytes, oid: string, blob: Bytes, cut: Bytes)
    requires IsOid(oid) && cut <= EncodeRecord(oid, blob) && cut != EncodeRecord(oid, blob)
    ensures ReadRecord(before + cut, |before|, oid) == None
  {
    var header := EncodeAscii(HeaderText(oid, |blob|));
    var output := before + cut;
    if |cut| <= |header| {
      assert forall i | 0 <= i < |cut| :: cut[i] == header[i];
      assert output[|before|..] == cut;
      assert LF !in cut;
    } else {
      assert cut == header + [LF] + cut[|header| + 1..];
      assert output == before + header + [LF] + cut[|header| + 1..];
      ReadHeader(output, before, header, oid, |blob|, cut[|header| + 1..]);
      assert |output| <= |before| + |header| + 1 + |blob|;
    }
  }

  /** The cut falls into the first record, or behind it. */
  lemma CutWhere(record: Bytes, rest: Bytes, cut: Bytes)
    requires cut <= record + rest && cut != record + rest
    ensures |cut| < |record| ==> cut <= record && cut != record
    ensures |cut| >= |record| ==> cut == record + cut[|record|..] && cut[|record|..] <= rest && cut[|record|..] != rest
  {
    assert cut == (record + rest)[..|cut|];
    if |cut| < |record| {
      assert cut == record[..|cut|];
    } else {
      assert cut[|record|..] == rest[..|cut| - |record|];
      assert cut[..|record|] == record;
    }
  }

  lemma {:induction false} ReadCutFrom(before: Bytes, oids: seq<string>, blobs: seq<Bytes>, cut: Bytes)
    requires |oids| == |blobs| && forall o | o in oids :: IsOid(o)
    requires cut <= Encode(oids, blobs) && cut != Encode(oids, blobs)
    ensures ReadAll(before + cut, oids, |before|) == None
    decreases |oids|
  {
    hide ReadRecord, EncodeRecord;
    var record, rest := EncodeRecord(oids[0], blobs[0]), Encode(oids[1..], blobs[1..]);
    EncodeStep(oids, blobs);
    CutWhere(record, rest, cut);
    if |cut| < |record| {
      ReadCutRecord(before, oids[0], blobs[0], cut);
    } else {
      hide ReadAll, Encode;
      var tail := cut[|record|..];
      ReadEncodedRecord(before, oids[0], blobs[0], tail);
      Associate(before, record, tail);
      ReadCutFrom(before + record, oids[1..], blobs[1..], tail);
      ReadStep(before + record + tail, oids, |before|, blobs[0], |before + record|);
    }
  }

  /** A stream that ends early, at whatever byte, is refused. */
  lemma TruncatedBatchRefused(oids: seq<string>, blobs: seq<Bytes>, cut: Bytes)
    requires |oids| == |blobs| && forall o | o in oids :: IsOid(o)
    requires cut <= Encode(oids, blobs) && cut != Encode(oids, blobs)
    ensures ReadAll(cut, oids, 0) == None
  {
    ReadCutFrom([], oids, blobs, cut);
    assert [] + cut == cut;
  }
}

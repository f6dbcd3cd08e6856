/**
 * The SOAP downloader's transfer loop (`downloadFiles`): every file record
 * whose local copy is missing or of another size is requested from the
 * server; the version named in the record is decoded and written, and three
 * counters keep track of attempts, successes and failures.
 *
 * The server's `getFileXML` answer is given as the list of its
 * `Versions/Version` elements, and base64 decoding followed by zlib
 * decompression as one function from the element text to bytes.
 */
module XmlDownload {
  import opened Wrappers
  import opened Text
  import opened LocalDisk
  import opened XmlExport

  /** One `Versions/Version` element: its `version` attribute, if any, and its text. */
  datatype Version = Version(version: Option<string>, text: string)

  /** What the program needs from the server and the codecs. */
  datatype Remote = Remote(versions: Option<string> -> seq<Version>, unpack: string -> seq<byte>)

  /** `new_files`, `count` and `failcount`. */
  datatype Tally = Tally(newFiles: nat, count: nat, failCount: nat)

  /** The value of the `version` attribute `'{}'.format(f['version'])` asks for. */
  function VersionKey(v: IntOrText): (key: string)
    ensures v.IntValue? ==> key == NatToString(v.n) && AllDigits(key) && DigitsValue(key) == v.n
    ensures v.IntValue? && |key| > 1 ==> key[0] != '0'
    ensures v.TextValue? ==> key == v.s
  {
    NatToStringRoundTrip(if v.IntValue? then v.n else 0);
    match v
    case IntValue(n) => NatToString(n)
    case TextValue(s) => s
  }

  /**
   * A version text with leading zeros is read as a number and asked for
   * without them, so a `version` attribute spelled like the text is not found.
   */
  lemma LeadingZeroVersion(text: string)
    requires AllDigits(text) && |text| > 1 && text[0] == '0'
    ensures VersionKey(GetIntValue(text)) != text
  {
  }

  /** The version text "07" asks for the attribute value "7". */
  lemma ExampleLeadingZero()
    ensures VersionKey(GetIntValue("07")) == "7"
  {
    var t := "07";
    assert t[..1] == "0";
    assert DigitsValue(t) == 7;
  }

  /** `root.find("Versions/Version[@version='key']")`: the first element with that attribute value. */
  function FindVersion(vs: seq<Version>, key: string): (r: Option<Version>)
    ensures r.Some? ==> r.value in vs && r.value.version == Some(key)
    ensures r.None? ==> forall k :: 0 <= k < |vs| ==> vs[k].version != Some(key)
    ensures r.Some? ==> exists k :: 0 <= k < |vs| && vs[k] == r.value && forall j :: 0 <= j < k ==> vs[j].version != Some(key)
    decreases |vs|
  {
    if vs == [] then None
    else if vs[0].version == Some(key) then Some(vs[0])
    else
      var r := FindVersion(vs[1..], key);
      if r.Some? then
        ghost var k :| 0 <= k < |vs[1..]| && vs[1..][k] == r.value && forall j :: 0 <= j < k ==> vs[1..][j].version != Some(key);
        assert vs[k + 1] == r.value;
        r
      else r
  }

  /** `Path(output, f['path'], f['title'])` */
  function Target(output: string, f: FileRecord): string {
    Child(Child(output, f.path), f.title)
  }

  /** `not path.exists() or path.stat().st_size != f['fileSize']`. */
  predicate IsStale(m: map<string, seq<byte>>, output: string, f: FileRecord) {
    var p := Target(output, f);
    p !in m || !(f.fileSize.IntValue? && f.fileSize.n == |m[p]|)
  }

  /** A size kept as text never equals a local size, so such a file is always fetched. */
  lemma TextSizeAlwaysStale(m: map<string, seq<byte>>, output: string, f: FileRecord)
    requires f.fileSize.TextValue?
    ensures IsStale(m, output, f)
  {
  }

  /** The file system and counters after one record. */
  datatype State = State(files: map<string, seq<byte>>, tally: Tally)

  function StepFile(s: State, output: string, f: FileRecord, remote: Remote): State {
    if !IsStale(s.files, output, f) then s
    else
      var t := s.tally;
      match FindVersion(remote.versions(f.id), VersionKey(f.version))
      case Some(v) =>
        State(s.files[Target(output, f) := remote.unpack(v.text)], Tally(t.newFiles + 1, t.count + 1, t.failCount))
      case None =>
        State(s.files, Tally(t.newFiles + 1, t.count, t.failCount + 1))
  }

  /** The effect of `downloadFiles` on the records in order, from file system `m`. */
  function DownloadAll(m: map<string, seq<byte>>, output: string, files: seq<FileRecord>, remote: Remote): State
    decreases |files|
  {
    if files == [] then State(m, Tally(0, 0, 0))
    else StepFile(DownloadAll(m, output, files[..|files| - 1], remote), output, files[|files| - 1], remote)
  }

  /** `downloadFiles(client, sid, parser, output, files)` */
  method DownloadFiles(disk: Disk, output: string, files: seq<FileRecord>, remote: Remote)
      returns (newFiles: nat, count: nat, failCount: nat)
    modifies disk
    ensures disk.files == DownloadAll(old(disk.files), output, files, remote).files
    ensures Tally(newFiles, count, failCount) == DownloadAll(old(disk.files), output, files, remote).tally
  {
    count, failCount, newFiles := 0, 0, 0;
    for i := 0 to |files|
      invariant DownloadAll(old(disk.files), output, files[..i], remote) == State(disk.files, Tally(newFiles, count, failCount))
    {
      assert files[..i + 1][..i] == files[..i];
      var f := files[i];
      var path := Target(output, f);
      if !disk.Exists(path) || !(f.fileSize.IntValue? && f.fileSize.n == disk.SizeOf(path)) {
        newFiles := newFiles + 1;
        var versions := remote.versions(f.id);
        var latestVersion := FindVersion(versions, VersionKey(f.version));
        if latestVersion.Some? {
          var decompressed := remote.unpack(latestVersion.value.text);
          disk.Write(path, decompressed);
          count := count + 1;
        } else {
          failCount := failCount + 1;
        }
      }
    }
    assert files[..|files|] == files;
  }

  /** Every attempt either succeeds or fails, and there is at most one attempt per record. */
  lemma {:induction false} TallyBalanced(m: map<string, seq<byte>>, output: string, files: seq<FileRecord>, remote: Remote)
    ensures var t := DownloadAll(m, output, files, remote).tally;
      t.count + t.failCount == t.newFiles <= |files|
    decreases |files|
  {
    if files != [] {
      TallyBalanced(m, output, files[..|files| - 1], remote);
    }
  }

  /** A record whose local copy is current is left alone and not counted. */
  lemma CurrentUntouched(s: State, output: string, f: FileRecord, remote: Remote)
    requires !IsStale(s.files, output, f)
    ensures StepFile(s, output, f, remote) == s
  {
  }

  /**
   * A stale record is written exactly when its version is listed, with the
   * decoded text of the first such element; otherwise it counts as failed
   * and nothing is written.
   */
  lemma StaleOutcome(s: State, output: string, f: FileRecord, remote: Remote)
    requires IsStale(s.files, output, f)
    ensures var r := StepFile(s, output, f, remote);
      var found := FindVersion(remote.versions(f.id), VersionKey(f.version));
      r.tally.newFiles == s.tally.newFiles + 1
      && (found.Some? ==> r.files == s.files[Target(output, f) := remote.unpack(found.value.text)]
                          && r.tally.count == s.tally.count + 1 && r.tally.failCount == s.tally.failCount)
      && (found.None? ==> r.files == s.files && r.tally.count == s.tally.count && r.tally.failCount == s.tally.failCount + 1)
  {
  }

  /** Only the records' own paths are ever written. */
  lemma {:induction false} OthersUntouched(m: map<string, seq<byte>>, output: string, files: seq<FileRecord>, remote: Remote, q: string)
    requires forall k :: 0 <= k < |files| ==> Target(output, files[k]) != q
    ensures var r := DownloadAll(m, output, files, remote).files;
      (q in r <==> q in m) && (q in m ==> r[q] == m[q])
    decreases |files|
  {
    if files != [] {
      OthersUntouched(m, output, files[..|files| - 1], remote, q);
    }
  }

  /** The number of records that are stale against `m`. */
  function StaleCount(m: map<string, seq<byte>>, output: string, files: seq<FileRecord>): (n: nat)
    ensures n <= |files|
    decreases |files|
  {
    if files == [] then 0
    else StaleCount(m, output, files[..|files| - 1]) + (if IsStale(m, output, files[|files| - 1]) then 1 else 0)
  }

  /** With one record per path, `new_files` is the number of records stale at the start. */
  lemma {:induction false} NewFilesAreStale(m: map<string, seq<byte>>, output: string, files: seq<FileRecord>, remote: Remote)
    requires forall i, j :: 0 <= i < j < |files| ==> Target(output, files[i]) != Target(output, files[j])
    ensures DownloadAll(m, output, files, remote).tally.newFiles == StaleCount(m, output, files)
    decreases |files|
  {
    if files != [] {
      var init := files[..|files| - 1];
      var last := files[|files| - 1];
      NewFilesAreStale(m, output, init, remote);
      OthersUntouched(m, output, init, remote, Target(output, last));
      assert IsStale(DownloadAll(m, output, init, remote).files, output, last) == IsStale(m, output, last);
    }
  }
}

/**
 * The scraping downloader's synchronisation (`IliasClient.download`,
 * `getFileProperties` and the per-file block of `main`): for every file
 * entry of a course, ask the server for the file's name and size, compare
 * with the local copy, and download, re-download or resolve a conflict.
 *
 * The server is a pair of functions from a link to the HEAD and the GET
 * response it gives.
 */
module HttpSync {
  import opened Wrappers
  import opened Text
  import opened LocalDisk
  import opened PageTree

  /** A GET response: status code and the body as `iter_content` yields it. */
  datatype Response = Response(status: int, chunks: seq<seq<byte>>)

  /**
   * A HEAD response: status code, the file name its content-disposition
   * header announces, and its content-length header if it sent one.
   */
  datatype Head = Head(status: int, fileName: string, contentLength: Option<nat>)

  /** What `getFileProperties` reports of a remote file. */
  datatype FileProps = FileProps(name: string, size: int)

  /** The size reported for a file whose HEAD response has no content-length. */
  const UnknownSize: int := -1

  /** The name a conflicting download is stored under before it is compared. */
  const TempName: string := "tmpfile"

  const StatusOk: int := 200

  /** `getFileProperties(url)`: nothing unless the HEAD succeeds; -1 when no length is sent. */
  function FileProperties(h: Head): (r: Option<FileProps>)
    ensures r.Some? <==> h.status == StatusOk
    ensures r.Some? ==> r.value.name == h.fileName
    ensures r.Some? ==> (r.value.size == UnknownSize <==> h.contentLength.None?)
    ensures r.Some? && h.contentLength.Some? ==> r.value.size == h.contentLength.value
  {
    if h.status != StatusOk then None
    else
      match h.contentLength
      case None => Some(FileProps(h.fileName, UnknownSize))
      case Some(n) => Some(FileProps(h.fileName, n))
  }

  /** The bytes of a body, chunk after chunk. */
  function Concat(chunks: seq<seq<byte>>): seq<byte>
    decreases |chunks|
  {
    if chunks == [] then [] else Concat(chunks[..|chunks| - 1]) + chunks[|chunks| - 1]
  }

  /** The file system after `download(url, name, dir)` with response `resp`. */
  function Fetched(m: map<string, seq<byte>>, dir: string, name: string, resp: Response): map<string, seq<byte>> {
    if resp.status != StatusOk then m else m[Child(dir, name) := Concat(resp.chunks)]
  }

  /**
   * `download(url, fname, path)`: a failed request writes nothing;
   * otherwise `path/fname` is truncated and receives the body chunk by chunk.
   */
  method Download(disk: Disk, dir: string, fname: string, resp: Response)
    modifies disk
    ensures disk.files == Fetched(old(disk.files), dir, fname, resp)
  {
    if resp.status != StatusOk {
      return;
    }
    var p := Child(dir, fname);
    disk.Write(p, []);
    for i := 0 to |resp.chunks|
      invariant disk.files == old(disk.files)[p := Concat(resp.chunks[..i])]
    {
      assert resp.chunks[..i + 1][..i] == resp.chunks[..i];
      disk.Append(p, resp.chunks[i]);
    }
    assert resp.chunks[..|resp.chunks|] == resp.chunks;
  }

  /** The four cases of the per-file block, by local size and announced remote size. */
  datatype Decision = Missing | Outdated | SizeUnknown | UpToDate

  function Plan(local: Option<nat>, remote: int): (d: Decision)
    ensures d == Missing <==> local.None?
    ensures d == SizeUnknown <==> local.Some? && remote == UnknownSize
    ensures d == Outdated <==> local.Some? && remote != UnknownSize && remote != local.value
    ensures d == UpToDate <==> local.Some? && remote == local.value
  {
    match local
    case None => Missing
    case Some(n) =>
      if remote == UnknownSize then SizeUnknown
      else if remote != n then Outdated
      else UpToDate
  }

  /**
   * Why the per-file block stops the program: the HEAD request failed (its
   * properties are missing), or the conflict download left no temporary file.
   */
  datatype SyncError = NoProperties | TempFileMissing

  /** The file system after a step, and the error that ended the run, if any. */
  datatype Outcome = Outcome(files: map<string, seq<byte>>, error: Option<SyncError>)

  /** The folder a file entry is stored in. */
  function EntryDir(output: string, entry: FileEntry): string {
    Child(output, entry.path)
  }

  /**
   * The conflict resolution after the temporary download: drop the temporary
   * file when it is as long as the existing one, otherwise move it over it.
   */
  function Resolve(m: map<string, seq<byte>>, tmp: string, dest: string): Outcome
    requires dest in m
  {
    if tmp !in m then Outcome(m, Some(TempFileMissing))
    else if |m[tmp]| == |m[dest]| then Outcome(m - {tmp}, None)
    else Outcome((m - {tmp})[dest := m[tmp]], None)
  }

  /** The per-file block of `main` (iliashttp.py, lines 127-147) on file system `m`. */
  function SyncStep(m: map<string, seq<byte>>, output: string, entry: FileEntry, head: Head, resp: Response): Outcome {
    match FileProperties(head)
    case None => Outcome(m, Some(NoProperties))
    case Some(props) =>
      var dir := EntryDir(output, entry);
      var dest := Child(dir, props.name);
      match Plan(if dest in m then Some(|m[dest]|) else None, props.size)
      case Missing => Outcome(Fetched(m, dir, props.name, resp), None)
      case Outdated => Outcome(Fetched(m, dir, props.name, resp), None)
      case UpToDate => Outcome(m, None)
      case SizeUnknown => Resolve(Fetched(m, dir, TempName, resp), Child(dir, TempName), dest)
  }

  /** One file entry synchronised against the server's answers for its link. */
  method SyncFile(disk: Disk, output: string, entry: FileEntry, head: Head, resp: Response)
      returns (err: Option<SyncError>)
    modifies disk
    ensures disk.files == SyncStep(old(disk.files), output, entry, head, resp).files
    ensures err == SyncStep(old(disk.files), output, entry, head, resp).error
  {
    var path := Child(output, entry.path);
    var props := FileProperties(head);
    if props.None? {
      return Some(NoProperties);
    }
    var fpath := Child(path, props.value.name);
    if disk.Exists(fpath) {
      if props.value.size == UnknownSize {
        var tmpfile := Child(path, TempName);
        Download(disk, path, TempName, resp);
        if !disk.Exists(tmpfile) {
          return Some(TempFileMissing);
        }
        if disk.SizeOf(tmpfile) == disk.SizeOf(fpath) {
          disk.Unlink(tmpfile);
        } else {
          disk.Replace(tmpfile, fpath);
        }
      } else if props.value.size != disk.SizeOf(fpath) {
        Download(disk, path, props.value.name, resp);
      }
    } else {
      Download(disk, path, props.value.name, resp);
    }
    err := None;
  }

  /** The path a file entry is stored at, given the name the server announces. */
  function Destination(output: string, entry: FileEntry, head: Head): string {
    Child(EntryDir(output, entry), head.fileName)
  }

  /**
   * A new file is downloaded under the announced name and nothing else
   * changes; when the GET fails nothing changes and the run goes on.
   */
  lemma NewFileDownloaded(m: map<string, seq<byte>>, output: string, entry: FileEntry, head: Head, resp: Response)
    requires head.status == StatusOk
    requires Destination(output, entry, head) !in m
    ensures resp.status == StatusOk ==>
      SyncStep(m, output, entry, head, resp) == Outcome(m[Destination(output, entry, head) := Concat(resp.chunks)], None)
    ensures resp.status != StatusOk ==> SyncStep(m, output, entry, head, resp) == Outcome(m, None)
  {
  }

  /** A local file as long as the announced size is left alone. */
  lemma UpToDateUntouched(m: map<string, seq<byte>>, output: string, entry: FileEntry, head: Head, resp: Response)
    requires head.status == StatusOk && head.contentLength.Some?
    requires Destination(output, entry, head) in m
    requires |m[Destination(output, entry, head)]| == head.contentLength.value
    ensures SyncStep(m, output, entry, head, resp) == Outcome(m, None)
  {
  }

  /** A local file of another length than the announced one is downloaded again. */
  lemma OutdatedReplaced(m: map<string, seq<byte>>, output: string, entry: FileEntry, head: Head, resp: Response)
    requires head.status == StatusOk && head.contentLength.Some?
    requires Destination(output, entry, head) in m
    requires |m[Destination(output, entry, head)]| != head.contentLength.value
    ensures SyncStep(m, output, entry, head, resp).error.None?
    ensures resp.status == StatusOk ==>
      SyncStep(m, output, entry, head, resp).files == m[Destination(output, entry, head) := Concat(resp.chunks)]
    ensures resp.status != StatusOk ==> SyncStep(m, output, entry, head, resp).files == m
  {
  }

  /**
   * The conflict path for a file of unknown size: afterwards no temporary
   * file is left, and the local file either keeps its content (same length)
   * or takes the downloaded one.
   */
  lemma ConflictResolved(m: map<string, seq<byte>>, output: string, entry: FileEntry, head: Head, resp: Response)
    requires head.status == StatusOk && head.contentLength.None? && head.fileName != TempName
    requires resp.status == StatusOk
    requires Destination(output, entry, head) in m
    ensures var dest := Destination(output, entry, head);
      var tmp := Child(EntryDir(output, entry), TempName);
      var o := SyncStep(m, output, entry, head, resp);
      var body := Concat(resp.chunks);
      o.error.None? && tmp !in o.files && dest in o.files
      && o.files[dest] == (if |body| == |m[dest]| then m[dest] else body)
      && forall q :: q != dest && q != tmp ==> (q in o.files <==> q in m) && (q in m ==> o.files[q] == m[q])
  {
    var dir := EntryDir(output, entry);
    var dest := Destination(output, entry, head);
    var tmp := Child(dir, TempName);
    if dest == tmp {
      ChildInjective(dir, head.fileName, TempName);
    }
  }

  /**
   * A remote file that is itself called "tmpfile", of unknown size, is its
   * own temporary file: the download overwrites it and the comparison of a
   * file with itself deletes it.
   */
  lemma TempNameClashDeletes(m: map<string, seq<byte>>, output: string, entry: FileEntry, head: Head, resp: Response)
    requires head.status == StatusOk && head.contentLength.None? && head.fileName == TempName
    requires resp.status == StatusOk
    requires Destination(output, entry, head) in m
    ensures SyncStep(m, output, entry, head, resp) == Outcome(m - {Destination(output, entry, head)}, None)
  {
    var dest := Destination(output, entry, head);
    assert Fetched(m, EntryDir(output, entry), TempName, resp) - {dest} == m - {dest};
  }

  /** A failed conflict download with no earlier temporary file stops the program. */
  lemma ConflictDownloadFails(m: map<string, seq<byte>>, output: string, entry: FileEntry, head: Head, resp: Response)
    requires head.status == StatusOk && head.contentLength.None?
    requires resp.status != StatusOk
    requires Destination(output, entry, head) in m
    requires Child(EntryDir(output, entry), TempName) !in m
    ensures SyncStep(m, output, entry, head, resp) == Outcome(m, Some(TempFileMissing))
  {
  }

  /**
   * A failed conflict download with a temporary file left from before
   * compares that old file instead, and moves it over the local file when
   * the lengths differ.
   */
  lemma StaleTempFileUsed(m: map<string, seq<byte>>, output: string, entry: FileEntry, head: Head, resp: Response)
    requires head.status == StatusOk && head.contentLength.None? && head.fileName != TempName
    requires resp.status != StatusOk
    requires Destination(output, entry, head) in m
    requires Child(EntryDir(output, entry), TempName) in m
    requires |m[Child(EntryDir(output, entry), TempName)]| != |m[Destination(output, entry, head)]|
    ensures var tmp := Child(EntryDir(output, entry), TempName);
      SyncStep(m, output, entry, head, resp) == Outcome((m - {tmp})[Destination(output, entry, head) := m[tmp]], None)
  {
  }

  /** A step touches at most the entry's destination and its temporary file. */
  lemma SyncStepFrame(m: map<string, seq<byte>>, output: string, entry: FileEntry, head: Head, resp: Response, q: string)
    requires q != Destination(output, entry, head) && q != Child(EntryDir(output, entry), TempName)
    ensures var o := SyncStep(m, output, entry, head, resp);
      (q in o.files <==> q in m) && (q in m ==> o.files[q] == m[q])
  {
  }

  /** The links of a course's entries and the server's answers for them. */
  datatype Server = Server(head: string -> Head, get: string -> Response)

  /** The sync of a list of entries, in order, stopping at the first error. */
  function SyncAll(m: map<string, seq<byte>>, output: string, files: seq<FileEntry>, server: Server): Outcome
    decreases |files|
  {
    if files == [] then Outcome(m, None)
    else
      var before := SyncAll(m, output, files[..|files| - 1], server);
      var f := files[|files| - 1];
      if before.error.Some? then before
      else SyncStep(before.files, output, f, server.head(f.url), server.get(f.url))
  }

  /** `for f in files:` of `main`: each entry synchronised in turn. */
  method SyncFiles(disk: Disk, output: string, files: seq<FileEntry>, server: Server) returns (err: Option<SyncError>)
    modifies disk
    ensures disk.files == SyncAll(old(disk.files), output, files, server).files
    ensures err == SyncAll(old(disk.files), output, files, server).error
  {
    err := None;
    for i := 0 to |files|
      invariant SyncAll(old(disk.files), output, files[..i], server) == Outcome(disk.files, None)
      invariant err.None?
    {
      assert files[..i + 1][..i] == files[..i];
      var f := files[i];
      ghost var before := disk.files;
      err := SyncFile(disk, output, f, server.head(f.url), server.get(f.url));
      assert SyncAll(old(disk.files), output, files[..i + 1], server) == Outcome(disk.files, err);
      if err.Some? {
        SyncAllStops(old(disk.files), output, files, server, i + 1);
        return;
      }
    }
    assert files[..|files|] == files;
  }

  /** Once a prefix of the entries fails, the whole run ends with that outcome. */
  lemma {:induction false} SyncAllStops(m: map<string, seq<byte>>, output: string, files: seq<FileEntry>, server: Server, n: nat)
    requires n <= |files|
    requires SyncAll(m, output, files[..n], server).error.Some?
    ensures SyncAll(m, output, files, server) == SyncAll(m, output, files[..n], server)
    decreases |files| - n
  {
    if n < |files| {
      assert files[..n + 1][..n] == files[..n];
      SyncAllStops(m, output, files, server, n + 1);
    } else {
      assert files[..n] == files;
    }
  }

  /**
   * A path component that stays where it is joined: not absolute (pathlib
   * would then drop everything before it) and without a ".." segment (the
   * file system would climb out of the folder).
   */
  predicate Relative(name: string) {
    !StartsWith(name, "/") && ".." !in SplitOn(name, '/')
  }

  /**
   * Every path a step may touch lies inside the output folder, as long as
   * the entry's folder path and the name are relative.
   */
  lemma StepInsideOutput(output: string, entry: FileEntry, name: string)
    requires Relative(entry.path) && Relative(name)
    ensures StartsWith(Child(EntryDir(output, entry), name), output + "/")
  {
    var p := Child(EntryDir(output, entry), name);
    assert p[..|output| + 1] == EntryDir(output, entry)[..|output| + 1];
  }

  lemma TempNameRelative()
    ensures Relative(TempName)
  {
    SplitOnWithout(TempName, '/');
  }

  /**
   * The sync of a list of entries changes nothing outside the output folder,
   * as long as the entries' folder paths and the names the server announces
   * for them are relative.
   */
  lemma {:induction false} SyncAllOutsideUntouched(m: map<string, seq<byte>>, output: string, files: seq<FileEntry>, server: Server, q: string)
    requires forall k :: 0 <= k < |files| ==> Relative(files[k].path) && Relative(server.head(files[k].url).fileName)
    requires !StartsWith(q, output + "/")
    ensures var o := SyncAll(m, output, files, server);
      (q in o.files <==> q in m) && (q in m ==> o.files[q] == m[q])
    decreases |files|
  {
    if files != [] {
      SyncAllOutsideUntouched(m, output, files[..|files| - 1], server, q);
      var f := files[|files| - 1];
      var head := server.head(f.url);
      assert Relative(f.path) && Relative(head.fileName);
      StepInsideOutput(output, f, head.fileName);
      TempNameRelative();
      StepInsideOutput(output, f, TempName);
      SyncStepFrame(SyncAll(m, output, files[..|files| - 1], server).files, output, f, head, server.get(f.url), q);
    }
  }
}

/**
 * The scraping crawler's view of a course (`IliasClient.parseTree`,
 * `getFilesCourse` and the URL rule of `getSoup`): the list rows of a
 * container page are classified into files, sub-folders and everything
 * else, and flattened depth first into file entries.
 *
 * A page is a finite tree: each row carries the rows of the page its link
 * leads to, so the crawl's recursion is structural.
 */
module PageTree {
  import opened Wrappers
  import opened Text
  import opened SizeParser

  /** The title anchor of a row: its text and its `href`, when it has one. */
  datatype Link = Link(text: string, href: Option<string>)

  /**
   * One `div.il_ContainerListItem`: its title anchor (absent when the page
   * has none), the texts of its item properties, and the rows of the page
   * its link leads to.
   */
  datatype Row = Row(title: Option<Link>, properties: seq<string>, subpage: seq<Row>)

  /** One entry of the crawl's result list. */
  datatype FileEntry = FileEntry(name: string, ext: string, size: int, url: string, path: string)

  /**
   * Why a crawl stops: a row without a title anchor, an anchor without
   * `href`, or a size text that `parse_size` rejects.
   */
  datatype TreeError = MissingTitle | MissingHref | BadSize(text: string, cause: SizeError)

  /** The property text the site shows in place of an absent file extension. */
  const MissingExtension: string := "Dateiendung fehlt"

  /** The marker of a link that opens a folder view. */
  const ViewCommand: string := "cmd=view"

  /** `self.baseurl + url if not url.startswith(self.baseurl) else url`. */
  function ResolveUrl(base: string, url: string): (r: string)
    ensures StartsWith(r, base)
    ensures |url| <= |r| && r[|r| - |url|..] == url
    ensures StartsWith(url, base) ==> r == url
    ensures !StartsWith(url, base) ==> |r| == |base| + |url|
  {
    if StartsWith(url, base) then url else base + url
  }

  /** Resolving a resolved address changes nothing. */
  lemma ResolveUrlIdempotent(base: string, url: string)
    ensures ResolveUrl(base, ResolveUrl(base, url)) == ResolveUrl(base, url)
  {
  }

  /** The extension of a file row, with the missing-extension marker read as "". */
  function Extension(props: seq<string>): (ext: string)
    requires |props| >= 3
    ensures ext != MissingExtension
  {
    var e := Strip(props[0]);
    if e == MissingExtension then "" else e
  }

  /**
   * The size text of a file row: the second property, unless it is empty,
   * the row has exactly four properties and the extension is the marker;
   * then the third.
   */
  function SizeText(props: seq<string>): string
    requires |props| >= 3
  {
    var ext := Strip(props[0]);
    var size := Strip(props[1]);
    if size == "" && |props| == 4 && ext == MissingExtension then Strip(props[2]) else size
  }

  /** The path a folder row's entries are filed under. */
  function FolderPath(path: string, title: string): string {
    path + "/" + title
  }

  /** Errors propagate; otherwise the two lists are spliced in order. */
  function Join(x: Result<seq<FileEntry>, TreeError>, y: Result<seq<FileEntry>, TreeError>): Result<seq<FileEntry>, TreeError> {
    match x
    case Failure(e) => Failure(e)
    case Success(a) =>
      match y
      case Failure(e) => Failure(e)
      case Success(b) => Success(a + b)
  }

  /** The one entry of a file row, or the reason its size text is rejected. */
  function FileRowResult(title: string, href: string, props: seq<string>, path: string): Result<seq<FileEntry>, TreeError>
    requires |props| >= 3
  {
    match ParseSize(SizeText(props))
    case Failure(e) => Failure(BadSize(SizeText(props), e))
    case Success(n) => Success([FileEntry(title, Extension(props), n, href, path)])
  }

  /** What one row contributes to the crawl under `path`. */
  function RowResult(row: Row, path: string): Result<seq<FileEntry>, TreeError>
    decreases row
  {
    if row.title.None? then Failure(MissingTitle)
    else if row.title.value.href.None? then Failure(MissingHref)
    else
      var title := RStrip(row.title.value.text);
      var href := row.title.value.href.value;
      var props := row.properties;
      if |props| >= 3 then FileRowResult(title, href, props, path)
      else if |props| == 0 && Contains(href, ViewCommand) then
        ExtractRows(row.subpage, FolderPath(path, title))
      else Success([])
  }

  /** The crawl of a page's rows under `path`: row by row, first error wins. */
  function ExtractRows(rows: seq<Row>, path: string): Result<seq<FileEntry>, TreeError>
    decreases rows
  {
    if rows == [] then Success([])
    else Join(RowResult(rows[0], path), ExtractRows(rows[1..], path))
  }

  lemma JoinAssociative(x: Result<seq<FileEntry>, TreeError>, y: Result<seq<FileEntry>, TreeError>, z: Result<seq<FileEntry>, TreeError>)
    ensures Join(Join(x, y), z) == Join(x, Join(y, z))
  {
    if x.Success? && y.Success? && z.Success? {
      assert (x.value + y.value) + z.value == x.value + (y.value + z.value);
    }
  }

  /** Crawling two runs of rows one after the other is crawling them together. */
  lemma {:induction false} ExtractAppend(a: seq<Row>, b: seq<Row>, path: string)
    ensures ExtractRows(a + b, path) == Join(ExtractRows(a, path), ExtractRows(b, path))
    decreases |a|
  {
    if a == [] {
      assert a + b == b;
      var r := ExtractRows(b, path);
      if r.Success? {
        assert [] + r.value == r.value;
      }
    } else {
      assert (a + b)[0] == a[0];
      assert (a + b)[1..] == a[1..] + b;
      ExtractAppend(a[1..], b, path);
      JoinAssociative(RowResult(a[0], path), ExtractRows(a[1..], path), ExtractRows(b, path));
    }
  }

  lemma ExtractSingle(row: Row, path: string)
    ensures ExtractRows([row], path) == RowResult(row, path)
  {
    assert [row][1..] == [];
    var r := RowResult(row, path);
    if r.Success? {
      assert r.value + [] == r.value;
    }
  }

  /**
   * `parseTree(url, path)` over the rows of the page at `url`: a loop that
   * appends one entry per file row and splices in the crawl of each folder
   * row; the first error ends the crawl.
   */
  method ParseTree(rows: seq<Row>, path: string) returns (r: Result<seq<FileEntry>, TreeError>)
    ensures r == ExtractRows(rows, path)
    decreases rows
  {
    var files: seq<FileEntry> := [];
    for i := 0 to |rows|
      invariant ExtractRows(rows[..i], path) == Success(files)
    {
      var row := rows[i];
      var outcome: Result<seq<FileEntry>, TreeError>;
      if row.title.None? {
        outcome := Failure(MissingTitle);
      } else if row.title.value.href.None? {
        outcome := Failure(MissingHref);
      } else {
        var title := RStrip(row.title.value.text);
        var refUrl := row.title.value.href.value;
        var properties := row.properties;
        if |properties| >= 3 {
          var ext := Strip(properties[0]);
          var size := Strip(properties[1]);
          size := if size == "" && |properties| == 4 && ext == MissingExtension then Strip(properties[2]) else size;
          ext := if ext == MissingExtension then "" else ext;
          assert size == SizeText(properties) && ext == Extension(properties);
          var n := ParseSize(size);
          if n.Failure? {
            outcome := Failure(BadSize(size, n.error));
          } else {
            outcome := Success([FileEntry(title, ext, n.value, refUrl, path)]);
          }
          assert outcome == FileRowResult(title, refUrl, properties, path);
        } else if |properties| == 0 && Contains(refUrl, ViewCommand) {
          outcome := ParseTree(row.subpage, path + "/" + title);
        } else {
          outcome := Success([]);
        }
      }
      assert outcome == RowResult(row, path);
      CrawlStep(rows, i, path, files);
      if outcome.Failure? {
        return outcome;
      }
      files := files + outcome.value;
    }
    assert rows[..|rows|] == rows;
    r := Success(files);
  }

  /** One more row of the crawl: its failure is the crawl's, its entries go at the end. */
  lemma CrawlStep(rows: seq<Row>, i: nat, path: string, files: seq<FileEntry>)
    requires i < |rows| && ExtractRows(rows[..i], path) == Success(files)
    ensures RowResult(rows[i], path).Failure? ==> ExtractRows(rows, path) == RowResult(rows[i], path)
    ensures RowResult(rows[i], path).Success? ==>
      ExtractRows(rows[..i + 1], path) == Success(files + RowResult(rows[i], path).value)
  {
    var row := rows[i];
    ExtractAppend(rows[..i], [row], path);
    ExtractSingle(row, path);
    assert rows[..i + 1] == rows[..i] + [row];
    if RowResult(row, path).Failure? {
      ExtractAppend(rows[..i + 1], rows[i + 1..], path);
      assert rows[..i + 1] + rows[i + 1..] == rows;
    }
  }

  /** `getFilesCourse(title, url)`: the crawl of a course page filed under its title. */
  method GetFilesCourse(title: string, rows: seq<Row>) returns (r: Result<seq<FileEntry>, TreeError>)
    ensures r == ExtractRows(rows, title)
    ensures r.Success? ==> forall e :: e in r.value ==> StartsWith(e.path, title)
  {
    r := ParseTree(rows, title);
    PathsUnder(rows, title);
  }

  /** `p` is `path` itself or lies below it. */
  predicate Under(p: string, path: string) {
    p == path || StartsWith(p, path + "/")
  }

  lemma UnderFolder(p: string, path: string, title: string)
    requires Under(p, FolderPath(path, title))
    ensures Under(p, path) && p != path
  {
    var q := path + "/";
    assert FolderPath(path, title) == q + title;
    if p == FolderPath(path, title) {
      assert p[..|q|] == q;
    } else {
      var f := FolderPath(path, title) + "/";
      assert p[..|f|] == f;
      assert p[..|q|] == f[..|q|];
    }
  }

  /** Every entry of a crawl under `path` is filed at `path` or below it. */
  lemma {:induction false} PathsUnder(rows: seq<Row>, path: string)
    ensures ExtractRows(rows, path).Success? ==>
      forall e :: e in ExtractRows(rows, path).value ==> Under(e.path, path)
    decreases rows
  {
    if rows != [] {
      PathsUnder(rows[1..], path);
      RowPathsUnder(rows[0], path);
    }
  }

  lemma {:induction false} RowPathsUnder(row: Row, path: string)
    ensures RowResult(row, path).Success? ==>
      forall e :: e in RowResult(row, path).value ==> Under(e.path, path)
    decreases row
  {
    if row.title.Some? && row.title.value.href.Some? && |row.properties| == 0 {
      var sub := FolderPath(path, RStrip(row.title.value.text));
      PathsUnder(row.subpage, sub);
      forall p | Under(p, sub)
        ensures Under(p, path)
      {
        UnderFolder(p, path, RStrip(row.title.value.text));
      }
    }
  }

  /** Entries that sit directly at `path` come from file rows of this page, not from folders. */
  lemma {:induction false} FolderEntriesBelow(row: Row, path: string)
    requires row.title.Some? && row.title.value.href.Some?
    requires |row.properties| == 0
    ensures RowResult(row, path).Success? ==>
      forall e :: e in RowResult(row, path).value ==> StartsWith(e.path, path + "/")
  {
    var sub := FolderPath(path, RStrip(row.title.value.text));
    PathsUnder(row.subpage, sub);
    forall p | Under(p, sub)
      ensures StartsWith(p, path + "/")
    {
      UnderFolder(p, path, RStrip(row.title.value.text));
    }
  }

  /**
   * A file row yields exactly one entry: the stripped title, the row's
   * extension and parsed size, its link and the current path.
   */
  lemma FileRowEntry(row: Row, path: string)
    requires row.title.Some? && row.title.value.href.Some?
    requires |row.properties| >= 3
    ensures ParseSize(SizeText(row.properties)).Success? ==>
      RowResult(row, path) == Success([FileEntry(RStrip(row.title.value.text), Extension(row.properties),
        ParseSize(SizeText(row.properties)).value, row.title.value.href.value, path)])
    ensures ParseSize(SizeText(row.properties)).Failure? ==>
      RowResult(row, path).Failure? && RowResult(row, path).error.BadSize?
  {
  }

  /** A row without properties whose link opens a folder view is crawled one level down. */
  lemma FolderRowDescends(row: Row, path: string)
    requires row.title.Some? && row.title.value.href.Some?
    requires |row.properties| == 0 && Contains(row.title.value.href.value, ViewCommand)
    ensures RowResult(row, path) == ExtractRows(row.subpage, path + "/" + RStrip(row.title.value.text))
  {
  }

  /** Rows with one or two properties, and property-less rows not opening a folder view, add nothing. */
  lemma OtherRowIgnored(row: Row, path: string)
    requires row.title.Some? && row.title.value.href.Some?
    requires 1 <= |row.properties| <= 2 || (|row.properties| == 0 && !Contains(row.title.value.href.value, ViewCommand))
    ensures RowResult(row, path) == Success([])
  {
  }

  /** A row without a title anchor ends the crawl, whatever its kind. */
  lemma UntitledRowFails(rows: seq<Row>, path: string, i: nat)
    requires i < |rows| && rows[i].title.None?
    requires ExtractRows(rows[..i], path).Success?
    ensures ExtractRows(rows, path) == Failure(MissingTitle)
  {
    ExtractAppend(rows[..i], rows[i..], path);
    assert rows[..i] + rows[i..] == rows;
    assert rows[i..][0] == rows[i];
  }

  /**
   * The missing-extension rule: the marker becomes the empty extension,
   * and the size is read from the third property exactly when the second is
   * empty, the row has four properties and the extension is the marker.
   */
  lemma MissingExtensionRule(props: seq<string>)
    requires |props| >= 3
    ensures Strip(props[0]) == MissingExtension ==> Extension(props) == ""
    ensures Strip(props[0]) != MissingExtension ==> Extension(props) == Strip(props[0])
    ensures SizeText(props) == Strip(props[2]) || SizeText(props) == Strip(props[1])
    ensures (Strip(props[1]) == "" && |props| == 4 && Strip(props[0]) == MissingExtension) ==> SizeText(props) == Strip(props[2])
    ensures !(Strip(props[1]) == "" && |props| == 4 && Strip(props[0]) == MissingExtension) ==> SizeText(props) == Strip(props[1])
  {
  }

  /** Entry names never end in whitespace, and no entry keeps the marker as its extension. */
  predicate Clean(e: FileEntry) {
    NoTrailingSpace(e.name) && e.ext != MissingExtension
  }

  lemma {:induction false} EntriesClean(rows: seq<Row>, path: string)
    ensures ExtractRows(rows, path).Success? ==>
      forall e :: e in ExtractRows(rows, path).value ==> Clean(e)
    decreases rows
  {
    if rows != [] {
      EntriesClean(rows[1..], path);
      RowEntriesClean(rows[0], path);
    }
  }

  lemma {:induction false} RowEntriesClean(row: Row, path: string)
    ensures RowResult(row, path).Success? ==>
      forall e :: e in RowResult(row, path).value ==> Clean(e)
    decreases row
  {
    if row.title.Some? && row.title.value.href.Some? {
      if |row.properties| >= 3 {
        var title := RStrip(row.title.value.text);
        assert NoTrailingSpace(title);
        var r := FileRowResult(title, row.title.value.href.value, row.properties, path);
        if r.Success? {
          assert r.value[0].name == title;
        }
      } else if |row.properties| == 0 {
        EntriesClean(row.subpage, FolderPath(path, RStrip(row.title.value.text)));
      }
    }
  }

  /** The number of file rows a crawl reaches, through folder rows, when it succeeds. */
  function FileRows(rows: seq<Row>): nat
    decreases rows
  {
    if rows == [] then 0 else RowFiles(rows[0]) + FileRows(rows[1..])
  }

  function RowFiles(row: Row): nat
    decreases row
  {
    if row.title.None? || row.title.value.href.None? then 0
    else if |row.properties| >= 3 then 1
    else if |row.properties| == 0 && Contains(row.title.value.href.value, ViewCommand) then FileRows(row.subpage)
    else 0
  }

  /** A successful crawl lists each reachable file row once. */
  lemma {:induction false} EntryCount(rows: seq<Row>, path: string)
    ensures ExtractRows(rows, path).Success? ==> |ExtractRows(rows, path).value| == FileRows(rows)
    decreases rows
  {
    if rows != [] {
      EntryCount(rows[1..], path);
      var row := rows[0];
      if row.title.Some? && row.title.value.href.Some? && |row.properties| == 0 {
        EntryCount(row.subpage, FolderPath(path, RStrip(row.title.value.text)));
      }
    }
  }

  /** A row two folders down contributes what it would directly under `path/a/b`. */
  lemma NestedFolders(row: Row, path: string, a: string, ha: string, b: string, hb: string)
    requires Contains(ha, ViewCommand) && Contains(hb, ViewCommand)
    ensures var inner := Row(Some(Link(b, Some(hb))), [], [row]);
      var outer := Row(Some(Link(a, Some(ha))), [], [inner]);
      ExtractRows([outer], path) == RowResult(row, path + "/" + RStrip(a) + "/" + RStrip(b))
  {
    var inner := Row(Some(Link(b, Some(hb))), [], [row]);
    var outer := Row(Some(Link(a, Some(ha))), [], [inner]);
    var pa := FolderPath(path, RStrip(a));
    ExtractSingle(row, FolderPath(pa, RStrip(b)));
    ExtractSingle(inner, pa);
    ExtractSingle(outer, path);
  }
}

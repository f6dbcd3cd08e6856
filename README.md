# iliasDownloader, modelled in Dafny

iliasDownloader mirrors the files of the courses a student belongs to on an
ILIAS e-learning server into a local folder. It comes in two variants.

- `iliashttp.py` scrapes the HTML course pages. `parse_size` reads the
  German-formatted size texts such as "1.024,5 KB" or "10 Bytes".
  `IliasClient.parseTree` and `getFilesCourse` walk the page rows depth first
  and turn them into file entries with a folder path; `getSoup` puts the base
  address in front of relative links. The per-file block of `main` then uses
  `getFileProperties` (a HEAD request) and `download` to fetch new files,
  fetch again the ones whose size changed, and settle files of unknown size
  through a temporary file called "tmpfile".
- `ilias.py` uses the SOAP interface. `getRoles` picks the course ids out of
  the user's roles, and `getIntValue`, `buildPath` and `parseCourse` read a
  course's XML tree into file records. `downloadFiles` then fetches every
  record whose local copy is missing or of another size, keeping count of
  attempts, successes and failures.

The project has these modules:

| file | module | models |
|---|---|---|
| `wrappers.dfy` | `Wrappers` | `Option` and `Result` |
| `text.dfy` | `Text` | the Python string operations the program uses (`upper`, `replace`, `split`, `strip`, `rstrip`, `in`, `"/".join`, `isdigit`, `int`, `str`) |
| `size_parser.dfy` | `SizeParser`, `SizeParserFacts` | `parse_size` and what it does with the texts the site shows |
| `page_tree.dfy` | `PageTree` | `parseTree`, `getFilesCourse`, the address rule of `getSoup` |
| `local_disk.dfy` | `LocalDisk` | the output folder as a class holding a map from path to content |
| `http_sync.dfy` | `HttpSync` | `download`, `getFileProperties`, the per-file block of `main` and its loop over a course's files |
| `xml_export.dfy` | `XmlExport` | `getIntValue`, `getRoles`, `buildPath`, `parseCourse` |
| `xml_download.dfy` | `XmlDownload` | `downloadFiles` |

How the model is built:

- **Numbers in `parse_size`.** A number is an exact decimal: a sign, a digit
  value and a power of ten. `int(float(number) * units[unit])` becomes the
  exact product truncated toward zero (`SizeParser.ExactSize`).
  `SizeParser.ParseSize` computes it with integers, and
  `SizeParser.ScaleTruncates` proves that the two agree.
- **Pages.** A page is a finite tree: every row carries the rows of the page
  its link leads to, so the crawl's recursion is structural. The CSS
  selections become the fields of `PageTree.Row`.
- **XML.** An XML document becomes the sequence of its selected elements,
  with the attributes and texts the program looks up.
- **Network and codecs.** The server becomes functions from a link (or a
  file id) to its answer. Base64 decoding followed by zlib decompression
  becomes one opaque function.
- **The output folder.** It is a `Disk` object whose `files` map the methods
  update in place. A folder exists as soon as a file in it exists.
- **Imperative code stays imperative.** Where the source loops and mutates
  (`parseTree`, `download`, the sync block, `buildPath`, `parseCourse`,
  `downloadFiles`), the model is a method. Each such method is proved equal to
  a function (`ExtractRows`, `Fetched`, `SyncStep`/`SyncAll`, `CutIndex`,
  `CourseOf`, `DownloadAll`), and the lemmas state the program's promises
  about that function.

The model follows the code also where it does something a reader may not expect:

- **Untitled rows.** A page row without a title anchor makes `parseTree`
  raise. It is not skipped. In the model it ends the crawl with
  `MissingTitle` (`PageTree.UntitledRowFails`).
- **Rejected size text.** A size text that `parse_size` rejects also raises
  and ends the crawl (`BadSize`). It is not treated as an unknown size.
- **Failed HEAD request.** When the HEAD request fails, the per-file block
  indexes `None` and the program stops (`NoProperties`).
- **Failed conflict download.** When the download for a file of unknown size
  fails and no older "tmpfile" exists, `tmpfile.stat()` raises and the program
  stops (`TempFileMissing`). When an older "tmpfile" does exist, that old file
  is compared and possibly moved over the local file
  (`HttpSync.StaleTempFileUsed`).
- **A remote file named "tmpfile".** A remote file of unknown size that is
  itself named "tmpfile" is its own temporary file. The comparison of the file
  with itself then deletes it (`HttpSync.TempNameClashDeletes`).
- **No counters in the scraping variant.** The scraping variant keeps no
  download counters. Only `downloadFiles` counts.

## Model

| member | source | states |
|---|---|---|
| Text.RStrip | iliashttp.py:57 | the title with its trailing whitespace removed: a prefix of it, not ending in whitespace, and only whitespace was cut |
| Text.SplitTwoWords | iliashttp.py:17 | two whitespace-free words separated by whitespace split into exactly those two tokens |
| Text.AfterLast | ilias.py:28 | `split("_")[-1]`: a suffix of the title that contains no "_" and is preceded by "_" when shorter than the title |
| Text.SplitJoinSlash | ilias.py:57 | joining "/"-free parts with "/" and splitting on "/" gives the parts back |
| Text.NatToStringRoundTrip | ilias.py:73 | `int(str(n)) == n`, so the version key names the record's version number |
| SizeParser.ParseSize | iliashttp.py:12-18 | succeeds exactly when the prepared text has two tokens, the first a number and the second a key of `units` |
| SizeParser.ScaleTruncates | iliashttp.py:18 | the integer computation equals the exact product of number and multiplier truncated toward zero, for negative numbers too |
| SizeParser.ParseSizeTruncates | iliashttp.py:18 | every successful result is `int(number * units[unit])` of its two tokens, computed exactly |
| SizeParser.MagnitudeFloor | iliashttp.py:18 | the floor of a decimal's magnitude times the multiplier, as an integer expression |
| SizeParserFacts.NormalizePlain | iliashttp.py:14 | text already upper case and free of "Y", "." and "," is left unchanged by the rewrites |
| SizeParserFacts.CaseInsensitive | iliashttp.py:14 | the result depends only on the upper-cased input |
| SizeParserFacts.SameNormalForm | iliashttp.py:14-18 | inputs with the same normalised text get the same result |
| SizeParserFacts.SeparateUnitSkips | iliashttp.py:16 | the unit regex passes over text without "B" or a unit prefix |
| SizeParserFacts.SeparateUnitOfUnit | iliashttp.py:16 | the regex puts one space in front of a unit name |
| SizeParserFacts.ParseNumberDigits | iliashttp.py:18 | `float` of a digit string is its integer value |
| SizeParserFacts.ParseNumberPoint | iliashttp.py:18 | `float` of "a.b" is the digits of a and b scaled down by the length of b |
| SizeParserFacts.ScaleWhole | iliashttp.py:18 | a whole number times the multiplier |
| SizeParserFacts.ScaleFraction | iliashttp.py:18 | a fraction times the multiplier, rounded down |
| SizeParserFacts.ParseSizeFromTokens | iliashttp.py:17-18 | the result is decided by the two tokens alone |
| SizeParserFacts.TokensSpaced | iliashttp.py:14-17 | "n U" splits into the tokens n and U |
| SizeParserFacts.ParseSizeSpaced | iliashttp.py:14-18 | "n U" is n times the multiplier of U, for every digit string n and unit U |
| SizeParserFacts.TokensGlued | iliashttp.py:15-17 | "nU" gets its space from the regex and splits into n and U |
| SizeParserFacts.ParseSizeGlued | iliashttp.py:15-18 | "nU" is n times the multiplier of U |
| SizeParserFacts.ParseSizeLeadingSpaceGlued | iliashttp.py:15-17 | " nU" keeps the regex switched off, is one token and fails |
| SizeParserFacts.CommaToPoint | iliashttp.py:14 | the one "," of a text becomes "." and nothing else changes |
| SizeParserFacts.NormalizeCommaOnly | iliashttp.py:14 | on upper-case text without "Y" or ".", only the "," to "." rewrite has an effect |
| SizeParserFacts.NormalizeDecimalComma | iliashttp.py:14 | "a,b U" normalises to "a.b U" |
| SizeParserFacts.PrepareDecimalComma | iliashttp.py:14-16 | "a,b U" is prepared as "a.b" and U separated by whitespace |
| SizeParserFacts.TokensDecimalComma | iliashttp.py:14-17 | "a,b U" splits into "a.b" and U |
| SizeParserFacts.ParseSizeDecimalComma | iliashttp.py:14-18 | "a,b U" is the digits of a and b times the multiplier, divided by 10 to the length of b, rounded down |
| SizeParserFacts.DeleteOneChar | iliashttp.py:14 | deleting the single occurrence of a character removes exactly it |
| SizeParserFacts.NormalizeThousandsDot | iliashttp.py:14 | "a.b U" normalises to "ab U": the dot is dropped |
| SizeParserFacts.ParseSizeThousandsDot | iliashttp.py:14-18 | "a.b U" is the digits of a and b, joined, times the multiplier |
| SizeParserFacts.ReplaceAfterPrefix | iliashttp.py:14 | a replacement passes over a prefix lacking the pattern's first character |
| SizeParserFacts.NormalizeBytesWord | iliashttp.py:14 | "n Bytes", in any letter case, normalises like "n B" |
| SizeParserFacts.BytesWordSameAsB | iliashttp.py:14-18 | "n Bytes" and "n B" give the same result |
| SizeParserFacts.ParseSizeBytesWord | iliashttp.py:9-18 | "n Bytes" is n |
| SizeParserFacts.ExampleSpaced | iliashttp.py:9-18 | "1 KB" is 1024 |
| SizeParserFacts.ExampleGlued | iliashttp.py:9-18 | "2KB" is 2048 |
| SizeParserFacts.ExampleTenBytes | iliashttp.py:9-18 | "10 Bytes" is 10 |
| SizeParserFacts.ExampleThousands | iliashttp.py:9-18 | "1.024 B" is 1024 |
| SizeParserFacts.ExampleThousandsLower | iliashttp.py:9-18 | "1.024 b" is 1024 |
| SizeParserFacts.ExampleDecimalComma | iliashttp.py:9-18 | "1,5 MB" is 1572864 |
| SizeParserFacts.ExampleDotIsThousands | iliashttp.py:9-18 | "1.5 MB" is 15728640: the dot is a thousands separator |
| SizeParserFacts.ExampleLeadingSpace | iliashttp.py:15-17 | " 2KB" fails with one token |
| SizeParserFacts.ExampleEmpty | iliashttp.py:17 | the empty text fails with no token |
| PageTree.ResolveUrl | iliashttp.py:105 | the address starts with the base and ends with the link; a link already starting with the base is kept, any other gets the base in front |
| PageTree.ResolveUrlIdempotent | iliashttp.py:105 | resolving twice is resolving once |
| PageTree.Extension | iliashttp.py:63-66 | no extension is ever the missing-extension marker |
| PageTree.MissingExtensionRule | iliashttp.py:63-66 | the marker becomes ""; the size text is the third property exactly when the second is empty, there are four properties and the extension is the marker, else the second |
| PageTree.ParseTree | iliashttp.py:50-73 | the loop with its recursive calls returns the depth-first crawl `ExtractRows` of the rows under the path, or its first error |
| PageTree.CrawlStep | iliashttp.py:54-72 | one more row: its error is the crawl's error, its entries go after those of the rows before it |
| PageTree.GetFilesCourse | iliashttp.py:75-76 | the crawl under the course title; every entry's path starts with the title |
| PageTree.ExtractAppend | iliashttp.py:54-72 | crawling two runs of rows in turn is crawling them together: entries keep row order |
| PageTree.ExtractSingle | iliashttp.py:54-72 | the crawl of one row is that row's contribution |
| PageTree.UnderFolder | iliashttp.py:72 | a path at or below a folder is strictly below the folder's parent path |
| PageTree.PathsUnder | iliashttp.py:54-72 | every entry of a crawl under a path is filed at that path or below it |
| PageTree.RowPathsUnder | iliashttp.py:62-72 | every entry of one row is filed at the path or below it |
| PageTree.FolderEntriesBelow | iliashttp.py:70-72 | entries from a folder row lie strictly below the path |
| PageTree.FileRowEntry | iliashttp.py:57-69 | a row with three or more properties yields exactly one entry with the stripped title, the extension, the parsed size, its link and the path, or the size error |
| PageTree.FolderRowDescends | iliashttp.py:70-72 | a property-less row whose link contains "cmd=view" contributes the crawl of its page under `path + "/" + title` |
| PageTree.OtherRowIgnored | iliashttp.py:62-72 | rows with one or two properties, and property-less rows not opening a folder view, contribute nothing |
| PageTree.UntitledRowFails | iliashttp.py:55-57 | a row without a title anchor, reached by the crawl, ends it with `MissingTitle` |
| PageTree.EntriesClean | iliashttp.py:57-66 | no entry name ends in whitespace and no entry keeps the marker as extension |
| PageTree.RowEntriesClean | iliashttp.py:57-72 | the same for the entries of one row |
| PageTree.EntryCount | iliashttp.py:54-72 | a successful crawl has one entry per reachable file row |
| PageTree.NestedFolders | iliashttp.py:70-72 | a row two folders down contributes exactly what it would directly under `path/a/b` |
| LocalDisk.Child | iliashttp.py:87 | `dir/name`: starts with `dir + "/"` and ends with the name |
| LocalDisk.ChildInjective | iliashttp.py:131-136 | different names in one folder are different paths |
| LocalDisk.Disk.Write | iliashttp.py:88-90 | the file now holds exactly the data; no other file changes |
| LocalDisk.Disk.Append | iliashttp.py:90 | the chunk goes at the end of the file; no other file changes |
| LocalDisk.Disk.Unlink | iliashttp.py:139 | the file is gone; no other file changes |
| LocalDisk.Disk.Replace | iliashttp.py:141 | the target takes the source's content and the source is gone |
| HttpSync.FileProperties | iliashttp.py:92-100 | properties exist exactly when the HEAD status is 200; the name is the announced one, and the size is -1 exactly when no content-length is sent |
| HttpSync.Download | iliashttp.py:82-90 | a non-200 response writes nothing; otherwise `dir/name` holds the chunks concatenated |
| HttpSync.Plan | iliashttp.py:132-147 | the four cases: missing, size unknown, size differs, same size, each exactly by its condition |
| HttpSync.SyncFile | iliashttp.py:127-147 | the per-file block changes the folder as `SyncStep` says and stops with its error |
| HttpSync.NewFileDownloaded | iliashttp.py:145-147 | a missing file is downloaded under the announced name and nothing else changes; when the GET fails nothing changes and the run goes on |
| HttpSync.UpToDateUntouched | iliashttp.py:132-142 | a local file as long as the announced size is left alone |
| HttpSync.OutdatedReplaced | iliashttp.py:142-144 | a local file of another length is downloaded again (unchanged if the GET fails) |
| HttpSync.ConflictResolved | iliashttp.py:133-141 | for unknown size, no "tmpfile" remains, the local file keeps its content when the download is as long and takes the download otherwise, and no other file changes |
| HttpSync.TempNameClashDeletes | iliashttp.py:136-139 | a remote file named "tmpfile" of unknown size is deleted locally |
| HttpSync.ConflictDownloadFails | iliashttp.py:137-138 | a failed conflict download with no older "tmpfile" stops the run with nothing changed |
| HttpSync.StaleTempFileUsed | iliashttp.py:136-141 | a failed conflict download with an older "tmpfile" of another length moves that file over the local one |
| HttpSync.SyncStepFrame | iliashttp.py:127-147 | a step touches at most the entry's destination and its "tmpfile" |
| HttpSync.SyncFiles | iliashttp.py:126-147 | the loop over a course's entries changes the folder as `SyncAll` says, stopping at the first error |
| HttpSync.SyncAllStops | iliashttp.py:126-147 | once an entry fails, the entries after it have no effect |
| HttpSync.StepInsideOutput | iliashttp.py:127-131 | every path a step may touch lies inside the output folder, provided the entry's folder path and the name are relative (not absolute, no ".." segment) |
| HttpSync.SyncAllOutsideUntouched | iliashttp.py:126-147 | nothing outside the output folder changes, provided every entry's folder path and every announced name are relative; the program itself does not check this |
| XmlExport.GetIntValue | ilias.py:30-32 | a number exactly when the text is a non-empty run of digits, with their value; otherwise the text unchanged |
| XmlExport.GetIntValueRoundTrip | ilias.py:32 | the decimal text of a number reads back as that number |
| XmlExport.GetRoles | ilias.py:26-28 | at most one role per title, and no role contains "_" |
| XmlExport.Members | ilias.py:28 | the titles kept all contain "crs_member" |
| XmlExport.RolesOfMembers | ilias.py:28 | one role per membership title, in document order, each the text after the title's last "_" |
| XmlExport.RolesIgnoreOthers | ilias.py:28 | titles without "crs_member" give no role |
| XmlExport.CutIndex | ilias.py:51-57 | the cut is the last element matching the course id, or the first element when none matches |
| XmlExport.BuildPath | ilias.py:51-57 | the loop returns the element texts from the cut to the end, in order, joined by "/" |
| XmlExport.BuildPathSplits | ilias.py:57 | that path splits back into the element texts |
| XmlExport.EmptyPath | ilias.py:51-57 | no elements give "" |
| XmlExport.ParseCourse | ilias.py:34-49 | the loop builds `CourseOf` of the objects |
| XmlExport.FileObjects | ilias.py:42 | the objects selected are all files |
| XmlExport.OneRecordPerFile | ilias.py:42-48 | one record per file object, in document order, carrying its id, title, size and version |
| XmlExport.CourseFromLastCourseObject | ilias.py:39-41 | title and id come from the last course object |
| XmlExport.NoCourseObject | ilias.py:37 | without a course object the title is "" and the id the initial 0 |
| XmlExport.RecordsGrow | ilias.py:38-48 | later objects only add records after those already built |
| XmlExport.RecordOfFileAt | ilias.py:41-48 | the file object at position i gives the record right after those of the earlier files, with its id, title, size, version and the path cut at the course id known at that point |
| XmlExport.FilesBeforeCourseUseWholePath | ilias.py:37-46 | while the id is 0, a file's path uses all of its elements |
| XmlDownload.VersionKey | ilias.py:73 | the formatted version is `str(n)` of a numeric version (its digits, with no leading zero), or the text itself |
| XmlDownload.LeadingZeroVersion | ilias.py:73 | a version text with leading zeros is asked for without them, so never as spelled |
| XmlDownload.ExampleLeadingZero | ilias.py:73 | the version text "07" asks for the attribute value "7" |
| XmlDownload.FindVersion | ilias.py:73 | the first element whose version attribute equals the key, or none when no element has it |
| XmlDownload.TextSizeAlwaysStale | ilias.py:65 | a size kept as text never equals a local size, so such a record is always attempted |
| XmlDownload.DownloadFiles | ilias.py:59-87 | the loop changes the folder and returns the three counters as `DownloadAll` says |
| XmlDownload.TallyBalanced | ilias.py:60-87 | `count + failcount == new_files <= len(files)` |
| XmlDownload.CurrentUntouched | ilias.py:65 | a record whose local copy has its size is neither fetched nor counted |
| XmlDownload.StaleOutcome | ilias.py:65-86 | a stale record is written with the decoded text of the first matching version and counted as success, or counted as failure with nothing written |
| XmlDownload.OthersUntouched | ilias.py:64-84 | only the records' own paths are ever written |
| XmlDownload.StaleCount | ilias.py:65 | at most one stale count per record |
| XmlDownload.NewFilesAreStale | ilias.py:63-67 | with one record per path, `new_files` is the number of records stale at the start |

## Left out

- Network access, the HTTP session, login, `getCourses`, `logout`, the SOAP client and its calls are left out. The server's answers are inputs (`HttpSync.Server`, `XmlDownload.Remote`).
- HTML parsing with BeautifulSoup and XML parsing with lxml are left out. Pages and documents are given as the elements the program selects.
- `getSoup` answering `None` when not logged in is left out, because login is not modelled. So is the loop over courses in both `main` functions (iliashttp.py:121-125, ilias.py:99-113); the model covers one course.
- `getFileProperties` reading the file name from the content-disposition header with a regex is left out. The HEAD answer carries the name directly.
- Base64 decoding and zlib decompression are one opaque function. Decoding errors are not modelled.
- The assertion at ilias.py:76 is not modelled. It compares the version's `text` attribute with its body.
- A missing XML element or text (Python's `AttributeError`) is not modelled, and neither is a quote in a version string breaking the XPath expression.
- Paths are joined as text. `pathlib`'s rule that an absolute component replaces everything before it, and the file system's resolution of "..", are not modelled. So in the program two different path texts can name one file, and an announced name such as "../x" or "/x" writes outside the output folder; the containment lemmas assume relative names instead.
- `mkdir` of parent folders is not modelled, because folders are implicit in the path map. Path normalisation by `pathlib` is also left out: paths are joined with "/" as text.
- `sizeof_fmt`, `print`, `termcolor`, config loading and `printlogo` only produce output and are left out.
- SizeParser.ParseSize: `float` is modelled exactly as a decimal. Python's binary rounding, which can differ for long or very large numbers, is not modelled. Neither are the forms `float` also accepts: `inf`, `nan`, underscores between digits (`1_000`) and non-ASCII digits; the model reports them as invalid numbers.
- Text.Upper: upper-casing covers the ASCII letters only. `isdigit` and `int` likewise cover the ASCII digits only.
- HttpSync.SyncFile: an exception raised inside `download` after the file was opened (a broken connection mid-stream) is not modelled. A GET either fails with a status or delivers all its chunks.

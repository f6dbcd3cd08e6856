/**
 * The SOAP downloader's reading of the server's XML exports (`getRoles`,
 * `getIntValue`, `buildPath`, `parseCourse`). The XML itself is abstracted:
 * a role list is the sequence of its `Object/Title` texts, a course tree
 * the sequence of its `Object` elements with the attributes and texts the
 * program looks up.
 */
module XmlExport {
  import opened Wrappers
  import opened Text

  /** `int(value) if value.isdigit() else value`: a number, or the text unchanged. */
  datatype IntOrText = IntValue(n: nat) | TextValue(s: string)

  /** `getIntValue` on the text of the selected element. */
  function GetIntValue(value: string): (r: IntOrText)
    ensures r.IntValue? <==> AllDigits(value)
    ensures r.IntValue? ==> r.n == DigitsValue(value)
    ensures r.TextValue? ==> r.s == value
  {
    if AllDigits(value) then IntValue(DigitsValue(value)) else TextValue(value)
  }

  /** The decimal text of a number reads back as that number. */
  lemma GetIntValueRoundTrip(n: nat)
    ensures GetIntValue(NatToString(n)) == IntValue(n)
  {
    NatToStringRoundTrip(n);
  }

  /** The marker of a course membership role title. */
  const MemberMarker: string := "crs_member"

  /** `getRoles`: for each title naming a course membership, the text after its last "_". */
  function GetRoles(titles: seq<string>): (r: seq<string>)
    ensures |r| <= |titles|
    ensures forall k :: 0 <= k < |r| ==> '_' !in r[k]
    decreases |titles|
  {
    if titles == [] then []
    else
      var rest := GetRoles(titles[1..]);
      if Contains(titles[0], MemberMarker) then [AfterLast(titles[0], '_')] + rest else rest
  }

  /** The membership titles, in document order. */
  function Members(titles: seq<string>): (r: seq<string>)
    ensures forall k :: 0 <= k < |r| ==> Contains(r[k], MemberMarker)
    decreases |titles|
  {
    if titles == [] then []
    else if Contains(titles[0], MemberMarker) then [titles[0]] + Members(titles[1..])
    else Members(titles[1..])
  }

  /** One role per membership title, in the same order, each the text after the title's last "_". */
  lemma {:induction false} RolesOfMembers(titles: seq<string>)
    ensures |GetRoles(titles)| == |Members(titles)|
    ensures forall k :: 0 <= k < |GetRoles(titles)| ==> GetRoles(titles)[k] == AfterLast(Members(titles)[k], '_')
    decreases |titles|
  {
    if titles != [] {
      RolesOfMembers(titles[1..]);
    }
  }

  /** Titles that do not name a membership contribute no role. */
  lemma {:induction false} RolesIgnoreOthers(titles: seq<string>)
    requires forall k :: 0 <= k < |titles| ==> !Contains(titles[k], MemberMarker)
    ensures GetRoles(titles) == []
    decreases |titles|
  {
    if titles != [] {
      RolesIgnoreOthers(titles[1..]);
    }
  }

  /** One `Path/Element` of an object's reference: its `ref_id` attribute, if any, and its text. */
  datatype PathElement = PathElement(refId: Option<string>, text: string)

  /**
   * The course id `parseCourse` holds: the integer 0 it starts from, or
   * the `ref_id` attribute of the last course object (absent when the
   * attribute is missing).
   */
  datatype CourseId = NoCourse | CourseRef(ref: Option<string>)

  /** `p.get('ref_id') == cid`: the integer 0 equals no attribute value. */
  predicate Matches(cid: CourseId, e: PathElement) {
    cid.CourseRef? && cid.ref == e.refId
  }

  function Texts(elems: seq<PathElement>): (r: seq<string>)
    ensures |r| == |elems|
    ensures forall k :: 0 <= k < |r| ==> r[k] == elems[k].text
  {
    seq(|elems|, k requires 0 <= k < |elems| => elems[k].text)
  }

  /** Where `buildPath` stops: the last element matching the course id, or the first element. */
  function CutIndex(elems: seq<PathElement>, cid: CourseId): (k: nat)
    ensures k <= |elems| && (elems != [] ==> k < |elems|)
    ensures forall j :: k < j < |elems| ==> !Matches(cid, elems[j])
    ensures k > 0 ==> Matches(cid, elems[k])
    ensures k == 0 && elems != [] ==> Matches(cid, elems[0]) || forall j :: 0 <= j < |elems| ==> !Matches(cid, elems[j])
    decreases |elems|
  {
    if elems == [] then 0
    else if Matches(cid, elems[|elems| - 1]) then |elems| - 1
    else CutIndex(elems[..|elems| - 1], cid)
  }

  /**
   * `buildPath(cid, paths)`: walk the elements from the end, putting each
   * text in front, and stop after the first that matches the course id.
   */
  method BuildPath(cid: CourseId, paths: seq<PathElement>) returns (r: string)
    ensures r == JoinSlash(Texts(paths[CutIndex(paths, cid)..]))
  {
    var path: seq<string> := [];
    var i := |paths|;
    while i > 0
      invariant 0 <= i <= |paths|
      invariant path == Texts(paths[i..])
      invariant forall j :: i <= j < |paths| ==> !Matches(cid, paths[j])
      decreases i
    {
      i := i - 1;
      path := [paths[i].text] + path;
      assert path == Texts(paths[i..]);
      if Matches(cid, paths[i]) {
        break;
      }
    }
    assert CutIndex(paths, cid) == i;
    r := JoinSlash(path);
  }

  /** The path text of a file splits back into the element texts it was built from. */
  lemma BuildPathSplits(paths: seq<PathElement>, cid: CourseId)
    requires paths != []
    requires forall k :: 0 <= k < |paths| ==> '/' !in paths[k].text
    ensures SplitOn(JoinSlash(Texts(paths[CutIndex(paths, cid)..])), '/') == Texts(paths[CutIndex(paths, cid)..])
  {
    var parts := Texts(paths[CutIndex(paths, cid)..]);
    SplitJoinSlash(parts);
  }

  /**
   * One `Object` of a course tree: its `type` attribute, its title text,
   * the `ref_id` of its `References` element, that element's path, and the
   * texts of its fileSize and fileVersion properties.
   */
  datatype XmlObject = XmlObject(kind: string, title: string, refId: Option<string>,
                                 pathElements: seq<PathElement>, fileSize: string, fileVersion: string)

  /** A file record of `parseCourse`. */
  datatype FileRecord = FileRecord(id: Option<string>, title: string, fileSize: IntOrText, version: IntOrText, path: string)

  datatype Course = Course(title: string, id: CourseId, files: seq<FileRecord>)

  const CourseKind: string := "crs"
  const FileKind: string := "file"

  /** The path `buildPath` gives a file object while the course id is `cid`. */
  function FilePath(obj: XmlObject, cid: CourseId): string {
    JoinSlash(Texts(obj.pathElements[CutIndex(obj.pathElements, cid)..]))
  }

  /** What one object does to the course being built. */
  function Step(c: Course, obj: XmlObject): Course {
    if obj.kind == CourseKind then Course(obj.title, CourseRef(obj.refId), c.files)
    else if obj.kind == FileKind then
      var f := FileRecord(obj.refId, obj.title, GetIntValue(obj.fileSize), GetIntValue(obj.fileVersion), FilePath(obj, c.id));
      Course(c.title, c.id, c.files + [f])
    else c
  }

  /** The course `parseCourse` builds from the objects, in document order. */
  function CourseOf(objs: seq<XmlObject>): Course
    decreases |objs|
  {
    if objs == [] then Course("", NoCourse, [])
    else Step(CourseOf(objs[..|objs| - 1]), objs[|objs| - 1])
  }

  /** `parseCourse`: one pass over the objects, updating the course record in place. */
  method ParseCourse(objs: seq<XmlObject>) returns (course: Course)
    ensures course == CourseOf(objs)
  {
    course := Course("", NoCourse, []);
    for i := 0 to |objs|
      invariant course == CourseOf(objs[..i])
    {
      assert objs[..i + 1][..i] == objs[..i];
      var obj := objs[i];
      if obj.kind == CourseKind {
        course := course.(title := obj.title, id := CourseRef(obj.refId));
      } else if obj.kind == FileKind {
        var fileSize := GetIntValue(obj.fileSize);
        var version := GetIntValue(obj.fileVersion);
        var path := BuildPath(course.id, obj.pathElements);
        var f := FileRecord(obj.refId, obj.title, fileSize, version, path);
        course := course.(files := course.files + [f]);
      }
    }
    assert objs[..|objs|] == objs;
  }

  /** The file objects, in document order. */
  function FileObjects(objs: seq<XmlObject>): (r: seq<XmlObject>)
    ensures |r| <= |objs|
    ensures forall k :: 0 <= k < |r| ==> r[k].kind == FileKind
    decreases |objs|
  {
    if objs == [] then []
    else FileObjects(objs[..|objs| - 1]) + (if objs[|objs| - 1].kind == FileKind then [objs[|objs| - 1]] else [])
  }

  /** A record carries the id, title, size and version of its file object. */
  predicate RecordOf(f: FileRecord, obj: XmlObject) {
    f.id == obj.refId && f.title == obj.title
    && f.fileSize == GetIntValue(obj.fileSize) && f.version == GetIntValue(obj.fileVersion)
  }

  /** One record per file object, in document order; other kinds add none. */
  lemma {:induction false} OneRecordPerFile(objs: seq<XmlObject>)
    ensures |CourseOf(objs).files| == |FileObjects(objs)|
    ensures forall k :: 0 <= k < |FileObjects(objs)| ==> RecordOf(CourseOf(objs).files[k], FileObjects(objs)[k])
    decreases |objs|
  {
    if objs != [] {
      OneRecordPerFile(objs[..|objs| - 1]);
    }
  }

  /** Later objects only add records after the ones already built. */
  lemma {:induction false} RecordsGrow(objs: seq<XmlObject>, n: nat)
    requires n <= |objs|
    ensures CourseOf(objs[..n]).files <= CourseOf(objs).files
    decreases |objs| - n
  {
    if n < |objs| {
      var init := objs[..|objs| - 1];
      assert objs[..n] == init[..n];
      RecordsGrow(init, n);
    } else {
      assert objs[..n] == objs;
    }
  }

  /**
   * The file object at position `i` gives the record right after those of
   * the files before it: its id, title, size and version, and the path cut
   * at the course id known at that point.
   */
  lemma RecordOfFileAt(objs: seq<XmlObject>, i: nat)
    requires i < |objs| && objs[i].kind == FileKind
    ensures var c := CourseOf(objs[..i]);
      var o := objs[i];
      |FileObjects(objs[..i])| < |CourseOf(objs).files|
      && CourseOf(objs).files[|FileObjects(objs[..i])|]
         == FileRecord(o.refId, o.title, GetIntValue(o.fileSize), GetIntValue(o.fileVersion), FilePath(o, c.id))
  {
    var before := objs[..i];
    OneRecordPerFile(before);
    assert objs[..i + 1][..i] == before;
    RecordsGrow(objs, i + 1);
  }

  /** The course title and id are those of the last course object; "" and 0 without one. */
  lemma {:induction false} CourseFromLastCourseObject(objs: seq<XmlObject>, k: nat)
    requires k < |objs| && objs[k].kind == CourseKind
    requires forall j :: k < j < |objs| ==> objs[j].kind != CourseKind
    ensures CourseOf(objs).title == objs[k].title
    ensures CourseOf(objs).id == CourseRef(objs[k].refId)
    decreases |objs|
  {
    if k < |objs| - 1 {
      CourseFromLastCourseObject(objs[..|objs| - 1], k);
    }
  }

  lemma {:induction false} NoCourseObject(objs: seq<XmlObject>)
    requires forall j :: 0 <= j < |objs| ==> objs[j].kind != CourseKind
    ensures CourseOf(objs).title == "" && CourseOf(objs).id == NoCourse
    decreases |objs|
  {
    if objs != [] {
      NoCourseObject(objs[..|objs| - 1]);
    }
  }

  /** Without a course object, every file's path is made of all its path elements. */
  lemma {:induction false} FilesBeforeCourseUseWholePath(objs: seq<XmlObject>)
    requires forall j :: 0 <= j < |objs| ==> objs[j].kind != CourseKind
    ensures |CourseOf(objs).files| == |FileObjects(objs)|
    ensures forall k :: 0 <= k < |FileObjects(objs)| ==>
      CourseOf(objs).files[k].path == JoinSlash(Texts(FileObjects(objs)[k].pathElements))
    decreases |objs|
  {
    if objs != [] {
      var init := objs[..|objs| - 1];
      FilesBeforeCourseUseWholePath(init);
      NoCourseObject(init);
      var last := objs[|objs| - 1];
      if last.kind == FileKind {
        assert CutIndex(last.pathElements, NoCourse) == 0;
        assert last.pathElements[0..] == last.pathElements;
      }
    }
  }

  /** With an empty path list the path is "". */
  lemma EmptyPath(cid: CourseId)
    ensures JoinSlash(Texts([][CutIndex([], cid)..])) == ""
  {
  }
}

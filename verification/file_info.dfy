/**
 * One directory-listing record (`FileInfo`), the XML events the parser pulls,
 * and the per-tag field setters that fill a record in while its
 * `<D:response>` element is open.
 */
module FileInfos {
  import opened Common
  import opened Decimal
  import opened Segments

  /** The qualified tag names the parser compares against, byte for byte. */
  const Response := "D:response"
  const Href := "D:href"
  const ContentLength := "lp1:getcontentlength"
  const CreationDate := "lp1:creationdate"
  const LastModified := "lp1:getlastmodified"

  /** The message of the one error the parser raises itself. */
  const SizeError := "Failed to parse size"

  /** What `read_text` returns for an element: its text, or the reader's error message. */
  datatype ReadText = Text(content: string) | ReadError(message: string)

  /**
   * One event as the parser pulls it from the reader. `Start` carries what
   * `read_text` would return for that element; when the parser does call
   * `read_text`, the element's content and end tag are consumed with it and do
   * not appear as events of their own. `Other` stands for text, empty-element,
   * comment, declaration and processing-instruction events; `Malformed` for an
   * error the reader reports instead of an event.
   */
  datatype Event =
    | Start(name: string, text: ReadText)
    | End(name: string)
    | Other
    | Eof
    | Malformed(message: string)

  datatype FileInfo = FileInfo(
    path: string,
    name: string,
    size: u64,
    isDir: bool,
    fileType: string,
    createDate: string,
    modifiedDate: string)

  /** The record a `<D:response>` start opens: empty strings, size 0, a directory. */
  const EmptyFile := FileInfo("", "", 0, true, "", "", "")

  predicate IsProperty(name: string)
  {
    name == Href || name == ContentLength || name == CreationDate || name == LastModified
  }

  /** The start tags on which SetProperty aborts the whole parse. */
  predicate Fails(name: string, text: ReadText)
  {
    (IsProperty(name) && text.ReadError?) ||
    (name == ContentLength && text.Text? && ParseU64(text.content).None?)
  }

  /**
   * A start tag seen inside an entry. `D:href` sets the path and derives the
   * name (after the last `/`) and the file type (after the last `.` of the
   * name); `lp1:getcontentlength` parses the size and marks the record as a
   * file; the two date tags copy their text. A failed `read_text` or an
   * unparsable size aborts; any other tag leaves the record as it is.
   */
  function SetProperty(f: FileInfo, name: string, text: ReadText): (r: Result<FileInfo>)
    ensures r.Err? <==> Fails(name, text)
    ensures r.Err? && name == ContentLength && text.Text? ==> r.message == SizeError
    ensures r.Err? && text.ReadError? ==> r.message == text.message
    ensures !IsProperty(name) ==> r == Ok(f)
    ensures r.Ok? ==> r.value.isDir == (f.isDir && name != ContentLength)
    ensures r.Ok? && name == ContentLength ==> ParseU64(text.content) == Some(r.value.size)
    ensures r.Ok? && name != ContentLength ==> r.value.size == f.size
    ensures r.Ok? ==> r.value.path == (if name == Href then text.content else f.path)
    ensures r.Ok? && name != Href ==> r.value.name == f.name && r.value.fileType == f.fileType
    ensures r.Ok? && name == Href ==>
      r.value.name == LastSegment(text.content, '/') && r.value.fileType == LastSegment(r.value.name, '.')
    ensures r.Ok? ==> r.value.createDate == (if name == CreationDate then text.content else f.createDate)
    ensures r.Ok? ==> r.value.modifiedDate == (if name == LastModified then text.content else f.modifiedDate)
  {
    if name == Href then
      match text
      case ReadError(m) => Err(m)
      case Text(s) =>
        var n := LastSegment(s, '/');
        Ok(f.(path := s, name := n, fileType := LastSegment(n, '.')))
    else if name == ContentLength then
      match text
      case ReadError(m) => Err(m)
      case Text(s) =>
        match ParseU64(s)
        case None => Err(SizeError)
        case Some(v) => Ok(f.(size := v, isDir := false))
    else if name == CreationDate then
      match text
      case ReadError(m) => Err(m)
      case Text(s) => Ok(f.(createDate := s))
    else if name == LastModified then
      match text
      case ReadError(m) => Err(m)
      case Text(s) => Ok(f.(modifiedDate := s))
    else Ok(f)
  }

  /** A record is consistent when its name and file type are those derived from its path and a directory has size 0. */
  predicate Consistent(f: FileInfo)
  {
    f.name == LastSegment(f.path, '/') &&
    f.fileType == LastSegment(f.name, '.') &&
    (f.isDir ==> f.size == 0)
  }

  /**
   * Setting the path from `D:href` derives the name as the text after the last
   * `/` (the whole path when it has none, empty when it ends in `/`) and the
   * file type as the text after the last `.` of the name (the whole name when it
   * has none), and leaves the other fields alone.
   */
  lemma HrefDerivesNameAndType(f: FileInfo, s: string)
    ensures SetProperty(f, Href, Text(s)).Ok?
    ensures var g := SetProperty(f, Href, Text(s)).value;
      g.path == s &&
      IsLastSegment(s, '/', g.name) && ('/' !in s <==> g.name == s) &&
      (s == [] || s[|s| - 1] == '/' ==> g.name == []) &&
      IsLastSegment(g.name, '.', g.fileType) && ('.' !in g.name <==> g.fileType == g.name) &&
      g.size == f.size && g.isDir == f.isDir &&
      g.createDate == f.createDate && g.modifiedDate == f.modifiedDate
  {
    var g := SetProperty(f, Href, Text(s)).value;
    LastSegmentSpec(s, '/');
    LastSegmentSpec(g.name, '.');
  }

  /** The effect on the open record of an event other than the closing `</D:response>` or end of document. */
  function Absorb(f: FileInfo, e: Event): Result<FileInfo>
  {
    match e
    case Start(name, text) => SetProperty(f, name, text)
    case Malformed(m) => Err(m)
    case _ => Ok(f)
  }

  /** The record after the events of an entry's body, in order, or the error that aborts. */
  function Build(f: FileInfo, body: seq<Event>): Result<FileInfo>
    decreases |body|
  {
    if body == [] then Ok(f)
    else
      match Absorb(f, body[0])
      case Err(m) => Err(m)
      case Ok(g) => Build(g, body[1..])
  }

  /** The text of the last `name` start tag in `body` that read its text, if any. */
  function LastText(body: seq<Event>, name: string): Option<string>
    decreases |body|
  {
    if body == [] then None
    else
      var later := LastText(body[1..], name);
      if later.Some? then later
      else if body[0].Start? && body[0].name == name && body[0].text.Text? then Some(body[0].text.content)
      else None
  }

  /** An event of an entry's body on which Build aborts. */
  predicate Aborts(e: Event)
  {
    e.Malformed? || (e.Start? && Fails(e.name, e.text))
  }

  /**
   * Building a record from an entry's body aborts exactly when some event of
   * the body is malformed, fails to read its text, or is a content length that
   * does not parse.
   */
  lemma {:induction false} BuildFailsIff(f: FileInfo, body: seq<Event>)
    ensures Build(f, body).Err? <==> exists k :: 0 <= k < |body| && Aborts(body[k])
    decreases |body|
  {
    if body != [] {
      var a := Absorb(f, body[0]);
      if a.Ok? {
        BuildFailsIff(a.value, body[1..]);
        assert forall k :: 1 <= k < |body| ==> body[k] == body[1..][k - 1];
      }
    }
  }

  /**
   * Last write wins: a successfully built record holds, for each property, the
   * text of the LAST tag of that property in the body (or the starting value when
   * there is none). It is a directory only if no content length was seen, and its
   * size is the parsed value of the last content length.
   */
  lemma {:induction false} BuildFields(f: FileInfo, body: seq<Event>)
    requires Build(f, body).Ok?
    ensures var g := Build(f, body).value;
      g.path == (if LastText(body, Href).Some? then LastText(body, Href).value else f.path) &&
      g.createDate == (if LastText(body, CreationDate).Some? then LastText(body, CreationDate).value else f.createDate) &&
      g.modifiedDate == (if LastText(body, LastModified).Some? then LastText(body, LastModified).value else f.modifiedDate) &&
      g.isDir == (f.isDir && LastText(body, ContentLength).None?) &&
      (LastText(body, ContentLength).Some? ==> ParseU64(LastText(body, ContentLength).value) == Some(g.size)) &&
      (LastText(body, ContentLength).None? ==> g.size == f.size)
    decreases |body|
  {
    if body != [] {
      var a := Absorb(f, body[0]);
      BuildFields(a.value, body[1..]);
    }
  }

  /** Building from a body in two parts: the second part goes on from the record the first one built, unless that one aborted. */
  lemma {:induction false} BuildAppend(f: FileInfo, a: seq<Event>, b: seq<Event>)
    ensures Build(f, a + b) == (if Build(f, a).Err? then Build(f, a) else Build(Build(f, a).value, b))
    decreases |a|
  {
    if a == [] {
      assert a + b == b;
    } else {
      assert (a + b)[0] == a[0] && (a + b)[1..] == a[1..] + b;
      var g := Absorb(f, a[0]);
      if g.Ok? {
        BuildAppend(g.value, a[1..], b);
      }
    }
  }

  /** A record built from a consistent one stays consistent: name and file type always follow the path. */
  lemma {:induction false} BuildKeepsConsistent(f: FileInfo, body: seq<Event>)
    requires Consistent(f) && Build(f, body).Ok?
    ensures Consistent(Build(f, body).value)
    decreases |body|
  {
    if body != [] {
      var a := Absorb(f, body[0]);
      if body[0].Start? && body[0].name == Href {
        HrefDerivesNameAndType(f, body[0].text.content);
        LastSegmentUnique(a.value.path, '/', a.value.name);
        LastSegmentUnique(a.value.name, '.', a.value.fileType);
      }
      BuildKeepsConsistent(a.value, body[1..]);
    }
  }

  /** A fresh entry without a content length stays a directory of size 0, whatever else it holds. */
  lemma FreshEntryDefaults(body: seq<Event>)
    requires Build(EmptyFile, body).Ok?
    requires LastText(body, ContentLength).None?
    ensures Build(EmptyFile, body).value.isDir && Build(EmptyFile, body).value.size == 0
    ensures LastText(body, Href).None? ==> Build(EmptyFile, body).value.path == ""
  {
    BuildFields(EmptyFile, body);
  }
}

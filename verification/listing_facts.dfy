/** Document-level properties of the listing parser. */
module ListingFacts {
  import opened Common
  import opened Decimal
  import opened Segments
  import opened FileInfos
  import opened Listing

  /** Goes on with the events `rest` unless the machine has already stopped. */
  function Then(o: Outcome, rest: seq<Event>): Outcome
  {
    match o
    case Stop(r) => Stop(r)
    case Next(st, files) => Exec(rest, st, files)
  }

  /** Running over `a + b` is running over `a`, then over `b` from where `a` left the machine. */
  lemma {:induction false} ExecAppend(a: seq<Event>, b: seq<Event>, st: State, files: seq<FileInfo>)
    ensures Exec(a + b, st, files) == Then(Exec(a, st, files), b)
    decreases |a|
  {
    if a != [] {
      assert (a + b)[0] == a[0];
      assert (a + b)[1..] == a[1..] + b;
      match Step(st, files, a[0])
      case Stop(_) =>
      case Next(st', files') => ExecAppend(a[1..], b, st', files');
    } else {
      assert a + b == b;
    }
  }

  /** Events after an end of document are never read. */
  lemma EventsAfterEofIgnored(a: seq<Event>, b: seq<Event>)
    ensures Parse(a + [Eof] + b) == Parse(a)
  {
    assert a + [Eof] + b == a + ([Eof] + b);
    ExecAppend(a, [Eof] + b, Outside, []);
  }

  /** An event inside an entry that neither aborts nor closes it. */
  predicate Harmless(e: Event)
  {
    !Aborts(e) && e != End(Response)
  }

  /** Harmless events keep an entry open (or end the document) without completing a record. */
  lemma {:induction false} HarmlessKeepsEntryOpen(b: seq<Event>, f: FileInfo, files: seq<FileInfo>)
    requires forall k :: 0 <= k < |b| ==> Harmless(b[k])
    ensures Run(b, InEntry(f), files) == Ok(files)
    decreases |b|
  {
    if b != [] {
      assert Harmless(b[0]);
      match Step(InEntry(f), files, b[0])
      case Stop(_) =>
      case Next(st', files') =>
        assert files' == files && st'.InEntry?;
        HarmlessKeepsEntryOpen(b[1..], st'.file, files);
    }
  }

  /**
   * An entry the document never closes is dropped: whatever `a` left behind,
   * a `<D:response>` start followed only by harmless events (or nothing, or an
   * end of document) leaves the result of `a` unchanged.
   */
  lemma TruncatedEntryDropped(a: seq<Event>, t: ReadText, b: seq<Event>)
    requires forall k :: 0 <= k < |b| ==> Harmless(b[k])
    ensures Parse(a + [Start(Response, t)] + b) == Parse(a)
  {
    var c := [Start(Response, t)] + b;
    assert a + [Start(Response, t)] + b == a + c;
    ExecAppend(a, c, Outside, []);
    match Exec(a, Outside, [])
    case Stop(_) =>
    case Next(st, files) =>
      assert c[0] == Start(Response, t) && c[1..] == b;
      var f := if st.Outside? then EmptyFile else st.file;
      assert Step(st, files, c[0]) == Next(InEntry(f), files);
      HarmlessKeepsEntryOpen(b, f, files);
  }

  /** Without an end of document, the machine only stops on an error. */
  lemma {:induction false} OnlyErrorsStopEarly(a: seq<Event>, st: State, files: seq<FileInfo>)
    requires forall k :: 0 <= k < |a| ==> !a[k].Eof?
    ensures Exec(a, st, files).Stop? ==> Exec(a, st, files).result.Err?
    decreases |a|
  {
    if a != [] {
      match Step(st, files, a[0])
      case Stop(_) =>
      case Next(st', files') => OnlyErrorsStopEarly(a[1..], st', files');
    }
  }

  /** A malformed event before any end of document fails the whole parse, however many entries were complete. */
  lemma MalformedAborts(a: seq<Event>, m: string, b: seq<Event>)
    requires forall k :: 0 <= k < |a| ==> !a[k].Eof?
    ensures Parse(a + [Malformed(m)] + b).Err?
  {
    var c := [Malformed(m)] + b;
    assert a + [Malformed(m)] + b == a + c;
    ExecAppend(a, c, Outside, []);
    OnlyErrorsStopEarly(a, Outside, []);
  }

  /**
   * An unparsable content length in an open entry fails the whole parse with
   * "Failed to parse size", even when `a` completed entries before it.
   */
  lemma SizeErrorDiscardsAll(a: seq<Event>, t: ReadText, b: seq<Event>, s: string, c: seq<Event>)
    requires Exec(a, Outside, []).Next? && Exec(a, Outside, []).state.Outside?
    requires forall k :: 0 <= k < |b| ==> Harmless(b[k]) && !b[k].Eof?
    requires ParseU64(s).None?
    ensures Parse(a + [Start(Response, t)] + b + [Start(ContentLength, Text(s))] + c) == Err(SizeError)
  {
    var files := Exec(a, Outside, []).files;
    var rest := [Start(ContentLength, Text(s))] + c;
    assert a + [Start(Response, t)] + b + [Start(ContentLength, Text(s))] + c
      == a + ([Start(Response, t)] + (b + rest));
    ExecAppend(a, [Start(Response, t)] + (b + rest), Outside, []);
    assert ([Start(Response, t)] + (b + rest))[1..] == b + rest;
    ExecAppend(b, rest, InEntry(EmptyFile), files);
    HarmlessStaysOpen(b, EmptyFile, files);
  }

  /** Harmless events that do not end the document leave the entry open and the records untouched. */
  lemma {:induction false} HarmlessStaysOpen(b: seq<Event>, f: FileInfo, files: seq<FileInfo>)
    requires forall k :: 0 <= k < |b| ==> Harmless(b[k]) && !b[k].Eof?
    ensures Exec(b, InEntry(f), files).Next?
    ensures Exec(b, InEntry(f), files).state.InEntry? && Exec(b, InEntry(f), files).files == files
    decreases |b|
  {
    if b != [] {
      assert Harmless(b[0]);
      var g := Absorb(f, b[0]).value;
      assert Step(InEntry(f), files, b[0]) == Next(InEntry(g), files);
      HarmlessStaysOpen(b[1..], g, files);
    }
  }

  /** A document with no `<D:response>` start and no malformed event lists nothing, successfully. */
  lemma {:induction false} NoEntriesEmpty(es: seq<Event>)
    requires forall k :: 0 <= k < |es| ==> !es[k].Malformed? && !(es[k].Start? && es[k].name == Response)
    ensures Parse(es) == Ok([])
    decreases |es|
  {
    if es != [] {
      NoEntriesEmpty(es[1..]);
    }
  }

  /** The record a `<D:response>` start opens is consistent: an empty path derives an empty name and file type. */
  lemma EmptyFileConsistent()
    ensures Consistent(EmptyFile)
  {
    LastSegmentSpec("", '/');
    LastSegmentSpec("", '.');
  }

  /** Every record of the reference listing is consistent. */
  lemma {:induction false} EntriesConsistent(es: seq<Event>)
    ensures Entries(es).Ok? ==> forall r :: r in Entries(es).value ==> Consistent(r)
    decreases |es|
  {
    if es != [] && !es[0].Eof? && !es[0].Malformed? {
      if es[0].Start? && es[0].name == Response {
        var tail := es[1..];
        var n := EntryLength(tail);
        var b := Build(EmptyFile, tail[..n]);
        if b.Ok? {
          EmptyFileConsistent();
          BuildKeepsConsistent(EmptyFile, tail[..n]);
          if n < |tail| && tail[n] == End(Response) {
            EntriesConsistent(tail[n + 1..]);
          }
        }
      } else {
        EntriesConsistent(es[1..]);
      }
    }
  }

  /**
   * Every record of a successful parse is consistent: its name and file type
   * are those derived from its path, and a directory has size 0.
   */
  lemma ParsedRecordsConsistent(es: seq<Event>)
    ensures Parse(es).Ok? ==> forall r :: r in Parse(es).value ==> Consistent(r)
  {
    ParseIsEntries(es);
    EntriesConsistent(es);
  }

  // ---------------------------------------------------------------------------
  // Round trip: the events of a well-formed listing parse back to its records

  /** The events a server's `<D:response>` element for `f` produces (its text content is never read). */
  function EntryEvents(f: FileInfo): seq<Event>
  {
    [Start(Response, Text(""))] + ([Start(Href, Text(f.path))] + (LengthEvents(f) + TailEvents(f)))
  }

  /** A directory carries no content length; a file carries its size in decimal. */
  function LengthEvents(f: FileInfo): seq<Event>
  {
    if f.isDir then [] else [Start(ContentLength, Text(ToDecimal(f.size as nat)))]
  }

  /** The events of a listing of `fs`, entry after entry, without the end of document. */
  function Render(fs: seq<FileInfo>): seq<Event>
    decreases |fs|
  {
    if fs == [] then [] else EntryEvents(fs[0]) + Render(fs[1..])
  }

  /** The machine takes the first event, then runs on the rest. */
  lemma ExecFirst(e: Event, rest: seq<Event>, st: State, files: seq<FileInfo>)
    ensures Exec([e] + rest, st, files) == Then(Step(st, files, e), rest)
  {
    assert ([e] + rest)[0] == e && ([e] + rest)[1..] == rest;
  }

  /** The dates and the closing tag finish the record and append it. */
  lemma EntryTailRoundTrip(f: FileInfo, files: seq<FileInfo>)
    ensures var g := f.(createDate := "", modifiedDate := "");
      Exec(TailEvents(f), InEntry(g), files)
      == Next(Outside, files + [f])
  {
    var g3 := f.(modifiedDate := "");
    var closing := [End(Response)];
    var modified := [Start(LastModified, Text(f.modifiedDate))] + closing;
    assert closing == [End(Response)] + [];
    ExecFirst(End(Response), [], InEntry(f), files);
    assert Step(InEntry(f), files, End(Response)) == Next(Outside, files + [f]);
    assert Then(Next(Outside, files + [f]), []) == Next(Outside, files + [f]);
    assert Exec(closing, InEntry(f), files) == Next(Outside, files + [f]);
    assert SetProperty(g3, LastModified, Text(f.modifiedDate)) == Ok(f);
    ExecFirst(Start(LastModified, Text(f.modifiedDate)), closing, InEntry(g3), files);
    assert Exec(modified, InEntry(g3), files) == Next(Outside, files + [f]);
    assert SetProperty(g3.(createDate := ""), CreationDate, Text(f.createDate)) == Ok(g3);
    ExecFirst(Start(CreationDate, Text(f.createDate)), modified, InEntry(g3.(createDate := "")), files);
    assert TailEvents(f) == [Start(CreationDate, Text(f.createDate))] + modified;
  }

  /** The dates and closing tag of a rendered entry, after the path and size. */
  function TailEvents(f: FileInfo): seq<Event>
  {
    [Start(CreationDate, Text(f.createDate))] + ([Start(LastModified, Text(f.modifiedDate))] + [End(Response)])
  }

  /** The content length, when there is one, sets the size and marks the record as a file. */
  lemma LengthRoundTrip(f: FileInfo, files: seq<FileInfo>)
    requires f.isDir ==> f.size == 0
    ensures Exec(LengthEvents(f) + TailEvents(f), InEntry(f.(size := 0, isDir := true, createDate := "", modifiedDate := "")), files)
      == Next(Outside, files + [f])
  {
    var g1 := f.(size := 0, isDir := true, createDate := "", modifiedDate := "");
    var g2 := f.(createDate := "", modifiedDate := "");
    EntryTailRoundTrip(f, files);
    assert Exec(TailEvents(f), InEntry(g2), files) == Next(Outside, files + [f]);
    if f.isDir {
      assert LengthEvents(f) + TailEvents(f) == TailEvents(f) && g2 == g1;
    } else {
      var length := Start(ContentLength, Text(ToDecimal(f.size as nat)));
      assert LengthEvents(f) + TailEvents(f) == [length] + TailEvents(f);
      ParseDecimalRoundTrip(f.size);
      assert SetProperty(g1, ContentLength, Text(ToDecimal(f.size as nat))) == Ok(g2);
      assert Step(InEntry(g1), files, length) == Next(InEntry(g2), files);
      ExecFirst(length, TailEvents(f), InEntry(g1), files);
    }
  }

  /** One rendered entry appends exactly its record and returns the machine to Outside. */
  lemma EntryRoundTrip(f: FileInfo, files: seq<FileInfo>)
    requires Consistent(f)
    ensures Exec(EntryEvents(f), Outside, files) == Next(Outside, files + [f])
  {
    var g1 := f.(size := 0, isDir := true, createDate := "", modifiedDate := "");
    var sized := LengthEvents(f) + TailEvents(f);
    assert Exec(sized, InEntry(g1), files) == Next(Outside, files + [f]) by {
      LengthRoundTrip(f, files);
    }
    assert SetProperty(EmptyFile, Href, Text(f.path)) == Ok(g1) by {
      HrefDerivesNameAndType(EmptyFile, f.path);
    }
    var located := [Start(Href, Text(f.path))] + sized;
    ExecFirst(Start(Href, Text(f.path)), sized, InEntry(EmptyFile), files);
    ExecFirst(Start(Response, Text("")), located, Outside, files);
  }

  /** Every record of `fs` is consistent. */
  predicate AllConsistent(fs: seq<FileInfo>)
    decreases |fs|
  {
    fs == [] || (Consistent(fs[0]) && AllConsistent(fs[1..]))
  }

  /** Parsing the rendered listing of consistent records gives those records back, in order. */
  lemma {:induction false} RenderRoundTrip(fs: seq<FileInfo>, files: seq<FileInfo>)
    requires AllConsistent(fs)
    ensures Exec(Render(fs), Outside, files) == Next(Outside, files + fs)
    decreases |fs|
  {
    if fs == [] {
      assert files + [] == files;
    } else {
      var rest := Render(fs[1..]);
      assert Exec(Render(fs), Outside, files) == Exec(rest, Outside, files + [fs[0]]) by {
        var first := EntryEvents(fs[0]);
        assert Render(fs) == first + rest;
        ExecAppend(first, rest, Outside, files);
        EntryRoundTrip(fs[0], files);
      }
      RenderRoundTrip(fs[1..], files + [fs[0]]);
      AppendFirst(files, fs);
    }
  }

  /** Appending the first record of `ys` and then the rest is appending `ys`. */
  lemma AppendFirst(xs: seq<FileInfo>, ys: seq<FileInfo>)
    requires ys != []
    ensures xs + [ys[0]] + ys[1..] == xs + ys
  {
    assert [ys[0]] + ys[1..] == ys;
  }

  /** A well-formed listing of N consistent records, ended by an end of document, parses to exactly those N records. */
  lemma ParseRendered(fs: seq<FileInfo>)
    requires AllConsistent(fs)
    ensures Parse(Render(fs) + [Eof]) == Ok(fs)
  {
    assert Parse(Render(fs) + [Eof]) == Parse(Render(fs)) by {
      EventsAfterEofIgnored(Render(fs), []);
      assert Render(fs) + [Eof] + [] == Render(fs) + [Eof];
    }
    RenderRoundTrip(fs, []);
    assert [] + fs == fs;
  }
}

/**
 * `parse_xml` as the source writes it: a pull loop over a reader, a record
 * filled in place while an entry is open, and a growing list of records.
 */
module Parser {
  import opened Common
  import opened Decimal
  import opened Segments
  import opened FileInfos
  import opened Listing

  /** The event the reader reports at position `i`: past the last event it keeps reporting end of document. */
  function EventAt(events: seq<Event>, i: nat): Event
  {
    if i < |events| then events[i] else Eof
  }

  /** A forward-only reader over a document's events. */
  class Reader {
    const events: seq<Event>
    var pos: nat

    ghost predicate Valid()
      reads this
    {
      pos <= |events|
    }

    /** The events not read yet. */
    ghost function Remaining(): seq<Event>
      reads this
      requires Valid()
    {
      events[pos..]
    }

    constructor (events: seq<Event>)
      ensures Valid() && this.events == events && pos == 0
    {
      this.events := events;
      pos := 0;
    }

    /** `read_event`: the next event, consumed; end of document once the events are exhausted. */
    method ReadEvent() returns (e: Event)
      requires Valid()
      modifies this
      ensures Valid()
      ensures e == EventAt(events, old(pos))
      ensures old(pos) < |events| ==> pos == old(pos) + 1 && Remaining() == old(Remaining())[1..]
      ensures old(pos) == |events| ==> pos == old(pos) && e == Eof
    {
      e := EventAt(events, pos);
      if pos < |events| {
        pos := pos + 1;
      }
    }
  }

  /**
   * The body of the inner loop for a start tag: one chain of tag comparisons,
   * each reading the element's text and updating the open record in place; a
   * failed read or an unparsable size is returned as the error that aborts.
   */
  method FillField(file: FileInfo, name: string, text: ReadText) returns (r: Result<FileInfo>)
    ensures r == SetProperty(file, name, text)
  {
    var f := file;
    if name == Href {
      match text {
        case ReadError(m) => return Err(m);
        case Text(s) =>
          f := f.(path := s);
          f := f.(name := LastSegment(f.path, '/'));
          f := f.(fileType := LastSegment(f.name, '.'));
      }
    } else if name == ContentLength {
      match text {
        case ReadError(m) => return Err(m);
        case Text(s) =>
          match ParseU64(s) {
            case None => return Err(SizeError);
            case Some(v) => f := f.(size := v);
          }
          f := f.(isDir := false);
      }
    } else if name == CreationDate {
      match text {
        case ReadError(m) => return Err(m);
        case Text(s) => f := f.(createDate := s);
      }
    } else if name == LastModified {
      match text {
        case ReadError(m) => return Err(m);
        case Text(s) => f := f.(modifiedDate := s);
      }
    }
    return Ok(f);
  }

  /**
   * Where the inner loop leaves off, the machine's run from a fresh record
   * goes on to the same result from the events after the entry.
   */
  lemma EntryExit(events: seq<Event>, at: nat, files: seq<FileInfo>, o: Outcome, pos: nat)
    requires at <= |events| && pos <= |events|
    requires o == EntryEnd(events[at..], EmptyFile, files)
    requires o.Next? ==> pos == at + EntryLength(events[at..]) + 1
    ensures o.Next? ==> o.state == Outside
    ensures Resume(o, events[pos..]) == Run(events[at..], InEntry(EmptyFile), files)
  {
    var es := events[at..];
    assert Run(es, InEntry(EmptyFile), files) == EntryOutcome(es, EmptyFile, files) by {
      RunInEntry(es, EmptyFile, files);
    }
    if o.Next? {
      EntryExitNext(events, at, EmptyFile, files, o, pos);
    } else {
      assert o.result == EntryOutcome(es, EmptyFile, files) by {
        EntryEndIsBuild(es, EmptyFile, files);
        EntryOutcomeCases(es, EmptyFile, files);
      }
    }
  }

  /** A closed entry: the machine goes on Outside, after `</D:response>`, with the built record appended. */
  lemma EntryExitNext(events: seq<Event>, at: nat, f: FileInfo, files: seq<FileInfo>, o: Outcome, pos: nat)
    requires at <= |events|
    requires o == EntryEnd(events[at..], f, files)
    requires o.Next? && pos == at + EntryLength(events[at..]) + 1
    ensures pos <= |events| && o.state == Outside
    ensures Run(events[pos..], o.state, o.files) == EntryOutcome(events[at..], f, files)
  {
    var es := events[at..];
    var n := EntryLength(es);
    var b := Build(f, es[..n]);
    assert b.Ok? && n < |es| && es[n] == End(Response) && o == Next(Outside, files + [b.value]) by {
      EntryEndIsBuild(es, f, files);
    }
    assert events[pos..] == es[n + 1..] by {
      SliceOfSlice(events, at, n + 1);
    }
    EntryOutcomeCases(es, f, files);
  }

  /**
   * The inner loop of `parse_xml`, entered after a `<D:response>` start: fills
   * in a fresh record from the entry's body, the events up to the first
   * `</D:response>` or end of document. It returns the record appended to
   * `files` (Next) exactly when the body builds and `</D:response>` ends it,
   * with the reader just past that end tag; otherwise the parse ends (Stop) --
   * with the error that aborted the body, or successfully at end of document,
   * dropping the record.
   */
  method ReadEntry(reader: Reader, files: seq<FileInfo>) returns (o: Outcome)
    requires reader.Valid()
    modifies reader
    ensures reader.Valid() && old(reader.pos) <= reader.pos
    ensures o == EntryEnd(old(reader.Remaining()), EmptyFile, files)
    ensures var n := EntryLength(old(reader.Remaining()));
      o.Next? ==> reader.pos == old(reader.pos) + n + 1
    ensures var es := old(reader.Remaining());
      var n := EntryLength(es);
      var b := Build(EmptyFile, es[..n]);
      o == if b.Err? then Stop(Err(b.message))
           else if n < |es| && es[n] == End(Response) then Next(Outside, files + [b.value])
           else Stop(Ok(files))
  {
    ghost var es := reader.Remaining();
    ghost var n := EntryLength(es);
    ghost var target := EntryEnd(es, EmptyFile, files);
    ghost var rest := es;
    var file := EmptyFile;
    while true
      invariant reader.Valid() && old(reader.pos) <= reader.pos && rest == reader.Remaining()
      invariant reader.pos - old(reader.pos) + EntryLength(rest) == n
      invariant EntryEnd(rest, file, files) == target
      decreases |rest|
    {
      var e := reader.ReadEvent();
      var absorbed: Result<FileInfo>;
      match e {
        case Start(name, text) =>
          absorbed := FillField(file, name, text);
        case End(name) =>
          if name == Response {
            assert rest[0] == End(Response) && EntryLength(rest) == 0;
            o := Next(Outside, files + [file]);
            break;
          }
          absorbed := Ok(file);
        case Eof =>
          o := Stop(Ok(files));
          break;
        case Malformed(m) =>
          absorbed := Err(m);
        case Other =>
          absorbed := Ok(file);
      }
      assert absorbed == Absorb(file, e);
      match absorbed {
        case Err(m) =>
          o := Stop(Err(m));
          break;
        case Ok(g) =>
          file := g;
          rest := rest[1..];
      }
    }
    EntryEndIsBuild(es, EmptyFile, files);
  }

  /** Dropping `i` elements and then `j` more drops `i + j`. */
  lemma SliceOfSlice<T>(s: seq<T>, i: nat, j: nat)
    requires i + j <= |s|
    ensures s[i..][j..] == s[i + j..]
  {
  }

  /**
   * `parse_xml`: the records of the document's completed entries, in order,
   * or the error that aborted the parse; exactly the state machine's result.
   */
  method ParseXml(events: seq<Event>) returns (r: Result<seq<FileInfo>>)
    ensures r == Parse(events)
  {
    var files: seq<FileInfo> := [];
    var reader := new Reader(events);
    assert reader.Remaining() == events;
    while true
      invariant reader.Valid() && reader.events == events
      invariant Run(reader.Remaining(), Outside, files) == Parse(events)
      decreases |events| - reader.pos
    {
      ghost var rest := reader.Remaining();
      var e := reader.ReadEvent();
      if rest != [] {
        RunFirst(rest, Outside, files);
      }
      match e {
        case Start(name, _) =>
          if name == Response {
            ghost var at := reader.pos;
            var o := ReadEntry(reader, files);
            EntryExit(events, at, files, o, reader.pos);
            match o {
              case Stop(result) => return result;
              case Next(_, done) => files := done;
            }
          }
        case Eof => break;
        case Malformed(m) => return Err(m);
        case _ =>
      }
    }
    return Ok(files);
  }
}

/**
 * The listing parser as a state machine over the event sequence, and an
 * entry-by-entry reference description of its result, proved to agree.
 */
module Listing {
  import opened Common
  import opened FileInfos

  /** Waiting for a `<D:response>` start, or filling in the record it opened. */
  datatype State = Outside | InEntry(file: FileInfo)

  /** After an event: go on in a state with the records so far, or stop with the call's result. */
  datatype Outcome = Next(state: State, files: seq<FileInfo>) | Stop(result: Result<seq<FileInfo>>)

  /** One pass of the outer loop (Outside) or of the inner loop (InEntry). */
  function Step(st: State, files: seq<FileInfo>, e: Event): Outcome
  {
    match st
    case Outside =>
      (match e
       case Start(name, _) => if name == Response then Next(InEntry(EmptyFile), files) else Next(Outside, files)
       case Eof => Stop(Ok(files))
       case Malformed(m) => Stop(Err(m))
       case _ => Next(Outside, files))
    case InEntry(f) =>
      (match e
       case Start(name, text) =>
         (match SetProperty(f, name, text)
          case Err(m) => Stop(Err(m))
          case Ok(g) => Next(InEntry(g), files))
       case End(name) => if name == Response then Next(Outside, files + [f]) else Next(st, files)
       case Eof => Stop(Ok(files))
       case Malformed(m) => Stop(Err(m))
       case Other => Next(st, files))
  }

  /** The machine after the events `es`, unless it stopped on one of them. */
  function Exec(es: seq<Event>, st: State, files: seq<FileInfo>): Outcome
    decreases |es|
  {
    if es == [] then Next(st, files)
    else
      match Step(st, files, es[0])
      case Stop(r) => Stop(r)
      case Next(st', files') => Exec(es[1..], st', files')
  }

  /**
   * The result once the events run out: the reader then reports end of
   * document, which in either state returns the records completed so far.
   */
  function Run(es: seq<Event>, st: State, files: seq<FileInfo>): Result<seq<FileInfo>>
  {
    match Exec(es, st, files)
    case Stop(r) => r
    case Next(_, files') => Ok(files')
  }

  /** `parse_xml` on the document whose events are `es`. */
  function Parse(es: seq<Event>): Result<seq<FileInfo>>
  {
    Run(es, Outside, [])
  }

  /** The result of going on from an outcome with the events `es`. */
  function Resume(o: Outcome, es: seq<Event>): Result<seq<FileInfo>>
  {
    match o
    case Stop(r) => r
    case Next(st, files) => Run(es, st, files)
  }

  /** The machine takes one event, then runs on the rest. */
  lemma RunFirst(es: seq<Event>, st: State, files: seq<FileInfo>)
    requires es != []
    ensures var o := Step(st, files, es[0]);
      Run(es, st, files) == if o.Stop? then o.result else Run(es[1..], o.state, o.files)
  {
  }

  // ---------------------------------------------------------------------------
  // Reference description, entry by entry

  /** The number of events before the first `</D:response>` or end of document. */
  function EntryLength(es: seq<Event>): (n: nat)
    ensures n <= |es|
    ensures forall k :: 0 <= k < n ==> es[k] != End(Response) && !es[k].Eof?
    ensures n < |es| ==> es[n] == End(Response) || es[n].Eof?
    decreases |es|
  {
    if es == [] || es[0] == End(Response) || es[0].Eof? then 0
    else 1 + EntryLength(es[1..])
  }

  /** The records `files` put in front of a listing, or the listing's error unchanged. */
  function Prepend(files: seq<FileInfo>, r: Result<seq<FileInfo>>): Result<seq<FileInfo>>
  {
    match r
    case Ok(more) => Ok(files + more)
    case Err(m) => Err(m)
  }

  /**
   * The listing a document describes. Outside an entry, only a `<D:response>`
   * start, the end of the document and a malformed event matter. An entry's
   * body runs up to its `</D:response>`; its record is EmptyFile built from the
   * body. A closed entry contributes its record before those of the rest of
   * the document; an entry cut off by the end of the document contributes
   * nothing and ends the listing. Any abort discards everything.
   */
  function Entries(es: seq<Event>): Result<seq<FileInfo>>
    decreases |es|
  {
    if es == [] then Ok([])
    else
      match es[0]
      case Eof => Ok([])
      case Malformed(m) => Err(m)
      case Start(name, _) =>
        if name != Response then Entries(es[1..])
        else
          var tail := es[1..];
          var n := EntryLength(tail);
          (match Build(EmptyFile, tail[..n])
           case Err(m) => Err(m)
           case Ok(f) =>
             if n < |tail| && tail[n] == End(Response) then Prepend([f], Entries(tail[n + 1..]))
             else Ok([]))
      case _ => Entries(es[1..])
  }

  /** The first event `e` of a body is absorbed first; the rest of the body follows it. */
  lemma BodyStep(f: FileInfo, es: seq<Event>, e: Event)
    requires es != [] && es[0] == e && e != End(Response) && !e.Eof?
    ensures var n := EntryLength(es); n == 1 + EntryLength(es[1..]) && es[1..][n - 1..] == es[n..]
    ensures var n := EntryLength(es); Absorb(f, e).Err? ==> Build(f, es[..n]) == Err(Absorb(f, e).message)
    ensures var n := EntryLength(es); Absorb(f, e).Ok? ==> Build(f, es[..n]) == Build(Absorb(f, e).value, es[1..][..n - 1])
  {
    var n := EntryLength(es);
    assert es[..n][0] == e;
    assert es[..n][1..] == es[1..][..n - 1];
  }

  /**
   * The inner loop on its own: from the open record `f`, the events `es` are
   * absorbed one by one until `</D:response>` appends the record and returns
   * to Outside (Next), or the end of the document or an abort ends the call
   * (Stop).
   */
  function EntryEnd(es: seq<Event>, f: FileInfo, files: seq<FileInfo>): Outcome
    decreases |es|
  {
    if es == [] || es[0].Eof? then Stop(Ok(files))
    else if es[0] == End(Response) then Next(Outside, files + [f])
    else
      match Absorb(f, es[0])
      case Err(m) => Stop(Err(m))
      case Ok(g) => EntryEnd(es[1..], g, files)
  }

  /**
   * The inner loop's outcome is decided by the record built from the whole
   * body: an abort stops the call with its error; a body closed by
   * `</D:response>` appends the built record; a body cut off by the end of
   * the document ends the call with the records appended before.
   */
  lemma {:induction false} EntryEndIsBuild(es: seq<Event>, f: FileInfo, files: seq<FileInfo>)
    ensures var n := EntryLength(es); var b := Build(f, es[..n]);
      EntryEnd(es, f, files) ==
        if b.Err? then Stop(Err(b.message))
        else if n < |es| && es[n] == End(Response) then Next(Outside, files + [b.value])
        else Stop(Ok(files))
    decreases |es|
  {
    if es != [] && !es[0].Eof? && es[0] != End(Response) {
      BodyStep(f, es, es[0]);
      var a := Absorb(f, es[0]);
      if a.Ok? {
        EntryEndIsBuild(es[1..], a.value, files);
      }
    }
  }

  /** What an open entry whose remaining events are `es` leads to: its record is built from its body, then the event that ended the body decides. */
  function EntryOutcome(es: seq<Event>, f: FileInfo, files: seq<FileInfo>): Result<seq<FileInfo>>
  {
    var n := EntryLength(es);
    match Build(f, es[..n])
    case Err(m) => Err(m)
    case Ok(g) =>
      if n < |es| && es[n] == End(Response) then Run(es[n + 1..], Outside, files + [g])
      else Ok(files)
  }

  /** The three ways an open entry ends: its body aborts, `</D:response>` closes it, or the document ends first. */
  lemma EntryOutcomeCases(es: seq<Event>, f: FileInfo, files: seq<FileInfo>)
    ensures var n := EntryLength(es); var b := Build(f, es[..n]);
      b.Err? ==> EntryOutcome(es, f, files) == Err(b.message)
    ensures var n := EntryLength(es); var b := Build(f, es[..n]);
      b.Ok? && n < |es| && es[n] == End(Response) ==> EntryOutcome(es, f, files) == Run(es[n + 1..], Outside, files + [b.value])
    ensures var n := EntryLength(es); var b := Build(f, es[..n]);
      b.Ok? && !(n < |es| && es[n] == End(Response)) ==> EntryOutcome(es, f, files) == Ok(files)
  {
    var n := EntryLength(es);
    match Build(f, es[..n])
    case Err(_) =>
    case Ok(_) =>
  }

  /** Inside an entry, an event of the body acts on the record as Absorb does. */
  lemma StepInEntry(f: FileInfo, files: seq<FileInfo>, e: Event)
    requires e != End(Response) && !e.Eof?
    ensures Step(InEntry(f), files, e) ==
      (if Absorb(f, e).Err? then Stop(Err(Absorb(f, e).message)) else Next(InEntry(Absorb(f, e).value), files))
  {
  }

  /** Inside an entry, the machine builds the record from the body and then acts on what ended it. */
  lemma {:induction false} RunInEntry(es: seq<Event>, f: FileInfo, files: seq<FileInfo>)
    ensures Run(es, InEntry(f), files) == EntryOutcome(es, f, files)
    decreases |es|
  {
    if es != [] && es[0] != End(Response) && !es[0].Eof? {
      var n := EntryLength(es);
      var a := Absorb(f, es[0]);
      assert Build(f, es[..n]) == (if a.Err? then Err(a.message) else Build(a.value, es[1..][..n - 1])) by {
        assert es[..n][0] == es[0];
        assert es[..n][1..] == es[1..][..n - 1];
      }
      assert Run(es, InEntry(f), files) == (if a.Err? then Err(a.message) else Run(es[1..], InEntry(a.value), files)) by {
        StepInEntry(f, files, es[0]);
      }
      if a.Ok? {
        RunInEntry(es[1..], a.value, files);
        assert EntryLength(es[1..]) == n - 1;
        assert es[1..][n - 1..] == es[n..];
      }
    }
  }

  /** Outside an entry, the machine adds the reference listing of the rest to the records it holds. */
  lemma {:induction false} RunOutside(es: seq<Event>, files: seq<FileInfo>)
    ensures Run(es, Outside, files) == Prepend(files, Entries(es))
    decreases |es|
  {
    if es == [] {
      assert files + [] == files;
    } else if es[0].Start? && es[0].name == Response {
      var tail := es[1..];
      var n := EntryLength(tail);
      RunInEntry(tail, EmptyFile, files);
      var b := Build(EmptyFile, tail[..n]);
      if b.Ok? {
        if n < |tail| && tail[n] == End(Response) {
          RunOutside(tail[n + 1..], files + [b.value]);
          match Entries(tail[n + 1..])
          case Ok(more) => assert files + [b.value] + more == files + ([b.value] + more);
          case Err(_) =>
        } else {
          assert files + [] == files;
        }
      }
    } else if !es[0].Eof? && !es[0].Malformed? {
      RunOutside(es[1..], files);
    } else if es[0].Eof? {
      assert files + [] == files;
    }
  }

  /**
   * The state machine and the reference agree: the result of a successful
   * parse holds one record per entry that reached its `</D:response>`, in
   * document order, each built from that entry's body.
   */
  lemma ParseIsEntries(es: seq<Event>)
    ensures Parse(es) == Entries(es)
  {
    RunOutside(es, []);
    match Entries(es)
    case Ok(more) => assert [] + more == more;
    case Err(_) =>
  }
}

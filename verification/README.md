# WebDAV directory-listing parser, modelled in Dafny

This project models `parse_xml` from `src/file.rs`, the core of the rustydav_async
WebDAV client. It turns a PROPFIND multi-status XML response into an ordered list of
`FileInfo` records. The parser pulls events from an XML reader. It waits outside any
entry for a `<D:response>` start. Inside an entry it fills in a fresh record:

- `D:href` sets the path and derives the name and the file type;
- `lp1:getcontentlength` parses the size and marks the record as a file;
- `lp1:creationdate` and `lp1:getlastmodified` copy their text.

The record is appended when `</D:response>` closes the entry. A reader error, a failed
element read or an unparsable size aborts the whole call. An end of document inside an
open entry ends the call successfully without that entry.

Layout:

- `common.dfy`: `Option`, and `Result` with a string error, as the Rust code's
  `Result<_, String>`.
- `segments.dfy`: Rust's `split(sep).last()`, used for the name (after the last `/`)
  and the file type (after the last `.`).
- `decimal.dfy`: Rust's `u64::from_str`: an optional single `+`, one or more ASCII
  digits, and a value below 2^64.
- `file_info.dfy`: the `FileInfo` record, the tag constants and the event type. It also
  holds `SetProperty`, the per-tag field setter, and `Build`, which folds the setters
  over an entry's body.
- `listing.dfy`: the parser as a state machine (`Step`, `Exec`, `Run`, `Parse`), and an
  entry-by-entry reference description (`Entries`) proved equal to it.
- `listing_facts.dfy`: document-level properties. Events after an end of document are
  ignored; an unclosed entry is dropped; errors are fatal; a rendered listing parses back
  to its records.
- `parser.dfy`: the imperative code. A `Reader` class holds the events and a cursor.
  `ParseXml` runs the outer loop, and its contract is `Parse`. `ReadEntry` is the inner
  loop. `FillField` is the chain of tag comparisons that updates the open record.

The reader is a finite sequence of events. `Start(name, text)` carries what `read_text`
would return for that element: its text, or a read error with its message. When the
parser calls `read_text`, the element's content and end tag are consumed along with the
start. So the sequence lists the events as this parser sees them. `Other` covers text,
empty-element, comment and similar events; `Malformed` is a reader error. Once the
events are exhausted, the reader reports end of document, as `quick_xml` does.

The name and file type follow src/file.rs:38-40. A path without `/` yields the whole
path as the name. A name without `.` yields the whole name as the file type, not the
empty string.

## Model

| member | source | states |
|---|---|---|
| Parser.ParseXml | src/file.rs:14-81 | The result equals the state machine's `Parse` of the events: the records of completed entries in order, or the aborting error. |
| Parser.ReadEntry | src/file.rs:30-71 | After a `<D:response>` start, the call reads a body and then acts on what ended it. If the fresh record built from the body aborts, the call stops with that error. If `</D:response>` closes the body, it returns the earlier records plus the built record, with the reader just past that end tag. If the document ends first, it stops successfully with only the earlier records. |
| Parser.EntryExit | src/file.rs:62-78 | Wherever the inner loop leaves off, the outer loop's continuation gives the machine's result for the whole entry. |
| Parser.FillField | src/file.rs:32-59 | The in-place update of the open record for one start tag equals `SetProperty`, including the error it aborts with. |
| Parser.Reader.ReadEvent | src/file.rs:19 | Returns the next event and consumes it; once the events are exhausted it returns end of document and stays put. |
| Parser.Reader.constructor | src/file.rs:16 | A fresh reader is positioned at the first event of the document. |
| Segments.Split | src/file.rs:38 | `str::split`: never empty; joining the pieces with the separator gives the input back; no piece contains the separator; one piece exactly when the input has none. |
| Segments.LastSegment | src/file.rs:38-40 | `split(sep).last().unwrap_or("")`. It has no contract of its own; LastSegmentSpec and LastSegmentUnique state what it yields. |
| Segments.LastSegmentSpec | src/file.rs:38-40 | `split(sep).last()` is the suffix after the last separator. It is the whole string iff the string has no separator, and empty when the string is empty or ends in the separator. |
| Segments.LastSegmentShapeFacts | src/file.rs:38-40 | Any suffix of that shape is the whole string iff the string has no separator, and it is empty when the string ends in the separator. |
| Segments.LastSegmentUnique | src/file.rs:38-40 | No other suffix has that shape, so the derivation is determined by it. |
| Segments.LastSegmentAfter | src/file.rs:38-40 | Whatever precedes the last separator, the text after it is the segment. |
| Decimal.ParseU64 | src/file.rs:46-47 | Succeeds exactly on an optional `+` followed by at least one digit and a value below 2^64; an accepted text has only digits after the optional leading `+`, and its value is the decimal value of those digits. |
| Decimal.ParseDecimalRoundTrip | src/file.rs:46 | Every u64 written in decimal, with or without a leading `+`, parses back to itself. |
| Decimal.ParseRejectsOverflow | src/file.rs:46-47 | A decimal value of 2^64 or more is rejected. |
| Decimal.ValueLeadingZeros | src/file.rs:46 | Leading zeros do not change a digit string's value. |
| Decimal.ParseLeadingZeros | src/file.rs:46-47 | Any u64 written with any number of leading zeros, with or without a leading `+`, parses to itself. |
| Decimal.ParseU64Accepts | src/file.rs:46-47 | "4096", "+7" and "007" are accepted with their values. |
| Decimal.ParseU64Rejects | src/file.rs:46-47 | "abc", "", "+", "-1" and " 1" are rejected. |
| FileInfos.SetProperty | src/file.rs:32-59 | A start tag aborts exactly on a failed read of a property or an unparsable size, the latter with "Failed to parse size". An unknown tag leaves the record unchanged. Each property sets only its own fields; only a parsed content length clears `is_dir`. Only `D:href` changes the name and file type, which it derives from the new path. |
| FileInfos.HrefDerivesNameAndType | src/file.rs:33-40 | `D:href` sets the path. The name is the text after the last `/`: the whole path without `/`, empty for an empty path or one ending in `/`. The file type is the text after the name's last `.`, or the whole name without `.`. Other fields are unchanged. |
| FileInfos.Absorb | src/file.rs:31-69 | The inner loop's effect of one body event on the open record: a start tag goes through SetProperty, a reader error aborts, anything else leaves the record alone. It has no contract of its own; BuildFailsIff and BuildFields state its effect over a whole body. |
| FileInfos.Build | src/file.rs:30-69 | The inner loop's fold of Absorb over an entry's body. It has no contract of its own; BuildFailsIff, BuildFields, BuildAppend and BuildKeepsConsistent state its properties. |
| FileInfos.BuildFailsIff | src/file.rs:30-69 | An entry body aborts exactly when one of its events is malformed, fails to read a property's text, or carries an unparsable size. |
| FileInfos.BuildFields | src/file.rs:30-69 | Last write wins: path, dates and size come from the last tag of each kind. `is_dir` stays true only if no content length was seen, and the size is the parsed value of the last one. |
| FileInfos.BuildAppend | src/file.rs:30-69 | Building a body in two parts is building the first part, then the second from its record, unless the first part aborts. |
| FileInfos.BuildKeepsConsistent | src/file.rs:33-40 | Name and file type always follow the current path. |
| FileInfos.FreshEntryDefaults | src/file.rs:21-29 | An entry without a content length is a directory of size 0; without an href its path stays empty. |
| Listing.Step | src/file.rs:19-77 | One pass of the outer loop (Outside) or the inner loop (InEntry). It has no contract of its own; RunInEntry, RunOutside and ParseIsEntries state what repeated steps compute. |
| Listing.Parse | src/file.rs:14-81 | `parse_xml` as a function of the event sequence. It has no contract of its own; ParseIsEntries and the document-level lemmas below state its result. |
| Listing.Exec | src/file.rs:18-78 | The loop passes repeated over the events, until the events run out or a step stops the call. It has no contract of its own; RunInEntry, RunOutside and EventsAfterEofIgnored state what it computes. |
| Listing.Run | src/file.rs:67-80 | Exec, then the end of document the reader reports once the events run out, which returns the records so far from either loop. It has no contract of its own; RunInEntry, RunOutside and EventsAfterEofIgnored state what it computes. |
| Listing.EntryEnd | src/file.rs:30-71 | The inner loop on its own, as a recursive function: it absorbs body events into the open record until `</D:response>` appends it, or the end of document or an abort ends the call. It has no contract of its own; EntryEndIsBuild states its result in terms of Build, and Parser.ReadEntry is proved equal to it. |
| Listing.EntryEndIsBuild | src/file.rs:30-71 | The inner loop from a record is decided by the record built from the whole body: an abort stops with its error, `</D:response>` appends the built record and returns to Outside, and an end of document stops with the earlier records. |
| Listing.RunInEntry | src/file.rs:30-71 | Inside an entry, the machine builds the record from the events up to `</D:response>` or end of document. It then appends the record and goes on outside, or returns the earlier records. |
| Listing.RunOutside | src/file.rs:18-80 | Outside an entry, the machine's result is the records it holds followed by the reference listing of the rest. |
| Listing.ParseIsEntries | src/file.rs:14-81 | The parser's result equals the reference listing: one record per entry closed by `</D:response>`, in document order, each built from its own body. An entry cut off by end of document contributes nothing. Any abort discards everything. |
| ListingFacts.EventsAfterEofIgnored | src/file.rs:67-74 | Nothing after an end of document affects the result. |
| ListingFacts.HarmlessKeepsEntryOpen | src/file.rs:30-69 | Unknown tags, other end tags, other events and successful property reads never complete a record. |
| ListingFacts.TruncatedEntryDropped | src/file.rs:67 | A `<D:response>` start never closed before the document ends leaves the result exactly as it was before that start. |
| ListingFacts.MalformedAborts | src/file.rs:68-75 | A reader error before any end of document fails the whole call, however many entries were complete. |
| ListingFacts.SizeErrorDiscardsAll | src/file.rs:41-47 | An unparsable content length inside an entry returns exactly `Err("Failed to parse size")`, even after complete entries. |
| ListingFacts.NoEntriesEmpty | src/file.rs:73-80 | A document without `<D:response>` starts and without reader errors yields an empty, successful listing. |
| ListingFacts.EmptyFileConsistent | src/file.rs:21-29 | The fresh record's empty name and file type follow its empty path, and it is a directory of size 0. |
| ListingFacts.EntriesConsistent | src/file.rs:33-40 | Every record in the reference listing has a name and file type that follow its path, and a directory record has size 0. |
| ListingFacts.ParsedRecordsConsistent | src/file.rs:14-81 | Every record the parser returns has a name and file type that follow its path, and a directory record has size 0. |
| ListingFacts.EntryRoundTrip | src/file.rs:20-64 | The events of one well-formed entry append exactly its record. |
| ListingFacts.RenderRoundTrip | src/file.rs:18-64 | The events of N well-formed entries append exactly those N records, in order. |
| ListingFacts.ParseRendered | src/file.rs:14-81 | A listing of N consistent records followed by end of document parses to exactly those N records. |

## Left out

- `src/client.rs` is not part of this model: async HTTP request builders with basic auth, headers and a constant PROPFIND body; network I/O with no parsing logic.
- The `quick_xml` tokenizer: entity handling, `trim_text(true)` whitespace trimming, and how `read_text` scans to the matching end tag. The events and the text of each element are inputs.
- XML namespace resolution: tags are compared as raw prefixed names (`D:response`, `lp1:getcontentlength`, ...), exactly as the code does.
- The wording of reader error messages (`e.to_string()`): a reader error carries an arbitrary message, which is propagated unchanged.
- Self-closing elements (`Event::Empty`) fall into the ignored arm and are modelled only as `Other`.
- Parser.ParseXml: the inner loop and the chain of tag comparisons are separate methods (`ReadEntry`, `FillField`), not inlined in one body. The control flow is unchanged.
- FileInfos.FileInfo: a value type updated by reassignment of the local record. Rust moves the record into the vector by value, so no aliasing exists to model.

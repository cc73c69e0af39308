/**
 Reading a forensic bead log (src/beads.py:75-313).

 JSON decoding and ISO 8601 parsing belong to Python's libraries and enter as
 functions; everything the module itself decides is written out.
 */
module Forensic {
  import opened Prelude
  import opened Documents
  import opened Window
  import opened Events
  import opened TextLines

  /** A parsed timestamp: without an offset, in microseconds since the epoch, or beyond what UTC can hold. */
  datatype Instant = Naive | Aware(micros: int) | Unrepresentable

  datatype Readers = Readers(loads: string -> Option<Json>, iso: string -> Option<Instant>)

  datatype Fault =
    | MalformedJson | NotAnObject | BadRecordType | UnsupportedRecordType | EventNotAnObject
    | BadStore | BadSequence | BadIssue | BadKind | BadTime | BadActor | BadStatus
    | DuplicateIdentity | TimeOverflow

  datatype ParseError = ParseError(line: nat, fault: Fault)

  datatype Raw = Raw(
    workspace: string, sequence: int, issueId: Option<string>, kind: string, time: string,
    actor: Option<string>, resultingStatus: Option<string>
  )

  datatype Identity = Identity(workspace: string, sequence: int)

  // ------------------------------------------------------------ one line

  /** `d.get(key)`, where a missing key reads as null. */
  function Get(j: Json, key: string): Json
    requires j.Dict?
  {
    if key in j.fields then j.fields[key] else Null
  }

  function OptionalString(j: Json): Option<string> {
    if j.Str? then Some(j.s) else None
  }

  /** Record types that carry no event, each with a payload under its own name. */
  predicate NonEventType(t: string) {
    || t == "issue" || t == "attempt_outcome" || t == "provenance_receipt" || t == "redaction_finding"
    || t == "redaction_acknowledgment" || t == "redaction_receipt" || t == "redaction_epoch" ||
        t == "redaction_tombstone"
  }

  /** Some(fault), or None for a well-formed event or a recognised other record. */
  function RecordFault(record: Json): Option<Fault> {
    if !record.Dict? then Some(NotAnObject)
    else
      var t := Get(record, "record_type");
      if !t.Str? || t.s == "" then Some(BadRecordType)
      else if t.s != "event" then
        if !NonEventType(t.s) || !Get(record, t.s).Dict? then Some(UnsupportedRecordType) else None
      else if !Get(record, "event").Dict? then Some(EventNotAnObject)
      else EventFault(Get(record, "event"))
  }

  function EventFault(event: Json): Option<Fault>
    requires event.Dict?
  {
    var store, sequence, issue := Get(event, "origin_store_uuid"), Get(event, "origin_event_sequence"),
        Get(event, "issue_id");
    var kind, time, actor := Get(event, "kind"), Get(event, "time"), Get(event, "actor");
    if !store.Str? || store.s == "" then Some(BadStore)
    else if !sequence.Int? || sequence.i < 0 then Some(BadSequence)
    else if !issue.Null? && !issue.Str? then Some(BadIssue)
    else if !kind.Str? || kind.s == "" then Some(BadKind)
    else if !time.Str? || time.s == "" then Some(BadTime)
    else if !actor.Null? && !actor.Str? then Some(BadActor)
    else if !StatedStatus(event).Null? && !StatedStatus(event).Str? then Some(BadStatus)
    else None
  }

  function StatedStatus(event: Json): Json
    requires event.Dict?
  {
    var detail := Get(event, "detail");
    if detail.Dict? then Get(detail, "resulting_base_status") else Null
  }

  /** `_resulting_status` */
  function ResultingStatus(kind: string, stated: Json): Option<string> {
    if stated.Str? && stated.s != "" then Some(stated.s) else if kind == "closed" then Some("closed") else None
  }

  predicate IsEvent(record: Json) {
    record.Dict? && Get(record, "record_type") == Str("event")
  }

  function RawOf(record: Json): Raw
    requires RecordFault(record).None? && IsEvent(record)
  {
    var event := Get(record, "event");
    var kind := Get(event, "kind").s;
    Raw(Get(event, "origin_store_uuid").s, Get(event, "origin_event_sequence").i,
        OptionalString(Get(event, "issue_id")),
        kind, Get(event, "time").s, OptionalString(Get(event, "actor")), ResultingStatus(kind, StatedStatus(event)))
  }

  /** What the decoder and the shape checks make of a line. */
  datatype Entry = Faulty(fault: Fault) | NoEvent | Item(raw: Raw)

  function ReadLine(line: string, readers: Readers): Entry {
    if Blank(line) then NoEvent
    else match readers.loads(line)
      case None => Faulty(MalformedJson)
      case Some(record) =>
        if RecordFault(record).Some? then Faulty(RecordFault(record).value)
        else if IsEvent(record) then Item(RawOf(record))
        else NoEvent
  }

  function IdentityOf(raw: Raw): Identity {
    Identity(raw.workspace, raw.sequence)
  }

  // ------------------------------------------------------------ time

  /** The last second of year 9999. */
  const LAST_SECOND := 253402300799

  predicate Decimal(s: string) {
    s != "" && forall i :: 0 <= i < |s| ==> '0' <= s[i] <= '9'
  }

  function DecimalValue(s: string): nat
    requires forall i :: 0 <= i < |s| ==> '0' <= s[i] <= '9'
  {
    if s == "" then 0 else DecimalValue(s[..|s| - 1]) * 10 + (s[|s| - 1] - '0') as nat
  }

  /** `_event_timestamp` followed by `as_utc` */
  function TimeOf(raw: Raw, readers: Readers): Result<int, Fault> {
    if Decimal(raw.time) then
      var seconds := DecimalValue(raw.time);
      if seconds <= LAST_SECOND then Ok(seconds * SECOND) else Err(BadTime)
    else match readers.iso(raw.time)
      case None => Err(BadTime)
      case Some(Naive) => Err(BadTime)
      case Some(Unrepresentable) => Err(TimeOverflow)
      case Some(Aware(micros)) => Ok(micros)
  }

  /** `int(ts.timestamp())` truncates toward zero. */
  function WholeSeconds(micros: int): int {
    if micros >= 0 then micros / SECOND else -((-micros) / SECOND)
  }

  function EventOf(raw: Raw, micros: int, repo: string): Event {
    Event(repo, WholeSeconds(micros), raw.workspace, raw.issueId, raw.kind, raw.actor, raw.resultingStatus, false)
  }

  // ------------------------------------------------------------ the whole log

  predicate RepeatsIdentity(lines: seq<string>, i: nat, readers: Readers)
    requires i < |lines|
  {
    var entry := ReadLine(lines[i], readers);
    entry.Item? && exists j: nat :: j < i && SameIdentity(ReadLine(lines[j], readers), entry)
  }

  predicate SameIdentity(a: Entry, b: Entry) {
    a.Item? && b.Item? && IdentityOf(a.raw) == IdentityOf(b.raw)
  }

  /** Why line `i` is refused, given that the lines before it were not. */
  function FaultAt(lines: seq<string>, i: nat, readers: Readers): Option<Fault>
    requires i < |lines|
  {
    match ReadLine(lines[i], readers)
    case Faulty(fault) => Some(fault)
    case NoEvent => None
    case Item(raw) =>
      if RepeatsIdentity(lines, i, readers) then Some(DuplicateIdentity)
      else match TimeOf(raw, readers)
        case Err(fault) => Some(fault)
        case Ok(_) => None
  }

  /** The event of a line, if it has one inside the window. */
  function EventsOn(line: string, repo: string, w: Window, readers: Readers): seq<Event> {
    match ReadLine(line, readers)
    case Item(raw) =>
      (match TimeOf(raw, readers)
       case Ok(micros) => if Contains(w, micros) then [EventOf(raw, micros, repo)] else []
       case Err(_) => [])
    case _ => []
  }

  function EventsIn(lines: seq<string>, repo: string, w: Window, readers: Readers): seq<Event> {
    if |lines| == 0 then []
    else EventsIn(lines[..|lines| - 1], repo, w, readers) + EventsOn(lines[|lines| - 1], repo, w, readers)
  }

  /** All or nothing: the first refused line decides, or every line is read. */
  ghost predicate Parses(lines: seq<string>, repo: string, w: Window, readers: Readers,
                         r: Result<seq<Event>, ParseError>)
  {
    match r
    case Ok(events) =>
      && (forall i: nat :: i < |lines| ==> FaultAt(lines, i, readers).None?)
      && events == EventsIn(lines, repo, w, readers)
    case Err(error) =>
      && 1 <= error.line <= |lines|
      && FaultAt(lines, error.line - 1, readers) == Some(error.fault)
      && forall i: nat :: i < error.line - 1 ==> FaultAt(lines, i, readers).None?
  }

  ghost predicate SeenUpTo(seen: set<Identity>, lines: seq<string>, i: nat, readers: Readers)
    requires i <= |lines|
  {
    forall id :: id in seen <==>
        exists j: nat :: j < i && ReadLine(lines[j], readers).Item? && IdentityOf(ReadLine(lines[j], readers).raw) == id
  }

  /** `parse_events` */
  method ParseEvents(text: string, repo: string, w: Window, readers: Readers)
    returns (r: Result<seq<Event>, ParseError>)
    ensures Parses(Lines(text), repo, w, readers, r)
  {
    hide ReadLine, TimeOf, Lines;
    var lines := Lines(text);
    var events: seq<Event> := [];
    var seen: set<Identity> := {};
    for i := 0 to |lines|
      invariant forall j: nat :: j < i ==> FaultAt(lines, j, readers).None?
      invariant SeenUpTo(seen, lines, i, readers)
      invariant events == EventsIn(lines[..i], repo, w, readers)
    {
      assert lines[..i + 1][..i] == lines[..i];
      match ReadLine(lines[i], readers)
      case Faulty(fault) => return Err(ParseError(i + 1, fault));
      case NoEvent =>
      case Item(raw) =>
        var identity := IdentityOf(raw);
        SeenMeansRepeated(seen, lines, i, readers);
        if identity in seen {
          return Err(ParseError(i + 1, DuplicateIdentity));
        }
        seen := seen + {identity};
        match TimeOf(raw, readers) {
          case Err(fault) => return Err(ParseError(i + 1, fault));
          case Ok(micros) =>
            if Contains(w, micros) {
              events := events + [EventOf(raw, micros, repo)];
            }
        }
    }
    assert lines[..|lines|] == lines;
    return Ok(events);
  }

  lemma SeenMeansRepeated(seen: set<Identity>, lines: seq<string>, i: nat, readers: Readers)
    requires i < |lines| && SeenUpTo(seen, lines, i, readers) && ReadLine(lines[i], readers).Item?
    ensures IdentityOf(ReadLine(lines[i], readers).raw) in seen <==> RepeatsIdentity(lines, i, readers)
    ensures SeenUpTo(seen + {IdentityOf(ReadLine(lines[i], readers).raw)}, lines, i + 1, readers)
  {
    hide ReadLine;
  }

  // ------------------------------------------------------------ the manifest

  datatype ManifestFault = MalformedManifest | ManifestNotAnObject | BadRoot | BadTotal | WrongCount | WrongChecksum

  /** `_validate_forensic_manifest`, branch by branch. */
  function ManifestRefusal(text: string, manifest: string, readers: Readers,
                           sha256: string -> string): Option<ManifestFault>
  {
    match readers.loads(manifest)
    case None => Some(MalformedManifest)
    case Some(m) =>
      if !m.Dict? then Some(ManifestNotAnObject)
      else
        var root, total := Get(m, "active_root"), Get(m, "total_record_count");
        if !root.Dict? || !Get(root, "sha256").Str? then Some(BadRoot)
        else if !total.Int? then Some(BadTotal)
        else if RecordCount(text) != total.i then Some(WrongCount)
        else if sha256(text) != Get(root, "sha256").s then Some(WrongChecksum)
        else None
  }

  datatype ReadError = Manifest(manifest: ManifestFault) | Log(log: ParseError)

  /** `read_events`: a repository without a log has no events, and that is no error. */
  method ReadEvents(text: Option<string>, manifest: Option<string>, repo: string, w: Window, readers: Readers,
                    sha256: string -> string)
    returns (r: Result<seq<Event>, ReadError>)
    ensures text.None? ==> r == Ok([])
    ensures text.Some? ==>
              var refusal :=
                if manifest.Some? then ManifestRefusal(text.value, manifest.value, readers, sha256) else None;
              if refusal.Some? then r == Err(Manifest(refusal.value))
              else
                exists p :: && Parses(Lines(text.value), repo, w, readers, p)
                            && r == match p case Ok(es) => Ok(es) case Err(e) => Err(Log(e))
  {
    hide Parses, Lines, ManifestRefusal;
    if text.None? {
      return Ok([]);
    }
    if manifest.Some? {
      var refusal := ManifestRefusal(text.value, manifest.value, readers, sha256);
      if refusal.Some? {
        return Err(Manifest(refusal.value));
      }
    }
    var p := ParseEvents(text.value, repo, w, readers);
    match p
    case Ok(es) => return Ok(es);
    case Err(e) => return Err(Log(e));
  }
}

/**
 What is written to a forensic log is what is read from it (src/beads.py:175-313).

 A log is written as JSON objects whose members are spelled out; reading the
 text gives back the events inside the window, member by member, and a record
 with one damaged member is refused for that member.
 */
module ForensicRoundTrip {
  import opened Prelude
  import opened Documents
  import opened Window
  import opened Events
  import opened TextLines
  import opened Forensic

  // ------------------------------------------------------------ writing

  /** A time as decimal seconds, or as a text that stands for some microseconds. */
  datatype Stamp = Seconds(seconds: nat) | Iso(text: string, micros: int)

  datatype Written = Written(store: string, sequence: nat, issue: Option<string>, kind: string, stamp: Stamp,
                             actor: Option<string>, status: Option<string>)

  /** A line of the log: blank, a record of another type, or an event. */
  datatype LogLine = Gap | Other(recordType: string) | Wrote(event: Written)

  function Digits(n: nat): string {
    var digit := [('0' as int + n % 10) as char];
    if n < 10 then digit else Digits(n / 10) + digit
  }

  function TimeText(s: Stamp): string {
    match s
    case Seconds(n) => Digits(n)
    case Iso(text, _) => text
  }

  function OrNull(s: Option<string>): Json {
    match s
    case None => Null
    case Some(t) => Str(t)
  }

  function EventFields(x: Written): map<string, Json> {
    map[
      "origin_store_uuid" := Str(x.store),
      "origin_event_sequence" := Int(x.sequence),
      "issue_id" := OrNull(x.issue),
      "kind" := Str(x.kind),
      "time" := Str(TimeText(x.stamp)),
      "actor" := OrNull(x.actor),
      "detail" := Dict(map["resulting_base_status" := OrNull(x.status)])
    ]
  }

  function EventRecord(fields: map<string, Json>): Json {
    Dict(map["record_type" := Str("event"), "event" := Dict(fields)])
  }

  const OTHER_TYPES: set<string> :=
    {"issue", "attempt_outcome", "provenance_receipt", "redaction_finding",
     "redaction_acknowledgment", "redaction_receipt", "redaction_epoch", "redaction_tombstone"}

  function OtherRecord(recordType: string): Json {
    Dict(map["record_type" := Str(recordType), recordType := Dict(map[])])
  }

  /** A store, a kind and a time that the reader can hold. */
  predicate Writable(x: Written, readers: Readers) {
    && x.store != "" && x.kind != ""
    && match x.stamp
       case Seconds(n) => n <= 253402300799
       case Iso(text, micros) =>
         text != "" && readers.iso(text) == Some(Aware(micros)) && exists c :: c in text && !('0' <= c <= '9')
  }

  ghost predicate Encodes(line: string, l: LogLine, readers: Readers) {
    && '\n' !in line
    && match l
       case Gap => Blank(line)
       case Other(t) => !Blank(line) && t in OTHER_TYPES && readers.loads(line) == Some(OtherRecord(t))
       case Wrote(x) =>
         !Blank(line) && Writable(x, readers) && readers.loads(line) == Some(EventRecord(EventFields(x)))
  }

  ghost predicate SameOrigin(a: LogLine, b: LogLine) {
    a.Wrote? && b.Wrote? && a.event.store == b.event.store && a.event.sequence == b.event.sequence
  }

  /** Lines that encode a log in which no two events have the same store and sequence number. */
  ghost predicate IsLog(lines: seq<string>, ls: seq<LogLine>, readers: Readers) {
    && |lines| == |ls|
    && (forall i :: 0 <= i < |ls| ==> Encodes(lines[i], ls[i], readers))
    && (forall i, j :: 0 <= i < j < |ls| ==> !SameOrigin(ls[i], ls[j]))
  }

  // ------------------------------------------------------------ what it should be read as

  function MicrosOf(s: Stamp): int {
    match s
    case Seconds(n) => n * 1000000
    case Iso(_, micros) => micros
  }

  /** The written seconds, or the microseconds without their fraction. */
  function StoredSeconds(s: Stamp): int {
    match s
    case Seconds(n) => n
    case Iso(_, micros) => if micros >= 0 then micros / 1000000 else -((-micros) / 1000000)
  }

  /** The stated status; a closure that states none says so by its kind. */
  function StatusAfter(x: Written): Option<string> {
    if x.status.Some? && x.status.value != "" then x.status
    else if x.kind == "closed" then Some("closed") else None
  }

  function AsEvent(x: Written, repo: string): Event {
    Event(repo, StoredSeconds(x.stamp), x.store, x.issue, x.kind, x.actor, StatusAfter(x), false)
  }

  function Expected(ls: seq<LogLine>, repo: string, w: Window): seq<Event> {
    if |ls| == 0 then []
    else
      var l := ls[|ls| - 1];
      Expected(ls[..|ls| - 1], repo, w)
        + (if l.Wrote? && w.start <= MicrosOf(l.event.stamp) && MicrosOf(l.event.stamp) < w.end
           then [AsEvent(l.event, repo)] else [])
  }

  // ------------------------------------------------------------ text

  lemma {:induction false} OneLine(b: string)
    requires '\n' !in b
    ensures Lines(b) == [b]
  {
    if |b| == 0 {
    } else {
      var n := |b| - 1;
      OneLine(b[..n]);
      assert b == b[..n] + [b[n]];
    }
  }

  lemma {:induction false} LineAfter(a: string, b: string)
    requires '\n' !in b
    ensures Lines(a + "\n" + b) == Lines(a) + [b]
  {
    var text := a + "\n" + b;
    if |b| == 0 {
      assert text[..|text| - 1] == a;
    } else {
      var n := |b| - 1;
      LineAfter(a, b[..n]);
      assert text[..|text| - 1] == a + "\n" + b[..n];
      assert b == b[..n] + [b[n]];
    }
  }

  /** Splitting undoes joining. */
  lemma {:induction false} JoinedLinesSplit(lines: seq<string>)
    requires |lines| > 0 && forall line :: line in lines ==> '\n' !in line
    ensures Lines(Join(lines)) == lines
  {
    var n := |lines| - 1;
    assert lines[n] in lines;
    if n == 0 {
      OneLine(lines[0]);
    } else {
      JoinedLinesSplit(lines[..n]);
      LineAfter(Join(lines[..n]), lines[n]);
      assert lines == lines[..n] + [lines[n]];
    }
  }

  lemma {:induction false} DigitsAreRead(n: nat)
    ensures Decimal(Digits(n)) && DecimalValue(Digits(n)) == n
  {
    var s := Digits(n);
    if n < 10 {
      assert s[..0] == "";
    } else {
      DigitsAreRead(n / 10);
      assert s[..|s| - 1] == Digits(n / 10);
    }
  }

  // ------------------------------------------------------------ one line

  lemma EventIsRead(line: string, x: Written, readers: Readers)
    requires !Blank(line) && Writable(x, readers) && readers.loads(line) == Some(EventRecord(EventFields(x)))
    ensures ReadLine(line, readers)
         == Item(Raw(x.store, x.sequence, x.issue, x.kind, TimeText(x.stamp), x.actor, StatusAfter(x)))
  {
    hide Blank;
    DigitsNotEmpty(x.stamp, readers);
    var fields := EventFields(x);
    assert Get(Dict(fields), "detail") == Dict(map["resulting_base_status" := OrNull(x.status)]);
  }

  lemma DigitsNotEmpty(s: Stamp, readers: Readers)
    ensures s.Seconds? ==> TimeText(s) != ""
  {
    if s.Seconds? {
      DigitsAreRead(s.seconds);
    }
  }

  lemma StampIsRead(x: Written, raw: Raw, readers: Readers)
    requires Writable(x, readers) && raw.time == TimeText(x.stamp)
    ensures TimeOf(raw, readers) == Ok(MicrosOf(x.stamp)) && WholeSeconds(MicrosOf(x.stamp)) == StoredSeconds(x.stamp)
  {
    if x.stamp.Seconds? {
      DigitsAreRead(x.stamp.seconds);
    }
  }

  lemma OtherIsSkipped(line: string, t: string, readers: Readers)
    requires !Blank(line) && t in OTHER_TYPES && readers.loads(line) == Some(OtherRecord(t))
    ensures ReadLine(line, readers) == NoEvent
  {
    hide Blank;
    OtherTypesDiffer(t);
    assert Get(OtherRecord(t), "record_type") == Str(t) && Get(OtherRecord(t), t) == Dict(map[]);
  }

  lemma OtherTypesDiffer(t: string)
    requires t in OTHER_TYPES
    ensures t != "" && t != "event" && t != "record_type" && NonEventType(t)
  {
    assert "redaction_receipt"[1] == 'e' && "record_type"[2] == 'c' && "redaction_receipt"[2] == 'd';
  }

  /** Each line by itself: nothing, or the event that was written. */
  lemma LineIsRead(line: string, l: LogLine, repo: string, w: Window, readers: Readers)
    requires Encodes(line, l, readers)
    ensures ReadLine(line, readers).Item? <==> l.Wrote?
    ensures !ReadLine(line, readers).Faulty?
    ensures l.Wrote? ==>
              && IdentityOf(ReadLine(line, readers).raw) == Identity(l.event.store, l.event.sequence)
              && TimeOf(ReadLine(line, readers).raw, readers).Ok?
    ensures EventsOn(line, repo, w, readers)
         == if l.Wrote? && w.start <= MicrosOf(l.event.stamp) && MicrosOf(l.event.stamp) < w.end
            then [AsEvent(l.event, repo)] else []
  {
    match l
    case Gap =>
    case Other(t) => OtherIsSkipped(line, t, readers);
    case Wrote(x) =>
      EventIsRead(line, x, readers);
      hide ReadLine, Blank, TimeOf, Writable;
      StampIsRead(x, ReadLine(line, readers).raw, readers);
  }

  // ------------------------------------------------------------ the whole log

  lemma LogHasNoFault(lines: seq<string>, ls: seq<LogLine>, readers: Readers, i: nat)
    requires IsLog(lines, ls, readers) && i < |lines|
    ensures FaultAt(lines, i, readers).None?
  {
    hide ReadLine, TimeOf, Encodes;
    forall j | 0 <= j < |lines|
      ensures ReadLine(lines[j], readers).Item? <==> ls[j].Wrote?
      ensures !ReadLine(lines[j], readers).Faulty?
      ensures ls[j].Wrote? ==>
                && IdentityOf(ReadLine(lines[j], readers).raw) == Identity(ls[j].event.store, ls[j].event.sequence)
                && TimeOf(ReadLine(lines[j], readers).raw, readers).Ok?
    {
      LineIsRead(lines[j], ls[j], "", Window(0, 0), readers);
    }
    if RepeatsIdentity(lines, i, readers) {
      var j: nat :| j < i && SameIdentity(ReadLine(lines[j], readers), ReadLine(lines[i], readers));
      assert SameOrigin(ls[j], ls[i]);
      assert false;
    }
  }

  lemma {:induction false} EventsAreExpected(lines: seq<string>, ls: seq<LogLine>, repo: string, w: Window,
                                             readers: Readers)
    requires |lines| == |ls| && forall i :: 0 <= i < |ls| ==> Encodes(lines[i], ls[i], readers)
    ensures EventsIn(lines, repo, w, readers) == Expected(ls, repo, w)
  {
    hide Encodes, EventsOn, AsEvent, MicrosOf;
    if |lines| == 0 {
    } else {
      var n := |lines| - 1;
      EventsAreExpected(lines[..n], ls[..n], repo, w, readers);
      LineIsRead(lines[n], ls[n], repo, w, readers);
    }
  }

  /**
   The log comes back: whatever is read from the text of a written log is the
   list of its events inside the window, in order, each with the members it was
   written with.
   */
  lemma WrittenIsRead(lines: seq<string>, ls: seq<LogLine>, repo: string, w: Window, readers: Readers,
                      r: Result<seq<Event>, ParseError>)
    requires |lines| > 0 && IsLog(lines, ls, readers) && Parses(Lines(Join(lines)), repo, w, readers, r)
    ensures r == Ok(Expected(ls, repo, w))
  {
    LogLinesSplit(lines, ls, readers);
    hide FaultAt, EventsIn, Encodes, IsLog, Lines, Join, Expected;
    forall i: nat | i < |lines| ensures FaultAt(lines, i, readers).None? {
      LogHasNoFault(lines, ls, readers, i);
    }
    LogEncodes(lines, ls, readers);
    EventsAreExpected(lines, ls, repo, w, readers);
  }

  lemma LogEncodes(lines: seq<string>, ls: seq<LogLine>, readers: Readers)
    requires IsLog(lines, ls, readers)
    ensures |lines| == |ls| && forall i :: 0 <= i < |ls| ==> Encodes(lines[i], ls[i], readers)
  {
    hide Encodes;
  }

  lemma LogLinesSplit(lines: seq<string>, ls: seq<LogLine>, readers: Readers)
    requires |lines| > 0 && IsLog(lines, ls, readers)
    ensures Lines(Join(lines)) == lines
  {
    forall line | line in lines ensures '\n' !in line {
      var i :| 0 <= i < |lines| && lines[i] == line;
      assert Encodes(lines[i], ls[i], readers);
    }
    JoinedLinesSplit(lines);
  }

  // ------------------------------------------------------------ refusals

  /** A log, one more line, and whatever follows it. */
  ghost predicate Follows(lines: seq<string>, ls: seq<LogLine>, readers: Readers) {
    |lines| > |ls| && IsLog(lines[..|ls|], ls, readers)
  }

  lemma {:induction false} FaultsArePrefixed(lines: seq<string>, k: nat, i: nat, readers: Readers)
    requires i < k <= |lines|
    ensures FaultAt(lines, i, readers) == FaultAt(lines[..k], i, readers)
  {
    hide ReadLine, TimeOf;
    assert forall j :: 0 <= j <= i ==> lines[..k][j] == lines[j];
  }

  /** After a good beginning the first fault is the outcome, whatever the rest is. */
  lemma FirstFaultDecides(lines: seq<string>, ls: seq<LogLine>, repo: string, w: Window, readers: Readers,
                          r: Result<seq<Event>, ParseError>, fault: Fault)
    requires Follows(lines, ls, readers) && Parses(lines, repo, w, readers, r)
    requires FaultAt(lines, |ls|, readers) == Some(fault)
    ensures r == Err(ParseError(|ls| + 1, fault))
  {
    hide FaultAt, EventsIn, IsLog;
    forall i: nat | i < |ls| ensures FaultAt(lines, i, readers).None? {
      FaultsArePrefixed(lines, |ls|, i, readers);
      SameLength(lines[..|ls|], ls, readers);
      LogHasNoFault(lines[..|ls|], ls, readers, i);
    }
  }

  lemma SameLength(lines: seq<string>, ls: seq<LogLine>, readers: Readers)
    requires IsLog(lines, ls, readers)
    ensures |lines| == |ls|
  {}

  predicate ObjectAt(fields: map<string, Json>, key: string) {
    key in fields && fields[key].Dict?
  }

  /** A line that is no record the reader knows, and what it is refused for. */
  function RecordRefusal(record: Option<Json>): Option<Fault> {
    if record.None? then Some(MalformedJson)
    else if !record.value.Dict? then Some(NotAnObject)
    else
      var fields := record.value.fields;
      if "record_type" !in fields || !fields["record_type"].Str? || fields["record_type"].s == ""
      then Some(BadRecordType)
      else
        var t := fields["record_type"].s;
        if t == "event" then if ObjectAt(fields, "event") then None else Some(EventNotAnObject)
        else if t in OTHER_TYPES && ObjectAt(fields, t) then None
        else Some(UnsupportedRecordType)
  }

  lemma TypesByName(t: string)
    ensures NonEventType(t) <==> t in OTHER_TYPES
  {}

  lemma BadRecordIsRefused(lines: seq<string>, ls: seq<LogLine>, repo: string, w: Window, readers: Readers,
                           r: Result<seq<Event>, ParseError>)
    requires Follows(lines, ls, readers) && Parses(lines, repo, w, readers, r)
    requires !Blank(lines[|ls|]) && RecordRefusal(readers.loads(lines[|ls|])).Some?
    ensures r == Err(ParseError(|ls| + 1, RecordRefusal(readers.loads(lines[|ls|])).value))
  {
    var record := readers.loads(lines[|ls|]);
    if record.Some? && record.value.Dict? && Get(record.value, "record_type").Str? {
      TypesByName(Get(record.value, "record_type").s);
    }
    hide Blank, NonEventType, EventFault, TimeOf, Follows, Parses;
    assert ReadLine(lines[|ls|], readers) == Faulty(RecordRefusal(record).value);
    FirstFaultDecides(lines, ls, repo, w, readers, r, RecordRefusal(record).value);
  }

  /** An event's members with one of them replaced, or left out. */
  function Damaged(x: Written, key: string, value: Option<Json>): map<string, Json> {
    match value
    case None => EventFields(x) - {key}
    case Some(j) => EventFields(x)[key := j]
  }

  predicate NonEmptyText(value: Option<Json>) {
    value.Some? && value.value.Str? && value.value.s != ""
  }

  predicate TextOrNothing(value: Option<Json>) {
    value.None? || value.value.Null? || value.value.Str?
  }

  /** Which values a member may not have, and what the record is refused for. */
  function MemberRefusal(key: string, value: Option<Json>): Option<Fault> {
    if key == "origin_store_uuid" && !NonEmptyText(value) then Some(BadStore)
    else if key == "origin_event_sequence" && !(value.Some? && value.value.Int? && value.value.i >= 0)
    then Some(BadSequence)
    else if key == "issue_id" && !TextOrNothing(value) then Some(BadIssue)
    else if key == "kind" && !NonEmptyText(value) then Some(BadKind)
    else if key == "time" && !NonEmptyText(value) then Some(BadTime)
    else if key == "actor" && !TextOrNothing(value) then Some(BadActor)
    else if key == "detail" && value.Some? && value.value.Dict?
            && !TextOrNothing(Lookup(value.value.fields, "resulting_base_status")) then Some(BadStatus)
    else None
  }

  const KEYS := ["origin_store_uuid", "origin_event_sequence", "issue_id", "kind", "time", "actor", "detail"]

  function RefusalAt(fields: map<string, Json>, key: string): Option<Fault> {
    MemberRefusal(key, Lookup(fields, key))
  }

  /** The members are looked at in this order, and the first bad one decides. */
  function FirstRefusal(fields: map<string, Json>): Option<Fault> {
    if RefusalAt(fields, "origin_store_uuid").Some? then RefusalAt(fields, "origin_store_uuid")
    else if RefusalAt(fields, "origin_event_sequence").Some? then RefusalAt(fields, "origin_event_sequence")
    else if RefusalAt(fields, "issue_id").Some? then RefusalAt(fields, "issue_id")
    else if RefusalAt(fields, "kind").Some? then RefusalAt(fields, "kind")
    else if RefusalAt(fields, "time").Some? then RefusalAt(fields, "time")
    else if RefusalAt(fields, "actor").Some? then RefusalAt(fields, "actor")
    else RefusalAt(fields, "detail")
  }

  lemma FaultIsFirstRefusal(fields: map<string, Json>)
    ensures EventFault(Dict(fields)) == FirstRefusal(fields)
  {
    KeysDiffer();
    var event := Dict(fields);
    forall k: string ensures Get(event, k) == if Lookup(fields, k).Some? then Lookup(fields, k).value else Null {}
    if Get(event, "detail").Dict? {
      var detail := Get(event, "detail");
      assert StatedStatus(event) == if Lookup(detail.fields, "resulting_base_status").Some?
                                    then Lookup(detail.fields, "resulting_base_status").value else Null;
    }
  }

  lemma DamageIsSeen(x: Written, key: string, value: Option<Json>, readers: Readers)
    requires Writable(x, readers)
    ensures EventFault(Dict(Damaged(x, key, value))) == MemberRefusal(key, value)
  {
    hide EventFault, Damaged, EventFields, Writable, MemberRefusal;
    FaultIsFirstRefusal(Damaged(x, key, value));
    MembersOfDamaged(x, key, value);
    forall k | k in KEYS && k != key ensures RefusalAt(Damaged(x, key, value), k) == None {
      GoodMember(x, k, readers);
    }
    if key in KEYS {
      assert RefusalAt(Damaged(x, key, value), key) == MemberRefusal(key, value);
    } else {
      OtherMember(key, value);
    }
    hide RefusalAt;
    assert forall i :: 0 <= i < 7 ==> KEYS[i] in KEYS;
  }

  lemma OtherMember(key: string, value: Option<Json>)
    requires key !in KEYS
    ensures MemberRefusal(key, value) == None
  {
    hide TextOrNothing, NonEmptyText;
    assert KEYS[0] in KEYS && KEYS[1] in KEYS && KEYS[2] in KEYS && KEYS[3] in KEYS;
    assert KEYS[4] in KEYS && KEYS[5] in KEYS && KEYS[6] in KEYS;
  }

  lemma GoodMember(x: Written, k: string, readers: Readers)
    requires Writable(x, readers) && k in KEYS
    ensures MemberRefusal(k, Lookup(EventFields(x), k)) == None
  {
    DigitsNotEmpty(x.stamp, readers);
    assert TimeText(x.stamp) != "";
    MembersOfDamaged(x, k, None);
    KeysDiffer();
    hide EventFields, TimeText, Damaged;
  }

  lemma KeysDiffer()
    ensures Distinct(KEYS)
  {
    assert "origin_store_uuid"[7] == 's' && "origin_event_sequence"[7] == 'e';
    assert "issue_id"[0] == 'i' && "kind"[0] == 'k' && "time"[0] == 't' && "actor"[0] == 'a' && "detail"[0] == 'd';
  }

  lemma MembersOfDamaged(x: Written, key: string, value: Option<Json>)
    ensures forall k :: k != key ==> Lookup(Damaged(x, key, value), k) == Lookup(EventFields(x), k)
    ensures Lookup(Damaged(x, key, value), key) == value
    ensures Lookup(EventFields(x), "origin_store_uuid") == Some(Str(x.store))
    ensures Lookup(EventFields(x), "origin_event_sequence") == Some(Int(x.sequence))
    ensures Lookup(EventFields(x), "issue_id") == Some(OrNull(x.issue))
    ensures Lookup(EventFields(x), "kind") == Some(Str(x.kind))
    ensures Lookup(EventFields(x), "time") == Some(Str(TimeText(x.stamp)))
    ensures Lookup(EventFields(x), "actor") == Some(OrNull(x.actor))
    ensures Lookup(EventFields(x), "detail") == Some(Dict(map["resulting_base_status" := OrNull(x.status)]))
  {}

  /** One damaged member, in an otherwise good event after a good beginning, is what the log is refused for. */
  lemma DamagedMemberIsRefused(lines: seq<string>, ls: seq<LogLine>, x: Written, key: string, value: Option<Json>,
                               repo: string, w: Window, readers: Readers, r: Result<seq<Event>, ParseError>)
    requires Follows(lines, ls, readers) && Parses(lines, repo, w, readers, r)
    requires !Blank(lines[|ls|]) && Writable(x, readers)
    requires readers.loads(lines[|ls|]) == Some(EventRecord(Damaged(x, key, value)))
    requires MemberRefusal(key, value).Some?
    ensures r == Err(ParseError(|ls| + 1, MemberRefusal(key, value).value))
  {
    DamageIsSeen(x, key, value, readers);
    hide Blank, EventFault, TimeOf, Damaged, MemberRefusal, Follows, Parses, Writable;
    var record := EventRecord(Damaged(x, key, value));
    assert Get(record, "event") == Dict(Damaged(x, key, value)) && Get(record, "record_type") == Str("event");
    assert ReadLine(lines[|ls|], readers) == Faulty(MemberRefusal(key, value).value);
    FirstFaultDecides(lines, ls, repo, w, readers, r, MemberRefusal(key, value).value);
  }

  /** An event that repeats the store and sequence number of an earlier one. */
  lemma RepeatIsRefused(lines: seq<string>, ls: seq<LogLine>, l: LogLine, k: nat, repo: string, w: Window,
                        readers: Readers, r: Result<seq<Event>, ParseError>)
    requires Follows(lines, ls, readers) && Parses(lines, repo, w, readers, r)
    requires Encodes(lines[|ls|], l, readers) && k < |ls| && SameOrigin(ls[k], l)
    ensures r == Err(ParseError(|ls| + 1, DuplicateIdentity))
  {
    SameLength(lines[..|ls|], ls, readers);
    LogEncodes(lines[..|ls|], ls, readers);
    assert lines[..|ls|][k] == lines[k];
    LineIsRead(lines[k], ls[k], repo, w, readers);
    LineIsRead(lines[|ls|], l, repo, w, readers);
    hide ReadLine, TimeOf, Encodes, Follows, Parses;
    assert SameIdentity(ReadLine(lines[k], readers), ReadLine(lines[|ls|], readers));
    assert RepeatsIdentity(lines, |ls|, readers);
    FirstFaultDecides(lines, ls, repo, w, readers, r, DuplicateIdentity);
  }

  /** A time the reader cannot hold: too many seconds, or a text that stands for no instant in UTC. */
  ghost predicate BadStamp(text: string, readers: Readers, fault: Fault) {
    || (fault == BadTime && exists n :: n > 253402300799 && text == Digits(n))
    || (&& (exists c :: c in text && !('0' <= c <= '9'))
        && (|| (fault == BadTime && (readers.iso(text) == None || readers.iso(text) == Some(Naive)))
            || (fault == TimeOverflow && readers.iso(text) == Some(Unrepresentable))))
  }

  lemma BadStampIsSeen(raw: Raw, readers: Readers, fault: Fault)
    requires BadStamp(raw.time, readers, fault)
    ensures TimeOf(raw, readers) == Err(fault)
  {
    if n :| n > 253402300799 && raw.time == Digits(n) && fault == BadTime {
      DigitsAreRead(n);
    }
  }

  /** An event with such a time is refused, if its identity is new, inside the window or not. */
  lemma BadTimeIsRefused(lines: seq<string>, ls: seq<LogLine>, x: Written, text: string, fault: Fault, repo: string,
                         w: Window, readers: Readers, r: Result<seq<Event>, ParseError>)
    requires Follows(lines, ls, readers) && Parses(lines, repo, w, readers, r)
    requires !Blank(lines[|ls|]) && Writable(x, readers) && BadStamp(text, readers, fault)
    requires readers.loads(lines[|ls|]) == Some(EventRecord(EventFields(x)["time" := Str(text)]))
    requires forall k :: 0 <= k < |ls| ==> !SameOrigin(ls[k], Wrote(x))
    ensures r == Err(ParseError(|ls| + 1, fault))
  {
    TimelessIsRead(lines[|ls|], x, text, fault, readers);
    SameLength(lines[..|ls|], ls, readers);
    LogEncodes(lines[..|ls|], ls, readers);
    BadStampIsSeen(ReadLine(lines[|ls|], readers).raw, readers, fault);
    hide ReadLine, TimeOf, Encodes, Follows, Parses, BadStamp, Writable, EventFields;
    if RepeatsIdentity(lines, |ls|, readers) {
      var j: nat :| j < |ls| && SameIdentity(ReadLine(lines[j], readers), ReadLine(lines[|ls|], readers));
      assert lines[..|ls|][j] == lines[j];
      LineIsRead(lines[j], ls[j], repo, w, readers);
      assert SameOrigin(ls[j], Wrote(x));
      assert false;
    }
    FirstFaultDecides(lines, ls, repo, w, readers, r, fault);
  }

  lemma TimelessIsRead(line: string, x: Written, text: string, fault: Fault, readers: Readers)
    requires !Blank(line) && Writable(x, readers) && BadStamp(text, readers, fault)
    requires readers.loads(line) == Some(EventRecord(EventFields(x)["time" := Str(text)]))
    ensures ReadLine(line, readers).Item?
    ensures ReadLine(line, readers).raw.time == text
    ensures IdentityOf(ReadLine(line, readers).raw) == Identity(x.store, x.sequence)
  {
    hide Blank;
    StampHasText(text, readers, fault);
    DamageIsSeen(x, "time", Some(Str(text)), readers);
    hide EventFault, BadStamp, Writable;
    var fields := EventFields(x)["time" := Str(text)];
    assert fields == Damaged(x, "time", Some(Str(text)));
    var record := EventRecord(fields);
    assert Get(record, "event") == Dict(fields) && Get(record, "record_type") == Str("event");
  }

  lemma StampHasText(text: string, readers: Readers, fault: Fault)
    requires BadStamp(text, readers, fault)
    ensures text != ""
  {
    if n :| n > 253402300799 && text == Digits(n) {
      DigitsAreRead(n);
    }
  }
}

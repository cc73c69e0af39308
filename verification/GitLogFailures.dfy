/**
 Lines of a log by their fields, and the lines a scan fails at
 (src/gitscan.py:533-557).
 */
module GitLogFailures {
  import opened Prelude
  import opened Window
  import opened Events
  import opened Commits
  import opened GitLog
  import opened GitLogLaws

  /** Fields with a separator between them. */
  function Joined(fields: seq<string>, c: char): string
    requires |fields| > 0
  {
    if |fields| == 1 then fields[0] else fields[0] + [c] + Joined(fields[1..], c)
  }

  /** Only the last field may hold a separator, and only where the splitting stops. */
  ghost predicate Splittable(fields: seq<string>, c: char, most: nat) {
    && 0 < |fields| <= most + 1
    && (forall i :: 0 <= i < |fields| - 1 ==> c !in fields[i])
    && (|fields| == most + 1 || c !in fields[|fields| - 1])
  }

  lemma {:induction false} FieldsSplit(fields: seq<string>, c: char, most: nat)
    requires Splittable(fields, c, most)
    ensures SplitAt(Joined(fields, c), c, most) == fields
  {
    hide SplitAt;
    if |fields| == 1 {
      SplitNoMore(fields[0], c, most);
    } else {
      FieldsSplit(fields[1..], c, most - 1);
      SplitOnce(fields[0], c, Joined(fields[1..], c), most);
    }
  }

  lemma {:induction false} JoinedIsLong(fields: seq<string>, c: char)
    requires |fields| > 0
    ensures |Joined(fields, c)| >= |fields| - 1
  {
    if |fields| == 1 {
    } else {
      JoinedIsLong(fields[1..], c);
    }
  }

  // ------------------------------------------------------------ one line

  /** The fields of a header line, which all begin with a C and a separator. */
  ghost predicate HeaderFields(fields: seq<string>) {
    |fields| >= 2 && fields[0] == "C" && Splittable(fields, SEP, 5)
  }

  /** Seconds outside the years 1 to 9999. */
  predicate OutOfRange(seconds: int) {
    seconds < -62135596800 || 253402300799 < seconds
  }

  /** What a header line is refused for. */
  ghost function HeaderRefusal(fields: seq<string>, tools: Tools): Option<ScanError> {
    if |fields| < 6 then Some(TooFewFields)
    else match tools.int_(fields[2])
      case None => Some(NotAnInteger)
      case Some(seconds) => if OutOfRange(seconds) then Some(TimeOutOfRange) else None
  }

  lemma HeaderByFields(scan: Scan, fields: seq<string>, repo: string, w: Window, tools: Tools)
    requires HeaderFields(fields)
    ensures var line := Joined(fields, SEP);
            && IsHeader(line)
            && Header(scan, line, repo, w, tools)
               == match HeaderRefusal(fields, tools)
                  case Some(e) => Err(e)
                  case None =>
                    var seconds := tools.int_(fields[2]).value;
                    if w.start <= 1000000 * seconds < w.end
                    then Ok(Scan(scan.commits + [Commit(fields[1], repo, seconds, fields[3], fields[5],
                                                        BeadId(fields[5], fields[4], tools),
                                                        Lines(0, 0, 0), Lines(0, 0, 0), false)], true))
                    else Ok(Scan(scan.commits, false))
  {
    FieldsSplit(fields, SEP, 5);
    hide SplitAt, BeadId;
    var line := Joined(fields, SEP);
    assert line[0] == 'C' && line[1] == SEP;
  }

  /** The count in a numstat field; None if it is no integer. */
  function Count(field: string, tools: Tools): Option<int> {
    if field == "-" then Some(0) else tools.int_(field)
  }

  /** The scan after crediting these counts to its last commit, field by field. */
  function AfterEntry(scan: Scan, a: int, d: int, excluded: bool): Scan
    requires |scan.commits| > 0
  {
    var last := |scan.commits| - 1;
    var c := scan.commits[last];
    var raw := Lines(c.raw.added + a, c.raw.deleted + d, c.raw.files + 1);
    var kept := if excluded then c.kept else Lines(c.kept.added + a, c.kept.deleted + d, c.kept.files + 1);
    Scan(scan.commits[..last] + [c.(raw := raw, kept := kept)], scan.open)
  }

  lemma CreditIsTheEntry(scan: Scan, a: int, d: int, excluded: bool)
    requires |scan.commits| > 0
    ensures var last := |scan.commits| - 1;
            scan.(commits := scan.commits[last := Credit(scan.commits[last], Lines(a, d, 1), excluded)])
            == AfterEntry(scan, a, d, excluded)
  {
    var last := |scan.commits| - 1;
    var c := Credit(scan.commits[last], Lines(a, d, 1), excluded);
    assert scan.commits[last := c] == scan.commits[..last] + [c];
  }

  lemma NumstatByParts(scan: Scan, line: string, fields: seq<string>, tools: Tools)
    requires scan.open ==> |scan.commits| > 0
    requires Split(line, '\t') == fields && (|fields| == 3 ==> line != "")
    ensures if |fields| != 3 || !scan.open then Numstat(scan, line, tools) == Ok(scan)
            else if Count(fields[0], tools).None? || Count(fields[1], tools).None?
            then Numstat(scan, line, tools) == Err(NotAnInteger)
            else Numstat(scan, line, tools)
                 == Ok(AfterEntry(scan, Count(fields[0], tools).value, Count(fields[1], tools).value,
                                  tools.excluded(fields[2])))
  {
    hide Split, Credit, AfterEntry;
    if |fields| == 3 && scan.open && Count(fields[0], tools).Some? && Count(fields[1], tools).Some? {
      CreditIsTheEntry(scan, Count(fields[0], tools).value, Count(fields[1], tools).value, tools.excluded(fields[2]));
    }
  }

  /**
   Any other line: ignored unless it has three fields and follows a header in
   the window; then both counts must be integers, and they are credited.
   */
  lemma NumstatByFields(scan: Scan, fields: seq<string>, tools: Tools)
    requires scan.open ==> |scan.commits| > 0
    requires |fields| > 0 && forall i :: 0 <= i < |fields| ==> '\t' !in fields[i]
    ensures var line := Joined(fields, '\t');
            if |fields| != 3 || !scan.open then Numstat(scan, line, tools) == Ok(scan)
            else if Count(fields[0], tools).None? || Count(fields[1], tools).None?
            then Numstat(scan, line, tools) == Err(NotAnInteger)
            else Numstat(scan, line, tools)
                 == Ok(AfterEntry(scan, Count(fields[0], tools).value, Count(fields[1], tools).value,
                                  tools.excluded(fields[2])))
  {
    JoinedIsLong(fields, '\t');
    FieldsSplit(fields, '\t', |Joined(fields, '\t')|);
    hide SplitAt, Joined, Numstat, AfterEntry, Count;
    NumstatByParts(scan, Joined(fields, '\t'), fields, tools);
  }

  // ------------------------------------------------------------ the whole log

  lemma FailsHere(before: seq<string>, line: string, after: seq<string>, repo: string, w: Window, tools: Tools,
                  scan: Scan, e: ScanError)
    requires ScanOf(before, repo, w, tools) == Ok(scan)
    requires (if IsHeader(line) then Header(scan, line, repo, w, tools) else Numstat(scan, line, tools)) == Err(e)
    ensures CommitsOf(ScanOf(before + [line] + after, repo, w, tools)) == Err(e)
  {
    hide Header, Numstat, IsHeader;
    var lines, k := before + [line] + after, |before| + 1;
    assert lines[..k] == before + [line] && (before + [line])[..|before|] == before;
    FailuresPersist(lines, k, repo, w, tools);
  }

  /** A scan that has gone well fails at a header with a refused field, whatever follows. */
  lemma BrokenHeaderFails(before: seq<string>, fields: seq<string>, after: seq<string>, repo: string, w: Window,
                          tools: Tools)
    requires ScanOf(before, repo, w, tools).Ok? && HeaderFields(fields) && HeaderRefusal(fields, tools).Some?
    ensures CommitsOf(ScanOf(before + [Joined(fields, SEP)] + after, repo, w, tools))
         == Err(HeaderRefusal(fields, tools).value)
  {
    assert |fields| > 0;
    hide ScanOf, Header, HeaderRefusal, HeaderFields;
    var scan := ScanOf(before, repo, w, tools).value;
    HeaderByFields(scan, fields, repo, w, tools);
    FailsHere(before, Joined(fields, SEP), after, repo, w, tools, scan, HeaderRefusal(fields, tools).value);
  }

  /** And at an entry of a commit in the window one of whose counts is no integer. */
  lemma BrokenCountFails(before: seq<string>, fields: seq<string>, after: seq<string>, repo: string, w: Window,
                         tools: Tools)
    requires ScanOf(before, repo, w, tools).Ok? && ScanOf(before, repo, w, tools).value.open
    requires |fields| == 3 && (forall i :: 0 <= i < 3 ==> '\t' !in fields[i]) && !IsHeader(Joined(fields, '\t'))
    requires Count(fields[0], tools).None? || Count(fields[1], tools).None?
    ensures CommitsOf(ScanOf(before + [Joined(fields, '\t')] + after, repo, w, tools)) == Err(NotAnInteger)
  {
    hide ScanOf, IsHeader;
    var scan := ScanOf(before, repo, w, tools).value;
    NumstatByFields(scan, fields, tools);
    hide Numstat;
    FailsHere(before, Joined(fields, '\t'), after, repo, w, tools, scan, NotAnInteger);
  }
}

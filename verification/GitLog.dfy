/**
 Scanning `git log --numstat` output (src/gitscan.py:509-576).

 The scanner is a line machine with one mutable record, `cur`. `ScanOf` runs it;
 what a run means is stated for every text in module GitLogSections, and for
 logs as git writes them in module GitLogLaws.
 Integer parsing, path exclusion and the subject's regular expression enter as
 functions.
 */
module GitLog {
  import opened Prelude
  import opened Window
  import opened Events
  import opened Commits
  import opened TextLines

  const SEP := '\U{1f}'

  /** What the module takes from elsewhere: `int`, `p.search` over the patterns, the subject's scope. */
  datatype Tools = Tools(int_: string -> Option<int>, excluded: string -> bool, scope: string -> Option<string>)

  datatype ScanError = TooFewFields | NotAnInteger | TimeOutOfRange

  // ------------------------------------------------------------ text

  /** The characters `str.splitlines` breaks at. */
  predicate Break(c: char) {
    var p := c as int;
    0xA <= p <= 0xD || 0x1C <= p <= 0x1E || p == 0x85 || p == 0x2028 || p == 0x2029
  }

  predicate Unbroken(s: string) {
    forall i :: 0 <= i < |s| ==> !Break(s[i])
  }

  function LineEnd(text: string): (k: nat)
    ensures k <= |text| && Unbroken(text[..k]) && (k < |text| ==> Break(text[k]))
  {
    if text == "" || Break(text[0]) then 0 else 1 + LineEnd(text[1..])
  }

  /** `text.splitlines()` */
  function SplitLines(text: string): seq<string>
    decreases |text|
  {
    if text == "" then []
    else
      var k := LineEnd(text);
      if k == |text| then [text]
      else if text[k] == '\r' && k + 1 < |text| && text[k + 1] == '\n' then [text[..k]] + SplitLines(text[k + 2..])
      else [text[..k]] + SplitLines(text[k + 1..])
  }

  function Find(s: string, c: char): (k: nat)
    ensures k <= |s| && c !in s[..k] && (k < |s| ==> s[k] == c)
  {
    if s == "" || s[0] == c then 0 else 1 + Find(s[1..], c)
  }

  /** `s.split(c, most)` */
  function SplitAt(s: string, c: char, most: nat): (parts: seq<string>)
    ensures 1 <= |parts| <= most + 1
  {
    if most == 0 || c !in s then [s] else [s[..Find(s, c)]] + SplitAt(s[Find(s, c) + 1..], c, most - 1)
  }

  /** `s.split(c)`: no string has more separators than characters. */
  function Split(s: string, c: char): seq<string> {
    SplitAt(s, c, |s|)
  }

  /** `s.strip()` */
  function Strip(s: string): string {
    if s == "" then ""
    else if Space(s[0]) then Strip(s[1..])
    else if Space(s[|s| - 1]) then Strip(s[..|s| - 1])
    else s
  }

  // ------------------------------------------------------------ the machine

  /** `_bead_id_from` */
  function BeadId(subject: string, trailer: string, tools: Tools): Option<string> {
    if Strip(trailer) != "" then Some(Strip(trailer)) else tools.scope(subject)
  }

  predicate IsHeader(line: string) {
    |line| >= 2 && line[0] == 'C' && line[1] == SEP
  }

  /** The seconds `datetime.fromtimestamp` accepts in UTC: years 1 to 9999. */
  predicate Datable(seconds: int) {
    -62135596800 <= seconds <= 253402300799
  }

  /** `cur` is the last of `commits` while `open`, and None otherwise. */
  datatype Scan = Scan(commits: seq<Commit>, open: bool)

  function Header(scan: Scan, line: string, repo: string, w: Window, tools: Tools): Result<Scan, ScanError> {
    var parts := SplitAt(line, SEP, 5);
    if |parts| != 6 then Err(TooFewFields)
    else match tools.int_(parts[2])
      case None => Err(NotAnInteger)
      case Some(ts) =>
        if !Datable(ts) then Err(TimeOutOfRange)
        else if !ContainsEpoch(w, ts) then Ok(Scan(scan.commits, false))
        else
          var c := Commit(parts[1], repo, ts, parts[3], parts[5], BeadId(parts[5], parts[4], tools),
                          NO_LINES, NO_LINES, false);
          Ok(Scan(scan.commits + [c], true))
  }

  /** `-` stands for a binary file's missing count. */
  function CountOf(field: string, tools: Tools): Option<int> {
    if field == "-" then Some(0) else tools.int_(field)
  }

  function Credit(c: Commit, n: Lines, excluded: bool): Commit {
    c.(raw := Plus(c.raw, n), kept := if excluded then c.kept else Plus(c.kept, n))
  }

  function Numstat(scan: Scan, line: string, tools: Tools): Result<Scan, ScanError>
    requires scan.open ==> |scan.commits| > 0
  {
    var parts := Split(line, '\t');
    if line == "" || !scan.open || |parts| != 3 then Ok(scan)
    else match (CountOf(parts[0], tools), CountOf(parts[1], tools))
      case (Some(a), Some(d)) =>
        var last := |scan.commits| - 1;
        Ok(scan.(commits := scan.commits[last := Credit(scan.commits[last], Lines(a, d, 1), tools.excluded(parts[2]))]))
      case _ => Err(NotAnInteger)
  }

  function ScanOf(lines: seq<string>, repo: string, w: Window, tools: Tools): (r: Result<Scan, ScanError>)
    ensures r.Ok? && r.value.open ==> |r.value.commits| > 0
  {
    if |lines| == 0 then Ok(Scan([], false))
    else
      match ScanOf(lines[..|lines| - 1], repo, w, tools)
      case Err(e) => Err(e)
      case Ok(scan) =>
        var line := lines[|lines| - 1];
        if IsHeader(line) then Header(scan, line, repo, w, tools) else Numstat(scan, line, tools)
  }

  function CommitsOf(scanned: Result<Scan, ScanError>): Result<seq<Commit>, ScanError> {
    match scanned
    case Ok(scan) => Ok(scan.commits)
    case Err(e) => Err(e)
  }

  lemma {:induction false} FailuresPersist(lines: seq<string>, i: nat, repo: string, w: Window, tools: Tools)
    requires i <= |lines| && ScanOf(lines[..i], repo, w, tools).Err?
    ensures ScanOf(lines, repo, w, tools) == ScanOf(lines[..i], repo, w, tools)
  {
    if i < |lines| {
      assert lines[..|lines| - 1][..i] == lines[..i];
      FailuresPersist(lines[..|lines| - 1], i, repo, w, tools);
    } else {
      assert lines[..i] == lines;
    }
  }

  /** `scan_commits`, given git's output. */
  method ScanCommits(text: string, repo: string, w: Window, tools: Tools) returns (r: Result<seq<Commit>, ScanError>)
    ensures r == CommitsOf(ScanOf(SplitLines(text), repo, w, tools))
  {
    hide SplitLines, SplitAt, Split, IsHeader, BeadId, CountOf, Credit;
    var lines := SplitLines(text);
    var commits: seq<Commit> := [];
    var open := false;
    for i := 0 to |lines|
      invariant ScanOf(lines[..i], repo, w, tools) == Ok(Scan(commits, open))
      invariant open ==> |commits| > 0
    {
      var line := lines[i];
      assert lines[..i + 1][..i] == lines[..i];
      if IsHeader(line) {
        var parts := SplitAt(line, SEP, 5);
        if |parts| != 6 {
          FailuresPersist(lines, i + 1, repo, w, tools);
          return Err(TooFewFields);
        }
        open := false;
        var ts := tools.int_(parts[2]);
        if ts.None? {
          FailuresPersist(lines, i + 1, repo, w, tools);
          return Err(NotAnInteger);
        }
        if !Datable(ts.value) {
          FailuresPersist(lines, i + 1, repo, w, tools);
          return Err(TimeOutOfRange);
        }
        if !ContainsEpoch(w, ts.value) {
          continue;
        }
        open := true;
        commits := commits + [Commit(parts[1], repo, ts.value, parts[3], parts[5], BeadId(parts[5], parts[4], tools),
            NO_LINES, NO_LINES, false)];
      } else if line != "" && open {
        var parts := Split(line, '\t');
        if |parts| != 3 {
          continue;
        }
        var a, d := CountOf(parts[0], tools), CountOf(parts[1], tools);
        if a.None? || d.None? {
          FailuresPersist(lines, i + 1, repo, w, tools);
          return Err(NotAnInteger);
        }
        var last := |commits| - 1;
        commits := commits[last := Credit(commits[last], Lines(a.value, d.value, 1), tools.excluded(parts[2]))];
      }
    }
    assert lines[..|lines|] == lines;
    return Ok(commits);
  }

  /** `mark_bulk`: one flag per commit, written in place. */
  method MarkBulk(commits: array<Commit>, maxLines: int, maxFiles: int)
    modifies commits
    ensures commits[..] == BulkMarked(old(commits[..]), maxLines, maxFiles)
    // by the filtered counts, whatever the raw ones are
    ensures forall i :: 0 <= i < commits.Length ==>
              && commits[i] == old(commits[i]).(isBulk := commits[i].isBulk)
              && (commits[i].isBulk <==> || old(commits[i]).kept.added + old(commits[i]).kept.deleted > maxLines
                                         || old(commits[i]).kept.files > maxFiles)
  {
    for i := 0 to commits.Length
      invariant forall j :: 0 <= j < i ==>
                  commits[j] == old(commits[j]).(isBulk := Bulk(old(commits[j]), maxLines, maxFiles))
      invariant forall j :: i <= j < commits.Length ==> commits[j] == old(commits[j])
    {
      var c := commits[i];
      commits[i] := c.(isBulk := c.kept.added + c.kept.deleted > maxLines || c.kept.files > maxFiles);
    }
  }

  predicate Bulk(c: Commit, maxLines: int, maxFiles: int) {
    c.kept.added + c.kept.deleted > maxLines || c.kept.files > maxFiles
  }

  function BulkMarked(cs: seq<Commit>, maxLines: int, maxFiles: int): (out: seq<Commit>)
    ensures |out| == |cs|
    ensures forall i :: 0 <= i < |cs| ==> out[i] == cs[i].(isBulk := Bulk(cs[i], maxLines, maxFiles))
  {
    seq(|cs|, i requires 0 <= i < |cs| => cs[i].(isBulk := Bulk(cs[i], maxLines, maxFiles)))
  }
}

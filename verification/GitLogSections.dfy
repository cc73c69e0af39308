/**
 What the scanner makes of any text (src/gitscan.py:533-576).

 Lines fall into sections: a header and the lines up to the next one. A scan
 gives one commit for each section inside the window, with the sums of that
 section's lines, and it fails exactly at a header or an owned count that does
 not parse.
 */
module GitLogSections {
  import opened Prelude
  import opened Window
  import opened Events
  import opened Commits
  import opened GitLog

  // ------------------------------------------------------------ sections

  /** Where the last section's body begins: after the last header, or at the start. */
  function BodyStart(lines: seq<string>): (k: nat)
    ensures k <= |lines|
    ensures k > 0 ==> IsHeader(lines[k - 1])
    ensures forall i :: k <= i < |lines| ==> !IsHeader(lines[i])
  {
    if |lines| == 0 then 0
    else if IsHeader(lines[|lines| - 1]) then |lines|
    else BodyStart(lines[..|lines| - 1])
  }

  /** The commit a header begins, or nothing if it is out of the window or unreadable. */
  function Begun(header: string, repo: string, w: Window, tools: Tools): seq<Commit> {
    match Header(Scan([], false), header, repo, w, tools)
    case Ok(scan) => scan.commits
    case Err(_) => []
  }

  /** The counts on a numstat line; None for any other line. */
  function CountsOn(line: string, tools: Tools): Option<(Lines, bool)> {
    var parts := Split(line, '\t');
    if line == "" || |parts| != 3 then None
    else match (CountOf(parts[0], tools), CountOf(parts[1], tools))
      case (Some(a), Some(d)) => Some((Lines(a, d, 1), tools.excluded(parts[2])))
      case _ => None
  }

  /** Sums over a body, of all its entries or only of those on paths that are not excluded. */
  function BodySum(body: seq<string>, all: bool, tools: Tools): Lines {
    if |body| == 0 then NO_LINES
    else
      var before := BodySum(body[..|body| - 1], all, tools);
      match CountsOn(body[|body| - 1], tools)
      case None => before
      case Some((n, excluded)) => if all || !excluded then Plus(before, n) else before
  }

  function Section(header: string, body: seq<string>, repo: string, w: Window, tools: Tools): seq<Commit> {
    var begun := Begun(header, repo, w, tools);
    if |begun| == 0 then [] else [begun[0].(raw := BodySum(body, true, tools), kept := BodySum(body, false, tools))]
  }

  /** One commit for each section inside the window, in order. */
  function SectionCommits(lines: seq<string>, repo: string, w: Window, tools: Tools): seq<Commit> {
    var k := BodyStart(lines);
    if k == 0 then []
    else SectionCommits(lines[..k - 1], repo, w, tools) + Section(lines[k - 1], lines[k..], repo, w, tools)
  }

  /** The section that the next line would join has a commit. */
  predicate Owned(lines: seq<string>, repo: string, w: Window, tools: Tools) {
    var k := BodyStart(lines);
    k > 0 && |Begun(lines[k - 1], repo, w, tools)| > 0
  }

  /** A header must parse; a line of three fields must hold counts, if its section has a commit. */
  predicate Readable(before: seq<string>, line: string, repo: string, w: Window, tools: Tools) {
    if IsHeader(line) then Header(Scan([], false), line, repo, w, tools).Ok?
    else !Owned(before, repo, w, tools) || line == "" || |Split(line, '\t')| != 3 || CountsOn(line, tools).Some?
  }

  predicate AllReadable(lines: seq<string>, repo: string, w: Window, tools: Tools) {
    forall i :: 0 <= i < |lines| ==> Readable(lines[..i], lines[i], repo, w, tools)
  }

  // ------------------------------------------------------------ the scan in sections

  lemma HeaderAnywhere(scan: Scan, line: string, repo: string, w: Window, tools: Tools)
    ensures Header(scan, line, repo, w, tools).Ok? <==> Header(Scan([], false), line, repo, w, tools).Ok?
    ensures Header(scan, line, repo, w, tools).Ok? ==>
              var begun := Begun(line, repo, w, tools);
              |begun| <= 1 && Header(scan, line, repo, w, tools) == Ok(Scan(scan.commits + begun, |begun| > 0))
    ensures forall c :: c in Begun(line, repo, w, tools) ==> c.raw == c.kept == NO_LINES && ContainsEpoch(w, c.ts)
  {
    hide SplitAt, BeadId;
    assert scan.commits + [] == scan.commits;
    var parts := SplitAt(line, SEP, 5);
    if |parts| == 6 && tools.int_(parts[2]).Some? {
      var c := Commit(parts[1], repo, tools.int_(parts[2]).value, parts[3], parts[5],
                      BeadId(parts[5], parts[4], tools), NO_LINES, NO_LINES, false);
      assert [] + [c] == [c];
    }
  }

  lemma SectionGrows(header: string, body: seq<string>, line: string, repo: string, w: Window, tools: Tools)
    ensures var before := Section(header, body, repo, w, tools);
            Section(header, body + [line], repo, w, tools)
            == if |before| == 0 then []
               else match CountsOn(line, tools)
                 case None => before
                 case Some((n, excluded)) => [Credit(before[0], n, excluded)]
  {
    hide Begun, CountsOn;
    assert (body + [line])[..|body|] == body;
  }

  /** What the machine knows: the sections so far, and whether the last one has a commit. */
  ghost predicate AtSections(scan: Scan, lines: seq<string>, repo: string, w: Window, tools: Tools) {
    scan.commits == SectionCommits(lines, repo, w, tools) && (scan.open <==> Owned(lines, repo, w, tools))
  }

  lemma HeaderStep(scan: Scan, lines: seq<string>, line: string, repo: string, w: Window, tools: Tools)
    requires AtSections(scan, lines, repo, w, tools) && IsHeader(line)
    ensures Header(scan, line, repo, w, tools).Ok? <==> Readable(lines, line, repo, w, tools)
    ensures Header(scan, line, repo, w, tools).Ok? ==>
              AtSections(Header(scan, line, repo, w, tools).value, lines + [line], repo, w, tools)
  {
    hide Header, IsHeader, Begun;
    HeaderAnywhere(scan, line, repo, w, tools);
    var longer := lines + [line];
    BegunIsPlain(line, repo, w, tools);
    assert BodyStart(longer) == |longer| && longer[..|lines|] == lines && longer[|longer|..] == [];
  }

  lemma BegunIsPlain(line: string, repo: string, w: Window, tools: Tools)
    ensures Section(line, [], repo, w, tools) == Begun(line, repo, w, tools)
  {
    hide Begun;
    HeaderAnywhere(Scan([], false), line, repo, w, tools);
    var begun := Begun(line, repo, w, tools);
    if |begun| > 0 {
      assert begun[0] in begun;
      BegunIsShort(line, repo, w, tools);
      assert begun == [begun[0]];
    }
  }

  lemma BegunIsShort(line: string, repo: string, w: Window, tools: Tools)
    ensures |Begun(line, repo, w, tools)| <= 1
  {
    hide SplitAt, BeadId;
  }

  lemma NumstatStep(scan: Scan, lines: seq<string>, line: string, repo: string, w: Window, tools: Tools)
    requires AtSections(scan, lines, repo, w, tools) && !IsHeader(line) && (scan.open ==> |scan.commits| > 0)
    ensures Numstat(scan, line, tools).Ok? <==> Readable(lines, line, repo, w, tools)
    ensures Numstat(scan, line, tools).Ok? ==>
              AtSections(Numstat(scan, line, tools).value, lines + [line], repo, w, tools)
  {
    hide IsHeader, Begun, Split, CountOf, Credit, BodySum;
    var longer, k := lines + [line], BodyStart(lines);
    assert longer[..|lines|] == lines && BodyStart(longer) == k;
    if k > 0 {
      assert longer[..k - 1] == lines[..k - 1] && longer[k - 1] == lines[k - 1] && longer[k..] == lines[k..] + [line];
      SectionGrows(lines[k - 1], lines[k..], line, repo, w, tools);
    }
  }

  /**
   For any text at all: a scan succeeds exactly if every header parses and every
   count that a commit owns does, and its commits are those of the sections.
   */
  lemma {:induction false} ScanIsItsSections(lines: seq<string>, repo: string, w: Window, tools: Tools)
    ensures ScanOf(lines, repo, w, tools).Ok? <==> AllReadable(lines, repo, w, tools)
    ensures ScanOf(lines, repo, w, tools).Ok? ==> AtSections(ScanOf(lines, repo, w, tools).value, lines, repo, w, tools)
  {
    hide Header, Numstat, Readable, IsHeader, AtSections;
    if |lines| == 0 {
      NothingScanned(repo, w, tools);
    } else {
      var n := |lines| - 1;
      ScanIsItsSections(lines[..n], repo, w, tools);
      ReadableToTheEnd(lines, repo, w, tools);
      assert lines == lines[..n] + [lines[n]];
      if ScanOf(lines[..n], repo, w, tools).Ok? {
        var scan := ScanOf(lines[..n], repo, w, tools).value;
        if IsHeader(lines[n]) {
          HeaderStep(scan, lines[..n], lines[n], repo, w, tools);
        } else {
          NumstatStep(scan, lines[..n], lines[n], repo, w, tools);
        }
      }
    }
  }

  lemma NothingScanned(repo: string, w: Window, tools: Tools)
    ensures AtSections(Scan([], false), [], repo, w, tools) && AllReadable([], repo, w, tools)
  {}

  lemma ReadableToTheEnd(lines: seq<string>, repo: string, w: Window, tools: Tools)
    requires |lines| > 0
    ensures var n := |lines| - 1;
            AllReadable(lines, repo, w, tools)
            <==> AllReadable(lines[..n], repo, w, tools) && Readable(lines[..n], lines[n], repo, w, tools)
  {
    hide Readable;
    var n := |lines| - 1;
    forall i | 0 <= i < n ensures lines[..n][..i] == lines[..i] {}
    if AllReadable(lines[..n], repo, w, tools) && Readable(lines[..n], lines[n], repo, w, tools) {
      forall i | 0 <= i < |lines| ensures Readable(lines[..i], lines[i], repo, w, tools) {
        if i < n {
          assert Readable(lines[..n][..i], lines[..n][i], repo, w, tools);
        }
      }
    }
    if AllReadable(lines, repo, w, tools) {
      forall i | 0 <= i < n ensures Readable(lines[..n][..i], lines[..n][i], repo, w, tools) {
        assert Readable(lines[..i], lines[i], repo, w, tools);
      }
      assert lines[..n][..] == lines[..n];
    }
  }

  // ------------------------------------------------------------ filtered within raw

  /** Numstat counts are natural numbers, as git writes them. */
  predicate NaturalCounts(lines: seq<string>, tools: Tools) {
    forall i :: 0 <= i < |lines| && CountsOn(lines[i], tools).Some? ==>
      var n := CountsOn(lines[i], tools).value.0; n.added >= 0 && n.deleted >= 0
  }

  lemma {:induction false} SumsNest(body: seq<string>, tools: Tools)
    requires NaturalCounts(body, tools)
    ensures Within(BodySum(body, false, tools), BodySum(body, true, tools))
  {
    hide CountsOn;
    if |body| == 0 {
    } else {
      var n := |body| - 1;
      assert forall i :: 0 <= i < n ==> body[..n][i] == body[i];
      SumsNest(body[..n], tools);
      CountsAreOneFile(body[n], tools);
    }
  }

  lemma CountsAreOneFile(line: string, tools: Tools)
    ensures CountsOn(line, tools).Some? ==> CountsOn(line, tools).value.0.files == 1
  {
    hide Split, CountOf;
  }

  lemma {:induction false} SectionsNest(lines: seq<string>, repo: string, w: Window, tools: Tools)
    requires NaturalCounts(lines, tools)
    ensures forall c :: c in SectionCommits(lines, repo, w, tools) ==> Within(c.kept, c.raw) && ContainsEpoch(w, c.ts)
    decreases |lines|
  {
    hide CountsOn, Begun, Header;
    var k := BodyStart(lines);
    if k == 0 {
    } else {
      assert forall i :: 0 <= i < k - 1 ==> lines[..k - 1][i] == lines[i];
      assert forall i :: 0 <= i < |lines| - k ==> lines[k..][i] == lines[k + i];
      SectionsNest(lines[..k - 1], repo, w, tools);
      SumsNest(lines[k..], tools);
      HeaderAnywhere(Scan([], false), lines[k - 1], repo, w, tools);
    }
  }

  /** Whatever text was scanned, filtered counts never exceed raw ones, before or after the bulk flags are set. */
  lemma {:induction false} ScannedCountsNest(lines: seq<string>, repo: string, w: Window, tools: Tools, maxLines: int,
                                             maxFiles: int)
    requires NaturalCounts(lines, tools) && ScanOf(lines, repo, w, tools).Ok?
    ensures var cs := ScanOf(lines, repo, w, tools).value.commits;
            && (forall c :: c in cs ==> Within(c.kept, c.raw) && ContainsEpoch(w, c.ts))
            && (forall c :: c in BulkMarked(cs, maxLines, maxFiles) ==> Within(c.kept, c.raw) && ContainsEpoch(w, c.ts))
  {
    hide NaturalCounts, ScanOf;
    ScanIsItsSections(lines, repo, w, tools);
    SectionsNest(lines, repo, w, tools);
    var cs := ScanOf(lines, repo, w, tools).value.commits;
    forall c | c in BulkMarked(cs, maxLines, maxFiles) ensures Within(c.kept, c.raw) && ContainsEpoch(w, c.ts) {
      var i :| 0 <= i < |cs| && c == cs[i].(isBulk := Bulk(cs[i], maxLines, maxFiles));
      assert cs[i] in cs;
    }
  }
}

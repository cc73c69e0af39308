/**
 What git writes is what the scanner reads (src/gitscan.py:533-564).

 `Render` writes commits in the `_PRETTY` and numstat layout; scanning the text
 gives back the commits inside the window, in order, each with its own entries
 and nobody else's.
 */
module GitLogLaws {
  import opened Prelude
  import opened Window
  import opened Events
  import opened Commits
  import opened TextLines
  import opened GitLog

  /** A changed path; None is git's `-` for a binary file. */
  datatype Entry = Entry(added: Option<nat>, deleted: Option<nat>, path: string)

  /** A logged commit and the number of empty lines that follow it. */
  datatype Logged = Logged(sha: string, ts: int, email: string, trailer: string, subject: string, entries: seq<Entry>,
      blanks: nat)

  // ------------------------------------------------------------ writing

  function ShowNat(n: nat): (s: string)
    ensures s != "" && forall i :: 0 <= i < |s| ==> '0' <= s[i] <= '9'
  {
    var digit := [('0' as int + n % 10) as char];
    if n < 10 then digit else ShowNat(n / 10) + digit
  }

  function Show(n: int): string {
    if n < 0 then "-" + ShowNat(-n) else ShowNat(n)
  }

  function HeaderLine(r: Logged): string {
    var stamped := Show(r.ts) + [SEP] + (r.email + [SEP] + (r.trailer + [SEP] + r.subject));
    "C" + [SEP] + (r.sha + [SEP] + stamped)
  }

  function Field(n: Option<nat>): string {
    if n.Some? then ShowNat(n.value) else "-"
  }

  function EntryLine(e: Entry): string {
    Field(e.added) + ['\t'] + (Field(e.deleted) + ['\t'] + e.path)
  }

  function EntryLines(es: seq<Entry>): seq<string> {
    if |es| == 0 then [] else EntryLines(es[..|es| - 1]) + [EntryLine(es[|es| - 1])]
  }

  function Blanks(n: nat): seq<string> {
    if n == 0 then [] else Blanks(n - 1) + [""]
  }

  /** One commit: its header, its entries, any number of empty lines. */
  function Block(r: Logged): seq<string> {
    [HeaderLine(r)] + EntryLines(r.entries) + Blanks(r.blanks)
  }

  function LogLines(rs: seq<Logged>): seq<string> {
    if |rs| == 0 then [] else LogLines(rs[..|rs| - 1]) + Block(rs[|rs| - 1])
  }

  function Terminated(lines: seq<string>): string {
    if |lines| == 0 then "" else lines[0] + "\n" + Terminated(lines[1..])
  }

  /** Lines as text; the last one may lack its terminator if there is anything on it. */
  function TextOf(lines: seq<string>, ended: bool): string {
    var n := |lines| - 1;
    if ended || |lines| == 0 || lines[n] == "" then Terminated(lines) else Terminated(lines[..n]) + lines[n]
  }

  function Render(rs: seq<Logged>, ended: bool): string {
    TextOf(LogLines(rs), ended)
  }

  /** No line break anywhere, no separator before the subject, no tab in a path; a date Python can hold. */
  predicate Clean(r: Logged) {
    && SEP !in r.sha && SEP !in r.email && SEP !in r.trailer
    && Unbroken(r.sha) && Unbroken(r.email) && Unbroken(r.trailer) && Unbroken(r.subject)
    && Datable(r.ts)
    && forall e :: e in r.entries ==> '\t' !in e.path && Unbroken(e.path)
  }

  /** `int` reads decimal numerals. */
  ghost predicate ReadsNumerals(tools: Tools) {
    forall n: int :: tools.int_(Show(n)) == Some(n)
  }

  // ------------------------------------------------------------ what it should be read as

  function LinesOf(e: Entry): Lines {
    Lines(if e.added.Some? then e.added.value else 0, if e.deleted.Some? then e.deleted.value else 0, 1)
  }

  function RawTotal(es: seq<Entry>): Lines {
    if |es| == 0 then Lines(0, 0, 0)
    else
      var raw, n := RawTotal(es[..|es| - 1]), LinesOf(es[|es| - 1]);
      Lines(raw.added + n.added, raw.deleted + n.deleted, raw.files + 1)
  }

  function KeptTotal(es: seq<Entry>, tools: Tools): Lines {
    if |es| == 0 then Lines(0, 0, 0)
    else
      var kept, n := KeptTotal(es[..|es| - 1], tools), LinesOf(es[|es| - 1]);
      if tools.excluded(es[|es| - 1].path) then kept
      else Lines(kept.added + n.added, kept.deleted + n.deleted, kept.files + 1)
  }

  /** `t` is `s` without the white space around it. */
  ghost predicate Trimmed(s: string, t: string) {
    exists i, j :: && 0 <= i <= j <= |s| && t == s[i..j] && Blank(s[..i]) && Blank(s[j..])
                   && (t != "" ==> !Space(t[0]) && !Space(t[|t| - 1]))
  }

  lemma {:induction false} StripHolds(s: string, i: nat, j: nat) returns (k: nat, m: nat)
    requires i <= j <= |s| && Blank(s[..i]) && Blank(s[j..])
    ensures i <= k <= m <= j && Strip(s[i..j]) == s[k..m] && Blank(s[..k]) && Blank(s[m..])
    ensures k < m ==> !Space(s[k]) && !Space(s[m - 1])
    decreases j - i
  {
    hide Space;
    var t := s[i..j];
    if i == j {
      k, m := i, j;
    } else if Space(s[i]) {
      assert t[1..] == s[i + 1..j] && s[..i + 1] == s[..i] + [s[i]];
      k, m := StripHolds(s, i + 1, j);
    } else if Space(s[j - 1]) {
      assert t[..|t| - 1] == s[i..j - 1] && s[j - 1..] == [s[j - 1]] + s[j..];
      k, m := StripHolds(s, i, j - 1);
    } else {
      k, m := i, j;
    }
  }

  /** White space all the way, or a first and last visible character. */
  lemma StripTrims(s: string)
    ensures Trimmed(s, Strip(s)) && (Strip(s) == "" <==> Blank(s))
  {
    var k, m := StripHolds(s, 0, |s|);
    assert s[0..|s|] == s;
    hide Space, Strip;
    TrimmedSlice(s, k, m);
  }

  lemma TrimmedSlice(s: string, k: nat, m: nat)
    requires k <= m <= |s| && Blank(s[..k]) && Blank(s[m..]) && (k < m ==> !Space(s[k]) && !Space(s[m - 1]))
    ensures Trimmed(s, s[k..m]) && (s[k..m] == "" <==> Blank(s))
  {
    hide Space;
    var t := s[k..m];
    if k == m {
      assert s == s[..k] + s[m..];
    } else {
      assert t[0] == s[k] && t[|t| - 1] == s[m - 1];
    }
  }

  /**
   The trailer names the bead if there is anything visible in it, without the
   white space around it; only otherwise does the subject matter.
   */
  lemma TrailerComesFirst(subject: string, trailer: string, tools: Tools)
    ensures Blank(trailer) ==> BeadId(subject, trailer, tools) == tools.scope(subject)
    ensures !Blank(trailer) ==>
              && BeadId(subject, trailer, tools).Some? && BeadId(subject, trailer, tools).value != ""
              && Trimmed(trailer, BeadId(subject, trailer, tools).value)
  {
    StripTrims(trailer);
    hide Strip, Blank, Trimmed;
  }

  function AsCommit(r: Logged, repo: string, tools: Tools): Commit {
    Commit(r.sha, repo, r.ts, r.email, r.subject, BeadId(r.subject, r.trailer, tools),
           KeptTotal(r.entries, tools), RawTotal(r.entries), false)
  }

  function Expected(rs: seq<Logged>, repo: string, w: Window, tools: Tools): seq<Commit> {
    if |rs| == 0 then []
    else
      var r := rs[|rs| - 1];
      Expected(rs[..|rs| - 1], repo, w, tools) + (if ContainsEpoch(w, r.ts) then [AsCommit(r, repo, tools)] else [])
  }

  // ------------------------------------------------------------ lines and fields

  lemma {:induction false} LineEndOf(a: string, b: string)
    requires Unbroken(a)
    ensures LineEnd(a + "\n" + b) == |a|
  {
    var t := a + "\n" + b;
    if a == "" {
    } else {
      assert t[1..] == a[1..] + "\n" + b;
      assert Unbroken(a[1..]);
      LineEndOf(a[1..], b);
    }
  }

  lemma {:induction false} FindOf(a: string, c: char, b: string)
    requires c !in a
    ensures Find(a + [c] + b, c) == |a|
  {
    var t := a + [c] + b;
    if a == "" {
    } else {
      assert t[1..] == a[1..] + [c] + b;
      FindOf(a[1..], c, b);
    }
  }

  lemma {:induction false} TerminatedLinesSplit(lines: seq<string>, tail: string)
    requires forall i :: 0 <= i < |lines| ==> Unbroken(lines[i])
    ensures SplitLines(Terminated(lines) + tail) == lines + SplitLines(tail)
  {
    if |lines| == 0 {
      assert "" + tail == tail;
    } else {
      hide SplitLines, Unbroken, Terminated;
      TerminatedLinesSplit(lines[1..], tail);
      SplitsOff(lines[0], Terminated(lines[1..]) + tail);
      FirstTerminated(lines, tail);
      FirstApart(lines, SplitLines(tail));
    }
  }

  lemma FirstTerminated(lines: seq<string>, tail: string)
    requires |lines| > 0
    ensures Terminated(lines) + tail == lines[0] + "\n" + (Terminated(lines[1..]) + tail)
  {}

  lemma FirstApart<T>(xs: seq<T>, ys: seq<T>)
    requires |xs| > 0
    ensures xs + ys == [xs[0]] + (xs[1..] + ys)
  {}

  lemma SplitsOff(line: string, rest: string)
    requires Unbroken(line)
    ensures SplitLines(line + "\n" + rest) == [line] + SplitLines(rest)
  {
    var t := line + "\n" + rest;
    LineEndOf(line, rest);
    assert t[..|line|] == line && t[|line| + 1..] == rest && t[|line|] == '\n';
  }

  lemma {:induction false} UnbrokenIsOneLine(line: string)
    requires Unbroken(line)
    ensures LineEnd(line) == |line| && (line != "" ==> SplitLines(line) == [line])
  {
    if line == "" {
    } else {
      UnbrokenIsOneLine(line[1..]);
    }
  }

  /** Splitting undoes writing for lines that hold no break, terminated to the last or not. */
  lemma TextSplits(lines: seq<string>, ended: bool)
    requires forall i :: 0 <= i < |lines| ==> Unbroken(lines[i])
    ensures SplitLines(TextOf(lines, ended)) == lines
  {
    hide SplitLines, Terminated, Unbroken;
    NoTextNoLines();
    var n := |lines| - 1;
    if ended || |lines| == 0 || lines[n] == "" {
      TerminatedLinesSplit(lines, "");
      assert Terminated(lines) + "" == Terminated(lines) && lines + [] == lines;
    } else {
      TerminatedLinesSplit(lines[..n], lines[n]);
      UnbrokenIsOneLine(lines[n]);
      assert lines == lines[..n] + [lines[n]];
    }
  }

  lemma NoTextNoLines()
    ensures SplitLines("") == []
  {}

  lemma SplitOnce(a: string, c: char, b: string, most: nat)
    requires c !in a && most > 0
    ensures SplitAt(a + [c] + b, c, most) == [a] + SplitAt(b, c, most - 1)
  {
    var s := a + [c] + b;
    FindOf(a, c, b);
    assert s[|a|] == c;
    assert s[..|a|] == a && s[|a| + 1..] == b;
  }

  lemma SplitNoMore(a: string, c: char, most: nat)
    requires most == 0 || c !in a
    ensures SplitAt(a, c, most) == [a]
  {}

  lemma ShowIsPlain(n: int, c: char)
    requires c != '-' && !('0' <= c <= '9')
    ensures c !in Show(n)
  {}

  lemma HeaderSplits(r: Logged)
    requires SEP !in r.sha && SEP !in r.email && SEP !in r.trailer
    ensures SplitAt(HeaderLine(r), SEP, 5) == ["C", r.sha, Show(r.ts), r.email, r.trailer, r.subject]
  {
    hide SplitAt, Show;
    ShowIsPlain(r.ts, SEP);
    var e := r.trailer + [SEP] + r.subject;
    var d := r.email + [SEP] + e;
    var c := Show(r.ts) + [SEP] + d;
    var b := r.sha + [SEP] + c;
    SplitNoMore(r.subject, SEP, 0);
    SplitOnce(r.trailer, SEP, r.subject, 1);
    SplitOnce(r.email, SEP, e, 2);
    assert SplitAt(d, SEP, 2) == [r.email, r.trailer, r.subject];
    SplitOnce(Show(r.ts), SEP, d, 3);
    assert SplitAt(c, SEP, 3) == [Show(r.ts), r.email, r.trailer, r.subject];
    SplitOnce(r.sha, SEP, c, 4);
    assert SplitAt(b, SEP, 4) == [r.sha, Show(r.ts), r.email, r.trailer, r.subject];
    SplitOnce("C", SEP, b, 5);
    assert HeaderLine(r) == "C" + [SEP] + b;
  }

  lemma HeadersAreHeaders(r: Logged)
    ensures IsHeader(HeaderLine(r))
  {
    hide Show;
  }

  lemma EntrySplits(e: Entry)
    requires '\t' !in e.path
    ensures Split(EntryLine(e), '\t') == [Field(e.added), Field(e.deleted), e.path]
  {
    hide SplitAt, Field;
    FieldIsPlain(e.added);
    FieldIsPlain(e.deleted);
    var s := EntryLine(e);
    var rest := Field(e.deleted) + ['\t'] + e.path;
    SplitNoMore(e.path, '\t', |s| - 2);
    SplitOnce(Field(e.deleted), '\t', e.path, |s| - 1);
    assert s == Field(e.added) + ['\t'] + rest;
    SplitOnce(Field(e.added), '\t', rest, |s|);
  }

  lemma FieldIsPlain(n: Option<nat>)
    ensures Field(n) != "" && Field(n)[0] != 'C' && '\t' !in Field(n) && Unbroken(Field(n))
  {}

  lemma EntriesAreNoHeaders(e: Entry)
    ensures EntryLine(e) != "" && !IsHeader(EntryLine(e))
  {
    hide Field;
    FieldIsPlain(e.added);
    assert EntryLine(e)[0] == Field(e.added)[0];
  }

  lemma UnbrokenJoins(a: string, b: string)
    requires Unbroken(a) && Unbroken(b)
    ensures Unbroken(a + b)
  {
    hide Break;
  }

  lemma CountsReadBack(n: Option<nat>, tools: Tools)
    requires ReadsNumerals(tools)
    ensures CountOf(Field(n), tools) == Some(if n.Some? then n.value else 0)
  {
    if n.Some? {
      assert ShowNat(n.value) == Show(n.value);
      assert ShowNat(n.value)[0] != '-';
    }
  }

  // ------------------------------------------------------------ one block

  lemma NextLine(lines: seq<string>, line: string, repo: string, w: Window, tools: Tools, scan: Scan)
    requires ScanOf(lines, repo, w, tools) == Ok(scan)
    ensures scan.open ==> |scan.commits| > 0
    ensures ScanOf(lines + [line], repo, w, tools)
         == if IsHeader(line) then Header(scan, line, repo, w, tools) else Numstat(scan, line, tools)
  {
    assert (lines + [line])[..|lines|] == lines;
  }

  /** A commit with these entries credited to it. */
  function Credited(c: Commit, es: seq<Entry>, tools: Tools): Commit {
    c.(raw := Plus(c.raw, RawTotal(es)), kept := Plus(c.kept, KeptTotal(es, tools)))
  }

  function CreditLast(scan: Scan, es: seq<Entry>, tools: Tools): Scan
    requires scan.open ==> |scan.commits| > 0
  {
    if !scan.open then scan
    else
      var last := |scan.commits| - 1;
      scan.(commits := scan.commits[last := Credited(scan.commits[last], es, tools)])
  }

  lemma CreditOneMore(scan: Scan, es: seq<Entry>, e: Entry, tools: Tools)
    requires scan.open ==> |scan.commits| > 0
    requires '\t' !in e.path && ReadsNumerals(tools)
    ensures Numstat(CreditLast(scan, es, tools), EntryLine(e), tools) == Ok(CreditLast(scan, es + [e], tools))
  {
    hide EntryLine, Split, ReadsNumerals, CountOf, Field, Credit, Credited, RawTotal, KeptTotal;
    EntrySplits(e);
    EntriesAreNoHeaders(e);
    CountsReadBack(e.added, tools);
    CountsReadBack(e.deleted, tools);
    if scan.open {
      var last := |scan.commits| - 1;
      CreditAddsUp(scan.commits[last], es, e, tools);
      assert CreditLast(scan, es, tools).commits[last := Credited(scan.commits[last], es + [e], tools)]
          == scan.commits[last := Credited(scan.commits[last], es + [e], tools)];
    }
  }

  lemma CreditAddsUp(c: Commit, es: seq<Entry>, e: Entry, tools: Tools)
    ensures Credit(Credited(c, es, tools), LinesOf(e), tools.excluded(e.path)) == Credited(c, es + [e], tools)
  {
    assert (es + [e])[..|es|] == es;
  }

  lemma CreditNothing(scan: Scan, tools: Tools)
    requires scan.open ==> |scan.commits| > 0
    ensures CreditLast(scan, [], tools) == scan
  {
    if scan.open {
      var c := scan.commits[|scan.commits| - 1];
      assert Credited(c, [], tools) == c;
    }
  }

  lemma {:induction false} EntriesScan(lines: seq<string>, es: seq<Entry>, repo: string, w: Window, tools: Tools,
                                       scan: Scan)
    requires ScanOf(lines, repo, w, tools) == Ok(scan) && ReadsNumerals(tools)
    requires forall e :: e in es ==> '\t' !in e.path
    ensures scan.open ==> |scan.commits| > 0
    ensures ScanOf(lines + EntryLines(es), repo, w, tools) == Ok(CreditLast(scan, es, tools))
  {
    hide ScanOf, Numstat, IsHeader, EntryLine, ReadsNumerals;
    ScanIsOpenOnSomething(lines, repo, w, tools);
    if |es| == 0 {
      assert lines + [] == lines;
      CreditNothing(scan, tools);
    } else {
      var n := |es| - 1;
      var e := es[n];
      EntriesScan(lines, es[..n], repo, w, tools, scan);
      assert e in es;
      EntriesAreNoHeaders(e);
      NextLine(lines + EntryLines(es[..n]), EntryLine(e), repo, w, tools, CreditLast(scan, es[..n], tools));
      CreditOneMore(scan, es[..n], e, tools);
      assert es == es[..n] + [e];
      assert lines + EntryLines(es) == lines + EntryLines(es[..n]) + [EntryLine(e)];
    }
  }

  lemma ScanIsOpenOnSomething(lines: seq<string>, repo: string, w: Window, tools: Tools)
    ensures var r := ScanOf(lines, repo, w, tools); r.Ok? && r.value.open ==> |r.value.commits| > 0
  {}

  /** The machine just after a header. */
  function Started(scan: Scan, r: Logged, repo: string, w: Window, tools: Tools): Scan {
    var c := Commit(r.sha, repo, r.ts, r.email, r.subject, BeadId(r.subject, r.trailer, tools),
                    NO_LINES, NO_LINES, false);
    if ContainsEpoch(w, r.ts) then Scan(scan.commits + [c], true) else Scan(scan.commits, false)
  }

  lemma HeaderStarts(scan: Scan, r: Logged, repo: string, w: Window, tools: Tools)
    requires ReadsNumerals(tools) && Clean(r)
    ensures Header(scan, HeaderLine(r), repo, w, tools) == Ok(Started(scan, r, repo, w, tools))
  {
    hide SplitAt, HeaderLine, BeadId, Show;
    HeaderSplits(r);
  }

  lemma EntriesFill(scan: Scan, r: Logged, repo: string, w: Window, tools: Tools)
    ensures CreditLast(Started(scan, r, repo, w, tools), r.entries, tools).commits
         == scan.commits + (if ContainsEpoch(w, r.ts) then [AsCommit(r, repo, tools)] else [])
  {
    hide BeadId, RawTotal, KeptTotal;
    assert scan.commits + [] == scan.commits;
    if ContainsEpoch(w, r.ts) {
      var c := Started(scan, r, repo, w, tools).commits[|scan.commits|];
      assert Credited(c, r.entries, tools) == AsCommit(r, repo, tools);
    }
  }

  lemma {:induction false} BlanksScan(lines: seq<string>, n: nat, repo: string, w: Window, tools: Tools, scan: Scan)
    requires ScanOf(lines, repo, w, tools) == Ok(scan)
    ensures ScanOf(lines + Blanks(n), repo, w, tools) == Ok(scan)
  {
    hide ScanOf;
    if n == 0 {
      assert lines + [] == lines;
    } else {
      BlanksScan(lines, n - 1, repo, w, tools, scan);
      NextLine(lines + Blanks(n - 1), "", repo, w, tools, scan);
      EmptyIsNoHeader();
      assert lines + Blanks(n) == lines + Blanks(n - 1) + [""];
    }
  }

  lemma BlockScans(lines: seq<string>, r: Logged, repo: string, w: Window, tools: Tools, scan: Scan)
    requires ScanOf(lines, repo, w, tools) == Ok(scan) && ReadsNumerals(tools) && Clean(r)
    ensures ScanOf(lines + Block(r), repo, w, tools).Ok?
    ensures ScanOf(lines + Block(r), repo, w, tools).value.commits
         == scan.commits + (if ContainsEpoch(w, r.ts) then [AsCommit(r, repo, tools)] else [])
  {
    hide ScanOf, IsHeader, HeaderLine, Header, EntryLines, Started, CreditLast, AsCommit, ReadsNumerals, Blanks;
    HeadersAreHeaders(r);
    NextLine(lines, HeaderLine(r), repo, w, tools, scan);
    HeaderStarts(scan, r, repo, w, tools);
    var begun := lines + [HeaderLine(r)];
    var started := Started(scan, r, repo, w, tools);
    EntriesScan(begun, r.entries, repo, w, tools, started);
    var filled := CreditLast(started, r.entries, tools);
    BlanksScan(begun + EntryLines(r.entries), r.blanks, repo, w, tools, filled);
    EntriesFill(scan, r, repo, w, tools);
    assert lines + Block(r) == begun + EntryLines(r.entries) + Blanks(r.blanks);
  }

  lemma EmptyIsNoHeader()
    ensures !IsHeader("")
  {}

  // ------------------------------------------------------------ the whole log

  lemma {:induction false} BlocksScan(rs: seq<Logged>, repo: string, w: Window, tools: Tools)
    requires ReadsNumerals(tools) && forall r :: r in rs ==> Clean(r)
    ensures CommitsOf(ScanOf(LogLines(rs), repo, w, tools)) == Ok(Expected(rs, repo, w, tools))
  {
    hide ReadsNumerals, Clean, Block, AsCommit, Header, Numstat;
    if |rs| == 0 {
    } else {
      var n := |rs| - 1;
      BlocksScan(rs[..n], repo, w, tools);
      BlockScans(LogLines(rs[..n]), rs[n], repo, w, tools, ScanOf(LogLines(rs[..n]), repo, w, tools).value);
    }
  }

  lemma EntryLineIsUnbroken(e: Entry)
    requires Unbroken(e.path)
    ensures Unbroken(EntryLine(e))
  {
    hide Unbroken, Field;
    FieldIsPlain(e.added);
    FieldIsPlain(e.deleted);
    PunctuationIsUnbroken();
    UnbrokenJoins("\t", e.path);
    UnbrokenJoins(Field(e.deleted), "\t" + e.path);
    UnbrokenJoins("\t", Field(e.deleted) + ("\t" + e.path));
    UnbrokenJoins(Field(e.added), "\t" + (Field(e.deleted) + ("\t" + e.path)));
    assert EntryLine(e) == Field(e.added) + ("\t" + (Field(e.deleted) + ("\t" + e.path)));
  }

  lemma PunctuationIsUnbroken()
    ensures Unbroken("\t") && Unbroken([SEP]) && Unbroken("C") && Unbroken("")
  {}

  lemma ShowIsUnbroken(n: int)
    ensures Unbroken(Show(n))
  {}

  lemma HeaderIsUnbroken(r: Logged)
    requires Clean(r)
    ensures Unbroken(HeaderLine(r))
  {
    hide Unbroken, Show;
    PunctuationIsUnbroken();
    ShowIsUnbroken(r.ts);
    var e := r.trailer + [SEP] + r.subject;
    UnbrokenJoins(r.trailer, [SEP]);
    UnbrokenJoins(r.trailer + [SEP], r.subject);
    UnbrokenJoins(r.email, [SEP]);
    UnbrokenJoins(r.email + [SEP], e);
    var d := r.email + [SEP] + e;
    UnbrokenJoins(Show(r.ts), [SEP]);
    UnbrokenJoins(Show(r.ts) + [SEP], d);
    var c := Show(r.ts) + [SEP] + d;
    UnbrokenJoins(r.sha, [SEP]);
    UnbrokenJoins(r.sha + [SEP], c);
    UnbrokenJoins("C", [SEP]);
    UnbrokenJoins("C" + [SEP], r.sha + [SEP] + c);
    assert HeaderLine(r) == "C" + [SEP] + (r.sha + [SEP] + c);
  }

  lemma {:induction false} EntryLinesAreUnbroken(es: seq<Entry>)
    requires forall e :: e in es ==> Unbroken(e.path)
    ensures forall i :: 0 <= i < |EntryLines(es)| ==> Unbroken(EntryLines(es)[i])
  {
    hide Unbroken, EntryLine;
    if |es| == 0 {
    } else {
      EntryLinesAreUnbroken(es[..|es| - 1]);
      assert es[|es| - 1] in es;
      EntryLineIsUnbroken(es[|es| - 1]);
    }
  }

  lemma {:induction false} BlanksAreUnbroken(n: nat)
    ensures forall i :: 0 <= i < |Blanks(n)| ==> Unbroken(Blanks(n)[i])
  {
    if n == 0 {
    } else {
      BlanksAreUnbroken(n - 1);
    }
  }

  lemma {:induction false} LogLinesAreUnbroken(rs: seq<Logged>)
    requires forall r :: r in rs ==> Clean(r)
    ensures forall i :: 0 <= i < |LogLines(rs)| ==> Unbroken(LogLines(rs)[i])
  {
    hide Unbroken, EntryLines, HeaderLine, Blanks;
    if |rs| == 0 {
    } else {
      var r := rs[|rs| - 1];
      LogLinesAreUnbroken(rs[..|rs| - 1]);
      assert r in rs;
      HeaderIsUnbroken(r);
      EntryLinesAreUnbroken(r.entries);
      BlanksAreUnbroken(r.blanks);
    }
  }

  /** Scanning undoes writing, up to the window. */
  lemma LogRoundTrip(rs: seq<Logged>, ended: bool, repo: string, w: Window, tools: Tools)
    requires ReadsNumerals(tools) && forall r :: r in rs ==> Clean(r)
    ensures CommitsOf(ScanOf(SplitLines(Render(rs, ended)), repo, w, tools)) == Ok(Expected(rs, repo, w, tools))
  {
    hide ScanOf, SplitLines, Clean, ReadsNumerals, LogLines, TextOf;
    LogLinesAreUnbroken(rs);
    TextSplits(LogLines(rs), ended);
    BlocksScan(rs, repo, w, tools);
  }

  // ------------------------------------------------------------ a broken subject

  lemma {:induction false} LineEndPast(a: string, b: string)
    requires Unbroken(a)
    ensures LineEnd(a + b) == |a| + LineEnd(b)
  {
    if a == "" {
      assert a + b == b;
    } else {
      assert (a + b)[1..] == a[1..] + b;
      LineEndPast(a[1..], b);
    }
  }

  lemma {:induction false} BreakWithin(a: string, b: string)
    requires !Unbroken(a)
    ensures LineEnd(a + b) == LineEnd(a) < |a|
  {
    if Break(a[0]) {
      assert (a + b)[0] == a[0];
    } else {
      assert (a + b)[1..] == a[1..] + b;
      UnbrokenTail(a);
      BreakWithin(a[1..], b);
    }
  }

  lemma UnbrokenTail(a: string)
    requires a != "" && !Break(a[0])
    ensures Unbroken(a) <==> Unbroken(a[1..])
  {
    hide Break;
    assert forall i :: 0 <= i < |a| - 1 ==> a[1..][i] == a[i + 1];
    if Unbroken(a[1..]) {
      forall i | 0 <= i < |a| ensures !Break(a[i]) {
        assert i > 0 ==> a[1..][i - 1] == a[i];
      }
    }
  }

  lemma FirstLine(text: string)
    requires text != ""
    ensures |SplitLines(text)| > 0 && SplitLines(text)[0] == text[..LineEnd(text)]
  {
    assert LineEnd(text) == |text| ==> text[..LineEnd(text)] == text;
  }

  /** Later lines credit commits and add to them, but rename none. */
  lemma {:induction false} SubjectsStay(lines: seq<string>, k: nat, m: nat, repo: string, w: Window, tools: Tools)
    requires k <= |lines| && ScanOf(lines[..k], repo, w, tools).Ok? && ScanOf(lines, repo, w, tools).Ok?
    requires m < |ScanOf(lines[..k], repo, w, tools).value.commits|
    ensures m < |ScanOf(lines, repo, w, tools).value.commits|
    ensures ScanOf(lines, repo, w, tools).value.commits[m].subject
         == ScanOf(lines[..k], repo, w, tools).value.commits[m].subject
  {
    if |lines| == k {
      assert lines[..k] == lines;
    } else {
      var n := |lines| - 1;
      assert lines[..n][..k] == lines[..k];
      SubjectsStay(lines[..n], k, m, repo, w, tools);
      NextLineKeepsSubjects(ScanOf(lines[..n], repo, w, tools).value, lines[n], m, repo, w, tools);
    }
  }

  lemma NextLineKeepsSubjects(scan: Scan, line: string, m: nat, repo: string, w: Window, tools: Tools)
    requires m < |scan.commits|
    ensures var next := if IsHeader(line) then Header(scan, line, repo, w, tools) else Numstat(scan, line, tools);
            next.Ok? ==> m < |next.value.commits| && next.value.commits[m].subject == scan.commits[m].subject
  {
    hide SplitAt, Split, CountOf, BeadId, IsHeader;
  }

  // ------------------------------------------------------------ parts of a log

  lemma {:induction false} LogLinesJoin(xs: seq<Logged>, ys: seq<Logged>)
    ensures LogLines(xs + ys) == LogLines(xs) + LogLines(ys)
  {
    hide Block;
    if |ys| == 0 {
      assert xs + ys == xs;
    } else {
      var n := |ys| - 1;
      assert (xs + ys)[..|xs + ys| - 1] == xs + ys[..n];
      LogLinesJoin(xs, ys[..n]);
    }
  }

  lemma {:induction false} ExpectedJoin(xs: seq<Logged>, ys: seq<Logged>, repo: string, w: Window, tools: Tools)
    ensures Expected(xs + ys, repo, w, tools) == Expected(xs, repo, w, tools) + Expected(ys, repo, w, tools)
  {
    hide AsCommit;
    if |ys| == 0 {
      assert xs + ys == xs;
    } else {
      var n := |ys| - 1;
      assert (xs + ys)[..|xs + ys| - 1] == xs + ys[..n];
      ExpectedJoin(xs, ys[..n], repo, w, tools);
    }
  }

  lemma {:induction false} TerminatedJoin(a: seq<string>, b: seq<string>)
    ensures Terminated(a + b) == Terminated(a) + Terminated(b)
  {
    if |a| == 0 {
      assert a + b == b;
    } else {
      TerminatedJoin(a[1..], b);
      FirstTerminated(a, Terminated(b));
      FirstTerminated(a + b, "");
      assert (a + b)[1..] == a[1..] + b;
      hide Terminated;
      assert forall s: string :: s + "" == s;
    }
  }

  lemma TextJoin(a: seq<string>, b: seq<string>, ended: bool)
    requires |b| > 0
    ensures TextOf(a + b, ended) == Terminated(a) + TextOf(b, ended)
  {
    hide Terminated;
    var n := |b| - 1;
    TerminatedJoin(a, b);
    TerminatedJoin(a, b[..n]);
    assert (a + b)[..|a + b| - 1] == a + b[..n];
  }

  /** A text begins with its first line. */
  lemma TextBegins(line: string, more: seq<string>, ended: bool) returns (tail: string)
    requires line != ""
    ensures TextOf([line] + more, ended) == line + tail
  {
    var lines, n := [line] + more, |more|;
    assert lines[1..] == more;
    if ended || lines[n] == "" {
      tail := "\n" + Terminated(more);
    } else if n == 0 {
      tail := "";
      assert lines[..0] == [];
    } else {
      assert lines[..n][1..] == more[..n - 1];
      tail := "\n" + Terminated(more[..n - 1]) + lines[n];
    }
  }

  // ------------------------------------------------------------ broken subjects

  /** Every field plain but perhaps the subject. */
  predicate PlainButSubject(r: Logged) {
    Clean(r.(subject := ""))
  }

  function UpToBreak(r: Logged): Logged {
    r.(subject := r.subject[..LineEnd(r.subject)])
  }

  /** The text of a block whose subject is broken: its first line ends where the subject first breaks. */
  lemma BrokenBlock(r: Logged, more: seq<string>, ended: bool)
    requires PlainButSubject(r) && !Unbroken(r.subject)
    ensures var lines := SplitLines(TextOf(Block(r) + more, ended));
            && Clean(UpToBreak(r)) && LineEnd(r.subject) < |r.subject|
            && |lines| > 0 && lines[0] == HeaderLine(UpToBreak(r))
  {
    hide SplitLines, Unbroken, Show, TextOf, EntryLines, Blanks, HeaderLine;
    BreakWithin(r.subject, "");
    assert r.subject + "" == r.subject;
    var head := HeaderLine(r.(subject := ""));
    HeaderIsUnbroken(r.(subject := ""));
    HeaderEndsInSubject(r);
    HeaderEndsInSubject(UpToBreak(r));
    HeadersAreHeaders(r);
    var rest := EntryLines(r.entries) + Blanks(r.blanks) + more;
    assert Block(r) + more == [HeaderLine(r)] + rest;
    var tail := TextBegins(HeaderLine(r), rest, ended);
    var text := head + (r.subject + tail);
    assert HeaderLine(r) + tail == text;
    LineEndPast(head, r.subject + tail);
    BreakWithin(r.subject, tail);
    HeaderIsText(r.(subject := ""));
    FirstLine(text);
    assert text[..|head| + LineEnd(r.subject)] == head + r.subject[..LineEnd(r.subject)];
  }

  lemma HeaderEndsInSubject(r: Logged)
    ensures HeaderLine(r) == HeaderLine(r.(subject := "")) + r.subject
  {
    hide Show;
  }

  lemma HeaderIsText(r: Logged)
    ensures HeaderLine(r) != ""
  {
    hide Show;
  }

  /** A scan of the plain commits before a broken one, and of its cut header. */
  lemma CutHeaderScans(rs: seq<Logged>, cut: Logged, repo: string, w: Window, tools: Tools)
    requires ReadsNumerals(tools) && (forall r :: r in rs ==> Clean(r)) && Clean(cut) && ContainsEpoch(w, cut.ts)
    ensures var r := ScanOf(LogLines(rs) + [HeaderLine(cut)], repo, w, tools);
            && r.Ok? && |r.value.commits| == |Expected(rs, repo, w, tools)| + 1
            && r.value.commits[|Expected(rs, repo, w, tools)|].subject == cut.subject
  {
    hide ScanOf, Header, HeaderLine, IsHeader, ReadsNumerals, Clean;
    BlocksScan(rs, repo, w, tools);
    var scan := ScanOf(LogLines(rs), repo, w, tools).value;
    NextLine(LogLines(rs), HeaderLine(cut), repo, w, tools, scan);
    HeadersAreHeaders(cut);
    HeaderStarts(scan, cut, repo, w, tools);
  }

  /** The first broken subject of a log is read back cut, in its place. */
  lemma BrokenLogScans(rs: seq<Logged>, i: nat, ended: bool, repo: string, w: Window, tools: Tools)
    requires ReadsNumerals(tools) && i < |rs| && (forall j :: 0 <= j < i ==> Clean(rs[j]))
    requires PlainButSubject(rs[i]) && !Unbroken(rs[i].subject) && ContainsEpoch(w, rs[i].ts)
    ensures CommitsOf(ScanOf(SplitLines(Render(rs, ended)), repo, w, tools)) != Ok(Expected(rs, repo, w, tools))
  {
    hide ScanOf, SplitLines, Terminated, TextOf, Clean, HeaderLine, Block, Unbroken, ReadsNumerals, LogLines,
         Expected, PlainButSubject;
    var r, before := rs[i], rs[..i];
    var more := LogLines(rs[i + 1..]);
    assert rs == before + ([r] + rs[i + 1..]);
    OneBlock(r);
    LogLinesJoin([r], rs[i + 1..]);
    LogLinesJoin(before, [r] + rs[i + 1..]);
    BlockIsSome(r, more);
    TextJoin(LogLines(before), Block(r) + more, ended);
    LogLinesAreUnbroken(before);
    TerminatedLinesSplit(LogLines(before), TextOf(Block(r) + more, ended));
    BrokenBlock(r, more, ended);
    var rest := SplitLines(TextOf(Block(r) + more, ended));
    var lines := LogLines(before) + rest;
    assert SplitLines(Render(rs, ended)) == lines;
    CutHeaderScans(before, UpToBreak(r), repo, w, tools);
    var k, m := |LogLines(before)| + 1, |Expected(before, repo, w, tools)|;
    assert lines[..k] == LogLines(before) + [HeaderLine(UpToBreak(r))];
    ExpectedJoin([r], rs[i + 1..], repo, w, tools);
    ExpectedJoin(before, [r] + rs[i + 1..], repo, w, tools);
    OneExpected(r, repo, w, tools);
    if ScanOf(lines, repo, w, tools).Ok? {
      SubjectsStay(lines, k, m, repo, w, tools);
      assert |UpToBreak(r).subject| < |r.subject|;
      assert Expected(rs, repo, w, tools)[m] == AsCommit(r, repo, tools);
    }
  }

  lemma OneBlock(r: Logged)
    ensures LogLines([r]) == Block(r)
  {
    assert [r][..0] == [];
  }

  lemma BlockIsSome(r: Logged, more: seq<string>)
    ensures |Block(r) + more| > 0
  {}

  lemma OneExpected(r: Logged, repo: string, w: Window, tools: Tools)
    requires ContainsEpoch(w, r.ts)
    ensures Expected([r], repo, w, tools) == [AsCommit(r, repo, tools)]
  {
    assert Expected([r][..0], repo, w, tools) == [];
  }

  ghost predicate InWindowUnbroken(rs: seq<Logged>, w: Window) {
    forall r :: r in rs && ContainsEpoch(w, r.ts) ==> Unbroken(r.subject)
  }

  lemma {:induction false} FirstBroken(rs: seq<Logged>, w: Window) returns (i: nat)
    requires !InWindowUnbroken(rs, w)
    ensures i < |rs| && ContainsEpoch(w, rs[i].ts) && !Unbroken(rs[i].subject)
    ensures forall j :: 0 <= j < i && ContainsEpoch(w, rs[j].ts) ==> Unbroken(rs[j].subject)
  {
    hide Unbroken;
    var n := |rs| - 1;
    assert |rs| > 0;
    if InWindowUnbroken(rs[..n], w) {
      i := n;
      assert rs == rs[..n] + [rs[n]];
      assert forall j :: 0 <= j < n ==> rs[j] in rs[..n];
    } else {
      i := FirstBroken(rs[..n], w);
    }
  }

  /**
   Of a whole log that is plain up to the subjects inside the window, the round
   trip holds exactly if none of these has one of the breaks of
   `str.splitlines`: otherwise the first broken one is cut where it breaks.
   */
  lemma LogRoundTripIff(rs: seq<Logged>, ended: bool, repo: string, w: Window, tools: Tools)
    requires ReadsNumerals(tools)
    requires forall r :: r in rs ==> PlainButSubject(r) && (ContainsEpoch(w, r.ts) || Clean(r))
    ensures CommitsOf(ScanOf(SplitLines(Render(rs, ended)), repo, w, tools)) == Ok(Expected(rs, repo, w, tools))
       <==> InWindowUnbroken(rs, w)
  {
    hide ScanOf, SplitLines, Render, ReadsNumerals, Expected;
    if InWindowUnbroken(rs, w) {
      LogRoundTrip(rs, ended, repo, w, tools);
    } else {
      var i := FirstBroken(rs, w);
      forall j | 0 <= j < i ensures Clean(rs[j]) {
        assert rs[j] in rs;
      }
      BrokenLogScans(rs, i, ended, repo, w, tools);
    }
  }

  /** The same of a single commit. */
  lemma SubjectRoundTripIff(r: Logged, ended: bool, repo: string, w: Window, tools: Tools)
    requires ReadsNumerals(tools) && PlainButSubject(r) && ContainsEpoch(w, r.ts)
    ensures CommitsOf(ScanOf(SplitLines(Render([r], ended)), repo, w, tools)) == Ok([AsCommit(r, repo, tools)])
       <==> Unbroken(r.subject)
  {
    hide ScanOf, SplitLines, Render, ReadsNumerals, PlainButSubject, Unbroken, AsCommit;
    OneExpected(r, repo, w, tools);
    LogRoundTripIff([r], ended, repo, w, tools);
    assert r in [r];
  }

  /** A subject with U+2028, which git passes on, is such a one. */
  lemma LineSeparatorBreaksASubject(r: Logged, ended: bool, repo: string, w: Window, tools: Tools)
    requires ReadsNumerals(tools) && PlainButSubject(r) && ContainsEpoch(w, r.ts)
    requires r.subject == "a\U{2028}b"
    ensures CommitsOf(ScanOf(SplitLines(Render([r], ended)), repo, w, tools)) != Ok([AsCommit(r, repo, tools)])
  {
    assert Break(r.subject[1]);
    SubjectRoundTripIff(r, ended, repo, w, tools);
  }
}

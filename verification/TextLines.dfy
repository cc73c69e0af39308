/** Text as lines: `text.split("\n")` and `line.strip()` (src/beads.py:128, 194-196). */
module TextLines {
  import opened Prelude

  /** The code points `str.strip` removes. */
  predicate Space(c: char) {
    var p := c as int;
    || 0x9 <= p <= 0xD || 0x1C <= p <= 0x20 || p == 0x85 || p == 0xA0 || p == 0x1680
    || 0x2000 <= p <= 0x200A || p == 0x2028 || p == 0x2029 || p == 0x202F || p == 0x205F || p == 0x3000
  }

  predicate Blank(line: string) {
    forall i :: 0 <= i < |line| ==> Space(line[i])
  }

  /** `text.split("\n")` */
  function Lines(text: string): (lines: seq<string>)
    ensures |lines| > 0
  {
    if |text| == 0 then [""]
    else
      var n := |text| - 1;
      var before := Lines(text[..n]);
      if text[n] == '\n' then before + [""]
      else before[..|before| - 1] + [before[|before| - 1] + [text[n]]]
  }

  /** `"\n".join(lines)` */
  function Join(lines: seq<string>): string
    requires |lines| > 0
  {
    if |lines| == 1 then lines[0] else Join(lines[..|lines| - 1]) + "\n" + lines[|lines| - 1]
  }

  function LastLine(text: string): string {
    var lines := Lines(text);
    lines[|lines| - 1]
  }

  function CountRecords(lines: seq<string>): nat {
    if |lines| == 0 then 0
    else CountRecords(lines[..|lines| - 1]) + (if Blank(lines[|lines| - 1]) then 0 else 1)
  }

  /** `sum(1 for line in text.split("\n") if line.strip())` */
  function RecordCount(text: string): nat {
    CountRecords(Lines(text))
  }

  // ------------------------------------------------------------ records by position

  /** The first visible character of a line. */
  predicate RecordStart(text: string, p: nat)
    requires p < |text|
  {
    !Space(text[p]) && Blank(LastLine(text[..p]))
  }

  function Starts(text: string): set<nat> {
    set p | 0 <= p < |text| && RecordStart(text, p)
  }

  lemma OneMoreCharacter(text: string, c: char)
    ensures RecordCount(text + [c]) == RecordCount(text) + (if !Space(c) && Blank(LastLine(text)) then 1 else 0)
  {
    var longer := text + [c];
    assert longer[..|text|] == text;
    var before := Lines(text);
    var n := |before| - 1;
    if c == '\n' {
      assert Lines(longer)[..|before|] == before;
    } else {
      assert Lines(longer) == before[..n] + [before[n] + [c]];
      assert Lines(longer)[..n] == before[..n];
      BlankGrows(before[n], c);
    }
  }

  lemma BlankGrows(line: string, c: char)
    ensures Blank(line + [c]) <==> Blank(line) && Space(c)
  {
    if Blank(line + [c]) {
      assert Space((line + [c])[|line|]);
      forall i | 0 <= i < |line| ensures Space(line[i]) {
        assert (line + [c])[i] == line[i];
      }
    }
  }

  /** Records are counted once each, at the character that starts them. */
  lemma {:induction false} RecordsAreStarts(text: string)
    ensures RecordCount(text) == |Starts(text)|
  {
    hide Space;
    if |text| == 0 {
      assert Starts(text) == {};
      assert Blank("");
      assert RecordCount(text) == CountRecords([""]) == CountRecords([""][..0]) + 0;
    } else {
      var n := |text| - 1;
      assert text == text[..n] + [text[n]];
      RecordsAreStarts(text[..n]);
      OneMoreCharacter(text[..n], text[n]);
      StartsOfPrefix(text, n);
      var last: set<nat> := if RecordStart(text, n) then {n} else {};
      assert Starts(text) == Starts(text[..n]) + last;
    }
  }

  lemma StartsOfPrefix(text: string, k: nat)
    requires k <= |text|
    ensures forall p :: p in Starts(text[..k]) <==> p in Starts(text) && p < k
  {
    hide Space, Blank;
    forall p: nat | p < k ensures RecordStart(text[..k], p) <==> RecordStart(text, p) {
      assert text[..k][..p] == text[..p];
    }
  }

  /** A cut loses records exactly when one starts at or after it. */
  lemma TruncationLosesRecords(text: string, k: nat)
    requires k <= |text|
    ensures RecordCount(text[..k]) <= RecordCount(text)
    ensures RecordCount(text[..k]) == RecordCount(text) <==> forall p :: k <= p < |text| ==> !RecordStart(text, p)
  {
    hide RecordStart;
    RecordsAreStarts(text);
    RecordsAreStarts(text[..k]);
    StartsOfPrefix(text, k);
    var kept, all := Starts(text[..k]), Starts(text);
    assert kept <= all;
    assert all == kept + (all - kept);
    if forall p :: k <= p < |text| ==> !RecordStart(text, p) {
      assert all == kept;
    } else {
      var p :| k <= p < |text| && RecordStart(text, p);
      assert p in all - kept;
    }
  }

  /** Splitting loses no character. */
  lemma {:induction false} LinesJoinBack(text: string)
    ensures Join(Lines(text)) == text
  {
    if |text| == 0 {
    } else {
      var n := |text| - 1;
      LinesJoinBack(text[..n]);
      var before := Lines(text[..n]);
      assert text == text[..n] + [text[n]];
      if text[n] == '\n' {
        assert (before + [""])[..|before|] == before;
      } else {
        JoinGrows(before, text[n]);
      }
    }
  }

  lemma JoinGrows(lines: seq<string>, c: char)
    requires |lines| > 0
    ensures Join(lines[..|lines| - 1] + [lines[|lines| - 1] + [c]]) == Join(lines) + [c]
  {
    var n := |lines| - 1;
    var longer := lines[..n] + [lines[n] + [c]];
    assert longer[..n] == lines[..n];
    if n > 0 {
      assert Join(longer) == Join(lines[..n]) + "\n" + (lines[n] + [c]);
      assert Join(lines) + [c] == Join(lines[..n]) + "\n" + lines[n] + [c];
    }
  }
}

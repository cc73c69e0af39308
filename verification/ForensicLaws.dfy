/** What a reader of the forensic log may rely on (src/beads.py:128-132, 175-298). */
module ForensicLaws {
  import opened Prelude
  import opened Documents
  import opened Window
  import opened Events
  import opened TextLines
  import opened Forensic

  lemma {:induction false} FirstFault(lines: seq<string>, n: nat, readers: Readers) returns (k: nat)
    requires n <= |lines|
    ensures k <= n && (forall i: nat :: i < k ==> FaultAt(lines, i, readers).None?)
    ensures k < n ==> FaultAt(lines, k, readers).Some?
  {
    hide FaultAt;
    if n == 0 {
      k := 0;
    } else {
      k := FirstFault(lines, n - 1, readers);
      if k == n - 1 && FaultAt(lines, n - 1, readers).None? {
        k := n;
      }
    }
  }

  /**
   Every log has exactly one outcome, and the window has no say in whether it
   is accepted or in which line is blamed for what.
   */
  lemma TheWindowDecidesNothingButTheEvents(lines: seq<string>, repo: string, readers: Readers)
    ensures || (forall w :: Parses(lines, repo, w, readers, Ok(EventsIn(lines, repo, w, readers))))
            || (exists error :: forall w :: Parses(lines, repo, w, readers, Err(error)))
    ensures forall w, r, q :: Parses(lines, repo, w, readers, r) && Parses(lines, repo, w, readers, q) ==> r == q
  {
    hide FaultAt;
    var k := FirstFault(lines, |lines|, readers);
    if k < |lines| {
      var error := ParseError(k + 1, FaultAt(lines, k, readers).value);
      assert forall w :: Parses(lines, repo, w, readers, Err(error));
    }
    forall w, r, q | Parses(lines, repo, w, readers, r) && Parses(lines, repo, w, readers, q) ensures r == q {
      OneOutcome(lines, repo, w, readers, r, k);
      OneOutcome(lines, repo, w, readers, q, k);
    }
  }

  lemma OneOutcome(lines: seq<string>, repo: string, w: Window, readers: Readers, r: Result<seq<Event>, ParseError>,
                   k: nat)
    requires Parses(lines, repo, w, readers, r)
    requires k <= |lines| && (forall i: nat :: i < k ==> FaultAt(lines, i, readers).None?)
    requires k < |lines| ==> FaultAt(lines, k, readers).Some?
    ensures r == if k == |lines| then Ok(EventsIn(lines, repo, w, readers))
                 else Err(ParseError(k + 1, FaultAt(lines, k, readers).value))
  {
    hide FaultAt;
  }

  // ------------------------------------------------------------ adjacent windows

  /** `whole` is `a` and `b` merged, each keeping its own order. */
  ghost predicate Interleaves<T>(whole: seq<T>, a: seq<T>, b: seq<T>)
    decreases |whole|
  {
    if |whole| == 0 then |a| == 0 && |b| == 0
    else
      var n := |whole| - 1;
      || (|a| > 0 && a[|a| - 1] == whole[n] && Interleaves(whole[..n], a[..|a| - 1], b))
      || (|b| > 0 && b[|b| - 1] == whole[n] && Interleaves(whole[..n], a, b[..|b| - 1]))
  }

  lemma AppendToOne<T>(whole: seq<T>, a: seq<T>, b: seq<T>, x: T)
    requires Interleaves(whole, a, b)
    ensures Interleaves(whole + [x], a + [x], b) && Interleaves(whole + [x], a, b + [x])
  {
    assert (whole + [x])[..|whole|] == whole && (a + [x])[..|a|] == a && (b + [x])[..|b|] == b;
  }

  /** Adjacent windows share the log out: no event twice, none lost, order kept. */
  lemma {:induction false} AdjacentWindowsShareTheLog(lines: seq<string>, repo: string, a: int, b: int, c: int,
                                                      readers: Readers)
    requires a < b < c
    ensures Interleaves(EventsIn(lines, repo, Window(a, c), readers),
                        EventsIn(lines, repo, Window(a, b), readers),
                        EventsIn(lines, repo, Window(b, c), readers))
  {
    hide ReadLine, TimeOf, Interleaves;
    if |lines| == 0 {
      NothingInterleaves<Event>();
    } else {
      var n := |lines| - 1;
      AdjacentWindowsShareTheLog(lines[..n], repo, a, b, c, readers);
      var whole := EventsIn(lines[..n], repo, Window(a, c), readers);
      var early := EventsIn(lines[..n], repo, Window(a, b), readers);
      var late := EventsIn(lines[..n], repo, Window(b, c), readers);
      var last := EventsOn(lines[n], repo, Window(a, c), readers);
      if |last| == 1 {
        AppendToOne(whole, early, late, last[0]);
      }
      assert whole + [] == whole && early + [] == early && late + [] == late;
    }
  }

  lemma NothingInterleaves<T>()
    ensures Interleaves<T>([], [], [])
  {}

  // ------------------------------------------------------------ identities

  /** No two events of an accepted log share store and sequence number, in the window or not. */
  lemma AcceptedIdentitiesAreUnique(lines: seq<string>, repo: string, w: Window, readers: Readers,
                                    r: Result<seq<Event>, ParseError>, i: nat, j: nat)
    requires Parses(lines, repo, w, readers, r) && r.Ok? && i < j < |lines|
    ensures !SameIdentity(ReadLine(lines[i], readers), ReadLine(lines[j], readers))
  {
    hide ReadLine, TimeOf;
    assert FaultAt(lines, j, readers).None?;
    assert ReadLine(lines[j], readers).Item? ==> !RepeatsIdentity(lines, j, readers);
  }

  // ------------------------------------------------------------ the manifest

  /** A manifest passes exactly if it is an object with this text's checksum and number of records. */
  lemma ManifestAcceptsExactly(text: string, manifest: string, readers: Readers, sha256: string -> string)
    ensures ManifestRefusal(text, manifest, readers, sha256).None? <==>
              && readers.loads(manifest).Some? && readers.loads(manifest).value.Dict?
              && var m := readers.loads(manifest).value.fields;
              && Lookup(m, "total_record_count") == Some(Int(RecordCount(text)))
              && "active_root" in m && m["active_root"].Dict?
              && Lookup(m["active_root"].fields, "sha256") == Some(Str(sha256(text)))
  {
    hide RecordCount;
  }

  // ------------------------------------------------------------ truncation

  /**
   A cut copy of an accepted log passes the manifest only if no record starts in
   the part cut off and the checksum still agrees: the record count alone
   refuses every cut that drops a record.
   */
  lemma ManifestRefusesTruncation(text: string, k: nat, manifest: string, readers: Readers, sha256: string -> string)
    requires k <= |text| && ManifestRefusal(text, manifest, readers, sha256).None?
    ensures ManifestRefusal(text[..k], manifest, readers, sha256).None?
       <==> (forall p :: k <= p < |text| ==> !RecordStart(text, p)) && sha256(text[..k]) == sha256(text)
    ensures (exists p :: k <= p < |text| && RecordStart(text, p))
       <==> ManifestRefusal(text[..k], manifest, readers, sha256) == Some(WrongCount)
  {
    hide RecordCount, RecordStart;
    TruncationLosesRecords(text, k);
  }

  // ------------------------------------------------------------ whole seconds

  /**
   Events keep whole seconds only, truncated toward zero. What was accepted is
   still inside the window by its stored time exactly if a window that starts
   after 1970 starts on a whole second, and one that ends by 1970 ends just
   after one.
   */
  lemma StoredTimesStayInTheWindow(w: Window)
    requires ValidWindow(w)
    ensures (forall m: int :: Contains(w, m) ==> ContainsEpoch(w, WholeSeconds(m)))
       <==> (w.start <= 0 || w.start % SECOND == 0) && (w.end > 0 || (w.end - 1) % SECOND == 0)
  {
    if w.start > 0 && w.start % SECOND != 0 {
      assert Contains(w, w.start) && !ContainsEpoch(w, WholeSeconds(w.start));
    } else if w.end <= 0 && (w.end - 1) % SECOND != 0 {
      CeilingPasses(w.end);
      assert Contains(w, w.end - 1) && !ContainsEpoch(w, WholeSeconds(w.end - 1));
    } else {
      forall m: int | Contains(w, m) ensures ContainsEpoch(w, WholeSeconds(m)) {
        if m >= 0 {
          FloorStaysAbove(w.start, m);
        } else {
          CeilingStaysBelow(w.end, m);
        }
      }
    }
  }

  lemma FloorStaysAbove(start: int, m: int)
    requires start <= m && 0 <= m && (start <= 0 || start % SECOND == 0)
    ensures start <= WholeSeconds(m) * SECOND <= m
  {
    assert start / SECOND <= m / SECOND;
  }

  /** Before 1970 truncation rounds up, and passes an end that is not just after a second. */
  lemma CeilingPasses(end: int)
    requires end <= 0 && (end - 1) % SECOND != 0
    ensures WholeSeconds(end - 1) * SECOND >= end
  {}

  lemma CeilingStaysBelow(end: int, m: int)
    requires m < 0 && m < end && (end > 0 || (end - 1) % SECOND == 0)
    ensures m <= WholeSeconds(m) * SECOND < end
  {
    var down := (-m) / SECOND;
    assert down * SECOND <= -m < down * SECOND + SECOND;
    if end <= 0 {
      var last := (end - 1) / SECOND;
      assert last * SECOND == end - 1;
      assert -down <= last;
    }
  }
}

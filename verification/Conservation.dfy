/**
 What the fact table keeps of its input (src/aggregate.py:62-134).

 Every theorem is about any list of rows that meets `IsRollup`, which
 `BuildHourly` ensures and which, by `TheRollupIsUnique`, only one list does.
 */
module Conservation {
  import opened Prelude
  import opened Events
  import opened Commits
  import opened Attribution
  import opened Tally
  import opened Rollup
  import BulkImport
  import Window
  import GitLog
  import GitLogSections

  /** One measure over the worker rows of a cell. */
  function WorkerSum(rows: seq<Row>, cell: Cell, m: Measure): int {
    if |rows| == 0 then 0
    else
      var r := rows[|rows| - 1];
      WorkerSum(rows[..|rows| - 1], cell, m) + (if r.key.cell == cell && r.key.worker.Some? then Value(r.agg, m) else 0)
  }

  /** One measure over the rows that stand for everybody. */
  function CellSum(rows: seq<Row>, m: Measure): int {
    if |rows| == 0 then 0
    else
      var r := rows[|rows| - 1];
      CellSum(rows[..|rows| - 1], m) + (if r.key.worker.None? then Value(r.agg, m) else 0)
  }

  /** `workers_active` over the named rows of a cell. */
  function NamedActive(rows: seq<Row>, cell: Cell): nat {
    if |rows| == 0 then 0
    else
      var r := rows[|rows| - 1];
      NamedActive(rows[..|rows| - 1], cell)
        + (if r.key.cell == cell && r.key.worker.Some? && r.key.worker.value != INFERENTIAL then r.active else 0)
  }

  // ------------------------------------------------------------ uniqueness

  lemma SameValuesSameAgg(a: Agg, b: Agg)
    requires forall m :: Value(a, m) == Value(b, m)
    ensures a == b
  {
    assert Value(a, CommitCount) == Value(b, CommitCount) && Value(a, BulkCommits) == Value(b, BulkCommits);
    assert Value(a, Added) == Value(b, Added) && Value(a, Deleted) == Value(b, Deleted);
    assert Value(a, AddedRaw) == Value(b, AddedRaw) && Value(a, DeletedRaw) == Value(b, DeletedRaw);
    assert Value(a, Files) == Value(b, Files) && Value(a, Closed) == Value(b, Closed);
    assert Value(a, ClosedBulk) == Value(b, ClosedBulk) && Value(a, Claimed) == Value(b, Claimed);
    assert Value(a, Released) == Value(b, Released) && Value(a, Reopened) == Value(b, Reopened);
  }

  lemma SameKeySameRow(a: Row, b: Row, cs: seq<Commit>, es: seq<Event>, epochs: map<string, int>,
                       family: map<string, string>)
    requires Describes(a, cs, es, epochs, family) && Describes(b, cs, es, epochs, family) && a.key == b.key
    ensures a == b
  {
    hide Value, TallyOf, ActiveOf, FamilyOf;
    forall m ensures Value(a.agg, m) == Value(b.agg, m) {
      assert Value(a.agg, m) == TallyOf(cs, es, epochs, a.key, m);
    }
    SameValuesSameAgg(a.agg, b.agg);
  }

  lemma {:induction false} SameKeysSameOrder(a: seq<Row>, b: seq<Row>)
    requires Ascending(a) && Ascending(b)
    requires forall r :: r in a <==> r in b
    ensures a == b
  {
    hide Before;
    assert (|a| > 0 ==> a[0] in b) && (|b| > 0 ==> b[0] in a);
    if |a| == 0 {
    } else {
      FirstIsLeast(a, b);
      FirstIsLeast(b, a);
      FourFieldsDecide(a[0].key, b[0].key);
      assert a[0] == b[0];
      assert a == [a[0]] + a[1..] && b == [b[0]] + b[1..];
      forall r ensures r in a[1..] <==> r in b[1..] {
        RestOmitsFirst(a, r);
        RestOmitsFirst(b, r);
      }
      SameKeysSameOrder(a[1..], b[1..]);
    }
  }

  lemma RestOmitsFirst(a: seq<Row>, r: Row)
    requires Ascending(a) && |a| > 0
    ensures r in a[1..] <==> r in a && r != a[0]
  {
    hide Before;
    FourFieldsDecide(r.key, r.key);
    assert a == [a[0]] + a[1..];
  }

  lemma FirstIsLeast(a: seq<Row>, b: seq<Row>)
    requires Ascending(b) && |a| > 0 && |b| > 0 && a[0] in b
    ensures a[0] == b[0] || Before(b[0].key, a[0].key)
  {}

  /** The input determines the rows, their order and every number in them. */
  lemma TheRollupIsUnique(a: seq<Row>, b: seq<Row>, cs: seq<Commit>, es: seq<Event>, epochs: map<string, int>,
                          family: map<string, string>)
    requires IsRollup(a, cs, es, epochs, family) && IsRollup(b, cs, es, epochs, family)
    ensures a == b
  {
    hide Describes, RowKeys, Ascending;
    forall r ensures r in a <==> r in b {
      if r in a {
        assert r.key in KeysOf(a);
        var q :| q in b && q.key == r.key;
        SameKeySameRow(r, q, cs, es, epochs, family);
      }
      if r in b {
        assert r.key in KeysOf(b);
        var q :| q in a && q.key == r.key;
        SameKeySameRow(r, q, cs, es, epochs, family);
      }
    }
    SameKeysSameOrder(a, b);
  }

  // ------------------------------------------------------------ workers of a cell

  ghost function LabelsIn(rows: seq<Row>, cell: Cell): set<string> {
    set r | r in rows && r.key.cell == cell && r.key.worker.Some? :: r.key.worker.value
  }

  lemma AscendingPrefix(rows: seq<Row>)
    requires Ascending(rows) && |rows| > 0
    ensures Ascending(rows[..|rows| - 1])
    ensures forall r :: r in rows[..|rows| - 1] ==> r.key != rows[|rows| - 1].key
    ensures forall r :: r in rows <==> r in rows[..|rows| - 1] || r == rows[|rows| - 1]
  {
    var n := |rows| - 1;
    assert rows == rows[..n] + [rows[n]];
    FourFieldsDecide(rows[n].key, rows[n].key);
  }

  lemma {:induction false} WorkerSumIsATally(rows: seq<Row>, cs: seq<Commit>, es: seq<Event>, epochs: map<string, int>,
                                            family: map<string, string>, cell: Cell, m: Measure)
    requires Ascending(rows) && forall r :: r in rows ==> Describes(r, cs, es, epochs, family)
    ensures WorkerSum(rows, cell, m) == EventTally(es, epochs, {cell}, Among(LabelsIn(rows, cell)), m)
  {
    hide Before, Ascending, EventTally, ActiveOf, CellTally;
    if |rows| == 0 {
      assert LabelsIn(rows, cell) == {};
      NothingTallied([], es, epochs, {cell}, Among({}), m);
    } else {
      var n := |rows| - 1;
      var r := rows[n];
      AscendingPrefix(rows);
      WorkerSumIsATally(rows[..n], cs, es, epochs, family, cell, m);
      assert r in rows;
      if r.key.cell == cell && r.key.worker.Some? {
        var name := r.key.worker.value;
        assert name !in LabelsIn(rows[..n], cell);
        assert LabelsIn(rows, cell) == LabelsIn(rows[..n], cell) + {name};
        WorkersSplit(es, epochs, {cell}, LabelsIn(rows[..n], cell), {name}, m);
        assert Value(r.agg, m) == TallyOf(cs, es, epochs, r.key, m);
      } else {
        assert LabelsIn(rows, cell) == LabelsIn(rows[..n], cell);
      }
    }
  }

  lemma LabelsAreTheWorkers(rows: seq<Row>, cs: seq<Commit>, es: seq<Event>, epochs: map<string, int>,
                            family: map<string, string>, cell: Cell)
    requires IsRollup(rows, cs, es, epochs, family)
    ensures forall e :: e in es && CellOf(e) == cell && Counted(e) ==> WorkerLabel(e, epochs) in LabelsIn(rows, cell)
  {
    hide Ascending, Describes, WorkerLabel;
    forall e | e in es && CellOf(e) == cell && Counted(e) ensures WorkerLabel(e, epochs) in LabelsIn(rows, cell) {
      assert WorkerKey(e, epochs) in KeysOf(rows);
    }
  }

  /** Each bead measure of a cell is the sum of its workers' shares. */
  lemma ACellIsItsWorkers(rows: seq<Row>, cs: seq<Commit>, es: seq<Event>, epochs: map<string, int>,
                          family: map<string, string>, r: Row, m: Measure)
    requires IsRollup(rows, cs, es, epochs, family) && r in rows && r.key.worker.None? && BeadMeasure(m)
    ensures Value(r.agg, m) == WorkerSum(rows, r.key.cell, m)
  {
    hide Ascending, EventTally, CommitTally, WorkerLabel, RowKeys, ActiveOf;
    var cell := r.key.cell;
    WorkerSumIsATally(rows, cs, es, epochs, family, cell, m);
    LabelsAreTheWorkers(rows, cs, es, epochs, family, cell);
    EveryLabelIsEveryone(es, epochs, {cell}, LabelsIn(rows, cell), m);
    CommitsHaveNoBeads(cs, {cell}, m);
    assert Value(r.agg, m) == TallyOf(cs, es, epochs, r.key, m);
  }

  // ------------------------------------------------------------ totals

  ghost function CellsIn(rows: seq<Row>): set<Cell> {
    set r | r in rows && r.key.worker.None? :: r.key.cell
  }

  lemma {:induction false} CellSumIsATally(rows: seq<Row>, cs: seq<Commit>, es: seq<Event>, epochs: map<string, int>,
                                          family: map<string, string>, m: Measure)
    requires Ascending(rows) && forall r :: r in rows ==> Describes(r, cs, es, epochs, family)
    ensures CellSum(rows, m) == CellTally(cs, es, epochs, CellsIn(rows), m)
  {
    hide Before, Ascending, EventTally, CommitTally, ActiveOf;
    if |rows| == 0 {
      assert CellsIn(rows) == {};
      NothingTallied(cs, es, epochs, {}, Everyone, m);
    } else {
      var n := |rows| - 1;
      var r := rows[n];
      AscendingPrefix(rows);
      CellSumIsATally(rows[..n], cs, es, epochs, family, m);
      assert r in rows;
      if r.key.worker.None? {
        assert r.key.cell !in CellsIn(rows[..n]);
        assert CellsIn(rows) == CellsIn(rows[..n]) + {r.key.cell};
        CommitsSplit(cs, CellsIn(rows[..n]), {r.key.cell}, m);
        EventsSplit(es, epochs, CellsIn(rows[..n]), {r.key.cell}, Everyone, m);
        assert Value(r.agg, m) == TallyOf(cs, es, epochs, r.key, m);
      } else {
        assert CellsIn(rows) == CellsIn(rows[..n]);
      }
    }
  }

  /** Nothing is lost and nothing counted twice, in any of the twelve measures. */
  lemma RowsAddUpToTheInput(rows: seq<Row>, cs: seq<Commit>, es: seq<Event>, epochs: map<string, int>,
                            family: map<string, string>, m: Measure)
    requires IsRollup(rows, cs, es, epochs, family)
    ensures CellSum(rows, m) == CommitTotal(cs, m) + EventTotal(es, m)
  {
    hide Ascending, EventTally, CommitTally, Describes, WorkerKeys;
    CellSumIsATally(rows, cs, es, epochs, family, m);
    forall c | c in CellsOf(cs, es) ensures c in CellsIn(rows) {
      assert RowKey(c, None) in KeysOf(rows);
    }
    EveryCellIsTheTotal(cs, es, epochs, CellsIn(rows), m);
  }

  // ------------------------------------------------------------ closures

  lemma {:induction false} ClosuresSplitByFlag(es: seq<Event>, epochs: map<string, int>, cell: Cell)
    ensures EventTally(es, epochs, {cell}, Everyone, Closed) + EventTally(es, epochs, {cell}, Everyone, ClosedBulk)
         == BulkImport.CellCount(es, cell)
  {
    if |es| == 0 {
    } else {
      ClosuresSplitByFlag(es[..|es| - 1], epochs, cell);
    }
  }

  /** Flagging moves closures between two columns and drops none. */
  lemma EveryClosureIsInOneColumn(rows: seq<Row>, cs: seq<Commit>, es: seq<Event>, epochs: map<string, int>,
                                  family: map<string, string>, r: Row)
    requires IsRollup(rows, cs, es, epochs, family) && r in rows && r.key.worker.None?
    ensures r.agg.closed + r.agg.closedBulk == BulkImport.CellCount(es, r.key.cell)
  {
    hide Ascending, EventTally, CommitTally, RowKeys, ActiveOf;
    ClosuresSplitByFlag(es, epochs, r.key.cell);
    CommitsHaveNoBeads(cs, {r.key.cell}, Closed);
    CommitsHaveNoBeads(cs, {r.key.cell}, ClosedBulk);
    assert Value(r.agg, Closed) == TallyOf(cs, es, epochs, r.key, Closed);
    assert Value(r.agg, ClosedBulk) == TallyOf(cs, es, epochs, r.key, ClosedBulk);
  }

  // ------------------------------------------------------------ lines

  /** Filtered columns stay within the raw ones in every row. */
  lemma FilteredWithinRaw(rows: seq<Row>, cs: seq<Commit>, es: seq<Event>, epochs: map<string, int>,
                          family: map<string, string>, r: Row)
    requires IsRollup(rows, cs, es, epochs, family) && r in rows
    requires forall c :: c in cs ==> Within(c.kept, c.raw)
    ensures 0 <= r.agg.added <= r.agg.addedRaw && 0 <= r.agg.deleted <= r.agg.deletedRaw
    ensures 0 <= r.agg.bulkCommits <= r.agg.commits
    ensures r.key.worker.Some? ==> r.agg.commits == r.agg.addedRaw == r.agg.deletedRaw == r.agg.files == 0
  {
    hide Ascending, EventTally, CommitTally, RowKeys, ActiveOf;
    var cell := r.key.cell;
    var who := if r.key.worker.None? then Everyone else Among({r.key.worker.value});
    KeptWithinRaw(cs, {cell});
    forall m | !BeadMeasure(m)
      ensures Value(r.agg, m) == if r.key.worker.None? then CommitTally(cs, {cell}, m) else 0
    {
      EventsHaveNoLines(es, epochs, {cell}, who, m);
      assert Value(r.agg, m) == TallyOf(cs, es, epochs, r.key, m);
    }
    assert Value(r.agg, Added) == r.agg.added && Value(r.agg, AddedRaw) == r.agg.addedRaw;
    assert Value(r.agg, Deleted) == r.agg.deleted && Value(r.agg, DeletedRaw) == r.agg.deletedRaw;
    assert Value(r.agg, BulkCommits) == r.agg.bulkCommits && Value(r.agg, CommitCount) == r.agg.commits;
    assert Value(r.agg, Files) == r.agg.files;
  }

  /** A commit as some repository's scan returned it, with its bulk flag set. */
  ghost predicate Scanned(c: Commit, w: Window.Window, tools: GitLog.Tools, maxLines: int, maxFiles: int) {
    exists lines, repo ::
      && GitLogSections.NaturalCounts(lines, tools) && GitLog.ScanOf(lines, repo, w, tools).Ok?
      && c in GitLog.BulkMarked(GitLog.ScanOf(lines, repo, w, tools).value.commits, maxLines, maxFiles)
  }

  /** From git's output to the fact table: no row's filtered columns exceed its raw ones. */
  lemma ScannedRowsNest(rows: seq<Row>, cs: seq<Commit>, es: seq<Event>, epochs: map<string, int>,
                        family: map<string, string>, r: Row, w: Window.Window, tools: GitLog.Tools,
                        maxLines: int, maxFiles: int)
    requires IsRollup(rows, cs, es, epochs, family) && r in rows
    requires forall c :: c in cs ==> Scanned(c, w, tools, maxLines, maxFiles)
    ensures 0 <= r.agg.added <= r.agg.addedRaw && 0 <= r.agg.deleted <= r.agg.deletedRaw
    ensures 0 <= r.agg.bulkCommits <= r.agg.commits
  {
    hide IsRollup, GitLog.ScanOf, GitLog.BulkMarked;
    forall c | c in cs ensures Within(c.kept, c.raw) {
      var lines, repo :|
        && GitLogSections.NaturalCounts(lines, tools) && GitLog.ScanOf(lines, repo, w, tools).Ok?
        && c in GitLog.BulkMarked(GitLog.ScanOf(lines, repo, w, tools).value.commits, maxLines, maxFiles);
      GitLogSections.ScannedCountsNest(lines, repo, w, tools, maxLines, maxFiles);
    }
    FilteredWithinRaw(rows, cs, es, epochs, family, r);
  }

  // ------------------------------------------------------------ attribution

  /** Closures of a cell whose actor is null, empty or `system`. */
  function NamelessClosures(es: seq<Event>, cell: Cell): nat {
    if |es| == 0 then 0
    else
      var e := es[|es| - 1];
      NamelessClosures(es[..|es| - 1], cell) + (if Closure(e) && CellOf(e) == cell && !Named(e.actor) then 1 else 0)
  }

  ghost predicate ClosedByInferential(es: seq<Event>, cell: Cell) {
    exists e :: e in es && Closure(e) && CellOf(e) == cell && e.actor == Some(INFERENTIAL)
  }

  lemma {:induction false} InferentialClosures(es: seq<Event>, all: seq<Event>, epochs: map<string, int>, cell: Cell)
    requires AreEpochs(epochs, all) && forall e :: e in es ==> e in all
    ensures var n := EventTally(es, epochs, {cell}, Among({INFERENTIAL}), Closed)
                   + EventTally(es, epochs, {cell}, Among({INFERENTIAL}), ClosedBulk);
            n >= NamelessClosures(es, cell) && (n == NamelessClosures(es, cell) <==> !ClosedByInferential(es, cell))
  {
    if |es| == 0 {
    } else {
      var n := |es| - 1;
      var e := es[n];
      assert es == es[..n] + [e];
      InferentialClosures(es[..n], all, epochs, cell);
      var another := Closure(e) && CellOf(e) == cell && e.actor == Some(INFERENTIAL);
      assert ClosedByInferential(es, cell) <==> ClosedByInferential(es[..n], cell) || another;
      if Closure(e) {
        ClosuresKeepTheirName(all, epochs, e);
      }
    }
  }

  /**
   Inferential rows hold exactly the closures by nobody, by the empty name or by
   `system` -- unless an actor is called `inferential`, when they hold more.
   */
  lemma InferentialRowsHoldTheNameless(rows: seq<Row>, cs: seq<Commit>, es: seq<Event>, epochs: map<string, int>,
                                       family: map<string, string>, r: Row)
    requires IsRollup(rows, cs, es, epochs, family) && AreEpochs(epochs, es)
    requires r in rows && r.key.worker == Some(INFERENTIAL)
    ensures r.agg.closed + r.agg.closedBulk == NamelessClosures(es, r.key.cell) <==>
              !ClosedByInferential(es, r.key.cell)
    ensures r.agg.closed + r.agg.closedBulk >= NamelessClosures(es, r.key.cell)
  {
    hide Ascending, EventTally, RowKeys, ActiveOf, AreEpochs, NamelessClosures, ClosedByInferential;
    InferentialClosures(es, es, epochs, r.key.cell);
    assert Value(r.agg, Closed) == TallyOf(cs, es, epochs, r.key, Closed);
    assert Value(r.agg, ClosedBulk) == TallyOf(cs, es, epochs, r.key, ClosedBulk);
  }

  /** No row names a worker before its repository's attribution epoch. */
  lemma NamedRowsFollowTheEpoch(rows: seq<Row>, cs: seq<Commit>, es: seq<Event>, epochs: map<string, int>,
                                family: map<string, string>, r: Row)
    requires IsRollup(rows, cs, es, epochs, family)
    requires r in rows && r.key.worker.Some? && r.key.worker.value != INFERENTIAL
    ensures r.key.cell.repo in epochs && HourOf(epochs[r.key.cell.repo]) <= r.key.cell.hour
  {
    hide Ascending, Describes;
    assert r.key in KeysOf(rows);
    var e :| e in es && Counted(e) && WorkerKey(e, epochs) == r.key;
    NamedLabelsFollowTheEpoch(e, epochs);
  }

  ghost function ActiveIn(rows: seq<Row>, cell: Cell): set<string> {
    set r | && r in rows && r.key.cell == cell && r.active > 0
            && r.key.worker.Some? && r.key.worker.value != INFERENTIAL
      :: r.key.worker.value
  }

  lemma {:induction false} NamedActiveCounts(rows: seq<Row>, cs: seq<Commit>, es: seq<Event>, epochs: map<string, int>,
                                            family: map<string, string>, cell: Cell)
    requires Ascending(rows) && forall r :: r in rows ==> Describes(r, cs, es, epochs, family)
    ensures NamedActive(rows, cell) == |ActiveIn(rows, cell)|
  {
    hide Before, Ascending, TallyOf, ClaimingWorkers, Claimers;
    if |rows| == 0 {
      assert ActiveIn(rows, cell) == {};
    } else {
      var n := |rows| - 1;
      var r := rows[n];
      AscendingPrefix(rows);
      NamedActiveCounts(rows[..n], cs, es, epochs, family, cell);
      assert r in rows;
      if r.key.cell == cell && r.key.worker.Some? && r.key.worker.value != INFERENTIAL && r.active > 0 {
        assert ActiveIn(rows, cell) == ActiveIn(rows[..n], cell) + {r.key.worker.value};
        assert r.key.worker.value !in ActiveIn(rows[..n], cell);
      } else {
        assert ActiveIn(rows, cell) == ActiveIn(rows[..n], cell);
      }
    }
  }

  /** A cell's named workers are at most its distinct claiming actors. */
  lemma NamedWorkersAreClaimers(rows: seq<Row>, cs: seq<Commit>, es: seq<Event>, epochs: map<string, int>,
                                family: map<string, string>, r: Row)
    requires IsRollup(rows, cs, es, epochs, family) && r in rows && r.key.worker.None?
    ensures NamedActive(rows, r.key.cell) <= r.active == |Claimers(es, r.key.cell)|
  {
    hide Ascending, TallyOf, RowKeys;
    var cell := r.key.cell;
    NamedActiveCounts(rows, cs, es, epochs, family, cell);
    forall w | w in ActiveIn(rows, cell) ensures w in Claimers(es, cell) {
      var q :| q in rows && q.key == RowKey(cell, Some(w)) && w != INFERENTIAL && q.active > 0;
      assert q.key in ClaimingWorkers(es, epochs);
    }
    SubsetCardinality(ActiveIn(rows, cell), Claimers(es, cell));
  }
}

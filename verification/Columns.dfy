/**
 What each column of the fact table counts (src/aggregate.py:20-134,
 src/beads.py:315-354), by positions in the input.

 The rollup's own description goes through tallies; here every column is the
 number of the events, or the lines of the commits, that it is named after.
 */
module Columns {
  import opened Prelude
  import opened Strings
  import opened Events
  import opened Commits
  import opened Attribution
  import opened Tally
  import opened Rollup
  import BulkImport

  // ------------------------------------------------------------ rows by position

  predicate InHour(ts: int, hour: int) {
    3600 * hour <= ts < 3600 * hour + 3600
  }

  predicate InCell(repo: string, ts: int, cell: Cell) {
    repo == cell.repo && InHour(ts, cell.hour)
  }

  /** The actor from the repository's epoch on, if it is one; `inferential` otherwise. */
  predicate CreditedTo(e: Event, epochs: map<string, int>, name: string) {
    if e.repo in epochs && epochs[e.repo] <= e.ts && e.actor.Some? && e.actor.value != "" && e.actor.value != "system"
    then name == e.actor.value
    else name == "inferential"
  }

  predicate InRow(e: Event, epochs: map<string, int>, key: RowKey) {
    InCell(e.repo, e.ts, key.cell) && (key.worker.None? || CreditedTo(e, epochs, key.worker.value))
  }

  /** The positions of a row's events of one kind, with one of these flags. */
  function EventsOf(es: seq<Event>, epochs: map<string, int>, key: RowKey, kind: string, flags: set<bool>): set<int> {
    set i | 0 <= i < |es| && InRow(es[i], epochs, key) && es[i].kind == kind && es[i].isBulk in flags
  }

  /** The positions of a cell's commits with one of these flags. */
  function CommitsOf(cs: seq<Commit>, cell: Cell, flags: set<bool>): set<int> {
    set i | 0 <= i < |cs| && InCell(cs[i].repo, cs[i].ts, cell) && cs[i].isBulk in flags
  }

  /** All lines of a cell's commits. */
  function RawLines(cs: seq<Commit>, cell: Cell): Lines {
    if |cs| == 0 then Lines(0, 0, 0)
    else
      var before, c := RawLines(cs[..|cs| - 1], cell), cs[|cs| - 1];
      if InCell(c.repo, c.ts, cell)
      then Lines(before.added + c.raw.added, before.deleted + c.raw.deleted, before.files + c.raw.files)
      else before
  }

  /** The filtered lines and files of a cell's commits that are not bulk. */
  function KeptLines(cs: seq<Commit>, cell: Cell): Lines {
    if |cs| == 0 then Lines(0, 0, 0)
    else
      var before, c := KeptLines(cs[..|cs| - 1], cell), cs[|cs| - 1];
      if InCell(c.repo, c.ts, cell) && !c.isBulk
      then Lines(before.added + c.kept.added, before.deleted + c.kept.deleted, before.files + c.kept.files)
      else before
  }

  function ClaimersOf(es: seq<Event>, epochs: map<string, int>, key: RowKey): set<string> {
    set e | e in es && InRow(e, epochs, key) && e.kind == "claimed" && e.actor.Some? && e.actor.value != "" ::
        e.actor.value
  }

  // ------------------------------------------------------------ against the tallies

  lemma HourIsTheCell(repo: string, ts: int, cell: Cell)
    ensures Cell(repo, HourOf(ts)) == cell <==> InCell(repo, ts, cell)
  {}

  lemma RowIsItsCellAndWorker(e: Event, epochs: map<string, int>, key: RowKey)
    ensures InRow(e, epochs, key)
       <==> CellOf(e) == key.cell && (key.worker.None? || WorkerLabel(e, epochs) == key.worker.value)
  {
    HourIsTheCell(e.repo, e.ts, key.cell);
  }

  ghost function WhoOf(key: RowKey): Who {
    if key.worker.None? then Everyone else Among({key.worker.value})
  }

  /** The measure that counts this kind with these flags, and no other event. */
  ghost predicate Counts(m: Measure, kind: string, flags: set<bool>) {
    || (m.Closed? && kind == "closed" && flags == {false})
    || (m.ClosedBulk? && kind == "closed" && flags == {true})
    || (m.Claimed? && kind == "claimed" && flags == {false, true})
    || (m.Released? && kind == "released" && flags == {false, true})
    || (m.Reopened? && kind == "reopened" && flags == {false, true})
  }

  lemma OneMoreEvent(es: seq<Event>, epochs: map<string, int>, key: RowKey, kind: string, flags: set<bool>)
    requires |es| > 0
    ensures var e := es[|es| - 1];
            |EventsOf(es, epochs, key, kind, flags)| == |EventsOf(es[..|es| - 1], epochs, key, kind, flags)|
            + if InRow(e, epochs, key) && e.kind == kind && e.isBulk in flags then 1 else 0
  {
    hide InRow;
    var n := |es| - 1;
    var some, more := EventsOf(es[..n], epochs, key, kind, flags), EventsOf(es, epochs, key, kind, flags);
    assert more - {n} == some;
  }

  lemma OneMoreCommit(cs: seq<Commit>, cell: Cell, flags: set<bool>)
    requires |cs| > 0
    ensures var c := cs[|cs| - 1];
            |CommitsOf(cs, cell, flags)| == |CommitsOf(cs[..|cs| - 1], cell, flags)|
            + if InCell(c.repo, c.ts, cell) && c.isBulk in flags then 1 else 0
  {
    hide InCell;
    var n := |cs| - 1;
    assert CommitsOf(cs, cell, flags) - {n} == CommitsOf(cs[..n], cell, flags);
  }

  lemma {:induction false} TallyIsACount(es: seq<Event>, epochs: map<string, int>, key: RowKey, m: Measure,
                                         kind: string, flags: set<bool>)
    requires Counts(m, kind, flags)
    ensures EventTally(es, epochs, {key.cell}, WhoOf(key), m) == |EventsOf(es, epochs, key, kind, flags)|
  {
    hide InRow, WorkerLabel, CellOf;
    if |es| == 0 {
      assert EventsOf(es, epochs, key, kind, flags) == {};
    } else {
      TallyIsACount(es[..|es| - 1], epochs, key, m, kind, flags);
      RowIsItsCellAndWorker(es[|es| - 1], epochs, key);
      OneMoreEvent(es, epochs, key, kind, flags);
      hide EventsOf;
    }
  }

  lemma {:induction false} CommitTallyIsACount(cs: seq<Commit>, cell: Cell)
    ensures CommitTally(cs, {cell}, CommitCount) == |CommitsOf(cs, cell, {false, true})|
    ensures CommitTally(cs, {cell}, BulkCommits) == |CommitsOf(cs, cell, {true})|
  {
    if |cs| == 0 {
      assert CommitsOf(cs, cell, {false, true}) == {} && CommitsOf(cs, cell, {true}) == {};
    } else {
      CommitTallyIsACount(cs[..|cs| - 1], cell);
      HourIsTheCell(cs[|cs| - 1].repo, cs[|cs| - 1].ts, cell);
      OneMoreCommit(cs, cell, {false, true});
      OneMoreCommit(cs, cell, {true});
      hide InCell, CommitsOf;
    }
  }

  lemma {:induction false} CommitTalliesAreLines(cs: seq<Commit>, cell: Cell)
    ensures CommitTally(cs, {cell}, AddedRaw) == RawLines(cs, cell).added
    ensures CommitTally(cs, {cell}, DeletedRaw) == RawLines(cs, cell).deleted
    ensures CommitTally(cs, {cell}, Added) == KeptLines(cs, cell).added
    ensures CommitTally(cs, {cell}, Deleted) == KeptLines(cs, cell).deleted
    ensures CommitTally(cs, {cell}, Files) == KeptLines(cs, cell).files
  {
    if |cs| == 0 {
    } else {
      var n := |cs| - 1;
      CommitTalliesAreLines(cs[..n], cell);
      HourIsTheCell(cs[n].repo, cs[n].ts, cell);
    }
  }

  // ------------------------------------------------------------ the columns

  /** The bead columns of a row, each by the events it counts. */
  lemma BeadColumns(rows: seq<Row>, cs: seq<Commit>, es: seq<Event>, epochs: map<string, int>,
                    family: map<string, string>, r: Row)
    requires IsRollup(rows, cs, es, epochs, family) && r in rows
    ensures r.agg.closed == |EventsOf(es, epochs, r.key, "closed", {false})|
    ensures r.agg.closedBulk == |EventsOf(es, epochs, r.key, "closed", {true})|
    ensures r.agg.claimed == |EventsOf(es, epochs, r.key, "claimed", {false, true})|
    ensures r.agg.released == |EventsOf(es, epochs, r.key, "released", {false, true})|
    ensures r.agg.reopened == |EventsOf(es, epochs, r.key, "reopened", {false, true})|
  {
    hide EventsOf, EventTally, CommitTally, Ascending, ActiveOf, RowKeys, FamilyOf;
    forall m, kind, flags | Counts(m, kind, flags)
      ensures Value(r.agg, m) == |EventsOf(es, epochs, r.key, kind, flags)|
    {
      TallyIsACount(es, epochs, r.key, m, kind, flags);
      CommitsHaveNoBeads(cs, {r.key.cell}, m);
      assert Value(r.agg, m) == TallyOf(cs, es, epochs, r.key, m);
    }
    assert Counts(Closed, "closed", {false}) && Counts(ClosedBulk, "closed", {true});
    assert Counts(Claimed, "claimed", {false, true}) && Counts(Released, "released", {false, true});
    assert Counts(Reopened, "reopened", {false, true});
    assert Value(r.agg, Closed) == r.agg.closed && Value(r.agg, ClosedBulk) == r.agg.closedBulk;
    assert Value(r.agg, Claimed) == r.agg.claimed && Value(r.agg, Released) == r.agg.released;
    assert Value(r.agg, Reopened) == r.agg.reopened;
  }

  /** The commit columns: everybody's row has the cell's commits, a worker's row none. */
  lemma CommitColumns(rows: seq<Row>, cs: seq<Commit>, es: seq<Event>, epochs: map<string, int>,
                      family: map<string, string>, r: Row)
    requires IsRollup(rows, cs, es, epochs, family) && r in rows
    ensures r.key.worker.None? ==>
              && r.agg.commits == |CommitsOf(cs, r.key.cell, {false, true})|
              && r.agg.bulkCommits == |CommitsOf(cs, r.key.cell, {true})|
              && r.agg.addedRaw == RawLines(cs, r.key.cell).added
              && r.agg.deletedRaw == RawLines(cs, r.key.cell).deleted
              && r.agg.added == KeptLines(cs, r.key.cell).added
              && r.agg.deleted == KeptLines(cs, r.key.cell).deleted
              && r.agg.files == KeptLines(cs, r.key.cell).files
    ensures r.key.worker.Some? ==>
              && r.agg.commits == r.agg.bulkCommits == r.agg.files == 0
              && r.agg.added == r.agg.deleted == r.agg.addedRaw == r.agg.deletedRaw == 0
  {
    hide CommitsOf, RawLines, KeptLines, EventTally, CommitTally, Ascending, ActiveOf, RowKeys, FamilyOf;
    var cell := r.key.cell;
    CommitTallyIsACount(cs, cell);
    CommitTalliesAreLines(cs, cell);
    forall m | !BeadMeasure(m)
      ensures Value(r.agg, m) == if r.key.worker.None? then CommitTally(cs, {cell}, m) else 0
    {
      EventsHaveNoLines(es, epochs, {cell}, WhoOf(r.key), m);
      assert Value(r.agg, m) == TallyOf(cs, es, epochs, r.key, m);
    }
    assert Value(r.agg, CommitCount) == r.agg.commits && Value(r.agg, BulkCommits) == r.agg.bulkCommits;
    assert Value(r.agg, AddedRaw) == r.agg.addedRaw && Value(r.agg, DeletedRaw) == r.agg.deletedRaw;
    assert Value(r.agg, Added) == r.agg.added && Value(r.agg, Deleted) == r.agg.deleted;
    assert Value(r.agg, Files) == r.agg.files;
  }

  /** Who was active, and which family the repository belongs to. */
  lemma OtherColumns(rows: seq<Row>, cs: seq<Commit>, es: seq<Event>, epochs: map<string, int>,
                     family: map<string, string>, r: Row)
    requires IsRollup(rows, cs, es, epochs, family) && r in rows
    ensures r.key.worker.None? ==> r.active == |ClaimersOf(es, epochs, r.key)|
    ensures r.key.worker.Some? ==>
              r.active == if r.key.worker.value != "inferential" && ClaimersOf(es, epochs, r.key) != {} then 1 else 0
    ensures r.key.cell.repo in family ==> r.family == family[r.key.cell.repo]
    ensures r.key.cell.repo !in family ==> r.family == "unassigned"
  {
    hide InRow, WorkerLabel, CellOf, Ascending, RowKeys, Value, TallyOf;
    forall e ensures InRow(e, epochs, r.key)
                <==> CellOf(e) == r.key.cell && (r.key.worker.None? || WorkerLabel(e, epochs) == r.key.worker.value)
    {
      RowIsItsCellAndWorker(e, epochs, r.key);
    }
    if r.key.worker.None? {
      assert Claimers(es, r.key.cell) == ClaimersOf(es, epochs, r.key);
    } else {
      ClaimingIsClaimers(es, epochs, r.key);
    }
  }

  lemma ClaimingIsClaimers(es: seq<Event>, epochs: map<string, int>, key: RowKey)
    requires key.worker.Some?
    ensures key in ClaimingWorkers(es, epochs)
       <==> key.worker.value != "inferential" && ClaimersOf(es, epochs, key) != {}
  {
    hide InRow, WorkerLabel, CellOf;
    if key in ClaimingWorkers(es, epochs) {
      var e :| e in es && Claim(e) && WorkerLabel(e, epochs) != INFERENTIAL && WorkerKey(e, epochs) == key;
      RowIsItsCellAndWorker(e, epochs, key);
      assert e.actor.value in ClaimersOf(es, epochs, key);
    }
    if key.worker.value != "inferential" && ClaimersOf(es, epochs, key) != {} {
      var name :| name in ClaimersOf(es, epochs, key);
      var e :| e in es && InRow(e, epochs, key) && e.kind == "claimed" && e.actor == Some(name) && name != "";
      RowIsItsCellAndWorker(e, epochs, key);
      assert WorkerKey(e, epochs) == key;
    }
  }

  /** The rows run by hour, then repository, then everybody, the inferential row and the workers by name. */
  lemma RowsRunInOrder(rows: seq<Row>, cs: seq<Commit>, es: seq<Event>, epochs: map<string, int>,
                       family: map<string, string>, i: nat, j: nat)
    requires IsRollup(rows, cs, es, epochs, family) && i < j < |rows|
    ensures var a, b := rows[i].key, rows[j].key;
            || a.cell.hour < b.cell.hour
            || (a.cell.hour == b.cell.hour && Less(a.cell.repo, b.cell.repo))
            || (a.cell == b.cell && a.worker.None? && b.worker.Some?)
            || (a.cell == b.cell && a.worker == Some("inferential") && b.worker.Some? &&
                b.worker.value != "inferential")
            || (&& a.cell == b.cell && a.worker.Some? && b.worker.Some? && Less(a.worker.value, b.worker.value)
                && a.worker.value != "inferential" && b.worker.value != "inferential")
  {
    LessIsTotal(LabelOf(rows[i].key.worker), LabelOf(rows[j].key.worker));
    hide Less, Describes, RowKeys;
    assert Before(rows[i].key, rows[j].key);
    assert !Less("", "") && !Less("inferential", "inferential") by {
      LessIsTotal("", "");
      LessIsTotal("inferential", "inferential");
    }
  }

  // ------------------------------------------------------------ bulk imports

  /** The positions of the closures in a cell, and in an hour. */
  function ClosuresIn(es: seq<Event>, cell: Cell): set<int> {
    set i | 0 <= i < |es| && es[i].kind == "closed" && InCell(es[i].repo, es[i].ts, cell)
  }

  function ClosuresAt(es: seq<Event>, hour: int): set<int> {
    set i | 0 <= i < |es| && es[i].kind == "closed" && InHour(es[i].ts, hour)
  }

  /** Those of them in cells that are over the threshold by themselves. */
  function DenseAt(es: seq<Event>, hour: int, threshold: int): set<int> {
    set i | i in ClosuresAt(es, hour) && |ClosuresIn(es, Cell(es[i].repo, hour))| > threshold
  }

  lemma {:induction false} CellCountIsACount(es: seq<Event>, cell: Cell)
    ensures BulkImport.CellCount(es, cell) == |ClosuresIn(es, cell)|
  {
    if |es| == 0 {
      assert ClosuresIn(es, cell) == {};
    } else {
      var n := |es| - 1;
      CellCountIsACount(es[..n], cell);
      HourIsTheCell(es[n].repo, es[n].ts, cell);
      hide InCell;
      var yes := es[n].kind == "closed" && InCell(es[n].repo, es[n].ts, cell);
      assert ClosuresIn(es, cell) == if yes then ClosuresIn(es[..n], cell) + {n} else ClosuresIn(es[..n], cell);
    }
  }

  /** The positions of an hour's closures in some cells. */
  function ClosuresAmong(es: seq<Event>, hour: int, cells: set<Cell>): set<int> {
    set i | 0 <= i < |es| && es[i].kind == "closed" && InHour(es[i].ts, hour) && Cell(es[i].repo, hour) in cells
  }

  lemma {:induction false} HourCountIsACount(es: seq<Event>, hour: int, cells: set<Cell>)
    ensures BulkImport.HourCount(es, hour, cells) == |ClosuresAmong(es, hour, cells)|
  {
    if |es| == 0 {
      assert ClosuresAmong(es, hour, cells) == {};
    } else {
      var n := |es| - 1;
      HourCountIsACount(es[..n], hour, cells);
      HourIsTheCell(es[n].repo, es[n].ts, Cell(es[n].repo, hour));
      var yes := es[n].kind == "closed" && InHour(es[n].ts, hour) && Cell(es[n].repo, hour) in cells;
      assert ClosuresAmong(es, hour, cells)
          == if yes then ClosuresAmong(es[..n], hour, cells) + {n} else ClosuresAmong(es[..n], hour, cells);
    }
  }

  /**
   A cell is marked exactly if it has closures, and more than the threshold of
   them or an hour in which cells over the threshold hold at least the share.
   */
  lemma BulkCellsByCounting(es: seq<Event>, threshold: int, share: real, cell: Cell)
    ensures cell in BulkImport.BulkCells(es, threshold, share) <==>
              && ClosuresIn(es, cell) != {}
              && (|| |ClosuresIn(es, cell)| > threshold
                  || |DenseAt(es, cell.hour, threshold)| as real >= share * |ClosuresAt(es, cell.hour)| as real)
  {
    ClosedCellsByPosition(es);
    CellCountIsACount(es, cell);
    HourByPosition(es, cell.hour, threshold);
    hide BulkImport.CellCount, BulkImport.HourCount, ClosuresIn, ClosuresAt, DenseAt, BulkImport.ClosedCells,
         BulkImport.DenseCells;
    var part, whole := |DenseAt(es, cell.hour, threshold)|, |ClosuresAt(es, cell.hour)|;
    assert BulkImport.Contaminated(es, threshold, share, cell.hour) <==> part as real >= share * whole as real;
  }

  /** The two sums that a share is taken of. */
  lemma HourByPosition(es: seq<Event>, hour: int, threshold: int)
    ensures BulkImport.HourCount(es, hour, BulkImport.ClosedCells(es)) == |ClosuresAt(es, hour)|
    ensures BulkImport.HourCount(es, hour, BulkImport.DenseCells(es, threshold)) == |DenseAt(es, hour, threshold)|
  {
    var all, dense := BulkImport.ClosedCells(es), BulkImport.DenseCells(es, threshold);
    HourCountIsACount(es, hour, all);
    HourCountIsACount(es, hour, dense);
    EveryClosureHasItsCell(es, hour);
    forall c: Cell ensures BulkImport.CellCount(es, c) == |ClosuresIn(es, c)| {
      CellCountIsACount(es, c);
    }
    hide BulkImport.CellCount, BulkImport.HourCount, InHour, ClosuresIn, BulkImport.ClosedCells;
    assert ClosuresAmong(es, hour, all) == ClosuresAt(es, hour);
    assert ClosuresAmong(es, hour, dense) == DenseAt(es, hour, threshold);
  }

  lemma ClosedCellsByPosition(es: seq<Event>)
    ensures forall c :: c in BulkImport.ClosedCells(es) <==> ClosuresIn(es, c) != {}
  {
    forall c ensures c in BulkImport.ClosedCells(es) <==> ClosuresIn(es, c) != {} {
      BulkImport.CellIsCounted(es, c);
      CellCountIsACount(es, c);
      hide ClosuresIn, BulkImport.CellCount, BulkImport.ClosedCells;
      assert ClosuresIn(es, c) == {} <==> |ClosuresIn(es, c)| == 0;
    }
  }

  lemma EveryClosureHasItsCell(es: seq<Event>, hour: int)
    ensures forall i :: i in ClosuresAt(es, hour) ==> Cell(es[i].repo, hour) in BulkImport.ClosedCells(es)
  {
    ClosedCellsByPosition(es);
    forall i | i in ClosuresAt(es, hour) ensures Cell(es[i].repo, hour) in BulkImport.ClosedCells(es) {
      assert i in ClosuresIn(es, Cell(es[i].repo, hour));
    }
  }

  /**
   From the heuristic to the table: in a marked cell all closures are in the
   bulk column and none in the other, in any other cell the reverse.
   */
  lemma MarkedCellsMoveWhole(rows: seq<Row>, cs: seq<Commit>, raw: seq<Event>, threshold: int, share: real,
                             epochs: map<string, int>, family: map<string, string>, r: Row)
    requires IsRollup(rows, cs, BulkImport.Marked(raw, threshold, share), epochs, family)
    requires r in rows && r.key.worker.None?
    ensures var n := |ClosuresIn(raw, r.key.cell)|;
            if r.key.cell in BulkImport.BulkCells(raw, threshold, share)
            then r.agg.closedBulk == n && r.agg.closed == 0
            else r.agg.closedBulk == 0 && r.agg.closed == n
  {
    var es, cell := BulkImport.Marked(raw, threshold, share), r.key.cell;
    BeadColumns(rows, cs, es, epochs, family, r);
    var bulk := cell in BulkImport.BulkCells(raw, threshold, share);
    forall i | 0 <= i < |raw| && raw[i].kind == "closed" && InCell(raw[i].repo, raw[i].ts, cell)
      ensures es[i].isBulk == bulk
    {
      HourIsTheCell(raw[i].repo, raw[i].ts, cell);
      assert raw[i] in raw;
      BulkImport.CellsAreTheFlaggedOnes(raw, threshold, share, raw[i]);
    }
    hide InCell, BulkImport.BulkCells, BulkImport.Flagged, IsRollup;
    assert EventsOf(es, epochs, r.key, "closed", {bulk}) == ClosuresIn(raw, cell);
    assert EventsOf(es, epochs, r.key, "closed", {!bulk}) == {};
  }
}

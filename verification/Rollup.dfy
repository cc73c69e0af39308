/** The (repository, hour, worker) fact table (src/aggregate.py:62-134). */
module Rollup {
  import opened Prelude
  import opened Strings
  import opened Events
  import opened Commits
  import opened Attribution
  import opened Tally

  const UNASSIGNED := "unassigned"

  datatype RowKey = RowKey(cell: Cell, worker: Option<string>)

  datatype Row = Row(key: RowKey, family: string, active: nat, agg: Agg)

  function FamilyOf(family: map<string, string>, repo: string): string {
    if repo in family then family[repo] else UNASSIGNED
  }

  // ------------------------------------------------------------ meaning

  function CellsOf(cs: seq<Commit>, es: seq<Event>): set<Cell> {
    (set c | c in cs :: CommitCell(c)) + (set e | e in es && Counted(e) :: CellOf(e))
  }

  function WorkerKey(e: Event, epochs: map<string, int>): RowKey {
    RowKey(CellOf(e), Some(WorkerLabel(e, epochs)))
  }

  function WorkerKeys(es: seq<Event>, epochs: map<string, int>): set<RowKey> {
    set e | e in es && Counted(e) :: WorkerKey(e, epochs)
  }

  function RowKeys(cs: seq<Commit>, es: seq<Event>, epochs: map<string, int>): set<RowKey> {
    (set c | c in CellsOf(cs, es) :: RowKey(c, None)) + WorkerKeys(es, epochs)
  }

  /** A claim by somebody with a name; here `system` is a name. */
  predicate Claim(e: Event) {
    e.kind == "claimed" && e.actor.Some? && e.actor.value != ""
  }

  function Claimers(es: seq<Event>, cell: Cell): set<string> {
    set e | e in es && Claim(e) && CellOf(e) == cell :: e.actor.value
  }

  function ClaimingWorkers(es: seq<Event>, epochs: map<string, int>): set<RowKey> {
    set e | e in es && Claim(e) && WorkerLabel(e, epochs) != INFERENTIAL :: WorkerKey(e, epochs)
  }

  function ActiveOf(es: seq<Event>, epochs: map<string, int>, key: RowKey): nat {
    if key.worker.None? then |Claimers(es, key.cell)|
    else if key in ClaimingWorkers(es, epochs) then 1 else 0
  }

  function TallyOf(cs: seq<Commit>, es: seq<Event>, epochs: map<string, int>, key: RowKey, m: Measure): int {
    if key.worker.None? then CellTally(cs, es, epochs, {key.cell}, m)
    else EventTally(es, epochs, {key.cell}, Among({key.worker.value}), m)
  }

  ghost predicate Describes(row: Row, cs: seq<Commit>, es: seq<Event>, epochs: map<string, int>,
                            family: map<string, string>)
  {
    && row.family == FamilyOf(family, row.key.cell.repo)
    && row.active == ActiveOf(es, epochs, row.key)
    && forall m :: Value(row.agg, m) == TallyOf(cs, es, epochs, row.key, m)
  }

  // ------------------------------------------------------------ row order

  function Rank(worker: Option<string>): nat {
    if worker.None? then 0 else if worker.value == INFERENTIAL then 1 else 2
  }

  function LabelOf(worker: Option<string>): string {
    if worker.None? then "" else worker.value
  }

  /** The first four fields of a row spec, compared as a tuple. */
  predicate Before(a: RowKey, b: RowKey) {
    || a.cell.hour < b.cell.hour
    || (a.cell.hour == b.cell.hour
        && (|| Less(a.cell.repo, b.cell.repo)
            || (a.cell.repo == b.cell.repo
                && (|| Rank(a.worker) < Rank(b.worker)
                    || (Rank(a.worker) == Rank(b.worker) && Less(LabelOf(a.worker), LabelOf(b.worker)))))))
  }

  /** Those four fields always decide: two different rows never tie on them. */
  lemma FourFieldsDecide(a: RowKey, b: RowKey)
    ensures a != b ==> Before(a, b) || Before(b, a)
    ensures !(Before(a, b) && Before(b, a)) && !Before(a, a)
  {
    LessIsTotal(a.cell.repo, b.cell.repo);
    LessIsTotal(LabelOf(a.worker), LabelOf(b.worker));
    LessIsTotal(a.cell.repo, a.cell.repo);
    LessIsTotal(LabelOf(a.worker), LabelOf(a.worker));
  }

  lemma BeforeIsTransitive(a: RowKey, b: RowKey, c: RowKey)
    requires Before(a, b) && Before(b, c)
    ensures Before(a, c)
  {
    if Less(a.cell.repo, b.cell.repo) && Less(b.cell.repo, c.cell.repo) {
      LessIsTransitive(a.cell.repo, b.cell.repo, c.cell.repo);
    }
    if Less(LabelOf(a.worker), LabelOf(b.worker)) && Less(LabelOf(b.worker), LabelOf(c.worker)) {
      LessIsTransitive(LabelOf(a.worker), LabelOf(b.worker), LabelOf(c.worker));
    }
  }

  ghost predicate Ascending(rows: seq<Row>) {
    forall i, j :: 0 <= i < j < |rows| ==> Before(rows[i].key, rows[j].key)
  }

  ghost function KeysOf(rows: seq<Row>): set<RowKey> {
    set r | r in rows :: r.key
  }

  /** What `build_hourly` returns. */
  ghost predicate IsRollup(rows: seq<Row>, cs: seq<Commit>, es: seq<Event>, epochs: map<string, int>,
                           family: map<string, string>)
  {
    && Ascending(rows)
    && KeysOf(rows) == RowKeys(cs, es, epochs)
    && forall r :: r in rows ==> Describes(r, cs, es, epochs, family)
  }

  // ------------------------------------------------------------ the tables

  function Held<K>(m: map<K, Agg>, k: K): (a: Agg)
    ensures k in m ==> a == m[k]
    ensures k !in m ==> a == EMPTY
  {
    if k in m then m[k] else EMPTY
  }

  function SetAt<K, T>(m: map<K, set<T>>, k: K): (s: set<T>)
    ensures k in m ==> s == m[k]
    ensures k !in m ==> s == {}
  {
    if k in m then m[k] else {}
  }

  ghost predicate CellsHold(cells: map<Cell, Agg>, cs: seq<Commit>, es: seq<Event>, epochs: map<string, int>) {
    && cells.Keys == CellsOf(cs, es)
    && forall c, m :: Value(Held(cells, c), m) == CellTally(cs, es, epochs, {c}, m)
  }

  ghost predicate WorkersHold(workers: map<RowKey, Agg>, es: seq<Event>, epochs: map<string, int>) {
    && workers.Keys == WorkerKeys(es, epochs)
    && forall c, w, m :: Value(Held(workers, RowKey(c, Some(w))), m) == EventTally(es, epochs, {c}, Among({w}), m)
  }

  ghost predicate ClaimersHold(claimers: map<Cell, set<string>>, claiming: set<RowKey>, es: seq<Event>,
                               epochs: map<string, int>)
  {
    && (forall c :: SetAt(claimers, c) == Claimers(es, c))
    && claiming == ClaimingWorkers(es, epochs)
  }

  method CountCommits(commits: seq<Commit>, ghost epochs: map<string, int>) returns (cells: map<Cell, Agg>)
    ensures CellsHold(cells, commits, [], epochs)
  {
    hide CellsHold;
    cells := map[];
    NothingYet(epochs);
    for i := 0 to |commits|
      invariant CellsHold(cells, commits[..i], [], epochs)
    {
      var commit := commits[i];
      assert commits[..i + 1] == commits[..i] + [commit];
      CommitStep(cells, commits[..i], epochs, commit);
      var cell := CommitCell(commit);
      cells := cells[cell := AddCommit(Held(cells, cell), commit)];
    }
    assert commits[..|commits|] == commits;
  }

  lemma CommitStep(cells: map<Cell, Agg>, cs: seq<Commit>, epochs: map<string, int>, c: Commit)
    requires CellsHold(cells, cs, [], epochs)
    ensures CellsHold(cells[CommitCell(c) := AddCommit(Held(cells, CommitCell(c)), c)], cs + [c], [], epochs)
  {
    hide CommitTally, AddCommit;
    var next := cells[CommitCell(c) := AddCommit(Held(cells, CommitCell(c)), c)];
    assert CellsOf(cs + [c], []) == CellsOf(cs, []) + {CommitCell(c)};
    forall k, m ensures Value(Held(next, k), m) == CellTally(cs + [c], [], epochs, {k}, m) {
      OneMoreCommit(cs, c, {k}, m);
      assert Value(Held(cells, k), m) == CellTally(cs, [], epochs, {k}, m);
    }
  }

  lemma CellsStep(cells: map<Cell, Agg>, cs: seq<Commit>, es: seq<Event>, epochs: map<string, int>, e: Event)
    requires CellsHold(cells, cs, es, epochs)
    ensures var next := if Counted(e) then cells[CellOf(e) := AddEvent(Held(cells, CellOf(e)), e)] else cells;
            CellsHold(next, cs, es + [e], epochs)
  {
    hide EventTally, CommitTally, AddEvent;
    var next := if Counted(e) then cells[CellOf(e) := AddEvent(Held(cells, CellOf(e)), e)] else cells;
    assert CellsOf(cs, es + [e]) == CellsOf(cs, es) + (if Counted(e) then {CellOf(e)} else {});
    forall k, m ensures Value(Held(next, k), m) == CellTally(cs, es + [e], epochs, {k}, m) {
      OneMoreEvent(es, e, epochs, {k}, Everyone, m);
      assert Value(Held(cells, k), m) == CellTally(cs, es, epochs, {k}, m);
    }
  }

  lemma WorkersStep(workers: map<RowKey, Agg>, es: seq<Event>, epochs: map<string, int>, e: Event)
    requires WorkersHold(workers, es, epochs)
    ensures var k := WorkerKey(e, epochs);
            WorkersHold(if Counted(e) then workers[k := AddEvent(Held(workers, k), e)] else workers, es + [e], epochs)
  {
    hide EventTally, AddEvent, WorkerLabel;
    var key := WorkerKey(e, epochs);
    var next := if Counted(e) then workers[key := AddEvent(Held(workers, key), e)] else workers;
    assert WorkerKeys(es + [e], epochs) == WorkerKeys(es, epochs) + (if Counted(e) then {WorkerKey(e, epochs)} else {});
    forall c, w, m
      ensures Value(Held(next, RowKey(c, Some(w))), m) == EventTally(es + [e], epochs, {c}, Among({w}), m)
    {
      OneMoreEvent(es, e, epochs, {c}, Among({w}), m);
      assert Value(Held(workers, RowKey(c, Some(w))), m) == EventTally(es, epochs, {c}, Among({w}), m);
    }
  }

  lemma ClaimersStep(claimers: map<Cell, set<string>>, claiming: set<RowKey>, es: seq<Event>, epochs: map<string, int>,
                     e: Event)
    requires ClaimersHold(claimers, claiming, es, epochs)
    ensures ClaimersHold(
              if Claim(e) then claimers[CellOf(e) := SetAt(claimers, CellOf(e)) + {e.actor.value}] else claimers,
              if Claim(e) && WorkerLabel(e, epochs) != INFERENTIAL then claiming + {WorkerKey(e, epochs)} else claiming,
              es + [e], epochs)
  {
    forall c
      ensures Claimers(es + [e], c) == Claimers(es, c) + (if Claim(e) && CellOf(e) == c then {e.actor.value} else {})
    {}
    assert ClaimingWorkers(es + [e], epochs)
        == ClaimingWorkers(es, epochs) +
            (if Claim(e) && WorkerLabel(e, epochs) != INFERENTIAL then {WorkerKey(e, epochs)} else {});
  }

  /** The event loop: both tables and both claimer tables are filled together. */
  method CountEvents(ghost commits: seq<Commit>, events: seq<Event>, epochs: map<string, int>, counted: map<Cell, Agg>)
    returns (cells: map<Cell, Agg>, workers: map<RowKey, Agg>, claimers: map<Cell, set<string>>, claiming: set<RowKey>)
    requires CellsHold(counted, commits, [], epochs)
    ensures CellsHold(cells, commits, events, epochs)
    ensures WorkersHold(workers, events, epochs)
    ensures ClaimersHold(claimers, claiming, events, epochs)
  {
    hide CellsHold, WorkersHold, ClaimersHold;
    cells, workers, claimers, claiming := counted, map[], map[], {};
    NothingYet(epochs);
    for i := 0 to |events|
      invariant CellsHold(cells, commits, events[..i], epochs)
      invariant WorkersHold(workers, events[..i], epochs)
      invariant ClaimersHold(claimers, claiming, events[..i], epochs)
    {
      var e := events[i];
      assert events[..i + 1] == events[..i] + [e];
      CellsStep(cells, commits, events[..i], epochs, e);
      WorkersStep(workers, events[..i], epochs, e);
      ClaimersStep(claimers, claiming, events[..i], epochs, e);
      if Counted(e) {
        var cell, worker := CellOf(e), WorkerLabel(e, epochs);
        var key := RowKey(cell, Some(worker));
        cells := cells[cell := AddEvent(Held(cells, cell), e)];
        workers := workers[key := AddEvent(Held(workers, key), e)];
        if e.kind == "claimed" && e.actor.Some? && e.actor.value != "" {
          claimers := claimers[cell := SetAt(claimers, cell) + {e.actor.value}];
          if worker != INFERENTIAL {
            claiming := claiming + {key};
          }
        }
      }
    }
    assert events[..|events|] == events;
  }

  lemma NothingYet(epochs: map<string, int>)
    ensures CellsHold(map[], [], [], epochs)
    ensures WorkersHold(map[], [], epochs) && ClaimersHold(map[], {}, [], epochs)
  {}

  // ------------------------------------------------------------ the rows

  lemma LaterFollows(rows: seq<Row>, i: nat, j: nat, key: RowKey)
    requires i <= j < |rows| && Ascending(rows) && Before(key, rows[i].key)
    ensures Before(key, rows[j].key)
  {
    if i < j {
      BeforeIsTransitive(key, rows[i].key, rows[j].key);
    }
  }

  /** `sorted` puts a spec before the first one it precedes. */
  method InsertRow(row: Row, rows: seq<Row>) returns (out: seq<Row>)
    requires Ascending(rows) && row.key !in KeysOf(rows)
    ensures Ascending(out)
    ensures forall r :: r in out <==> r in rows || r == row
  {
    hide Before, Ascending;
    var i := 0;
    while i < |rows| && Before(rows[i].key, row.key)
      invariant 0 <= i <= |rows|
      invariant forall j :: 0 <= j < i ==> Before(rows[j].key, row.key)
    {
      i := i + 1;
    }
    forall j | i <= j < |rows| ensures Before(row.key, rows[j].key) {
      FourFieldsDecide(rows[i].key, row.key);
      assert rows[i].key in KeysOf(rows);
      LaterFollows(rows, i, j, row.key);
    }
    out := rows[..i] + [row] + rows[i..];
    InsertedInOrder(rows, i, row);
  }

  lemma InsertedInOrder(rows: seq<Row>, i: nat, row: Row)
    requires i <= |rows| && Ascending(rows)
    requires forall j :: 0 <= j < i ==> Before(rows[j].key, row.key)
    requires forall j :: i <= j < |rows| ==> Before(row.key, rows[j].key)
    ensures Ascending(rows[..i] + [row] + rows[i..])
    ensures forall r :: r in rows[..i] + [row] + rows[i..] <==> r in rows || r == row
  {
    hide Before;
    assert rows == rows[..i] + rows[i..];
  }

  /** One row per cell, for everybody together. */
  method CellRows(ghost commits: seq<Commit>, ghost events: seq<Event>, ghost epochs: map<string, int>,
                  family: map<string, string>, cells: map<Cell, Agg>, claimers: map<Cell, set<string>>,
                  ghost claiming: set<RowKey>)
    returns (rows: seq<Row>)
    requires CellsHold(cells, commits, events, epochs) && ClaimersHold(claimers, claiming, events, epochs)
    ensures Ascending(rows)
    ensures forall k :: k in KeysOf(rows) <==> k.worker.None? && k.cell in CellsOf(commits, events)
    ensures forall r :: r in rows ==> Describes(r, commits, events, epochs, family)
  {
    hide Before, Claimers, ClaimingWorkers, CellTally, CellsOf;
    rows := [];
    var todo := cells.Keys;
    while todo != {}
      invariant todo <= cells.Keys
      invariant Ascending(rows)
      invariant forall k :: k in KeysOf(rows) <==> k.worker.None? && k.cell in cells.Keys - todo
      invariant forall r :: r in rows ==> Describes(r, commits, events, epochs, family)
      decreases todo
    {
      var c :| c in todo;
      var row := Row(RowKey(c, None), FamilyOf(family, c.repo), |SetAt(claimers, c)|, cells[c]);
      assert forall m :: Value(Held(cells, c), m) == CellTally(commits, events, epochs, {c}, m);
      ghost var before := rows;
      rows := InsertRow(row, rows);
      todo := todo - {c};
      KeysAfterInsert(before, row, rows);
    }
  }

  lemma KeysAfterInsert(rows: seq<Row>, row: Row, out: seq<Row>)
    requires forall r :: r in out <==> r in rows || r == row
    ensures KeysOf(out) == KeysOf(rows) + {row.key}
  {}

  /** One row per worker of a cell, sorted in among the rows already there. */
  method WorkerRows(ghost commits: seq<Commit>, ghost events: seq<Event>, ghost epochs: map<string, int>,
                    family: map<string, string>, workers: map<RowKey, Agg>,
                    ghost claimers: map<Cell, set<string>>, claiming: set<RowKey>, first: seq<Row>)
    returns (rows: seq<Row>)
    requires WorkersHold(workers, events, epochs) && ClaimersHold(claimers, claiming, events, epochs)
    requires Ascending(first) && forall r :: r in first ==>
               r.key.worker.None? && Describes(r, commits, events, epochs, family)
    ensures Ascending(rows)
    ensures KeysOf(rows) == KeysOf(first) + WorkerKeys(events, epochs)
    ensures forall r :: r in rows ==> Describes(r, commits, events, epochs, family)
  {
    hide Before, Claimers, ClaimingWorkers, EventTally, CellTally, WorkerKeys;
    rows := first;
    var todo := workers.Keys;
    WorkerKeysAreNamed(events, epochs);
    while todo != {}
      invariant todo <= workers.Keys
      invariant Ascending(rows)
      invariant KeysOf(rows) == KeysOf(first) + (workers.Keys - todo)
      invariant forall r :: r in rows ==> Describes(r, commits, events, epochs, family)
      decreases todo
    {
      var key :| key in todo;
      assert key.worker.Some?;
      var row := Row(key, FamilyOf(family, key.cell.repo), if key in claiming then 1 else 0, workers[key]);
      var name := key.worker.value;
      assert forall m ::
          Value(Held(workers, RowKey(key.cell, Some(name))), m)
          == EventTally(events, epochs, {key.cell}, Among({name}), m);
      ghost var before := rows;
      rows := InsertRow(row, rows);
      todo := todo - {key};
      KeysAfterInsert(before, row, rows);
    }
  }

  lemma WorkerKeysAreNamed(es: seq<Event>, epochs: map<string, int>)
    ensures forall k :: k in WorkerKeys(es, epochs) ==> k.worker.Some?
  {}

  ghost predicate EpochsUsed(epochs: map<string, int>, given: Option<map<string, int>>, es: seq<Event>) {
    if given.Some? then epochs == given.value else AreEpochs(epochs, es)
  }

  /** `build_hourly`; `given` is its optional `attribution_epochs` argument. */
  method BuildHourly(commits: seq<Commit>, events: seq<Event>, family: map<string, string>,
                     given: Option<map<string, int>>)
    returns (rows: seq<Row>)
    ensures exists epochs :: EpochsUsed(epochs, given, events) && IsRollup(rows, commits, events, epochs, family)
  {
    hide AreEpochs, CellsHold, WorkersHold, ClaimersHold, Describes, Ascending, CellsOf, WorkerKeys;
    var known: map<string, int>;
    if given.Some? {
      known := given.value;
    } else {
      known := AttributionEpochs(events);
    }
    assert EpochsUsed(known, given, events);
    var counted := CountCommits(commits, known);
    var cells, workers, claimers, claiming := CountEvents(commits, events, known, counted);
    rows := CellRows(commits, events, known, family, cells, claimers, claiming);
    assert forall r :: r in rows ==> r.key in KeysOf(rows);
    rows := WorkerRows(commits, events, known, family, workers, claimers, claiming, rows);
  }
}

/**
 The twelve measures of the hourly table and what they are meant to add up to
 (src/aggregate.py:20-45, 86-95).

 A tally names the cells and workers it is about, and adds what each commit or
 event gives to one measure. The rollup's rows are described by tallies, and
 its conservation laws are laws about tallies.
 */
module Tally {
  import opened Prelude
  import opened Events
  import opened Commits
  import opened Attribution

  datatype Measure =
    | CommitCount | BulkCommits | Added | Deleted | AddedRaw | DeletedRaw | Files
    | Closed | ClosedBulk | Claimed | Released | Reopened

  /** One row's measures, all zero in `_EMPTY`. */
  datatype Agg = Agg(
    commits: int, bulkCommits: int, added: int, deleted: int, addedRaw: int, deletedRaw: int, files: int,
    closed: int, closedBulk: int, claimed: int, released: int, reopened: int
  )

  const EMPTY := Agg(0, 0, 0, 0, 0, 0, 0, 0, 0, 0, 0, 0)

  function Value(a: Agg, m: Measure): int {
    match m
    case CommitCount => a.commits
    case BulkCommits => a.bulkCommits
    case Added => a.added
    case Deleted => a.deleted
    case AddedRaw => a.addedRaw
    case DeletedRaw => a.deletedRaw
    case Files => a.files
    case Closed => a.closed
    case ClosedBulk => a.closedBulk
    case Claimed => a.claimed
    case Released => a.released
    case Reopened => a.reopened
  }

  /** `COUNTED_KINDS` */
  predicate Counted(e: Event) {
    e.kind == "closed" || e.kind == "claimed" || e.kind == "released" || e.kind == "reopened"
  }

  // ------------------------------------------------------------ contributions

  function CommitGives(c: Commit, m: Measure): int {
    match m
    case CommitCount => 1
    case BulkCommits => if c.isBulk then 1 else 0
    case Added => if c.isBulk then 0 else c.kept.added
    case Deleted => if c.isBulk then 0 else c.kept.deleted
    case Files => if c.isBulk then 0 else c.kept.files
    case AddedRaw => c.raw.added
    case DeletedRaw => c.raw.deleted
    case _ => 0
  }

  function EventGives(e: Event, m: Measure): int {
    match m
    case Closed => if e.kind == "closed" && !e.isBulk then 1 else 0
    case ClosedBulk => if e.kind == "closed" && e.isBulk then 1 else 0
    case Claimed => if e.kind == "claimed" then 1 else 0
    case Released => if e.kind == "released" then 1 else 0
    case Reopened => if e.kind == "reopened" then 1 else 0
    case _ => 0
  }

  /** The commit loop's updates (src/aggregate.py:87-95). */
  function AddCommit(a: Agg, c: Commit): (r: Agg)
    ensures forall m :: Value(r, m) == Value(a, m) + CommitGives(c, m)
  {
    var raw := a.(commits := a.commits + 1,
                  addedRaw := a.addedRaw + c.raw.added, deletedRaw := a.deletedRaw + c.raw.deleted);
    if c.isBulk then
      raw.(bulkCommits := a.bulkCommits + 1)
    else
      raw.(added := a.added + c.kept.added, deleted := a.deleted + c.kept.deleted, files := a.files + c.kept.files)
  }

  /** `_add_event` */
  function AddEvent(a: Agg, e: Event): (r: Agg)
    ensures forall m :: Value(r, m) == Value(a, m) + EventGives(e, m)
  {
    if e.kind == "closed" then
      if e.isBulk then a.(closedBulk := a.closedBulk + 1) else a.(closed := a.closed + 1)
    else if e.kind == "claimed" then a.(claimed := a.claimed + 1)
    else if e.kind == "released" then a.(released := a.released + 1)
    else if e.kind == "reopened" then a.(reopened := a.reopened + 1)
    else a
  }

  // ------------------------------------------------------------ tallies

  datatype Who = Everyone | Among(labels: set<string>)

  predicate Picks(who: Who, e: Event, epochs: map<string, int>) {
    who.Everyone? || WorkerLabel(e, epochs) in who.labels
  }

  function CommitTally(cs: seq<Commit>, cells: set<Cell>, m: Measure): int {
    if |cs| == 0 then 0
    else
      var c := cs[|cs| - 1];
      CommitTally(cs[..|cs| - 1], cells, m) + (if CommitCell(c) in cells then CommitGives(c, m) else 0)
  }

  function EventTally(es: seq<Event>, epochs: map<string, int>, cells: set<Cell>, who: Who, m: Measure): int {
    if |es| == 0 then 0
    else
      var e := es[|es| - 1];
      EventTally(es[..|es| - 1], epochs, cells, who, m)
        + (if CellOf(e) in cells && Picks(who, e, epochs) then EventGives(e, m) else 0)
  }

  function CellTally(cs: seq<Commit>, es: seq<Event>, epochs: map<string, int>, cells: set<Cell>, m: Measure): int {
    CommitTally(cs, cells, m) + EventTally(es, epochs, cells, Everyone, m)
  }

  function CommitTotal(cs: seq<Commit>, m: Measure): int {
    if |cs| == 0 then 0 else CommitTotal(cs[..|cs| - 1], m) + CommitGives(cs[|cs| - 1], m)
  }

  function EventTotal(es: seq<Event>, m: Measure): int {
    if |es| == 0 then 0 else EventTotal(es[..|es| - 1], m) + EventGives(es[|es| - 1], m)
  }

  // ------------------------------------------------------------ their algebra

  lemma OneMoreCommit(cs: seq<Commit>, c: Commit, cells: set<Cell>, m: Measure)
    ensures CommitTally(cs + [c], cells, m) ==
              CommitTally(cs, cells, m) + (if CommitCell(c) in cells then CommitGives(c, m) else 0)
  {
    assert (cs + [c])[..|cs|] == cs;
  }

  lemma OneMoreEvent(es: seq<Event>, e: Event, epochs: map<string, int>, cells: set<Cell>, who: Who, m: Measure)
    ensures EventTally(es + [e], epochs, cells, who, m) == EventTally(es, epochs, cells, who, m)
              + (if CellOf(e) in cells && Picks(who, e, epochs) then EventGives(e, m) else 0)
  {
    assert (es + [e])[..|es|] == es;
  }

  lemma {:induction false} CommitsSplit(cs: seq<Commit>, a: set<Cell>, b: set<Cell>, m: Measure)
    requires a !! b
    ensures CommitTally(cs, a + b, m) == CommitTally(cs, a, m) + CommitTally(cs, b, m)
  {
    if |cs| == 0 {
    } else {
      CommitsSplit(cs[..|cs| - 1], a, b, m);
    }
  }

  lemma {:induction false} EventsSplit(es: seq<Event>, epochs: map<string, int>, a: set<Cell>, b: set<Cell>, who: Who,
                                       m: Measure)
    requires a !! b
    ensures EventTally(es, epochs, a + b, who, m) ==
              EventTally(es, epochs, a, who, m) + EventTally(es, epochs, b, who, m)
  {
    if |es| == 0 {
    } else {
      EventsSplit(es[..|es| - 1], epochs, a, b, who, m);
    }
  }

  /** Workers split a cell's events the way cells split the whole log. */
  lemma {:induction false} WorkersSplit(es: seq<Event>, epochs: map<string, int>, cells: set<Cell>, a: set<string>,
                                        b: set<string>, m: Measure)
    requires a !! b
    ensures EventTally(es, epochs, cells, Among(a + b), m)
         == EventTally(es, epochs, cells, Among(a), m) + EventTally(es, epochs, cells, Among(b), m)
  {
    if |es| == 0 {
    } else {
      WorkersSplit(es[..|es| - 1], epochs, cells, a, b, m);
    }
  }

  /** A tally over all the labels that occur is everyone's. */
  lemma {:induction false} EveryLabelIsEveryone(es: seq<Event>, epochs: map<string, int>, cells: set<Cell>,
                                                labels: set<string>, m: Measure)
    requires forall e :: e in es && CellOf(e) in cells && Counted(e) ==> WorkerLabel(e, epochs) in labels
    ensures EventTally(es, epochs, cells, Among(labels), m) == EventTally(es, epochs, cells, Everyone, m)
  {
    if |es| == 0 {
    } else {
      var n := |es| - 1;
      EveryLabelIsEveryone(es[..n], epochs, cells, labels, m);
      assert es[n] in es;
    }
  }

  lemma {:induction false} NothingTallied(cs: seq<Commit>, es: seq<Event>, epochs: map<string, int>, cells: set<Cell>,
                                          who: Who, m: Measure)
    requires cells == {} || who == Among({})
    decreases |cs| + |es|
    ensures cells == {} ==> CommitTally(cs, cells, m) == 0
    ensures EventTally(es, epochs, cells, who, m) == 0
  {
    if |cs| > 0 && cells == {} {
      NothingTallied(cs[..|cs| - 1], [], epochs, cells, who, m);
    }
    if |es| == 0 {
    } else {
      NothingTallied([], es[..|es| - 1], epochs, cells, who, m);
    }
  }

  /** Every cell taken together holds the whole input. */
  lemma {:induction false} EveryCellIsTheTotal(cs: seq<Commit>, es: seq<Event>, epochs: map<string, int>,
                                               cells: set<Cell>, m: Measure)
    requires forall c :: c in cs ==> CommitCell(c) in cells
    requires forall e :: e in es && Counted(e) ==> CellOf(e) in cells
    decreases |cs| + |es|
    ensures CommitTally(cs, cells, m) == CommitTotal(cs, m)
    ensures EventTally(es, epochs, cells, Everyone, m) == EventTotal(es, m)
  {
    if |cs| == 0 {
    } else {
      assert cs[|cs| - 1] in cs;
      EveryCellIsTheTotal(cs[..|cs| - 1], [], epochs, cells, m);
    }
    if |es| == 0 {
    } else {
      assert es[|es| - 1] in es;
      EveryCellIsTheTotal([], es[..|es| - 1], epochs, cells, m);
    }
  }

  /** Kept lines never exceed raw ones if they do not in any commit. */
  lemma {:induction false} KeptWithinRaw(cs: seq<Commit>, cells: set<Cell>)
    requires forall c :: c in cs ==> Within(c.kept, c.raw)
    ensures 0 <= CommitTally(cs, cells, Added) <= CommitTally(cs, cells, AddedRaw)
    ensures 0 <= CommitTally(cs, cells, Deleted) <= CommitTally(cs, cells, DeletedRaw)
    ensures 0 <= CommitTally(cs, cells, BulkCommits) <= CommitTally(cs, cells, CommitCount)
  {
    if |cs| == 0 {
    } else {
      assert cs[|cs| - 1] in cs;
      KeptWithinRaw(cs[..|cs| - 1], cells);
    }
  }

  /** Commits give nothing to the bead measures, and events nothing to the others. */
  predicate BeadMeasure(m: Measure) {
    m.Closed? || m.ClosedBulk? || m.Claimed? || m.Released? || m.Reopened?
  }

  lemma {:induction false} CommitsHaveNoBeads(cs: seq<Commit>, cells: set<Cell>, m: Measure)
    requires BeadMeasure(m)
    ensures CommitTally(cs, cells, m) == 0
  {
    if |cs| == 0 {
    } else {
      CommitsHaveNoBeads(cs[..|cs| - 1], cells, m);
    }
  }

  lemma {:induction false} EventsHaveNoLines(es: seq<Event>, epochs: map<string, int>, cells: set<Cell>, who: Who,
                                             m: Measure)
    requires !BeadMeasure(m)
    ensures EventTally(es, epochs, cells, who, m) == 0
  {
    if |es| == 0 {
    } else {
      EventsHaveNoLines(es[..|es| - 1], epochs, cells, who, m);
    }
  }
}

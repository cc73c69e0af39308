/**
 Bulk-import marking (src/beads.py:315-354).

 The code counts closures per (repo, hour) cell, calls a cell bulk above the
 threshold, and then spreads that to every cell of an hour in which bulk cells
 hold at least the given share of the closures. `Flagged` states the meaning
 event by event. Shares are compared exactly, where the code divides floats.
 */
module BulkImport {
  import opened Prelude
  import opened Events

  // ------------------------------------------------------------- meaning

  function CellCount(es: seq<Event>, c: Cell): nat {
    if |es| == 0 then 0
    else CellCount(es[..|es| - 1], c) + (if Closure(es[|es| - 1]) && CellOf(es[|es| - 1]) == c then 1 else 0)
  }

  /** Closures of one hour that lie in these cells. */
  function HourCount(es: seq<Event>, hour: int, cells: set<Cell>): nat {
    if |es| == 0 then 0
    else
      var e := es[|es| - 1];
      HourCount(es[..|es| - 1], hour, cells) +
          (if Closure(e) && HourOf(e.ts) == hour && CellOf(e) in cells then 1 else 0)
  }

  function ClosedCells(es: seq<Event>): set<Cell> {
    set e | e in es && Closure(e) :: CellOf(e)
  }

  function DenseCells(es: seq<Event>, threshold: int): set<Cell> {
    set c | c in ClosedCells(es) && CellCount(es, c) > threshold
  }

  /** Over-threshold closures are at least the share of the hour's closures. */
  predicate Contaminated(es: seq<Event>, threshold: int, share: real, hour: int) {
    HourCount(es, hour, DenseCells(es, threshold)) as real >= share * HourCount(es, hour, ClosedCells(es)) as real
  }

  function BulkCells(es: seq<Event>, threshold: int, share: real): set<Cell> {
    set c | c in ClosedCells(es) && (CellCount(es, c) > threshold || Contaminated(es, threshold, share, c.hour))
  }

  predicate Flagged(es: seq<Event>, threshold: int, share: real, e: Event) {
    Closure(e) && (CellCount(es, CellOf(e)) > threshold || Contaminated(es, threshold, share, HourOf(e.ts)))
  }

  function Marked(es: seq<Event>, threshold: int, share: real): (out: seq<Event>)
    ensures |out| == |es|
    ensures forall i :: 0 <= i < |es| ==> out[i] == es[i].(isBulk := Flagged(es, threshold, share, es[i]))
  {
    seq(|es|, i requires 0 <= i < |es| => es[i].(isBulk := Flagged(es, threshold, share, es[i])))
  }

  // ------------------------------------------------------------ counting

  lemma {:induction false} CellIsCounted(es: seq<Event>, c: Cell)
    ensures c in ClosedCells(es) <==> CellCount(es, c) > 0
  {
    if |es| == 0 {
    } else {
      var n := |es| - 1;
      CellIsCounted(es[..n], c);
      assert es == es[..n] + [es[n]];
      if c in ClosedCells(es) {
        var e :| e in es && Closure(e) && CellOf(e) == c;
        assert e in es[..n] || e == es[n];
      }
      if c in ClosedCells(es[..n]) {
        var e :| e in es[..n] && Closure(e) && CellOf(e) == c;
        assert e in es;
      }
      assert es[n] in es;
    }
  }

  lemma {:induction false} OneMoreCell(es: seq<Event>, hour: int, cells: set<Cell>, c: Cell)
    requires c !in cells
    ensures HourCount(es, hour, cells + {c}) ==
              HourCount(es, hour, cells) + (if c.hour == hour then CellCount(es, c) else 0)
  {
    if |es| == 0 {
    } else {
      OneMoreCell(es[..|es| - 1], hour, cells, c);
    }
  }

  lemma {:induction false} FewerCells(es: seq<Event>, hour: int, a: set<Cell>, b: set<Cell>)
    requires a <= b
    ensures HourCount(es, hour, a) <= HourCount(es, hour, b)
  {
    if |es| == 0 {
    } else {
      FewerCells(es[..|es| - 1], hour, a, b);
    }
  }

  lemma {:induction false} NoCells(es: seq<Event>, hour: int)
    ensures HourCount(es, hour, {}) == 0
  {
    if |es| == 0 {
    } else {
      NoCells(es[..|es| - 1], hour);
    }
  }

  // ------------------------------------------------------------ the method

  /** First pass: closures per cell. */
  method CountCells(es: seq<Event>) returns (closedPerCell: map<Cell, nat>)
    ensures closedPerCell.Keys == ClosedCells(es)
    ensures forall c :: c in closedPerCell ==> closedPerCell[c] == CellCount(es, c)
  {
    closedPerCell := map[];
    for i := 0 to |es|
      invariant forall c :: c in closedPerCell <==> CellCount(es[..i], c) > 0
      invariant forall c :: c in closedPerCell ==> closedPerCell[c] == CellCount(es[..i], c)
    {
      assert es[..i + 1][..i] == es[..i];
      if es[i].kind == "closed" {
        var cell := CellOf(es[i]);
        closedPerCell := closedPerCell[cell := (if cell in closedPerCell then closedPerCell[cell] else 0) + 1];
      }
    }
    assert es[..|es|] == es;
    forall c ensures c in closedPerCell.Keys <==> c in ClosedCells(es) {
      CellIsCounted(es, c);
    }
  }

  lemma OneMorePass(es: seq<Event>, h: int, done: set<Cell>, dense: set<Cell>, c: Cell)
    requires c !in done
    ensures HourCount(es, h, done + {c}) == HourCount(es, h, done) + (if c.hour == h then CellCount(es, c) else 0)
    ensures HourCount(es, h, (done + {c}) * dense)
         == HourCount(es, h, done * dense) + (if c in dense && c.hour == h then CellCount(es, c) else 0)
  {
    OneMoreCell(es, h, done, c);
    if c in dense {
      OneMoreCell(es, h, done * dense, c);
      assert (done + {c}) * dense == done * dense + {c};
    } else {
      assert (done + {c}) * dense == done * dense;
    }
  }

  function CountAt<K>(m: map<K, nat>, k: K): (n: nat)
    ensures k in m ==> n == m[k]
  {
    if k in m then m[k] else 0
  }

  /** Second pass: per-hour totals over all cells and over the dense ones. */
  method CountHours(ghost es: seq<Event>, closedPerCell: map<Cell, nat>, dense: set<Cell>)
    returns (total: map<int, nat>, bulk: map<int, nat>)
    requires dense <= closedPerCell.Keys
    requires forall c :: c in closedPerCell ==> closedPerCell[c] == CellCount(es, c) && closedPerCell[c] > 0
    ensures forall c :: c in closedPerCell ==> c.hour in total
    ensures forall h :: h in total ==> total[h] > 0
    ensures forall h :: CountAt(total, h) == HourCount(es, h, closedPerCell.Keys)
    ensures forall h :: CountAt(bulk, h) == HourCount(es, h, dense)
  {
    hide HourCount, CellCount;
    total, bulk := map[], map[];
    var todo := closedPerCell.Keys;
    ghost var done: set<Cell> := {};
    forall h ensures HourCount(es, h, done) == 0 && HourCount(es, h, done * dense) == 0 {
      NoCells(es, h);
      assert done * dense == {};
    }
    while todo != {}
      invariant done + todo == closedPerCell.Keys && done !! todo
      invariant forall c :: c in done ==> c.hour in total
      invariant forall h :: h in total ==> total[h] > 0
      invariant forall h :: CountAt(total, h) == HourCount(es, h, done)
      invariant forall h :: CountAt(bulk, h) == HourCount(es, h, done * dense)
      decreases todo
    {
      var c :| c in todo;
      var n := closedPerCell[c];
      forall h
        ensures HourCount(es, h, done + {c}) == HourCount(es, h, done) + (if c.hour == h then n else 0)
        ensures HourCount(es, h, (done + {c}) * dense)
             == HourCount(es, h, done * dense) + (if c in dense && c.hour == h then n else 0)
      {
        OneMorePass(es, h, done, dense, c);
      }
      total := total[c.hour := CountAt(total, c.hour) + n];
      if c in dense {
        bulk := bulk[c.hour := CountAt(bulk, c.hour) + n];
      }
      todo := todo - {c};
      done := done + {c};
    }
    assert done == closedPerCell.Keys;
    assert done * dense == dense;
  }

  /** The cells the code computes from its counters are the declared ones. */
  method FindBulkCells(es: seq<Event>, threshold: int, share: real) returns (bulkCells: set<Cell>)
    ensures bulkCells == BulkCells(es, threshold, share)
  {
    hide HourCount, CellCount, ClosedCells;
    var closedPerCell := CountCells(es);
    forall c | c in closedPerCell ensures closedPerCell[c] > 0 {
      CellIsCounted(es, c);
    }
    var dense := set c | c in closedPerCell && closedPerCell[c] > threshold;
    assert dense == DenseCells(es, threshold);
    var total, bulk := CountHours(es, closedPerCell, dense);
    var contaminated := set h | h in total && total[h] > 0
                               && CountAt(bulk, h) as real / total[h] as real >= share;
    forall h | h in total ensures h in contaminated <==> Contaminated(es, threshold, share, h) {
      ShareAsProduct(CountAt(bulk, h), total[h], share);
    }
    bulkCells := dense + (set c | c in closedPerCell && c.hour in contaminated);
  }

  lemma ShareAsProduct(part: nat, whole: nat, share: real)
    requires whole > 0
    ensures part as real / whole as real >= share <==> part as real >= share * whole as real
  {
    var q := part as real / whole as real;
    assert q * whole as real == part as real;
    if q >= share {
      assert q * whole as real >= share * whole as real;
    } else {
      assert q * whole as real < share * whole as real;
    }
  }

  /** `mark_bulk_hours`: flags are written into the events in place. */
  method MarkBulkHours(events: array<Event>, threshold: int, share: real) returns (bulkCells: set<Cell>)
    modifies events
    ensures events[..] == Marked(old(events[..]), threshold, share)
    ensures bulkCells == BulkCells(old(events[..]), threshold, share)
  {
    hide BulkCells, Flagged;
    ghost var es := events[..];
    bulkCells := FindBulkCells(events[..], threshold, share);
    for i := 0 to events.Length
      invariant forall j :: 0 <= j < i ==> events[j] == es[j].(isBulk := Flagged(es, threshold, share, es[j]))
      invariant forall j :: i <= j < events.Length ==> events[j] == es[j]
    {
      var e := events[i];
      assert e in es;
      CellsAreTheFlaggedOnes(es, threshold, share, e);
      events[i] := e.(isBulk := e.kind == "closed" && CellOf(e) in bulkCells);
    }
    assert events[..] == Marked(es, threshold, share);
  }

  // ------------------------------------------------------------ properties

  /** The cell set and the event flags say the same thing. */
  lemma CellsAreTheFlaggedOnes(es: seq<Event>, threshold: int, share: real, e: Event)
    requires e in es
    ensures Flagged(es, threshold, share, e) <==> Closure(e) && CellOf(e) in BulkCells(es, threshold, share)
  {
    assert Closure(e) ==> CellOf(e) in ClosedCells(es);
  }

  lemma {:induction false} CountsDropOne(es: seq<Event>, i: nat, c: Cell, hour: int, cells: set<Cell>)
    requires i < |es|
    ensures CellCount(es, c) ==
              CellCount(es[..i] + es[i + 1..], c) + (if Closure(es[i]) && CellOf(es[i]) == c then 1 else 0)
    ensures HourCount(es, hour, cells) == HourCount(es[..i] + es[i + 1..], hour, cells)
              + (if Closure(es[i]) && HourOf(es[i].ts) == hour && CellOf(es[i]) in cells then 1 else 0)
  {
    var n := |es| - 1;
    var less := es[..i] + es[i + 1..];
    if i == n {
      assert less == es[..n];
    } else {
      CountsDropOne(es[..n], i, c, hour, cells);
      assert less[..|less| - 1] == es[..n][..i] + es[..n][i + 1..];
      assert less[|less| - 1] == es[n];
    }
  }

  /** The last element's place in another order, and what is left without it. */
  lemma LastElsewhere(es: seq<Event>, fs: seq<Event>) returns (i: nat)
    requires multiset(es) == multiset(fs) && |es| > 0
    ensures i < |fs| && fs[i] == es[|es| - 1]
    ensures multiset(es[..|es| - 1]) == multiset(fs[..i] + fs[i + 1..])
  {
    var n := |es| - 1;
    assert es[n] in multiset(es);
    i :| 0 <= i < |fs| && fs[i] == es[n];
    assert fs == fs[..i] + [fs[i]] + fs[i + 1..];
    assert es == es[..n] + [es[n]];
    assert multiset(fs[..i] + fs[i + 1..]) == multiset(fs) - multiset{fs[i]};
  }

  lemma {:induction false} CountsIgnoreOrder(es: seq<Event>, fs: seq<Event>, c: Cell, hour: int, cells: set<Cell>)
    requires multiset(es) == multiset(fs)
    ensures CellCount(es, c) == CellCount(fs, c) && HourCount(es, hour, cells) == HourCount(fs, hour, cells)
  {
    assert |es| == |multiset(es)| && |fs| == |multiset(fs)|;
    if |es| == 0 {
    } else {
      var i := LastElsewhere(es, fs);
      CountsDropOne(fs, i, c, hour, cells);
      CountsIgnoreOrder(es[..|es| - 1], fs[..i] + fs[i + 1..], c, hour, cells);
    }
  }

  /** Marking does not depend on the order in which events were read. */
  lemma BulkCellsIgnoreOrder(es: seq<Event>, fs: seq<Event>, threshold: int, share: real)
    requires multiset(es) == multiset(fs)
    ensures BulkCells(es, threshold, share) == BulkCells(fs, threshold, share)
    ensures forall e :: Flagged(es, threshold, share, e) <==> Flagged(fs, threshold, share, e)
  {
    forall e ensures e in es <==> e in fs {
      assert e in es <==> e in multiset(es);
      assert e in fs <==> e in multiset(fs);
    }
    assert ClosedCells(es) == ClosedCells(fs);
    forall c: Cell ensures CellCount(es, c) == CellCount(fs, c) {
      CountsIgnoreOrder(es, fs, c, 0, {});
    }
    var dense := DenseCells(es, threshold);
    assert dense == DenseCells(fs, threshold);
    forall h: int
      ensures HourCount(es, h, dense) == HourCount(fs, h, dense)
      ensures HourCount(es, h, ClosedCells(es)) == HourCount(fs, h, ClosedCells(es))
    {
      CountsIgnoreOrder(es, fs, Cell("", 0), h, dense);
      CountsIgnoreOrder(es, fs, Cell("", 0), h, ClosedCells(es));
    }
    assert forall h: int :: Contaminated(es, threshold, share, h) <==> Contaminated(fs, threshold, share, h);
  }

  /** Raising the threshold or the share can only unmark cells. */
  lemma BulkCellsShrink(es: seq<Event>, threshold: int, higher: int, share: real, larger: real)
    requires threshold <= higher && share <= larger
    ensures BulkCells(es, higher, larger) <= BulkCells(es, threshold, share)
    ensures forall e :: Flagged(es, higher, larger, e) ==> Flagged(es, threshold, share, e)
  {
    hide CellCount, HourCount, ClosedCells;
    forall h: int ensures Contaminated(es, higher, larger, h) ==> Contaminated(es, threshold, share, h) {
      if Contaminated(es, higher, larger, h) {
        ContaminationShrinks(es, threshold, higher, share, larger, h);
      }
    }
  }

  lemma ContaminationShrinks(es: seq<Event>, threshold: int, higher: int, share: real, larger: real, h: int)
    requires threshold <= higher && share <= larger
    requires Contaminated(es, higher, larger, h)
    ensures Contaminated(es, threshold, share, h)
  {
    hide CellCount, HourCount, ClosedCells;
    FewerCells(es, h, DenseCells(es, higher), DenseCells(es, threshold));
    SmallerShare(share, larger, HourCount(es, h, ClosedCells(es)) as real);
  }

  lemma SmallerShare(share: real, larger: real, t: real)
    requires share <= larger && t >= 0.0
    ensures share * t <= larger * t
  {}

  lemma {:induction false} CountsIgnoreFlags(es: seq<Event>, fs: seq<Event>, c: Cell, hour: int, cells: set<Cell>)
    requires |es| == |fs| && forall i :: 0 <= i < |es| ==> fs[i] == es[i].(isBulk := fs[i].isBulk)
    ensures CellCount(es, c) == CellCount(fs, c) && HourCount(es, hour, cells) == HourCount(fs, hour, cells)
  {
    if |es| == 0 {
    } else {
      CountsIgnoreFlags(es[..|es| - 1], fs[..|es| - 1], c, hour, cells);
    }
  }

  /** Flags are an output only: marking a marked log again changes nothing. */
  lemma MarkingIsIdempotent(es: seq<Event>, threshold: int, share: real)
    ensures Marked(Marked(es, threshold, share), threshold, share) == Marked(es, threshold, share)
  {
    hide CellCount, HourCount;
    var fs := Marked(es, threshold, share);
    forall c: Cell ensures CellCount(es, c) == CellCount(fs, c) && (c in ClosedCells(es) <==> c in ClosedCells(fs)) {
      CountsIgnoreFlags(es, fs, c, 0, {});
      CellIsCounted(es, c);
      CellIsCounted(fs, c);
    }
    assert ClosedCells(es) == ClosedCells(fs);
    var dense := DenseCells(es, threshold);
    assert dense == DenseCells(fs, threshold);
    forall h: int ensures Contaminated(es, threshold, share, h) <==> Contaminated(fs, threshold, share, h) {
      CountsIgnoreFlags(es, fs, Cell("", 0), h, dense);
      CountsIgnoreFlags(es, fs, Cell("", 0), h, ClosedCells(es));
    }
    forall i | 0 <= i < |es| ensures Flagged(es, threshold, share, es[i]) == Flagged(fs, threshold, share, fs[i]) {}
  }
}

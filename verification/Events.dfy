/** Bead events and the hour cells they fall into (src/beads.py:288-296, 323-324). */
module Events {
  import opened Prelude

  datatype Event = Event(
    repo: string,
    ts: int,
    workspace: string,
    issueId: Option<string>,
    kind: string,
    actor: Option<string>,
    resultingStatus: Option<string>,
    isBulk: bool
  )

  datatype Cell = Cell(repo: string, hour: int)

  /** `ts // 3600`; with a positive divisor Dafny's quotient is Python's floor. */
  function HourOf(ts: int): int {
    ts / 3600
  }

  function CellOf(e: Event): Cell {
    Cell(e.repo, HourOf(e.ts))
  }

  predicate Closure(e: Event) {
    e.kind == "closed"
  }

  /** A closing actor that starts a repository's attribution: a non-empty, non-system string. */
  predicate Named(actor: Option<string>) {
    actor.Some? && actor.value != "" && actor.value != "system"
  }
}

/** Scanned commits (src/gitscan.py:541-546). */
module Commits {
  import opened Prelude
  import opened Events

  datatype Lines = Lines(added: int, deleted: int, files: int)

  const NO_LINES := Lines(0, 0, 0)

  /** `kept` leaves out the entries on excluded paths, `raw` counts them all. */
  datatype Commit = Commit(
    sha: string,
    repo: string,
    ts: int,
    authorEmail: string,
    subject: string,
    beadId: Option<string>,
    kept: Lines,
    raw: Lines,
    isBulk: bool
  )

  function CommitCell(c: Commit): Cell {
    Cell(c.repo, HourOf(c.ts))
  }

  function Plus(a: Lines, b: Lines): Lines {
    Lines(a.added + b.added, a.deleted + b.deleted, a.files + b.files)
  }

  predicate Within(a: Lines, b: Lines) {
    0 <= a.added <= b.added && 0 <= a.deleted <= b.deleted && 0 <= a.files <= b.files
  }
}

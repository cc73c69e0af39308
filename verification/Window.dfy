/** Half-open reporting windows (src/window.py:13-38), in microseconds since the epoch. */
module Window {

  datatype Window = Window(start: int, end: int)

  /** `ReportingWindow.__post_init__` refuses anything else. */
  predicate ValidWindow(w: Window) {
    w.start < w.end
  }

  predicate Contains(w: Window, t: int) {
    w.start <= t < w.end
  }

  const SECOND := 1000000

  /** `contains_epoch` */
  predicate ContainsEpoch(w: Window, seconds: int) {
    Contains(w, seconds * SECOND)
  }

  /** Adjacent windows share no instant and leave none out. */
  lemma AdjacentWindowsPartition(a: int, b: int, c: int, t: int)
    requires a < b < c
    ensures Contains(Window(a, c), t) <==> Contains(Window(a, b), t) || Contains(Window(b, c), t)
    ensures !(Contains(Window(a, b), t) && Contains(Window(b, c), t))
    // the start belongs to a window and the end does not
    ensures Contains(Window(a, b), a) && !Contains(Window(a, b), b)
  {}

  /** Whole seconds are compared as instants, not as a count of microseconds. */
  lemma EpochsAreInstants(start: int, end: int, seconds: int)
    ensures ContainsEpoch(Window(1000000 * start, 1000000 * end), seconds) <==> start <= seconds < end
  {}
}

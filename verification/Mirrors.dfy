/**
 One repository's bare mirror and its refreshes (src/gitscan.py:296-450,
 src/retry.py:23-46).

 Every git command may succeed or fail in any of the ways the code tells apart;
 a failed clone may leave debris, and a directory removal may be incomplete.
 `stuck` counts incomplete removals, so that guarantees which need removals to
 work can say so.
 */
module Mirrors {
  import opened Prelude

  /** A mirror is told from its replacement by the clone that made it. */
  datatype Dir = Absent | Debris | Mirror(clone: nat)

  datatype Kind = Authentication | TimedOut | StorageFull | OtherGit | NotGit

  /** `transient`, `storageText` and `shallowText`: what the message's wording matches. */
  datatype Failure = Failure(kind: Kind, transient: bool, storageText: bool, shallowText: bool)

  datatype History = Complete | Incomplete | VolumeFull

  const MAX_ATTEMPTS := 3
  const DEEPEN_MIN_COMMITS := 100
  const DEEPEN_MAX_ATTEMPTS := 8

  /** `_is_transient_remote_error` */
  predicate Retryable(f: Failure) {
    match f.kind
    case Authentication => false
    case TimedOut => true
    case StorageFull => f.transient
    case OtherGit => f.transient
    case NotGit => false
  }

  /**
   The retry policy (src/retry.py:35-46): again only after a retryable failure,
   and a retryable one is the outcome only of the last attempt.
   */
  ghost predicate Retried(tries: seq<Option<Failure>>, r: Option<Failure>) {
    var n := |tries|;
    && 1 <= n <= MAX_ATTEMPTS && tries[n - 1] == r
    && (forall i :: 0 <= i < n - 1 ==> tries[i].Some? && Retryable(tries[i].value))
    && (r.Some? && Retryable(r.value) ==> n == MAX_ATTEMPTS)
  }

  /** A refused credential and what is no git failure end it at once; a timeout does not. */
  lemma RetriesAreForTransients(tries: seq<Option<Failure>>, r: Option<Failure>, i: nat)
    requires Retried(tries, r) && i < |tries|
    ensures i < |tries| - 1 ==>
              && tries[i].Some? && tries[i].value.kind != Authentication && tries[i].value.kind != NotGit
              && (tries[i].value.kind == TimedOut || tries[i].value.transient)
    ensures r.Some? && r.value.kind == TimedOut ==> |tries| == 3
    ensures r.Some? && (r.value.kind == OtherGit || r.value.kind == StorageFull) && r.value.transient ==> |tries| == 3
  {}

  /** How a refresh ended decides what happens to the existing mirror. */
  datatype Ending = Fresh | Stale | Refused(failure: Failure) | Corrupt

  /** One git command, or one look at the history, and how it ended after its retries. */
  datatype Step = FetchSince | Deepen(depth: nat) | CheckHistory(complete: bool) | CloneSince | CloneOne

  datatype Event = Event(step: Step, failure: Option<Failure>)

  const STORAGE_FAILURE := Failure(StorageFull, false, true, false)

  /** The handlers of the refresh (src/gitscan.py:339-367). */
  function EndingOf(refresh: Option<Failure>): Ending {
    if refresh.None? then Fresh
    else
      var f := refresh.value;
      match f.kind
      case Authentication => Refused(f)
      case TimedOut => Stale
      case StorageFull => Refused(f)
      case OtherGit => if f.storageText then Refused(STORAGE_FAILURE) else Corrupt
      case NotGit => Refused(f)
  }

  /** A git failure that is no timeout, no refused credential and no full volume. */
  predicate Corrupts(refresh: Option<Failure>) {
    refresh.Some? && refresh.value.kind == OtherGit && !refresh.value.storageText
  }

  // ------------------------------------------------------------ deepening

  function Doubled(base: nat, i: nat): nat {
    if i == 0 then base else 2 * Doubled(base, i - 1)
  }

  /** The depths asked for: `base`, doubled each round. */
  ghost predicate Doubling(rounds: seq<nat>, base: nat) {
    forall i: nat :: i < |rounds| ==> rounds[i] == Doubled(base, i)
  }

  function Sum(xs: seq<nat>): nat {
    if |xs| == 0 then 0 else Sum(xs[..|xs| - 1]) + xs[|xs| - 1]
  }

  lemma {:induction false} DoublingSums(rounds: seq<nat>, base: nat)
    requires Doubling(rounds, base)
    ensures Sum(rounds) + base == Doubled(base, |rounds|)
  {
    if |rounds| == 0 {
    } else {
      DoublingSums(rounds[..|rounds| - 1], base);
    }
  }

  lemma {:induction false} DoubledGrows(base: nat, i: nat, j: nat)
    requires i <= j
    ensures Doubled(base, i) <= Doubled(base, j)
  {
    if i == j {
    } else {
      DoubledGrows(base, i, j - 1);
    }
  }

  /** Eight doublings of the base depth ask for at most 255 times it. */
  lemma DeepeningIsBounded(rounds: seq<nat>, base: nat)
    requires Doubling(rounds, base) && |rounds| <= DEEPEN_MAX_ATTEMPTS
    ensures Sum(rounds) <= 255 * base
  {
    DoublingSums(rounds, base);
    DoubledGrows(base, |rounds|, 8);
    assert Doubled(base, 2) == 2 * Doubled(base, 1) == 4 * base;
    assert Doubled(base, 4) == 2 * Doubled(base, 3) == 16 * base;
    assert Doubled(base, 6) == 2 * Doubled(base, 5) == 64 * base;
    assert Doubled(base, 8) == 2 * Doubled(base, 7) == 256 * base;
  }

  /** The depths that deepening asked for. */
  function Depths(log: seq<Event>): seq<nat> {
    if |log| == 0 then []
    else
      var e := log[|log| - 1];
      Depths(log[..|log| - 1]) + (if e.step.Deepen? then [e.step.depth] else [])
  }

  predicate Cloning(e: Event) {
    e.step.CloneSince? || e.step.CloneOne?
  }

  /**
   A refresh fetches first, clones nothing, and stops at its first failure,
   which is the one it ends with; without one it ends at a history that
   reaches the cutoff, or when the rounds are used up.
   */
  ghost predicate IsRefresh(log: seq<Event>, days: nat, failure: Option<Failure>) {
    && |log| > 0 && log[0].step == FetchSince && log[|log| - 1].failure == failure
    && (forall i :: 0 <= i < |log| - 1 ==> log[i].failure.None?)
    && (forall i :: 0 <= i < |log| ==> !Cloning(log[i]))
    && Doubling(Depths(log), Max(DEEPEN_MIN_COMMITS, days)) && |Depths(log)| <= DEEPEN_MAX_ATTEMPTS
    && (failure.None? ==> log[|log| - 1].step == CheckHistory(true) || |Depths(log)| == DEEPEN_MAX_ATTEMPTS)
  }

  // ------------------------------------------------------------ the volume

  class Volume {
    var path: Dir
    var tmp: Dir
    /** Clones made so far, on this and every other repository's behalf. */
    var clones: nat
    ghost var stuck: nat
    /** Every attempt at a remote command, and how it failed. */
    ghost var tries: seq<Option<Failure>>
    ghost var log: seq<Event>

    constructor (path: Dir, tmp: Dir, clones: nat)
      ensures this.path == path && this.tmp == tmp && this.clones == clones && stuck == 0 && tries == [] && log == []
    {
      this.path, this.tmp, this.clones, stuck, tries, log := path, tmp, clones, 0, [], [];
    }

    /** Some failure git or the operating system may report. */
    method AnyFailure() returns (f: Failure)
    {
      var transient, storageText, shallowText := *, *, *;
      var kind := *;
      f := Failure(kind, transient, storageText, shallowText);
    }

    /** `shutil.rmtree(path, ignore_errors=True)` */
    method RemovePath()
      modifies this`path, this`stuck
      ensures stuck == old(stuck) ==> path == Absent
      ensures old(stuck) <= stuck && (path == Absent || path == old(path) || path == Debris)
    {
      if * {
        path := Absent;
      } else {
        stuck := stuck + 1;
        if * {
          path := if path == Absent then Absent else Debris;
        }
      }
    }

    method RemoveTmp()
      modifies this`tmp, this`stuck
      ensures stuck == old(stuck) ==> tmp == Absent
      ensures old(stuck) <= stuck
    {
      if * {
        tmp := Absent;
      } else {
        stuck := stuck + 1;
      }
    }

    /** `_run_remote` on a fetch: a fetch never takes the mirror away. */
    method Fetch(step: Step) returns (r: Option<Failure>)
      modifies this`tries, this`log
      ensures log == old(log) + [Event(step, r)]
      ensures old(tries) <= tries && Retried(tries[|old(tries)|..], r)
    {
      for attempt := 1 to MAX_ATTEMPTS + 1
        invariant attempt <= MAX_ATTEMPTS && log == old(log)
        invariant old(tries) <= tries && |tries| == |old(tries)| + attempt - 1
        invariant forall i :: |old(tries)| <= i < |tries| ==> tries[i].Some? && Retryable(tries[i].value)
      {
        var ok := *;
        if ok {
          tries := tries + [None];
          log := log + [Event(step, None)];
          return None;
        }
        var f := AnyFailure();
        tries := tries + [Some(f)];
        if attempt >= MAX_ATTEMPTS || !Retryable(f) {
          log := log + [Event(step, Some(f))];
          return Some(f);
        }
      }
      assert false;
    }

    /** `_run_remote` on a clone into the temporary directory, emptied before each attempt. */
    method Clone(step: Step) returns (r: Option<Failure>)
      modifies this`tmp, this`clones, this`stuck, this`tries, this`log
      ensures log == old(log) + [Event(step, r)]
      ensures old(tries) <= tries && Retried(tries[|old(tries)|..], r)
      ensures old(stuck) <= stuck && old(clones) <= clones
      ensures r.None? ==> tmp.Mirror? && old(clones) <= tmp.clone < clones
    {
      for attempt := 1 to MAX_ATTEMPTS + 1
        invariant attempt <= MAX_ATTEMPTS
        invariant old(stuck) <= stuck && old(clones) <= clones && log == old(log)
        invariant old(tries) <= tries && |tries| == |old(tries)| + attempt - 1
        invariant forall i :: |old(tries)| <= i < |tries| ==> tries[i].Some? && Retryable(tries[i].value)
      {
        RemoveTmp();
        var ok := *;
        if ok {
          tries := tries + [None];
          tmp := Mirror(clones);
          clones := clones + 1;
          log := log + [Event(step, None)];
          return None;
        }
        if * {
          tmp := Debris;
        }
        var f := AnyFailure();
        tries := tries + [Some(f)];
        if attempt >= MAX_ATTEMPTS || !Retryable(f) {
          log := log + [Event(step, Some(f))];
          return Some(f);
        }
      }
      assert false;
    }

    /** `mirror_history_complete` reads the shallow boundary and never raises but for a full volume. */
    method HistoryComplete() returns (h: History)
      modifies this`log
      ensures log == old(log) +
                [Event(CheckHistory(h == Complete), if h == VolumeFull then Some(STORAGE_FAILURE) else None)]
    {
      h := *;
      log := log + [Event(CheckHistory(h == Complete), if h == VolumeFull then Some(STORAGE_FAILURE) else None)];
    }

    /** Fetch since the cutoff, then deepen until the boundary reaches it or the rounds run out. */
    method Refresh(days: nat) returns (r: Option<Failure>, ghost steps: seq<Event>)
      modifies this`tries, this`log
      ensures log == old(log) + steps && IsRefresh(steps, days, r)
      ensures |tries| <= |old(tries)| + MAX_ATTEMPTS * (1 + |Depths(steps)|)
    {
      hide Depths, Doubling;
      ghost var base := Max(DEEPEN_MIN_COMMITS, days);
      DepthsGrow([], Event(FetchSince, None), base);
      r := Fetch(FetchSince);
      steps := [Event(FetchSince, r)];
      assert steps == [] + [Event(FetchSince, r)];
      DepthsGrow([], Event(FetchSince, r), base);
      if r.Some? {
        return;
      }
      var depth: nat := Max(DEEPEN_MIN_COMMITS, days);
      for i := 0 to DEEPEN_MAX_ATTEMPTS
        invariant log == old(log) + steps
        invariant |steps| > 0 && steps[0].step == FetchSince && steps[|steps| - 1].failure.None?
        invariant forall j :: 0 <= j < |steps| ==> steps[j].failure.None? && !Cloning(steps[j])
        invariant Doubling(Depths(steps), base) && |Depths(steps)| == i && depth == Doubled(base, i)
        invariant |tries| <= |old(tries)| + MAX_ATTEMPTS * (1 + i)
      {
        var h := HistoryComplete();
        ghost var check := Event(CheckHistory(h == Complete), if h == VolumeFull then Some(STORAGE_FAILURE) else None);
        DepthsGrow(steps, check, base);
        steps := steps + [check];
        if h == Complete {
          return None, steps;
        }
        if h == VolumeFull {
          return Some(STORAGE_FAILURE), steps;
        }
        r := Fetch(Deepen(depth));
        DepthsGrow(steps, Event(Deepen(depth), r), base);
        steps := steps + [Event(Deepen(depth), r)];
        if r.Some? {
          return;
        }
        depth := depth * 2;
      }
      return None, steps;
    }

    /** Clone aside, then swap in; the `finally` empties the temporary directory. */
    method CloneAfresh() returns (r: Option<Failure>)
      modifies this
      ensures Appended(old(log), log) && (r.None? ==> |log| > |old(log)| && log[|log| - 1].failure.None?)
      ensures r.None? ==> path.Mirror? && old(clones) <= path.clone < clones
      ensures r.Some? ==> path == old(path) || path == Debris || path == Absent
      ensures stuck == old(stuck) && r.Some? && old(path) == Absent ==> path == Absent
      ensures old(stuck) <= stuck && old(clones) <= clones
      ensures stuck == old(stuck) ==> tmp == Absent || (tmp == old(tmp) && log == old(log) && r.Some?)
    {
      var madeRoot := *;
      if !madeRoot {
        var f := AnyFailure();
        return Some(f);
      }
      RemoveTmp();
      r := CloneAndSwap();
      RemoveTmp();
    }

    method CloneAndSwap() returns (r: Option<Failure>)
      modifies this
      ensures Appended(old(log), log) && (r.None? ==> |log| > |old(log)| && log[|log| - 1].failure.None?)
      ensures r.None? ==> path.Mirror? && old(clones) <= path.clone < clones
      ensures r.Some? ==> path == old(path) || path == Debris || path == Absent
      ensures stuck == old(stuck) && r.Some? && old(path) == Absent ==> path == Absent
      ensures old(stuck) <= stuck && old(clones) <= clones
    {
      r := Clone(CloneSince);
      if r.Some? {
        var f := r.value;
        if f.kind == StorageFull || f.kind == NotGit {
          return;
        }
        if f.storageText {
          return Some(STORAGE_FAILURE);
        }
        if !f.shallowText {
          return;
        }
        RemoveTmp();
        r := Clone(CloneOne);
        if r.Some? {
          return;
        }
      }
      RemovePath();
      var renamed := *;
      if path != Absent || !renamed {
        var f := AnyFailure();
        return Some(f);
      }
      path, tmp := tmp, Absent;
      return None;
    }

    /**
     `ensure_mirror`: Ok(refreshed) or the failure raised. `refresh` is the part
     of the log that refreshed an existing mirror.
     */
    method EnsureMirror(days: nat) returns (r: Result<bool, Failure>, ghost refresh: seq<Event>)
      modifies this
      ensures Appended(old(log) + refresh, log)
      ensures old(path).Mirror? <==> refresh != []
      ensures refresh != [] ==>
                IsRefresh(refresh, days, Ended(refresh)) && Sum(Depths(refresh)) <= 255 * Max(DEEPEN_MIN_COMMITS, days)
      ensures r.Ok? ==> path.Mirror?
      // The mirror is served stale for a timed-out refresh and for nothing else.
      ensures r == Ok(false) <==> Ended(refresh).Some? && Ended(refresh).value.kind == TimedOut
      // A refused credential, a full volume and what is no git failure are raised, whatever the wording.
      ensures Ended(refresh).Some? ==>
                match Ended(refresh).value.kind
                case TimedOut => true
                case OtherGit => Ended(refresh).value.storageText ==> r == Err(STORAGE_FAILURE)
                case _ => r == Err(Ended(refresh).value)
      // Only a git failure of no special kind gives the mirror up.
      ensures refresh != [] && !Corrupts(Ended(refresh)) ==>
                path == old(path) && tmp == old(tmp) && clones == old(clones) && log == old(log) + refresh
      ensures refresh != [] && Ended(refresh).None? ==> r == Ok(true)
      ensures Ended(refresh).Some? && !Corrupts(Ended(refresh)) && Ended(refresh).value.kind != TimedOut ==>
                r == Err(if Ended(refresh).value.kind == OtherGit then STORAGE_FAILURE else Ended(refresh).value)
      // Otherwise a clone replaces it, or nothing is left.
      ensures refresh == [] || Corrupts(Ended(refresh)) ==>
                && (r.Ok? ==> old(clones) <= path.clone < clones)
                && (r.Ok? ==> |log| > |old(log) + refresh| && log[|log| - 1].failure.None?)
                && (r.Err? && stuck == old(stuck) && !old(path).Debris? ==> path == Absent)
                // nor litter, unless no clone was even tried
                && (stuck == old(stuck) ==> tmp == Absent || (tmp == old(tmp) && log == old(log) + refresh && r.Err?))
    {
      hide IsRefresh, Depths, Doubling;
      refresh := [];
      assert log + [] == log;
      if path.Mirror? {
        var ended;
        ended, refresh := Refresh(days);
        RefreshEnds(refresh, days, ended);
        assert log + [] == log;
        match EndingOf(ended)
        case Fresh => return Ok(true), refresh;
        case Stale => return Ok(false), refresh;
        case Refused(f) => return Err(f), refresh;
        case Corrupt => RemovePath();
      }
      var failed := CloneAfresh();
      r := if failed.Some? then Err(failed.value) else Ok(true);
    }
  }

  /** How the last step of a refresh ended; None as well if there was none. */
  function Ended(refresh: seq<Event>): Option<Failure> {
    if |refresh| == 0 then None else refresh[|refresh| - 1].failure
  }

  /**
   At most a clone has been tried since; and after it one at depth 1 exactly if
   it failed because the cutoff leaves no commit.
   */
  ghost predicate Appended(before: seq<Event>, after: seq<Event>) {
    var n := |before|;
    && before <= after && |after| <= n + 2
    && (|after| > n ==> after[n].step == CloneSince && (|after| == n + 2 <==> NoCommitsInRange(after[n].failure)))
    && (|after| == n + 2 ==> after[n + 1].step == CloneOne)
  }

  predicate NoCommitsInRange(failure: Option<Failure>) {
    && failure.Some? && failure.value.shallowText && !failure.value.storageText
    && failure.value.kind != StorageFull && failure.value.kind != NotGit
  }

  lemma DepthsGrow(log: seq<Event>, e: Event, base: nat)
    ensures Depths(log + [e]) == Depths(log) + (if e.step.Deepen? then [e.step.depth] else [])
    ensures log == [] ==> Depths(log) == [] && Doubling(Depths(log), base)
    ensures Doubling(Depths(log), base) && (e.step.Deepen? ==> e.step.depth == Doubled(base, |Depths(log)|))
            ==> Doubling(Depths(log + [e]), base)
  {
    assert (log + [e])[..|log|] == log;
  }

  lemma RefreshEnds(refresh: seq<Event>, days: nat, ended: Option<Failure>)
    requires IsRefresh(refresh, days, ended)
    ensures refresh != [] && Ended(refresh) == ended
    ensures Sum(Depths(refresh)) <= 255 * Max(DEEPEN_MIN_COMMITS, days)
  {
    DeepeningIsBounded(Depths(refresh), Max(DEEPEN_MIN_COMMITS, days));
  }
}

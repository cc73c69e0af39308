/**
 When a repository's closures start to name their workers, and whom an event is
 then credited to (src/beads.py:60-72, src/aggregate.py:48-59).
 */
module Attribution {
  import opened Prelude
  import opened Events

  const INFERENTIAL := "inferential"

  predicate NamesItsWorker(e: Event) {
    Closure(e) && Named(e.actor)
  }

  ghost predicate NamedIn(es: seq<Event>, repo: string, ts: int) {
    exists e :: e in es && NamesItsWorker(e) && e.repo == repo && e.ts == ts
  }

  /** Each repository with a named closure, at the time of its earliest one. */
  ghost predicate AreEpochs(epochs: map<string, int>, es: seq<Event>) {
    && (forall repo :: repo in epochs ==> NamedIn(es, repo, epochs[repo]))
    && (forall e :: e in es && NamesItsWorker(e) ==> e.repo in epochs && epochs[e.repo] <= e.ts)
  }

  /** `attribution_epochs` */
  method AttributionEpochs(events: seq<Event>) returns (epochs: map<string, int>)
    ensures AreEpochs(epochs, events)
  {
    epochs := map[];
    for i := 0 to |events|
      invariant AreEpochs(epochs, events[..i])
    {
      var e := events[i];
      assert events[..i + 1] == events[..i] + [e];
      ghost var before := epochs;
      if e.kind == "closed" && e.actor.Some? && e.actor.value != "" && e.actor.value != "system" {
        if e.repo !in epochs || e.ts < epochs[e.repo] {
          epochs := epochs[e.repo := e.ts];
        }
      }
      forall repo | repo in epochs ensures NamedIn(events[..i + 1], repo, epochs[repo]) {
        if repo in before && epochs[repo] == before[repo] {
          var w :| w in events[..i] && NamesItsWorker(w) && w.repo == repo && w.ts == before[repo];
          assert w in events[..i + 1];
        } else {
          assert e in events[..i + 1];
        }
      }
    }
    assert events[..|events|] == events;
  }

  /** The description pins the map down. */
  lemma EpochsAreDetermined(a: map<string, int>, b: map<string, int>, es: seq<Event>)
    requires AreEpochs(a, es) && AreEpochs(b, es)
    ensures a == b
  {
    assert forall repo :: repo in a <==> repo in b;
    forall repo | repo in a ensures a[repo] == b[repo] {
      assert NamedIn(es, repo, a[repo]) && NamedIn(es, repo, b[repo]);
    }
  }

  /** `_worker_label` */
  function WorkerLabel(e: Event, epochs: map<string, int>): string {
    if e.repo in epochs && e.ts >= epochs[e.repo] && Named(e.actor) then e.actor.value else INFERENTIAL
  }

  /**
   With epochs taken from the same log no closure loses its name; the label is
   `inferential` only for a nameless actor, or for an actor called just that.
   */
  lemma ClosuresKeepTheirName(es: seq<Event>, epochs: map<string, int>, e: Event)
    requires AreEpochs(epochs, es) && e in es && Closure(e)
    ensures WorkerLabel(e, epochs) == INFERENTIAL <==> !Named(e.actor) || e.actor == Some(INFERENTIAL)
    ensures Named(e.actor) ==> WorkerLabel(e, epochs) == e.actor.value
  {
    assert NamesItsWorker(e) ==> e.repo in epochs && epochs[e.repo] <= e.ts;
  }

  /** A named label never predates the epoch, nor lies in an earlier hour. */
  lemma NamedLabelsFollowTheEpoch(e: Event, epochs: map<string, int>)
    requires WorkerLabel(e, epochs) != INFERENTIAL
    ensures e.repo in epochs && epochs[e.repo] <= e.ts && HourOf(epochs[e.repo]) <= HourOf(e.ts)
  {}
}

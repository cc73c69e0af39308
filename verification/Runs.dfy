/**
 Whole runs of the exporter: any number of publications and recoveries, each
 cut off after any S3 request (src/publish.py:393-697, src/main.py:369-463).

 A run is the list of buckets that ever existed. Each moment records which
 call was active and where it started; a new call may start at any moment,
 because the one before it returned or its process died there. The methods of
 module Publish prove that the changes inside one call keep `Change`.
 */
module Runs {
  import opened Prelude
  import opened CycleIds
  import opened Keys
  import opened Documents
  import opened S3
  import opened Protocol

  datatype Activity = Publishing(call: CycleCall) | Recovering(names: set<string>)

  datatype Moment = Moment(store: Store, activity: Activity, start: nat)

  ghost predicate Admissible(a: Activity) {
    match a
    case Publishing(c) => ValidCall(c)
    case Recovering(_) => true
  }

  ghost predicate Change(a: Activity, began: Store, s: Store, s': Store) {
    match a
    case Publishing(c) => PublishStep(c, began, s, s')
    case Recovering(names) => RecoverStep(names, s, s')
  }

  ghost predicate Begins(r: seq<Moment>, i: nat)
    requires 0 < i < |r|
  {
    r[i].start == i && r[i].store == r[i - 1].store
  }

  ghost predicate Continues(r: seq<Moment>, i: nat)
    requires 0 < i < |r| && r[i].start < |r|
  {
    && r[i].start == r[i - 1].start && r[i].activity == r[i - 1].activity
    && Change(r[i].activity, r[r[i].start].store, r[i - 1].store, r[i].store)
  }

  ghost predicate Run(r: seq<Moment>) {
    && |r| > 0 && r[0].start == 0
    && (forall i :: 0 <= i < |r| ==> r[i].start <= i && Admissible(r[i].activity))
    && (forall i :: 0 < i < |r| ==> Begins(r, i) || Continues(r, i))
  }

  /** The moments of a call whose history is h, cut off after its first n buckets. */
  function CutCall(a: Activity, h: seq<Store>, n: nat, start: nat): seq<Moment>
    requires n <= |h|
  {
    seq(n, i requires 0 <= i < n => Moment(h[i], a, start))
  }

  /**
   Any history that a method of module Publish traces, cut off anywhere, is a
   legal continuation of any run that ends where the history begins.
   */
  lemma CutCallExtendsRun(r: seq<Moment>, a: Activity, h: seq<Store>, n: nat)
    requires Run(r) && 1 <= n <= |h| && r[|r| - 1].store == h[0] && Admissible(a)
    requires forall i :: 0 <= i < |h| - 1 ==> Change(a, h[0], h[i], h[i + 1])
    ensures Run(r + CutCall(a, h, n, |r|))
  {
    var r' := r + CutCall(a, h, n, |r|);
    forall i | 0 < i < |r'| ensures r'[i].start <= i && (Begins(r', i) || Continues(r', i)) {
      if i < |r| {
        assert r'[i] == r[i] && r'[i - 1] == r[i - 1];
        assert r[i].start <= i && r'[r[i].start] == r[r[i].start];
        assert Begins(r, i) || Continues(r, i);
      } else if i > |r| {
        assert Change(a, h[0], h[i - 1 - |r|], h[i - |r|]);
      }
    }
  }

  /** What every change inside a call keeps, the whole run keeps. */
  lemma {:induction false} InductionOverRun(r: seq<Moment>, t0: nat, t: nat, p: Store -> bool)
    requires Run(r) && t0 <= t < |r| && p(r[t0].store)
    requires forall i :: t0 < i <= t && Continues(r, i) && p(r[i - 1].store) ==> p(r[i].store)
    ensures p(r[t].store)
  {
    if t0 == t {
    } else {
      InductionOverRun(r, t0, t - 1, p);
      assert Begins(r, t) || Continues(r, t);
    }
  }

  // ---------------------------------------------------------- crash atomicity

  /** The initial pointer with its cycle untouched, or exactly what one call committed. */
  ghost predicate Atomic(r: seq<Moment>, i: nat, s: Store)
    requires 0 <= i < |r|
  {
    || StillAt(r[0].store, s)
    || (exists j :: 0 <= j <= i && CommittedBy(r[j].activity, s))
  }

  ghost predicate CommittedBy(a: Activity, s: Store) {
    a.Publishing? && Resolve(s) == CommittedView(a.call) && NamesCompleteCycle(s)
  }

  ghost predicate WithinCall(a: Activity, began: Store, s: Store) {
    match a
    case Publishing(c) => AtomicWithin(c, began, s)
    case Recovering(_) => StillAt(began, s)
  }

  lemma StillAtIsTransitive(a: Store, b: Store, c: Store)
    requires StillAt(a, b) && StillAt(b, c)
    ensures StillAt(a, c)
  {
    if NamesCompleteCycle(a) {
      ViewDecidesCompleteness(a, b);
    }
  }

  lemma RecoveryKeepsView(names: set<string>, s: Store, s': Store)
    requires RecoverStep(names, s, s')
    ensures Resolve(s') == Resolve(s)
  {
    hide DecodePointer;
    if PointerDocOf(s).Some? {
      var d := PointerDocOf(s).value;
      forall name | name in d.names ensures SameAt(s, s', CycleObj(d.cycleId, name)) {}
      assert Resolve(s').objects == Resolve(s).objects;
    }
  }

  lemma AtomicWithinRun(r: seq<Moment>, i: nat)
    requires 0 <= i < |r| && r[i].start <= i
    requires Atomic(r, i, r[r[i].start].store) && WithinCall(r[i].activity, r[r[i].start].store, r[i].store)
    ensures Atomic(r, i, r[i].store)
  {
    var began := r[r[i].start].store;
    if StillAt(began, r[i].store) {
      if StillAt(r[0].store, began) {
        StillAtIsTransitive(r[0].store, began, r[i].store);
      } else {
        var j :| 0 <= j <= i && CommittedBy(r[j].activity, began);
        ViewDecidesCompleteness(began, r[i].store);
        assert CommittedBy(r[j].activity, r[i].store);
      }
    } else {
      assert CommittedBy(r[i].activity, r[i].store);
    }
  }

  lemma {:induction false} RunKeepsWithinCall(r: seq<Moment>, i: nat)
    requires Run(r) && i < |r|
    ensures WithinCall(r[i].activity, r[r[i].start].store, r[i].store)
  {
    hide PublishStep, RecoverStep, AtomicWithin, ValidCall, StillAt, WithinCall;
    if i == 0 || !Continues(r, i) {
      CallBeginsWhole(r[i].activity, r[i].store);
    } else {
      RunKeepsWithinCall(r, i - 1);
      StepKeepsWithinCall(r[i].activity, r[r[i].start].store, r[i - 1].store, r[i].store);
    }
  }

  lemma CallBeginsWhole(a: Activity, s: Store)
    ensures WithinCall(a, s, s)
  {}

  lemma StepKeepsWithinCall(a: Activity, began: Store, s: Store, s': Store)
    requires Admissible(a) && WithinCall(a, began, s) && Change(a, began, s, s')
    ensures WithinCall(a, began, s')
  {
    hide PublishStep, RecoverStep, AtomicWithin, ValidCall;
    match a {
      case Publishing(c) =>
        StepIsAtomic(c, began, s, s');
      case Recovering(names) =>
        RecoveryKeepsView(names, s, s');
        SameViewStillAt(began, s, s');
    }
  }

  lemma SameViewStillAt(b: Store, s: Store, s': Store)
    requires StillAt(b, s) && Resolve(s') == Resolve(s)
    ensures StillAt(b, s')
  {
    ResolvedPointer(s);
    ResolvedPointer(s');
  }

  lemma ResolvedPointer(s: Store)
    ensures Resolve(s).pointer == PointerData(s)
  {}

  /**
   Crash atomicity: in every bucket a run can reach, the pointer is still the
   initial one (with its cycle intact if it had one), or it names a cycle all
   of whose objects are present with exactly the bytes of one publication.
   */
  lemma {:induction false} CrashAtomicity(r: seq<Moment>, i: nat)
    requires Run(r) && i < |r|
    ensures Atomic(r, i, r[i].store)
  {
    RunKeepsWithinCall(r, i);
    var b := r[i].start;
    if b == i {
      if i > 0 && Begins(r, i) {
        CrashAtomicity(r, i - 1);
        if !StillAt(r[0].store, r[i].store) {
          var j :| 0 <= j <= i - 1 && CommittedBy(r[j].activity, r[i].store);
          assert 0 <= j <= i && CommittedBy(r[j].activity, r[i].store);
        }
      }
    } else {
      CrashAtomicity(r, b);
      if !StillAt(r[0].store, r[b].store) {
        var j :| 0 <= j <= b && CommittedBy(r[j].activity, r[b].store);
        assert 0 <= j <= i && CommittedBy(r[j].activity, r[b].store);
      }
      AtomicWithinRun(r, i);
    }
  }

  // ------------------------------------------------------ pointer-first reader

  /**
   Calls that started after t0 and publish under this key's id, up to moment t,
   leave its name out or publish the very object o.
   */
  ghost predicate RepublishedAs(r: seq<Moment>, t0: nat, t: nat, k: Key, o: Obj)
    requires t < |r| && k.CycleObj?
  {
    forall j :: t0 < j <= t && r[j].start > t0 && r[j].activity.Publishing? && r[j].activity.call.cycleId == k.id
                ==> PublishesAs(r[j].activity.call, k.name, o)
  }

  predicate PublishesAs(c: CycleCall, name: string, o: Obj) {
    name in CallNames(c) ==> Objects(c.payloads)[name] == o
  }

  /** As it was at t0; or gone, and not to be staged again by a call that was running at t0. */
  ghost predicate StableOrGone(r: seq<Moment>, t0: nat, t: nat, k: Key)
    requires t0 <= t < |r| && k.CycleObj? && k in r[t0].store
  {
    if k in r[t].store then r[t].store[k] == r[t0].store[k]
    else r[t].activity.Publishing? && r[t].activity.call.cycleId == k.id ==> r[t].start > t0
  }

  /**
   A cycle object seen once is later the same object or absent, unless a call
   reuses its id for another object of its name.
   */
  lemma {:induction false} ObjectIsStableOrGone(r: seq<Moment>, t0: nat, t: nat, k: Key)
    requires Run(r) && t0 <= t < |r| && k.CycleObj? && k in r[t0].store
    requires RepublishedAs(r, t0, t, k, r[t0].store[k])
    ensures StableOrGone(r, t0, t, k)
  {
    hide PublishStep, RecoverStep, PublishesAs;
    if t0 == t {
    } else {
      ObjectIsStableOrGone(r, t0, t - 1, k);
      if Continues(r, t) {
        match r[t].activity {
          case Publishing(c) =>
            StagedOrPruned(c, r[r[t].start].store, r[t - 1].store, r[t].store, k);
            StagedAsPublished(c, k, r[t0].store[k]);
          case Recovering(names) =>
            RecoveryKeepsObject(names, r[t - 1].store, r[t].store, k);
        }
      } else {
        assert Begins(r, t);
      }
    }
  }

  /** What one change of a publication may do to a cycle object. */
  lemma StagedOrPruned(c: CycleCall, b: Store, s: Store, s': Store, k: Key)
    requires PublishStep(c, b, s, s') && k.CycleObj?
    ensures || SameAt(s, s', k)
            || (k !in s && k.id == c.cycleId && k.name in CallNames(c) &&
                Lookup(s', k) == Some(Objects(c.payloads)[k.name]))
            || (k !in s' && k.id != c.cycleId)
  {
    hide Trusted, Newer, IsCycleId, CommitObj, Objects, CallNames;
    assert KeyRule(c, b, s, s', k);
  }

  lemma StagedAsPublished(c: CycleCall, k: Key, o: Obj)
    requires k.CycleObj?
    ensures PublishesAs(c, k.name, o) && k.name in CallNames(c) ==> Objects(c.payloads)[k.name] == o
  {}

  lemma RecoveryKeepsObject(names: set<string>, s: Store, s': Store, k: Key)
    requires RecoverStep(names, s, s') && k.CycleObj?
    ensures SameAt(s, s', k)
  {}

  /** One object GET of a reader that took the pointer at t0. */
  lemma ReadOneObject(r: seq<Moment>, t0: nat, u: nat, d: PointerDoc, name: string)
    requires Run(r) && t0 <= u < |r|
    requires PointerDocOf(r[t0].store) == Some(d) && Present(r[t0].store, d) && name in d.names
    requires RepublishedAs(r, t0, u, CycleObj(d.cycleId, name), r[t0].store[CycleObj(d.cycleId, name)])
    ensures name in Resolve(r[t0].store).objects
    ensures Lookup(r[u].store, CycleObj(d.cycleId, name)) == None
            || Lookup(r[u].store, CycleObj(d.cycleId, name)) == Resolve(r[t0].store).objects[name]
  {
    ObjectIsStableOrGone(r, t0, u, CycleObj(d.cycleId, name));
  }

  /** Each name was found absent, or as the view has it. */
  ghost predicate ReadsFrom(got: map<string, Option<Obj>>, view: View) {
    && got.Keys == view.objects.Keys
    && forall name :: name in got ==> got[name] == None || got[name] == view.objects[name]
  }

  lemma WholeRead(got: map<string, Option<Obj>>, view: View)
    requires ReadsFrom(got, view) && forall name :: name in got ==> got[name].Some?
    ensures got == view.objects
  {}

  lemma ResolveNames(s: Store, d: PointerDoc)
    requires PointerDocOf(s) == Some(d)
    ensures Resolve(s).objects.Keys == d.names
  {}

  /**
   A reader takes the pointer at t0 and each object it names at a later moment
   of its own choosing, while the run goes on. Each object is absent or is the
   one the pointer named, so a read without gaps is one whole cycle: the
   initial dataset or exactly what one publication committed. What it takes is
   that no later call publishes another object of that name under the cycle's
   id; Reuse.ReuseIsHarmlessIff shows that to be the exact condition.
   */
  lemma PointerFirstReader(r: seq<Moment>, t0: nat, d: PointerDoc, at: map<string, nat>, got: map<string, Option<Obj>>)
    requires Run(r) && t0 < |r|
    requires PointerDocOf(r[t0].store) == Some(d) && Present(r[t0].store, d)
    requires at.Keys == got.Keys == d.names
    requires forall name :: name in at ==>
               && t0 <= at[name] < |r| && got[name] == Lookup(r[at[name]].store, CycleObj(d.cycleId, name))
               && RepublishedAs(r, t0, at[name], CycleObj(d.cycleId, name), r[t0].store[CycleObj(d.cycleId, name)])
    ensures ReadsFrom(got, Resolve(r[t0].store))
    ensures (forall name :: name in got ==> got[name].Some?) ==> got == Resolve(r[t0].store).objects
    ensures Atomic(r, t0, r[t0].store)
  {
    ResolveNames(r[t0].store, d);
    hide Run, RepublishedAs, Resolve, PointerDocOf, Atomic;
    var view := Resolve(r[t0].store);
    forall name | name in got
      ensures name in view.objects && (got[name] == None || got[name] == view.objects[name])
    {
      ReadOneObject(r, t0, at[name], d, name);
    }
    assert view.objects.Keys == d.names;
    if forall name :: name in got ==> got[name].Some? {
      WholeRead(got, view);
    }
    CrashAtomicity(r, t0);
  }

  /** The retention rule of an active call would let this id go. */
  ghost predicate OutrankedBy(a: Activity, s: Store, id: string) {
    && a.Publishing?
    && Lookup(s, CURRENT_KEY) == Some(CommitObj(a.call)) && id != a.call.cycleId
    && |Newer(s, id, a.call.cycleId)| >= Max(0, a.call.retention - 1)
  }

  ghost predicate Outranked(r: seq<Moment>, u: nat, id: string)
    requires u < |r|
  {
    OutrankedBy(r[u].activity, r[u].store, id)
  }

  /** A reader's grace: its objects stay until enough newer cycles outrank its own. */
  lemma {:induction false} SurvivesUntilOutranked(r: seq<Moment>, t0: nat, t: nat, k: Key)
    requires Run(r) && t0 <= t < |r| && k.CycleObj? && k in r[t0].store
    requires forall u :: t0 <= u < t ==> !Outranked(r, u, k.id)
    ensures k in r[t].store
  {
    hide PublishStep, Outranked, FixedOnly;
    if t0 == t {
    } else {
      SurvivesUntilOutranked(r, t0, t - 1, k);
      if Continues(r, t) {
        match r[t].activity {
          case Publishing(c) =>
            SurvivesStep(r, t, c, k);
          case Recovering(names) =>
            RecoveryKeepsObject(names, r[t - 1].store, r[t].store, k);
        }
      } else {
        assert Begins(r, t);
      }
    }
  }

  lemma SurvivesStep(r: seq<Moment>, t: nat, c: CycleCall, k: Key)
    requires 0 < t < |r| && r[t].start < |r| && k.CycleObj? && k in r[t - 1].store && !Outranked(r, t - 1, k.id)
    requires r[t - 1].activity == Publishing(c) && PublishStep(c, r[r[t].start].store, r[t - 1].store, r[t].store)
    ensures k in r[t].store
  {
    hide Trusted, Newer, IsCycleId, CommitObj, Objects;
    assert KeyRule(c, r[r[t].start].store, r[t - 1].store, r[t].store, k);
  }

  // ------------------------------------------------- no self-inflicted bootstrap

  /** Every publication uses these names and stages a meta.json that echoes its pointer. */
  ghost predicate UniformCalls(r: seq<Moment>, names: set<string>) {
    && names != {} && META_NAME in names
    && forall i :: 0 <= i < |r| && r[i].activity.Publishing? ==> ConformingCall(r[i].activity.call, names)
  }

  ghost predicate ConformingCall(c: CycleCall, names: set<string>) {
    && CallNames(c) == names && META_NAME in names
    && MetaMatches(Objects(c.payloads)[META_NAME].data, c.cycleId, c.generatedAt)
  }

  /** Trust depends only on what a pointer-first reader sees. */
  lemma TrustFollowsView(s: Store, s': Store, names: set<string>)
    requires Resolve(s) == Resolve(s') && Trusted(s, names)
    ensures Trusted(s', names)
  {
    ViewDecidesCompleteness(s, s');
    var d := PointerDocOf(s).value;
    assert META_NAME in d.names ==>
        Resolve(s).objects[META_NAME] == Lookup(s, CycleObj(d.cycleId, META_NAME))
        && Resolve(s').objects[META_NAME] == Lookup(s', CycleObj(d.cycleId, META_NAME));
  }

  /** A commit is trusted under these names exactly if its call has them and its meta.json echoes the pointer. */
  lemma CommittedIsTrustedIff(c: CycleCall, s: Store, names: set<string>)
    requires ValidCall(c) && META_NAME in names
    requires Lookup(s, CURRENT_KEY) == Some(CommitObj(c)) && AllStaged(c, s)
    ensures Trusted(s, names) <==> ConformingCall(c, names)
  {
    CommitIsReadBack(c, s);
  }

  lemma TrustStep(a: Activity, began: Store, s: Store, s': Store, names: set<string>)
    requires Admissible(a) && Change(a, began, s, s') && Trusted(s, names)
    requires a.Publishing? ==> ConformingCall(a.call, names)
    ensures Trusted(s', names)
  {
    match a {
      case Publishing(c) =>
        CompleteViewStep(c, began, s, s');
        if SameAt(s, s', CURRENT_KEY) {
          TrustFollowsView(s, s', names);
        } else {
          CommittedIffStaged(c, s');
          CommittedIsTrustedIff(c, s', names);
        }
      case Recovering(fixedNames) =>
        RecoveryKeepsView(fixedNames, s, s');
        TrustFollowsView(s, s', names);
    }
  }

  /**
   From the first moment the pointer is trusted it stays trusted, through
   every crash point of every later call: the exporter never sends itself back
   to bootstrap mode.
   */
  lemma StaysTrusted(r: seq<Moment>, t0: nat, t: nat, names: set<string>)
    requires Run(r) && UniformCalls(r, names) && t0 <= t < |r|
    requires Trusted(r[t0].store, names)
    ensures Trusted(r[t].store, names)
  {
    forall i | t0 < i <= t && Continues(r, i) && Trusted(r[i - 1].store, names)
      ensures Trusted(r[i].store, names)
    {
      TrustStep(r[i].activity, r[r[i].start].store, r[i - 1].store, r[i].store, names);
    }
    InductionOverRun(r, t0, t, s => Trusted(s, names));
  }

  /** And every commit makes it trusted in the first place. */
  lemma CommitEndsBootstrap(r: seq<Moment>, t0: nat, t: nat, names: set<string>, c: CycleCall)
    requires Run(r) && UniformCalls(r, names) && t0 <= t < |r|
    requires exists j :: 0 <= j < |r| && r[j].activity == Publishing(c)
    requires Resolve(r[t0].store) == CommittedView(c) && Lookup(r[t0].store, CURRENT_KEY) == Some(CommitObj(c))
    ensures Trusted(r[t].store, names)
  {
    CommittedIffStaged(c, r[t0].store);
    CommittedIsTrustedIff(c, r[t0].store, names);
    StaysTrusted(r, t0, t, names);
  }
}

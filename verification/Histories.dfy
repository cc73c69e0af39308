/**
 From the publisher's methods to whole runs (src/publish.py:393-697).

 A `Life` is one call of `PublishCycle` or `RecoverPublication`: the history of
 its client, where the call began in it, and the bucket after which its process
 died, or the last one if it returned. `Kept` is what those methods ensure of
 it, in their own words.
 */
module Histories {
  import opened Prelude
  import opened Keys
  import opened Documents
  import opened S3
  import opened Protocol
  import opened Runs
  import opened Publish

  datatype Call = PublishCall(call: CycleCall) | RecoverCall(expected: set<string>)

  datatype Life = Life(call: Call, history: seq<Store>, lo: nat, cut: nat)

  ghost predicate InRange(l: Life) {
    l.lo < l.cut <= |l.history|
  }

  /**
   The postconditions of the two methods: of a publication that passed the
   checks, and of a recovery from a bucket whose pointer survives it, which
   Protocol.RecoveryConverges shows to be the exact condition.
   */
  ghost predicate Kept(l: Life)
    requires InRange(l)
  {
    match l.call
    case PublishCall(c) => Precheck(c) == None && Traced(c, l.history[l.lo], l.history, l.lo)
    case RecoverCall(expected) => KeptRecovery(expected, l.history, l.lo)
  }

  ghost predicate KeptRecovery(expected: set<string>, h: seq<Store>, lo: nat)
    requires lo < |h|
  {
    && TracedFixed(RecoverNames(h[lo], expected), h, lo)
    && (forall i :: lo < i < |h| ==> CopyPoint(h[lo], RecoverSpec(h[lo], expected), h[i]))
    && (Trusted(h[lo], expected) ==> PointerSurvives(h[lo], PointerDocOf(h[lo]).value))
  }

  function ActivityOf(l: Life): Activity
    requires InRange(l)
  {
    match l.call
    case PublishCall(c) => Publishing(c)
    case RecoverCall(expected) => Recovering(RecoverNames(l.history[l.lo], expected))
  }

  /** No change inside a recovery moves the pointer's bytes. */
  lemma RecoveryKeepsPointer(expected: set<string>, h: seq<Store>, lo: nat)
    requires lo < |h| && KeptRecovery(expected, h, lo)
    ensures TracedRecovery(RecoverNames(h[lo], expected), h, lo)
  {
    var b := h[lo];
    if Trusted(b, expected) {
      RecoveredPointer(b, expected, PointerDocOf(b).value);
    }
    hide CopyPoint, Trusted, RecoverNames, FixedOnly, PointerSurvives, RecoverSpec;
    forall i | lo <= i < |h| ensures PointerData(h[i]) == PointerData(b) {
      if i > lo {
        CopiedPointer(b, RecoverSpec(b, expected), h[i]);
      }
    }
  }

  lemma CopiedPointer(s: Store, target: Store, x: Store)
    requires CopyPoint(s, target, x) && PointerData(target) == PointerData(s)
    ensures PointerData(x) == PointerData(s)
  {}

  /** Every change of a life is one that its activity may make. */
  lemma LifeChanges(l: Life)
    requires InRange(l) && Kept(l)
    ensures Admissible(ActivityOf(l))
    ensures forall i :: l.lo <= i < |l.history| - 1 ==>
              Change(ActivityOf(l), l.history[l.lo], l.history[i], l.history[i + 1])
  {
    match l.call {
      case PublishCall(c) =>
        PrecheckedCallIsValid(c);
        hide PublishStep, Precheck, ValidCall;
      case RecoverCall(expected) =>
        RecoveryKeepsPointer(expected, l.history, l.lo);
        hide RecoverStep, KeptRecovery;
    }
  }

  /** One life, cut off anywhere, continues any run that ends where it began. */
  lemma LifeExtendsRun(r: seq<Moment>, l: Life)
    requires InRange(l) && Kept(l) && Run(r) && r[|r| - 1].store == l.history[l.lo]
    ensures Run(r + Moments(l, |r|))
  {
    hide Kept, Change, Run, Admissible;
    var h, a := l.history[l.lo..], ActivityOf(l);
    LifeChanges(l);
    forall i | 0 <= i < |h| - 1 ensures Change(a, h[0], h[i], h[i + 1]) {
      assert h[i] == l.history[l.lo + i] && h[i + 1] == l.history[l.lo + i + 1];
    }
    CutCallExtendsRun(r, a, h, l.cut - l.lo);
  }

  function Moments(l: Life, start: nat): seq<Moment>
    requires InRange(l)
  {
    CutCall(ActivityOf(l), l.history[l.lo..], l.cut - l.lo, start)
  }

  // ------------------------------------------------------------ many lives

  /** Each call starts from the bucket in which the one before it returned or died. */
  ghost predicate Successive(ls: seq<Life>) {
    && |ls| > 0
    && (forall k :: 0 <= k < |ls| ==> InRange(ls[k]) && Kept(ls[k]))
    && (forall k :: 0 <= k < |ls| - 1 ==> ls[k + 1].history[ls[k + 1].lo] == ls[k].history[ls[k].cut - 1])
  }

  lemma PrefixSucceeds(ls: seq<Life>, n: nat)
    requires Successive(ls) && 0 < n <= |ls|
    ensures Successive(ls[..n])
  {
    hide Kept;
  }

  ghost function RunOf(ls: seq<Life>): (r: seq<Moment>)
    requires Successive(ls)
    ensures |r| > 0
  {
    var n := |ls| - 1;
    if n == 0 then
      Moments(ls[0], 0)
    else
      PrefixSucceeds(ls, n);
      var before := RunOf(ls[..n]);
      before + Moments(ls[n], |before|)
  }

  lemma FirstLifeIsARun(l: Life)
    requires InRange(l) && Kept(l)
    ensures Run(Moments(l, 0))
  {
    var first := [Moment(l.history[l.lo], ActivityOf(l), 0)];
    match l.call {
      case PublishCall(c) =>
        PrecheckedCallIsValid(c);
      case RecoverCall(_) =>
    }
    assert Run(first);
    LifeExtendsRun(first, l);
    DropRepeatedStart(first + Moments(l, 1), Moments(l, 0), ActivityOf(l));
  }

  /** A run that begins by starting the same call twice may start it once. */
  lemma DropRepeatedStart(r: seq<Moment>, q: seq<Moment>, a: Activity)
    requires Run(r) && |r| == |q| + 1 && |q| > 0 && r[0].store == q[0].store
    requires forall i :: 0 <= i < |q| ==>
               q[i] == Moment(r[i + 1].store, a, 0) && r[i + 1] == Moment(r[i + 1].store, a, 1)
    ensures Run(q)
  {
    hide PublishStep, RecoverStep, ValidCall;
    forall i | 0 <= i < |q| ensures Admissible(q[i].activity) {
      assert Admissible(r[i + 1].activity);
    }
    forall i | 0 < i < |q| ensures Begins(q, i) || Continues(q, i) {
      assert Begins(r, i + 1) || Continues(r, i + 1);
    }
  }

  /** Any number of calls, each killed anywhere, make up a legal run. */
  lemma {:induction false} LivesAreARun(ls: seq<Life>)
    requires Successive(ls)
    ensures var r := RunOf(ls);
            && Run(r) && r[0].store == ls[0].history[ls[0].lo]
            && r[|r| - 1].store == ls[|ls| - 1].history[ls[|ls| - 1].cut - 1]
  {
    hide Run, Kept, Moments;
    var n := |ls| - 1;
    if n == 0 {
      FirstLifeIsARun(ls[0]);
      MomentsEnds(ls[0], 0);
    } else {
      PrefixSucceeds(ls, n);
      LivesAreARun(ls[..n]);
      var before := RunOf(ls[..n]);
      assert ls[..n][n - 1] == ls[n - 1] && ls[..n][0] == ls[0];
      MomentsEnds(ls[n], |before|);
      LifeExtendsRun(before, ls[n]);
    }
  }

  lemma MomentsEnds(l: Life, start: nat)
    requires InRange(l)
    ensures var m := Moments(l, start);
            |m| == l.cut - l.lo && m[0].store == l.history[l.lo] && m[|m| - 1].store == l.history[l.cut - 1]
  {}

  ghost predicate ActsAs(a: Activity, ls: seq<Life>) {
    exists m :: 0 <= m < |ls| && InRange(ls[m]) && a == ActivityOf(ls[m])
  }

  lemma MomentsAct(l: Life, start: nat)
    requires InRange(l)
    ensures forall m :: m in Moments(l, start) ==> m.activity == ActivityOf(l)
  {}

  lemma EarlierActs(ls: seq<Life>, n: nat, a: Activity)
    requires n <= |ls| && ActsAs(a, ls[..n])
    ensures ActsAs(a, ls)
  {
    var m :| 0 <= m < n && InRange(ls[..n][m]) && a == ActivityOf(ls[..n][m]);
    assert ls[..n][m] == ls[m];
  }

  /** Every moment of a run of lives is some life's. */
  lemma {:induction false} ActivitiesAreLives(ls: seq<Life>)
    requires Successive(ls)
    ensures forall j :: 0 <= j < |RunOf(ls)| ==> ActsAs(RunOf(ls)[j].activity, ls)
  {
    hide Kept, Moments, ActivityOf;
    var n := |ls| - 1;
    if n == 0 {
      MomentsAct(ls[0], 0);
      forall j | 0 <= j < |RunOf(ls)| ensures ActsAs(RunOf(ls)[j].activity, ls) {
        assert RunOf(ls)[j] in RunOf(ls);
      }
    } else {
      PrefixSucceeds(ls, n);
      var before := RunOf(ls[..n]);
      ActivitiesAreLives(ls[..n]);
      MomentsAct(ls[n], |before|);
      forall j | 0 <= j < |RunOf(ls)| ensures ActsAs(RunOf(ls)[j].activity, ls) {
        if j < |before| {
          EarlierActs(ls, n, before[j].activity);
        } else {
          assert RunOf(ls)[j] in Moments(ls[n], |before|);
        }
      }
    }
  }

  /** The run has every bucket of the last life. */
  lemma LastBuckets(ls: seq<Life>, i: nat) returns (t: nat)
    requires Successive(ls) && ls[|ls| - 1].lo <= i < ls[|ls| - 1].cut
    ensures t < |RunOf(ls)| && RunOf(ls)[t].store == ls[|ls| - 1].history[i]
  {
    hide Kept;
    var n := |ls| - 1;
    if n == 0 {
      t := i - ls[0].lo;
    } else {
      PrefixSucceeds(ls, n);
      t := |RunOf(ls[..n])| + i - ls[n].lo;
    }
  }

  lemma LastLifeIsAtomic(ls: seq<Life>, i: nat)
    requires Successive(ls) && ls[|ls| - 1].lo <= i < ls[|ls| - 1].cut
    ensures || StillAt(ls[0].history[ls[0].lo], ls[|ls| - 1].history[i])
            || (exists m :: 0 <= m < |ls| && CommittedBy(ActivityOf(ls[m]), ls[|ls| - 1].history[i]))
  {
    hide Run, Kept, RunOf, StillAt, CommittedBy, ActivityOf;
    LivesAreARun(ls);
    ActivitiesAreLives(ls);
    var t := LastBuckets(ls, i);
    var r := RunOf(ls);
    CrashAtomicity(r, t);
    if !StillAt(r[0].store, r[t].store) {
      var j :| 0 <= j <= t && CommittedBy(r[j].activity, r[t].store);
      assert ActsAs(r[j].activity, ls);
    }
  }

  /**
   Crash atomicity of the clients' own histories: however many publications and
   recoveries run and wherever each of them is killed, every bucket on the way
   has the very first pointer with its cycle untouched, or points at exactly
   what one of the publications so far committed.
   */
  lemma KilledAnywhere(ls: seq<Life>, k: nat, i: nat)
    requires Successive(ls) && k < |ls| && ls[k].lo <= i < ls[k].cut
    ensures || StillAt(ls[0].history[ls[0].lo], ls[k].history[i])
            || (exists m :: 0 <= m <= k && CommittedBy(ActivityOf(ls[m]), ls[k].history[i]))
  {
    hide Kept, StillAt, CommittedBy, ActivityOf;
    PrefixSucceeds(ls, k + 1);
    var soFar := ls[..k + 1];
    assert soFar[0] == ls[0] && soFar[|soFar| - 1] == ls[k];
    LastLifeIsAtomic(soFar, i);
    if !StillAt(ls[0].history[ls[0].lo], ls[k].history[i]) {
      var m :| 0 <= m < |soFar| && CommittedBy(ActivityOf(soFar[m]), ls[k].history[i]);
      assert soFar[m] == ls[m];
    }
  }

  // ------------------------------------------------------------ readers of the clients' buckets

  /** The moment at which the k-th life begins. */
  ghost function StartOf(ls: seq<Life>, k: nat): nat
    requires Successive(ls) && k <= |ls|
  {
    if k == 0 then 0
    else
      PrefixSucceeds(ls, k);
      |RunOf(ls[..k])|
  }

  /** The moment of the i-th bucket of the k-th life. */
  ghost function MomentOf(ls: seq<Life>, k: nat, i: nat): nat
    requires Successive(ls) && k < |ls| && ls[k].lo <= i
  {
    StartOf(ls, k) + i - ls[k].lo
  }

  lemma PrefixOfPrefix(ls: seq<Life>, n: nat, k: nat)
    requires Successive(ls) && k <= n <= |ls| && 0 < n
    ensures Successive(ls[..n]) && StartOf(ls[..n], k) == StartOf(ls, k)
  {
    hide Kept, RunOf;
    PrefixSucceeds(ls, n);
    assert ls[..n][..k] == ls[..k];
  }

  lemma NextStart(ls: seq<Life>, k: nat)
    requires Successive(ls) && k < |ls|
    ensures StartOf(ls, k + 1) == StartOf(ls, k) + ls[k].cut - ls[k].lo
  {
    hide Kept;
    PrefixSucceeds(ls, k + 1);
    assert ls[..k + 1][..k] == ls[..k];
    assert ls[..k + 1][k] == ls[k];
  }

  lemma {:induction false} StartsAscend(ls: seq<Life>, k: nat, m: nat)
    requires Successive(ls) && k <= m <= |ls|
    ensures StartOf(ls, k) <= StartOf(ls, m)
    ensures k < m ==> StartOf(ls, k) + ls[k].cut - ls[k].lo <= StartOf(ls, m)
  {
    hide Kept, StartOf;
    if k == m {
    } else {
      StartsAscend(ls, k, m - 1);
      NextStart(ls, m - 1);
    }
  }

  lemma MomentsHold(l: Life, start: nat, i: nat)
    requires InRange(l) && l.lo <= i < l.cut
    ensures |Moments(l, start)| == l.cut - l.lo
    ensures Moments(l, start)[i - l.lo] == Moment(l.history[i], ActivityOf(l), start)
  {}

  lemma {:induction false} RunHolds(ls: seq<Life>, k: nat, i: nat)
    requires Successive(ls) && k < |ls| && ls[k].lo <= i < ls[k].cut
    ensures var t := MomentOf(ls, k, i);
            t < |RunOf(ls)| && RunOf(ls)[t] == Moment(ls[k].history[i], ActivityOf(ls[k]), StartOf(ls, k))
  {
    hide Kept, Moments, ActivityOf;
    var n := |ls| - 1;
    if k == n {
      MomentsHold(ls[n], StartOf(ls, n), i);
      if n > 0 {
        PrefixSucceeds(ls, n);
      }
    } else {
      PrefixSucceeds(ls, n);
      PrefixOfPrefix(ls, n, k);
      RunHolds(ls[..n], k, i);
    }
  }

  /** Every moment is some bucket of some life. */
  lemma {:induction false} LifeAt(ls: seq<Life>, t: nat) returns (k: nat, i: nat)
    requires Successive(ls) && t < |RunOf(ls)|
    ensures k < |ls| && ls[k].lo <= i < ls[k].cut && t == MomentOf(ls, k, i)
  {
    hide Kept;
    var n := |ls| - 1;
    if n == 0 {
      k, i := 0, ls[0].lo + t;
    } else {
      PrefixSucceeds(ls, n);
      var before := |RunOf(ls[..n])|;
      if t < before {
        k, i := LifeAt(ls[..n], t);
        PrefixOfPrefix(ls, n, k);
      } else {
        k, i := n, ls[n].lo + t - before;
      }
    }
  }

  /** A bucket of the clients' histories: whose, and which. */
  datatype Place = Place(life: nat, bucket: nat)

  ghost predicate Within(ls: seq<Life>, p: Place) {
    p.life < |ls| && ls[p.life].lo <= p.bucket < ls[p.life].cut
  }

  predicate NotBefore(p: Place, q: Place) {
    q.life < p.life || (q.life == p.life && q.bucket <= p.bucket)
  }

  function StoreAt(ls: seq<Life>, p: Place): Store
    requires p.life < |ls| && p.bucket < |ls[p.life].history|
  {
    ls[p.life].history[p.bucket]
  }

  lemma LaterPlaces(ls: seq<Life>, p: Place, q: Place)
    requires Successive(ls) && Within(ls, p) && Within(ls, q)
    ensures NotBefore(p, q) <==> MomentOf(ls, q.life, q.bucket) <= MomentOf(ls, p.life, p.bucket)
  {
    hide Kept, StartOf;
    if q.life < p.life {
      StartsAscend(ls, q.life, p.life);
    } else if p.life < q.life {
      StartsAscend(ls, p.life, q.life);
    }
  }

  /** Lives after this one publish under this id, if at all, the same objects. */
  ghost predicate LaterPublishTheSame(ls: seq<Life>, k: nat, id: string, name: string, o: Obj) {
    forall m :: k < m < |ls| && ls[m].call.PublishCall? && ls[m].call.call.cycleId == id ==>
        PublishesAs(ls[m].call.call, name, o)
  }

  lemma LaterMomentsPublishTheSame(ls: seq<Life>, p: Place, q: Place, k: Key, o: Obj)
    requires Successive(ls) && Within(ls, p) && Within(ls, q) && NotBefore(q, p) && k.CycleObj?
    requires LaterPublishTheSame(ls, p.life, k.id, k.name, o)
    ensures var t0, t := MomentOf(ls, p.life, p.bucket), MomentOf(ls, q.life, q.bucket);
            t0 <= t < |RunOf(ls)| && RepublishedAs(RunOf(ls), t0, t, k, o)
  {
    hide Kept, RunOf, PublishesAs, StartOf;
    LaterPlaces(ls, q, p);
    RunHolds(ls, q.life, q.bucket);
    var r, t0, t := RunOf(ls), MomentOf(ls, p.life, p.bucket), MomentOf(ls, q.life, q.bucket);
    forall j | t0 < j <= t && r[j].start > t0 && r[j].activity.Publishing? && r[j].activity.call.cycleId == k.id
      ensures PublishesAs(r[j].activity.call, k.name, o)
    {
      var m, i := LifeAt(ls, j);
      RunHolds(ls, m, i);
      if m <= p.life {
        StartsAscend(ls, m, p.life);
      }
      assert p.life < m;
    }
  }

  /**
   The pointer-first reader of the buckets that killed and completed calls really
   leave: it takes the pointer at one place and each object at a later one.
   */
  lemma ReaderOfLives(ls: seq<Life>, p: Place, d: PointerDoc, at: map<string, Place>, got: map<string, Option<Obj>>)
    requires Successive(ls) && Within(ls, p)
    requires PointerDocOf(StoreAt(ls, p)) == Some(d) && Present(StoreAt(ls, p), d)
    requires at.Keys == got.Keys == d.names
    requires forall name :: name in at ==>
               && Within(ls, at[name]) && NotBefore(at[name], p)
               && got[name] == Lookup(StoreAt(ls, at[name]), CycleObj(d.cycleId, name))
               && LaterPublishTheSame(ls, p.life, d.cycleId, name, StoreAt(ls, p)[CycleObj(d.cycleId, name)])
    ensures ReadsFrom(got, Resolve(StoreAt(ls, p)))
    ensures (forall name :: name in got ==> got[name].Some?) ==> got == Resolve(StoreAt(ls, p)).objects
  {
    hide Kept, RunOf, Run, MomentOf, StartOf, Resolve, PointerDocOf, ReadsFrom, Atomic, LaterPublishTheSame,
         RepublishedAs;
    LivesAreARun(ls);
    RunHolds(ls, p.life, p.bucket);
    var r, t0 := RunOf(ls), MomentOf(ls, p.life, p.bucket);
    var moments := map name | name in at :: MomentOf(ls, at[name].life, at[name].bucket);
    forall name | name in at
      ensures var k := CycleObj(d.cycleId, name);
              && t0 <= moments[name] < |r| && got[name] == Lookup(r[moments[name]].store, k)
              && RepublishedAs(r, t0, moments[name], k, r[t0].store[k])
    {
      var k := CycleObj(d.cycleId, name);
      LaterMomentsPublishTheSame(ls, p, at[name], k, StoreAt(ls, p)[k]);
      RunHolds(ls, at[name].life, at[name].bucket);
    }
    PointerFirstReader(r, t0, d, moments, got);
  }

  /** Its grace: an object stays as long as no call on the way outranks its cycle. */
  lemma SurvivorOfLives(ls: seq<Life>, p: Place, q: Place, k: Key)
    requires Successive(ls) && Within(ls, p) && Within(ls, q) && NotBefore(q, p) && k.CycleObj? && k in StoreAt(ls, p)
    requires forall o: Place :: Within(ls, o) && NotBefore(o, p) && !NotBefore(o, q)
                                ==> !OutrankedBy(ActivityOf(ls[o.life]), StoreAt(ls, o), k.id)
    ensures k in StoreAt(ls, q)
  {
    hide Kept, RunOf, Run, StartOf, MomentOf, OutrankedBy;
    LivesAreARun(ls);
    RunHolds(ls, p.life, p.bucket);
    RunHolds(ls, q.life, q.bucket);
    LaterPlaces(ls, q, p);
    var r, t0, t := RunOf(ls), MomentOf(ls, p.life, p.bucket), MomentOf(ls, q.life, q.bucket);
    forall u: nat | t0 <= u < t ensures !Outranked(r, u, k.id) {
      var m, i := LifeAt(ls, u);
      RunHolds(ls, m, i);
      var o := Place(m, i);
      LaterPlaces(ls, o, p);
      LaterPlaces(ls, o, q);
    }
    SurvivesUntilOutranked(r, t0, t, k);
  }
}

/**
 The publication lock (src/publish.py:157-162, 477-478, 634-637, 646).

 Threads enter `publish_cycle` and `recover_publication` in any order, a
 publication may enter recovery again while it holds the lock, and either may
 leave by returning or by raising. Mutations of the bucket are tagged with the
 outermost call that issued them.
 */
module Lock {
  import opened Prelude

  type Thread = nat

  datatype Entry = Publishing | Recovering

  /** One thread: the entry points it is inside, and the outermost call's number. */
  datatype Frame = Frame(inside: seq<Entry>, call: nat)

  /** `threading.RLock`: who holds it and how many times. */
  datatype State = State(
    owner: Option<Thread>,
    depth: nat,
    frames: map<Thread, Frame>,
    calls: nat,         // outermost calls that have entered so far
    mutations: seq<nat> // the call behind each S3 mutation, in order
  )

  const IDLE := Frame([], 0)

  function FrameOf(s: State, t: Thread): Frame {
    if t in s.frames then s.frames[t] else IDLE
  }

  ghost predicate Init(s: State) {
    s == State(None, 0, map[], 0, [])
  }

  /** The lock is free, or this thread already holds it. */
  predicate MayEnter(s: State, t: Thread) {
    s.owner == None || s.owner == Some(t)
  }

  /** `with _publication_lock:` */
  ghost predicate Enter(s: State, s': State, t: Thread, e: Entry) {
    && MayEnter(s, t)
    && (var f := FrameOf(s, t);
        if f.inside == [] then
          s' == State(Some(t), s.depth + 1, s.frames[t := Frame([e], s.calls)], s.calls + 1, s.mutations)
        else
          f.inside[|f.inside| - 1].Publishing? && e.Recovering?
          && s' == State(Some(t), s.depth + 1, s.frames[t := Frame(f.inside + [e], f.call)], s.calls, s.mutations))
  }

  /** A PUT or DELETE issued from inside the lock's body. */
  ghost predicate Mutate(s: State, s': State, t: Thread) {
    && FrameOf(s, t).inside != []
    && s' == s.(mutations := s.mutations + [FrameOf(s, t).call])
  }

  /** Leaving the body, by return or by exception: `__exit__` releases once. */
  ghost predicate Leave(s: State, s': State, t: Thread) {
    var f := FrameOf(s, t);
    && f.inside != [] && s.depth > 0
    && s' == State(if s.depth == 1 then None else s.owner, s.depth - 1,
                   s.frames[t := Frame(f.inside[..|f.inside| - 1], f.call)], s.calls, s.mutations)
  }

  ghost predicate Next(s: State, s': State) {
    exists t: Thread ::
      || Enter(s, s', t, Publishing)
      || Enter(s, s', t, Recovering)
      || Mutate(s, s', t)
      || Leave(s, s', t)
  }

  ghost predicate Behaviour(b: seq<State>) {
    && |b| > 0 && Init(b[0])
    && forall i :: 0 <= i < |b| - 1 ==> Next(b[i], b[i + 1])
  }

  /** The mutations are whole calls one after another: none is split by another. */
  ghost predicate WholeCalls(m: seq<nat>) {
    forall i, j, k :: 0 <= i < j < k < |m| && m[i] == m[k] ==> m[j] == m[i]
  }

  ghost predicate Ascending(m: seq<nat>) {
    forall i, j :: 0 <= i < j < |m| ==> m[i] <= m[j]
  }

  ghost predicate Inv(s: State) {
    // the lock counts exactly what its owner is inside; nobody else is inside anything
    && (s.owner == None <==> s.depth == 0)
    && (forall t: Thread :: FrameOf(s, t).inside != [] ==> s.owner == Some(t))
    && (s.owner.Some? ==> |FrameOf(s, s.owner.value).inside| == s.depth)
    // calls enter in order, and only the latest one is running
    && (s.owner.Some? ==> FrameOf(s, s.owner.value).call + 1 == s.calls)
    && Ascending(s.mutations)
    && (forall i :: 0 <= i < |s.mutations| ==> s.mutations[i] < s.calls)
  }

  lemma StepKeepsInv(s: State, s': State, t: Thread)
    requires Inv(s)
    requires Enter(s, s', t, Publishing) || Enter(s, s', t, Recovering) || Mutate(s, s', t) || Leave(s, s', t)
    ensures Inv(s')
  {
    assert forall u: Thread :: u != t ==> FrameOf(s', u) == FrameOf(s, u);
  }

  lemma {:induction false} ReachableKeepsInv(b: seq<State>, i: nat)
    requires Behaviour(b) && i < |b|
    ensures Inv(b[i])
  {
    if i == 0 {
    } else {
      ReachableKeepsInv(b, i - 1);
      assert Next(b[i - 1], b[i]);
      var t: Thread :|
        || Enter(b[i - 1], b[i], t, Publishing) || Enter(b[i - 1], b[i], t, Recovering)
        || Mutate(b[i - 1], b[i], t) || Leave(b[i - 1], b[i], t);
      StepKeepsInv(b[i - 1], b[i], t);
    }
  }

  /** Serialisation: whatever the interleaving, the S3 mutations are whole calls in entry order. */
  lemma LockSerialisesCalls(b: seq<State>, i: nat)
    requires Behaviour(b) && i < |b|
    ensures WholeCalls(b[i].mutations) && Ascending(b[i].mutations)
  {
    ReachableKeepsInv(b, i);
  }

  /** When every thread has left every body, by return or exception, the lock is free at depth zero. */
  lemma LockIsReleased(b: seq<State>, i: nat)
    requires Behaviour(b) && i < |b|
    ensures (forall t: Thread :: FrameOf(b[i], t).inside == []) <==> b[i].owner == None && b[i].depth == 0
  {
    ReachableKeepsInv(b, i);
  }

  /** Reentrancy: a thread inside a publication can always enter recovery; others cannot enter at all. */
  lemma OnlyTheOwnerEnters(b: seq<State>, i: nat, t: Thread)
    requires Behaviour(b) && i < |b|
    ensures FrameOf(b[i], t).inside != [] ==> MayEnter(b[i], t)
    ensures forall u: Thread :: u != t && FrameOf(b[i], t).inside != [] ==> !MayEnter(b[i], u)
  {
    ReachableKeepsInv(b, i);
  }
}

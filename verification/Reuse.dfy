/**
 A cycle id that is used twice (src/publish.py:552-572, 655-697).

 Retention may prune a cycle while a reader still holds its pointer; the
 collision check then lets the id be used again. `Reuse` performs that, request
 by request, and shows which second calls the reader notices.
 */
module Reuse {
  import opened Prelude
  import opened Strings
  import opened CycleIds
  import opened Keys
  import opened Documents
  import opened S3
  import opened Protocol
  import opened Runs
  import opened Publish
  import opened Histories
  import opened Exporter
  import opened Limits

  // ------------------------------------------------------------ calls of one object

  function WithLast(id: string, ch: char): string
    requires IsCycleId(id)
  {
    id[..24] + [ch]
  }

  lemma WithLastIsValid(id: string, g: string, ch: char)
    requires ValidCycleId(id, g) && LowerHex(ch)
    ensures ValidCycleId(WithLast(id, ch), g) && WithLast(id, ch)[24] == ch
  {
    var other := WithLast(id, ch);
    assert other[..16] == id[..16];
    assert forall i :: 0 <= i < 24 ==> other[i] == id[i];
    assert other[..8] == id[..8] && other[9..15] == id[9..15];
  }

  /** The publication after the one that is being read; it prunes nothing. */
  function First(d: PointerDoc): CycleCall
    requires IsCycleId(d.cycleId)
  {
    CallWith([], WithLast(d.cycleId, if d.cycleId[24] == '0' then '1' else '0'), d.generatedAt, 3)
  }

  /** And the next one, which keeps no other cycle. */
  function Second(d: PointerDoc): CycleCall
    requires IsCycleId(d.cycleId)
  {
    CallWith([], WithLast(d.cycleId, if d.cycleId[24] == '2' then '3' else '2'), d.generatedAt, 1)
  }

  /** A call of nothing but a meta.json that echoes its pointer. */
  ghost predicate IsSolo(c: CycleCall) {
    && Precheck(c) == None && CallNames(c) == {META_NAME}
    && ConformingCall(c, {META_NAME}) && POINTER_NAME != META_NAME
  }

  lemma PointerIdIsValid(d: PointerDoc)
    requires WellFormedPointer(d)
    ensures IsCycleId(d.cycleId) && ValidCycleId(d.cycleId, d.generatedAt)
  {}

  lemma SoloIsChecked(c: CycleCall)
    requires IsSolo(c)
    ensures Precheck(c) == None && META_NAME in CallNames(c)
  {}

  lemma BothAreSolo(d: PointerDoc)
    requires IsCycleId(d.cycleId) && WellFormedPointer(d)
    ensures IsSolo(First(d)) && IsSolo(Second(d))
    ensures META_NAME in CallNames(First(d)) && META_NAME in CallNames(Second(d)) && Second(d).retention == 1
    ensures IsCycleId(First(d).cycleId) && First(d).cycleId != d.cycleId
    ensures Second(d).cycleId != d.cycleId && Second(d).cycleId != First(d).cycleId
  {
    var one, two := if d.cycleId[24] == '0' then '1' else '0', if d.cycleId[24] == '2' then '3' else '2';
    PointerIdIsValid(d);
    WithLastIsValid(d.cycleId, d.generatedAt, one);
    WithLastIsValid(d.cycleId, d.generatedAt, two);
    hide ValidCycleId, WithLast, Precheck, CallWith;
    SoloPasses(WithLast(d.cycleId, one), d.generatedAt, 3);
    SoloPasses(WithLast(d.cycleId, two), d.generatedAt, 1);
    CallHasItsId(WithLast(d.cycleId, one), d.generatedAt, 3);
    CallHasItsId(WithLast(d.cycleId, two), d.generatedAt, 1);
    IdsAreValid(WithLast(d.cycleId, one), d.generatedAt);
    SoloIsChecked(First(d));
    SoloIsChecked(Second(d));
  }

  lemma IdsAreValid(id: string, g: string)
    requires ValidCycleId(id, g)
    ensures IsCycleId(id)
  {}

  lemma CallHasItsId(id: string, g: string, retention: int)
    ensures CallWith([], id, g, retention).cycleId == id && CallWith([], id, g, retention).retention == retention
  {}

  lemma SoloPasses(id: string, g: string, retention: int)
    requires ValidCycleId(id, g)
    ensures IsSolo(CallWith([], id, g, retention))
  {
    hide ValidCycleId, Precheck;
    ShortCallsPass([], id, g, retention);
    ShortNames();
    assert {} + {META_NAME} == {META_NAME};
  }

  // ------------------------------------------------------------ their histories

  function MetaObject(c: CycleCall): Obj
    requires META_NAME in CallNames(c)
  {
    Objects(c.payloads)[META_NAME]
  }

  /** Stage, mirror, commit: the requests of an undisturbed call of one object. */
  function SoloHistory(b: Store, c: CycleCall): (h: seq<Store>)
    requires META_NAME in CallNames(c)
    ensures |h| == 4 && h[0] == b
  {
    var staged := b[CycleObj(c.cycleId, META_NAME) := MetaObject(c)];
    var mirrored := staged[Fixed(META_NAME) := MetaObject(c)];
    [b, staged, mirrored, mirrored[CURRENT_KEY := CommitObj(c)]]
  }

  /** One PUT or DELETE apart. */
  ghost predicate OneRequest(s: Store, s': Store) {
    exists req: Request :: (req.Put? || req.Delete?) && s' == Effect(s, req)
  }

  lemma PutIsOneRequest(s: Store, k: Key, o: Obj)
    ensures OneRequest(s, s[k := o])
  {
    assert Effect(s, Put(k, o)) == s[k := o];
  }

  lemma DeleteIsOneRequest(s: Store, k: Key)
    ensures OneRequest(s, s - {k})
  {
    assert Effect(s, Delete(k)) == s - {k};
  }

  lemma SoloIsTraced(b: Store, c: CycleCall)
    requires IsSolo(c) && c.cycleId !in LiveIds(b)
    ensures Traced(c, b, SoloHistory(b, c), 0)
    ensures forall i :: 0 <= i < 3 ==> OneRequest(SoloHistory(b, c)[i], SoloHistory(b, c)[i + 1])
  {
    hide Precheck, ConformingCall, CommitObj, Objects, LiveIds, PublishStep, OneRequest;
    var h := SoloHistory(b, c);
    StagedIsNew(b, c.cycleId, META_NAME);
    StageStep(c, b, b, META_NAME);
    PutIsOneRequest(b, CycleObj(c.cycleId, META_NAME), MetaObject(c));
    FixedPutIsFixedOnly(h[1], META_NAME, MetaObject(c));
    FixedOnlyIsAllowed(c, b, {META_NAME}, h[1], h[2]);
    PutIsOneRequest(h[1], Fixed(META_NAME), MetaObject(c));
    assert AllStaged(c, h[2]);
    CommitStep(c, b, h[2]);
    PutIsOneRequest(h[2], CURRENT_KEY, CommitObj(c));
  }

  lemma StagedIsNew(s: Store, id: string, name: string)
    requires id !in LiveIds(s)
    ensures CycleObj(id, name) !in s
  {
    assert CycleObj(id, name) in s ==> id in LiveIds(s);
  }

  lemma FixedPutIsFixedOnly(s: Store, name: string, o: Obj)
    ensures FixedOnly({name}, s, s[Fixed(name) := o])
  {}

  /** What a solo call leaves: committed, trusted, and with nothing to recover. */
  lemma SoloIsCommitted(b: Store, c: CycleCall, s: Store)
    requires IsSolo(c) && Lookup(s, CURRENT_KEY) == Some(CommitObj(c))
    requires Lookup(s, CycleObj(c.cycleId, META_NAME)) == Lookup(s, Fixed(META_NAME)) == Some(MetaObject(c))
    ensures Trusted(s, {META_NAME})
    ensures forall names: set<string> :: names != {} ==> RecoverSpec(s, names) == s
  {
    PrecheckedCallIsValid(c);
    CommitIsReadBack(c, s);
    hide Precheck, CommitObj, Objects, ValidCall, PointerDocOf, IsSolo;
    var d := PointerDocOf(s).value;
    CommittedIsTrustedIff(c, s, {META_NAME});
    forall names: set<string> | names != {} ensures RecoverSpec(s, names) == s {
      if Trusted(s, names) {
        QuietIsRecovered(s, names, d);
      }
    }
  }

  ghost function Without(s: Store, ks: seq<Key>, n: nat): Store
    requires n <= |ks|
  {
    s - Elements(ks[..n])
  }

  /** The buckets after each of these deletions. */
  ghost function Deletions(s: Store, ks: seq<Key>): seq<Store> {
    seq(|ks|, i requires 0 <= i < |ks| => Without(s, ks, i + 1))
  }

  lemma OneDeletion(s: Store, ks: seq<Key>, n: nat)
    requires n < |ks|
    ensures Without(s, ks, n + 1) == Without(s, ks, n) - {ks[n]} && Without(s, ks, 0) == s
  {
    assert ks[..n + 1] == ks[..n] + [ks[n]];
    assert Elements(ks[..n + 1]) == Elements(ks[..n]) + {ks[n]};
    assert Elements(ks[..0]) == {};
  }

  /** A call over a trusted bucket that keeps no other cycle may delete any of these keys. */
  lemma DeletionIsAllowed(c: CycleCall, b: Store, s: Store, ks: seq<Key>, n: nat)
    requires n < |ks| && Trusted(b, CallNames(c)) && Lookup(s, CURRENT_KEY) == Some(CommitObj(c)) && c.retention <= 1
    requires forall i :: 0 <= i < |ks| ==> ks[i].CycleObj? && IsCycleId(ks[i].id) && ks[i].id != c.cycleId
    ensures PublishStep(c, b, Without(s, ks, n), Without(s, ks, n + 1))
    ensures OneRequest(Without(s, ks, n), Without(s, ks, n + 1))
  {
    hide Trusted, CommitObj, IsCycleId, PublishStep, Newer, OneRequest, CallNames;
    OneDeletion(s, ks, n);
    KeysStay(s, ks, n, CURRENT_KEY);
    PruneStep(c, b, Without(s, ks, n), ks[n].id, ks[n].name);
    DeleteIsOneRequest(Without(s, ks, n), ks[n]);
  }

  lemma KeysStay(s: Store, ks: seq<Key>, n: nat, k: Key)
    requires n <= |ks| && forall i :: 0 <= i < |ks| ==> ks[i] != k
    ensures Lookup(Without(s, ks, n), k) == Lookup(s, k)
  {
    assert k !in Elements(ks[..n]);
  }

  /** A whole undisturbed call of one object: stage, mirror, commit, prune. */
  ghost function PrunedHistory(b: Store, c: CycleCall, ks: seq<Key>): seq<Store>
    requires META_NAME in CallNames(c)
  {
    SoloHistory(b, c) + Deletions(SoloHistory(b, c)[3], ks)
  }

  lemma PrunedHistoryIsTraced(b: Store, c: CycleCall, ks: seq<Key>)
    requires IsSolo(c) && c.cycleId !in LiveIds(b) && Trusted(b, {META_NAME}) && c.retention <= 1
    requires forall i :: 0 <= i < |ks| ==> ks[i].CycleObj? && IsCycleId(ks[i].id) && ks[i].id != c.cycleId
    ensures var h := PrunedHistory(b, c, ks);
            && Traced(c, b, h, 0) && (forall i :: 0 <= i < |h| - 1 ==> OneRequest(h[i], h[i + 1]))
            && h[0] == b && h[|h| - 1] == Without(SoloHistory(b, c)[3], ks, |ks|)
  {
    hide Precheck, ConformingCall, CommitObj, Objects, LiveIds, PublishStep, OneRequest, Trusted, IsCycleId, Without;
    SoloIsTraced(b, c);
    var h, committed := PrunedHistory(b, c, ks), SoloHistory(b, c)[3];
    assert Lookup(committed, CURRENT_KEY) == Some(CommitObj(c));
    NothingWithout(committed, ks);
    forall i | 0 <= i < |h| - 1 ensures PublishStep(c, b, h[i], h[i + 1]) && OneRequest(h[i], h[i + 1]) {
      if i >= 3 {
        DeletionIsAllowed(c, b, committed, ks, i - 3);
      }
    }
  }

  lemma NothingWithout(s: Store, ks: seq<Key>)
    ensures Without(s, ks, 0) == s
  {
    assert Elements(ks[..0]) == {};
  }

  /** The staging of a call, object by object, killed after n of them. */
  ghost function StagingHistory(b: Store, c: CycleCall, n: nat): seq<Store>
    requires n <= |c.payloads|
  {
    seq(n + 1, j requires 0 <= j <= n => AfterStaging(b, c, j))
  }

  lemma StagingIsTraced(b: Store, c: CycleCall, n: nat)
    requires DistinctNames(c.payloads) && c.cycleId !in LiveIds(b) && n <= |c.payloads|
    ensures var h := StagingHistory(b, c, n);
            && h[0] == b && Traced(c, b, h, 0) && forall i :: 0 <= i < n ==> OneRequest(h[i], h[i + 1])
  {
    hide PublishStep, OneRequest, AfterStaging, LiveIds, Objects, DistinctNames, StagedAt;
    StagingEnds(b, c);
    forall i | 0 <= i < n
      ensures PublishStep(c, b, AfterStaging(b, c, i), AfterStaging(b, c, i + 1))
      ensures OneRequest(AfterStaging(b, c, i), AfterStaging(b, c, i + 1))
    {
      StagingOneIsAllowed(b, c, i);
    }
  }

  lemma StagingOneIsAllowed(b: Store, c: CycleCall, i: nat)
    requires DistinctNames(c.payloads) && c.cycleId !in LiveIds(b) && i < |c.payloads|
    ensures PublishStep(c, b, AfterStaging(b, c, i), AfterStaging(b, c, i + 1))
    ensures OneRequest(AfterStaging(b, c, i), AfterStaging(b, c, i + 1))
  {
    hide PublishStep, OneRequest, AfterStaging, LiveIds, Objects, DistinctNames;
    OneStaging(b, c, i);
    PointerUnstaged(b, c, i);
    var p := c.payloads[i];
    StageStep(c, b, AfterStaging(b, c, i), p.name);
    PutIsOneRequest(AfterStaging(b, c, i), CycleObj(c.cycleId, p.name), Obj(p.data, p.contentType));
  }

  lemma PointerUnstaged(b: Store, c: CycleCall, j: nat)
    requires j <= |c.payloads|
    ensures SameAt(b, AfterStaging(b, c, j), CURRENT_KEY)
  {
    CopiesAt(c.cycleId, Objects(c.payloads[..j]), CURRENT_KEY);
  }

  // ------------------------------------------------------------ three calls

  /**
   The keys that the second call prunes, greatest id first: the first call's
   object if it precedes, and then all that the pointer d named.
   */
  ghost function PrunedKeys(d: PointerDoc, names: seq<string>): seq<Key>
    requires IsCycleId(d.cycleId)
  {
    (if Less(d.cycleId, First(d).cycleId) then [CycleObj(First(d).cycleId, META_NAME)] else [])
      + seq(|names|, i requires 0 <= i < |names| => CycleObj(d.cycleId, names[i]))
  }

  /** The bucket once the cycle of d is gone. */
  ghost function Emptied(d: PointerDoc, was: map<string, Obj>, names: seq<string>): Store
    requires IsCycleId(d.cycleId) && META_NAME in CallNames(First(d)) && META_NAME in CallNames(Second(d))
  {
    var h1 := SoloHistory(CycleBucket(d, was), First(d));
    var h2 := PrunedHistory(h1[3], Second(d), PrunedKeys(d, names));
    h2[|h2| - 1]
  }

  /** Two publications after the one that is read, and the staging of c, killed after n objects. */
  ghost function Lives(d: PointerDoc, was: map<string, Obj>, names: seq<string>, c: CycleCall, n: nat): seq<Life>
    requires IsCycleId(d.cycleId) && META_NAME in CallNames(First(d)) && META_NAME in CallNames(Second(d))
    requires n <= |c.payloads|
  {
    var h1 := SoloHistory(CycleBucket(d, was), First(d));
    var h2 := PrunedHistory(h1[3], Second(d), PrunedKeys(d, names));
    var h3 := StagingHistory(h2[|h2| - 1], c, n);
    [Life(PublishCall(First(d)), h1, 0, |h1|), Life(PublishCall(Second(d)), h2, 0, |h2|),
        Life(PublishCall(c), h3, 0, |h3|)]
  }

  /**
   A life that the code performs when nothing fails until it is killed: the id
   is free, the recovery has nothing to do, and each change is one request.
   */
  ghost predicate Performed(l: Life) {
    && InRange(l) && l.lo == 0 && l.call.PublishCall?
    && var c := l.call.call;
       && Precheck(c) == None && c.cycleId !in LiveIds(l.history[0])
       && RecoverSpec(l.history[0], CallNames(c)) == l.history[0]
       && forall i :: 0 <= i < l.cut - 1 ==> OneRequest(l.history[i], l.history[i + 1])
  }

  lemma CommittedAt(b: Store, c: CycleCall, k: Key)
    requires META_NAME in CallNames(c)
    ensures Lookup(SoloHistory(b, c)[3], k)
         == if k == CURRENT_KEY then Some(CommitObj(c))
            else if k == Fixed(META_NAME) || k == CycleObj(c.cycleId, META_NAME) then Some(MetaObject(c))
            else Lookup(b, k)
  {
    hide CommitObj, Objects;
  }

  /** The pointer's own bucket: the first call finds nothing to recover, and its id free. */
  lemma FirstBegins(d: PointerDoc, was: map<string, Obj>)
    requires WellFormedPointer(d) && was.Keys == d.names
    ensures var b := CycleBucket(d, was);
            && PointerDocOf(b) == Some(d) && Present(b, d) && Snapshot(b, d) == was
            && First(d).cycleId !in LiveIds(b) && RecoverSpec(b, {META_NAME}) == b
  {
    hide CycleBucket, First, PointerBytes, DecodePointer, Precheck;
    var b := CycleBucket(d, was);
    BothAreSolo(d);
    CycleBucketHolds(d, was);
    PointerRoundTrip(d.cycleId, d.generatedAt, d.names);
    hide WellFormedPointer, LiveIds, IsSolo;
    if Trusted(b, {META_NAME}) {
      OwnBucketIsQuiet(d, was);
    }
  }

  lemma OwnBucketIsQuiet(d: PointerDoc, was: map<string, Obj>)
    requires was.Keys == d.names && PointerDocOf(CycleBucket(d, was)) == Some(d)
    requires Trusted(CycleBucket(d, was), {META_NAME})
    ensures RecoverSpec(CycleBucket(d, was), {META_NAME}) == CycleBucket(d, was)
  {
    hide CycleBucket, Trusted, RecoverSpec, PointerDocOf, PointerBytes, Snapshot;
    var b := CycleBucket(d, was);
    TrustedNames(b, {META_NAME});
    ShortNames();
    CycleBucketHolds(d, was);
    CycleBucketAt(d, was, Fixed(META_NAME));
    assert FixedState(b, d.names) == Wanted(was);
    QuietIsRecovered(b, {META_NAME}, d);
  }

  /** After the first call the second finds a trusted pointer, nothing to recover, and its id free. */
  lemma SecondBegins(d: PointerDoc, was: map<string, Obj>)
    requires WellFormedPointer(d) && IsCycleId(d.cycleId) && was.Keys == d.names && IsSolo(First(d))
    requires IsSolo(Second(d))
    ensures var s := SoloHistory(CycleBucket(d, was), First(d))[3];
            && Trusted(s, {META_NAME}) && RecoverSpec(s, {META_NAME}) == s && Second(d).cycleId !in LiveIds(s)
  {
    hide CycleBucket, First, Second, Precheck, ConformingCall, CommitObj, Objects, Trusted, RecoverSpec,
         WellFormedPointer;
    BothAreSolo(d);
    var b, c := CycleBucket(d, was), First(d);
    var s := SoloHistory(b, c)[3];
    CommittedAt(b, c, CURRENT_KEY);
    CommittedAt(b, c, Fixed(META_NAME));
    CommittedAt(b, c, CycleObj(c.cycleId, META_NAME));
    SoloIsCommitted(b, c, s);
    forall k | k in s && k.CycleObj? ensures k.id == d.cycleId || k.id == c.cycleId {
      CommittedAt(b, c, k);
      CycleBucketAt(d, was, k);
    }
  }

  /** After the second call the cycle of d is gone, and still nothing is to be recovered. */
  lemma ThirdBegins(d: PointerDoc, was: map<string, Obj>, names: seq<string>)
    requires WellFormedPointer(d) && IsCycleId(d.cycleId) && was.Keys == d.names && IsSolo(First(d))
    requires IsSolo(Second(d)) && Elements(names) == d.names
    ensures d.cycleId !in LiveIds(Emptied(d, was, names))
    ensures forall some: set<string> :: some != {} ==>
              RecoverSpec(Emptied(d, was, names), some) == Emptied(d, was, names)
  {
    hide CycleBucket, First, Second, Precheck, ConformingCall, CommitObj, Objects, RecoverSpec, WellFormedPointer,
         Without, SoloHistory, IsCycleId;
    BothAreSolo(d);
    var b, one, two := CycleBucket(d, was), First(d), Second(d);
    var before, ks := SoloHistory(b, one)[3], PrunedKeys(d, names);
    var committed := SoloHistory(before, two)[3];
    var s := Emptied(d, was, names);
    PrunedEnds(before, two, ks);
    assert s == Without(committed, ks, |ks|);
    forall k | k == CURRENT_KEY || k == Fixed(META_NAME) || k == CycleObj(two.cycleId, META_NAME)
      ensures Lookup(s, k) == Lookup(committed, k)
    {
      KeysStay(committed, ks, |ks|, k);
      CommittedAt(before, two, k);
    }
    CommittedAt(before, two, CURRENT_KEY);
    CommittedAt(before, two, Fixed(META_NAME));
    CommittedAt(before, two, CycleObj(two.cycleId, META_NAME));
    SoloIsCommitted(before, two, s);
    forall k | k in s && k.CycleObj? ensures k.id != d.cycleId {
      LeftKeys(committed, ks, k);
      CommittedAt(before, two, k);
      CommittedAt(b, one, k);
      CycleBucketAt(d, was, k);
      NamedKeysArePruned(d, names, k);
    }
  }

  lemma PrunedEnds(b: Store, c: CycleCall, ks: seq<Key>)
    requires META_NAME in CallNames(c)
    ensures var h := PrunedHistory(b, c, ks); h[|h| - 1] == Without(SoloHistory(b, c)[3], ks, |ks|)
  {
    hide SoloHistory;
    NothingWithout(SoloHistory(b, c)[3], ks);
  }

  lemma LeftKeys(s: Store, ks: seq<Key>, k: Key)
    ensures Lookup(Without(s, ks, |ks|), k) == if k in Elements(ks) then None else Lookup(s, k)
  {
    assert ks[..|ks|] == ks;
  }

  lemma NamedKeysArePruned(d: PointerDoc, names: seq<string>, k: Key)
    requires IsCycleId(d.cycleId) && Elements(names) == d.names
    ensures k.CycleObj? && k.id == d.cycleId && k.name in d.names ==> k in Elements(PrunedKeys(d, names))
  {
    if k.CycleObj? && k.id == d.cycleId && k.name in d.names {
      assert k.name in Elements(names);
      var i :| 0 <= i < |names| && names[i] == k.name;
      var ks := PrunedKeys(d, names);
      assert ks[|ks| - |names| + i] == k;
    }
  }

  /** The pointer being read, its objects, and an order of its names. */
  ghost predicate Setting(d: PointerDoc, was: map<string, Obj>, names: seq<string>) {
    && IsCycleId(d.cycleId) && WellFormedPointer(d) && was.Keys == d.names && Elements(names) == d.names
    && IsSolo(First(d)) && IsSolo(Second(d))
    && META_NAME in CallNames(First(d)) && META_NAME in CallNames(Second(d))
  }

  /** A traced history whose changes are single requests, of a call with nothing to wait for, is performed. */
  lemma TracedIsPerformed(c: CycleCall, h: seq<Store>)
    requires |h| > 0 && Precheck(c) == None && c.cycleId !in LiveIds(h[0]) && RecoverSpec(h[0], CallNames(c)) == h[0]
    requires Traced(c, h[0], h, 0) && forall i :: 0 <= i < |h| - 1 ==> OneRequest(h[i], h[i + 1])
    ensures var l := Life(PublishCall(c), h, 0, |h|); InRange(l) && Kept(l) && Performed(l)
  {
    hide Precheck, LiveIds, RecoverSpec, Traced, OneRequest, CallNames;
  }

  lemma SoloNames(c: CycleCall)
    requires IsSolo(c)
    ensures CallNames(c) == {META_NAME}
  {}

  lemma FirstIsPerformed(d: PointerDoc, was: map<string, Obj>, names: seq<string>)
    requires Setting(d, was, names)
    ensures var h := SoloHistory(CycleBucket(d, was), First(d));
            var l := Life(PublishCall(First(d)), h, 0, |h|);
            InRange(l) && Kept(l) && Performed(l)
  {
    hide CycleBucket, First, Precheck, RecoverSpec, WellFormedPointer, SoloHistory, IsCycleId, Traced, OneRequest,
         LiveIds, CallNames, IsSolo, PointerDocOf, Present, Snapshot, Kept, Performed;
    FirstBegins(d, was);
    SoloIsChecked(First(d));
    SoloNames(First(d));
    SoloIsTraced(CycleBucket(d, was), First(d));
    TracedIsPerformed(First(d), SoloHistory(CycleBucket(d, was), First(d)));
  }

  lemma SecondIsPerformed(d: PointerDoc, was: map<string, Obj>, names: seq<string>)
    requires Setting(d, was, names)
    ensures var h := PrunedHistory(SoloHistory(CycleBucket(d, was), First(d))[3], Second(d), PrunedKeys(d, names));
            var l := Life(PublishCall(Second(d)), h, 0, |h|);
            |h| > 0 && h[0] == SoloHistory(CycleBucket(d, was), First(d))[3] && InRange(l) && Kept(l) && Performed(l)
  {
    hide CycleBucket, First, Second, Precheck, RecoverSpec, WellFormedPointer, SoloHistory, IsCycleId, Traced,
         OneRequest, LiveIds, CallNames, IsSolo, Kept, Performed, PrunedHistory, PrunedKeys, Trusted, Without;
    BothAreSolo(d);
    SecondBegins(d, was);
    SoloIsChecked(Second(d));
    SoloNames(Second(d));
    KeysMayGo(d, names);
    var s := SoloHistory(CycleBucket(d, was), First(d))[3];
    PrunedHistoryIsTraced(s, Second(d), PrunedKeys(d, names));
    PrunedIsSome(s, Second(d), PrunedKeys(d, names));
    TracedIsPerformed(Second(d), PrunedHistory(s, Second(d), PrunedKeys(d, names)));
  }

  lemma PrunedIsSome(b: Store, c: CycleCall, ks: seq<Key>)
    requires META_NAME in CallNames(c)
    ensures |PrunedHistory(b, c, ks)| == 4 + |ks|
  {
    hide SoloHistory;
  }

  lemma ThirdIsPerformed(d: PointerDoc, was: map<string, Obj>, names: seq<string>, c: CycleCall, n: nat)
    requires Setting(d, was, names) && Precheck(c) == None && c.cycleId == d.cycleId && n <= |c.payloads|
    ensures var h := StagingHistory(Emptied(d, was, names), c, n);
            var l := Life(PublishCall(c), h, 0, |h|);
            |h| > 0 && h[0] == Emptied(d, was, names) && InRange(l) && Kept(l) && Performed(l)
  {
    hide CycleBucket, First, Second, Precheck, RecoverSpec, WellFormedPointer, IsCycleId, Traced, OneRequest, LiveIds,
         CallNames, IsSolo, Kept, Performed, Emptied, DistinctNames, AfterStaging;
    ThirdBegins(d, was, names);
    DistinctlyNamed(c);
    StagingIsTraced(Emptied(d, was, names), c, n);
    TracedIsPerformed(c, StagingHistory(Emptied(d, was, names), c, n));
  }

  /** The three lives follow one another, and each is one that the code performs. */
  lemma LivesArePerformed(d: PointerDoc, was: map<string, Obj>, names: seq<string>, c: CycleCall, n: nat)
    requires Setting(d, was, names) && Precheck(c) == None && c.cycleId == d.cycleId && n <= |c.payloads|
    ensures var ls := Lives(d, was, names, c, n); Successive(ls) && forall k :: 0 <= k < 3 ==> Performed(ls[k])
  {
    hide CycleBucket, First, Second, Precheck, WellFormedPointer, SoloHistory, IsCycleId, CallNames, IsSolo, Kept,
         Performed, PrunedHistory, StagingHistory;
    FirstIsPerformed(d, was, names);
    SecondIsPerformed(d, was, names);
    ThirdIsPerformed(d, was, names, c, n);
  }

  lemma DistinctlyNamed(c: CycleCall)
    requires Precheck(c) == None
    ensures DistinctNames(c.payloads) && CallNames(c) != {}
  {
    PrecheckedCallIsValid(c);
  }

  lemma KeysMayGo(d: PointerDoc, names: seq<string>)
    requires WellFormedPointer(d) && IsCycleId(d.cycleId)
    ensures var ks := PrunedKeys(d, names);
            forall i :: 0 <= i < |ks| ==> ks[i].CycleObj? && IsCycleId(ks[i].id) && ks[i].id != Second(d).cycleId
  {
    BothAreSolo(d);
    hide First, Second, IsSolo, IsCycleId, WellFormedPointer;
  }

  // ------------------------------------------------------------ who notices

  /** From t0 on d is read, whose objects were these, and later calls under its id are c. */
  ghost predicate Reading(r: seq<Moment>, t0: nat, u: nat, d: PointerDoc, was: map<string, Obj>, c: CycleCall) {
    && Run(r) && t0 <= u < |r|
    && PointerDocOf(r[t0].store) == Some(d) && Present(r[t0].store, d) && Snapshot(r[t0].store, d) == was
    && forall j :: && t0 < j <= u && r[j].start > t0
                   && r[j].activity.Publishing? && r[j].activity.call.cycleId == d.cycleId
                   ==> r[j].activity.call == c
  }

  /** Each name is found absent or as it was. */
  ghost predicate Served(s: Store, d: PointerDoc, was: map<string, Obj>)
    requires was.Keys == d.names
  {
    forall name :: name in d.names ==>
      Lookup(s, CycleObj(d.cycleId, name)) == None || Lookup(s, CycleObj(d.cycleId, name)) == Some(was[name])
  }

  /** What a caller can check before publishing under a used id. */
  predicate PublishesTheSame(c: CycleCall, was: map<string, Obj>) {
    forall name :: name in was ==> PublishesAs(c, name, was[name])
  }

  lemma SameObjectsServe(r: seq<Moment>, t0: nat, u: nat, d: PointerDoc, was: map<string, Obj>, c: CycleCall)
    requires was.Keys == d.names && Reading(r, t0, u, d, was, c) && PublishesTheSame(c, was)
    ensures Served(r[u].store, d, was)
  {
    hide Run, PublishesAs, PointerDocOf, StableOrGone;
    forall name | name in d.names
      ensures Lookup(r[u].store, CycleObj(d.cycleId, name)) == None
              || Lookup(r[u].store, CycleObj(d.cycleId, name)) == Some(was[name])
    {
      var k := CycleObj(d.cycleId, name);
      assert r[t0].store[k] == Snapshot(r[t0].store, d)[name] == was[name];
      assert RepublishedAs(r, t0, u, k, was[name]);
      ObjectIsStableOrGone(r, t0, u, k);
      StableMeans(r, t0, u, k);
    }
  }

  lemma StableMeans(r: seq<Moment>, t0: nat, u: nat, k: Key)
    requires t0 <= u < |r| && k.CycleObj? && k in r[t0].store && StableOrGone(r, t0, u, k)
    ensures Lookup(r[u].store, k) == None || Lookup(r[u].store, k) == Some(r[t0].store[k])
  {}

  /** A name that c publishes otherwise is served otherwise once c is staged that far. */
  lemma OtherObjectIsServed(d: PointerDoc, was: map<string, Obj>, names: seq<string>, c: CycleCall, i: nat)
    requires Setting(d, was, names) && Precheck(c) == None && c.cycleId == d.cycleId && i < |c.payloads|
    requires c.payloads[i].name in was && was[c.payloads[i].name] != Obj(c.payloads[i].data, c.payloads[i].contentType)
    ensures var r := RunWithReuse(d, was, names, c, i + 1);
            Reading(r, 0, |r| - 1, d, was, c) && !Served(r[|r| - 1].store, d, was)
  {
    hide CycleBucket, First, Second, Precheck, RecoverSpec, WellFormedPointer, Without, IsCycleId, Run, RunOf, IsSolo,
         Kept, Performed, PointerDocOf, SoloHistory, PrunedHistory, AfterStaging, LiveIds, Objects, DistinctNames;
    LivesArePerformed(d, was, names, c, i + 1);
    LivesEnds(d, was, names, c, i + 1);
    var ls := Lives(d, was, names, c, i + 1);
    LivesAreARun(ls);
    ActivitiesAreLives(ls);
    FirstBegins(d, was);
    BothAreSolo(d);
    ThirdBegins(d, was, names);
    DistinctlyNamed(c);
    var r, b := RunOf(ls), Emptied(d, was, names);
    assert r[|r| - 1].store == AfterStaging(b, c, i + 1);
    OneStaging(b, c, i);
    LivesUseOtherIds(d, was, names, c, i + 1, r);
  }

  lemma LivesUseOtherIds(d: PointerDoc, was: map<string, Obj>, names: seq<string>, c: CycleCall, n: nat, r: seq<Moment>)
    requires Setting(d, was, names) && n <= |c.payloads|
    requires forall j :: 0 <= j < |r| ==> ActsAs(r[j].activity, Lives(d, was, names, c, n))
    ensures forall j :: 0 <= j < |r| && r[j].activity.Publishing? && r[j].activity.call.cycleId == d.cycleId
                        ==> r[j].activity.call == c
  {
    hide First, Second, IsSolo, WellFormedPointer, IsCycleId, Lives, CallNames;
    BothAreSolo(d);
    CallsOfLives(d, was, names, c, n);
  }

  lemma CallsOfLives(d: PointerDoc, was: map<string, Obj>, names: seq<string>, c: CycleCall, n: nat)
    requires Setting(d, was, names) && n <= |c.payloads|
    ensures forall a: Activity :: ActsAs(a, Lives(d, was, names, c, n)) ==>
              a == Publishing(First(d)) || a == Publishing(Second(d)) || a == Publishing(c)
  {
    hide First, Second, IsSolo, WellFormedPointer, IsCycleId, CallNames, Lives;
    LivesCalls(d, was, names, c, n);
    ThreeCalls(Lives(d, was, names, c, n), First(d), Second(d), c);
  }

  lemma LivesCalls(d: PointerDoc, was: map<string, Obj>, names: seq<string>, c: CycleCall, n: nat)
    requires Setting(d, was, names) && n <= |c.payloads|
    ensures IsCycleId(d.cycleId)
    ensures var ls := Lives(d, was, names, c, n);
            && |ls| == 3 && ls[0].call == PublishCall(First(d)) && ls[1].call == PublishCall(Second(d)) &&
                ls[2].call == PublishCall(c)
  {
    hide First, Second, IsSolo, WellFormedPointer, IsCycleId, CallNames, SoloHistory, PrunedHistory, StagingHistory,
         CycleBucket;
  }

  lemma ThreeCalls(ls: seq<Life>, one: CycleCall, two: CycleCall, three: CycleCall)
    requires |ls| == 3 && ls[0].call == PublishCall(one) && ls[1].call == PublishCall(two)
    requires ls[2].call == PublishCall(three)
    ensures forall a: Activity :: ActsAs(a, ls) ==>
              a == Publishing(one) || a == Publishing(two) || a == Publishing(three)
  {
    forall a: Activity | ActsAs(a, ls) ensures a == Publishing(one) || a == Publishing(two) || a == Publishing(three) {
      var m :| 0 <= m < |ls| && InRange(ls[m]) && a == ActivityOf(ls[m]);
    }
  }

  ghost function RunWithReuse(d: PointerDoc, was: map<string, Obj>, names: seq<string>, c: CycleCall,
                              n: nat): seq<Moment>
    requires Setting(d, was, names) && Precheck(c) == None && c.cycleId == d.cycleId && n <= |c.payloads|
  {
    LivesArePerformed(d, was, names, c, n);
    RunOf(Lives(d, was, names, c, n))
  }

  /**
   A reader that holds the pointer d, and a call c that may come to publish under
   its id again: in every run whose later calls under that id are c the reader
   finds each object absent or as the pointer named it, exactly if c publishes
   the same object under every name that the two have in common.
   */
  lemma ReuseIsHarmlessIff(d: PointerDoc, was: map<string, Obj>, c: CycleCall)
    requires WellFormedPointer(d) && was.Keys == d.names && Precheck(c) == None && c.cycleId == d.cycleId
    ensures (forall r: seq<Moment>, t0: nat, u: nat :: Reading(r, t0, u, d, was, c) ==> Served(r[u].store, d, was))
       <==> PublishesTheSame(c, was)
  {
    hide Reading, Served, WellFormedPointer, Precheck, PublishesTheSame, IsCycleId;
    if PublishesTheSame(c, was) {
      forall r: seq<Moment>, t0: nat, u: nat | Reading(r, t0, u, d, was, c)
        ensures u < |r| && Served(r[u].store, d, was)
      {
        ReadingIsWithin(r, t0, u, d, was, c);
        SameObjectsServe(r, t0, u, d, was, c);
      }
    } else {
      var r := NoticedRun(d, was, c);
      assert Reading(r, 0, |r| - 1, d, was, c);
    }
  }

  lemma ReadingIsWithin(r: seq<Moment>, t0: nat, u: nat, d: PointerDoc, was: map<string, Obj>, c: CycleCall)
    requires Reading(r, t0, u, d, was, c)
    ensures u < |r|
  {}

  lemma NoticedRun(d: PointerDoc, was: map<string, Obj>, c: CycleCall) returns (r: seq<Moment>)
    requires WellFormedPointer(d) && was.Keys == d.names && Precheck(c) == None && c.cycleId == d.cycleId
    requires !PublishesTheSame(c, was)
    ensures |r| > 0 && Reading(r, 0, |r| - 1, d, was, c) && !Served(r[|r| - 1].store, d, was)
  {
    hide Reading, Served, WellFormedPointer, Precheck, PublishesTheSame, IsCycleId, First, Second, IsSolo, CallNames;
    PointerIdIsValid(d);
    var i, names := DifferentPayload(d, was, c);
    BothAreSolo(d);
    OtherObjectIsServed(d, was, names, c, i);
    r := RunWithReuse(d, was, names, c, i + 1);
  }

  lemma DifferentPayload(d: PointerDoc, was: map<string, Obj>, c: CycleCall) returns (i: nat, names: seq<string>)
    requires WellFormedPointer(d) && was.Keys == d.names && Precheck(c) == None && !PublishesTheSame(c, was)
    ensures i < |c.payloads| && c.payloads[i].name in was && IsCycleId(d.cycleId) && Elements(names) == d.names
    ensures was[c.payloads[i].name] != Obj(c.payloads[i].data, c.payloads[i].contentType)
  {
    DistinctlyNamed(c);
    names := Listing(d.names);
    hide Precheck, Objects;
    var name :| name in was && !PublishesAs(c, name, was[name]);
    ObjectsNamePayloads(c.payloads);
    var p :| p in c.payloads && p.name == name;
    i :| 0 <= i < |c.payloads| && c.payloads[i] == p;
    ObjectsHoldPayloads(c.payloads, i);
  }

  lemma {:induction false} Listing(names: set<string>) returns (listed: seq<string>)
    ensures Elements(listed) == names
    decreases names
  {
    if names == {} {
      listed := [];
    } else {
      var x :| x in names;
      var rest := Listing(names - {x});
      listed := rest + [x];
      assert Elements(listed) == Elements(rest) + {x};
    }
  }

  /** Three calls that the code performs, after which the reader of d is served another object. */
  ghost predicate Noticed(d: PointerDoc, was: map<string, Obj>, ls: seq<Life>) {
    && was.Keys == d.names && |ls| == 3 && Successive(ls) && (forall k :: 0 <= k < 3 ==> Performed(ls[k]))
    && var first, last := ls[0].history[0], ls[2].history;
       && PointerDocOf(first) == Some(d) && Present(first, d) && Snapshot(first, d) == was
       && ls[2].call.PublishCall? && ls[2].call.call.cycleId == d.cycleId
       && |last| == 2 && !Served(last[1], d, was)
  }

  /**
   What makes the reader notice is nothing unusual: at any valid time there are a
   cycle of one object and three calls that the code performs, every check
   passed and nothing failing, the last killed after one request, and the
   pointer read before them names an object that has become another.
   */
  lemma ReusedIdBreaksAReader(generatedAt: string, suffix: string)
    returns (d: PointerDoc, was: map<string, Obj>, ls: seq<Life>)
    requires ValidGeneratedAt(generatedAt) && HexSuffix(suffix)
    ensures WellFormedPointer(d) && d.cycleId == NewCycleId(generatedAt, suffix) && Noticed(d, was, ls)
  {
    var id := NewCycleId(generatedAt, suffix);
    d := PointerDoc(id, generatedAt, {META_NAME});
    was := map[META_NAME := Obj(Opaque(0), DEFAULT_TYPE)];
    hide ValidCycleId, IsCycleId, Precheck, ValidGeneratedAt, NewCycleId, Noticed;
    ShortNames();
    IdsAreValid(id, generatedAt);
    ls := SoloReuse(d, was);
  }

  lemma SoloReuse(d: PointerDoc, was: map<string, Obj>) returns (ls: seq<Life>)
    requires IsCycleId(d.cycleId) && WellFormedPointer(d) && d.names == {META_NAME}
    requires was == map[META_NAME := Obj(Opaque(0), DEFAULT_TYPE)]
    ensures Noticed(d, was, ls)
  {
    hide IsCycleId, ValidCycleId, WellFormedPointer, Precheck, Objects, CycleBucket, First, Second, IsSolo,
         SoloHistory, CallNames, PrunedHistory, Successive, LiveIds, AfterStaging, PointerDocOf, CallWith,
         DistinctNames, Performed, Emptied, Lives;
    PointerIdIsValid(d);
    var c, names := CallWith([], d.cycleId, d.generatedAt, 1), [META_NAME];
    CallHasItsId(d.cycleId, d.generatedAt, 1);
    BothAreSolo(d);
    SoloPasses(d.cycleId, d.generatedAt, 1);
    SoloIsChecked(c);
    SoloPayload(d.cycleId, d.generatedAt, 1);
    assert Elements(names) == {META_NAME};
    ls := Lives(d, was, names, c, 1);
    LivesArePerformed(d, was, names, c, 1);
    FirstBegins(d, was);
    LivesCalls(d, was, names, c, 1);
    LivesEnds(d, was, names, c, 1);
    ThirdBegins(d, was, names);
    DistinctlyNamed(c);
    OneStaging(Emptied(d, was, names), c, 0);
    AnotherIsServed(d, was, ls[2].history[1]);
  }

  lemma AnotherIsServed(d: PointerDoc, was: map<string, Obj>, s: Store)
    requires d.names == {META_NAME} && was.Keys == d.names
    requires Lookup(s, CycleObj(d.cycleId, META_NAME)).Some?
    requires Lookup(s, CycleObj(d.cycleId, META_NAME)) != Some(was[META_NAME])
    ensures !Served(s, d, was)
  {}

  lemma SoloPayload(id: string, g: string, retention: int)
    ensures var ps := CallWith([], id, g, retention).payloads;
            |ps| == 1 && ps[0].name == META_NAME && ps[0].data != Opaque(0)
  {}

  lemma LivesEnds(d: PointerDoc, was: map<string, Obj>, names: seq<string>, c: CycleCall, n: nat)
    requires Setting(d, was, names) && n <= |c.payloads|
    ensures var ls := Lives(d, was, names, c, n);
            && ls[0].history[0] == CycleBucket(d, was) && ls[0].lo == 0 && ls[2].call == PublishCall(c)
            && |ls[2].history| == n + 1 && ls[2].cut == n + 1 &&
                ls[2].history[n] == AfterStaging(Emptied(d, was, names), c, n)
  {
    hide First, Second, IsSolo, WellFormedPointer, IsCycleId, PrunedHistory, CallNames, CycleBucket, AfterStaging;
  }
}

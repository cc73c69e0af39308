/**
 Where the guarantees end (src/publish.py:436-461, 513-527, 574-617, 640-646).

 The conditions that the publication's theorems put on names, rollbacks and
 commits are shown here to be the exact ones, by buckets and calls that the
 checks let through; module Reuse does the same for a cycle id used twice.
 */
module Limits {
  import opened Prelude
  import opened CycleIds
  import opened Keys
  import opened Documents
  import opened S3
  import opened Protocol
  import opened Runs
  import opened Publish
  import opened Exporter

  // ------------------------------------------------------------ an older cycle

  /** Another valid id of the same second. */
  function OtherId(id: string): string
    requires IsCycleId(id)
  {
    id[..24] + [if id[24] == '0' then '1' else '0']
  }

  lemma OtherIdIsValid(id: string, g: string)
    requires ValidCycleId(id, g)
    ensures ValidCycleId(OtherId(id), g) && OtherId(id) != id
  {
    var other := OtherId(id);
    assert other[24] != id[24];
    assert other[..16] == id[..16];
    assert forall i :: 0 <= i < 24 ==> other[i] == id[i];
    assert other[..8] == id[..8] && other[9..15] == id[9..15];
  }

  /** What the older cycle staged: nothing of it equals what c publishes. */
  function OldData(c: CycleCall, name: string): Bytes
    requires IsCycleId(c.cycleId) && name in CallNames(c)
  {
    var published := Objects(c.payloads)[name].data;
    if name == META_NAME then
      var meta := BuildMeta(OtherId(c.cycleId), c.generatedAt, map[]);
      Text(meta, if published == Text(meta, 0) then 1 else 0)
    else
      Opaque(if published == Opaque(0) then 1 else 0)
  }

  function OldObjects(c: CycleCall): map<string, Obj>
    requires IsCycleId(c.cycleId)
  {
    map name | name in CallNames(c) :: Obj(OldData(c, name), DEFAULT_TYPE)
  }

  function OldDoc(c: CycleCall): PointerDoc
    requires IsCycleId(c.cycleId)
  {
    PointerDoc(OtherId(c.cycleId), c.generatedAt, CallNames(c))
  }

  /** A cycle staged, mirrored and pointed at. */
  function CycleBucket(d: PointerDoc, m: map<string, Obj>): Store {
    (StagedAt(d.cycleId, m) + Mirror(m))
      [CURRENT_KEY := Obj(PointerBytes(d.cycleId, d.generatedAt, d.names), POINTER_TYPE)]
  }

  function OldBucket(c: CycleCall): Store
    requires IsCycleId(c.cycleId)
  {
    CycleBucket(OldDoc(c), OldObjects(c))
  }

  lemma CheckedIdIsValid(c: CycleCall)
    requires Precheck(c) == None
    ensures IsCycleId(c.cycleId) && ValidCycleId(c.cycleId, c.generatedAt)
  {}

  lemma OldMetaAgrees(c: CycleCall)
    requires IsCycleId(c.cycleId) && META_NAME in CallNames(c)
    ensures MetaMatches(OldData(c, META_NAME), OldDoc(c).cycleId, c.generatedAt)
  {
    hide Objects, IsCycleId;
  }

  lemma CopiesAt(id: string, m: map<string, Obj>, k: Key)
    ensures Lookup(Mirror(m), k) == if k.Fixed? && k.name in m then Some(m[k.name]) else None
    ensures Lookup(StagedAt(id, m), k) == if k.CycleObj? && k.id == id && k.name in m then Some(m[k.name]) else None
  {}

  lemma CycleBucketAt(d: PointerDoc, m: map<string, Obj>, k: Key)
    ensures Lookup(CycleBucket(d, m), k)
         == if k == CURRENT_KEY then Some(Obj(PointerBytes(d.cycleId, d.generatedAt, d.names), POINTER_TYPE))
            else if k.Fixed? && k.name in m then Some(m[k.name])
            else if k.CycleObj? && k.id == d.cycleId && k.name in m then Some(m[k.name])
            else None
  {
    hide Mirror, StagedAt, PointerBytes;
    CopiesAt(d.cycleId, m, k);
  }

  lemma CycleBucketHolds(d: PointerDoc, m: map<string, Obj>)
    requires m.Keys == d.names
    ensures var b := CycleBucket(d, m);
            && Present(b, d) && Snapshot(b, d) == m
            && PointerData(b) == Some(PointerBytes(d.cycleId, d.generatedAt, d.names))
            && LiveIds(b) <= {d.cycleId}
  {
    hide PointerBytes, CycleBucket;
    var b := CycleBucket(d, m);
    CycleBucketAt(d, m, CURRENT_KEY);
    forall name | name in d.names ensures Lookup(b, CycleObj(d.cycleId, name)) == Some(m[name]) {
      CycleBucketAt(d, m, CycleObj(d.cycleId, name));
    }
    forall k | k in b && k.CycleObj? ensures k.id == d.cycleId {
      CycleBucketAt(d, m, k);
    }
  }

  lemma OldBucketHolds(c: CycleCall)
    requires IsCycleId(c.cycleId)
    ensures var b, d := OldBucket(c), OldDoc(c);
            && Present(b, d) && Snapshot(b, d) == OldObjects(c)
            && PointerData(b) == Some(PointerBytes(d.cycleId, d.generatedAt, d.names))
            && LiveIds(b) <= {d.cycleId}
  {
    hide CycleBucket, Present, Snapshot, LiveIds, PointerData, PointerBytes, OldData, OtherId;
    CycleBucketHolds(OldDoc(c), OldObjects(c));
  }

  lemma OldBucketIsTrusted(c: CycleCall)
    requires IsCycleId(c.cycleId) && Precheck(c) == None
    ensures var b := OldBucket(c);
            && PointerDocOf(b) == Some(OldDoc(c)) && Trusted(b, CallNames(c))
            && c.cycleId !in LiveIds(b)
  {
    PrecheckedCallIsValid(c);
    OtherIdIsValid(c.cycleId, c.generatedAt);
    var b, d := OldBucket(c), OldDoc(c);
    PointerRoundTrip(d.cycleId, d.generatedAt, d.names);
    OldBucketHolds(c);
    OldMetaAgrees(c);
    hide Precheck, PointerBytes, DecodePointer, ValidCycleId, Objects, OldBucket, OldData, MetaMatches,
         WellFormedPointer;
    assert PointerDocOf(b) == Some(d);
    assert Snapshot(b, d)[META_NAME] == OldObjects(c)[META_NAME];
  }

  // ------------------------------------------------------------ a payload called current.json

  /** The bucket b with all of c staged, after the first j mirror uploads. */
  ghost function MirrorAt(b: Store, c: CycleCall, j: nat): Store
    requires j <= |MetaLast(c.payloads)|
  {
    AfterUploads(b + StagedAt(c.cycleId, Objects(c.payloads)), MetaLast(c.payloads), j)
  }

  /** Its own commit record under the pointer's name. */
  predicate CarriesItsPointer(c: CycleCall) {
    POINTER_NAME in CallNames(c) && Objects(c.payloads)[POINTER_NAME].data == CommitObj(c).data
  }

  lemma KeptCyclesKeepView(b: Store, s: Store)
    requires KeepsCycles(b, s) && PointerData(s) == PointerData(b)
    ensures StillAt(b, s)
  {
    hide DecodePointer;
    if NamesCompleteCycle(b) {
      var d := PointerDocOf(b).value;
      forall name | name in d.names ensures SameAt(b, s, CycleObj(d.cycleId, name)) {}
      assert Resolve(s).objects == Resolve(b).objects;
    }
  }

  /** Every mirror point: staged, no cycle lost, and the pointer's bytes old or uploaded. */
  lemma MirrorPointHas(b: Store, c: CycleCall, j: nat)
    requires Precheck(c) == None && c.cycleId !in LiveIds(b) && j <= |MetaLast(c.payloads)|
    ensures var x := MirrorAt(b, c, j);
            && AllStaged(c, x) && KeepsCycles(b, x)
            && (PointerData(x) == PointerData(b)
                || (POINTER_NAME in CallNames(c) && PointerData(x) == Some(Objects(c.payloads)[POINTER_NAME].data)))
            && (j == |MetaLast(c.payloads)| && POINTER_NAME in CallNames(c)
                ==> PointerData(x) == Some(Objects(c.payloads)[POINTER_NAME].data))
  {
    var t, items := b + StagedAt(c.cycleId, Objects(c.payloads)), MetaLast(c.payloads);
    var x := MirrorAt(b, c, j);
    PrecheckedCallIsValid(c);
    MetaLastReorders(c.payloads);
    StagingAdds(c, b, t);
    hide Precheck, ValidCall, MetaLast, Mirror, StagedAt, Objects, LiveIds, KeepsCycles, AllStaged, FixedOnly;
    assert UploadPoint(t, items, x);
    UploadPointTouches(t, items, x);
    MirrorKeepsStaged(c, t, x);
    FixedOnlyKeepsCycles(CallNames(c), t, x);
    KeepsCyclesComposes(b, t, x);
    UploadedPointer(t, Objects(items[..j]));
    if POINTER_NAME in Objects(items[..j]) {
      PrefixAgrees(items, j, POINTER_NAME);
    }
    assert items[..|items|] == items;
  }

  lemma MirrorPointIsAtomic(b: Store, c: CycleCall, j: nat)
    requires Precheck(c) == None && c.cycleId !in LiveIds(b) && j <= |MetaLast(c.payloads)|
    requires POINTER_NAME !in CallNames(c) || CarriesItsPointer(c)
    ensures AtomicWithin(c, b, MirrorAt(b, c, j))
  {
    var x := MirrorAt(b, c, j);
    MirrorPointHas(b, c, j);
    if PointerData(x) == PointerData(b) {
      KeptCyclesKeepView(b, x);
    } else {
      BytesPublish(c, x);
    }
  }

  /** Where everything is staged, the committed bytes at the pointer commit, whoever put them there. */
  lemma BytesPublish(c: CycleCall, s: Store)
    requires Precheck(c) == None && AllStaged(c, s) && PointerData(s) == Some(CommitObj(c).data)
    ensures Resolve(s) == CommittedView(c) && NamesCompleteCycle(s)
  {
    PrecheckedCallIsValid(c);
    var d := PointerDoc(c.cycleId, c.generatedAt, CallNames(c));
    PointerRoundTrip(c.cycleId, c.generatedAt, CallNames(c));
    hide Precheck, PointerBytes, DecodePointer, ValidCall, WellFormedPointer, Objects, Resolve, CommittedView;
    assert PointerDocOf(s) == Some(d);
    LiveView(c, s, d);
  }

  lemma OtherBytesBreakAtomicity(c: CycleCall, b: Store, s: Store)
    requires PointerData(s) != PointerData(b) && PointerData(s) != Some(CommitObj(c).data)
    ensures !AtomicWithin(c, b, s)
  {}

  /**
   The name check lets a payload be called `current.json`. Mirroring such a call
   is atomic, from every bucket and at every point of it, exactly if that
   payload is the call's own commit record: then the mirror commits.
   */
  lemma MirrorIsAtomicIff(c: CycleCall)
    requires Precheck(c) == None
    ensures (forall b, j :: c.cycleId !in LiveIds(b) && 0 <= j <= |MetaLast(c.payloads)| ==>
              AtomicWithin(c, b, MirrorAt(b, c, j)))
       <==> POINTER_NAME !in CallNames(c) || CarriesItsPointer(c)
  {
    hide Precheck, MetaLast, MirrorAt, AtomicWithin;
    if POINTER_NAME !in CallNames(c) || CarriesItsPointer(c) {
      forall b, j | c.cycleId !in LiveIds(b) && 0 <= j <= |MetaLast(c.payloads)|
        ensures AtomicWithin(c, b, MirrorAt(b, c, j))
      {
        MirrorPointIsAtomic(b, c, j);
      }
    } else {
      var b: Store, j := map[], |MetaLast(c.payloads)|;
      MirrorPointHas(b, c, j);
      OtherBytesBreakAtomicity(c, b, MirrorAt(b, c, j));
    }
  }

  /**
   A whole publication begins with a recovery under its own names. That step is
   atomic from every bucket exactly if `current.json` is not among them:
   otherwise there is a trusted bucket whose cycle holds another `current.json`,
   and recovering from it overwrites the pointer with that.
   */
  lemma PublicationIsAtomicIff(c: CycleCall)
    requires Precheck(c) == None
    ensures (forall b :: c.cycleId !in LiveIds(b) ==> AtomicWithin(c, b, RecoverSpec(b, CallNames(c)))) <==>
              POINTER_NAME !in CallNames(c)
  {
    hide Precheck, AtomicWithin, RecoverSpec, Trusted, OldBucket;
    PrecheckedCallIsValid(c);
    if POINTER_NAME !in CallNames(c) {
      forall b | c.cycleId !in LiveIds(b) ensures AtomicWithin(c, b, RecoverSpec(b, CallNames(c))) {
        CleanRecoveryIsAtomic(c, b);
      }
    } else {
      OldBucketIsTrusted(c);
      OldBucketOverwritten(c);
    }
  }

  lemma CleanRecoveryIsAtomic(c: CycleCall, b: Store)
    requires ValidCall(c) && POINTER_NAME !in CallNames(c)
    ensures AtomicWithin(c, b, RecoverSpec(b, CallNames(c)))
  {
    RecoveredBucket(c, b, RecoverSpec(b, CallNames(c)));
    KeptCyclesKeepView(b, RecoverSpec(b, CallNames(c)));
  }

  lemma OldBucketOverwritten(c: CycleCall)
    requires IsCycleId(c.cycleId) && Precheck(c) == None && POINTER_NAME in CallNames(c)
    ensures !AtomicWithin(c, OldBucket(c), RecoverSpec(OldBucket(c), CallNames(c)))
  {
    var b, d := OldBucket(c), OldDoc(c);
    OldBucketIsTrusted(c);
    OldBucketHolds(c);
    RecoveredPointer(b, CallNames(c), d);
    hide Precheck, OldBucket, Trusted, RecoverSpec, AtomicWithin;
    assert b[CycleObj(d.cycleId, POINTER_NAME)] == Snapshot(b, d)[POINTER_NAME] == OldObjects(c)[POINTER_NAME];
    assert PointerData(RecoverSpec(b, CallNames(c))) == Some(OldData(c, POINTER_NAME));
    OtherBytesBreakAtomicity(c, b, RecoverSpec(b, CallNames(c)));
  }

  /** A call with these payloads and a meta.json that agrees with its pointer. */
  function CallWith(others: seq<Payload>, id: string, generatedAt: string, retention: int): CycleCall {
    var meta := Payload(META_NAME, Encode(BuildMeta(id, generatedAt, map[])), "application/json");
    CycleCall(others + [meta], id, generatedAt, retention)
  }

  const STRAY := Payload(POINTER_NAME, Opaque(0), DEFAULT_TYPE)

  lemma ShortCallsPass(others: seq<Payload>, id: string, generatedAt: string, retention: int)
    requires ValidCycleId(id, generatedAt) && (others == [] || others == [STRAY])
    ensures var c := CallWith(others, id, generatedAt, retention);
            && Precheck(c) == None
            && CallNames(c) == (if others == [] then {} else {POINTER_NAME}) + {META_NAME}
            && Objects(c.payloads)[META_NAME].data == Encode(BuildMeta(id, generatedAt, map[]))
            && (others != [] ==> Objects(c.payloads)[POINTER_NAME] == Obj(Opaque(0), DEFAULT_TYPE))
  {
    hide ValidCycleId, BuildMeta;
    var c := CallWith(others, id, generatedAt, retention);
    var ps := c.payloads;
    ShortNames();
    OnlyLastIsMeta(ps);
    assert ps[|ps| - 1].name == META_NAME;
    if others == [STRAY] {
      assert ps[0] == STRAY && ps[1].name == META_NAME;
      ObjectsHoldPayloads(ps, 0);
    }
    ObjectsHoldPayloads(ps, |ps| - 1);
    ObjectsNamePayloads(ps);
    forall name ensures name in CallNames(c) <==> name in (if others == [] then {} else {POINTER_NAME}) + {META_NAME} {
      assert others == [STRAY] ==> ps[0] in ps;
      assert ps[|ps| - 1] in ps;
    }
  }

  lemma ShortNames()
    ensures SimpleName(POINTER_NAME) && SimpleName(META_NAME) && POINTER_NAME != META_NAME
  {
    assert POINTER_NAME[0] == 'c' && META_NAME[0] == 'm';
  }

  /**
   At any valid time there is a call that passes every check, with a bucket from
   which mirroring it, a bucket from which publishing it and a bucket from which
   merely recovering leave neither the old pointer nor the new one. The last two
   are the same valid, complete and trusted cycle.
   */
  lemma StrayPointerPayload(generatedAt: string, suffix: string)
    requires ValidGeneratedAt(generatedAt) && HexSuffix(suffix)
    ensures var c := CallWith([STRAY], NewCycleId(generatedAt, suffix), generatedAt, 1);
            && Precheck(c) == None
            && (exists j :: 0 <= j <= |MetaLast(c.payloads)| && !AtomicWithin(c, map[], MirrorAt(map[], c, j)))
            && Trusted(OldBucket(c), CallNames(c)) &&
                !AtomicWithin(c, OldBucket(c), RecoverSpec(OldBucket(c), CallNames(c)))
            && Trusted(OldBucket(c), {}) && PointerDocOf(RecoverSpec(OldBucket(c), {})) == None
  {
    var c := CallWith([STRAY], NewCycleId(generatedAt, suffix), generatedAt, 1);
    ShortCallsPass([STRAY], NewCycleId(generatedAt, suffix), generatedAt, 1);
    hide Precheck, MetaLast, MirrorAt, AtomicWithin, CallWith, CommitObj, Objects, OldBucket, RecoverSpec,
         ValidGeneratedAt;
    var j := |MetaLast(c.payloads)|;
    MirrorPointHas(map[], c, j);
    OpaqueIsNoPointer(c);
    OtherBytesBreakAtomicity(c, map[], MirrorAt(map[], c, j));
    OldBucketIsTrusted(c);
    OldBucketOverwritten(c);
    OldBucketHolds(c);
    var b, d := OldBucket(c), OldDoc(c);
    RecoveredPointer(b, {}, d);
    assert b[CycleObj(d.cycleId, POINTER_NAME)] == Snapshot(b, d)[POINTER_NAME] == OldObjects(c)[POINTER_NAME];
  }

  lemma OpaqueIsNoPointer(c: CycleCall)
    ensures CommitObj(c).data != Opaque(0)
  {}

  // ------------------------------------------------------------ rolling back

  lemma QuietIsRecovered(b: Store, names: set<string>, d: PointerDoc)
    requires Trusted(b, names) && PointerDocOf(b) == Some(d)
    requires FixedState(b, d.names) == Wanted(Snapshot(b, d))
    ensures RecoverSpec(b, names) == b
  {}

  lemma OldFixedState(c: CycleCall)
    requires IsCycleId(c.cycleId) && Clean(c)
    ensures FixedState(OldBucket(c), OldDoc(c).names) == Wanted(OldObjects(c))
  {
    hide CycleBucket, OldData, OtherId, IsCycleId, PointerBytes, Objects;
    forall name | name in CallNames(c) ensures Lookup(OldBucket(c), Fixed(name)) == Some(OldObjects(c)[name]) {
      CycleBucketAt(OldDoc(c), OldObjects(c), Fixed(name));
    }
  }

  /** The old bucket is its own recovery: its fixed keys already match. */
  lemma OldBucketIsQuiet(c: CycleCall)
    requires IsCycleId(c.cycleId) && Precheck(c) == None && Clean(c)
    ensures RecoverSpec(OldBucket(c), CallNames(c)) == OldBucket(c)
  {
    hide Precheck, OldBucket, OldObjects, Trusted, PointerDocOf, RecoverSpec, IsCycleId, Snapshot, OtherId,
         FixedState, Wanted, Present, LiveIds;
    OldBucketIsTrusted(c);
    OldBucketHolds(c);
    OldFixedState(c);
    QuietIsRecovered(OldBucket(c), CallNames(c), OldDoc(c));
  }

  lemma FirstUpload(b: Store, c: CycleCall) returns (p: Payload)
    requires Precheck(c) == None
    ensures |MetaLast(c.payloads)| > 0 && p.name in CallNames(c) && Objects(c.payloads)[p.name].data == p.data
    ensures Lookup(MirrorAt(b, c, 1), Fixed(p.name)) == Some(Obj(p.data, p.contentType))
  {
    PrecheckedCallIsValid(c);
    MetaLastReorders(c.payloads);
    hide Precheck, MetaLast, Objects, StagedAt, Mirror, ValidCall;
    var items := MetaLast(c.payloads);
    NotEmpty(items, META_NAME);
    p := items[0];
    ObjectsHoldPayloads(items, 0);
    OneUpload(b + StagedAt(c.cycleId, Objects(c.payloads)), items, 0);
  }

  lemma NotEmpty(ps: seq<Payload>, name: string)
    requires name in Objects(ps)
    ensures |ps| > 0
  {}

  lemma OldDataDiffers(c: CycleCall, name: string)
    requires IsCycleId(c.cycleId) && name in CallNames(c)
    ensures OldData(c, name) != Objects(c.payloads)[name].data
  {}

  lemma OneUploadMixes(b: Store, s: Store, d: PointerDoc, name: string, o: Obj)
    requires PointerDocOf(b) == Some(d) && Present(b, d) && name in d.names && KeepsCycles(b, s)
    requires PointerData(s) == PointerData(b)
    requires Lookup(s, Fixed(name)) == Some(o) && b[CycleObj(d.cycleId, name)].data != o.data
    ensures PointerDocOf(s) == Some(d) && !FixedMatches(s, d)
  {
    hide DecodePointer;
    assert SameAt(b, s, CycleObj(d.cycleId, name));
  }

  lemma OldObjectsDiffer(c: CycleCall, name: string)
    requires IsCycleId(c.cycleId) && name in CallNames(c)
    ensures var d := OldDoc(c);
            CycleObj(d.cycleId, name) in OldBucket(c) &&
                OldBucket(c)[CycleObj(d.cycleId, name)].data != Objects(c.payloads)[name].data
  {
    hide IsCycleId, CycleBucket, OldData;
    CycleBucketAt(OldDoc(c), OldObjects(c), CycleObj(OldDoc(c).cycleId, name));
    OldDataDiffers(c, name);
  }

  /** After the first mirror upload the old bucket's fixed keys are mixed. */
  lemma OldBucketHalfMirrored(c: CycleCall)
    requires IsCycleId(c.cycleId) && Precheck(c) == None && Clean(c)
    ensures |MetaLast(c.payloads)| > 0
    ensures var s := MirrorAt(OldBucket(c), c, 1); PointerDocOf(s) == Some(OldDoc(c)) && !FixedMatches(s, OldDoc(c))
  {
    hide Precheck, OldBucket, MetaLast, Trusted, LiveIds, AllStaged, MirrorAt, PointerDocOf, Objects, IsCycleId,
         FixedMatches, KeepsCycles;
    var b := OldBucket(c);
    OldBucketIsTrusted(c);
    OldBucketHolds(c);
    var p := FirstUpload(b, c);
    MirrorPointHas(b, c, 1);
    OldObjectsDiffer(c, p.name);
    OneUploadMixes(b, MirrorAt(b, c, 1), OldDoc(c), p.name, Obj(p.data, p.contentType));
  }

  /**
   A failed publication of any other names than the default ones is rolled back
   with the wrong names: over every trusted bucket and from every point of
   failure the rollback restores the fixed keys exactly if the names are the
   default ones. What fails otherwise is as small as one upload.
   */
  lemma RollbackRestoresIff(c: CycleCall)
    requires Precheck(c) == None && Clean(c)
    ensures (forall b, s :: Trusted(b, CallNames(c)) && c.cycleId !in LiveIds(b) && FailurePoint(c, b, s)
                        ==> FixedMatchesPointer(RecoverSpec(s, DEFAULT_FIXED_NAMES)))
       <==> CallNames(c) == DEFAULT_FIXED_NAMES
    ensures CallNames(c) != DEFAULT_FIXED_NAMES ==>
              var b := OldBucket(c);
              && Trusted(b, CallNames(c)) && FixedMatchesPointer(b) && |MetaLast(c.payloads)| > 0
              && !FixedMatchesPointer(RecoverSpec(MirrorAt(RecoverSpec(b, CallNames(c)), c, 1), DEFAULT_FIXED_NAMES))
  {
    PrecheckedCallIsValid(c);
    hide Precheck, Trusted, FailurePoint, FixedMatchesPointer, OldBucket, MetaLast, MirrorAt, LiveIds, ValidCall;
    if CallNames(c) == DEFAULT_FIXED_NAMES {
      forall b, s | Trusted(b, CallNames(c)) && c.cycleId !in LiveIds(b) && FailurePoint(c, b, s)
        ensures FixedMatchesPointer(RecoverSpec(s, DEFAULT_FIXED_NAMES))
      {
        RollbackMatchesPointer(c, b, s);
      }
    } else {
      OldBucketIsTrusted(c);
      OldBucketIsQuiet(c);
      OldBucketHalfMirrored(c);
      var b := OldBucket(c);
      MixedKeysStay(c, b, MirrorAt(b, c, 1));
      QuietMatches(c, b);
    }
  }

  lemma QuietMatches(c: CycleCall, b: Store)
    requires Trusted(b, CallNames(c)) && RecoverSpec(b, CallNames(c)) == b
    ensures FixedMatchesPointer(b)
  {
    RepairConverges(b, PointerDocOf(b).value);
  }

  lemma MixedKeysStay(c: CycleCall, b: Store, s: Store)
    requires IsCycleId(c.cycleId) && Precheck(c) == None && Clean(c) && CallNames(c) != DEFAULT_FIXED_NAMES
    requires b == OldBucket(c)
    requires |MetaLast(c.payloads)| > 0 && s == MirrorAt(b, c, 1)
    requires PointerDocOf(s) == Some(OldDoc(c)) && !FixedMatches(s, OldDoc(c))
    ensures FailurePoint(c, b, s) && !FixedMatchesPointer(RecoverSpec(s, DEFAULT_FIXED_NAMES))
  {
    hide Precheck;
    OldBucketIsTrusted(c);
    MirrorPointHas(b, c, 1);
    StagedPointerStays(c, b, 1);
    assert OldDoc(c).names == CallNames(c);
    hide OldBucket, MetaLast, MirrorAt, Trusted, FixedMatches, AllStaged, KeepsCycles, RecoverSpec, CallNames,
         PointerDocOf, IsCycleId;
    OtherNamesAreLeft(s, OldDoc(c));
  }

  lemma OtherNamesAreLeft(s: Store, d: PointerDoc)
    requires PointerDocOf(s) == Some(d) && d.names != DEFAULT_FIXED_NAMES
    ensures RecoverSpec(s, DEFAULT_FIXED_NAMES) == s
  {}

  lemma StagedPointerStays(c: CycleCall, b: Store, j: nat)
    requires Precheck(c) == None && Clean(c) && j <= |MetaLast(c.payloads)| && c.cycleId !in LiveIds(b)
    ensures SameAt(b, MirrorAt(b, c, j), CURRENT_KEY)
  {
    PrecheckedCallIsValid(c);
    MetaLastReorders(c.payloads);
    var t, items := b + StagedAt(c.cycleId, Objects(c.payloads)), MetaLast(c.payloads);
    StagingAdds(c, b, t);
    hide Precheck, MetaLast, StagedAt, Mirror, Objects;
    var x := MirrorAt(b, c, j);
    assert UploadPoint(t, items, x);
    UploadPointTouches(t, items, x);
    assert SameAt(t, x, CURRENT_KEY);
  }

  // ------------------------------------------------------------ a reader during the rollback

  /** These uploads make up m, meta.json last. */
  ghost predicate UploadOrder(items: seq<Payload>, m: map<string, Obj>) {
    DistinctNames(items) && MetaAtEnd(items) && Objects(items) == m
  }

  /** These deletions make up gone, meta.json last. */
  ghost predicate DeletionOrder(order: seq<string>, gone: set<string>) {
    && Distinct(order) && Elements(order) == gone
    && forall i :: 0 <= i < |order| - 1 ==> order[i] != META_NAME
  }

  function FixedKeys(names: seq<string>): set<Key> {
    set name | name in names :: Fixed(name)
  }

  /** The bucket after the first k requests of a rollback that began at s. */
  ghost function UndoneAt(s: Store, ups: seq<Payload>, downs: seq<string>, k: nat): Store
    requires k <= |ups| + |downs|
  {
    if k <= |ups| then AfterUploads(s, ups, k)
    else AfterUploads(s, ups, |ups|) - FixedKeys(downs[..k - |ups|])
  }

  lemma UndoneIsUndoPoint(s: Store, m: map<string, Obj>, gone: set<string>, ups: seq<Payload>, downs: seq<string>,
                          k: nat)
    requires UploadOrder(ups, m) && DeletionOrder(downs, gone) && k <= |ups| + |downs|
    ensures UndoPoint(s, m, gone, UndoneAt(s, ups, downs, k))
  {
    hide CopyPoint, Objects, AfterUploads;
    var x := UndoneAt(s, ups, downs, k);
    if k <= |ups| {
      assert UploadPoint(s, ups, x);
      UploadPointCopies(s, ups, x);
    } else {
      UploadsEnd(s, ups);
      var mid := s + Mirror(m);
      forall name ensures SameAt(mid, x, Fixed(name)) || (name in gone && Fixed(name) !in x) {
        assert name in downs[..k - |ups|] ==> name in Elements(downs);
      }
    }
  }

  /** Where meta.json is new, one changed or missing object is enough. */
  lemma OneKeyUnserves(c: CycleCall, b: Store, s: Store, x: Store, name: string)
    requires !MetaIsOld(c, b, s) && SameAt(s, x, Fixed(META_NAME))
    requires name in CallNames(c) && Lookup(x, Fixed(name)) != Some(Objects(c.payloads)[name])
    ensures !ReaderIsServed(c, b, x)
  {
    hide Objects, CallNames, MetaIsOld;
    if MetaIsOld(c, b, x) {
      OldStaysOld(c, b, x, s);
    }
  }

  lemma OneUploadUnserves(c: CycleCall, b: Store, s: Store, ups: seq<Payload>, i: nat)
    requires !MetaIsOld(c, b, s) && DistinctNames(ups) && MetaAtEnd(ups) && i < |ups|
    requires var p := ups[i];
             p.name != META_NAME && p.name in CallNames(c) && Objects(c.payloads)[p.name] != Obj(p.data, p.contentType)
    ensures !ReaderIsServed(c, b, AfterUploads(s, ups, i + 1))
  {
    hide Objects, CallNames, MetaIsOld, ReaderIsServed, Mirrored, Mirror;
    OneUpload(s, ups, i);
    MetaIsLastToChange(s, ups, i);
    var x := AfterUploads(s, ups, i + 1);
    assert SameAt(s, x, Fixed(META_NAME));
    OneKeyUnserves(c, b, s, x, ups[i].name);
  }

  lemma OneDeletionUnserves(c: CycleCall, b: Store, s: Store, ups: seq<Payload>, downs: seq<string>)
    requires !MetaIsOld(c, b, s) && DistinctNames(ups) && META_NAME !in Objects(ups)
    requires |downs| > 0 && downs[0] != META_NAME && downs[0] in CallNames(c)
    ensures !ReaderIsServed(c, b, UndoneAt(s, ups, downs, |ups| + 1))
  {
    hide Objects, CallNames, MetaIsOld, ReaderIsServed, Mirrored, AfterUploads, Mirror;
    UploadsEnd(s, ups);
    CopiedKeys(s, Objects(ups));
    var x := UndoneAt(s, ups, downs, |ups| + 1);
    assert FixedKeys(downs[..1]) == {Fixed(downs[0])};
    assert SameAt(s, x, Fixed(META_NAME));
    OneKeyUnserves(c, b, s, x, downs[0]);
  }

  lemma PutBackNames(c: CycleCall, b: Store, s: Store)
    requires ValidCall(c) && Clean(c) && FailurePoint(c, b, s)
    ensures PutBack(c, b, s).Keys <= CallNames(c)
  {
    hide Objects, CommitObj, MetaMatches, DecodePointer, Quiet, AllStaged, KeepsCycles, Mirrored;
    var snapshot := if Trusted(b, CallNames(c)) then None else Some(FixedState(b, CallNames(c)));
    RollbackNamesAreOurs(c, b, s, snapshot);
  }

  /**
   A reader of the fixed keys is served at every crash point of a rollback that
   begins at s, in whatever order its names are taken, exactly if meta.json is
   still an old one there, or the payloads are all there and the rollback has
   nothing to change or to delete before meta.json itself. Unless the old
   meta.json had an empty content type, that is MetaLeads at every point.
   */
  lemma RollbackServesIff(c: CycleCall, b: Store, s: Store, ups: seq<Payload>, downs: seq<string>)
    requires Precheck(c) == None && Clean(c) && FailurePoint(c, b, s)
    requires UploadOrder(ups, PutBack(c, b, s)) && DeletionOrder(downs, TakenAway(c, b))
    ensures (forall k :: 0 <= k <= |ups| + |downs| ==> ReaderIsServed(c, b, UndoneAt(s, ups, downs, k)))
       <==> UndoServes(c, b, s)
    ensures (Fixed(META_NAME) in b ==> b[Fixed(META_NAME)].contentType != "") ==>
              ((forall k :: 0 <= k <= |ups| + |downs| ==> MetaLeads(c, b, UndoneAt(s, ups, downs, k)))
               <==> UndoServes(c, b, s))
  {
    PrecheckedCallIsValid(c);
    hide Precheck, ValidCall, FailurePoint, ReaderIsServed, MetaLeads, UndoServes, UndoneAt, PutBack, TakenAway,
         UploadOrder, DeletionOrder, Clean;
    forall k | 0 <= k <= |ups| + |downs|
      ensures MetaLeads(c, b, UndoneAt(s, ups, downs, k)) ==> ReaderIsServed(c, b, UndoneAt(s, ups, downs, k))
      ensures (Fixed(META_NAME) in b ==> b[Fixed(META_NAME)].contentType != "") ==>
                (MetaLeads(c, b, UndoneAt(s, ups, downs, k)) <==> ReaderIsServed(c, b, UndoneAt(s, ups, downs, k)))
    {
      LeadingServes(c, b, UndoneAt(s, ups, downs, k));
    }
    if UndoServes(c, b, s) {
      forall k | 0 <= k <= |ups| + |downs| ensures ReaderIsServed(c, b, UndoneAt(s, ups, downs, k)) {
        var x := UndoneAt(s, ups, downs, k);
        UndoneIsUndoPoint(s, PutBack(c, b, s), TakenAway(c, b), ups, downs, k);
        UndoingServes(c, b, s, [x], 0);
        assert [x][0] == x;
      }
    } else {
      var k := UnservedAt(c, b, s, ups, downs);
    }
  }

  lemma UnservedAt(c: CycleCall, b: Store, s: Store, ups: seq<Payload>, downs: seq<string>) returns (k: nat)
    requires ValidCall(c) && Clean(c) && FailurePoint(c, b, s) && !UndoServes(c, b, s)
    requires UploadOrder(ups, PutBack(c, b, s)) && DeletionOrder(downs, TakenAway(c, b))
    ensures k <= |ups| + |downs| && !ReaderIsServed(c, b, UndoneAt(s, ups, downs, k))
  {
    hide ValidCall, FailurePoint, MetaIsOld, PutBack, TakenAway, Objects, CallNames, AfterUploads;
    var m := PutBack(c, b, s);
    PutBackNames(c, b, s);
    if !Mirrored(c, s) {
      k := 0;
      UploadsBegin(s, ups, [s]);
    } else if !CopiesNothingNew(s, m) {
      var name :| name in m && name != META_NAME && Lookup(s, Fixed(name)) != Some(m[name]);
      ObjectsCoverPayloads(ups);
      var i :| 0 <= i < |ups| && ups[i].name == name;
      OneUploadUnserves(c, b, s, ups, i);
      k := i + 1;
    } else {
      var name :| name in TakenAway(c, b) && name != META_NAME;
      assert name in Elements(downs) && downs[0] in Elements(downs);
      assert |downs| == 1 ==> downs == [name];
      TakenAwayWasAbsent(c, b, downs[0]);
      OneDeletionUnserves(c, b, s, ups, downs);
      k := |ups| + 1;
    }
  }

  /** The old bucket with everything of c staged and mirrored. */
  ghost function AllMirrored(c: CycleCall): Store
    requires IsCycleId(c.cycleId)
  {
    MirrorAt(OldBucket(c), c, |MetaLast(c.payloads)|)
  }

  lemma AllMirroredHas(c: CycleCall)
    requires IsCycleId(c.cycleId) && Precheck(c) == None && Clean(c)
    ensures FailurePoint(c, OldBucket(c), AllMirrored(c)) && Mirrored(c, AllMirrored(c))
    ensures KeepsCycles(OldBucket(c), AllMirrored(c))
    ensures SameAt(OldBucket(c), AllMirrored(c), CURRENT_KEY)
  {
    var b, n := OldBucket(c), |MetaLast(c.payloads)|;
    OldBucketIsTrusted(c);
    PrecheckedCallIsValid(c);
    MetaLastReorders(c.payloads);
    hide OldBucket, Precheck, MetaLast, LiveIds, ValidCall, AfterUploads, Mirrored, Objects, AllStaged, KeepsCycles,
         Trusted;
    MirrorPointHas(b, c, n);
    StagedPointerStays(c, b, n);
    UploadsEnd(b + StagedAt(c.cycleId, Objects(c.payloads)), MetaLast(c.payloads));
    MirroredByUpload(c, b + StagedAt(c.cycleId, Objects(c.payloads)));
  }

  /** A trusted cycle whose fixed keys differ goes back whole. */
  lemma CycleGoesBack(c: CycleCall, b: Store, s: Store, d: PointerDoc, m: map<string, Obj>, name: string)
    requires Trusted(b, CallNames(c)) && PointerDocOf(b) == Some(d) && Snapshot(b, d) == m && RestoredAll(m) == m
    requires CallNames(c) == DEFAULT_FIXED_NAMES && KeepsCycles(b, s) && SameAt(b, s, CURRENT_KEY)
    requires name in m && Lookup(s, Fixed(name)) != Some(m[name])
    ensures PutBack(c, b, s) == m
  {
    hide CallNames, MetaMatches, DecodePointer, KeepsCycles;
    TrustCarries(b, s, CallNames(c));
    SnapshotStays(b, s, d);
    assert FixedState(s, d.names)[name] != Wanted(Snapshot(s, d))[name];
  }

  lemma SnapshotStays(b: Store, s: Store, d: PointerDoc)
    requires Present(b, d) && KeepsCycles(b, s)
    ensures Present(s, d) && Snapshot(s, d) == Snapshot(b, d)
  {
    forall name | name in d.names ensures SameAt(b, s, CycleObj(d.cycleId, name)) {}
  }

  lemma OldTypesStay(c: CycleCall)
    requires IsCycleId(c.cycleId)
    ensures RestoredAll(OldObjects(c)) == OldObjects(c)
  {
    hide OldData, Objects, IsCycleId;
  }

  lemma OldMeta(c: CycleCall)
    requires IsCycleId(c.cycleId) && Clean(c) && META_NAME in CallNames(c)
    ensures Lookup(OldBucket(c), Fixed(META_NAME)) == Some(Obj(OldData(c, META_NAME), DEFAULT_TYPE))
  {
    hide OldData, Objects, IsCycleId, CycleBucket;
    CycleBucketAt(OldDoc(c), OldObjects(c), Fixed(META_NAME));
  }

  lemma OtherMetaIsNew(c: CycleCall, b: Store, s: Store, o: Obj, o': Obj)
    requires RecoverSpec(b, CallNames(c)) == b && o.data != o'.data
    requires Lookup(b, Fixed(META_NAME)) == Some(o) && Lookup(s, Fixed(META_NAME)) == Some(o')
    ensures !MetaIsOld(c, b, s)
  {
    hide RecoverSpec;
  }

  /** There meta.json is new, and a rollback puts every old object back. */
  lemma OldObjectsGoBack(c: CycleCall)
    requires IsCycleId(c.cycleId) && Precheck(c) == None && Clean(c) && CallNames(c) == DEFAULT_FIXED_NAMES
    ensures PutBack(c, OldBucket(c), AllMirrored(c)) == OldObjects(c)
    ensures !MetaIsOld(c, OldBucket(c), AllMirrored(c))
  {
    var b, s, d := OldBucket(c), AllMirrored(c), OldDoc(c);
    OldBucketIsTrusted(c);
    OldBucketHolds(c);
    OldBucketIsQuiet(c);
    AllMirroredHas(c);
    OldDataDiffers(c, META_NAME);
    OldMeta(c);
    OldTypesStay(c);
    assert OldObjects(c)[META_NAME] == Obj(OldData(c, META_NAME), DEFAULT_TYPE);
    assert Lookup(s, Fixed(META_NAME)) == Some(Objects(c.payloads)[META_NAME]);
    hide OldBucket, AllMirrored, Precheck, OldData, OldObjects, Objects, IsCycleId, LiveIds, FailurePoint, OtherId,
         Trusted, PointerDocOf, RecoverSpec, PutBack, MetaIsOld, KeepsCycles, RestoredAll, Mirrored, Snapshot;
    CycleGoesBack(c, b, s, d, OldObjects(c), META_NAME);
    OtherMetaIsNew(c, b, s, OldObjects(c)[META_NAME], Objects(c.payloads)[META_NAME]);
  }

  /**
   For every checked call of the default names: over an older trusted cycle, all
   uploads of the mirror take effect but the last response is lost. That bucket
   is still within MetaLeads, and the rollback's first upload, whichever of the
   data keys it takes first, is not: meta.json is new and that object is old.
   */
  lemma RollbackStrandsAReader(c: CycleCall)
    requires Precheck(c) == None && Clean(c) && CallNames(c) == DEFAULT_FIXED_NAMES
    ensures var b, s := OldBucket(c), AllMirrored(c);
            && Trusted(b, CallNames(c)) && c.cycleId !in LiveIds(b) && RecoverSpec(b, CallNames(c)) == b
            && FailurePoint(c, b, s) && MetaLeads(c, b, s)
            && forall ups: seq<Payload> :: UploadOrder(ups, PutBack(c, b, s)) ==>
                 |ups| > 0 && ups[0].name != META_NAME && !MetaLeads(c, b, AfterUploads(s, ups, 1))
  {
    CheckedIdIsValid(c);
    hide OldBucket, AllMirrored, Precheck, OldObjects, IsCycleId, LiveIds, FailurePoint, Trusted, RecoverSpec, PutBack,
         Mirrored, AfterUploads, MetaIsOld, PointerDocOf, KeepsCycles, Objects, ValidCycleId, DistinctNames;
    OldBucketIsTrusted(c);
    OldBucketIsQuiet(c);
    AllMirroredHas(c);
    OldObjectsGoBack(c);
    var b, s := OldBucket(c), AllMirrored(c);
    forall ups: seq<Payload> | UploadOrder(ups, PutBack(c, b, s))
      ensures |ups| > 0 && ups[0].name != META_NAME && !MetaLeads(c, b, AfterUploads(s, ups, 1))
    {
      FirstGoesBack(c, ups);
      FirstUploadStrands(c, b, s, ups);
    }
  }

  lemma FirstUploadStrands(c: CycleCall, b: Store, s: Store, ups: seq<Payload>)
    requires !MetaIsOld(c, b, s) && DistinctNames(ups) && MetaAtEnd(ups) && |ups| > 0
    requires var p := ups[0];
             p.name != META_NAME && p.name in CallNames(c) && Objects(c.payloads)[p.name] != Obj(p.data, p.contentType)
    ensures !MetaLeads(c, b, AfterUploads(s, ups, 1))
  {
    hide MetaLeads, ReaderIsServed, MetaIsOld, AfterUploads, Objects, CallNames;
    OneUploadUnserves(c, b, s, ups, 0);
    LeadingServes(c, b, AfterUploads(s, ups, 1));
  }

  lemma FirstGoesBack(c: CycleCall, ups: seq<Payload>)
    requires IsCycleId(c.cycleId) && CallNames(c) == DEFAULT_FIXED_NAMES && UploadOrder(ups, OldObjects(c))
    ensures |ups| > 0 && ups[0].name != META_NAME && ups[0].name in CallNames(c)
    ensures Objects(c.payloads)[ups[0].name] != Obj(ups[0].data, ups[0].contentType)
  {
    hide IsCycleId, OldData;
    NotEmpty(ups, META_NAME);
    ObjectsHoldPayloads(ups, 0);
    ObjectsNamePayloads(ups);
    hide Objects;
    assert "hourly.parquet" in OldObjects(c) && META_NAME in OldObjects(c);
    var p :| p in ups && p.name == "hourly.parquet";
    var q :| q in ups && q.name == META_NAME;
    assert "hourly.parquet"[0] != META_NAME[0];
    assert ups[0].name in OldObjects(c);
    OldDataDiffers(c, ups[0].name);
  }

  // ------------------------------------------------------------ a commit lost and rolled back

  /** The committed bucket with b's fixed keys put back, existence and value. */
  function RolledBack(c: CycleCall, b: Store): Store {
    var committed := PublishSpec(b, c);
    map k | k in b.Keys + committed.Keys && (if k.Fixed? && k.name in CallNames(c) then k in b else k in committed)
      :: if k.Fixed? && k.name in CallNames(c) then Restored(b[k]) else committed[k]
  }

  /** A key's restored value is the published object, up to an empty content type. */
  predicate CameBackEqual(c: CycleCall, b: Store, name: string)
    requires name in CallNames(c)
  {
    var o := Objects(c.payloads)[name];
    Fixed(name) in b && (Restored(b[Fixed(name)]) == o || Restored(b[Fixed(name)]) == Restored(o))
  }

  /**
   In bootstrap mode the pointer PUT may land while its response and the GET
   that resolves it are lost. The rollback then starts from the committed
   bucket, and when it works the call has failed with its pointer in place over
   the old fixed keys. They match it only if they already held what was
   published.
   */
  lemma LostCommitArises(c: CycleCall, b: Store, health: PruneHealth)
    requires Precheck(c) == None && Clean(c) && c.cycleId !in LiveIds(b) && !Trusted(b, CallNames(c))
    ensures FailurePoint(c, b, PublishSpec(b, c))
    ensures RestoredFrom(FixedState(b, CallNames(c)), PublishSpec(b, c), RolledBack(c, b))
    ensures PublishOutcome(c, b, RolledBack(c, b), Err(PointerFailed), RestoredAllKeys, health)
    ensures Lookup(RolledBack(c, b), CURRENT_KEY) == Some(CommitObj(c)) && BackAtSnapshot(c, b, RolledBack(c, b))
    ensures FixedMatchesPointer(RolledBack(c, b)) <==> forall name :: name in CallNames(c) ==> CameBackEqual(c, b, name)
  {
    hide Precheck, Trusted, PublishSpec, RolledBack, RestoredFrom, Objects, CommitObj, LiveIds, FixedState,
         FailurePoint, PublishOutcome, BackAtSnapshot, FixedMatchesPointer, CameBackEqual;
    var t, s := PublishSpec(b, c), RolledBack(c, b);
    CommittedIsAFailurePoint(c, b);
    RolledBackIsRestored(c, b);
    SnapshotMeansBack(c, b, t, s);
    LostOutcome(c, b, t, s, health);
    MatchesIfEqual(c, b, s);
  }

  lemma LostOutcome(c: CycleCall, b: Store, t: Store, s: Store, health: PruneHealth)
    requires Clean(c) && !Trusted(b, CallNames(c)) && FailurePoint(c, b, t)
    requires Lookup(t, CURRENT_KEY) == Some(CommitObj(c))
    requires RestoredFrom(FixedState(b, CallNames(c)), t, s) && BackAtSnapshot(c, b, s)
    ensures AllStaged(c, s) && Lookup(s, CURRENT_KEY) == Some(CommitObj(c))
    ensures PublishOutcome(c, b, s, Err(PointerFailed), RestoredAllKeys, health)
  {
    hide Trusted, Objects, CommitObj, FixedState, KeepsCycles, AllStaged, RestoredFrom, BackAtSnapshot,
         FixedMatchesPointer;
    RestoringKeepsTheRest(c, b, t, s);
    KeepsCyclesComposes(b, t, s);
    StagedKept(c, t, s);
  }

  lemma CommittedIsAFailurePoint(c: CycleCall, b: Store)
    requires Precheck(c) == None && Clean(c) && c.cycleId !in LiveIds(b)
    ensures FailurePoint(c, b, PublishSpec(b, c)) && Lookup(PublishSpec(b, c), CURRENT_KEY) == Some(CommitObj(c))
  {
    hide Precheck, CommitObj, Objects, PublishSpec, LiveIds;
    var s := PublishSpec(b, c);
    forall name | name in CallNames(c)
      ensures Lookup(s, CycleObj(c.cycleId, name)) == Lookup(s, Fixed(name)) == Some(Objects(c.payloads)[name])
    {
      PublishedKeys(b, c, name);
    }
    CommittedPointer(b, c);
    PublishingKeepsCycles(b, c);
  }

  lemma CommittedPointer(b: Store, c: CycleCall)
    ensures Lookup(PublishSpec(b, c), CURRENT_KEY) == Some(CommitObj(c))
  {
    hide CommitObj, Objects;
  }

  lemma PublishingKeepsCycles(b: Store, c: CycleCall)
    requires c.cycleId !in LiveIds(b)
    ensures KeepsCycles(b, PublishSpec(b, c))
  {
    hide CommitObj, Objects;
    forall k: Key | k.CycleObj? && k in b ensures SameAt(b, PublishSpec(b, c), k) {
      assert k.id in LiveIds(b);
    }
  }

  lemma RolledBackIsRestored(c: CycleCall, b: Store)
    ensures RestoredFrom(FixedState(b, CallNames(c)), PublishSpec(b, c), RolledBack(c, b))
  {
    hide PublishSpec, Objects;
  }

  lemma RestoringKeepsTheRest(c: CycleCall, b: Store, t: Store, s: Store)
    requires Clean(c) && RestoredFrom(FixedState(b, CallNames(c)), t, s)
    ensures KeepsCycles(t, s) && SameAt(t, s, CURRENT_KEY)
  {}

  lemma MatchesIfEqual(c: CycleCall, b: Store, s: Store)
    requires Precheck(c) == None && AllStaged(c, s) && Lookup(s, CURRENT_KEY) == Some(CommitObj(c))
    requires BackAtSnapshot(c, b, s)
    ensures FixedMatchesPointer(s) <==> forall name :: name in CallNames(c) ==> CameBackEqual(c, b, name)
  {
    PrecheckedCallIsValid(c);
    CommitIsReadBack(c, s);
    hide Precheck, CommitObj, PointerDocOf, Objects, ValidCall;
    forall name | name in CallNames(c)
      ensures CycleObj(c.cycleId, name) in s && s[CycleObj(c.cycleId, name)] == Objects(c.payloads)[name]
      ensures Lookup(s, Fixed(name)) == (if Fixed(name) in b then Some(Restored(b[Fixed(name)])) else None)
    {}
  }
}

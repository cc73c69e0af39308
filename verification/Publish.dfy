/**
 The publication protocol itself (src/publish.py:393-697), step by step against
 a bucket whose every request may fail before or after its effect.
 */
module Publish {
  import opened Prelude
  import opened Strings
  import opened CycleIds
  import opened Keys
  import opened Documents
  import opened S3
  import opened Protocol
  import opened Retention

  datatype PublishError =
    | DuplicateNames
    | BadNames
    | MetaCount
    | BadCycleId
    | RecoveryFailed
    | SnapshotFailed
    | CollisionCheckFailed
    | Collision
    | StagingFailed
    | MirrorFailed
    | PointerFailed

  datatype Recovery = Recovery(cycleId: Option<string>, pruneAllowed: bool)

  datatype Outcome = Succeeded | Failed

  datatype PruneReport = PruneReport(outcome: Outcome, failedIds: seq<string>)

  datatype PruneHealth = PruneHealth(lastOutcome: Option<Outcome>, failuresTotal: nat,
                                     consecutiveFailures: nat, lastFailureCycle: Option<string>)

  /** One pruning that was recorded: for which committed cycle, and how it went. */
  datatype Pruning = Pruning(keep: string, outcome: Outcome)

  /** What the failure handler achieved; `Incomplete` is the logged error. */
  datatype Rollback = NotNeeded | RestoredAllKeys | Incomplete

  // ------------------------------------------------------------ validation

  function MetaPayloads(ps: seq<Payload>): seq<Payload> {
    if ps == [] then []
    else (if ps[0].name == META_NAME then [ps[0]] else []) + MetaPayloads(ps[1..])
  }

  function DataPayloads(ps: seq<Payload>): seq<Payload> {
    if ps == [] then []
    else (if ps[0].name != META_NAME then [ps[0]] else []) + DataPayloads(ps[1..])
  }

  /** `_meta_last` */
  function MetaLast(ps: seq<Payload>): seq<Payload> {
    DataPayloads(ps) + MetaPayloads(ps)
  }

  /** The checks made before the first S3 request, in the order they are made. */
  function Precheck(c: CycleCall): Option<PublishError> {
    if !DistinctNames(c.payloads) then Some(DuplicateNames)
    else if exists i :: 0 <= i < |c.payloads| && !SimpleName(c.payloads[i].name) then Some(BadNames)
    else if |MetaPayloads(c.payloads)| != 1 then Some(MetaCount)
    else if !ValidCycleId(c.cycleId, c.generatedAt) then Some(BadCycleId)
    else None
  }

  ghost predicate MetaAtEnd(items: seq<Payload>) {
    forall i :: 0 <= i < |items| - 1 ==> items[i].name != META_NAME
  }

  lemma {:induction false} SplitCovers(ps: seq<Payload>)
    ensures forall p :: p in DataPayloads(ps) <==> p in ps && p.name != META_NAME
    ensures forall p :: p in MetaPayloads(ps) <==> p in ps && p.name == META_NAME
  {
    if ps == [] {
    } else {
      SplitCovers(ps[1..]);
      assert ps == [ps[0]] + ps[1..];
    }
  }

  lemma {:induction false} SplitKeepsDistinct(ps: seq<Payload>)
    requires DistinctNames(ps)
    ensures DistinctNames(DataPayloads(ps))
  {
    if ps == [] {
    } else {
      SplitKeepsDistinct(ps[1..]);
      SplitCovers(ps[1..]);
      var rest := DataPayloads(ps[1..]);
      forall j | 0 <= j < |rest| ensures rest[j].name != ps[0].name {
        assert rest[j] in ps[1..];
        var i :| 0 <= i < |ps[1..]| && ps[1..][i] == rest[j];
        assert ps[i + 1] == rest[j];
      }
    }
  }

  /** Reordering keeps the payloads; meta.json is the last upload. */
  lemma MetaLastReorders(ps: seq<Payload>)
    requires DistinctNames(ps) && |MetaPayloads(ps)| == 1
    ensures DistinctNames(MetaLast(ps)) && MetaAtEnd(MetaLast(ps))
    ensures Objects(MetaLast(ps)) == Objects(ps)
  {
    SplitCovers(ps);
    SplitKeepsDistinct(ps);
    var data, meta, all := DataPayloads(ps), MetaPayloads(ps), MetaLast(ps);
    assert meta[0] in meta;
    forall i | 0 <= i < |data| ensures data[i].name != META_NAME {
      assert data[i] in data;
    }
    assert all == data + [meta[0]];
    AllPayloadsKept(ps);
  }

  lemma AllPayloadsKept(ps: seq<Payload>)
    requires DistinctNames(ps) && DistinctNames(MetaLast(ps))
    ensures Objects(MetaLast(ps)) == Objects(ps)
  {
    SplitCovers(ps);
    ObjectsCoverPayloads(ps);
    var all := MetaLast(ps);
    forall i | 0 <= i < |all|
      ensures all[i].name in Objects(ps) && Objects(ps)[all[i].name] == Obj(all[i].data, all[i].contentType)
    {
      assert all[i] in DataPayloads(ps) || all[i] in MetaPayloads(ps);
    }
    forall name | name in Objects(ps) ensures exists i :: 0 <= i < |all| && all[i].name == name {
      var p :| p in ps && p.name == name;
      assert p in all;
    }
    ObjectsAre(all, Objects(ps));
  }

  lemma PrecheckedCallIsValid(c: CycleCall)
    requires Precheck(c) == None
    ensures ValidCall(c) && META_NAME in CallNames(c)
    ensures DistinctNames(c.payloads) && |MetaPayloads(c.payloads)| == 1
  {
    ObjectsCoverPayloads(c.payloads);
    SplitCovers(c.payloads);
    assert MetaPayloads(c.payloads)[0] in MetaPayloads(c.payloads);
    forall name | name in CallNames(c) ensures SimpleName(name) {
      var p :| p in c.payloads && p.name == name;
    }
  }

  lemma {:induction false} OneMetaAtMost(ps: seq<Payload>)
    requires DistinctNames(ps)
    ensures |MetaPayloads(ps)| == if exists p :: p in ps && p.name == META_NAME then 1 else 0
  {
    if ps == [] {
    } else {
      OneMetaAtMost(ps[1..]);
      assert ps == [ps[0]] + ps[1..];
      if ps[0].name == META_NAME {
        assert forall p :: p in ps[1..] ==> p.name != META_NAME;
      }
    }
  }

  ghost predicate RepeatsName(ps: seq<Payload>) {
    exists i, j :: 0 <= i < j < |ps| && ps[i].name == ps[j].name
  }

  /** A name that would leave its directory, or have none of its own. */
  ghost predicate HasBadName(ps: seq<Payload>) {
    exists p :: p in ps && (p.name == "" || '/' in p.name || '\\' in p.name || p.name == "." || p.name == "..")
  }

  ghost predicate HasMeta(ps: seq<Payload>) {
    exists p :: p in ps && p.name == "meta.json"
  }

  /** Exactly which calls are refused, and for what, before the first request. */
  lemma WhatIsRefused(c: CycleCall)
    ensures Precheck(c) == Some(DuplicateNames) <==> RepeatsName(c.payloads)
    ensures Precheck(c) == Some(BadNames) <==> !RepeatsName(c.payloads) && HasBadName(c.payloads)
    ensures Precheck(c) == Some(MetaCount)
       <==> !RepeatsName(c.payloads) && !HasBadName(c.payloads) && !HasMeta(c.payloads)
    ensures Precheck(c) == None <==>
              && !RepeatsName(c.payloads) && !HasBadName(c.payloads) && HasMeta(c.payloads)
              && ValidCycleId(c.cycleId, c.generatedAt)
  {
    hide ValidCycleId;
    var ps := c.payloads;
    assert DistinctNames(ps) <==> !RepeatsName(ps);
    assert HasBadName(ps) <==> exists i :: 0 <= i < |ps| && !SimpleName(ps[i].name);
    if DistinctNames(ps) {
      OneMetaAtMost(ps);
    }
  }

  // ------------------------------------------------ uploads to fixed keys

  /** The bucket after the first j of these fixed-key uploads. */
  ghost function AfterUploads(s: Store, items: seq<Payload>, j: nat): Store
    requires j <= |items|
  {
    s + Mirror(Objects(items[..j]))
  }

  ghost predicate UploadPoint(s: Store, items: seq<Payload>, x: Store) {
    exists j :: 0 <= j <= |items| && x == AfterUploads(s, items, j)
  }

  lemma OneUpload(s: Store, items: seq<Payload>, j: nat)
    requires j < |items|
    ensures AfterUploads(s, items, j + 1)
            == AfterUploads(s, items, j)[Fixed(items[j].name) := Obj(items[j].data, items[j].contentType)]
  {
    assert items[..j + 1][..j] == items[..j];
    MirrorOneMore(s, Objects(items[..j]), items[j].name, Obj(items[j].data, items[j].contentType));
  }

  lemma MirrorOneMore(s: Store, m: map<string, Obj>, name: string, o: Obj)
    ensures s + Mirror(m[name := o]) == (s + Mirror(m))[Fixed(name) := o]
  {}

  lemma UploadsTouch(s: Store, items: seq<Payload>, j: nat)
    requires j < |items|
    ensures FixedOnly(Objects(items).Keys, AfterUploads(s, items, j), AfterUploads(s, items, j + 1))
  {
    OneUpload(s, items, j);
    ObjectsCoverPayloads(items);
    assert items[j] in items;
    var a, b := AfterUploads(s, items, j), AfterUploads(s, items, j + 1);
    forall k: Key ensures (k.Fixed? && k.name in Objects(items).Keys) || SameAt(a, b, k) {}
  }

  lemma ExtendFixedTrace(names: set<string>, h: seq<Store>, s: Store, lo: nat)
    requires |h| > 0 && TracedFixed(names, h, lo)
    requires s == h[|h| - 1] || FixedOnly(names, h[|h| - 1], s)
    ensures TracedFixed(names, Extend(h, s), lo)
  {
    var h' := Extend(h, s);
    forall i | lo <= i < |h'| - 1 ensures FixedOnly(names, h'[i], h'[i + 1]) {
      if i < |h| - 1 {
        assert h'[i] == h[i] && h'[i + 1] == h[i + 1];
      }
    }
  }

  /** A changed meta.json means that every upload before it has been made. */
  lemma MetaIsLastToChange(s: Store, items: seq<Payload>, j: nat)
    requires j <= |items| && MetaAtEnd(items)
    ensures j < |items| ==> SameAt(s, AfterUploads(s, items, j), Fixed(META_NAME))
  {
    ObjectsCoverPayloads(items[..j]);
    if j < |items| {
      assert forall p :: p in items[..j] ==> p.name != META_NAME;
    }
  }

  function Items(names: seq<string>, m: map<string, Obj>): (items: seq<Payload>)
    requires forall name :: name in names ==> name in m
    ensures |items| == |names|
    ensures forall i :: 0 <= i < |names| ==> items[i] == Payload(names[i], m[names[i]].data, m[names[i]].contentType)
  {
    if |names| == 0 then []
    else
      var last := names[|names| - 1];
      Items(names[..|names| - 1], m) + [Payload(last, m[last].data, m[last].contentType)]
  }

  lemma ItemsObjects(names: seq<string>, m: map<string, Obj>)
    requires Distinct(names) && Elements(names) == m.Keys
    requires forall name :: name in names ==> name in m
    ensures DistinctNames(Items(names, m)) && Objects(Items(names, m)) == m
  {
    var items := Items(names, m);
    forall name | name in m ensures exists i :: 0 <= i < |items| && items[i].name == name {
      assert name in Elements(names);
      var i :| 0 <= i < |names| && names[i] == name;
      assert items[i].name == name;
    }
    ObjectsAre(items, m);
  }

  /** `_ordered_names`: some order, with meta.json last. */
  method OrderNames(names: set<string>) returns (out: seq<string>)
    ensures Distinct(out) && Elements(out) == names
    ensures forall i :: 0 <= i < |out| - 1 ==> out[i] != META_NAME
  {
    out := [];
    var rest := names - {META_NAME};
    while rest != {}
      invariant Distinct(out) && Elements(out) !! rest && Elements(out) + rest == names - {META_NAME}
      decreases rest
    {
      var x :| x in rest;
      assert Elements(out) !! Elements([x]);
      DistinctAppend(out, [x]);
      out := out + [x];
      rest := rest - {x};
    }
    assert forall i :: 0 <= i < |out| ==> out[i] in Elements(out);
    if META_NAME in names {
      assert Elements([META_NAME]) == {META_NAME};
      DistinctAppend(out, [META_NAME]);
      out := out + [META_NAME];
    }
  }

  /** What a restored snapshot leaves behind (src/publish.py:489-500). */
  ghost predicate RestoredFrom(snapshot: map<string, Option<Obj>>, before: Store, after: Store) {
    forall k: Key ::
      if k.Fixed? && k.name in snapshot then
        Lookup(after, k) == (match snapshot[k.name] case None => None case Some(o) => Some(Restored(o)))
      else SameAt(before, after, k)
  }

  lemma UploadPointTouches(s: Store, items: seq<Payload>, x: Store)
    requires UploadPoint(s, items, x)
    ensures FixedOnly(Objects(items).Keys, s, x)
  {
    var j :| 0 <= j <= |items| && x == AfterUploads(s, items, j);
    PrefixObjects(items, j);
    MirrorTouches(s, Objects(items[..j]), Objects(items).Keys);
  }

  /** The history since position lo is made of crash points of these uploads. */
  ghost predicate UploadHistory(s: Store, items: seq<Payload>, h: seq<Store>, lo: nat) {
    && (forall i :: lo < i < |h| ==> UploadPoint(s, items, h[i]))
    && TracedFixed(Objects(items).Keys, h, lo)
  }

  lemma ExtendUploadPoints(s: Store, items: seq<Payload>, h: seq<Store>, lo: nat, s': Store)
    requires |h| > 0 && UploadPoint(s, items, s')
    requires forall i :: lo < i < |h| ==> UploadPoint(s, items, h[i])
    ensures forall i :: lo < i < |Extend(h, s')| ==> UploadPoint(s, items, Extend(h, s')[i])
  {
    var h' := Extend(h, s');
    forall i | lo < i < |h'| ensures UploadPoint(s, items, h'[i]) {
      if i < |h| {
        assert h'[i] == h[i] && UploadPoint(s, items, h[i]);
      } else {
        assert h'[i] == s';
      }
    }
  }

  lemma ExtendUploadHistory(s: Store, items: seq<Payload>, h: seq<Store>, lo: nat, j: nat, s': Store)
    requires |h| > 0 && UploadHistory(s, items, h, lo) && j < |items|
    requires h[|h| - 1] == AfterUploads(s, items, j)
    requires s' == AfterUploads(s, items, j) || s' == AfterUploads(s, items, j + 1)
    ensures UploadHistory(s, items, Extend(h, s'), lo) && UploadPoint(s, items, s')
  {
    assert UploadPoint(s, items, s');
    ExtendUploadPoints(s, items, h, lo, s');
    UploadsTouch(s, items, j);
    ExtendFixedTrace(Objects(items).Keys, h, s', lo);
  }

  lemma UploadsBegin(s: Store, items: seq<Payload>, h: seq<Store>)
    requires |h| > 0
    ensures s == AfterUploads(s, items, 0) && UploadPoint(s, items, s) && UploadHistory(s, items, h, |h| - 1)
  {
    assert s == AfterUploads(s, items, 0);
  }

  lemma UploadsEnd(s: Store, items: seq<Payload>)
    ensures AfterUploads(s, items, |items|) == s + Mirror(Objects(items))
  {
    assert items[..|items|] == items;
  }

  /** meta.json changes last: seeing it changed means seeing the whole target. */
  ghost predicate MetaAnnounces(s: Store, target: Store, x: Store) {
    SameAt(s, x, Fixed(META_NAME)) || x == target
  }

  lemma UploadPointAnnounces(s: Store, items: seq<Payload>, x: Store)
    requires UploadPoint(s, items, x) && MetaAtEnd(items)
    ensures MetaAnnounces(s, s + Mirror(Objects(items)), x)
  {
    var j :| 0 <= j <= |items| && x == AfterUploads(s, items, j);
    MetaIsLastToChange(s, items, j);
    assert items[..|items|] == items;
  }

  /** Every fixed key is as it was or as it will be. */
  ghost predicate PartCopied(s: Store, target: Store, x: Store) {
    forall name :: SameAt(s, x, Fixed(name)) || SameAt(target, x, Fixed(name))
  }

  /**
   What any crash point x of copying from s towards target looks like: no key
   is lost, each fixed key is old or new, meta.json is old or the copy is done,
   and the pointer has the bytes it had or those it will have.
   */
  ghost predicate CopyPoint(s: Store, target: Store, x: Store) {
    && s.Keys <= x.Keys && MetaAnnounces(s, target, x) && PartCopied(s, target, x)
    && (PointerData(x) == PointerData(s) || PointerData(x) == PointerData(target))
  }

  lemma UploadPointCopies(s: Store, items: seq<Payload>, x: Store)
    requires UploadPoint(s, items, x) && MetaAtEnd(items) && DistinctNames(items)
    ensures CopyPoint(s, s + Mirror(Objects(items)), x)
  {
    UploadPointAnnounces(s, items, x);
    UploadPointIsPart(s, items, x);
    hide MetaAnnounces, PartCopied, Objects, MetaAtEnd;
    var j :| 0 <= j <= |items| && x == AfterUploads(s, items, j);
    UploadedPointer(s, Objects(items[..j]));
    UploadedPointer(s, Objects(items));
    if POINTER_NAME in Objects(items[..j]) {
      PrefixAgrees(items, j, POINTER_NAME);
    }
  }

  lemma UploadPointIsPart(s: Store, items: seq<Payload>, x: Store)
    requires UploadPoint(s, items, x) && DistinctNames(items)
    ensures PartCopied(s, s + Mirror(Objects(items)), x)
  {
    hide Objects;
    var j :| 0 <= j <= |items| && x == AfterUploads(s, items, j);
    forall name ensures SameAt(s, x, Fixed(name)) || SameAt(s + Mirror(Objects(items)), x, Fixed(name)) {
      if name in Objects(items[..j]) {
        PrefixAgrees(items, j, name);
      }
    }
  }

  lemma UploadedPointer(s: Store, m: map<string, Obj>)
    ensures s.Keys <= (s + Mirror(m)).Keys
    ensures PointerData(s + Mirror(m)) == if POINTER_NAME in m then Some(m[POINTER_NAME].data) else PointerData(s)
  {}

  lemma PrefixAgrees(ps: seq<Payload>, j: nat, name: string)
    requires DistinctNames(ps) && j <= |ps| && name in Objects(ps[..j])
    ensures name in Objects(ps) && Objects(ps)[name] == Objects(ps[..j])[name]
  {
    hide Objects;
    ObjectsNamePayloads(ps[..j]);
    var p :| p in ps[..j] && p.name == name;
    var i :| 0 <= i < j && ps[..j][i] == p;
    ObjectsHoldPayloads(ps[..j], i);
    ObjectsHoldPayloads(ps, i);
  }

  // ------------------------------------------------------------ staging

  ghost function AfterStaging(s: Store, c: CycleCall, j: nat): Store
    requires j <= |c.payloads|
  {
    s + StagedAt(c.cycleId, Objects(c.payloads[..j]))
  }

  lemma OneStaging(s: Store, c: CycleCall, j: nat)
    requires j < |c.payloads| && DistinctNames(c.payloads) && c.cycleId !in LiveIds(s)
    ensures var p := c.payloads[j];
            && CycleObj(c.cycleId, p.name) !in AfterStaging(s, c, j)
            && AfterStaging(s, c, j + 1) ==
                AfterStaging(s, c, j)[CycleObj(c.cycleId, p.name) := Obj(p.data, p.contentType)]
            && p.name in CallNames(c) && Objects(c.payloads)[p.name] == Obj(p.data, p.contentType)
  {
    NextPayload(c.payloads, j);
    StageOneMore(s, c.cycleId, Objects(c.payloads[..j]), c.payloads[j].name,
                 Obj(c.payloads[j].data, c.payloads[j].contentType));
  }

  lemma StagingEnds(s: Store, c: CycleCall)
    ensures AfterStaging(s, c, 0) == s
    ensures AfterStaging(s, c, |c.payloads|) == s + StagedAt(c.cycleId, Objects(c.payloads))
  {
    assert c.payloads[..|c.payloads|] == c.payloads;
  }

  // --------------------------------------------------- around the phases

  lemma TrustedNames(b: Store, names: set<string>)
    requires Trusted(b, names) && names != {}
    ensures PointerDocOf(b).value.names == names && RecoverNames(b, names) == names
  {}

  /** The mirror overwrites whatever the recovery wrote before it. */
  lemma RecoveryIsOverwritten(b: Store, c: CycleCall)
    requires CallNames(c) != {}
    ensures RecoverSpec(b, CallNames(c)) + StagedAt(c.cycleId, Objects(c.payloads)) + Mirror(Objects(c.payloads))
            == b + StagedAt(c.cycleId, Objects(c.payloads)) + Mirror(Objects(c.payloads))
    ensures LiveIds(RecoverSpec(b, CallNames(c))) == LiveIds(b)
  {
    var s := RecoverSpec(b, CallNames(c));
    RecoveryTouchesFixedOnly(b, CallNames(c));
    if Trusted(b, CallNames(c)) {
      TrustedNames(b, CallNames(c));
    }
    SameCyclesAreLive(RecoverNames(b, CallNames(c)), b, s);
    OverwrittenByMirror(RecoverNames(b, CallNames(c)), b, s, StagedAt(c.cycleId, Objects(c.payloads)),
        Objects(c.payloads));
  }

  lemma SameCyclesAreLive(names: set<string>, s: Store, s': Store)
    requires FixedOnly(names, s, s')
    ensures LiveIds(s) == LiveIds(s')
  {
    forall id ensures id in LiveIds(s) <==> id in LiveIds(s') {
      if id in LiveIds(s) {
        var k :| k in s && k.CycleObj? && k.id == id;
        assert SameAt(s, s', k) && k in s';
      }
      if id in LiveIds(s') {
        var k :| k in s' && k.CycleObj? && k.id == id;
        assert SameAt(s, s', k) && k in s;
      }
    }
  }

  lemma OverwrittenByMirror(names: set<string>, s: Store, s': Store, staged: Store, m: map<string, Obj>)
    requires FixedOnly(names, s, s') && names <= m.Keys
    ensures s' + staged + Mirror(m) == s + staged + Mirror(m)
  {
    var x, y := s' + staged + Mirror(m), s + staged + Mirror(m);
    forall k: Key ensures (k in x <==> k in y) && (k in x ==> x[k] == y[k]) {
      assert (k.Fixed? && k.name in names) || SameAt(s, s', k);
    }
  }

  lemma MirrorKeepsStaged(c: CycleCall, s: Store, x: Store)
    requires AllStaged(c, s) && FixedOnly(CallNames(c), s, x)
    ensures AllStaged(c, x)
  {
    forall name | name in CallNames(c)
      ensures CycleObj(c.cycleId, name) in x && x[CycleObj(c.cycleId, name)] == Objects(c.payloads)[name]
    {
      assert SameAt(s, x, CycleObj(c.cycleId, name));
    }
  }
  // ------------------------------------------------------------ retention

  /** Only objects of these cycles are gone; everything else is as before. */
  ghost predicate Dropped(ids: set<string>, s: Store, s': Store) {
    forall k: Key :: SameAt(s, s', k) || (k.CycleObj? && k.id in ids && k !in s')
  }

  /** A committed publication over a trusted pointer, so far within the guarantee. */
  ghost predicate Prunable(c: CycleCall, b: Store, s: Store, h: seq<Store>, lo: nat) {
    && |h| > 0 && h[|h| - 1] == s && Traced(c, b, h, lo)
    && Trusted(b, CallNames(c)) && Lookup(s, CURRENT_KEY) == Some(CommitObj(c))
  }

  function RollbackNames(snapshot: Option<map<string, Option<Obj>>>, s: Store): set<string> {
    if snapshot.Some? then snapshot.value.Keys else RecoverNames(s, DEFAULT_FIXED_NAMES)
  }

  lemma NothingDropped(ids: set<string>, s: Store)
    ensures Dropped(ids, s, s)
  {
    forall k: Key ensures SameAt(s, s, k) {}
  }

  lemma DropsCompose(a: set<string>, b: set<string>, s: Store, mid: Store, s': Store)
    requires Dropped(a, s, mid) && Dropped(b, mid, s')
    ensures Dropped(a + b, s, s')
  {
    forall k: Key ensures SameAt(s, s', k) || (k.CycleObj? && k.id in a + b && k !in s') {
      assert SameAt(s, mid, k) || (k.CycleObj? && k.id in a && k !in mid);
      assert SameAt(mid, s', k) || (k.CycleObj? && k.id in b && k !in s');
    }
  }

  lemma DropOne(s: Store, now: Store, s': Store, cid: string, keep: string, k: Key)
    requires Dropped({cid}, s, now) && k.CycleObj? && k.id == cid
    requires s' == now || s' == now - {k}
    ensures Dropped({cid}, s, s')
    ensures Newer(now, cid, keep) == Newer(s, cid, keep)
    ensures s' == now - {CycleObj(cid, k.name)} || s' == now
    ensures SameAt(now, s', CURRENT_KEY)
  {
    forall key: Key ensures SameAt(now, s', key) || (key.CycleObj? && key.id in {cid} && key !in s') {}
    DropsCompose({cid}, {cid}, s, now, s');
    assert {cid} + {cid} == {cid};
    LessIsTotal(cid, cid);
    forall x | x != cid ensures x in LiveIds(s) <==> x in LiveIds(now) {
      OtherCyclesStay({cid}, s, now, x);
    }
  }

  lemma DeleteStep(c: CycleCall, b: Store, s: Store, now: Store, h: seq<Store>, lo: nat, cid: string, k: Key, s': Store)
    requires IsCycleId(cid) && cid != c.cycleId && |Newer(s, cid, c.cycleId)| >= Max(0, c.retention - 1)
    requires Dropped({cid}, s, now) && k.CycleObj? && k.id == cid
    requires s' == now || s' == now - {k}
    requires |h| > 0 && h[|h| - 1] == now
    ensures Dropped({cid}, s, s')
    ensures Prunable(c, b, now, h, lo) ==> Prunable(c, b, s', Extend(h, s'), lo)
  {
    DropOne(s, now, s', cid, c.cycleId, k);
    if Prunable(c, b, now, h, lo) {
      PruneStep(c, b, now, cid, k.name);
      ExtendTrace(c, b, h, s', lo);
    }
  }

  lemma NothingLeft(s: Store, s': Store, cid: string, keys: seq<Key>)
    requires Dropped({cid}, s, s') && Elements(keys) == CycleKeys(s, cid)
    requires forall j :: 0 <= j < |keys| ==> keys[j] !in s'
    ensures cid !in LiveIds(s')
  {
    forall k | k in s' && k.CycleObj? ensures k.id != cid {
      assert SameAt(s, s', k);
      assert k.id == cid ==> k in Elements(keys);
    }
  }

  lemma OtherCyclesStay(ids: set<string>, s: Store, s': Store, x: string)
    requires Dropped(ids, s, s') && x !in ids
    ensures x in LiveIds(s) <==> x in LiveIds(s')
  {
    if x in LiveIds(s) {
      var k :| k in s && k.CycleObj? && k.id == x;
      assert SameAt(s, s', k) && k in s';
    }
    if x in LiveIds(s') {
      var k :| k in s' && k.CycleObj? && k.id == x;
      assert SameAt(s, s', k) && k in s;
    }
  }

  lemma GoneStaysGone(ids: set<string>, s: Store, s': Store)
    requires Dropped(ids, s, s')
    ensures LiveIds(s') <= LiveIds(s)
  {
    forall k | k in s' && k.CycleObj? ensures k.id in LiveIds(s) {
      assert SameAt(s, s', k) && k in s;
    }
  }

  lemma AllDropped(ids: set<string>, s: Store, s': Store)
    requires Dropped(ids, s, s') && forall id :: id in ids ==> id !in LiveIds(s')
    ensures s' == WithoutCycles(s, ids)
  {
    forall k: Key ensures k in s' <==> k in WithoutCycles(s, ids) {
      assert SameAt(s, s', k) || (k.CycleObj? && k.id in ids && k !in s');
      if k in s' && k.CycleObj? {
        assert k.id in LiveIds(s');
      }
    }
    forall k | k in s' ensures s'[k] == WithoutCycles(s, ids)[k] {
      assert SameAt(s, s', k);
    }
  }

  lemma PruneIsDone(s: Store, s': Store, keep: string, retention: int)
    requires Dropped(Doomed(s, keep, retention), s, s')
    requires forall id :: id in Doomed(s, keep, retention) ==> id !in LiveIds(s')
    ensures s' == PruneSpec(s, keep, retention)
  {
    AllDropped(Doomed(s, keep, retention), s, s');
  }

  /** At any point of the pruning, the next doomed id is still outranked by enough others. */
  lemma DoomedStayOutranked(s: Store, now: Store, listed: seq<string>, keep: string, retention: int, i: nat)
    requires Distinct(listed) && Elements(listed) == LiveIds(s)
    requires i < |DoomedOf(listed, keep, retention)|
    requires Dropped(Elements(DoomedOf(listed, keep, retention)[..i]), s, now)
    ensures var id := DoomedOf(listed, keep, retention)[i];
            IsCycleId(id) && id != keep && |Newer(now, id, keep)| >= Max(0, retention - 1)
  {
    var ranked, m := Ranked(listed, keep), Max(0, retention - 1);
    var doomed := DoomedOf(listed, keep, retention);
    RankedIsSorted(s, listed, keep);
    DescendingIsDistinct(ranked);
    assert ranked[m + i] == doomed[i] && ranked[m + i] in Elements(ranked);
    forall t | 0 <= t < m ensures ranked[t] in LiveIds(now) {
      assert ranked[t] in Elements(ranked);
      forall j | 0 <= j < i ensures doomed[..i][j] != ranked[t] {
        assert doomed[j] == ranked[m + j];
      }
      OtherCyclesStay(Elements(doomed[..i]), s, now, ranked[t]);
    }
    KeptIdsOutrank(s, now, keep, ranked, m, m + i);
  }
  // ------------------------------------------------------------- rollback

  ghost predicate Clean(c: CycleCall) {
    POINTER_NAME !in CallNames(c)
  }

  /** Every object under `cycles/` is still there, byte for byte. */
  ghost predicate KeepsCycles(s: Store, s': Store) {
    forall k: Key :: k.CycleObj? && k in s ==> SameAt(s, s', k)
  }

  ghost predicate Mirrored(c: CycleCall, s: Store) {
    forall name :: name in CallNames(c) ==> Lookup(s, Fixed(name)) == Some(Objects(c.payloads)[name])
  }

  /** Where a failed publication of c that began at b may stand. */
  ghost predicate FailurePoint(c: CycleCall, b: Store, s: Store) {
    && AllStaged(c, s) && KeepsCycles(b, s)
    && (Clean(c) ==> SameAt(b, s, CURRENT_KEY) || (Lookup(s, CURRENT_KEY) == Some(CommitObj(c)) && Mirrored(c, s)))
  }

  /** The fixed keys are back at the snapshot, existence and value. */
  ghost predicate BackAtSnapshot(c: CycleCall, b: Store, s: Store) {
    forall name :: name in CallNames(c) ==>
      Lookup(s, Fixed(name)) == (match Lookup(b, Fixed(name)) case None => None case Some(o) => Some(Restored(o)))
  }

  lemma TrustCarries(b: Store, s: Store, names: set<string>)
    requires Trusted(b, names) && SameAt(b, s, CURRENT_KEY) && KeepsCycles(b, s)
    ensures Trusted(s, names) && PointerDocOf(s) == PointerDocOf(b)
  {
    var d := PointerDocOf(b).value;
    forall name | name in d.names ensures SameAt(b, s, CycleObj(d.cycleId, name)) {}
  }

  /** Over a trusted pointer the rollback leads back to whichever cycle is durable. */
  lemma RollbackMatchesPointer(c: CycleCall, b: Store, s: Store)
    requires ValidCall(c) && Clean(c) && Trusted(b, CallNames(c)) && FailurePoint(c, b, s)
    requires CallNames(c) == DEFAULT_FIXED_NAMES
    ensures FixedMatchesPointer(RecoverSpec(s, DEFAULT_FIXED_NAMES))
  {
    if SameAt(b, s, CURRENT_KEY) {
      TrustCarries(b, s, CallNames(c));
    } else {
      CommitIsReadBack(c, s);
    }
    if Trusted(s, DEFAULT_FIXED_NAMES) {
      RecoveryConverges(s, DEFAULT_FIXED_NAMES, PointerDocOf(s).value);
    }
  }

  lemma RollbackNamesAreOurs(c: CycleCall, b: Store, s: Store, snapshot: Option<map<string, Option<Obj>>>)
    requires ValidCall(c) && Clean(c) && FailurePoint(c, b, s)
    requires snapshot == if Trusted(b, CallNames(c)) then None else Some(FixedState(b, CallNames(c)))
    ensures RollbackNames(snapshot, s) <= CallNames(c)
  {
    if snapshot.None? {
      TrustedNames(b, CallNames(c));
      if Lookup(s, CURRENT_KEY) == Some(CommitObj(c)) {
        CommitIsReadBack(c, s);
      } else {
        TrustCarries(b, s, CallNames(c));
      }
    }
  }

  lemma FixedOnlyKeepsCycles(names: set<string>, s: Store, s': Store)
    requires FixedOnly(names, s, s')
    ensures KeepsCycles(s, s')
    ensures POINTER_NAME !in names ==> SameAt(s, s', CURRENT_KEY)
  {
    forall k: Key | k.CycleObj? && k in s ensures SameAt(s, s', k) {}
  }

  lemma KeepsCyclesComposes(a: Store, b: Store, c: Store)
    requires KeepsCycles(a, b) && KeepsCycles(b, c)
    ensures KeepsCycles(a, c)
  {
    forall k: Key | k.CycleObj? && k in a ensures SameAt(a, c, k) {
      assert SameAt(a, b, k);
    }
  }

  lemma StagedKept(c: CycleCall, s: Store, s': Store)
    requires AllStaged(c, s) && KeepsCycles(s, s')
    ensures AllStaged(c, s')
  {
    forall name | name in CallNames(c)
      ensures CycleObj(c.cycleId, name) in s' && s'[CycleObj(c.cycleId, name)] == Objects(c.payloads)[name]
    {
      assert SameAt(s, s', CycleObj(c.cycleId, name));
    }
  }

  lemma CommitKeepsCycles(c: CycleCall, s: Store, s': Store)
    requires s' == s || s' == s[CURRENT_KEY := CommitObj(c)]
    ensures KeepsCycles(s, s')
  {
    forall k: Key | k.CycleObj? && k in s ensures SameAt(s, s', k) {}
  }

  lemma CommitExtendsTrace(c: CycleCall, b: Store, s: Store, h: seq<Store>, lo: nat, s': Store)
    requires FailurePoint(c, b, s) && |h| > 0 && h[|h| - 1] == s && Traced(c, b, h, lo)
    requires s' == s || s' == s[CURRENT_KEY := CommitObj(c)]
    ensures Traced(c, b, Extend(h, s'), lo)
  {
    CommitStep(c, b, s);
    ExtendTrace(c, b, h, s', lo);
  }

  lemma FixedTraceJoins(c: CycleCall, b: Store, names: set<string>, h: seq<Store>, h': seq<Store>, lo: nat)
    requires |h| > 0 && h <= h' && Traced(c, b, h, lo) && TracedFixed(names, h', |h| - 1)
    requires names <= CallNames(c) && POINTER_NAME !in names
    ensures Traced(c, b, h', lo)
  {
    TracedFixedIsAllowed(c, b, names, h', |h| - 1);
    JoinTraces(c, b, h, h', lo);
  }

  /** The mirrored bucket s still holds the cycle, and its pointer has not moved. */
  lemma MirrorPoint(c: CycleCall, b: Store, t: Store, s: Store)
    requires AllStaged(c, t) && KeepsCycles(b, t) && FixedOnly(CallNames(c), t, s)
    requires Clean(c) ==> SameAt(b, t, CURRENT_KEY)
    ensures FailurePoint(c, b, s)
  {
    MirrorKeepsStaged(c, t, s);
    FixedOnlyKeepsCycles(CallNames(c), t, s);
    forall k: Key | k.CycleObj? && k in b ensures SameAt(b, s, k) {
      assert SameAt(b, t, k) && SameAt(t, s, k);
    }
    if Clean(c) {
      assert SameAt(t, s, CURRENT_KEY);
    }
  }

  lemma CommitPoint(c: CycleCall, b: Store, t: Store, s: Store)
    requires FailurePoint(c, b, t) && Mirrored(c, t)
    requires s == t || s == t[CURRENT_KEY := CommitObj(c)]
    requires Clean(c) ==> SameAt(b, t, CURRENT_KEY)
    ensures FailurePoint(c, b, s)
  {
    forall name | name in CallNames(c)
      ensures CycleObj(c.cycleId, name) in s && s[CycleObj(c.cycleId, name)] == Objects(c.payloads)[name]
    {
      assert CycleObj(c.cycleId, name) in t;
    }
    forall k: Key | k.CycleObj? && k in b ensures SameAt(b, s, k) {
      assert SameAt(b, t, k);
    }
  }

  /** The committed bucket: staged, mirrored, and pointed at. */
  function Target(t: Store, c: CycleCall): Store {
    (t + Mirror(Objects(c.payloads)))[CURRENT_KEY := CommitObj(c)]
  }

  /** Target up to the pointer's content type, which the protocol never reads. */
  ghost predicate PublishedAs(c: CycleCall, target: Store, s: Store) {
    s[CURRENT_KEY := CommitObj(c)] == target && CURRENT_KEY in s && s[CURRENT_KEY].data == CommitObj(c).data
  }

  lemma PrunedWithoutFault(c: CycleCall, target: Store, s: Store, health: PruneHealth)
    requires PrunedTarget(c, target, s, health) && health.lastOutcome == Some(Succeeded)
    ensures s == PruneSpec(target, c.cycleId, c.retention)
  {}

  lemma PruningStaysTraced(c: CycleCall, b: Store, t: Store, h: seq<Store>, s': Store, h': seq<Store>, lo: nat)
    requires Trusted(b, CallNames(c)) && |h| > 0 && h[|h| - 1] == Target(t, c)
    requires Prunable(c, b, Target(t, c), h, lo) ==> Prunable(c, b, s', h', lo)
    ensures Traced(c, b, h, lo) ==> Traced(c, b, h', lo)
  {}

  lemma LandedMeansPublished(c: CycleCall, t: Store, s: Store)
    requires s == t + Mirror(Objects(c.payloads)) || s == Target(t, c)
    requires CURRENT_KEY in s && s[CURRENT_KEY].data == CommitObj(c).data
    ensures PublishedAs(c, Target(t, c), s)
  {
    assert s[CURRENT_KEY := CommitObj(c)] == Target(t, c);
  }

  /** Over a trusted pointer, reading the committed bytes back means the PUT landed. */
  lemma ReadBackMeansLanded(c: CycleCall, b: Store, t: Store, s: Store)
    requires ValidCall(c) && Clean(c) && Trusted(b, CallNames(c)) && c.cycleId !in LiveIds(b)
    requires SameAt(b, t, CURRENT_KEY) && (s == t || s == t[CURRENT_KEY := CommitObj(c)])
    requires CURRENT_KEY in s && s[CURRENT_KEY].data == CommitObj(c).data
    ensures s == t[CURRENT_KEY := CommitObj(c)]
  {
    var d := PointerDocOf(b).value;
    var name :| name in d.names;
    assert CycleObj(d.cycleId, name) in b;
    assert d.cycleId in LiveIds(b);
    PointerRoundTrip(c.cycleId, c.generatedAt, CallNames(c));
  }

  lemma SnapshotMeansBack(c: CycleCall, b: Store, s: Store, s': Store)
    requires RestoredFrom(FixedState(b, CallNames(c)), s, s')
    ensures BackAtSnapshot(c, b, s')
  {
    forall name | name in CallNames(c)
      ensures Lookup(s', Fixed(name)) ==
                (match Lookup(b, Fixed(name)) case None => None case Some(o) => Some(Restored(o)))
    {
      assert Fixed(name).name in FixedState(b, CallNames(c));
      assert Lookup(s', Fixed(name)) ==
          (match FixedState(b, CallNames(c))[name] case None => None case Some(o) => Some(Restored(o)));
    }
  }

  // ------------------------------------------------ readers of the fixed keys

  /** The buckets from position `from` on have these fixed keys as in s. */
  ghost predicate FrozenSince(s: Store, h: seq<Store>, from: nat) {
    forall i, name :: from <= i < |h| ==> SameAt(s, h[i], Fixed(name))
  }

  /** From position `from` on, a meta.json other than t's comes with all of c's objects. */
  ghost predicate MetaLastSince(c: CycleCall, t: Store, h: seq<Store>, from: nat) {
    forall i :: from <= i < |h| ==> SameAt(t, h[i], Fixed(META_NAME)) || Mirrored(c, h[i])
  }

  /**
   What a reader of the fixed keys may rely on at one moment of a publication:
   meta.json is the one before it or the one its recovery put there, or every
   fixed key is the call's object.
   */
  ghost predicate MetaLeads(c: CycleCall, b: Store, x: Store) {
    || SameAt(b, x, Fixed(META_NAME)) || SameAt(RecoverSpec(b, CallNames(c)), x, Fixed(META_NAME))
    || Mirrored(c, x)
  }

  ghost predicate LeadsSince(c: CycleCall, b: Store, h: seq<Store>, from: nat) {
    forall i :: from <= i < |h| ==> MetaLeads(c, b, h[i])
  }

  /** What a restore puts at a fixed key that had this (src/publish.py:489-500). */
  function RestoredValue(o: Option<Obj>): Option<Obj> {
    match o case None => None case Some(o) => Some(Restored(o))
  }

  /** meta.json is the one before the call, up to an empty content type, or its recovery's. */
  ghost predicate MetaIsOld(c: CycleCall, b: Store, x: Store) {
    || SameAt(b, x, Fixed(META_NAME)) || SameAt(RecoverSpec(b, CallNames(c)), x, Fixed(META_NAME))
    || Lookup(x, Fixed(META_NAME)) == RestoredValue(Lookup(b, Fixed(META_NAME)))
  }

  /** The same reader while a rollback may be putting meta.json back. */
  ghost predicate ReaderIsServed(c: CycleCall, b: Store, x: Store) {
    MetaIsOld(c, b, x) || Mirrored(c, x)
  }

  ghost predicate ServedSince(c: CycleCall, b: Store, h: seq<Store>, from: nat) {
    forall i :: from <= i < |h| ==> ReaderIsServed(c, b, h[i])
  }

  lemma LeadingServes(c: CycleCall, b: Store, x: Store)
    ensures MetaLeads(c, b, x) ==> ReaderIsServed(c, b, x)
    ensures (Fixed(META_NAME) in b ==> b[Fixed(META_NAME)].contentType != "")
            ==> (MetaLeads(c, b, x) <==> ReaderIsServed(c, b, x))
  {
    hide Mirrored, RecoverSpec;
  }

  function PresentIn(snapshot: map<string, Option<Obj>>): map<string, Obj> {
    map name | name in snapshot && snapshot[name].Some? :: Restored(snapshot[name].value)
  }

  /** What a rollback that begins at s uploads. */
  function PutBack(c: CycleCall, b: Store, s: Store): map<string, Obj> {
    if !Trusted(b, CallNames(c)) then PresentIn(FixedState(b, CallNames(c)))
    else if Trusted(s, DEFAULT_FIXED_NAMES) && !Quiet(s, PointerDocOf(s).value) then
      RestoredAll(Snapshot(s, PointerDocOf(s).value))
    else map[]
  }

  /** What it deletes after that. */
  function TakenAway(c: CycleCall, b: Store): set<string> {
    if Trusted(b, CallNames(c)) then {} else CallNames(c) - PresentIn(FixedState(b, CallNames(c))).Keys
  }

  /** Some of these fixed keys are gone. */
  ghost predicate DeletePoint(s: Store, gone: set<string>, x: Store) {
    forall name :: SameAt(s, x, Fixed(name)) || (name in gone && Fixed(name) !in x)
  }

  /** A crash point of uploading m and then deleting the keys in gone. */
  ghost predicate UndoPoint(s: Store, m: map<string, Obj>, gone: set<string>, x: Store) {
    CopyPoint(s, s + Mirror(m), x) || DeletePoint(s + Mirror(m), gone, x)
  }

  /** Apart from meta.json, copying m over s changes no key. */
  ghost predicate CopiesNothingNew(s: Store, m: map<string, Obj>) {
    forall name :: name in m && name != META_NAME ==> Lookup(s, Fixed(name)) == Some(m[name])
  }

  /**
   A rollback that begins at s serves that reader throughout: meta.json is still
   an old one, or the payloads are all there and, before meta.json itself, it
   neither changes nor deletes any of them (Limits.RollbackServesIff).
   */
  ghost predicate UndoServes(c: CycleCall, b: Store, s: Store) {
    || MetaIsOld(c, b, s)
    || (&& Mirrored(c, s)
        && CopiesNothingNew(s, PutBack(c, b, s))
        && (META_NAME in PutBack(c, b, s) || TakenAway(c, b) <= {META_NAME}))
  }

  /** The meta.json that a rollback puts back is an old one. */
  lemma OldMetaComesBack(c: CycleCall, b: Store, s: Store)
    requires ValidCall(c) && Clean(c) && FailurePoint(c, b, s) && META_NAME in PutBack(c, b, s)
    ensures MetaIsOld(c, b, s + Mirror(PutBack(c, b, s)))
  {
    hide MetaMatches, DecodePointer, CommitObj, Objects, Mirror, RecoverSpec, AllStaged, KeepsCycles, Quiet, Mirrored;
    CopiedKeys(s, PutBack(c, b, s));
    if Trusted(b, CallNames(c)) {
      TrustedNames(b, CallNames(c));
      if SameAt(b, s, CURRENT_KEY) {
        TrustCarries(b, s, CallNames(c));
        TrustedMeta(c, b, s, PointerDocOf(b).value);
      } else {
        CommittedIsQuiet(c, s);
        assert false;
      }
    }
  }

  lemma TrustedMeta(c: CycleCall, b: Store, s: Store, d: PointerDoc)
    requires Trusted(b, CallNames(c)) && PointerDocOf(b) == Some(d) && META_NAME in d.names
    requires Present(s, d) && KeepsCycles(b, s)
    ensures var o := Some(Restored(s[CycleObj(d.cycleId, META_NAME)]));
            o == Lookup(RecoverSpec(b, CallNames(c)), Fixed(META_NAME)) ||
                o == RestoredValue(Lookup(b, Fixed(META_NAME)))
  {
    hide MetaMatches, PointerDocOf, CallNames;
    assert SameAt(b, s, CycleObj(d.cycleId, META_NAME));
    if Quiet(b, d) {
      assert FixedState(b, d.names)[META_NAME] == Wanted(Snapshot(b, d))[META_NAME];
    }
  }

  /** Over the committed pointer a mirrored bucket needs no repair. */
  lemma CommittedIsQuiet(c: CycleCall, s: Store)
    requires ValidCall(c) && Lookup(s, CURRENT_KEY) == Some(CommitObj(c)) && AllStaged(c, s) && Mirrored(c, s)
    ensures PointerDocOf(s).Some? && Present(s, PointerDocOf(s).value) && Quiet(s, PointerDocOf(s).value)
  {
    CommitIsReadBack(c, s);
    hide PointerDocOf, CommitObj, Objects, ValidCall;
    var d := PointerDocOf(s).value;
    assert FixedState(s, d.names) == Wanted(Snapshot(s, d));
  }

  lemma OldStaysOld(c: CycleCall, b: Store, x: Store, y: Store)
    requires MetaIsOld(c, b, x) && SameAt(x, y, Fixed(META_NAME))
    ensures MetaIsOld(c, b, y)
  {
    hide RecoverSpec;
  }

  lemma MirroredStays(c: CycleCall, s: Store, x: Store)
    requires Mirrored(c, s) && forall name :: name in CallNames(c) ==> SameAt(s, x, Fixed(name))
    ensures Mirrored(c, x)
  {
    hide Objects, CallNames;
  }

  lemma CopiedKeys(s: Store, m: map<string, Obj>)
    ensures forall name ::
              Lookup(s + Mirror(m), Fixed(name)) == if name in m then Some(m[name]) else Lookup(s, Fixed(name))
  {}

  lemma CopyingServes(c: CycleCall, b: Store, s: Store, m: map<string, Obj>, x: Store)
    requires META_NAME in m ==> MetaIsOld(c, b, s + Mirror(m))
    requires MetaIsOld(c, b, s) || (Mirrored(c, s) && CopiesNothingNew(s, m))
    requires PartCopied(s, s + Mirror(m), x)
    ensures ReaderIsServed(c, b, x)
  {
    hide MetaIsOld, Mirrored, Mirror, CallNames;
    CopiedKeys(s, m);
    var mid := s + Mirror(m);
    if SameAt(s, x, Fixed(META_NAME)) {
      if MetaIsOld(c, b, s) {
        OldStaysOld(c, b, s, x);
      } else {
        forall name | name in CallNames(c) ensures SameAt(s, x, Fixed(name)) {
          assert SameAt(s, x, Fixed(name)) || SameAt(mid, x, Fixed(name));
        }
        MirroredStays(c, s, x);
      }
    } else {
      assert SameAt(mid, x, Fixed(META_NAME));
      OldStaysOld(c, b, mid, x);
    }
  }

  lemma DeletingServes(c: CycleCall, b: Store, s: Store, m: map<string, Obj>, gone: set<string>, x: Store)
    requires META_NAME in m ==> MetaIsOld(c, b, s + Mirror(m))
    requires MetaIsOld(c, b, s) || (Mirrored(c, s) && CopiesNothingNew(s, m) && (META_NAME in m || gone <= {META_NAME}))
    requires META_NAME in gone ==> Fixed(META_NAME) !in b
    requires DeletePoint(s + Mirror(m), gone, x)
    ensures ReaderIsServed(c, b, x)
  {
    hide MetaIsOld, Mirrored, Mirror, CallNames;
    CopiedKeys(s, m);
    var mid := s + Mirror(m);
    if SameAt(mid, x, Fixed(META_NAME)) {
      if META_NAME in m {
        OldStaysOld(c, b, mid, x);
      } else if MetaIsOld(c, b, s) {
        OldStaysOld(c, b, s, x);
      } else {
        forall name | name in CallNames(c) ensures SameAt(s, x, Fixed(name)) {
          assert name != META_NAME ==> SameAt(mid, x, Fixed(name));
        }
        MirroredStays(c, s, x);
      }
    } else {
      AbsentIsOld(c, b, x);
    }
  }

  lemma AbsentIsOld(c: CycleCall, b: Store, x: Store)
    requires Fixed(META_NAME) !in b && Fixed(META_NAME) !in x
    ensures MetaIsOld(c, b, x)
  {
    hide RecoverSpec;
  }

  lemma TakenAwayWasAbsent(c: CycleCall, b: Store, name: string)
    ensures name in TakenAway(c, b) ==> name in CallNames(c) && Fixed(name) !in b
  {
    hide Trusted;
    if name in TakenAway(c, b) {
      assert name in FixedState(b, CallNames(c));
    }
  }

  /** The good half, for every crash point that the rollback methods ensure. */
  lemma UndoingServes(c: CycleCall, b: Store, s: Store, h: seq<Store>, from: nat)
    requires ValidCall(c) && Clean(c) && FailurePoint(c, b, s) && UndoServes(c, b, s)
    requires forall i :: from <= i < |h| ==> UndoPoint(s, PutBack(c, b, s), TakenAway(c, b), h[i])
    ensures ServedSince(c, b, h, from)
  {
    var m, gone := PutBack(c, b, s), TakenAway(c, b);
    if META_NAME in m {
      OldMetaComesBack(c, b, s);
    }
    TakenAwayWasAbsent(c, b, META_NAME);
    hide ValidCall, FailurePoint, PutBack, TakenAway, PartCopied, DeletePoint, ReaderIsServed, MetaIsOld, Mirrored,
         Mirror, CopiesNothingNew, MetaAnnounces, CallNames;
    forall i | from <= i < |h| ensures ReaderIsServed(c, b, h[i]) {
      if CopyPoint(s, s + Mirror(m), h[i]) {
        CopyingServes(c, b, s, m, h[i]);
      } else {
        DeletingServes(c, b, s, m, gone, h[i]);
      }
    }
  }

  lemma UndoIsServed(c: CycleCall, b: Store, s: Store, snapshot: Option<map<string, Option<Obj>>>, h: seq<Store>,
                     from: nat)
    requires ValidCall(c) && Clean(c) && FailurePoint(c, b, s) && UndoServes(c, b, s)
    requires snapshot == if Trusted(b, CallNames(c)) then None else Some(FixedState(b, CallNames(c)))
    requires forall i :: from <= i < |h| ==>
               match snapshot
               case Some(m) => UndoPoint(s, PresentIn(m), m.Keys - PresentIn(m).Keys, h[i])
               case None => CopyPoint(s, RecoverSpec(s, DEFAULT_FIXED_NAMES), h[i])
    ensures ServedSince(c, b, h, from)
  {
    hide ValidCall, Clean, FailurePoint, UndoServes, Trusted, PresentIn, UndoPoint, CopyPoint, RecoverSpec, CallNames;
    assert FixedState(b, CallNames(c)).Keys == CallNames(c);
    forall i | from <= i < |h| ensures UndoPoint(s, PutBack(c, b, s), TakenAway(c, b), h[i]) {
      if snapshot.None? {
        RecoveryPutsBack(c, b, s, h[i]);
      }
    }
    UndoingServes(c, b, s, h, from);
  }

  lemma NothingDeleted(s: Store, gone: set<string>)
    ensures DeletePoint(s, gone, s)
  {}

  /** Removing one more of these keys, or failing to. */
  lemma DeletingOneMore(mid: Store, gone: set<string>, h: seq<Store>, from: nat, name: string, s': Store)
    requires |h| > 0 && name in gone && DeletePoint(mid, gone, h[|h| - 1])
    requires forall i :: from <= i < |h| ==> DeletePoint(mid, gone, h[i])
    requires s' == h[|h| - 1] || s' == h[|h| - 1] - {Fixed(name)}
    ensures forall i :: from <= i < |Extend(h, s')| ==> DeletePoint(mid, gone, Extend(h, s')[i])
    ensures DeletePoint(mid, gone, s')
  {
    var h' := Extend(h, s');
    assert forall other :: other != name ==> SameAt(h[|h| - 1], s', Fixed(other));
    assert DeletePoint(mid, gone, s');
    hide DeletePoint;
    forall i | from <= i < |h'| ensures DeletePoint(mid, gone, h'[i]) {
      assert i < |h| ==> h'[i] == h[i];
    }
  }

  /** Copying, then deleting. */
  lemma UndoJoins(s: Store, m: map<string, Obj>, gone: set<string>, h: seq<Store>, h': seq<Store>, from: nat)
    requires h <= h'
    requires forall i :: from <= i < |h| ==> CopyPoint(s, s + Mirror(m), h[i])
    requires forall i :: |h| <= i < |h'| ==> DeletePoint(s + Mirror(m), gone, h'[i])
    ensures forall i :: from <= i < |h'| ==> UndoPoint(s, m, gone, h'[i])
  {
    hide CopyPoint, DeletePoint, Mirror;
    forall i | from <= i < |h'| ensures UndoPoint(s, m, gone, h'[i]) {
      assert i < |h| ==> h'[i] == h[i];
    }
  }

  /** What a rollback over a trusted pointer copies is what recovery copies. */
  lemma RecoveryPutsBack(c: CycleCall, b: Store, s: Store, x: Store)
    requires Trusted(b, CallNames(c)) && CopyPoint(s, RecoverSpec(s, DEFAULT_FIXED_NAMES), x)
    ensures UndoPoint(s, PutBack(c, b, s), TakenAway(c, b), x)
  {
    hide CopyPoint, MetaMatches, PointerDocOf, CallNames;
    assert s + Mirror(PutBack(c, b, s)) == RecoverSpec(s, DEFAULT_FIXED_NAMES);
  }

  lemma ExtendFrozen(s: Store, h: seq<Store>, from: nat, s': Store)
    requires |h| > 0 && FrozenSince(s, h, from) && forall name :: SameAt(s, s', Fixed(name))
    ensures FrozenSince(s, Extend(h, s'), from)
  {
    var h' := Extend(h, s');
    forall i, name | from <= i < |h'| ensures SameAt(s, h'[i], Fixed(name)) {
      if i < |h| {
        assert h'[i] == h[i];
      }
    }
  }

  lemma AnnouncedOrDone(s: Store, target: Store, x: Store)
    requires MetaAnnounces(s, target, x)
    ensures SameAt(s, x, Fixed(META_NAME)) || x == target
  {}

  lemma NothingServed(c: CycleCall, b: Store, h: seq<Store>)
    ensures ServedSince(c, b, h, |h|)
  {}

  lemma MirroredByUpload(c: CycleCall, t: Store)
    ensures Mirrored(c, t + Mirror(Objects(c.payloads)))
  {
    hide Objects;
  }

  /** Every crash point of the mirror's uploads leaves meta.json alone or is the whole mirror. */
  lemma UploadsLead(c: CycleCall, t: Store, items: seq<Payload>, h: seq<Store>, from: nat)
    requires MetaAtEnd(items) && Objects(items) == Objects(c.payloads)
    requires forall i :: from <= i < |h| ==> UploadPoint(t, items, h[i])
    ensures MetaLastSince(c, t, h, from)
  {
    hide UploadPoint, Objects, MetaAtEnd, Mirrored, Mirror;
    MirroredByUpload(c, t);
    forall i | from <= i < |h| ensures SameAt(t, h[i], Fixed(META_NAME)) || Mirrored(c, h[i]) {
      UploadPointAnnounces(t, items, h[i]);
    }
  }

  lemma LeadingServesAll(c: CycleCall, b: Store, h: seq<Store>, from: nat)
    ensures LeadsSince(c, b, h, from) ==> ServedSince(c, b, h, from)
  {
    hide MetaLeads, ReaderIsServed;
    forall i | from <= i < |h| ensures MetaLeads(c, b, h[i]) ==> ReaderIsServed(c, b, h[i]) {
      LeadingServes(c, b, h[i]);
    }
  }

  lemma ServingJoins(c: CycleCall, b: Store, h: seq<Store>, h': seq<Store>, from: nat)
    requires h <= h' && ServedSince(c, b, h, from) && ServedSince(c, b, h', |h|)
    ensures ServedSince(c, b, h', from)
  {
    hide ReaderIsServed;
    forall i | from <= i < |h'| ensures ReaderIsServed(c, b, h'[i]) {
      assert i < |h| ==> h'[i] == h[i];
    }
  }

  lemma NothingMoved(s: Store, h: seq<Store>)
    ensures FrozenSince(s, h, |h|)
  {}

  lemma CycleKeysAreNotFixed(s: Store, k: Key, o: Obj)
    requires k.CycleObj?
    ensures forall name :: SameAt(s, s[k := o], Fixed(name)) && SameAt(s, s - {k}, Fixed(name))
  {}

  lemma FrozenComposes(s: Store, mid: Store, h: seq<Store>, from: nat, h': seq<Store>)
    requires |h| > 0 && h <= h' && h[|h| - 1] == mid && FrozenSince(s, h, from) && FrozenSince(mid, h', |h|)
    requires forall name :: SameAt(s, mid, Fixed(name))
    ensures FrozenSince(s, h', from)
  {
    forall i, name | from <= i < |h'| ensures SameAt(s, h'[i], Fixed(name)) {
      if i < |h| {
        assert h'[i] == h[i];
      } else {
        assert SameAt(mid, h'[i], Fixed(name));
      }
    }
  }

  /** Mirror, commit and prune, one after the other. */
  lemma MetaStaysLast(c: CycleCall, t: Store, from: nat, h1: seq<Store>, h2: seq<Store>, h3: seq<Store>)
    requires 0 < |h1| && h1 <= h2 <= h3 && from <= |h1|
    requires MetaLastSince(c, t, h1, from) && Mirrored(c, h2[|h2| - 1])
    requires forall i :: |h1| <= i < |h2| ==> Mirrored(c, h2[i])
    requires FrozenSince(h2[|h2| - 1], h3, |h2|)
    ensures MetaLastSince(c, t, h3, from)
  {
    forall i | from <= i < |h3| ensures SameAt(t, h3[i], Fixed(META_NAME)) || Mirrored(c, h3[i]) {
      if i < |h1| {
        assert h3[i] == h2[i] == h1[i];
      } else if i < |h2| {
        assert h3[i] == h2[i];
      } else {
        forall name | name in CallNames(c) ensures Lookup(h3[i], Fixed(name)) == Some(Objects(c.payloads)[name]) {
          assert SameAt(h2[|h2| - 1], h3[i], Fixed(name));
        }
      }
    }
  }

  lemma CommitStaysMirrored(c: CycleCall, s: Store, h: seq<Store>, s': Store)
    requires Clean(c) && Mirrored(c, s) && |h| > 0 && h[|h| - 1] == s
    requires s' == s || s' == s[CURRENT_KEY := CommitObj(c)]
    ensures forall i :: |h| <= i < |Extend(h, s')| ==> Mirrored(c, Extend(h, s')[i])
    ensures Mirrored(c, s')
  {
    hide Objects, CommitObj;
    assert forall name :: name in CallNames(c) ==> SameAt(s, s', Fixed(name));
  }

  /** Recovery, staging, and the rest of a publication. */
  lemma LeadsThroughout(c: CycleCall, b: Store, h1: seq<Store>, h2: seq<Store>, h3: seq<Store>, lo: nat)
    requires 0 < |h1| && h1 <= h2 <= h3 && LeadsSince(c, b, h1, lo) && h1[|h1| - 1] == RecoverSpec(b, CallNames(c))
    requires FrozenSince(h1[|h1| - 1], h2, |h1|)
    requires MetaLastSince(c, h2[|h2| - 1], h3, |h2|)
    ensures LeadsSince(c, b, h3, lo)
  {
    hide RecoverSpec, Mirrored;
    var recovered, t := h1[|h1| - 1], h2[|h2| - 1];
    if |h2| > |h1| {
      assert SameAt(recovered, t, Fixed(META_NAME));
    } else {
      assert h2 == h1;
    }
    forall i | lo <= i < |h3| ensures MetaLeads(c, b, h3[i]) {
      if i < |h1| {
        assert h3[i] == h2[i] == h1[i];
      } else if i < |h2| {
        assert h3[i] == h2[i] && SameAt(recovered, h2[i], Fixed(META_NAME));
      } else {
        assert SameAt(t, h3[i], Fixed(META_NAME)) || Mirrored(c, h3[i]);
      }
    }
  }

  /** The same, and then a rollback that serves the reader, if there was one. */
  lemma ServedThroughout(c: CycleCall, b: Store, h1: seq<Store>, h2: seq<Store>, calm: seq<Store>, h: seq<Store>,
                         lo: nat)
    requires 0 < |h1| && h1 <= h2 <= calm <= h && LeadsSince(c, b, h1, lo)
    requires h1[|h1| - 1] == RecoverSpec(b, CallNames(c)) && FrozenSince(h1[|h1| - 1], h2, |h1|)
    requires MetaLastSince(c, h2[|h2| - 1], calm, |h2|)
    ensures LeadsSince(c, b, calm, lo) && ServedSince(c, b, calm, lo)
    ensures ServedSince(c, b, h, |calm|) ==> ServedSince(c, b, h, lo)
  {
    hide LeadsSince, ServedSince, FrozenSince, MetaLastSince, RecoverSpec, CallNames;
    LeadsThroughout(c, b, h1, h2, calm, lo);
    LeadingServesAll(c, b, calm, lo);
    if ServedSince(c, b, h, |calm|) {
      ServingJoins(c, b, calm, h, lo);
    }
  }

  lemma StagingLeads(c: CycleCall, b: Store, h1: seq<Store>, h2: seq<Store>, lo: nat)
    requires 0 < |h1| && h1 <= h2 && LeadsSince(c, b, h1, lo) && h1[|h1| - 1] == RecoverSpec(b, CallNames(c))
    requires FrozenSince(h1[|h1| - 1], h2, |h1|)
    ensures LeadsSince(c, b, h2, lo)
  {
    assert MetaLastSince(c, h2[|h2| - 1], h2, |h2|);
    LeadsThroughout(c, b, h1, h2, h2, lo);
  }

  lemma RecoveryLeads(c: CycleCall, b: Store, h: seq<Store>, lo: nat)
    requires lo < |h| && h[lo] == b
    requires forall i :: lo < i < |h| ==> CopyPoint(b, RecoverSpec(b, CallNames(c)), h[i])
    ensures LeadsSince(c, b, h, lo)
  {
    hide RecoverSpec, Mirrored;
  }

  /** The committed bucket after the best-effort pruning of a trusted publication. */
  ghost predicate PrunedTarget(c: CycleCall, target: Store, s: Store, health: PruneHealth) {
    && Dropped(Doomed(target, c.cycleId, c.retention), target, s)
    && health.lastOutcome.Some?
    && (health.lastOutcome == Some(Succeeded) ==> s == PruneSpec(target, c.cycleId, c.retention))
  }

  // ------------------------------------------------- outcome of one call

  /** What publishing c from bucket b leaves in s, result by result. */
  ghost predicate PublishOutcome(c: CycleCall, b: Store, s: Store, r: Result<(), PublishError>, rollback: Rollback,
                                 health: PruneHealth)
  {
    match r
    case Ok(_) =>
      && Precheck(c) == None && c.cycleId !in LiveIds(b) && rollback == NotNeeded
      && (!Trusted(b, CallNames(c)) ==> PublishedAs(c, PublishSpec(b, c), s))
      && (Trusted(b, CallNames(c)) && Clean(c) ==> PrunedTarget(c, PublishSpec(b, c), s, health))
    case Err(e) =>
      match e
      case RecoveryFailed => FixedOnly(RecoverNames(b, CallNames(c)), b, s)
      case SnapshotFailed => s == b && !Trusted(b, CallNames(c))
      case CollisionCheckFailed => s == RecoverSpec(b, CallNames(c))
      case Collision => s == RecoverSpec(b, CallNames(c)) && c.cycleId in LiveIds(b)
      case StagingFailed => exists j :: 0 <= j <= |c.payloads| && s == AfterStaging(RecoverSpec(b, CallNames(c)), c, j)
      case MirrorFailed => FailedLate(c, b, s, rollback) && (Clean(c) ==> SameAt(b, s, CURRENT_KEY))
      case PointerFailed =>
        && FailedLate(c, b, s, rollback)
        && (Clean(c) ==> SameAt(b, s, CURRENT_KEY) || Lookup(s, CURRENT_KEY) == Some(CommitObj(c)))
      case _ => s == b && Precheck(c) == Some(e)
  }

  /** After the mirror has begun: no cycle is lost, the new one is whole, and a rollback that worked worked. */
  ghost predicate FailedLate(c: CycleCall, b: Store, s: Store, rollback: Rollback) {
    && rollback != NotNeeded && KeepsCycles(b, s) && AllStaged(c, s)
    && (rollback.RestoredAllKeys? && !Trusted(b, CallNames(c)) ==> BackAtSnapshot(c, b, s))
    && (rollback.RestoredAllKeys? && Trusted(b, CallNames(c)) && Clean(c) && CallNames(c) == DEFAULT_FIXED_NAMES
        ==> FixedMatchesPointer(s))
  }

  /** What the mirror starts from: the recovered bucket with the whole cycle staged. */
  lemma StagedBucket(c: CycleCall, b: Store, s: Store, t: Store)
    requires ValidCall(c) && c.cycleId !in LiveIds(b)
    requires s == RecoverSpec(b, CallNames(c)) && t == s + StagedAt(c.cycleId, Objects(c.payloads))
    ensures AllStaged(c, t) && KeepsCycles(b, t) && (Clean(c) ==> SameAt(b, t, CURRENT_KEY))
  {
    hide RecoverSpec, ValidCall, FixedOnly, Trusted;
    RecoveredBucket(c, b, s);
    StagingAdds(c, s, t);
    KeepsCyclesComposes(b, s, t);
  }

  lemma TargetIsPublished(c: CycleCall, b: Store, t: Store)
    requires ValidCall(c) && t == RecoverSpec(b, CallNames(c)) + StagedAt(c.cycleId, Objects(c.payloads))
    ensures Target(t, c) == PublishSpec(b, c)
  {
    hide RecoverSpec, Mirror, StagedAt, Objects, CommitObj;
    RecoveryIsOverwritten(b, c);
  }

  lemma StagingAdds(c: CycleCall, s: Store, t: Store)
    requires c.cycleId !in LiveIds(s) && t == s + StagedAt(c.cycleId, Objects(c.payloads))
    ensures AllStaged(c, t) && KeepsCycles(s, t) && SameAt(s, t, CURRENT_KEY)
  {
    forall k: Key | k.CycleObj? && k in s ensures SameAt(s, t, k) {
      assert k.id in LiveIds(s);
    }
  }

  lemma RecoveredBucket(c: CycleCall, b: Store, s: Store)
    requires ValidCall(c) && s == RecoverSpec(b, CallNames(c))
    ensures LiveIds(s) == LiveIds(b) && KeepsCycles(b, s) && (Clean(c) ==> SameAt(b, s, CURRENT_KEY))
    ensures !Trusted(b, CallNames(c)) ==> s == b
  {
    RecoveryIsOverwritten(b, c);
    RecoveryTouchesFixedOnly(b, CallNames(c));
    FixedOnlyKeepsCycles(RecoverNames(b, CallNames(c)), b, s);
    if Trusted(b, CallNames(c)) {
      TrustedNames(b, CallNames(c));
    }
  }

  lemma RecoveryIsTraced(c: CycleCall, b: Store, h: seq<Store>, lo: nat)
    requires ValidCall(c) && Clean(c) && TracedFixed(RecoverNames(b, CallNames(c)), h, lo)
    ensures Traced(c, b, h, lo)
  {
    if Trusted(b, CallNames(c)) {
      TrustedNames(b, CallNames(c));
    }
    TracedFixedIsAllowed(c, b, RecoverNames(b, CallNames(c)), h, lo);
  }

  /**
   The names a recovery looks at, those that `_pointer_snapshot` read and any
   further expected ones, all have a source exactly if the pointer's objects are
   there and nothing else is expected. Acceptance implies that, so neither the
   lookup of a source nor the deletion of a name without one can happen.
   */
  lemma NothingToDelete(s: Store, d: PointerDoc, expected: set<string>)
    ensures Present(s, d) && expected <= d.names
       <==> forall name :: name in d.names + expected ==> name in d.names && Lookup(s, CycleObj(d.cycleId, name)).Some?
    ensures Accepts(s, d, expected) ==> d.names + expected == d.names
  {
    if expected <= d.names {
      assert d.names + expected == d.names;
    }
  }

  /** Whether a recovery has a source, and what it comes to. */
  lemma RecoveryPlan(s: Store, expected: set<string>, h: seq<Store>)
    requires |h| > 0
    ensures Trusted(s, expected) <==> PointerDocOf(s).Some? && Accepts(s, PointerDocOf(s).value, expected)
    ensures Trusted(s, expected) ==>
              && RecoverSpec(s, expected) == Repaired(s, PointerDocOf(s).value)
              && RecoverNames(s, expected) == PointerDocOf(s).value.names
    ensures !Trusted(s, expected) ==> RecoverSpec(s, expected) == s
    ensures FixedOnly(RecoverNames(s, expected), s, s) && TracedFixed(RecoverNames(s, expected), h, |h| - 1)
  {
    hide Accepts;
  }

  /** What a recovery that has read its source will write. */
  lemma RepairPlan(s: Store, d: PointerDoc, desired: map<string, Option<Obj>>)
    requires Present(s, d) && desired == Wanted(Snapshot(s, d))
    ensures desired.Keys == d.names && forall name :: name in d.names ==> desired[name].Some?
    ensures FixedState(s, d.names).Keys == d.names
    ensures (map name | name in d.names && desired[name].Some? :: Restored(desired[name].value))
         == RestoredAll(Snapshot(s, d))
    ensures RestoredAll(Snapshot(s, d)).Keys == d.names
    ensures FixedState(s, d.names) == desired <==> Quiet(s, d)
    ensures Repaired(s, d) == if Quiet(s, d) then s else s + Mirror(RestoredAll(Snapshot(s, d)))
    ensures d.names == {} ==> Quiet(s, d)
    ensures (set name | name in d.names && desired[name].None?) == {}
    ensures FixedOnly(d.names, s, s)
  {
    assert d.names == {} ==> FixedState(s, d.names) == map[] && Wanted(Snapshot(s, d)) == map[];
  }

  // ------------------------------------------------------------ prune health

  function Failures(ps: seq<Pruning>): nat {
    if |ps| == 0 then 0 else Failures(ps[..|ps| - 1]) + (if ps[|ps| - 1].outcome.Failed? then 1 else 0)
  }

  /** The last `run` prunings failed, and the one before them did not. */
  ghost predicate FailedSince(ps: seq<Pruning>, run: nat) {
    && run <= |ps|
    && (forall i :: |ps| - run <= i < |ps| ==> ps[i].outcome.Failed?)
    && (run < |ps| ==> ps[|ps| - run - 1].outcome.Succeeded?)
  }

  /** The latest failure was that of `keep`; None if there was none. */
  ghost predicate LatestFailure(ps: seq<Pruning>, keep: Option<string>) {
    match keep
    case None => forall i :: 0 <= i < |ps| ==> ps[i].outcome.Succeeded?
    case Some(id) =>
      exists i :: && 0 <= i < |ps| && ps[i] == Pruning(id, Failed)
                  && forall j :: i < j < |ps| ==> ps[j].outcome.Succeeded?
  }

  /** What the health record says about all prunings since the process started. */
  ghost predicate Reflects(health: PruneHealth, ps: seq<Pruning>) {
    && health.lastOutcome == (if |ps| == 0 then None else Some(ps[|ps| - 1].outcome))
    && health.failuresTotal == Failures(ps)
    && FailedSince(ps, health.consecutiveFailures)
    && LatestFailure(ps, health.lastFailureCycle)
  }

  /** The record after one more pruning. */
  function Recorded(health: PruneHealth, p: Pruning): PruneHealth {
    if p.outcome.Failed? then
      PruneHealth(Some(Failed), health.failuresTotal + 1, health.consecutiveFailures + 1, Some(p.keep))
    else
      health.(lastOutcome := Some(Succeeded), consecutiveFailures := 0)
  }

  /** The record goes on describing the whole sequence, one pruning after another. */
  lemma RecordingReflects(health: PruneHealth, ps: seq<Pruning>, p: Pruning)
    requires Reflects(health, ps)
    ensures Reflects(Recorded(health, p), ps + [p])
  {
    var more := ps + [p];
    assert more[..|ps|] == ps;
    if p.outcome.Failed? {
      assert more[|ps|] == Pruning(p.keep, Failed);
      var run := health.consecutiveFailures;
      assert run < |ps| ==> more[|more| - (run + 1) - 1] == ps[|ps| - run - 1];
    } else if health.lastFailureCycle.Some? {
      var i :| && 0 <= i < |ps| && ps[i] == Pruning(health.lastFailureCycle.value, Failed)
               && forall j :: i < j < |ps| ==> ps[j].outcome.Succeeded?;
      assert more[i] == ps[i];
    }
  }

  /** The record after all of these prunings, from the start of the process. */
  function RecordedAll(ps: seq<Pruning>): PruneHealth {
    if |ps| == 0 then PruneHealth(None, 0, 0, None) else Recorded(RecordedAll(ps[..|ps| - 1]), ps[|ps| - 1])
  }

  /** The description leaves the record no choice. */
  lemma ReflectionIsUnique(a: PruneHealth, b: PruneHealth, ps: seq<Pruning>)
    requires Reflects(a, ps) && Reflects(b, ps)
    ensures a == b
  {
    NoLongerRun(ps, a.consecutiveFailures, b.consecutiveFailures);
    NoLongerRun(ps, b.consecutiveFailures, a.consecutiveFailures);
    SameLatestFailure(ps, a.lastFailureCycle, b.lastFailureCycle);
  }

  lemma NoLongerRun(ps: seq<Pruning>, p: nat, q: nat)
    requires FailedSince(ps, p) && FailedSince(ps, q)
    ensures q <= p
  {
    assert p < |ps| ==> ps[|ps| - p - 1].outcome.Succeeded?;
  }

  lemma SameLatestFailure(ps: seq<Pruning>, a: Option<string>, b: Option<string>)
    requires LatestFailure(ps, a) && LatestFailure(ps, b)
    ensures a == b
  {}

  /**
   After any sequence of prunings the record is the one that counts its failures,
   the length of the last unbroken run of them, the latest of them and the
   latest outcome, and no other record does.
   */
  lemma {:induction false} RecordCountsFailures(health: PruneHealth, ps: seq<Pruning>)
    ensures health == RecordedAll(ps) <==> Reflects(health, ps)
    decreases |ps|
  {
    if |ps| == 0 {
      assert Reflects(RecordedAll(ps), ps);
    } else {
      var n := |ps| - 1;
      RecordCountsFailures(RecordedAll(ps[..n]), ps[..n]);
      RecordingReflects(RecordedAll(ps[..n]), ps[..n], ps[n]);
      assert ps == ps[..n] + [ps[n]];
    }
    if Reflects(health, ps) {
      ReflectionIsUnique(health, RecordedAll(ps), ps);
    }
  }

  // ------------------------------------------------------------ which request failed

  /** The latest attempt is not older than `from`, and raised. */
  ghost predicate LastFailed(sent: seq<Attempt>, from: nat) {
    |sent| > from && sent[|sent| - 1].failure.Some?
  }

  /** The upload of one of these items to its fixed key. */
  ghost predicate UploadOf(items: seq<Payload>, req: Request) {
    exists i :: 0 <= i < |items| && req == Put(Fixed(items[i].name), Obj(items[i].data, items[i].contentType))
  }

  /** From position `from` on these uploads only were sent. */
  ghost predicate Uploads(items: seq<Payload>, sent: seq<Attempt>, from: nat) {
    forall i :: from <= i < |sent| ==> UploadOf(items, sent[i].req)
  }

  /** From position `from` on these fixed keys only were fetched. */
  ghost predicate Fetches(names: set<string>, sent: seq<Attempt>, from: nat) {
    forall i :: from <= i < |sent| ==> sent[i].req.Get? && sent[i].req.key.Fixed? && sent[i].req.key.name in names
  }

  /** A request with its attempts, which follow the retry policy. */
  ghost predicate Tried(req: Request, tries: seq<Attempt>) {
    && |tries| > 0
    && Retried<()>(req, tries, match tries[|tries| - 1].failure case None => Ok(()) case Some(e) => Err(e))
  }

  ghost predicate Answered(tries: seq<Attempt>) {
    |tries| > 0 && tries[|tries| - 1].failure.None?
  }

  /** The commit's PUT decides, or when it failed a look at the bucket it left. */
  ghost predicate CommitLog(c: CycleCall, s: Store, put: seq<Attempt>, look: seq<Attempt>, landed: bool) {
    && Tried(Put(CURRENT_KEY, CommitObj(c)), put)
    && if Answered(put) then look == [] && landed
       else Tried(Get(CURRENT_KEY), look) && (landed <==> Answered(look) && PointerData(s) == Some(CommitObj(c).data))
  }

  /** A listing or a DELETE that pruning may send. */
  predicate PruneRequest(req: Request) {
    req.ListCycles? || req.ListCycle? || req.Delete?
  }

  ghost predicate PruneRequestFailed(sent: seq<Attempt>, from: nat) {
    exists i :: from <= i < |sent| && PruneRequest(sent[i].req) && sent[i].failure.Some?
  }

  /** The listing of this cycle, or the deletion of one of its objects. */
  predicate Concerns(req: Request, id: string) {
    (req.ListCycle? && req.id == id) || (req.Delete? && req.key.CycleObj? && req.key.id == id)
  }

  ghost predicate CycleRequestFailed(sent: seq<Attempt>, from: nat, id: string) {
    exists i :: from <= i < |sent| && Concerns(sent[i].req, id) && sent[i].failure.Some?
  }

  /** Some request of this kind raised, from position `from` on. */
  ghost predicate UploadFailed(c: CycleCall, sent: seq<Attempt>, from: nat) {
    exists i :: from <= i < |sent| && UploadOf(c.payloads, sent[i].req) && sent[i].failure.Some?
  }

  ghost predicate CommitFailed(c: CycleCall, sent: seq<Attempt>, from: nat) {
    exists i :: from <= i < |sent| && sent[i].req == Put(CURRENT_KEY, CommitObj(c)) && sent[i].failure.Some?
  }

  ghost predicate ProbeFailed(c: CycleCall, sent: seq<Attempt>, from: nat) {
    exists i :: from <= i < |sent| && sent[i].req == Probe(c.cycleId) && sent[i].failure.Some?
  }

  ghost predicate SnapshotGetFailed(c: CycleCall, sent: seq<Attempt>, from: nat) {
    exists i :: && from <= i < |sent| && sent[i].failure.Some?
                && sent[i].req.Get? && sent[i].req.key.Fixed? && sent[i].req.key.name in CallNames(c)
  }

  /** An error names the phase whose request failed, and so does a failed pruning. */
  ghost predicate Blames(c: CycleCall, trusted: bool, r: Result<(), PublishError>, health: PruneHealth,
                         sent: seq<Attempt>, from: nat)
  {
    match r
    case Ok(_) => trusted && health.lastOutcome == Some(Failed) ==> PruneRequestFailed(sent, from)
    case Err(e) =>
      match e
      case RecoveryFailed => RequestFailed(sent, from)
      case SnapshotFailed => SnapshotGetFailed(c, sent, from)
      case CollisionCheckFailed => ProbeFailed(c, sent, from)
      case StagingFailed => RequestFailed(sent, from)
      case MirrorFailed => UploadFailed(c, sent, from)
      case PointerFailed => CommitFailed(c, sent, from)
      case _ => true
  }

  lemma BlamesEarlier(c: CycleCall, trusted: bool, r: Result<(), PublishError>, health: PruneHealth,
                      sent: seq<Attempt>, from: nat, later: nat)
    requires Blames(c, trusted, r, health, sent, later) && from <= later
    ensures Blames(c, trusted, r, health, sent, from)
  {
    hide UploadOf, PruneRequest, CallNames, CommitObj;
  }

  lemma MirrorBlamed(c: CycleCall, before: seq<Attempt>, ups: seq<Attempt>, sent: seq<Attempt>)
    requires before + ups <= sent && LastFailed(ups, 0) && Uploads(c.payloads, ups, 0)
    ensures UploadFailed(c, sent, |before|)
  {
    hide UploadOf;
    var i := |before| + |ups| - 1;
    assert sent[i] == (before + ups)[i] == ups[|ups| - 1];
  }

  lemma CommitBlamed(c: CycleCall, s: Store, before: seq<Attempt>, put: seq<Attempt>, look: seq<Attempt>,
                     sent: seq<Attempt>)
    requires before + put + look <= sent && CommitLog(c, s, put, look, false)
    ensures CommitFailed(c, sent, |before|)
  {
    hide CommitObj;
    var i := |before| + |put| - 1;
    assert sent[i] == (before + put + look)[i] == put[|put| - 1];
  }

  lemma PruningBlamed(sent: seq<Attempt>, from: nat, later: nat)
    requires PruneRequestFailed(sent, later) && from <= later
    ensures PruneRequestFailed(sent, from)
  {}

  lemma ProbeBlamed(c: CycleCall, before: seq<Attempt>, sent: seq<Attempt>, e: S3Error)
    requires before <= sent && Retried<bool>(Probe(c.cycleId), sent[|before|..], Err(e))
    ensures ProbeFailed(c, sent, |before|)
  {
    var i := |sent| - 1;
    assert sent[|before|..][i - |before|] == sent[i];
  }

  lemma SnapshotBlamed(c: CycleCall, sent: seq<Attempt>, from: nat)
    requires LastFailed(sent, from) && Fetches(CallNames(c), sent, from)
    ensures SnapshotGetFailed(c, sent, from)
  {
    hide CallNames;
  }

  /** One more pruning is recorded exactly if there was one. */
  ghost predicate PruningKept(before: seq<Pruning>, after: seq<Pruning>, was: PruneHealth, health: PruneHealth,
                              keep: string, ran: bool)
  {
    if ran then health.lastOutcome.Some? && after == before + [Pruning(keep, health.lastOutcome.value)]
    else after == before && health == was
  }

  lemma UploadsAlone(c: CycleCall, before: seq<Attempt>, ups: seq<Attempt>)
    requires Uploads(c.payloads, before + ups, |before|)
    ensures Uploads(c.payloads, ups, 0)
  {
    hide UploadOf;
    forall i | 0 <= i < |ups| ensures UploadOf(c.payloads, ups[i].req) {
      assert (before + ups)[|before| + i] == ups[i];
    }
  }

  /** Uploading in another order sends the same requests. */
  lemma SameUploads(c: CycleCall, sent: seq<Attempt>, from: nat)
    requires Uploads(MetaLast(c.payloads), sent, from)
    ensures Uploads(c.payloads, sent, from)
  {
    SplitCovers(c.payloads);
    var items := MetaLast(c.payloads);
    forall i | from <= i < |sent| ensures UploadOf(c.payloads, sent[i].req) {
      var j :| 0 <= j < |items| && sent[i].req == Put(Fixed(items[j].name), Obj(items[j].data, items[j].contentType));
      assert items[j] in DataPayloads(c.payloads) || items[j] in MetaPayloads(c.payloads);
      var k :| 0 <= k < |c.payloads| && c.payloads[k] == items[j];
    }
  }

  lemma FailureStays(before: seq<Attempt>, after: seq<Attempt>, from: nat, id: string)
    requires before <= after && CycleRequestFailed(before, from, id)
    ensures CycleRequestFailed(after, from, id)
  {
    var i :| from <= i < |before| && Concerns(before[i].req, id) && before[i].failure.Some?;
    assert after[i] == before[i];
  }

  lemma FailuresStay(before: seq<Attempt>, after: seq<Attempt>, from: nat, ids: seq<string>)
    requires before <= after && forall id :: id in ids ==> CycleRequestFailed(before, from, id)
    ensures forall id :: id in ids ==> CycleRequestFailed(after, from, id)
  {
    hide CycleRequestFailed;
    forall id | id in ids ensures CycleRequestFailed(after, from, id) {
      FailureStays(before, after, from, id);
    }
  }

  lemma DeletionFailed(sent: seq<Attempt>, from: nat, later: nat, id: string)
    requires from <= later && LastFailed(sent, later)
    requires forall i :: later <= i < |sent| ==> Concerns(sent[i].req, id)
    ensures CycleRequestFailed(sent, from, id)
  {}

  lemma ListingFailed(sent: seq<Attempt>, from: nat, e: S3Error)
    requires GaveUp(sent, from, e) && forall i :: from <= i < |sent| ==> sent[i].req.ListCycles?
    ensures LastFailed(sent, from) && PruneRequestFailed(sent, from)
  {
    assert PruneRequest(sent[|sent| - 1].req);
  }

  lemma FailedCycleFails(sent: seq<Attempt>, from: nat, id: string)
    requires CycleRequestFailed(sent, from, id)
    ensures PruneRequestFailed(sent, from)
  {}

  // ------------------------------------------------------------ publisher

  class Publisher {
    const s3: Client
    var lockDepth: nat
    var pruneHealth: PruneHealth
    /** The prunings recorded so far. */
    ghost var prunings: seq<Pruning>

    constructor (client: Client)
      ensures s3 == client && lockDepth == 0
      ensures prunings == [] && Reflects(pruneHealth, prunings)
    {
      s3 := client;
      lockDepth := 0;
      prunings := [];
      pruneHealth := PruneHealth(None, 0, 0, None);
    }

    method UploadAll(items: seq<Payload>) returns (r: Result<(), S3Error>)
      requires s3.Valid()
      modifies s3
      ensures s3.Valid() && old(s3.history) <= s3.history && old(s3.sent) <= s3.sent && s3.faults >= old(s3.faults)
      ensures r.Ok? ==> s3.store == old(s3.store) + Mirror(Objects(items))
      ensures r.Err? ==> s3.faults > old(s3.faults) && LastFailed(s3.sent, |old(s3.sent)|)
      ensures Uploads(items, s3.sent, |old(s3.sent)|)
      ensures s3.deleteCalls == old(s3.deleteCalls)
      // every crash point is some prefix of the uploads
      ensures UploadPoint(old(s3.store), items, s3.store)
      ensures UploadHistory(old(s3.store), items, s3.history, |old(s3.history)| - 1)
    {
      hide AfterUploads, UploadPoint, UploadHistory, Objects, Mirror, FailedAttempts;
      ghost var s, lo := s3.store, |s3.history| - 1;
      UploadsBegin(s, items, s3.history);
      UploadsEnd(s, items);
      for i := 0 to |items|
        invariant s3.Valid() && old(s3.history) <= s3.history && old(s3.sent) <= s3.sent && s3.faults >= old(s3.faults)
        invariant s3.store == AfterUploads(s, items, i) && UploadPoint(s, items, s3.store)
        invariant UploadHistory(s, items, s3.history, lo)
        invariant s3.deleteCalls == old(s3.deleteCalls)
        invariant Uploads(items, s3.sent, |old(s3.sent)|)
      {
        ghost var h := s3.history;
        OneUpload(s, items, i);
        assert UploadOf(items, Put(Fixed(items[i].name), Obj(items[i].data, items[i].contentType)));
        r := s3.Upload(Fixed(items[i].name), Obj(items[i].data, items[i].contentType));
        ExtendUploadHistory(s, items, h, lo, i, s3.store);
        if r.Err? {
          return;
        }
      }
      r := Ok(());
    }

    /** The state of some fixed keys (`current`, or the bootstrap snapshot). */
    method FetchFixed(names: set<string>) returns (r: Result<map<string, Option<Obj>>, S3Error>)
      requires s3.Valid()
      modifies s3
      ensures s3.Valid() && s3.store == old(s3.store) && s3.history == old(s3.history)
      ensures s3.putCalls == old(s3.putCalls) && s3.deleteCalls == old(s3.deleteCalls)
      ensures s3.faults >= old(s3.faults) && old(s3.sent) <= s3.sent
      ensures r.Ok? ==> r.value == FixedState(s3.store, names)
      ensures r.Err? ==> s3.faults > old(s3.faults) && LastFailed(s3.sent, |old(s3.sent)|)
      ensures Fetches(names, s3.sent, |old(s3.sent)|)
    {
      hide FailedAttempts;
      var order := OrderNames(names);
      var found: map<string, Option<Obj>> := map[];
      for i := 0 to |order|
        invariant s3.Valid() && s3.store == old(s3.store) && s3.history == old(s3.history)
        invariant s3.putCalls == old(s3.putCalls) && s3.deleteCalls == old(s3.deleteCalls)
        invariant s3.faults >= old(s3.faults) && old(s3.sent) <= s3.sent
        invariant found == FixedState(s3.store, Elements(order[..i]))
        invariant Fetches(names, s3.sent, |old(s3.sent)|)
      {
        assert order[i] in Elements(order);
        var o := s3.Fetch(Fixed(order[i]));
        if o.Err? {
          return Err(o.error);
        }
        assert Elements(order[..i + 1]) == Elements(order[..i]) + {order[i]};
        found := found[order[i] := o.value];
      }
      assert order[..|order|] == order;
      r := Ok(found);
    }

    /** Copy a dictionary to the fixed keys in some order, meta.json last. */
    method UploadMap(m: map<string, Obj>) returns (r: Result<(), S3Error>)
      requires s3.Valid()
      modifies s3
      ensures s3.Valid() && old(s3.history) <= s3.history && old(s3.sent) <= s3.sent && s3.faults >= old(s3.faults)
      ensures r.Ok? ==> s3.store == old(s3.store) + Mirror(m)
      ensures r.Err? ==> s3.faults > old(s3.faults)
      ensures FixedOnly(m.Keys, old(s3.store), s3.store)
      ensures TracedFixed(m.Keys, s3.history, |old(s3.history)| - 1)
      ensures s3.deleteCalls == old(s3.deleteCalls)
      ensures forall i :: |old(s3.history)| <= i < |s3.history| ==>
                CopyPoint(old(s3.store), old(s3.store) + Mirror(m), s3.history[i])
    {
      hide UploadPoint, CopyPoint, Mirror, Objects, FixedOnly, FailedAttempts;
      var order := OrderNames(m.Keys);
      assert forall name :: name in order ==> name in Elements(order);
      ItemsObjects(order, m);
      var items := Items(order, m);
      r := UploadAll(items);
      UploadPointTouches(old(s3.store), items, s3.store);
      forall i | |old(s3.history)| <= i < |s3.history|
        ensures CopyPoint(old(s3.store), old(s3.store) + Mirror(m), s3.history[i])
      {
        UploadPointCopies(old(s3.store), items, s3.history[i]);
      }
    }

    /** `_pointer_snapshot`; None is an untrusted pointer. */
    method TakeSnapshot(d: PointerDoc, expected: set<string>)
      returns (r: Result<Option<map<string, Option<Obj>>>, S3Error>)
      requires s3.Valid()
      modifies s3
      ensures s3.Valid() && s3.store == old(s3.store) && s3.history == old(s3.history)
      ensures s3.putCalls == old(s3.putCalls) && s3.deleteCalls == old(s3.deleteCalls)
      ensures s3.faults >= old(s3.faults) && old(s3.sent) <= s3.sent
      ensures r.Ok? ==> (r.value.Some? <==> Accepts(s3.store, d, expected))
      ensures r.Ok? && r.value.Some? ==> r.value.value == Wanted(Snapshot(s3.store, d))
      ensures r.Err? ==> s3.faults > old(s3.faults)
    {
      hide FailedAttempts;
      if expected != {} && d.names != expected {
        return Ok(None);
      }
      var order := OrderNames(d.names);
      var desired: map<string, Option<Obj>> := map[];
      for i := 0 to |order|
        invariant s3.Valid() && s3.store == old(s3.store) && s3.history == old(s3.history)
        invariant s3.putCalls == old(s3.putCalls) && s3.deleteCalls == old(s3.deleteCalls)
        invariant s3.faults >= old(s3.faults) && old(s3.sent) <= s3.sent
        invariant desired.Keys == Elements(order[..i])
        invariant forall name :: name in desired ==>
                    CycleObj(d.cycleId, name) in s3.store && desired[name] == Some(s3.store[CycleObj(d.cycleId, name)])
      {
        var o := s3.Fetch(CycleObj(d.cycleId, order[i]));
        if o.Err? {
          return Err(o.error);
        }
        assert Elements(order[..i + 1]) == Elements(order[..i]) + {order[i]};
        desired := desired[order[i] := o.value];
        if o.value.None? {
          assert order[i] in Elements(order);
          return Ok(None);
        }
      }
      assert order[..|order|] == order;
      assert Present(s3.store, d);
      assert desired == Wanted(Snapshot(s3.store, d));
      if && META_NAME in desired && desired[META_NAME].Some?
         && !MetaMatches(desired[META_NAME].value.data, d.cycleId, d.generatedAt)
      {
        return Ok(None);
      }
      r := Ok(Some(desired));
    }

    /** `_reconcile_publication` */
    method Reconcile(expected: set<string>) returns (r: Result<Recovery, S3Error>)
      requires s3.Valid()
      modifies s3
      ensures s3.Valid() && old(s3.history) <= s3.history && old(s3.sent) <= s3.sent && s3.faults >= old(s3.faults)
      ensures r.Ok? ==> s3.store == RecoverSpec(old(s3.store), expected)
      ensures r.Ok? ==> r.value == (if Trusted(old(s3.store), expected)
                                    then Recovery(Some(PointerDocOf(old(s3.store)).value.cycleId), true)
                                    else Recovery(None, false))
      ensures r.Err? ==> s3.faults > old(s3.faults)
      // nothing is written for an untrusted pointer, or when nothing needs repair
      ensures !Trusted(old(s3.store), expected) ==> s3.store == old(s3.store) && s3.putCalls == old(s3.putCalls)
      ensures Trusted(old(s3.store), expected) && Quiet(old(s3.store), PointerDocOf(old(s3.store)).value)
              ==> s3.store == old(s3.store) && s3.putCalls == old(s3.putCalls)
      // whatever fails, no DELETE is sent and no key is lost at any crash point
      ensures s3.deleteCalls == old(s3.deleteCalls)
      // every crash point: only the pointer's fixed keys move, and meta.json moves last
      ensures FixedOnly(RecoverNames(old(s3.store), expected), old(s3.store), s3.store)
      ensures TracedFixed(RecoverNames(old(s3.store), expected), s3.history, |old(s3.history)| - 1)
      ensures forall i :: |old(s3.history)| <= i < |s3.history| ==>
                CopyPoint(old(s3.store), RecoverSpec(old(s3.store), expected), s3.history[i])
    {
      ghost var s := s3.store;
      RecoveryPlan(s, expected, s3.history);
      hide FailedAttempts, Accepts, Repaired, Quiet, RecoverSpec, RecoverNames, CopyPoint, Snapshot, Wanted, FixedOnly,
           TracedFixed, Trusted, PointerDocOf;
      var source := ReadSource(expected);
      if source.Err? {
        return Err(source.error);
      }
      if source.value.None? {
        return Ok(Recovery(None, false));
      }
      r := Repair(source.value.value.0, expected, source.value.value.1);
    }

    /** The reading half: the pointer and all it names; None for a pointer that is not to be trusted. */
    method ReadSource(expected: set<string>)
      returns (r: Result<Option<(PointerDoc, map<string, Option<Obj>>)>, S3Error>)
      requires s3.Valid()
      modifies s3
      ensures s3.Valid() && s3.store == old(s3.store) && s3.history == old(s3.history)
      ensures s3.putCalls == old(s3.putCalls) && s3.deleteCalls == old(s3.deleteCalls)
      ensures s3.faults >= old(s3.faults) && old(s3.sent) <= s3.sent
      ensures r.Err? ==> s3.faults > old(s3.faults)
      ensures r.Ok? ==> (r.value.Some? <==> Trusted(s3.store, expected))
      ensures r.Ok? && r.value.Some? ==>
                && PointerDocOf(s3.store) == Some(r.value.value.0)
                && r.value.value.1 == Wanted(Snapshot(s3.store, r.value.value.0))
    {
      hide FailedAttempts, Accepts, Snapshot, Wanted, DecodePointer;
      var raw := s3.Fetch(CURRENT_KEY);
      if raw.Err? {
        return Err(raw.error);
      }
      if raw.value.None? {
        return Ok(None);
      }
      var doc := DecodePointer(raw.value.value.data);
      if doc.None? {
        return Ok(None);
      }
      var snapshot := TakeSnapshot(doc.value, expected);
      if snapshot.Err? {
        return Err(snapshot.error);
      }
      if snapshot.value.None? {
        return Ok(None);
      }
      r := Ok(Some((doc.value, snapshot.value.value)));
    }

    /**
     The writing half of a recovery: compare, copy with meta.json last, then
     delete the names without a source. Looking up `desired` never fails, and
     there is never a name to delete.
     */
    method Repair(d: PointerDoc, expected: set<string>, desired: map<string, Option<Obj>>)
      returns (r: Result<Recovery, S3Error>)
      requires s3.Valid() && Accepts(s3.store, d, expected) && desired == Wanted(Snapshot(s3.store, d))
      modifies s3
      ensures s3.Valid() && old(s3.history) <= s3.history && old(s3.sent) <= s3.sent && s3.faults >= old(s3.faults)
      ensures r.Ok? ==> s3.store == Repaired(old(s3.store), d) && r.value == Recovery(Some(d.cycleId), true)
      ensures r.Err? ==> s3.faults > old(s3.faults)
      ensures Quiet(old(s3.store), d) ==> s3.store == old(s3.store) && s3.putCalls == old(s3.putCalls)
      ensures s3.deleteCalls == old(s3.deleteCalls)
      ensures FixedOnly(d.names, old(s3.store), s3.store)
      ensures TracedFixed(d.names, s3.history, |old(s3.history)| - 1)
      ensures forall i :: |old(s3.history)| <= i < |s3.history| ==>
                CopyPoint(old(s3.store), Repaired(old(s3.store), d), s3.history[i])
    {
      ghost var s := s3.store;
      NothingToDelete(s, d, expected);
      RepairPlan(s, d, desired);
      hide CopyPoint, Accepts, FailedAttempts, Snapshot, Quiet, RestoredAll, Mirror, FixedOnly, TracedFixed, Wanted,
           FixedState, Repaired, Fetches, LastFailed;
      var names := d.names + expected;
      if names == {} {
        return Ok(Recovery(Some(d.cycleId), true));
      }
      var current := FetchFixed(names);
      if current.Err? {
        return Err(current.error);
      }
      if current.value == desired {
        return Ok(Recovery(Some(d.cycleId), true));
      }
      r := Rewrite(d, names, desired, current.value);
    }

    /** The two loops of a repair. */
    method Rewrite(d: PointerDoc, names: set<string>, desired: map<string, Option<Obj>>,
                   current: map<string, Option<Obj>>)
      returns (r: Result<Recovery, S3Error>)
      requires s3.Valid() && Present(s3.store, d) && desired == Wanted(Snapshot(s3.store, d)) && !Quiet(s3.store, d)
      requires names == d.names == current.Keys
      modifies s3
      ensures s3.Valid() && old(s3.history) <= s3.history && old(s3.sent) <= s3.sent && s3.faults >= old(s3.faults)
      ensures r.Ok? ==> s3.store == Repaired(old(s3.store), d) && r.value == Recovery(Some(d.cycleId), true)
      ensures r.Err? ==> s3.faults > old(s3.faults)
      ensures s3.deleteCalls == old(s3.deleteCalls)
      ensures FixedOnly(d.names, old(s3.store), s3.store)
      ensures TracedFixed(d.names, s3.history, |old(s3.history)| - 1)
      ensures forall i :: |old(s3.history)| <= i < |s3.history| ==>
                CopyPoint(old(s3.store), Repaired(old(s3.store), d), s3.history[i])
    {
      ghost var s := s3.store;
      RepairPlan(s, d, desired);
      hide CopyPoint, FailedAttempts, Snapshot, Quiet, RestoredAll, Mirror, FixedOnly, TracedFixed, Wanted, FixedState,
           Repaired;
      var present := map name | name in names && desired[name].Some? :: Restored(desired[name].value);
      assert present == RestoredAll(Snapshot(s, d));
      var up := UploadMap(present);
      if up.Err? {
        return Err(up.error);
      }
      var gone := DeleteSourceless(names, desired, current);
      r := if gone.Ok? then Ok(Recovery(Some(d.cycleId), true)) else Err(gone.error);
    }

    /** The last loop of a recovery (src/publish.py:459-461). */
    method DeleteSourceless(names: set<string>, desired: map<string, Option<Obj>>, current: map<string, Option<Obj>>)
      returns (r: Result<(), S3Error>)
      requires s3.Valid() && names <= desired.Keys && names <= current.Keys
      modifies s3
      ensures s3.Valid() && old(s3.history) <= s3.history && old(s3.sent) <= s3.sent && s3.faults >= old(s3.faults)
      ensures r.Ok? ==> forall name :: name in names && desired[name].None? && current[name].Some? ==>
                Fixed(name) !in s3.store
      ensures r.Err? ==> s3.faults > old(s3.faults)
      ensures FixedOnly(set name | name in names && desired[name].None?, old(s3.store), s3.store)
      ensures (forall name :: name in names ==> desired[name].Some?) ==>
                r.Ok? && s3.store == old(s3.store) && s3.history == old(s3.history)
                && s3.putCalls == old(s3.putCalls) && s3.deleteCalls == old(s3.deleteCalls)
    {
      hide FailedAttempts;
      ghost var mid := s3.store;
      var missing := set name | name in names && desired[name].None?;
      var order := OrderNames(missing);
      assert forall j :: 0 <= j < |order| ==> order[j] in Elements(order);
      for i := 0 to |order|
        invariant s3.Valid() && old(s3.history) <= s3.history && old(s3.sent) <= s3.sent && s3.faults >= old(s3.faults)
        invariant FixedOnly(missing, mid, s3.store)
        invariant forall j :: 0 <= j < |order| ==> order[j] in missing
        invariant forall j :: 0 <= j < i && current[order[j]].Some? ==> Fixed(order[j]) !in s3.store
        invariant missing == {} ==>
                    s3.store == old(s3.store) && s3.history == old(s3.history)
                    && s3.putCalls == old(s3.putCalls) && s3.deleteCalls == old(s3.deleteCalls)
      {
        assert order[i] in Elements(order);
        if current[order[i]].Some? {
          ghost var before := s3.store;
          r := s3.Remove(Fixed(order[i]));
          RemovalIsFixedOnly(before, s3.store, order[i], missing, mid);
          if r.Err? {
            return;
          }
        }
      }
      forall name | name in missing && current[name].Some? ensures Fixed(name) !in s3.store {
        assert name in Elements(order);
      }
      r := Ok(());
    }

    /** `recover_publication`, under the reentrant lock. */
    method RecoverPublication(expected: set<string>) returns (r: Result<Option<string>, S3Error>)
      requires s3.Valid()
      modifies s3, this`lockDepth
      ensures s3.Valid() && old(s3.history) <= s3.history && old(s3.sent) <= s3.sent && s3.faults >= old(s3.faults)
      ensures lockDepth == old(lockDepth)
      ensures r.Ok? ==> s3.store == RecoverSpec(old(s3.store), expected)
      ensures r.Ok? ==> r.value == (if Trusted(old(s3.store), expected)
                                    then Some(PointerDocOf(old(s3.store)).value.cycleId) else None)
      ensures r.Err? ==> s3.faults > old(s3.faults)
      ensures s3.deleteCalls == old(s3.deleteCalls)
      ensures FixedOnly(RecoverNames(old(s3.store), expected), old(s3.store), s3.store)
      ensures TracedFixed(RecoverNames(old(s3.store), expected), s3.history, |old(s3.history)| - 1)
      ensures forall i :: |old(s3.history)| <= i < |s3.history| ==>
                CopyPoint(old(s3.store), RecoverSpec(old(s3.store), expected), s3.history[i])
    {
      hide FailedAttempts;
      lockDepth := lockDepth + 1;
      var recovery := Reconcile(expected);
      lockDepth := lockDepth - 1;
      r := match recovery case Ok(v) => Ok(v.cycleId) case Err(e) => Err(e);
    }

    /** `_restore_fixed_snapshot` */
    method RestoreSnapshot(snapshot: map<string, Option<Obj>>) returns (r: Result<(), S3Error>)
      requires s3.Valid()
      modifies s3
      ensures s3.Valid() && old(s3.history) <= s3.history && old(s3.sent) <= s3.sent && s3.faults >= old(s3.faults)
      ensures r.Ok? ==> RestoredFrom(snapshot, old(s3.store), s3.store)
      ensures r.Err? ==> s3.faults > old(s3.faults)
      ensures FixedOnly(snapshot.Keys, old(s3.store), s3.store)
      ensures TracedFixed(snapshot.Keys, s3.history, |old(s3.history)| - 1)
      ensures forall i :: |old(s3.history)| <= i < |s3.history| ==>
                UndoPoint(old(s3.store), PresentIn(snapshot), snapshot.Keys - PresentIn(snapshot).Keys, s3.history[i])
    {
      hide UndoPoint, CopyPoint, DeletePoint, Mirror, FailedAttempts;
      ghost var s, lo := s3.store, |s3.history| - 1;
      var present := PresentIn(snapshot);
      ghost var gone := snapshot.Keys - present.Keys;
      r := UploadMap(present);
      UndoJoins(s, present, gone, s3.history, s3.history, lo + 1);
      WidenFixedTrace(present.Keys, snapshot.Keys, s3.history, lo);
      WidenFixed(present.Keys, snapshot.Keys, s, s3.store);
      if r.Err? {
        return;
      }
      ghost var mid := s3.store;
      ghost var h := s3.history;
      var absent := snapshot.Keys - present.Keys;
      r := DeleteFixed(absent);
      UndoJoins(s, present, gone, h, s3.history, lo + 1);
      WidenFixedTrace(absent, snapshot.Keys, s3.history, |h| - 1);
      JoinFixedTraces(snapshot.Keys, h, s3.history, lo);
      FixedOnlyComposes(present.Keys, absent, snapshot.Keys, s, mid, s3.store);
      if r.Ok? {
        SnapshotIsRestored(snapshot, present, absent, s, mid, s3.store);
      }
    }

    /** The deleting half: keys that did not exist before the publication. */
    method DeleteFixed(absent: set<string>) returns (r: Result<(), S3Error>)
      requires s3.Valid()
      modifies s3
      ensures s3.Valid() && old(s3.history) <= s3.history && old(s3.sent) <= s3.sent && s3.faults >= old(s3.faults)
      ensures r.Ok? ==> forall name :: name in absent ==> Fixed(name) !in s3.store
      ensures r.Err? ==> s3.faults > old(s3.faults)
      ensures FixedOnly(absent, old(s3.store), s3.store)
      ensures TracedFixed(absent, s3.history, |old(s3.history)| - 1)
      ensures forall i :: |old(s3.history)| <= i < |s3.history| ==> DeletePoint(old(s3.store), absent, s3.history[i])
    {
      hide DeletePoint, FailedAttempts;
      ghost var mid, lo := s3.store, |s3.history| - 1;
      NothingDeleted(mid, absent);
      var gone := OrderNames(absent);
      for i := 0 to |gone|
        invariant s3.Valid() && old(s3.history) <= s3.history && old(s3.sent) <= s3.sent && s3.faults >= old(s3.faults)
        invariant TracedFixed(absent, s3.history, lo)
        invariant FixedOnly(absent, mid, s3.store)
        invariant DeletePoint(mid, absent, s3.store)
        invariant forall j :: lo + 1 <= j < |s3.history| ==> DeletePoint(mid, absent, s3.history[j])
        invariant forall j :: 0 <= j < i ==> Fixed(gone[j]) !in s3.store
      {
        assert gone[i] in Elements(gone);
        var found := s3.Fetch(Fixed(gone[i]));
        if found.Err? {
          return Err(found.error);
        }
        if found.value.Some? {
          ghost var before, h := s3.store, s3.history;
          r := s3.Remove(Fixed(gone[i]));
          RemovalIsFixedOnly(before, s3.store, gone[i], absent, mid);
          DeletingOneMore(mid, absent, h, lo + 1, gone[i], s3.store);
          ExtendFixedTrace(absent, h, s3.store, lo);
          if r.Err? {
            return;
          }
        }
      }
      forall name | name in absent ensures Fixed(name) !in s3.store {
        assert name in Elements(gone);
      }
      r := Ok(());
    }

    /** `upload_immutable_bytes` for every payload, in the caller's order. */
    method Stage(c: CycleCall, ghost b: Store, ghost lo: nat) returns (r: Result<(), S3Error>)
      requires s3.Valid() && DistinctNames(c.payloads)
      requires c.cycleId !in LiveIds(s3.store) && c.cycleId !in LiveIds(b)
      modifies s3
      ensures s3.Valid() && old(s3.history) <= s3.history && old(s3.sent) <= s3.sent && s3.faults >= old(s3.faults)
      ensures r.Ok? ==> s3.store == old(s3.store) + StagedAt(c.cycleId, Objects(c.payloads))
      ensures r.Err? ==> s3.faults > old(s3.faults)
      ensures exists j :: 0 <= j <= |c.payloads| && s3.store == AfterStaging(old(s3.store), c, j)
      ensures SameAt(b, old(s3.store), CURRENT_KEY) && Traced(c, b, old(s3.history), lo) ==>
                Traced(c, b, s3.history, lo)
      ensures FrozenSince(old(s3.store), s3.history, |old(s3.history)|)
    {
      hide Traced, AfterStaging, LiveIds, Objects, FrozenSince, FailedAttempts;
      ghost var s := s3.store;
      NothingMoved(s, s3.history);
      StagingEnds(s, c);
      for i := 0 to |c.payloads|
        invariant s3.Valid() && old(s3.history) <= s3.history && old(s3.sent) <= s3.sent && s3.faults >= old(s3.faults)
        invariant s3.store == AfterStaging(s, c, i)
        invariant SameAt(b, s, CURRENT_KEY) && Traced(c, b, old(s3.history), lo) ==> Traced(c, b, s3.history, lo)
        invariant FrozenSince(s, s3.history, |old(s3.history)|) && forall name :: SameAt(s, s3.store, Fixed(name))
      {
        var p := c.payloads[i];
        ghost var h, now := s3.history, s3.store;
        OneStaging(s, c, i);
        assert h[|h| - 1] == now == AfterStaging(s, c, i);
        ghost var rounds;
        r, rounds := s3.UploadImmutable(CycleObj(c.cycleId, p.name), Obj(p.data, p.contentType));
        assert s3.store == now || s3.store == now[CycleObj(c.cycleId, p.name) := Obj(p.data, p.contentType)];
        CycleKeysAreNotFixed(now, CycleObj(c.cycleId, p.name), Obj(p.data, p.contentType));
        assert forall name :: SameAt(s, s3.store, Fixed(name));
        ExtendFrozen(s, h, |old(s3.history)|, s3.store);
        if SameAt(b, s, CURRENT_KEY) && Traced(c, b, old(s3.history), lo) {
          ExtendStagingTrace(c, b, s, h, lo, i, s3.store);
        }
        if r.Err? {
          return;
        }
      }
      r := Ok(());
    }

    /** `_recover_after_failure`; false is the logged failure of the rollback itself. */
    method RecoverAfterFailure(snapshot: Option<map<string, Option<Obj>>>) returns (restored: bool)
      requires s3.Valid()
      modifies s3, this`lockDepth
      ensures s3.Valid() && old(s3.history) <= s3.history && old(s3.sent) <= s3.sent && s3.faults >= old(s3.faults)
      ensures lockDepth == old(lockDepth)
      ensures restored && snapshot.Some? ==> RestoredFrom(snapshot.value, old(s3.store), s3.store)
      ensures restored && snapshot.None? ==> s3.store == RecoverSpec(old(s3.store), DEFAULT_FIXED_NAMES)
      ensures !restored ==> s3.faults > old(s3.faults)
      ensures FixedOnly(RollbackNames(snapshot, old(s3.store)), old(s3.store), s3.store)
      ensures TracedFixed(RollbackNames(snapshot, old(s3.store)), s3.history, |old(s3.history)| - 1)
      ensures forall i :: |old(s3.history)| <= i < |s3.history| ==>
                match snapshot
                case Some(m) => UndoPoint(old(s3.store), PresentIn(m), m.Keys - PresentIn(m).Keys, s3.history[i])
                case None => CopyPoint(old(s3.store), RecoverSpec(old(s3.store), DEFAULT_FIXED_NAMES), s3.history[i])
    {
      hide UndoPoint, CopyPoint, FailedAttempts;
      if snapshot.Some? {
        var r := RestoreSnapshot(snapshot.value);
        restored := r.Ok?;
      } else {
        var r := RecoverPublication(DEFAULT_FIXED_NAMES);
        restored := r.Ok?;
      }
    }

    /** Delete every object of one cycle. */
    method DeleteCycle(cid: string, c: CycleCall, ghost b: Store, ghost lo: nat) returns (ok: bool)
      requires s3.Valid()
      requires IsCycleId(cid) && cid != c.cycleId && |Newer(s3.store, cid, c.cycleId)| >= Max(0, c.retention - 1)
      modifies s3
      ensures s3.Valid() && old(s3.history) <= s3.history && old(s3.sent) <= s3.sent && s3.faults >= old(s3.faults)
      ensures Dropped({cid}, old(s3.store), s3.store)
      ensures ok ==> cid !in LiveIds(s3.store)
      // it stops at the first request that fails for good, and reports nothing else
      ensures !ok ==> s3.faults > old(s3.faults) && LastFailed(s3.sent, |old(s3.sent)|)
      ensures forall i :: |old(s3.sent)| <= i < |s3.sent| ==> Concerns(s3.sent[i].req, cid)
      ensures Prunable(c, b, old(s3.store), old(s3.history), lo) ==> Prunable(c, b, s3.store, s3.history, lo)
      ensures FrozenSince(old(s3.store), s3.history, |old(s3.history)|)
    {
      hide Prunable, Dropped, Newer, IsCycleId, FrozenSince, FailedAttempts;
      ghost var s := s3.store;
      NothingMoved(s, s3.history);
      NothingDropped({cid}, s);
      var keys := s3.ListCycleKeys(cid);
      if keys.Err? {
        return false;
      }
      for i := 0 to |keys.value|
        invariant s3.Valid() && old(s3.history) <= s3.history && old(s3.sent) <= s3.sent && s3.faults >= old(s3.faults)
        invariant Dropped({cid}, s, s3.store)
        invariant forall j :: |old(s3.sent)| <= j < |s3.sent| ==> Concerns(s3.sent[j].req, cid)
        invariant forall j :: 0 <= j < i ==> keys.value[j] !in s3.store
        invariant Prunable(c, b, s, old(s3.history), lo) ==> Prunable(c, b, s3.store, s3.history, lo)
        invariant FrozenSince(s, s3.history, |old(s3.history)|) && forall name :: SameAt(s, s3.store, Fixed(name))
      {
        var k := keys.value[i];
        assert k in Elements(keys.value);
        ghost var now, h := s3.store, s3.history;
        var gone := s3.Remove(k);
        CycleKeysAreNotFixed(now, k, Obj(Opaque(0), ""));
        assert forall name :: SameAt(s, s3.store, Fixed(name));
        ExtendFrozen(s, h, |old(s3.history)|, s3.store);
        DeleteStep(c, b, s, now, h, lo, cid, k, s3.store);
        if gone.Err? {
          return false;
        }
      }
      NothingLeft(s, s3.store, cid, keys.value);
      ok := true;
    }

    /** `_prune`: best effort, and exact when nothing failed. */
    method Prune(c: CycleCall, ghost b: Store, ghost lo: nat) returns (report: PruneReport)
      requires s3.Valid()
      modifies s3
      ensures s3.Valid() && old(s3.history) <= s3.history && old(s3.sent) <= s3.sent && s3.faults >= old(s3.faults)
      ensures Dropped(Doomed(old(s3.store), c.cycleId, c.retention), old(s3.store), s3.store)
      ensures report.outcome.Succeeded? ==>
                report.failedIds == [] && s3.store == PruneSpec(old(s3.store), c.cycleId, c.retention)
      ensures report.outcome.Failed? ==>
                report.failedIds != [] && s3.faults > old(s3.faults) && PruneRequestFailed(s3.sent, |old(s3.sent)|)
      // the listing failed and nothing was touched, or every doomed id was tried on its own account
      ensures || (report.failedIds == [c.cycleId] && s3.store == old(s3.store) && s3.sent[|s3.sent| - 1].req.ListCycles?
                  && LastFailed(s3.sent, |old(s3.sent)|))
              || (&& (forall id :: id in Doomed(old(s3.store), c.cycleId, c.retention) ==>
                                     id in report.failedIds || id !in LiveIds(s3.store))
                  && (forall id :: id in report.failedIds ==>
                                     && id in Doomed(old(s3.store), c.cycleId, c.retention)
                                     && CycleRequestFailed(s3.sent, |old(s3.sent)|, id)))
      ensures Prunable(c, b, old(s3.store), old(s3.history), lo) ==> Prunable(c, b, s3.store, s3.history, lo)
      ensures FrozenSince(old(s3.store), s3.history, |old(s3.history)|)
    {
      hide Prunable, Dropped, Newer, IsCycleId, Doomed, DoomedOf, PruneSpec, LiveIds, FrozenSince, FailedAttempts,
           CycleRequestFailed, PruneRequestFailed;
      ghost var s := s3.store;
      NothingMoved(s, s3.history);
      NothingDropped(Doomed(s, c.cycleId, c.retention), s);
      NothingDropped({}, s);
      var listed := s3.ListCycleIds();
      if listed.Err? {
        ListingFailed(s3.sent, |old(s3.sent)|, listed.error);
        return PruneReport(Failed, [c.cycleId]);
      }
      var doomed := DoomedOf(listed.value, c.cycleId, c.retention);
      SliceIsRankRule(s, listed.value, c.cycleId, c.retention);
      var failed: seq<string> := [];
      assert Elements(doomed[..0]) == {};
      for i := 0 to |doomed|
        invariant s3.Valid() && old(s3.history) <= s3.history && old(s3.sent) <= s3.sent && s3.faults >= old(s3.faults)
        invariant Dropped(Elements(doomed[..i]), s, s3.store)
        invariant forall j :: 0 <= j < i ==> doomed[j] in failed || doomed[j] !in LiveIds(s3.store)
        invariant failed != [] ==> s3.faults > old(s3.faults)
        invariant forall id :: id in failed ==> id in doomed && CycleRequestFailed(s3.sent, |old(s3.sent)|, id)
        invariant Prunable(c, b, s, old(s3.history), lo) ==> Prunable(c, b, s3.store, s3.history, lo)
        invariant FrozenSince(s, s3.history, |old(s3.history)|) && forall name :: SameAt(s, s3.store, Fixed(name))
      {
        ghost var now, h, log := s3.store, s3.history, s3.sent;
        DoomedStayOutranked(s, now, listed.value, c.cycleId, c.retention, i);
        var ok := DeleteCycle(doomed[i], c, b, lo);
        FrozenComposes(s, now, h, |old(s3.history)|, s3.history);
        assert Elements(doomed[..i + 1]) == Elements(doomed[..i]) + {doomed[i]};
        DropsCompose(Elements(doomed[..i]), {doomed[i]}, s, now, s3.store);
        GoneStaysGone({doomed[i]}, now, s3.store);
        FailuresStay(log, s3.sent, |old(s3.sent)|, failed);
        if !ok {
          DeletionFailed(s3.sent, |old(s3.sent)|, |log|, doomed[i]);
          failed := failed + [doomed[i]];
        }
      }
      assert doomed[..|doomed|] == doomed;
      forall id | id in Doomed(s, c.cycleId, c.retention)
        ensures id in failed || id !in LiveIds(s3.store)
      {
        assert id in Elements(doomed);
        var j :| 0 <= j < |doomed| && doomed[j] == id;
      }
      forall id | id in failed ensures id in Doomed(s, c.cycleId, c.retention) {
        assert id in Elements(doomed);
      }
      if failed != [] {
        assert failed[0] in failed;
        FailedCycleFails(s3.sent, |old(s3.sent)|, failed[0]);
      }
      if failed == [] {
        PruneIsDone(s, s3.store, c.cycleId, c.retention);
      }
      report := PruneReport(if failed == [] then Succeeded else Failed, failed);
    }

    /** `_record_prune_health` */
    method RecordPruneHealth(keep: string, report: PruneReport)
      modifies this`pruneHealth, this`prunings
      ensures prunings == old(prunings) + [Pruning(keep, report.outcome)]
      ensures pruneHealth.lastOutcome == Some(report.outcome)
      ensures Reflects(old(pruneHealth), old(prunings)) ==> Reflects(pruneHealth, prunings)
    {
      if Reflects(pruneHealth, prunings) {
        RecordingReflects(pruneHealth, prunings, Pruning(keep, report.outcome));
      }
      if report.outcome.Failed? {
        pruneHealth := PruneHealth(Some(Failed), pruneHealth.failuresTotal + 1,
                                   pruneHealth.consecutiveFailures + 1, Some(keep));
      } else {
        pruneHealth := pruneHealth.(lastOutcome := Some(Succeeded), consecutiveFailures := 0);
      }
      prunings := prunings + [Pruning(keep, report.outcome)];
    }

    /** The failure handler of the mirror and commit phases. */
    method RollBack(c: CycleCall, snapshot: Option<map<string, Option<Obj>>>, ghost b: Store, ghost lo: nat)
      returns (rollback: Rollback)
      requires s3.Valid() && ValidCall(c) && FailurePoint(c, b, s3.store)
      requires snapshot == if Trusted(b, CallNames(c)) then None else Some(FixedState(b, CallNames(c)))
      modifies s3, this`lockDepth
      ensures s3.Valid() && old(s3.history) <= s3.history && old(s3.sent) <= s3.sent && s3.faults >= old(s3.faults)
      ensures lockDepth == old(lockDepth) && rollback != NotNeeded
      ensures rollback == Incomplete ==> RequestFailed(s3.sent, |old(s3.sent)|)
      ensures KeepsCycles(old(s3.store), s3.store)
      ensures rollback.RestoredAllKeys? && !Trusted(b, CallNames(c)) ==> BackAtSnapshot(c, b, s3.store)
      ensures rollback.RestoredAllKeys? && Trusted(b, CallNames(c)) && Clean(c) && CallNames(c) == DEFAULT_FIXED_NAMES
              ==> FixedMatchesPointer(s3.store)
      ensures Clean(c) ==> SameAt(old(s3.store), s3.store, CURRENT_KEY)
      ensures Clean(c) && Traced(c, b, old(s3.history), lo) ==> Traced(c, b, s3.history, lo)
      // a reader of the fixed keys is served while data goes back
      ensures Clean(c) && UndoServes(c, b, old(s3.store)) ==> ServedSince(c, b, s3.history, |old(s3.history)|)
    {
      hide Traced, TracedFixed, FailurePoint, KeepsCycles, BackAtSnapshot, Trusted, FixedMatchesPointer, FixedOnly,
           RestoredFrom, RollbackNames, UndoServes, ServedSince, UndoPoint, CopyPoint, RecoverSpec, PresentIn,
           FailedAttempts, RequestFailed;
      ghost var s, h := s3.store, s3.history;
      ghost var names := RollbackNames(snapshot, s);
      var restored := RecoverAfterFailure(snapshot);
      FixedOnlyKeepsCycles(names, s, s3.store);
      if Clean(c) {
        RollbackNamesAreOurs(c, b, s, snapshot);
        assert SameAt(s, s3.store, CURRENT_KEY);
        if Traced(c, b, h, lo) {
          FixedTraceJoins(c, b, names, h, s3.history, lo);
        }
        if Trusted(b, CallNames(c)) && CallNames(c) == DEFAULT_FIXED_NAMES {
          RollbackMatchesPointer(c, b, s);
        }
        if UndoServes(c, b, s) {
          UndoIsServed(c, b, s, snapshot, s3.history, |h|);
        }
      }
      if restored && snapshot.Some? {
        SnapshotMeansBack(c, b, s, s3.store);
      }
      FaultsAreFailures(old(s3.sent), s3.sent);
      rollback := if restored then RestoredAllKeys else Incomplete;
    }

    /** Steps 4 to 6: mirror, commit, prune; roll back on failure. */
    method MirrorAndCommit(c: CycleCall, trusted: bool, snapshot: Option<map<string, Option<Obj>>>, ghost b: Store,
                           ghost lo: nat)
      returns (r: Result<(), PublishError>, rollback: Rollback, ghost calm: seq<Store>)
      requires s3.Valid() && Precheck(c) == None && c.cycleId !in LiveIds(b)
      requires AllStaged(c, s3.store) && KeepsCycles(b, s3.store) && (Clean(c) ==> SameAt(b, s3.store, CURRENT_KEY))
      requires trusted == Trusted(b, CallNames(c))
      requires snapshot == if trusted then None else Some(FixedState(b, CallNames(c)))
      modifies s3, this`lockDepth, this`pruneHealth, this`prunings
      ensures s3.Valid() && old(s3.history) <= s3.history && old(s3.sent) <= s3.sent && s3.faults >= old(s3.faults)
      ensures lockDepth == old(lockDepth)
      ensures r.Err? ==> s3.faults > old(s3.faults) && (r.error == MirrorFailed || r.error == PointerFailed)
      ensures r.Ok? <==> rollback == NotNeeded
      ensures r.Ok? && !trusted ==> PublishedAs(c, Target(old(s3.store), c), s3.store)
      ensures r.Ok? && trusted && Clean(c) ==> PrunedTarget(c, Target(old(s3.store), c), s3.store, pruneHealth)
      ensures r.Ok? && trusted && s3.faults == old(s3.faults) ==> pruneHealth.lastOutcome == Some(Succeeded)
      ensures Blames(c, trusted, r, pruneHealth, s3.sent, |old(s3.sent)|)
      ensures old(s3.history) <= calm <= s3.history && (r.Ok? ==> calm == s3.history)
      ensures Clean(c) ==> MetaLastSince(c, old(s3.store), calm, |old(s3.history)|)
      ensures Clean(c) && UndoServes(c, b, calm[|calm| - 1]) ==> ServedSince(c, b, s3.history, |calm|)
      ensures r.Err? ==> KeepsCycles(old(s3.store), s3.store)
      ensures Reflects(old(pruneHealth), old(prunings)) ==> Reflects(pruneHealth, prunings)
      ensures PruningKept(old(prunings), prunings, old(pruneHealth), pruneHealth, c.cycleId, r.Ok? && trusted)
      ensures rollback.RestoredAllKeys? && !trusted ==> BackAtSnapshot(c, b, s3.store)
      ensures rollback.RestoredAllKeys? && trusted && Clean(c) && CallNames(c) == DEFAULT_FIXED_NAMES
              ==> FixedMatchesPointer(s3.store)
      ensures r.Err? && Clean(c) ==>
                || SameAt(old(s3.store), s3.store, CURRENT_KEY)
                || (r.error == PointerFailed && Lookup(s3.store, CURRENT_KEY) == Some(CommitObj(c)))
      ensures Clean(c) && Traced(c, b, old(s3.history), lo) ==> Traced(c, b, s3.history, lo)
    {
      hide Traced, Prunable, FailurePoint, AllStaged, KeepsCycles, BackAtSnapshot, Trusted, FixedMatchesPointer,
           Precheck, FixedOnly, Dropped, Doomed, PruneSpec, Mirrored, LiveIds, MetaAnnounces, PublishedAs, Mirror,
           Objects, CommitObj, FixedState, ValidCall, Reflects, MetaLastSince, FrozenSince, UndoServes, ServedSince,
           FailedAttempts, CommitLog, UploadOf, UploadFailed, CommitFailed, PruneRequestFailed, CycleRequestFailed,
           RequestFailed;
      ghost var t, from := s3.store, |s3.history|;
      PrecheckedCallIsValid(c);
      MetaLastReorders(c.payloads);
      ghost var ups, put, look;
      r, rollback, calm, ups := MirrorPhase(c, snapshot, b, lo);
      if r.Err? {
        MirrorBlamed(c, old(s3.sent), ups, s3.sent);
        return;
      }
      ghost var mirrored := s3.history;
      ghost var log := s3.sent;
      r, rollback, calm, put, look := CommitPhase(c, snapshot, b, t, lo);
      ghost var h := calm;
      if Clean(c) {
        NothingMoved(h[|h| - 1], h);
        MetaStaysLast(c, t, from, mirrored, h, h);
      }
      if r.Err? {
        CommitBlamed(c, h[|h| - 1], log, put, look, s3.sent);
        BlamesEarlier(c, trusted, r, pruneHealth, s3.sent, |old(s3.sent)|, |log|);
        return;
      }
      if !trusted {
        return;
      }
      ghost var sent := s3.sent;
      var report := Prune(c, b, lo);
      if report.outcome.Failed? {
        PruningBlamed(s3.sent, |old(s3.sent)|, |sent|);
      }
      calm := s3.history;
      NothingServed(c, b, calm);
      RecordPruneHealth(c.cycleId, report);
      if Clean(c) {
        PruningStaysTraced(c, b, t, h, s3.store, s3.history, lo);
        MetaStaysLast(c, t, from, mirrored, h, s3.history);
      }
    }

    /** Step 5: one pointer PUT, resolved by a GET when its response is an error. */
    method CommitPhase(c: CycleCall, snapshot: Option<map<string, Option<Obj>>>, ghost b: Store, ghost t: Store,
                       ghost lo: nat)
      returns (r: Result<(), PublishError>, rollback: Rollback, ghost calm: seq<Store>,
               ghost put: seq<Attempt>, ghost look: seq<Attempt>)
      requires s3.Valid() && ValidCall(c) && c.cycleId !in LiveIds(b)
      requires FailurePoint(c, b, s3.store) && Mirrored(c, s3.store) && (Clean(c) ==> SameAt(b, s3.store, CURRENT_KEY))
      requires s3.store == t + Mirror(Objects(c.payloads)) && KeepsCycles(t, s3.store)
      requires snapshot == if Trusted(b, CallNames(c)) then None else Some(FixedState(b, CallNames(c)))
      modifies s3, this`lockDepth
      ensures s3.Valid() && old(s3.history) <= s3.history && old(s3.sent) <= s3.sent && s3.faults >= old(s3.faults)
      ensures lockDepth == old(lockDepth)
      ensures r.Err? ==> s3.faults > old(s3.faults) && r.error == PointerFailed
      ensures r.Ok? <==> rollback == NotNeeded
      ensures old(s3.history) <= calm <= s3.history && (r.Ok? ==> calm == s3.history)
      // a landed commit that is read back is a success
      ensures old(s3.sent) + put + look <= s3.sent && CommitLog(c, calm[|calm| - 1], put, look, r.Ok?)
      // otherwise a rollback is tried, and falls short only by a failure of its own
      ensures r.Ok? ==> s3.sent == old(s3.sent) + put + look
      ensures rollback == Incomplete ==> RequestFailed(s3.sent, |old(s3.sent)| + |put| + |look|)
      ensures r.Ok? ==> PublishedAs(c, Target(t, c), s3.store)
      ensures r.Ok? && Trusted(b, CallNames(c)) && Clean(c) ==> s3.store == Target(t, c)
      ensures Clean(c) ==> Mirrored(c, calm[|calm| - 1])
      ensures Clean(c) ==> forall i :: |old(s3.history)| <= i < |calm| ==> Mirrored(c, calm[i])
      ensures Clean(c) && UndoServes(c, b, calm[|calm| - 1]) ==> ServedSince(c, b, s3.history, |calm|)
      ensures r.Err? ==> KeepsCycles(t, s3.store)
      ensures rollback.RestoredAllKeys? && !Trusted(b, CallNames(c)) ==> BackAtSnapshot(c, b, s3.store)
      ensures rollback.RestoredAllKeys? && Trusted(b, CallNames(c)) && Clean(c) && CallNames(c) == DEFAULT_FIXED_NAMES
              ==> FixedMatchesPointer(s3.store)
      ensures r.Err? && Clean(c) ==>
                SameAt(old(s3.store), s3.store, CURRENT_KEY) || Lookup(s3.store, CURRENT_KEY) == Some(CommitObj(c))
      ensures Clean(c) && Traced(c, b, old(s3.history), lo) ==> Traced(c, b, s3.history, lo)
    {
      hide Traced, FailurePoint, AllStaged, KeepsCycles, BackAtSnapshot, Trusted, FixedMatchesPointer, Mirrored,
           LiveIds, PublishedAs, CommitObj, Mirror, Objects, ValidCall, FixedState, UndoServes, ServedSince,
           FailedAttempts, RequestFailed, CommitLog, Extend;
      ghost var mirrored, h := s3.store, s3.history;
      var landed;
      landed, put, look := PutCommit(c);
      calm := s3.history;
      ghost var now, log := s3.store, s3.sent;
      CommitPoint(c, b, mirrored, now);
      if Clean(c) {
        CommitStaysMirrored(c, mirrored, h, now);
      }
      CommitKeepsCycles(c, mirrored, now);
      KeepsCyclesComposes(t, mirrored, now);
      if Traced(c, b, h, lo) {
        CommitExtendsTrace(c, b, mirrored, h, lo, now);
      }
      if !landed {
        rollback := RollBack(c, snapshot, b, lo);
        KeepsCyclesComposes(t, now, s3.store);
        return Err(PointerFailed), rollback, calm, put, look;
      }
      LandedMeansPublished(c, t, now);
      if Trusted(b, CallNames(c)) && Clean(c) {
        ReadBackMeansLanded(c, b, mirrored, now);
      }
      NothingServed(c, b, s3.history);
      r, rollback := Ok(()), NotNeeded;
    }

    /** The pointer PUT, and the GET that resolves it; says whether the commit is in place. */
    method PutCommit(c: CycleCall) returns (landed: bool, ghost put: seq<Attempt>, ghost look: seq<Attempt>)
      requires s3.Valid()
      modifies s3
      ensures s3.Valid() && s3.history == Extend(old(s3.history), s3.store) && s3.faults >= old(s3.faults)
      ensures s3.store == old(s3.store) || s3.store == old(s3.store)[CURRENT_KEY := CommitObj(c)]
      ensures landed ==> CURRENT_KEY in s3.store && s3.store[CURRENT_KEY].data == CommitObj(c).data
      ensures !landed ==> s3.faults > old(s3.faults)
      ensures s3.sent == old(s3.sent) + put + look && CommitLog(c, s3.store, put, look, landed)
    {
      hide CommitObj, FailedAttempts;
      var up := s3.Upload(CURRENT_KEY, CommitObj(c));
      put, look := s3.sent[|old(s3.sent)|..], [];
      assert s3.sent == old(s3.sent) + put + look;
      if up.Ok? {
        return true, put, look;
      }
      ghost var log := s3.sent;
      var got := s3.Fetch(CURRENT_KEY);
      look := s3.sent[|log|..];
      assert s3.sent == old(s3.sent) + put + look;
      landed := got.Ok? && got.value.Some? && got.value.value.data == CommitObj(c).data;
    }

    /** Step 4: the fixed keys, meta.json always last. */
    method MirrorPhase(c: CycleCall, snapshot: Option<map<string, Option<Obj>>>, ghost b: Store, ghost lo: nat)
      returns (r: Result<(), PublishError>, rollback: Rollback, ghost calm: seq<Store>, ghost ups: seq<Attempt>)
      requires s3.Valid() && Precheck(c) == None
      requires AllStaged(c, s3.store) && KeepsCycles(b, s3.store) && (Clean(c) ==> SameAt(b, s3.store, CURRENT_KEY))
      requires snapshot == if Trusted(b, CallNames(c)) then None else Some(FixedState(b, CallNames(c)))
      modifies s3, this`lockDepth
      ensures s3.Valid() && old(s3.history) <= s3.history && old(s3.sent) <= s3.sent && s3.faults >= old(s3.faults)
      ensures lockDepth == old(lockDepth)
      ensures r.Err? ==> s3.faults > old(s3.faults) && r.error == MirrorFailed
      ensures r.Ok? <==> rollback == NotNeeded
      // the uploads are sent until one fails; then a rollback is tried, and falls short only by a failure of its own
      ensures old(s3.sent) + ups <= s3.sent && Uploads(c.payloads, ups, 0)
      ensures if r.Ok? then s3.sent == old(s3.sent) + ups else LastFailed(ups, 0)
      ensures rollback == Incomplete ==> RequestFailed(s3.sent, |old(s3.sent)| + |ups|)
      ensures r.Ok? ==> s3.store == old(s3.store) + Mirror(Objects(c.payloads))
      ensures r.Ok? ==> FailurePoint(c, b, s3.store) && Mirrored(c, s3.store)
      ensures r.Ok? && Clean(c) ==> SameAt(b, s3.store, CURRENT_KEY)
      ensures r.Ok? ==> FixedOnly(CallNames(c), old(s3.store), s3.store)
      ensures old(s3.history) <= calm <= s3.history && (r.Ok? ==> calm == s3.history)
      ensures MetaLastSince(c, old(s3.store), calm, |old(s3.history)|)
      ensures Clean(c) && UndoServes(c, b, calm[|calm| - 1]) ==> ServedSince(c, b, s3.history, |calm|)
      ensures KeepsCycles(old(s3.store), s3.store)
      ensures rollback.RestoredAllKeys? && !Trusted(b, CallNames(c)) ==> BackAtSnapshot(c, b, s3.store)
      ensures rollback.RestoredAllKeys? && Trusted(b, CallNames(c)) && Clean(c) && CallNames(c) == DEFAULT_FIXED_NAMES
              ==> FixedMatchesPointer(s3.store)
      ensures Clean(c) ==> SameAt(old(s3.store), s3.store, CURRENT_KEY)
      ensures Clean(c) && Traced(c, b, old(s3.history), lo) ==> Traced(c, b, s3.history, lo)
    {
      hide Traced, TracedFixed, FailurePoint, AllStaged, KeepsCycles, BackAtSnapshot, Trusted, FixedMatchesPointer,
           MetaAnnounces, UploadPoint, Precheck, FixedOnly, UndoServes, ServedSince, MetaLastSince, Objects,
           UploadOf, FailedAttempts, RequestFailed;
      ghost var t, h := s3.store, s3.history;
      PrecheckedCallIsValid(c);
      MetaLastReorders(c.payloads);
      var items := MetaLast(c.payloads);
      var up := UploadAll(items);
      calm := s3.history;
      ups := s3.sent[|old(s3.sent)|..];
      ghost var log := s3.sent;
      assert log == old(s3.sent) + ups;
      SameUploads(c, log, |old(s3.sent)|);
      UploadsAlone(c, old(s3.sent), ups);
      UploadsLead(c, t, items, calm, |h|);
      UploadPointTouches(t, items, s3.store);
      MirrorPoint(c, b, t, s3.store);
      FixedOnlyKeepsCycles(CallNames(c), t, s3.store);
      if Clean(c) && Traced(c, b, h, lo) {
        FixedTraceJoins(c, b, CallNames(c), h, s3.history, lo);
      }
      if up.Err? {
        ghost var now := s3.store;
        rollback := RollBack(c, snapshot, b, lo);
        KeepsCyclesComposes(t, now, s3.store);
        return Err(MirrorFailed), rollback, calm, ups;
      }
      NothingServed(c, b, s3.history);
      MirroredByUpload(c, t);
      r, rollback := Ok(()), NotNeeded;
    }

    /** The first half of `_publish_cycle`: refuse, recover, snapshot, look for a collision. */
    method Prepare(c: CycleCall) returns (r: Result<Option<map<string, Option<Obj>>>, PublishError>)
      requires s3.Valid()
      modifies s3
      ensures s3.Valid() && old(s3.history) <= s3.history && old(s3.sent) <= s3.sent && s3.faults >= old(s3.faults)
      ensures r.Ok? ==>
                && Precheck(c) == None && c.cycleId !in LiveIds(old(s3.store))
                && s3.store == RecoverSpec(old(s3.store), CallNames(c))
                && r.value == if Trusted(old(s3.store), CallNames(c)) then None
                              else Some(FixedState(old(s3.store), CallNames(c)))
      ensures r.Err? ==> PublishOutcome(c, old(s3.store), s3.store, Err(r.error), NotNeeded, pruneHealth)
      ensures r.Err? && Precheck(c) == None ==>
                s3.faults > old(s3.faults) || (r.error == Collision && c.cycleId in LiveIds(old(s3.store)))
      ensures r.Err? ==> Blames(c, false, Err(r.error), pruneHealth, s3.sent, |old(s3.sent)|)
      // a refusal comes before the first request
      ensures Precheck(c).Some? ==> r == Err(Precheck(c).value) && s3.sent == old(s3.sent)
      ensures Clean(c) ==> Traced(c, old(s3.store), s3.history, |old(s3.history)| - 1)
      ensures LeadsSince(c, old(s3.store), s3.history, |old(s3.history)| - 1)
    {
      hide LeadsSince, CopyPoint;
      hide Precheck, Trusted, Traced, TracedFixed, FixedOnly, RecoverSpec, RecoverNames, AfterStaging, LiveIds,
           KeepsCycles, AllStaged, BackAtSnapshot, FixedMatchesPointer, PublishedAs, PrunedTarget, Objects,
           PublishSpec, FixedState, MetaAnnounces, ValidCall, FailedLate, FailedAttempts, RequestFailed, ProbeFailed,
           SnapshotGetFailed;
      ghost var b, lo := s3.store, |s3.history| - 1;
      NothingTraced(c, b, s3.history, lo);
      RecoveryLeads(c, b, s3.history, lo);
      var refusal := Precheck(c);
      if refusal.Some? {
        PrecheckErrors(c);
        return Err(refusal.value);
      }
      PrecheckedCallIsValid(c);
      var recovery := Reconcile(CallNames(c));
      RecoveryLeads(c, b, s3.history, lo);
      if Clean(c) {
        RecoveryIsTraced(c, b, s3.history, lo);
      }
      FaultsAreFailures(old(s3.sent), s3.sent);
      if recovery.Err? {
        return Err(RecoveryFailed);
      }
      RecoveredBucket(c, b, s3.store);
      ghost var log := |s3.sent|;
      r := LookBefore(c, recovery.value.pruneAllowed);
      if r.Err? {
        BlamesEarlier(c, false, Err(r.error), pruneHealth, s3.sent, |old(s3.sent)|, log);
      }
    }

    /** Between recovery and staging: the snapshot if there is no trusted cycle, and the collision check. */
    method LookBefore(c: CycleCall, trusted: bool) returns (r: Result<Option<map<string, Option<Obj>>>, PublishError>)
      requires s3.Valid()
      modifies s3
      ensures s3.Valid() && s3.store == old(s3.store) && s3.history == old(s3.history)
      ensures old(s3.sent) <= s3.sent && s3.faults >= old(s3.faults)
      ensures r.Ok? ==> c.cycleId !in LiveIds(s3.store)
      ensures r.Ok? ==> r.value == if trusted then None else Some(FixedState(s3.store, CallNames(c)))
      ensures r.Err? ==>
                || (r.error == Collision && c.cycleId in LiveIds(s3.store))
                || (r.error == CollisionCheckFailed && s3.faults > old(s3.faults))
                || (r.error == SnapshotFailed && !trusted && s3.faults > old(s3.faults))
      ensures r.Err? ==> Blames(c, false, Err(r.error), pruneHealth, s3.sent, |old(s3.sent)|)
    {
      hide LiveIds, CallNames, FixedState, FailedAttempts, ProbeFailed, SnapshotGetFailed;
      var snapshot: Option<map<string, Option<Obj>>> := None;
      if !trusted {
        var fetched := FetchFixed(CallNames(c));
        if fetched.Err? {
          SnapshotBlamed(c, s3.sent, |old(s3.sent)|);
          return Err(SnapshotFailed);
        }
        snapshot := Some(fetched.value);
      }
      ghost var asked := s3.sent;
      var taken := s3.CycleExists(c.cycleId);
      if taken.Err? {
        ProbeBlamed(c, asked, s3.sent, taken.error);
        BlamesEarlier(c, false, Err(CollisionCheckFailed), pruneHealth, s3.sent, |old(s3.sent)|, |asked|);
        return Err(CollisionCheckFailed);
      }
      if taken.value {
        return Err(Collision);
      }
      r := Ok(snapshot);
    }

    /** `_publish_cycle` */
    method Publish(c: CycleCall)
      returns (r: Result<(), PublishError>, rollback: Rollback, ghost calm: seq<Store>)
      requires s3.Valid()
      modifies s3, this`lockDepth, this`pruneHealth, this`prunings
      ensures s3.Valid() && old(s3.history) <= s3.history && old(s3.sent) <= s3.sent && s3.faults >= old(s3.faults)
      ensures lockDepth == old(lockDepth)
      ensures PublishOutcome(c, old(s3.store), s3.store, r, rollback, pruneHealth)
      // the health record describes every pruning, and there is one per success over a trusted pointer
      ensures Reflects(old(pruneHealth), old(prunings)) ==> Reflects(pruneHealth, prunings)
      ensures PruningKept(old(prunings), prunings, old(pruneHealth), pruneHealth, c.cycleId,
                          r.Ok? && Trusted(old(s3.store), CallNames(c)))
      // without faults exactly the retention rule is carried out; a pruning fails only by a request of its own
      ensures r.Ok? && Trusted(old(s3.store), CallNames(c)) && Clean(c) && s3.faults == old(s3.faults) ==>
                && s3.store == PruneSpec(PublishSpec(old(s3.store), c), c.cycleId, c.retention)
                && pruneHealth.lastOutcome == Some(Succeeded)
      ensures Blames(c, Trusted(old(s3.store), CallNames(c)), r, pruneHealth, s3.sent, |old(s3.sent)|)
      // a refusal comes before the first request
      ensures Precheck(c).Some? ==> r == Err(Precheck(c).value) && s3.sent == old(s3.sent)
      // without faults a well-formed call fails only because its id is taken
      ensures s3.faults == old(s3.faults) && Precheck(c) == None ==>
                if c.cycleId in LiveIds(old(s3.store)) then r == Err(Collision) else r.Ok?
      // every crash point keeps the guarantee
      ensures Clean(c) ==> Traced(c, old(s3.store), s3.history, |old(s3.history)| - 1)
      // calm ends where a rollback begins; until then a new meta.json comes with all the new objects
      ensures old(s3.history) <= calm <= s3.history && (rollback == NotNeeded ==> calm == s3.history)
      ensures Clean(c) ==> LeadsSince(c, old(s3.store), calm, |old(s3.history)| - 1)
      // and if it may begin there, during the rollback too
      ensures Clean(c) && (rollback == NotNeeded || UndoServes(c, old(s3.store), calm[|calm| - 1])) ==>
                ServedSince(c, old(s3.store), s3.history, |old(s3.history)| - 1)
    {
      hide Precheck, Trusted, Traced, RecoverSpec, AfterStaging, LiveIds, KeepsCycles, AllStaged, BackAtSnapshot,
           FixedMatchesPointer, PublishedAs, PrunedTarget, Objects, StagedAt, CommitObj, Target, PublishSpec,
           FixedState, ValidCall, Reflects, LeadsSince, FrozenSince, MetaLastSince, UndoServes, ServedSince,
           FailedAttempts, RequestFailed, UploadFailed, CommitFailed, ProbeFailed, SnapshotGetFailed,
           PruneRequestFailed, PruneSpec, CallNames, RecoverNames, FixedOnly;
      ghost var b, lo := s3.store, |s3.history| - 1;
      var prepared := Prepare(c);
      LeadingServesAll(c, b, s3.history, lo);
      if prepared.Err? {
        return Err(prepared.error), NotNeeded, s3.history;
      }
      PrecheckedCallIsValid(c);
      ghost var recovered := s3.store;
      RecoveredBucket(c, b, recovered);
      ghost var h1 := s3.history;
      var staged := Stage(c, b, lo);
      ghost var h2 := s3.history;
      StagingLeads(c, b, h1, h2, lo);
      LeadingServesAll(c, b, h2, lo);
      FaultsAreFailures(old(s3.sent), s3.sent);
      if staged.Err? {
        return Err(StagingFailed), NotNeeded, h2;
      }
      ghost var t, log := s3.store, |s3.sent|;
      StagedBucket(c, b, recovered, t);
      TargetIsPublished(c, b, t);
      r, rollback, calm := MirrorAndCommit(c, prepared.value.None?, prepared.value, b, lo);
      BlamesEarlier(c, Trusted(b, CallNames(c)), r, pruneHealth, s3.sent, |old(s3.sent)|, log);
      if r.Err? {
        KeepsCyclesComposes(b, t, s3.store);
        StagedKept(c, t, s3.store);
      }
      if r.Ok? && Trusted(b, CallNames(c)) && Clean(c) && pruneHealth.lastOutcome == Some(Succeeded) {
        PrunedWithoutFault(c, Target(t, c), s3.store, pruneHealth);
      }
      if Clean(c) {
        ServedThroughout(c, b, h1, h2, calm, s3.history, lo);
      }
    }

    /** `publish_cycle`: the whole call under the reentrant lock. */
    method PublishCycle(c: CycleCall)
      returns (r: Result<(), PublishError>, rollback: Rollback, ghost calm: seq<Store>)
      requires s3.Valid()
      modifies s3, this`lockDepth, this`pruneHealth, this`prunings
      ensures s3.Valid() && old(s3.history) <= s3.history && old(s3.sent) <= s3.sent && s3.faults >= old(s3.faults)
      ensures lockDepth == old(lockDepth)
      ensures PublishOutcome(c, old(s3.store), s3.store, r, rollback, pruneHealth)
      // the health record describes every pruning, and there is one per success over a trusted pointer
      ensures Reflects(old(pruneHealth), old(prunings)) ==> Reflects(pruneHealth, prunings)
      ensures PruningKept(old(prunings), prunings, old(pruneHealth), pruneHealth, c.cycleId,
                          r.Ok? && Trusted(old(s3.store), CallNames(c)))
      // without faults exactly the retention rule is carried out; a pruning fails only by a request of its own
      ensures r.Ok? && Trusted(old(s3.store), CallNames(c)) && Clean(c) && s3.faults == old(s3.faults) ==>
                && s3.store == PruneSpec(PublishSpec(old(s3.store), c), c.cycleId, c.retention)
                && pruneHealth.lastOutcome == Some(Succeeded)
      ensures Blames(c, Trusted(old(s3.store), CallNames(c)), r, pruneHealth, s3.sent, |old(s3.sent)|)
      // a refusal comes before the first request
      ensures Precheck(c).Some? ==> r == Err(Precheck(c).value) && s3.sent == old(s3.sent)
      ensures s3.faults == old(s3.faults) && Precheck(c) == None ==>
                if c.cycleId in LiveIds(old(s3.store)) then r == Err(Collision) else r.Ok?
      ensures Clean(c) ==> Traced(c, old(s3.store), s3.history, |old(s3.history)| - 1)
      // calm ends where a rollback begins; until then a new meta.json comes with all the new objects
      ensures old(s3.history) <= calm <= s3.history && (rollback == NotNeeded ==> calm == s3.history)
      ensures Clean(c) ==> LeadsSince(c, old(s3.store), calm, |old(s3.history)| - 1)
      ensures Clean(c) && (rollback == NotNeeded || UndoServes(c, old(s3.store), calm[|calm| - 1])) ==>
                ServedSince(c, old(s3.store), s3.history, |old(s3.history)| - 1)
    {
      hide PublishOutcome, LeadsSince, ServedSince, UndoServes, Traced, Trusted, Reflects, Blames, PruningKept,
           PruneSpec, PublishSpec, FailedAttempts;
      lockDepth := lockDepth + 1;
      r, rollback, calm := Publish(c);
      lockDepth := lockDepth - 1;
    }
  }

  lemma NothingTraced(c: CycleCall, b: Store, h: seq<Store>, lo: nat)
    requires lo == |h| - 1
    ensures Traced(c, b, h, lo)
  {}

  lemma PrecheckErrors(c: CycleCall)
    ensures Precheck(c).Some? ==> Precheck(c).value in {DuplicateNames, BadNames, MetaCount, BadCycleId}
  {}

  lemma ExtendStagingTrace(c: CycleCall, b: Store, s: Store, h: seq<Store>, lo: nat, j: nat, s': Store)
    requires j < |c.payloads| && DistinctNames(c.payloads)
    requires c.cycleId !in LiveIds(s) && c.cycleId !in LiveIds(b) && SameAt(b, s, CURRENT_KEY)
    requires |h| > 0 && h[|h| - 1] == AfterStaging(s, c, j) && Traced(c, b, h, lo)
    requires s' == AfterStaging(s, c, j) || s' == AfterStaging(s, c, j + 1)
    ensures Traced(c, b, Extend(h, s'), lo)
  {
    OneStaging(s, c, j);
    assert SameAt(s, AfterStaging(s, c, j), CURRENT_KEY);
    StageStep(c, b, AfterStaging(s, c, j), c.payloads[j].name);
    ExtendTrace(c, b, h, s', lo);
  }

  lemma WidenFixedTrace(some: set<string>, more: set<string>, h: seq<Store>, lo: nat)
    requires TracedFixed(some, h, lo) && some <= more
    ensures TracedFixed(more, h, lo)
  {
    forall i | lo <= i < |h| - 1 ensures FixedOnly(more, h[i], h[i + 1]) {
      WidenFixed(some, more, h[i], h[i + 1]);
    }
  }

  lemma JoinFixedTraces(names: set<string>, h: seq<Store>, h': seq<Store>, lo: nat)
    requires |h| > 0 && h <= h' && TracedFixed(names, h, lo) && TracedFixed(names, h', |h| - 1)
    ensures TracedFixed(names, h', lo)
  {
    forall i | lo <= i < |h'| - 1 ensures FixedOnly(names, h'[i], h'[i + 1]) {
      if i < |h| - 1 {
        assert h'[i] == h[i] && h'[i + 1] == h[i + 1];
      }
    }
  }

  lemma WidenFixed(some: set<string>, more: set<string>, s: Store, s': Store)
    requires FixedOnly(some, s, s') && some <= more
    ensures FixedOnly(more, s, s')
  {
    forall k: Key ensures (k.Fixed? && k.name in more) || SameAt(s, s', k) {
      assert (k.Fixed? && k.name in some) || SameAt(s, s', k);
    }
  }

  lemma FixedOnlyComposes(p: set<string>, q: set<string>, both: set<string>, a: Store, b: Store, c: Store)
    requires FixedOnly(p, a, b) && FixedOnly(q, b, c) && p <= both && q <= both
    ensures FixedOnly(both, a, c)
  {
    forall k: Key ensures (k.Fixed? && k.name in both) || SameAt(a, c, k) {
      assert (k.Fixed? && k.name in p) || SameAt(a, b, k);
      assert (k.Fixed? && k.name in q) || SameAt(b, c, k);
    }
  }

  lemma RemovalIsFixedOnly(s: Store, s': Store, name: string, absent: set<string>, mid: Store)
    requires name in absent && FixedOnly(absent, mid, s)
    requires s' == s || s' == s - {Fixed(name)}
    ensures FixedOnly(absent, s, s') && FixedOnly(absent, mid, s')
  {
    forall k: Key ensures (k.Fixed? && k.name in absent) || SameAt(s, s', k) {}
    FixedOnlyComposes(absent, absent, absent, mid, s, s');
  }

  lemma SnapshotIsRestored(snapshot: map<string, Option<Obj>>, present: map<string, Obj>, absent: set<string>,
                           s: Store, mid: Store, after: Store)
    requires present == map name | name in snapshot && snapshot[name].Some? :: Restored(snapshot[name].value)
    requires absent == snapshot.Keys - present.Keys
    requires mid == s + Mirror(present) && FixedOnly(absent, mid, after)
    requires forall name :: name in absent ==> Fixed(name) !in after
    ensures RestoredFrom(snapshot, s, after)
  {
    forall k: Key
      ensures if k.Fixed? && k.name in snapshot then
                Lookup(after, k) == (match snapshot[k.name] case None => None case Some(o) => Some(Restored(o)))
              else SameAt(s, after, k)
    {
      assert (k.Fixed? && k.name in absent) || SameAt(mid, after, k);
    }
  }
}

/**
 One exporter cycle (src/main.py:317-463): recover, collect, guard, publish.

 Collecting and serialising are foreign to the protocol; their result, or their
 failure, is a parameter. The failure rate is compared exactly.
 */
module Exporter {
  import opened Prelude
  import opened CycleIds
  import opened Keys
  import opened Documents
  import opened S3
  import opened Protocol
  import opened Runs
  import opened Publish
  import opened Histories

  /** What a scan of the fleet and its serialisation come to. */
  datatype Collected = Collected(total: nat, failed: nat, hourly: Bytes, commits: Bytes, beadEvents: Bytes,
      meta: map<string, Json>)

  datatype End = NotRecovered | NotCollected | Withheld | Attempted(result: Result<(), PublishError>)

  const TABLE_TYPE := "application/octet-stream"

  predicate HexSuffix(s: string) {
    |s| == 8 && forall i :: 0 <= i < 8 ==> LowerHex(s[i])
  }

  /** Too many repositories failed for the result to replace the last one. */
  predicate Degraded(collected: Collected, limit: real) {
    collected.total > 0 && collected.failed as real > limit * collected.total as real
  }

  lemma RateAsProduct(failed: nat, total: nat, limit: real)
    requires total > 0
    ensures failed as real / total as real > limit <==> failed as real > limit * total as real
  {
    var rate := failed as real / total as real;
    assert rate * total as real == failed as real;
    if rate > limit {
      Scaled(limit, rate, total as real);
    }
    if failed as real > limit * total as real && rate <= limit {
      assert rate == limit || rate < limit;
      Scaled(rate, limit, total as real);
    }
  }

  lemma Scaled(a: real, b: real, t: real)
    requires a <= b && t > 0.0
    ensures a * t <= b * t && (a < b ==> a * t < b * t)
  {}

  /** The arguments of the cycle's `publish_cycle` call. */
  function ProductionCall(collected: Collected, generatedAt: string, suffix: string): CycleCall
    requires ValidGeneratedAt(generatedAt) && HexSuffix(suffix)
  {
    var id := NewCycleId(generatedAt, suffix);
    CycleCall([
      Payload("hourly.parquet", collected.hourly, TABLE_TYPE),
      Payload("commits.parquet", collected.commits, TABLE_TYPE),
      Payload("bead_events.parquet", collected.beadEvents, TABLE_TYPE),
      Payload(META_NAME, Encode(BuildMeta(id, generatedAt, collected.meta)), "application/json")
    ], id, generatedAt, RETAINED_CYCLES)
  }

  const RETAINED_CYCLES := 3

  /** `_run_cycle`; `middle` is the bucket after the recovery, at position `cut` of the history. */
  method RunCycle(p: Publisher, collected: Option<Collected>, limit: real, generatedAt: string, suffix: string)
    returns (end: End, ghost rollback: Rollback, ghost middle: Store, ghost cut: nat)
    requires p.s3.Valid() && ValidGeneratedAt(generatedAt) && HexSuffix(suffix)
    modifies p, p.s3
    ensures Reflects(old(p.pruneHealth), old(p.prunings)) ==> Reflects(p.pruneHealth, p.prunings)
    ensures p.s3.Valid() && old(p.s3.history) <= p.s3.history && p.lockDepth == old(p.lockDepth)
    ensures |old(p.s3.history)| - 1 <= cut < |p.s3.history| && p.s3.history[cut] == middle
    // first a recovery with the production names, whatever comes of the rest
    ensures TracedFixed(RecoverNames(old(p.s3.store), DEFAULT_FIXED_NAMES), p.s3.history[..cut + 1],
              |old(p.s3.history)| - 1)
    ensures end.NotRecovered? ==> p.s3.faults > old(p.s3.faults)
    ensures !end.NotRecovered? ==> middle == RecoverSpec(old(p.s3.store), DEFAULT_FIXED_NAMES)
    // a cycle that is not published leaves the recovered bucket alone
    ensures !end.Attempted? ==> p.s3.store == middle && cut == |p.s3.history| - 1
    ensures !end.NotRecovered? ==>
              && (end.NotCollected? <==> collected.None?)
              && (end.Withheld? <==> collected.Some? && Degraded(collected.value, limit))
    ensures end.Attempted? ==> collected.Some?
    ensures end.Attempted? ==>
              var c := ProductionCall(collected.value, generatedAt, suffix);
              && PublishOutcome(c, middle, p.s3.store, end.result, rollback, p.pruneHealth)
              && Traced(c, middle, p.s3.history, cut)
    // every crash point of the cycle has the old pointer and its cycle, or the committed new one
    ensures forall i :: |old(p.s3.history)| - 1 <= i < |p.s3.history| ==>
              || StillAt(old(p.s3.store), p.s3.history[i])
              || (end.Attempted? && CommittedBy(Publishing(ProductionCall(collected.value, generatedAt, suffix)),
                  p.s3.history[i]))
    // without faults a good cycle with a new id is published, and over a trusted pointer the others pruned
    ensures p.s3.faults == old(p.s3.faults) && collected.Some? && !Degraded(collected.value, limit)
            && NewCycleId(generatedAt, suffix) !in LiveIds(middle) ==>
              && end.Attempted? && end.result.Ok?
              && (Trusted(middle, DEFAULT_FIXED_NAMES) ==>
                    var c := ProductionCall(collected.value, generatedAt, suffix);
                    && p.s3.store == PruneSpec(PublishSpec(middle, c), c.cycleId, RETAINED_CYCLES)
                    && p.pruneHealth.lastOutcome == Some(Succeeded))
    ensures end.Attempted? ==>
              Blames(ProductionCall(collected.value, generatedAt, suffix), Trusted(middle, DEFAULT_FIXED_NAMES),
                     end.result, p.pruneHealth, p.s3.sent, |old(p.s3.sent)|)
  {
    hide TracedFixed, Traced, RecoverNames, RecoverSpec, PublishOutcome, LiveIds, ProductionCall, Precheck, FixedOnly,
         Clean, ValidGeneratedAt, HexSuffix, NewCycleId, ConformingCall, ValidCall, CallNames, Trusted, PointerDocOf,
         StillAt, CommittedBy, CopyPoint, KeptRecovery, Reflects, LeadsSince, ServedSince, UndoServes, Kept,
         ActivityOf, IsCycleId, ValidCycleId, Blames, PruneSpec, PublishSpec, FailedAttempts, PruningKept;
    rollback := NotNeeded;
    ghost var lo := |p.s3.history| - 1;
    ghost var before := p.s3.history;
    var recovery := p.RecoverPublication(DEFAULT_FIXED_NAMES);
    middle, cut := p.s3.store, |p.s3.history| - 1;
    ghost var recovered := p.s3.history;
    assert p.s3.history[..cut + 1] == p.s3.history;
    ProductionRecovery(recovered, lo);
    ghost var first := Life(RecoverCall(DEFAULT_FIXED_NAMES), recovered, lo, cut + 1);
    RecoveryIsKept(recovered, lo);
    forall i | lo <= i < |recovered| ensures StillAt(old(p.s3.store), recovered[i]) {
      RecoveryIsAtomic(first, i);
    }
    if recovery.Err? {
      return NotRecovered, rollback, middle, cut;
    }
    if collected.None? {
      return NotCollected, rollback, middle, cut;
    }
    if collected.value.total > 0 {
      RateAsProduct(collected.value.failed, collected.value.total, limit);
      if collected.value.failed as real / collected.value.total as real > limit {
        return Withheld, rollback, middle, cut;
      }
    }
    var c := ProductionCall(collected.value, generatedAt, suffix);
    ProductionCallConforms(collected.value, generatedAt, suffix);
    ghost var h := p.s3.history;
    var result;
    ghost var calm;
    ghost var log := |p.s3.sent|;
    result, rollback, calm := p.PublishCycle(c);
    assert p.s3.history[..cut + 1] == h;
    end := Attempted(result);
    BlamesEarlier(c, Trusted(middle, DEFAULT_FIXED_NAMES), result, p.pruneHealth, p.s3.sent, |old(p.s3.sent)|, log);
    forall i | lo <= i < |p.s3.history|
      ensures StillAt(old(p.s3.store), p.s3.history[i]) || CommittedBy(Publishing(c), p.s3.history[i])
    {
      if i <= cut {
        assert p.s3.history[i] == recovered[i];
      } else {
        PublicationIsAtomic(first, c, p.s3.history, i);
      }
    }
  }

  /** The production names leave `current.json` out, so this recovery cannot touch the pointer. */
  lemma ProductionRecovery(h: seq<Store>, lo: nat)
    requires lo < |h| && TracedFixed(RecoverNames(h[lo], DEFAULT_FIXED_NAMES), h, lo)
    requires forall i :: lo < i < |h| ==> CopyPoint(h[lo], RecoverSpec(h[lo], DEFAULT_FIXED_NAMES), h[i])
    ensures KeptRecovery(DEFAULT_FIXED_NAMES, h, lo)
  {
    hide CopyPoint, TracedFixed, RecoverSpec, RecoverNames, Trusted, PointerSurvives;
    if Trusted(h[lo], DEFAULT_FIXED_NAMES) {
      CleanNamesSurvive(h[lo], DEFAULT_FIXED_NAMES);
    }
  }

  lemma RecoveryIsKept(h: seq<Store>, lo: nat)
    requires lo < |h| && KeptRecovery(DEFAULT_FIXED_NAMES, h, lo)
    ensures Kept(Life(RecoverCall(DEFAULT_FIXED_NAMES), h, lo, |h|))
  {
    hide KeptRecovery;
  }

  lemma CleanNamesSurvive(b: Store, names: set<string>)
    requires Trusted(b, names) && names != {} && POINTER_NAME !in names
    ensures PointerSurvives(b, PointerDocOf(b).value)
  {
    hide MetaMatches, DecodePointer;
  }

  lemma RecoveryIsAtomic(l: Life, i: nat)
    requires InRange(l) && Kept(l) && l.call.RecoverCall? && l.lo <= i < l.cut
    ensures StillAt(l.history[l.lo], l.history[i])
  {
    hide Kept, StillAt, CommittedBy;
    KilledAnywhere([l], 0, i);
    OnlyPublicationsCommit(l, l.history[i]);
  }

  lemma PublicationIsAtomic(first: Life, c: CycleCall, h: seq<Store>, i: nat)
    requires InRange(first) && Kept(first) && first.call.RecoverCall?
    requires first.cut - 1 <= i < |h| && h[first.cut - 1] == first.history[first.cut - 1]
    requires Precheck(c) == None && Traced(c, h[first.cut - 1], h, first.cut - 1)
    ensures StillAt(first.history[first.lo], h[i]) || CommittedBy(Publishing(c), h[i])
  {
    hide Kept, StillAt, Precheck, Traced, CommittedBy;
    var second := Life(PublishCall(c), h, first.cut - 1, |h|);
    TracedIsKept(c, h, first.cut - 1);
    var ls := [first, second];
    KilledAnywhere(ls, 1, i);
    if !StillAt(first.history[first.lo], h[i]) {
      var m :| 0 <= m <= 1 && CommittedBy(ActivityOf(ls[m]), h[i]);
      OnlyPublicationsCommit(first, h[i]);
    }
  }

  lemma TracedIsKept(c: CycleCall, h: seq<Store>, lo: nat)
    requires lo < |h| && Precheck(c) == None && Traced(c, h[lo], h, lo)
    ensures Kept(Life(PublishCall(c), h, lo, |h|))
  {
    hide Precheck, Traced;
  }

  lemma OnlyPublicationsCommit(l: Life, s: Store)
    requires InRange(l) && l.call.RecoverCall?
    ensures !CommittedBy(ActivityOf(l), s)
  {}

  lemma NamesAreSimple()
    ensures forall name :: name in DEFAULT_FIXED_NAMES ==> SimpleName(name)
  {}

  lemma NamesDiffer(ps: seq<Payload>)
    requires |ps| == 4 && ps[0].name == "hourly.parquet" && ps[1].name == "commits.parquet"
    requires ps[2].name == "bead_events.parquet" && ps[3].name == META_NAME
    ensures DistinctNames(ps)
  {
    assert ps[0].name[0] == 'h' && ps[1].name[0] == 'c' && ps[2].name[0] == 'b' && ps[3].name[0] == 'm';
  }

  lemma {:induction false} OnlyLastIsMeta(ps: seq<Payload>)
    requires |ps| > 0 && ps[|ps| - 1].name == META_NAME && forall i :: 0 <= i < |ps| - 1 ==> ps[i].name != META_NAME
    ensures MetaPayloads(ps) == [ps[|ps| - 1]]
  {
    if |ps| > 1 {
      OnlyLastIsMeta(ps[1..]);
    } else {
      assert ps[1..] == [];
    }
  }

  lemma ProductionNames(collected: Collected, generatedAt: string, suffix: string)
    requires ValidGeneratedAt(generatedAt) && HexSuffix(suffix)
    ensures var ps := ProductionCall(collected, generatedAt, suffix).payloads;
            && |ps| == 4 && DistinctNames(ps) && MetaPayloads(ps) == [ps[3]]
            && (forall i :: 0 <= i < |ps| ==> SimpleName(ps[i].name))
            && Objects(ps).Keys == DEFAULT_FIXED_NAMES
  {
    hide ValidCycleId, ValidGeneratedAt, NewCycleId, BuildMeta, Objects, SimpleName, MetaPayloads;
    var ps := ProductionCall(collected, generatedAt, suffix).payloads;
    NamesDiffer(ps);
    NamesAreSimple();
    OnlyLastIsMeta(ps);
    ObjectsNamePayloads(ps);
    forall name ensures name in Objects(ps) <==> name in DEFAULT_FIXED_NAMES {
      FourPayloads(ps, name);
    }
  }

  lemma FourPayloads(ps: seq<Payload>, name: string)
    requires |ps| == 4
    ensures (exists p :: p in ps && p.name == name)
       <==> name == ps[0].name || name == ps[1].name || name == ps[2].name || name == ps[3].name
  {
    assert ps[0] in ps && ps[1] in ps && ps[2] in ps && ps[3] in ps;
  }

  /**
   Every cycle the exporter publishes passes the publisher's checks, names the
   production objects, and stages a meta.json that its pointer will agree with.
   */
  lemma ProductionCallConforms(collected: Collected, generatedAt: string, suffix: string)
    requires ValidGeneratedAt(generatedAt) && HexSuffix(suffix)
    ensures var c := ProductionCall(collected, generatedAt, suffix);
            && Precheck(c) == None && ValidCall(c) && Clean(c)
            && c.cycleId == NewCycleId(generatedAt, suffix) && c.retention == RETAINED_CYCLES
            && CallNames(c) == DEFAULT_FIXED_NAMES && ConformingCall(c, DEFAULT_FIXED_NAMES)
  {
    var c := ProductionCall(collected, generatedAt, suffix);
    var ps := c.payloads;
    ProductionNames(collected, generatedAt, suffix);
    hide ValidCycleId, ValidGeneratedAt, NewCycleId, BuildMeta;
    PrecheckedCallIsValid(c);
    ObjectsHoldPayloads(ps, 3);
  }

  /** Each table goes under its own name, and meta.json carries the rest of the cycle. */
  lemma ProductionObjects(collected: Collected, generatedAt: string, suffix: string)
    requires ValidGeneratedAt(generatedAt) && HexSuffix(suffix)
    ensures var c := ProductionCall(collected, generatedAt, suffix);
            && Lookup(Objects(c.payloads), "hourly.parquet") == Some(Obj(collected.hourly, TABLE_TYPE))
            && Lookup(Objects(c.payloads), "commits.parquet") == Some(Obj(collected.commits, TABLE_TYPE))
            && Lookup(Objects(c.payloads), "bead_events.parquet") == Some(Obj(collected.beadEvents, TABLE_TYPE))
            && META_NAME in Objects(c.payloads)
            && Objects(c.payloads)[META_NAME].contentType == "application/json"
            && (match Decode(Objects(c.payloads)[META_NAME].data)
                case None => false
                case Some(meta) =>
                  && meta.Dict? && Lookup(meta.fields, "cycle_id") == Some(Str(c.cycleId))
                  && Lookup(meta.fields, "generated_at") == Some(Str(generatedAt))
                  && forall k :: k in collected.meta && k != "cycle_id" && k != "generated_at" ==>
                                   Lookup(meta.fields, k) == Some(collected.meta[k]))
  {
    var ps := ProductionCall(collected, generatedAt, suffix).payloads;
    ProductionNames(collected, generatedAt, suffix);
    hide ValidGeneratedAt, NewCycleId, Objects;
    ObjectsHoldPayloads(ps, 0);
    ObjectsHoldPayloads(ps, 1);
    ObjectsHoldPayloads(ps, 2);
    ObjectsHoldPayloads(ps, 3);
  }

  // ------------------------------------------------------------ success

  lemma PublishedKeys(b: Store, c: CycleCall, name: string)
    requires Clean(c) && name in CallNames(c)
    ensures Lookup(PublishSpec(b, c), CycleObj(c.cycleId, name)) == Some(Objects(c.payloads)[name])
    ensures Lookup(PublishSpec(b, c), Fixed(name)) == Some(Objects(c.payloads)[name])
    ensures Lookup(PublishSpec(b, c), CURRENT_KEY) == Some(CommitObj(c))
  {
    hide CommitObj, Objects;
  }

  /** Where the payloads and the pointer's bytes are in place, the cycle is live. */
  lemma PublishedIsLive(c: CycleCall, s: Store)
    requires ValidCall(c) && ConformingCall(c, DEFAULT_FIXED_NAMES)
    requires CURRENT_KEY in s && s[CURRENT_KEY].data == CommitObj(c).data
    requires forall name :: name in CallNames(c) ==>
               Lookup(s, CycleObj(c.cycleId, name)) == Lookup(s, Fixed(name)) == Some(Objects(c.payloads)[name])
    ensures Resolve(s) == CommittedView(c) && FixedMatchesPointer(s) && Trusted(s, DEFAULT_FIXED_NAMES)
  {
    hide Objects, PointerBytes, DecodePointer, WellFormedPointer, MetaMatches, Resolve, CommittedView, Trusted;
    var d := PointerDoc(c.cycleId, c.generatedAt, CallNames(c));
    PointerRoundTrip(c.cycleId, c.generatedAt, CallNames(c));
    assert PointerDocOf(s) == Some(d);
    LiveView(c, s, d);
    LiveTrust(c, s, d);
  }

  lemma LiveTrust(c: CycleCall, s: Store, d: PointerDoc)
    requires PointerDocOf(s) == Some(d) && d == PointerDoc(c.cycleId, c.generatedAt, CallNames(c))
    requires ConformingCall(c, DEFAULT_FIXED_NAMES)
    requires forall name :: name in CallNames(c) ==>
               Lookup(s, CycleObj(c.cycleId, name)) == Some(Objects(c.payloads)[name])
    ensures Trusted(s, DEFAULT_FIXED_NAMES)
  {
    hide PointerDocOf, MetaMatches, Objects;
  }

  /**
   A publication that returns normally is live: the pointer and its objects are
   the call's, the fixed keys are those objects, and recovery will trust it.
   */
  lemma SuccessIsLive(c: CycleCall, b: Store, s: Store, rollback: Rollback, health: PruneHealth)
    requires ValidCall(c) && Clean(c) && ConformingCall(c, DEFAULT_FIXED_NAMES)
    requires PublishOutcome(c, b, s, Ok(()), rollback, health)
    ensures Resolve(s) == CommittedView(c) && FixedMatchesPointer(s) && Trusted(s, DEFAULT_FIXED_NAMES)
  {
    hide CommitObj, Objects, PublishSpec, Trusted, ValidCall, LiveIds, Doomed, Precheck, Resolve, CommittedView,
         FixedMatchesPointer;
    var target := PublishSpec(b, c);
    PublishedKeys(b, c, META_NAME);
    KeptIsNotDoomed(c, target);
    forall name | name in CallNames(c)
      ensures Lookup(s, CycleObj(c.cycleId, name)) == Lookup(s, Fixed(name)) == Some(Objects(c.payloads)[name])
    {
      PublishedKeys(b, c, name);
      assert Lookup(s, Fixed(name)) == Lookup(target, Fixed(name));
      assert Lookup(s, CycleObj(c.cycleId, name)) == Lookup(target, CycleObj(c.cycleId, name));
    }
    PublishedIsLive(c, s);
  }

  lemma KeptIsNotDoomed(c: CycleCall, s: Store)
    ensures c.cycleId !in Doomed(s, c.cycleId, c.retention)
  {}

  // ------------------------------------------------------------ whole runs

  ghost predicate ProductionRun(r: seq<Moment>) {
    && Run(r)
    && forall i :: 0 <= i < |r| && r[i].activity.Publishing? ==> IsProductionCall(r[i].activity.call)
  }

  ghost predicate IsProductionCall(c: CycleCall) {
    exists collected, generatedAt, suffix ::
      ValidGeneratedAt(generatedAt) && HexSuffix(suffix) && c == ProductionCall(collected, generatedAt, suffix)
  }

  /**
   However often the exporter is killed, once its pointer is trusted every
   later recovery trusts it, with no condition left on what it publishes.
   */
  lemma ExporterStaysTrusted(r: seq<Moment>, t0: nat, t: nat)
    requires ProductionRun(r) && t0 <= t < |r| && Trusted(r[t0].store, DEFAULT_FIXED_NAMES)
    ensures Trusted(r[t].store, DEFAULT_FIXED_NAMES)
  {
    hide Run, Trusted, ProductionCall;
    forall i | 0 <= i < |r| && r[i].activity.Publishing?
      ensures ConformingCall(r[i].activity.call, DEFAULT_FIXED_NAMES)
    {
      var collected, generatedAt, suffix :| ValidGeneratedAt(generatedAt) && HexSuffix(suffix)
                                            && r[i].activity.call == ProductionCall(collected, generatedAt, suffix);
      ProductionCallConforms(collected, generatedAt, suffix);
    }
    StaysTrusted(r, t0, t, DEFAULT_FIXED_NAMES);
  }

  /**
   A failed publication may yet have committed: its pointer PUT landed, but the
   response and the read-back were both lost, and in bootstrap mode the old
   fixed keys were put back under the new pointer (Limits.LostCommitArises).
   Whatever the failed call left, the recovery at the start of the next cycle
   puts the new cycle's objects at the fixed keys.
   */
  lemma LostCommitIsRepaired(collected: Collected, generatedAt: string, suffix: string, b: Store, s: Store,
                             rollback: Rollback, health: PruneHealth)
    requires ValidGeneratedAt(generatedAt) && HexSuffix(suffix)
    requires var c := ProductionCall(collected, generatedAt, suffix);
             PublishOutcome(c, b, s, Err(PointerFailed), rollback, health) &&
                 Lookup(s, CURRENT_KEY) == Some(CommitObj(c))
    ensures var c := ProductionCall(collected, generatedAt, suffix);
            var s' := RecoverSpec(s, DEFAULT_FIXED_NAMES);
            && (rollback.RestoredAllKeys? && !Trusted(b, DEFAULT_FIXED_NAMES) ==> BackAtSnapshot(c, b, s))
            && FixedMatchesPointer(s') && Lookup(s', CURRENT_KEY) == Some(CommitObj(c))
            && PointerDocOf(s') == Some(PointerDoc(c.cycleId, generatedAt, DEFAULT_FIXED_NAMES))
  {
    var c := ProductionCall(collected, generatedAt, suffix);
    ProductionCallConforms(collected, generatedAt, suffix);
    hide ProductionCall, AllStaged, ValidCall, ConformingCall, FixedMatchesPointer, Trusted, RecoverSpec, KeepsCycles,
         BackAtSnapshot;
    CommittedIsTrustedIff(c, s, DEFAULT_FIXED_NAMES);
    CommitIsReadBack(c, s);
    RecoveryConverges(s, DEFAULT_FIXED_NAMES, PointerDocOf(s).value);
    CommitIsReadBack(c, RecoverSpec(s, DEFAULT_FIXED_NAMES));
  }
}

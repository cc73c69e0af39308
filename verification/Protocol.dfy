/**
 What a publication is allowed to do to the bucket (src/publish.py:481-697).

 The functions say what each phase leaves behind when its requests succeed;
 `PublishStep` is the guarantee that every single change of the bucket keeps,
 whichever requests fail. The methods of module Publish are proved against
 both, and module Runs draws the conclusions about whole histories.
 */
module Protocol {
  import opened Prelude
  import opened Strings
  import opened CycleIds
  import opened Keys
  import opened Documents
  import opened S3

  const CURRENT_KEY := Fixed(POINTER_NAME)
  const POINTER_TYPE := "application/json"
  const DEFAULT_TYPE := "application/octet-stream"
  const DEFAULT_FIXED_NAMES: set<string> :=
    {"hourly.parquet", "commits.parquet", "bead_events.parquet", META_NAME}

  // ----------------------------------------------------------------- calls

  datatype Payload = Payload(name: string, data: Bytes, contentType: string)

  /** The arguments of one `publish_cycle` call. */
  datatype CycleCall = CycleCall(payloads: seq<Payload>, cycleId: string, generatedAt: string, retention: int)

  /** Payloads as a dictionary; with distinct names nothing is shadowed. */
  function Objects(ps: seq<Payload>): map<string, Obj> {
    if |ps| == 0 then map[]
    else
      var last := ps[|ps| - 1];
      Objects(ps[..|ps| - 1])[last.name := Obj(last.data, last.contentType)]
  }

  predicate DistinctNames(ps: seq<Payload>) {
    forall i, j :: 0 <= i < j < |ps| ==> ps[i].name != ps[j].name
  }

  function CallNames(c: CycleCall): set<string> {
    Objects(c.payloads).Keys
  }

  lemma {:induction false} ObjectsNamePayloads(ps: seq<Payload>)
    ensures forall name :: name in Objects(ps) <==> exists p :: p in ps && p.name == name
  {
    if |ps| == 0 {
    } else {
      var n := |ps| - 1;
      ObjectsNamePayloads(ps[..n]);
      assert ps == ps[..n] + [ps[n]];
      forall name ensures name in Objects(ps) <==> exists p :: p in ps && p.name == name {
        if name in Objects(ps) && name != ps[n].name {
          assert name in Objects(ps[..n]);
          var p :| p in ps[..n] && p.name == name;
          assert p in ps;
        }
        assert ps[n] in ps;
      }
    }
  }

  lemma {:induction false} ObjectsHoldPayloads(ps: seq<Payload>, i: nat)
    requires DistinctNames(ps) && i < |ps|
    ensures ps[i].name in Objects(ps) && Objects(ps)[ps[i].name] == Obj(ps[i].data, ps[i].contentType)
  {
    var n := |ps| - 1;
    if i < n {
      assert ps[..n][i] == ps[i];
      ObjectsHoldPayloads(ps[..n], i);
    }
  }

  lemma ObjectsCoverPayloads(ps: seq<Payload>)
    ensures Objects(ps).Keys == set p | p in ps :: p.name
    ensures DistinctNames(ps) ==>
              forall i :: 0 <= i < |ps| ==> ps[i].name in Objects(ps)
                                            && Objects(ps)[ps[i].name] == Obj(ps[i].data, ps[i].contentType)
  {
    hide Objects;
    ObjectsNamePayloads(ps);
    if DistinctNames(ps) {
      forall i: nat | i < |ps|
        ensures ps[i].name in Objects(ps) && Objects(ps)[ps[i].name] == Obj(ps[i].data, ps[i].contentType)
      {
        ObjectsHoldPayloads(ps, i);
      }
    }
  }

  /** Objects(ps) is the dictionary that the payloads describe. */
  lemma ObjectsAre(ps: seq<Payload>, m: map<string, Obj>)
    requires DistinctNames(ps)
    requires forall i :: 0 <= i < |ps| ==> ps[i].name in m && m[ps[i].name] == Obj(ps[i].data, ps[i].contentType)
    requires forall name :: name in m ==> exists i :: 0 <= i < |ps| && ps[i].name == name
    ensures Objects(ps) == m
  {
    hide Objects;
    ObjectsCoverPayloads(ps);
    forall name | name in m ensures name in Objects(ps) && Objects(ps)[name] == m[name] {
      var i :| 0 <= i < |ps| && ps[i].name == name;
    }
    forall name | name in Objects(ps) ensures name in m {
      var p :| p in ps && p.name == name;
    }
  }

  lemma PrefixObjects(ps: seq<Payload>, j: nat)
    requires j <= |ps|
    ensures Objects(ps[..j]).Keys <= Objects(ps).Keys
  {
    ObjectsCoverPayloads(ps);
    ObjectsCoverPayloads(ps[..j]);
    forall name | name in Objects(ps[..j]) ensures name in Objects(ps) {
      var p :| p in ps[..j] && p.name == name;
      assert p in ps;
    }
  }

  lemma NextPayload(ps: seq<Payload>, j: nat)
    requires j < |ps| && DistinctNames(ps)
    ensures ps[j].name !in Objects(ps[..j])
    ensures ps[j].name in Objects(ps) && Objects(ps)[ps[j].name] == Obj(ps[j].data, ps[j].contentType)
    ensures Objects(ps[..j + 1]) == Objects(ps[..j])[ps[j].name := Obj(ps[j].data, ps[j].contentType)]
  {
    ObjectsGrow(ps, j);
    hide Objects;
    ObjectsHoldPayloads(ps, j);
    ObjectsNamePayloads(ps[..j]);
    assert forall p :: p in ps[..j] ==> p.name != ps[j].name;
  }

  lemma ObjectsGrow(ps: seq<Payload>, j: nat)
    requires j < |ps|
    ensures Objects(ps[..j + 1]) == Objects(ps[..j])[ps[j].name := Obj(ps[j].data, ps[j].contentType)]
  {
    assert ps[..j + 1][..j] == ps[..j];
  }

  // ------------------------------------------------------- phases, as maps

  function Mirror(m: map<string, Obj>): Store {
    map name | name in m :: Fixed(name) := m[name]
  }

  function StagedAt(id: string, m: map<string, Obj>): Store {
    map name | name in m :: CycleObj(id, name) := m[name]
  }

  /** A repaired key never has an empty content type (src/publish.py:456, 495). */
  function Restored(o: Obj): Obj {
    if o.contentType == "" then Obj(o.data, DEFAULT_TYPE) else o
  }

  function RestoredAll(m: map<string, Obj>): map<string, Obj> {
    map name | name in m :: Restored(m[name])
  }

  function CommitObj(c: CycleCall): Obj {
    Obj(PointerBytes(c.cycleId, c.generatedAt, CallNames(c)), POINTER_TYPE)
  }

  /** The bucket after an undisturbed publication, before retention. */
  function PublishSpec(s: Store, c: CycleCall): Store {
    (s + StagedAt(c.cycleId, Objects(c.payloads)) + Mirror(Objects(c.payloads)))[CURRENT_KEY := CommitObj(c)]
  }

  // ---------------------------------------------------- the pointer's view

  /** The pointer's bytes; the protocol never reads its content type. */
  function PointerData(s: Store): Option<Bytes> {
    if CURRENT_KEY in s then Some(s[CURRENT_KEY].data) else None
  }

  function PointerDocOf(s: Store): Option<PointerDoc> {
    if CURRENT_KEY in s then DecodePointer(s[CURRENT_KEY].data) else None
  }

  predicate Present(s: Store, d: PointerDoc) {
    forall name :: name in d.names ==> CycleObj(d.cycleId, name) in s
  }

  function Snapshot(s: Store, d: PointerDoc): map<string, Obj>
    requires Present(s, d)
  {
    map name | name in d.names :: s[CycleObj(d.cycleId, name)]
  }

  /** The pointer and every object it names, as a pointer-first reader finds them. */
  datatype View = View(pointer: Option<Bytes>, objects: map<string, Option<Obj>>)

  function Resolve(s: Store): View {
    var pointer := PointerData(s);
    match PointerDocOf(s)
    case None => View(pointer, map[])
    case Some(d) => View(pointer, map name | name in d.names :: Lookup(s, CycleObj(d.cycleId, name)))
  }

  predicate NamesCompleteCycle(s: Store) {
    match PointerDocOf(s)
    case None => false
    case Some(d) => Present(s, d)
  }

  /** The view that publishing c commits. */
  function CommittedView(c: CycleCall): View {
    View(Some(CommitObj(c).data), map name | name in CallNames(c) :: Some(Objects(c.payloads)[name]))
  }

  /** The paths in a pointer are the keys of its objects, below the prefix. */
  lemma PathsAreKeys(prefix: string, id: string, name: string)
    ensures prefix + "/" + ObjectPath(id, name) == Render(prefix, CycleObj(id, name))
  {
    assert prefix + "/" + ("cycles/" + id + "/" + name) == prefix + "/cycles/" + id + "/" + name;
  }

  // -------------------------------------------------------------- recovery

  /** `_pointer_snapshot`: the names are the configured ones, nothing is missing, meta agrees. */
  predicate Accepts(s: Store, d: PointerDoc, expected: set<string>) {
    && (expected == {} || d.names == expected)
    && Present(s, d)
    && (META_NAME in d.names ==> MetaMatches(s[CycleObj(d.cycleId, META_NAME)].data, d.cycleId, d.generatedAt))
  }

  /** Whether recovery takes the pointer as a source. */
  predicate Trusted(s: Store, expected: set<string>) {
    match PointerDocOf(s)
    case None => false
    case Some(d) => Accepts(s, d, expected)
  }

  function FixedState(s: Store, names: set<string>): map<string, Option<Obj>> {
    map name | name in names :: Lookup(s, Fixed(name))
  }

  function Wanted(m: map<string, Obj>): map<string, Option<Obj>> {
    map name | name in m :: Some(m[name])
  }

  /** The fixed keys already are d's cycle: recovery has nothing to write. */
  predicate Quiet(s: Store, d: PointerDoc)
    requires Present(s, d)
  {
    FixedState(s, d.names) == Wanted(Snapshot(s, d))
  }

  function Repaired(s: Store, d: PointerDoc): Store
    requires Present(s, d)
  {
    if Quiet(s, d) then s else s + Mirror(RestoredAll(Snapshot(s, d)))
  }

  /** The bucket after an undisturbed recovery. */
  function RecoverSpec(s: Store, expected: set<string>): Store {
    if Trusted(s, expected) then Repaired(s, PointerDocOf(s).value) else s
  }

  /** The fixed names a recovery may write. */
  function RecoverNames(s: Store, expected: set<string>): set<string> {
    if Trusted(s, expected) then PointerDocOf(s).value.names else {}
  }

  // ------------------------------------------------------------- retention

  /** Valid ids other than keep that are greater than id. */
  function Newer(s: Store, id: string, keep: string): set<string> {
    set x | x in LiveIds(s) && IsCycleId(x) && x != keep && Less(id, x)
  }

  /** The cycles that retention gives up. */
  function Doomed(s: Store, keep: string, retention: int): set<string> {
    set id | id in LiveIds(s) && IsCycleId(id) && id != keep && |Newer(s, id, keep)| >= Max(0, retention - 1)
  }

  function WithoutCycles(s: Store, ids: set<string>): Store {
    map k | k in s && !(k.CycleObj? && k.id in ids) :: s[k]
  }

  function PruneSpec(s: Store, keep: string, retention: int): Store {
    WithoutCycles(s, Doomed(s, keep, retention))
  }

  // ------------------------------------------------------------- guarantee

  ghost predicate SameAt(s: Store, s': Store, k: Key) {
    Lookup(s, k) == Lookup(s', k)
  }

  /** Only fixed keys with these names differ. */
  ghost predicate FixedOnly(names: set<string>, s: Store, s': Store) {
    forall k: Key :: (k.Fixed? && k.name in names) || SameAt(s, s', k)
  }

  ghost predicate AllStaged(c: CycleCall, s: Store) {
    forall name :: name in CallNames(c) ==>
                     CycleObj(c.cycleId, name) in s
                     && s[CycleObj(c.cycleId, name)] == Objects(c.payloads)[name]
  }

  /** What one change may do to one key; b is the bucket when the call began. */
  ghost predicate KeyRule(c: CycleCall, b: Store, s: Store, s': Store, k: Key) {
    || SameAt(s, s', k)
    || (match k
        case Foreign(_) => false
        case Fixed(name) =>
          if name == POINTER_NAME then
            AllStaged(c, s) && Lookup(s', k) == Some(CommitObj(c))
          else
            name in CallNames(c)
        case CycleObj(id, name) =>
          || CreateRule(c, b, s, s', id, name)
          || PruneRule(c, b, s, s', id, name))
  }

  /** An absent object of a fresh cycle, with the caller's bytes, before any commit. */
  ghost predicate CreateRule(c: CycleCall, b: Store, s: Store, s': Store, id: string, name: string) {
    && CycleObj(id, name) !in s
    && id == c.cycleId && id !in LiveIds(b)
    && name in CallNames(c) && Lookup(s', CycleObj(id, name)) == Some(Objects(c.payloads)[name])
    && SameAt(b, s, CURRENT_KEY)
  }

  /** An object of a cycle that is not the committed one and is beyond retention. */
  ghost predicate PruneRule(c: CycleCall, b: Store, s: Store, s': Store, id: string, name: string) {
    && CycleObj(id, name) !in s'
    && Trusted(b, CallNames(c)) && Lookup(s, CURRENT_KEY) == Some(CommitObj(c))
    && IsCycleId(id) && id != c.cycleId
    && |Newer(s, id, c.cycleId)| >= Max(0, c.retention - 1)
  }

  ghost predicate PublishStep(c: CycleCall, b: Store, s: Store, s': Store) {
    forall k: Key :: KeyRule(c, b, s, s', k)
  }

  /** Every change since position lo of the history kept the guarantee. */
  ghost predicate Traced(c: CycleCall, b: Store, h: seq<Store>, lo: nat) {
    forall i :: lo <= i < |h| - 1 ==> PublishStep(c, b, h[i], h[i + 1])
  }

  /** What one change inside a recovery may do: these fixed keys, and no other pointer. */
  ghost predicate RecoverStep(names: set<string>, s: Store, s': Store) {
    FixedOnly(names, s, s') && PointerData(s') == PointerData(s)
  }

  ghost predicate TracedRecovery(names: set<string>, h: seq<Store>, lo: nat) {
    forall i :: lo <= i < |h| - 1 ==> RecoverStep(names, h[i], h[i + 1])
  }

  /** Every change since position lo touched only these fixed names. */
  ghost predicate TracedFixed(names: set<string>, h: seq<Store>, lo: nat) {
    forall i :: lo <= i < |h| - 1 ==> FixedOnly(names, h[i], h[i + 1])
  }

  lemma MirrorTouches(s: Store, m: map<string, Obj>, names: set<string>)
    requires m.Keys <= names
    ensures FixedOnly(names, s, s + Mirror(m))
  {
    forall k: Key ensures (k.Fixed? && k.name in names) || SameAt(s, s + Mirror(m), k) {}
  }

  lemma StageOneMore(s: Store, id: string, m: map<string, Obj>, name: string, o: Obj)
    requires name !in m && id !in LiveIds(s)
    ensures CycleObj(id, name) !in s + StagedAt(id, m)
    ensures s + StagedAt(id, m[name := o]) == (s + StagedAt(id, m))[CycleObj(id, name) := o]
  {
    assert CycleObj(id, name) in s ==> id in LiveIds(s);
  }

  lemma FixedOnlyIsAllowed(c: CycleCall, b: Store, names: set<string>, s: Store, s': Store)
    requires FixedOnly(names, s, s') && names <= CallNames(c) && POINTER_NAME !in names
    ensures PublishStep(c, b, s, s')
  {
    forall k: Key ensures KeyRule(c, b, s, s', k) {
      assert (k.Fixed? && k.name in names) || SameAt(s, s', k);
    }
  }

  lemma TracedFixedIsAllowed(c: CycleCall, b: Store, names: set<string>, h: seq<Store>, lo: nat)
    requires TracedFixed(names, h, lo) && names <= CallNames(c) && POINTER_NAME !in names
    ensures Traced(c, b, h, lo)
  {
    forall i | lo <= i < |h| - 1 ensures PublishStep(c, b, h[i], h[i + 1]) {
      FixedOnlyIsAllowed(c, b, names, h[i], h[i + 1]);
    }
  }

  lemma JoinTraces(c: CycleCall, b: Store, h: seq<Store>, h': seq<Store>, lo: nat)
    requires |h| > 0 && h <= h' && Traced(c, b, h, lo) && Traced(c, b, h', |h| - 1)
    ensures Traced(c, b, h', lo)
  {
    forall i | lo <= i < |h'| - 1 ensures PublishStep(c, b, h'[i], h'[i + 1]) {
      if i < |h| - 1 {
        assert h'[i] == h[i] && h'[i + 1] == h[i + 1];
      }
    }
  }

  lemma ExtendTrace(c: CycleCall, b: Store, h: seq<Store>, s: Store, lo: nat)
    requires |h| > 0 && Traced(c, b, h, lo)
    requires s == h[|h| - 1] || PublishStep(c, b, h[|h| - 1], s)
    ensures Traced(c, b, Extend(h, s), lo)
  {
    var h' := Extend(h, s);
    forall i | lo <= i < |h'| - 1 ensures PublishStep(c, b, h'[i], h'[i + 1]) {
      if i < |h| - 1 {
        assert h'[i] == h[i] && h'[i + 1] == h[i + 1];
      }
    }
  }

  // --------------------------------------------- phases against the guarantee

  lemma StageStep(c: CycleCall, b: Store, s: Store, name: string)
    requires SameAt(b, s, CURRENT_KEY) && c.cycleId !in LiveIds(b)
    requires name in CallNames(c) && CycleObj(c.cycleId, name) !in s
    ensures PublishStep(c, b, s, s[CycleObj(c.cycleId, name) := Objects(c.payloads)[name]])
  {
    var s' := s[CycleObj(c.cycleId, name) := Objects(c.payloads)[name]];
    forall k: Key ensures KeyRule(c, b, s, s', k) {
      if k == CycleObj(c.cycleId, name) {
        assert CreateRule(c, b, s, s', c.cycleId, name);
      }
    }
  }

  lemma CommitStep(c: CycleCall, b: Store, s: Store)
    requires AllStaged(c, s)
    ensures PublishStep(c, b, s, s[CURRENT_KEY := CommitObj(c)])
  {
    var s' := s[CURRENT_KEY := CommitObj(c)];
    forall k: Key ensures KeyRule(c, b, s, s', k) {}
  }

  lemma PruneStep(c: CycleCall, b: Store, s: Store, id: string, name: string)
    requires Trusted(b, CallNames(c)) && Lookup(s, CURRENT_KEY) == Some(CommitObj(c))
    requires IsCycleId(id) && id != c.cycleId && |Newer(s, id, c.cycleId)| >= Max(0, c.retention - 1)
    ensures PublishStep(c, b, s, s - {CycleObj(id, name)})
  {
    var s' := s - {CycleObj(id, name)};
    forall k: Key ensures KeyRule(c, b, s, s', k) {
      if k == CycleObj(id, name) {
        assert PruneRule(c, b, s, s', id, name);
      }
    }
  }

  // -------------------------------------------------------- crash atomicity

  /** A pointer byte for byte as at b, and its cycle too if b's was complete. */
  ghost predicate StillAt(b: Store, s: Store) {
    && PointerData(s) == PointerData(b)
    && (NamesCompleteCycle(b) ==> Resolve(s) == Resolve(b))
  }

  /** What holds of every bucket inside a publication of c that began at b. */
  ghost predicate AtomicWithin(c: CycleCall, b: Store, s: Store) {
    StillAt(b, s) || (Resolve(s) == CommittedView(c) && NamesCompleteCycle(s))
  }

  ghost predicate ValidCall(c: CycleCall) {
    WellFormedPointer(PointerDoc(c.cycleId, c.generatedAt, CallNames(c)))
  }

  lemma CommitIsReadBack(c: CycleCall, s: Store)
    requires ValidCall(c) && Lookup(s, CURRENT_KEY) == Some(CommitObj(c))
    ensures PointerDocOf(s) == Some(PointerDoc(c.cycleId, c.generatedAt, CallNames(c)))
  {
    PointerRoundTrip(c.cycleId, c.generatedAt, CallNames(c));
  }

  lemma CommittedIffStaged(c: CycleCall, s: Store)
    requires ValidCall(c) && Lookup(s, CURRENT_KEY) == Some(CommitObj(c))
    ensures Resolve(s) == CommittedView(c) <==> AllStaged(c, s)
    ensures AllStaged(c, s) ==> NamesCompleteCycle(s)
  {
    CommitIsReadBack(c, s);
    if AllStaged(c, s) {
      assert Resolve(s).objects == CommittedView(c).objects;
    }
    if Resolve(s) == CommittedView(c) {
      forall name | name in CallNames(c)
        ensures CycleObj(c.cycleId, name) in s && s[CycleObj(c.cycleId, name)] == Objects(c.payloads)[name]
      {
        assert Resolve(s).objects[name] == CommittedView(c).objects[name];
      }
    }
  }

  /** The view depends on the pointer's bytes and the cycle's objects alone. */
  lemma LiveView(c: CycleCall, s: Store, d: PointerDoc)
    requires PointerDocOf(s) == Some(d) && d.cycleId == c.cycleId && d.names == CallNames(c)
    requires CURRENT_KEY in s && s[CURRENT_KEY].data == CommitObj(c).data
    requires forall name :: name in CallNames(c) ==>
               Lookup(s, CycleObj(c.cycleId, name)) == Some(Objects(c.payloads)[name])
    ensures Resolve(s) == CommittedView(c)
  {
    hide PointerDocOf, CommitObj;
    assert Resolve(s).objects == CommittedView(c).objects;
  }

  lemma StagedStaysStaged(c: CycleCall, b: Store, s: Store, s': Store)
    requires PublishStep(c, b, s, s') && AllStaged(c, s)
    ensures AllStaged(c, s')
  {
    forall name | name in CallNames(c)
      ensures CycleObj(c.cycleId, name) in s' && s'[CycleObj(c.cycleId, name)] == Objects(c.payloads)[name]
    {
      assert KeyRule(c, b, s, s', CycleObj(c.cycleId, name));
    }
  }

  /** Once a whole cycle is pointed at, one always is: the same one, or c's. */
  lemma CompleteViewStep(c: CycleCall, b: Store, s: Store, s': Store)
    requires ValidCall(c) && NamesCompleteCycle(s) && PublishStep(c, b, s, s')
    ensures Resolve(s') == if SameAt(s, s', CURRENT_KEY) then Resolve(s) else CommittedView(c)
    ensures !SameAt(s, s', CURRENT_KEY) ==> Lookup(s', CURRENT_KEY) == Some(CommitObj(c))
    ensures NamesCompleteCycle(s')
  {
    assert KeyRule(c, b, s, s', CURRENT_KEY);
    if SameAt(s, s', CURRENT_KEY) {
      ViewStays(c, b, s, s');
    } else {
      StagedStaysStaged(c, b, s, s');
      CommittedIffStaged(c, s');
    }
  }

  lemma ViewStays(c: CycleCall, b: Store, s: Store, s': Store)
    requires ValidCall(c) && NamesCompleteCycle(s) && PublishStep(c, b, s, s') && SameAt(s, s', CURRENT_KEY)
    ensures Resolve(s') == Resolve(s) && NamesCompleteCycle(s')
  {
    var d := PointerDocOf(s).value;
    forall name | name in d.names
      ensures SameAt(s, s', CycleObj(d.cycleId, name))
    {
      assert KeyRule(c, b, s, s', CycleObj(d.cycleId, name));
      if PruneRule(c, b, s, s', d.cycleId, name) {
        CommitIsReadBack(c, s);
      }
    }
    SameObjectsSameView(s, s', d);
  }

  lemma SameObjectsSameView(s: Store, s': Store, d: PointerDoc)
    requires NamesCompleteCycle(s) && PointerDocOf(s) == Some(d) && SameAt(s, s', CURRENT_KEY)
    requires forall name :: name in d.names ==> SameAt(s, s', CycleObj(d.cycleId, name))
    ensures Resolve(s') == Resolve(s) && NamesCompleteCycle(s')
  {
    assert Resolve(s').objects == Resolve(s).objects;
  }

  /** Equal views are equally complete. */
  lemma ViewDecidesCompleteness(s: Store, s': Store)
    requires Resolve(s) == Resolve(s')
    ensures PointerDocOf(s) == PointerDocOf(s')
    ensures NamesCompleteCycle(s) <==> NamesCompleteCycle(s')
  {
    if PointerDocOf(s).Some? {
      var d := PointerDocOf(s).value;
      assert forall name :: name in d.names ==>
          Resolve(s).objects[name] == Lookup(s, CycleObj(d.cycleId, name))
          && Resolve(s').objects[name] == Lookup(s', CycleObj(d.cycleId, name));
    }
  }

  /** One allowed change keeps the pointer's dataset whole. */
  lemma StepIsAtomic(c: CycleCall, b: Store, s: Store, s': Store)
    requires ValidCall(c)
    requires AtomicWithin(c, b, s) && PublishStep(c, b, s, s')
    ensures AtomicWithin(c, b, s')
  {
    assert KeyRule(c, b, s, s', CURRENT_KEY);
    if NamesCompleteCycle(s) {
      CompleteViewStep(c, b, s, s');
    } else if NamesCompleteCycle(b) {
      ViewDecidesCompleteness(b, s);
    } else if !SameAt(s, s', CURRENT_KEY) {
      StagedStaysStaged(c, b, s, s');
      CommittedIffStaged(c, s');
    }
  }

  // ------------------------------------------------------------ repair facts

  /** Every fixed key is the object that d names, up to an empty content type. */
  ghost predicate FixedMatches(s: Store, d: PointerDoc) {
    forall name :: name in d.names ==>
      && CycleObj(d.cycleId, name) in s && Fixed(name) in s
      && (s[Fixed(name)] == s[CycleObj(d.cycleId, name)] || s[Fixed(name)] == Restored(s[CycleObj(d.cycleId, name)]))
  }

  ghost predicate FixedMatchesPointer(s: Store) {
    match PointerDocOf(s)
    case None => false
    case Some(d) => FixedMatches(s, d)
  }

  lemma RepairTouchesFixedOnly(s: Store, d: PointerDoc)
    requires Present(s, d)
    ensures FixedOnly(d.names, s, Repaired(s, d))
    ensures Present(Repaired(s, d), d) && Snapshot(Repaired(s, d), d) == Snapshot(s, d)
    ensures s.Keys <= Repaired(s, d).Keys
  {
    forall k: Key ensures (k.Fixed? && k.name in d.names) || SameAt(s, Repaired(s, d), k) {}
    forall name | name in d.names ensures SameAt(s, Repaired(s, d), CycleObj(d.cycleId, name)) {}
  }

  lemma RecoveryTouchesFixedOnly(s: Store, expected: set<string>)
    ensures FixedOnly(RecoverNames(s, expected), s, RecoverSpec(s, expected))
  {
    if Trusted(s, expected) {
      RepairTouchesFixedOnly(s, PointerDocOf(s).value);
    }
  }

  lemma RepairConverges(s: Store, d: PointerDoc)
    requires Present(s, d)
    ensures FixedMatches(Repaired(s, d), d)
  {
    RepairTouchesFixedOnly(s, d);
    var s' := Repaired(s, d);
    forall name | name in d.names
      ensures CycleObj(d.cycleId, name) in s' && Fixed(name) in s'
      ensures s'[Fixed(name)] == s'[CycleObj(d.cycleId, name)] ||
                s'[Fixed(name)] == Restored(s'[CycleObj(d.cycleId, name)])
    {
      assert Snapshot(s', d)[name] == Snapshot(s, d)[name];
      if Quiet(s, d) {
        assert FixedState(s, d.names)[name] == Wanted(Snapshot(s, d))[name];
      }
    }
  }

  lemma MirrorShows(s: Store, m: map<string, Obj>)
    ensures FixedState(s + Mirror(m), m.Keys) == Wanted(m)
    ensures s + Mirror(m) + Mirror(m) == s + Mirror(m)
  {}

  lemma WantedIsInjective(m: map<string, Obj>, n: map<string, Obj>)
    requires Wanted(m) == Wanted(n)
    ensures m == n
  {
    assert Wanted(m).Keys == m.Keys && Wanted(n).Keys == n.Keys;
    forall name | name in m ensures m[name] == n[name] {
      assert Wanted(m)[name] == Wanted(n)[name];
    }
  }

  lemma RestoringIsNeutralIff(m: map<string, Obj>)
    ensures RestoredAll(m) == m <==> forall name :: name in m ==> m[name].contentType != ""
  {
    if name :| name in m && m[name].contentType == "" {
      assert RestoredAll(m)[name] != m[name];
    }
  }

  lemma SnapshotNames(s: Store, d: PointerDoc)
    requires Present(s, d)
    ensures Snapshot(s, d).Keys == RestoredAll(Snapshot(s, d)).Keys == d.names
  {}

  lemma RepairIsIdempotent(s: Store, d: PointerDoc)
    requires Present(s, d)
    ensures Present(Repaired(s, d), d) && Repaired(Repaired(s, d), d) == Repaired(s, d)
    ensures Quiet(Repaired(s, d), d)
            <==> Quiet(s, d) || forall name :: name in Snapshot(s, d) ==> Snapshot(s, d)[name].contentType != ""
  {
    RepairTouchesFixedOnly(s, d);
    hide Present, Wanted, FixedState, Mirror, RestoredAll, Snapshot;
    if !Quiet(s, d) {
      SnapshotNames(s, d);
      var want := Snapshot(s, d);
      MirrorShows(s, RestoredAll(want));
      RestoringIsNeutralIff(want);
      assert FixedState(Repaired(s, d), d.names) == Wanted(RestoredAll(want));
      if Quiet(Repaired(s, d), d) {
        WantedIsInjective(RestoredAll(want), want);
      }
    }
  }

  /** A cycle that stages a `current.json` stages the bytes that point at it. */
  predicate PointerSurvives(s: Store, d: PointerDoc)
    requires Present(s, d) && CURRENT_KEY in s
  {
    POINTER_NAME in d.names ==> s[CycleObj(d.cycleId, POINTER_NAME)].data == s[CURRENT_KEY].data
  }

  /** The same, up to the layout of the document. */
  predicate PointsAtItself(s: Store, d: PointerDoc)
    requires Present(s, d)
  {
    POINTER_NAME in d.names ==> DecodePointer(s[CycleObj(d.cycleId, POINTER_NAME)].data) == Some(d)
  }

  lemma RecoveredPointer(s: Store, expected: set<string>, d: PointerDoc)
    requires Trusted(s, expected) && PointerDocOf(s) == Some(d)
    ensures PointerData(RecoverSpec(s, expected))
         == if POINTER_NAME in d.names then Some(s[CycleObj(d.cycleId, POINTER_NAME)].data) else PointerData(s)
  {
    var s' := Repaired(s, d);
    RepairTouchesFixedOnly(s, d);
    RepairConverges(s, d);
    assert POINTER_NAME !in d.names ==> SameAt(s, s', CURRENT_KEY);
    assert SameAt(s, s', CycleObj(d.cycleId, POINTER_NAME));
  }

  lemma RecoveryKeepsTrust(s: Store, expected: set<string>, d: PointerDoc)
    requires Trusted(s, expected) && PointerDocOf(s) == Some(d) && PointsAtItself(s, d)
    ensures PointerDocOf(RecoverSpec(s, expected)) == Some(d)
    ensures Trusted(RecoverSpec(s, expected), expected)
  {
    RecoveredPointer(s, expected, d);
    RepairTouchesFixedOnly(s, d);
    if META_NAME in d.names {
      assert SameAt(s, Repaired(s, d), CycleObj(d.cycleId, META_NAME));
    }
  }

  /**
   Convergence: after one recovery the fixed keys are the objects of the cycle
   that was pointed at, and no other key has moved. The pointer keeps its bytes
   exactly if that cycle has no `current.json` of its own, or one with just
   those bytes; otherwise the recovery has overwritten it.
   */
  lemma RecoveryConverges(s: Store, expected: set<string>, d: PointerDoc)
    requires Trusted(s, expected) && PointerDocOf(s) == Some(d)
    ensures var s' := RecoverSpec(s, expected);
            && FixedMatches(s', d)
            && (forall k: Key :: k.CycleObj? || k.Foreign? ==> SameAt(s, s', k))
            && (PointerData(s') == PointerData(s) <==> PointerSurvives(s, d))
            && (PointerSurvives(s, d) ==> FixedMatchesPointer(s') && Trusted(s', expected))
            && (POINTER_NAME !in d.names ==> SameAt(s, s', CURRENT_KEY))
  {
    RecoveryTouchesFixedOnly(s, expected);
    RepairConverges(s, d);
    RecoveredPointer(s, expected, d);
    if PointerSurvives(s, d) {
      RecoveryKeepsTrust(s, expected, d);
    }
    assert POINTER_NAME !in d.names ==> SameAt(s, RecoverSpec(s, expected), CURRENT_KEY);
  }

  /**
   A first recovery leaves the pointer leading to its cycle exactly if a staged
   `current.json` reads as that pointer. Then a second recovery leaves the
   bucket as the first one made it, and it issues no write at all exactly when
   the first had none to issue or every stored object has a content type: an
   empty one is replaced each time.
   */
  lemma RecoveryIsIdempotent(s: Store, expected: set<string>, d: PointerDoc)
    requires Trusted(s, expected) && PointerDocOf(s) == Some(d)
    ensures var s' := RecoverSpec(s, expected);
            && (PointerDocOf(s') == Some(d) <==> PointsAtItself(s, d))
            && (PointsAtItself(s, d) ==>
                  && Trusted(s', expected) && RecoverSpec(s', expected) == s'
                  && (Quiet(s', d) <==> Quiet(s, d) || forall name :: name in d.names ==>
                      s[CycleObj(d.cycleId, name)].contentType != ""))
  {
    RecoveredPointer(s, expected, d);
    RepairIsIdempotent(s, d);
    assert forall name :: name in d.names ==> Snapshot(s, d)[name] == s[CycleObj(d.cycleId, name)];
    if PointsAtItself(s, d) {
      RecoveryKeepsTrust(s, expected, d);
    }
  }
}

/**
 The S3 adapter (src/s3io.py:161-422) and its retry policy (src/retry.py:17-46).

 The bucket is a map that every request sees atomically: S3 is strongly
 read-after-write consistent and there is one writer process. A request may
 fail before it takes effect or after it, transiently or permanently. The
 ghost history lists every value the bucket has held, so a claim about every
 crash point is a claim about every element of the history.
 */
module S3 {
  import opened Prelude
  import opened Keys
  import opened Documents

  datatype Obj = Obj(data: Bytes, contentType: string)

  type Store = map<Key, Obj>

  datatype S3Error = S3Error(retryable: bool)

  const MAX_ATTEMPTS := 3

  // -------------------------------------------------------------- requests

  /** One S3 request. A continuation token stands for what was already listed. */
  datatype Request =
    | Get(key: Key)
    | Put(key: Key, obj: Obj)
    | Delete(key: Key)
    | Probe(id: string)
    | ListCycles(seenIds: set<string>)
    | ListCycle(id: string, seenKeys: set<Key>)

  datatype Response =
    | Body(obj: Option<Obj>)
    | Done
    | Found(any: bool)
    | Ids(ids: seq<string>, moreIds: bool)
    | ObjectKeys(keys: seq<Key>, moreKeys: bool)

  function LiveIds(s: Store): set<string> {
    set k | k in s && k.CycleObj? :: k.id
  }

  function CycleKeys(s: Store, id: string): set<Key> {
    set k | k in s && k.CycleObj? && k.id == id
  }

  function Effect(s: Store, req: Request): Store {
    match req
    case Put(k, o) => s[k := o]
    case Delete(k) => s - {k}
    case _ => s
  }

  /** One page of a listing: fresh, non-repeating, and complete unless it says more. */
  ghost predicate PageOf<T(!new)>(all: set<T>, seen: set<T>, page: seq<T>, more: bool) {
    && Distinct(page)
    && Elements(page) !! seen
    && Elements(page) <= all
    && (more ==> page != [])
    && (!more ==> all <= seen + Elements(page))
  }

  ghost predicate Answers(s: Store, req: Request, resp: Response) {
    match req
    case Get(k) => resp == Body(Lookup(s, k))
    case Put(_, _) => resp == Done
    case Delete(_) => resp == Done
    case Probe(id) => resp == Found(id in LiveIds(s))
    case ListCycles(seen) => resp.Ids? && PageOf(LiveIds(s), seen, resp.ids, resp.moreIds)
    case ListCycle(id, seen) => resp.ObjectKeys? && PageOf(CycleKeys(s, id), seen, resp.keys, resp.moreKeys)
  }

  /** The history after the bucket became s; an unchanged bucket adds nothing. */
  ghost function Extend(h: seq<Store>, s: Store): (h': seq<Store>)
    requires |h| > 0
    ensures |h'| > 0 && h'[|h'| - 1] == s
    ensures h <= h'
  {
    if h[|h| - 1] == s then h else h + [s]
  }

  /** The server chooses the page; any non-empty part of what is left will do. */
  method ChoosePage<T(==)>(left: set<T>) returns (page: seq<T>, more: bool)
    ensures Distinct(page) && Elements(page) <= left
    ensures more ==> page != []
    ensures more <==> Elements(page) != left
  {
    page := [];
    var rest := left;
    var go := true;
    while rest != {} && (go || page == [])
      invariant Distinct(page) && Elements(page) !! rest && Elements(page) + rest == left
      decreases rest
    {
      var x :| x in rest;
      ghost var before := Elements(page);
      page := page + [x];
      assert Elements(page) == before + {x};
      rest := rest - {x};
      go := *;
    }
    more := rest != {};
  }

  lemma EffectRepeats(s: Store, req: Request)
    ensures Effect(Effect(s, req), req) == Effect(s, req)
    ensures forall resp :: Answers(Effect(s, req), req, resp) ==> Answers(s, req, resp)
  {}

  lemma ExtendRepeats(h: seq<Store>, s: Store)
    requires |h| > 0
    ensures Extend(h, h[|h| - 1]) == h && Extend(Extend(h, s), s) == Extend(h, s)
  {}

  /** A bucket that changes at most once, whenever that is. */
  lemma ExtendTwice(h: seq<Store>, mid: Store, after: Store)
    requires |h| > 0 && (mid == h[|h| - 1] || after == mid)
    ensures Extend(Extend(h, mid), after) == Extend(h, after)
  {}

  /** What the server says to an attempt that it answers. */
  method Answer(req: Request, store: Store) returns (r: Response)
    ensures Answers(store, req, r)
  {
    match req {
      case Get(k) =>
        r := Body(Lookup(store, k));
      case Probe(id) =>
        r := Found(id in LiveIds(store));
      case ListCycles(seen) =>
        var page, more := ChoosePage(LiveIds(store) - seen);
        r := Ids(page, more);
      case ListCycle(id, seen) =>
        var page, more := ChoosePage(CycleKeys(store, id) - seen);
        r := ObjectKeys(page, more);
      case _ =>
        r := Done;
    }
  }

  // ---------------------------------------------------------------- client

  /** One attempt at a request, and the error it raised, if any. */
  datatype Attempt = Attempt(req: Request, failure: Option<S3Error>)

  function FailedAttempts(tries: seq<Attempt>): nat {
    if |tries| == 0 then 0
    else FailedAttempts(tries[..|tries| - 1]) + (if tries[|tries| - 1].failure.Some? then 1 else 0)
  }

  /** Some request from position `from` on raised. */
  ghost predicate RequestFailed(tries: seq<Attempt>, from: nat) {
    exists i :: from <= i < |tries| && tries[i].failure.Some?
  }

  lemma OneMoreAttempt(tries: seq<Attempt>, t: Attempt)
    ensures FailedAttempts(tries + [t]) == FailedAttempts(tries) + (if t.failure.Some? then 1 else 0)
  {
    assert (tries + [t])[..|tries|] == tries;
  }

  /** More faults than before mean an attempt since then that raised. */
  lemma {:induction false} FaultsAreFailures(before: seq<Attempt>, after: seq<Attempt>)
    requires before <= after
    ensures FailedAttempts(before) <= FailedAttempts(after)
    ensures FailedAttempts(before) < FailedAttempts(after) ==> RequestFailed(after, |before|)
  {
    if |before| == |after| {
      assert before == after;
    } else {
      var n := |after| - 1;
      FaultsAreFailures(before, after[..n]);
      if RequestFailed(after[..n], |before|) {
        var i :| |before| <= i < n && after[..n][i].failure.Some?;
        assert after[i].failure.Some?;
      }
    }
  }

  /**
   The retry policy (src/retry.py:35-46): the same request up to MAX_ATTEMPTS
   times, again only after a retryable error, and the last attempt is the
   outcome. A permanent error is never repeated; a retryable one is raised
   only when all attempts are used up.
   */
  ghost predicate Retried<T>(req: Request, tries: seq<Attempt>, r: Result<T, S3Error>) {
    var n := |tries|;
    && 1 <= n <= MAX_ATTEMPTS
    && (forall i :: 0 <= i < n ==> tries[i].req == req)
    && (forall i :: 0 <= i < n - 1 ==> tries[i].failure.Some? && tries[i].failure.value.retryable)
    && tries[n - 1].failure == (match r case Ok(_) => None case Err(e) => Some(e))
    && (r.Err? && r.error.retryable ==> n == MAX_ATTEMPTS)
  }

  /** The last of these attempts was the last of a retried request, which failed for good. */
  ghost predicate GaveUp(tries: seq<Attempt>, from: nat, e: S3Error) {
    exists n :: from <= n < |tries| && Retried<()>(tries[n].req, tries[n..], Err(e))
  }

  // ------------------------------------------------- write-once uploads

  /** One run of the retried closure of a write-once upload, and what it raised. */
  datatype Round = Round(tries: seq<Attempt>, result: Result<(), S3Error>)

  /** A look that answered, or the error it gave up with. */
  ghost predicate Looked(k: Key, tries: seq<Attempt>, failure: Option<S3Error>) {
    Retried<()>(Get(k), tries, match failure case None => Ok(()) case Some(e) => Err(e))
  }

  /**
   The attempts of one round (src/s3io.py:384-411): a look; if it finds nothing,
   one PUT; if that fails, a second look. A failed look is the round's error, a
   different object a permanent one, and a PUT that left nothing behind its own.
   */
  ghost predicate RoundLog(k: Key, o: Obj, round: Round) {
    var tries, r := round.tries, round.result;
    || (r.Err? && Looked(k, tries, Some(r.error)))
    || (Looked(k, tries, None) && (r.Ok? || !r.error.retryable))
    || (exists n :: 0 <= n < |tries| && PutLog(k, o, tries, n, r))
  }

  ghost predicate PutLog(k: Key, o: Obj, tries: seq<Attempt>, n: nat, r: Result<(), S3Error>)
    requires n < |tries|
  {
    && Looked(k, tries[..n], None) && tries[n].req == Put(k, o)
    && (match tries[n].failure
        case None => n + 1 == |tries| && r.Ok?
        case Some(e) =>
          || (r.Err? && Looked(k, tries[n + 1..], Some(r.error)))
          || (Looked(k, tries[n + 1..], None) && (r.Ok? || !r.error.retryable || r.error == e)))
  }

  /** Rounds that follow the retry policy: all but the last raised a retryable error. */
  ghost predicate Rounds(k: Key, o: Obj, rounds: seq<Round>, r: Result<(), S3Error>) {
    var n := |rounds|;
    && 1 <= n <= MAX_ATTEMPTS
    && (forall i :: 0 <= i < n ==> RoundLog(k, o, rounds[i]))
    && (forall i :: 0 <= i < n - 1 ==> rounds[i].result.Err? && rounds[i].result.error.retryable)
    && rounds[n - 1].result == r
    && (r.Err? && r.error.retryable ==> n == MAX_ATTEMPTS)
  }

  ghost function AttemptsOf(rounds: seq<Round>): seq<Attempt> {
    if |rounds| == 0 then [] else AttemptsOf(rounds[..|rounds| - 1]) + rounds[|rounds| - 1].tries
  }

  /** A round that ended with its look. */
  lemma LookRound(k: Key, o: Obj, look: seq<Attempt>, r: Result<(), S3Error>)
    requires (r.Err? && Looked(k, look, Some(r.error))) || (Looked(k, look, None) && (r.Ok? || !r.error.retryable))
    ensures RoundLog(k, o, Round(look, r))
  {}

  /** A round that got as far as its PUT. */
  lemma PutRound(k: Key, o: Obj, look: seq<Attempt>, put: Attempt, second: seq<Attempt>, r: Result<(), S3Error>)
    requires Looked(k, look, None) && put.req == Put(k, o)
    requires match put.failure
             case None => second == [] && r.Ok?
             case Some(e) =>
               || (r.Err? && Looked(k, second, Some(r.error)))
               || (Looked(k, second, None) && (r.Ok? || !r.error.retryable || r.error == e))
    ensures RoundLog(k, o, Round(look + [put] + second, r))
  {
    hide Looked;
    var tries, n := look + [put] + second, |look|;
    assert tries[..n] == look && tries[n] == put && tries[n + 1..] == second;
    assert PutLog(k, o, tries, n, r);
  }

  lemma FirstRound(before: seq<Attempt>, after: seq<Attempt>, r: Result<(), S3Error>)
    requires before <= after
    ensures after == before + AttemptsOf([Round(after[|before|..], r)])
  {
    var round := Round(after[|before|..], r);
    assert [round][..0] == [] && AttemptsOf([round][..0]) == [];
    assert AttemptsOf([round]) == [] + round.tries;
  }

  lemma OneMoreRound(before: seq<Attempt>, tried: seq<Attempt>, after: seq<Attempt>, rounds: seq<Round>,
                     r: Result<(), S3Error>)
    requires tried <= after && tried == before + AttemptsOf(rounds)
    ensures after == before + AttemptsOf(rounds + [Round(after[|tried|..], r)])
  {
    assert (rounds + [Round(after[|tried|..], r)])[..|rounds|] == rounds;
  }

  /** A second write-once upload after one that did not return. */
  lemma StagedTwice(before: Store, mid: Store, after: Store, k: Key, o: Obj, r: Result<(), S3Error>)
    requires mid == before || (k !in before && mid == before[k := o])
    requires StagedOutcome(mid, after, k, o, r)
    ensures StagedOutcome(before, after, k, o, r)
  {}

  /** What a write-once upload of o at k may leave behind. */
  ghost predicate StagedOutcome(before: Store, after: Store, k: Key, o: Obj, r: Result<(), S3Error>) {
    && (after == before || (k !in before && after == before[k := o]))
    && (r.Ok? ==> k in after && after[k] == o)
  }

  class Client {
    var store: Store
    ghost var history: seq<Store>
    ghost var faults: nat       // requests that raised
    ghost var getCalls: nat
    ghost var putCalls: nat
    ghost var putEffects: nat   // PUTs that reached the bucket
    ghost var deleteCalls: nat
    ghost var sent: seq<Attempt>

    /** `store` is the latest bucket, and `faults` counts the attempts that raised. */
    ghost predicate Valid()
      reads this
    {
      |history| > 0 && history[|history| - 1] == store && faults == FailedAttempts(sent)
    }

    constructor (initial: Store)
      ensures Valid() && store == initial && history == [initial]
      ensures faults == 0 && getCalls == 0 && putCalls == 0 && putEffects == 0 && deleteCalls == 0 && sent == []
    {
      store := initial;
      history := [initial];
      faults, getCalls, putCalls, putEffects, deleteCalls := 0, 0, 0, 0, 0;
      sent := [];
    }

    /** One attempt at one request. */
    method Send(req: Request) returns (r: Result<Response, S3Error>)
      requires Valid()
      modifies this
      ensures Valid() && history == Extend(old(history), store)
      ensures r.Ok? ==> store == Effect(old(store), req) && Answers(old(store), req, r.value)
      ensures r.Err? ==> store == old(store) || store == Effect(old(store), req)
      ensures faults == old(faults) + (if r.Err? then 1 else 0)
      ensures getCalls == old(getCalls) + (if req.Get? then 1 else 0)
      ensures putCalls == old(putCalls) + (if req.Put? then 1 else 0)
      ensures putEffects == old(putEffects)
              || (req.Put? && putEffects == old(putEffects) + 1 && store == Effect(old(store), req))
      ensures putEffects == old(putEffects) && req.Put? ==> r.Err? && store == old(store)
      ensures deleteCalls == old(deleteCalls) + (if req.Delete? then 1 else 0)
      ensures sent == old(sent) + [Attempt(req, match r case Ok(_) => None case Err(e) => Some(e))]
    {
      hide Effect, Answers, Extend, FailedAttempts;
      OneMoreAttempt(sent, Attempt(req, None));
      EffectRepeats(store, req);
      ExtendRepeats(history, store);
      deleteCalls := deleteCalls + (if req.Delete? then 1 else 0);
      getCalls := getCalls + (if req.Get? then 1 else 0);
      putCalls := putCalls + (if req.Put? then 1 else 0);
      var landed: bool := *;
      var answered: bool := *;
      if landed || answered {
        putEffects := putEffects + (if req.Put? then 1 else 0);
        store := Effect(store, req);
        history := Extend(history, store);
      }
      if answered {
        sent := sent + [Attempt(req, None)];
        var answer := Answer(req, store);
        r := Ok(answer);
      } else {
        var retryable: bool := *;
        faults := faults + 1;
        OneMoreAttempt(sent, Attempt(req, Some(S3Error(retryable))));
        sent := sent + [Attempt(req, Some(S3Error(retryable)))];
        r := Err(S3Error(retryable));
      }
    }

    /** `_call`: at most MAX_ATTEMPTS attempts, repeated only after transient errors. */
    method Call(req: Request) returns (r: Result<Response, S3Error>)
      requires Valid()
      modifies this
      ensures Valid() && history == Extend(old(history), store)
      ensures store == old(store) || store == Effect(old(store), req)
      ensures r.Ok? ==> store == Effect(old(store), req) && Answers(old(store), req, r.value)
      ensures r.Err? ==> faults > old(faults)
      ensures faults >= old(faults)
      ensures old(getCalls) <= getCalls <= old(getCalls) + (if req.Get? then MAX_ATTEMPTS else 0)
      ensures old(putCalls) <= putCalls <= old(putCalls) + (if req.Put? then MAX_ATTEMPTS else 0)
      ensures !req.Put? ==> putEffects == old(putEffects)
      ensures !req.Delete? ==> deleteCalls == old(deleteCalls)
      ensures old(sent) <= sent && Retried(req, sent[|old(sent)|..], r)
    {
      hide Effect, Answers, Extend, FailedAttempts;
      EffectRepeats(old(store), req);
      ExtendRepeats(old(history), Effect(old(store), req));
      r := Send(req);
      var attempt := 1;
      while r.Err? && attempt < MAX_ATTEMPTS && r.error.retryable
        invariant 1 <= attempt <= MAX_ATTEMPTS
        invariant Valid() && history == Extend(old(history), store)
        invariant store == old(store) || store == Effect(old(store), req)
        invariant r.Ok? ==> store == Effect(old(store), req) && Answers(old(store), req, r.value)
        invariant faults >= old(faults) && (r.Err? ==> faults > old(faults))
        invariant old(getCalls) <= getCalls <= old(getCalls) + (if req.Get? then attempt else 0)
        invariant old(putCalls) <= putCalls <= old(putCalls) + (if req.Put? then attempt else 0)
        invariant !req.Put? ==> putEffects == old(putEffects)
        invariant !req.Delete? ==> deleteCalls == old(deleteCalls)
        invariant old(sent) <= sent && |sent| == |old(sent)| + attempt
        invariant forall i :: |old(sent)| <= i < |sent| ==> sent[i].req == req
        invariant forall i :: |old(sent)| <= i < |sent| - 1 ==> sent[i].failure.Some? && sent[i].failure.value.retryable
        invariant sent[|sent| - 1].failure == (match r case Ok(_) => None case Err(e) => Some(e))
      {
        r := Send(req);
        attempt := attempt + 1;
      }
    }

    /** `fetch_object`: body and content type, or None when the key is missing. */
    method Fetch(k: Key) returns (r: Result<Option<Obj>, S3Error>)
      requires Valid()
      modifies this
      ensures Valid() && store == old(store) && history == old(history)
      ensures r.Ok? ==> r.value == Lookup(store, k)
      ensures r.Err? ==> faults > old(faults)
      ensures faults >= old(faults)
      ensures old(getCalls) <= getCalls <= old(getCalls) + MAX_ATTEMPTS
      ensures putCalls == old(putCalls) && putEffects == old(putEffects) && deleteCalls == old(deleteCalls)
      ensures old(sent) <= sent && Retried(Get(k), sent[|old(sent)|..], r)
    {
      var resp := Call(Get(k));
      r := match resp case Ok(v) => Ok(v.obj) case Err(e) => Err(e);
    }

    /** `upload_bytes`: overwrites; repeating it is harmless. */
    method Upload(k: Key, o: Obj) returns (r: Result<(), S3Error>)
      requires Valid()
      modifies this
      ensures Valid() && history == Extend(old(history), store)
      ensures store == old(store) || store == old(store)[k := o]
      ensures r.Ok? ==> store == old(store)[k := o]
      ensures r.Err? ==> faults > old(faults)
      ensures faults >= old(faults) && deleteCalls == old(deleteCalls)
      ensures old(sent) <= sent && Retried(Put(k, o), sent[|old(sent)|..], r)
    {
      var resp := Call(Put(k, o));
      r := match resp case Ok(_) => Ok(()) case Err(e) => Err(e);
    }

    /** `delete_key` */
    method Remove(k: Key) returns (r: Result<(), S3Error>)
      requires Valid()
      modifies this
      ensures Valid() && history == Extend(old(history), store)
      ensures store == old(store) || store == old(store) - {k}
      ensures r.Ok? ==> store == old(store) - {k}
      ensures r.Err? ==> faults > old(faults)
      ensures faults >= old(faults)
      ensures old(sent) <= sent && Retried(Delete(k), sent[|old(sent)|..], r)
    {
      var resp := Call(Delete(k));
      r := match resp case Ok(_) => Ok(()) case Err(e) => Err(e);
    }

    /** `prefix_exists`, asked of one cycle's prefix. */
    method CycleExists(id: string) returns (r: Result<bool, S3Error>)
      requires Valid()
      modifies this
      ensures Valid() && store == old(store) && history == old(history)
      ensures r.Ok? ==> r.value == (id in LiveIds(store))
      ensures r.Err? ==> faults > old(faults)
      ensures faults >= old(faults)
      ensures old(sent) <= sent && Retried(Probe(id), sent[|old(sent)|..], r)
    {
      var resp := Call(Probe(id));
      r := match resp case Ok(v) => Ok(v.any) case Err(e) => Err(e);
    }

    /** `list_prefixes` of `cycles/`: every child once, whatever the paging. */
    method ListCycleIds() returns (r: Result<seq<string>, S3Error>)
      requires Valid()
      modifies this
      ensures Valid() && store == old(store) && history == old(history)
      ensures r.Ok? ==> Distinct(r.value) && Elements(r.value) == LiveIds(store)
      ensures r.Err? ==> faults > old(faults)
      ensures faults >= old(faults)
      ensures old(sent) < sent && (forall i :: |old(sent)| <= i < |sent| ==> sent[i].req.ListCycles?)
      ensures r.Err? ==> GaveUp(sent, |old(sent)|, r.error)
    {
      var out: seq<string> := [];
      var seen: set<string> := {};
      while true
        invariant Valid() && store == old(store) && history == old(history)
        invariant Distinct(out) && Elements(out) == seen && seen <= LiveIds(store)
        invariant faults >= old(faults)
        invariant old(sent) <= sent
        invariant forall i :: |old(sent)| <= i < |sent| ==> sent[i].req.ListCycles?
        decreases LiveIds(store) - seen
      {
        ghost var before := |sent|;
        var resp := Call(ListCycles(seen));
        match resp {
          case Err(e) =>
            assert Retried<()>(sent[before].req, sent[before..], Err(e));
            return Err(e);
          case Ok(v) =>
            DistinctAppend(out, v.ids);
            if v.moreIds {
              assert v.ids[0] in Elements(v.ids);
            }
            out := out + v.ids;
            seen := seen + (set id | id in v.ids);
            if !v.moreIds {
              return Ok(out);
            }
        }
      }
    }

    /** `list_keys` of one cycle. */
    method ListCycleKeys(id: string) returns (r: Result<seq<Key>, S3Error>)
      requires Valid()
      modifies this
      ensures Valid() && store == old(store) && history == old(history)
      ensures r.Ok? ==> Distinct(r.value) && Elements(r.value) == CycleKeys(store, id)
      ensures r.Err? ==> faults > old(faults)
      ensures faults >= old(faults)
      ensures old(sent) < sent
      ensures forall i :: |old(sent)| <= i < |sent| ==> sent[i].req.ListCycle? && sent[i].req.id == id
      ensures r.Err? ==> GaveUp(sent, |old(sent)|, r.error)
    {
      var out: seq<Key> := [];
      var seen: set<Key> := {};
      while true
        invariant Valid() && store == old(store) && history == old(history)
        invariant Distinct(out) && Elements(out) == seen && seen <= CycleKeys(store, id)
        invariant faults >= old(faults)
        invariant old(sent) <= sent
        invariant forall i :: |old(sent)| <= i < |sent| ==> sent[i].req.ListCycle? && sent[i].req.id == id
        decreases CycleKeys(store, id) - seen
      {
        ghost var before := |sent|;
        var resp := Call(ListCycle(id, seen));
        match resp {
          case Err(e) =>
            assert Retried<()>(sent[before].req, sent[before..], Err(e));
            return Err(e);
          case Ok(v) =>
            DistinctAppend(out, v.keys);
            if v.moreKeys {
              assert v.keys[0] in Elements(v.keys);
            }
            out := out + v.keys;
            seen := seen + (set k | k in v.keys);
            if !v.moreKeys {
              return Ok(out);
            }
        }
      }
    }

    /**
     The retried closure of `upload_immutable_bytes`: look, PUT only if absent,
     and resolve a failed PUT by looking again.
     */
    method StageOnce(k: Key, o: Obj) returns (r: Result<(), S3Error>)
      requires Valid()
      modifies this
      ensures Valid() && history == Extend(old(history), store)
      ensures StagedOutcome(old(store), store, k, o, r)
      ensures r.Err? && (k !in old(store) || old(store)[k] == o) ==> faults > old(faults)
      ensures faults >= old(faults)
      ensures old(getCalls) <= getCalls <= old(getCalls) + 2 * MAX_ATTEMPTS
      ensures old(putCalls) <= putCalls <= old(putCalls) + 1
      ensures putEffects == old(putEffects)
              || (putEffects == old(putEffects) + 1 && k !in old(store) && k in store)
      ensures old(sent) <= sent && RoundLog(k, o, Round(sent[|old(sent)|..], r))
      // an object that landed is only missed by a look that failed
      ensures r.Err? && k in store && store[k] == o ==>
                |sent| > |old(sent)| && sent[|sent| - 1] == Attempt(Get(k), Some(r.error))
      ensures r.Err? && r.error.retryable ==> faults > old(faults)
    {
      hide RoundLog, FailedAttempts;
      var existing := Fetch(k);
      ghost var look := sent[|old(sent)|..];
      match existing {
        case Err(e) =>
          LookRound(k, o, look, Err(e));
          return Err(e);
        case Ok(Some(found)) =>
          r := if found == o then Ok(()) else Err(S3Error(false));
          LookRound(k, o, look, r);
        case Ok(None) =>
          ghost var looked := |sent|;
          r := PutAndLook(k, o, look);
          assert sent[|old(sent)|..] == look + sent[looked..];
      }
    }

    /** The PUT of a round, and the look that resolves it when it failed. */
    method PutAndLook(k: Key, o: Obj, ghost look: seq<Attempt>) returns (r: Result<(), S3Error>)
      requires Valid() && k !in store && Looked(k, look, None)
      modifies this
      ensures Valid() && history == Extend(old(history), store)
      ensures StagedOutcome(old(store), store, k, o, r)
      ensures faults >= old(faults) && (r.Err? ==> faults > old(faults))
      ensures old(getCalls) <= getCalls <= old(getCalls) + MAX_ATTEMPTS && putCalls == old(putCalls) + 1
      ensures putEffects == old(putEffects) || (putEffects == old(putEffects) + 1 && k in store)
      ensures old(sent) < sent && RoundLog(k, o, Round(look + sent[|old(sent)|..], r))
      ensures r.Err? && k in store && store[k] == o ==> sent[|sent| - 1] == Attempt(Get(k), Some(r.error))
    {
      hide RoundLog, FailedAttempts;
      var put := Send(Put(k, o));
      ghost var first := sent[|sent| - 1];
      if put.Ok? {
        PutRound(k, o, look, first, [], Ok(()));
        assert look + sent[|old(sent)|..] == look + [first] + [];
        return Ok(());
      }
      ghost var tried := |sent|;
      var observed := Fetch(k);
      match observed {
        case Err(e) => r := Err(e);
        case Ok(Some(found)) =>
          r := if found == o then Ok(()) else Err(S3Error(false));
        case Ok(None) =>
          r := Err(put.error);
      }
      PutRound(k, o, look, first, sent[tried..], r);
      assert look + sent[|old(sent)|..] == look + [first] + sent[tried..];
    }

    /** `upload_immutable_bytes`; the rounds are the runs of the retried closure. */
    method UploadImmutable(k: Key, o: Obj) returns (r: Result<(), S3Error>, ghost rounds: seq<Round>)
      requires Valid()
      modifies this
      ensures Valid() && history == Extend(old(history), store)
      // an existing object is never changed, and an absent one only becomes the requested one
      ensures StagedOutcome(old(store), store, k, o, r)
      ensures k in old(store) && old(store)[k] != o ==> r.Err?
      ensures r.Err? && (k !in old(store) || old(store)[k] == o) ==> faults > old(faults)
      ensures faults >= old(faults)
      ensures putEffects <= old(putEffects) + 1
      ensures k in old(store) ==> putEffects == old(putEffects)
      ensures putCalls <= old(putCalls) + MAX_ATTEMPTS
      ensures getCalls <= old(getCalls) + 2 * MAX_ATTEMPTS * MAX_ATTEMPTS
      // every round but the last raised a retryable error, and a retryable error means three of them
      ensures Rounds(k, o, rounds, r) && sent == old(sent) + AttemptsOf(rounds)
      ensures r.Err? && r.error.retryable ==> faults >= old(faults) + MAX_ATTEMPTS
      // an object that landed is only missed by a look that failed
      ensures r.Err? && k in store && store[k] == o ==>
                |sent| > |old(sent)| && sent[|sent| - 1] == Attempt(Get(k), Some(r.error))
    {
      hide RoundLog, AttemptsOf, Extend, Retried, FailedAttempts;
      rounds := [];
      r := StageOnce(k, o);
      FirstRound(old(sent), sent, r);
      rounds := [Round(sent[|old(sent)|..], r)];
      var attempt := 1;
      while r.Err? && attempt < MAX_ATTEMPTS && r.error.retryable
        invariant 1 <= attempt <= MAX_ATTEMPTS
        invariant Valid() && history == Extend(old(history), store)
        invariant StagedOutcome(old(store), store, k, o, r)
        invariant r.Err? && (k !in old(store) || old(store)[k] == o) ==> faults > old(faults)
        invariant faults >= old(faults)
        invariant putEffects == old(putEffects)
                  || (putEffects == old(putEffects) + 1 && k !in old(store) && k in store)
        invariant putCalls <= old(putCalls) + attempt
        invariant getCalls <= old(getCalls) + 2 * MAX_ATTEMPTS * attempt
        invariant |rounds| == attempt && rounds[attempt - 1].result == r && sent == old(sent) + AttemptsOf(rounds)
        invariant forall i :: 0 <= i < attempt ==> RoundLog(k, o, rounds[i])
        invariant forall i :: 0 <= i < attempt - 1 ==> rounds[i].result.Err? && rounds[i].result.error.retryable
        invariant r.Err? && r.error.retryable ==> faults >= old(faults) + attempt
        invariant r.Err? && k in store && store[k] == o ==>
                    |sent| > |old(sent)| && sent[|sent| - 1] == Attempt(Get(k), Some(r.error))
      {
        ghost var tried, now := sent, store;
        r := StageOnce(k, o);
        StagedTwice(old(store), now, store, k, o, r);
        ExtendTwice(old(history), now, store);
        OneMoreRound(old(sent), tried, sent, rounds, r);
        rounds := rounds + [Round(sent[|tried|..], r)];
        attempt := attempt + 1;
      }
    }
  }
}

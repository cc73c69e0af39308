/**
 Repository enumeration (src/forge.py:69-207).

 The forge answers page requests; each answer is a failure that survived the
 retries, or a body. Pages past the last answer are empty, so that a listing
 is finite. The clone-URL policy enters as a function.
 */
module Forge {
  import opened Prelude
  import opened Documents
  import TextLines

  const PAGE_SIZE := 50

  datatype Repo = Repo(name: string, fullName: string, cloneUrl: string, empty: bool)

  datatype Answer = Failed | Body(json: Option<Json>)

  datatype EnumerationError = RequestFailed | InvalidPage | DuplicateRepo

  // ------------------------------------------------------------ one page

  function StringField(j: Json, key: string): Option<string>
    requires j.Dict?
  {
    if key in j.fields && j.fields[key].Str? && !TextLines.Blank(j.fields[key].s) then Some(j.fields[key].s) else None
  }

  function ReadRepo(j: Json, safe: string -> bool): Option<Repo> {
    if !j.Dict? then None
    else
      var name, full, url := StringField(j, "name"), StringField(j, "full_name"), StringField(j, "clone_url");
      if name.None? || full.None? || url.None? then None
      else if "empty" !in j.fields || !j.fields["empty"].Bool? then None
      else if !safe(url.value) then None
      else Some(Repo(name.value, full.value, url.value, j.fields["empty"].b))
  }

  function ReadRepos(items: seq<Json>, safe: string -> bool): Option<seq<Repo>> {
    if |items| == 0 then Some([])
    else
      var before := ReadRepos(items[..|items| - 1], safe);
      var last := ReadRepo(items[|items| - 1], safe);
      if before.None? || last.None? then None else Some(before.value + [last.value])
  }

  /** `_validated_page`: the whole page or nothing. */
  function ReadPage(body: Option<Json>, safe: string -> bool): Option<seq<Repo>> {
    if body.None? || !body.value.Dict? then None
    else
      var fields := body.value.fields;
      if "ok" in fields && fields["ok"] != Bool(true) then None
      else if "data" !in fields || !fields["data"].Arr? then None
      else ReadRepos(fields["data"].items, safe)
  }

  function AnswerAt(answers: seq<Answer>, page: nat): Answer
    requires page >= 1
  {
    if page <= |answers| then answers[page - 1] else Body(Some(Dict(map["data" := Arr([])])))
  }

  function PageAt(answers: seq<Answer>, page: nat, safe: string -> bool): Result<seq<Repo>, EnumerationError>
    requires page >= 1
  {
    match AnswerAt(answers, page)
    case Failed => Err(RequestFailed)
    case Body(json) =>
      match ReadPage(json, safe)
      case None => Err(InvalidPage)
      case Some(repos) => Ok(repos)
  }

  // ------------------------------------------------------------ the walk

  /** No two repositories share a name or a full name. */
  ghost predicate Unique(repos: seq<Repo>) {
    forall i, j :: 0 <= i < j < |repos| ==> repos[i].name != repos[j].name && repos[i].fullName != repos[j].fullName
  }

  function Gathered(answers: seq<Answer>, pages: nat, safe: string -> bool): seq<Repo> {
    if pages == 0 then []
    else
      Gathered(answers, pages - 1, safe)
        + (match PageAt(answers, pages, safe) case Ok(repos) => repos case Err(_) => [])
  }

  /** Non-empty repositories that are not denied, in listing order. */
  function Wanted(repos: seq<Repo>, denied: seq<string>): seq<Repo> {
    if |repos| == 0 then []
    else
      var r := repos[|repos| - 1];
      Wanted(repos[..|repos| - 1], denied) + (if r.empty || r.name in denied then [] else [r])
  }

  ghost predicate FullUpTo(answers: seq<Answer>, pages: nat, safe: string -> bool) {
    forall p: nat :: 1 <= p < pages ==> PageAt(answers, p, safe).Ok? && |PageAt(answers, p, safe).value| >= PAGE_SIZE
  }

  /** The walk stops at the first short page, or at the first that cannot be accepted. */
  ghost predicate Enumerates(answers: seq<Answer>, denied: seq<string>, safe: string -> bool,
                             r: Result<seq<Repo>, EnumerationError>, requests: nat) {
    && requests >= 1 && FullUpTo(answers, requests, safe) && Unique(Gathered(answers, requests - 1, safe))
    && var last := PageAt(answers, requests, safe);
       var all := Gathered(answers, requests, safe);
       match last
       case Err(e) => r == Err(e)
       case Ok(page) =>
         if Unique(all) then |page| < PAGE_SIZE && r == Ok(Wanted(all, denied)) else r == Err(DuplicateRepo)
  }

  ghost predicate Seen(names: set<string>, fullNames: set<string>, repos: seq<Repo>) {
    names == (set r | r in repos :: r.name) && fullNames == (set r | r in repos :: r.fullName)
  }

  /** The duplicate check over one batch; stops at the first repeated name. */
  method CheckBatch(before: seq<Repo>, batch: seq<Repo>, names: set<string>, fullNames: set<string>)
    returns (ok: bool, moreNames: set<string>, moreFullNames: set<string>)
    requires Seen(names, fullNames, before) && Unique(before)
    ensures ok <==> Unique(before + batch)
    ensures ok ==> Seen(moreNames, moreFullNames, before + batch)
  {
    moreNames, moreFullNames := names, fullNames;
    assert before + batch[..0] == before;
    for i := 0 to |batch|
      invariant Unique(before + batch[..i]) && Seen(moreNames, moreFullNames, before + batch[..i])
    {
      var r := batch[i];
      assert before + batch[..i + 1] == before + batch[..i] + [r];
      OneMoreRepo(before + batch[..i], r, moreNames, moreFullNames);
      if r.name in moreNames || r.fullName in moreFullNames {
        PrefixOfUnique(before + batch, |before| + i + 1);
        assert (before + batch)[..|before| + i + 1] == before + batch[..i + 1];
        return false, moreNames, moreFullNames;
      }
      moreNames, moreFullNames := moreNames + {r.name}, moreFullNames + {r.fullName};
    }
    assert before + batch[..|batch|] == before + batch;
    return true, moreNames, moreFullNames;
  }

  lemma OneMoreRepo(repos: seq<Repo>, r: Repo, names: set<string>, fullNames: set<string>)
    requires Unique(repos) && Seen(names, fullNames, repos)
    ensures Unique(repos + [r]) <==> r.name !in names && r.fullName !in fullNames
    ensures Seen(names + {r.name}, fullNames + {r.fullName}, repos + [r])
  {
    var more := repos + [r];
    if Unique(more) {
      forall q | q in repos ensures q.name != r.name && q.fullName != r.fullName {
        var i :| 0 <= i < |repos| && repos[i] == q;
        assert more[i] == q && more[|repos|] == r;
      }
    }
    forall i | 0 <= i < |repos| ensures repos[i] in repos {}
  }

  lemma PrefixOfUnique(repos: seq<Repo>, n: nat)
    requires n <= |repos|
    ensures Unique(repos) ==> Unique(repos[..n])
  {}

  /** `list_repos`, and how many pages it asked for. */
  method ListRepos(answers: seq<Answer>, denied: seq<string>, safe: string -> bool)
    returns (r: Result<seq<Repo>, EnumerationError>, requests: nat)
    ensures Enumerates(answers, denied, safe, r, requests)
  {
    hide ReadPage, Unique, Wanted;
    var repos: seq<Repo> := [];
    var names: set<string>, fullNames: set<string> := {}, {};
    NothingIsUnique();
    var page := 1;
    while true
      invariant page >= 1 && repos == Gathered(answers, page - 1, safe)
      invariant FullUpTo(answers, page, safe)
      invariant Unique(repos) && Seen(names, fullNames, repos)
      invariant page <= |answers| + 1
      decreases |answers| + 1 - page
    {
      requests := page;
      if page > |answers| {
        PastTheEnd(answers, page, safe);
      }
      var answer := PageAt(answers, page, safe);
      if answer.Err? {
        return Err(answer.error), requests;
      }
      var batch := answer.value;
      var ok;
      ok, names, fullNames := CheckBatch(repos, batch, names, fullNames);
      if !ok {
        return Err(DuplicateRepo), requests;
      }
      repos := repos + batch;
      if |batch| < PAGE_SIZE {
        break;
      }
      page := page + 1;
    }
    var out: seq<Repo> := [];
    NothingIsWanted(denied);
    for i := 0 to |repos|
      invariant out == Wanted(repos[..i], denied)
    {
      assert repos[..i + 1][..i] == repos[..i];
      OneMoreWanted(repos[..i], repos[i], denied);
      assert repos[..i + 1] == repos[..i] + [repos[i]];
      if repos[i].empty {
        continue;
      }
      if repos[i].name in denied {
        continue;
      }
      out := out + [repos[i]];
    }
    assert repos[..|repos|] == repos;
    return Ok(out), requests;
  }

  lemma NothingIsUnique()
    ensures Unique([])
  {}

  lemma NothingIsWanted(denied: seq<string>)
    ensures Wanted([], denied) == []
  {}

  lemma PastTheEnd(answers: seq<Answer>, page: nat, safe: string -> bool)
    requires page > |answers|
    ensures PageAt(answers, page, safe) == Ok([])
  {}

  lemma OneMoreWanted(repos: seq<Repo>, r: Repo, denied: seq<string>)
    ensures Wanted(repos + [r], denied) == Wanted(repos, denied) + (if r.empty || r.name in denied then [] else [r])
  {
    assert (repos + [r])[..|repos|] == repos;
  }

  // ------------------------------------------------------------ a listing in pages

  function RepoJson(r: Repo): Json {
    Dict(map["name" := Str(r.name), "full_name" := Str(r.fullName), "clone_url" := Str(r.cloneUrl),
        "empty" := Bool(r.empty)])
  }

  function ReposJson(repos: seq<Repo>): seq<Json> {
    if |repos| == 0 then [] else ReposJson(repos[..|repos| - 1]) + [RepoJson(repos[|repos| - 1])]
  }

  /** Items `from` up to `to`, cut off at the end of the listing. */
  function Slice(repos: seq<Repo>, from: nat, to: nat): seq<Repo>
    requires from <= to
  {
    repos[if from < |repos| then from else |repos|..if to < |repos| then to else |repos|]
  }

  /** A well-behaved forge: page `p` holds the listing's p-th fifty repositories. */
  ghost predicate Serves(answers: seq<Answer>, repos: seq<Repo>) {
    && |answers| == |repos| / PAGE_SIZE + 1
    && forall p: nat :: 1 <= p <= |answers| ==>
         var page := Slice(repos, PAGE_SIZE * (p - 1), PAGE_SIZE * p);
         answers[p - 1] == Body(Some(Dict(map["data" := Arr(ReposJson(page))])))
  }

  predicate Acceptable(r: Repo, safe: string -> bool) {
    !TextLines.Blank(r.name) && !TextLines.Blank(r.fullName) && !TextLines.Blank(r.cloneUrl) && safe(r.cloneUrl)
  }

  lemma {:induction false} ReposReadBack(repos: seq<Repo>, safe: string -> bool)
    requires forall r :: r in repos ==> Acceptable(r, safe)
    ensures ReadRepos(ReposJson(repos), safe) == Some(repos) && |ReposJson(repos)| == |repos|
  {
    hide ReadRepo, RepoJson, Acceptable;
    if |repos| == 0 {
    } else {
      var n := |repos| - 1;
      ReposReadBack(repos[..n], safe);
      RepoReadsBack(repos[n], safe);
      assert ReposJson(repos)[..n] == ReposJson(repos[..n]);
      assert repos == repos[..n] + [repos[n]];
    }
  }

  lemma RepoReadsBack(r: Repo, safe: string -> bool)
    requires Acceptable(r, safe)
    ensures ReadRepo(RepoJson(r), safe) == Some(r)
  {
    hide TextLines.Blank;
  }

  lemma PageIsASlice(answers: seq<Answer>, repos: seq<Repo>, safe: string -> bool, p: nat)
    requires Serves(answers, repos) && (forall r :: r in repos ==> Acceptable(r, safe))
    requires 1 <= p <= |repos| / PAGE_SIZE + 1
    ensures PageAt(answers, p, safe) == Ok(Slice(repos, PAGE_SIZE * (p - 1), PAGE_SIZE * p))
  {
    hide ReadRepos, ReposJson;
    ReposReadBack(Slice(repos, PAGE_SIZE * (p - 1), PAGE_SIZE * p), safe);
  }

  lemma {:induction false} PagesAddUp(answers: seq<Answer>, repos: seq<Repo>, safe: string -> bool, pages: nat)
    requires Serves(answers, repos) && (forall r :: r in repos ==> Acceptable(r, safe))
    requires pages <= |repos| / PAGE_SIZE + 1
    ensures Gathered(answers, pages, safe) == Slice(repos, 0, PAGE_SIZE * pages)
  {
    hide PageAt, Serves;
    if pages == 0 {
    } else {
      PagesAddUp(answers, repos, safe, pages - 1);
      PageIsASlice(answers, repos, safe, pages);
    }
  }

  lemma UniqueByNames(repos: seq<Repo>)
    ensures Unique(repos) <==> forall i, j :: 0 <= i < j < |repos| ==>
                                 repos[i].name != repos[j].name && repos[i].fullName != repos[j].fullName
  {}

  /**
   A finite listing of acceptable repositories takes exactly floor(n/50)+1
   requests if no two of them share a name, and is then returned whole, in
   order, but for the empty and the denied; with a shared name it is refused.
   */
  lemma EnumerationIsComplete(answers: seq<Answer>, repos: seq<Repo>, denied: seq<string>, safe: string -> bool,
                              r: Result<seq<Repo>, EnumerationError>, requests: nat)
    requires Serves(answers, repos) && (forall q :: q in repos ==> Acceptable(q, safe))
    requires Enumerates(answers, denied, safe, r, requests)
    ensures Unique(repos) ==> r == Ok(Wanted(repos, denied)) && requests == |repos| / PAGE_SIZE + 1
    ensures !Unique(repos) ==> r == Err(DuplicateRepo)
    ensures r.Ok? <==> forall i, j :: 0 <= i < j < |repos| ==>
                         repos[i].name != repos[j].name && repos[i].fullName != repos[j].fullName
  {
    UniqueByNames(repos);
    hide PageAt, Serves, Unique, Wanted;
    var total := |repos| / PAGE_SIZE + 1;
    PageIsASlice(answers, repos, safe, total);
    assert requests <= total;
    PageIsASlice(answers, repos, safe, requests);
    PagesAddUp(answers, repos, safe, requests);
    if requests == total {
      assert Slice(repos, 0, PAGE_SIZE * total) == repos;
    }
    assert Gathered(answers, requests, safe) == repos[..|Slice(repos, 0, PAGE_SIZE * requests)|];
    PrefixOfUnique(repos, |Slice(repos, 0, PAGE_SIZE * requests)|);
  }

  // ------------------------------------------------------------ answers that are no page

  /** A field with visible text in it. */
  ghost predicate HasText(j: Json, key: string) {
    j.Dict? && key in j.fields && j.fields[key].Str? && !TextLines.Blank(j.fields[key].s)
  }

  ghost predicate HasFlag(j: Json, key: string) {
    j.Dict? && key in j.fields && j.fields[key].Bool?
  }

  /** An entry without a required field, or with a clone URL that the policy refuses. */
  ghost predicate BadEntry(item: Json, safe: string -> bool) {
    || !HasText(item, "name") || !HasText(item, "full_name") || !HasText(item, "clone_url")
    || !HasFlag(item, "empty") || !safe(item.fields["clone_url"].s)
  }

  ghost predicate HasItems(body: Option<Json>) {
    body.Some? && body.value.Dict? && "data" in body.value.fields && body.value.fields["data"].Arr?
  }

  ghost predicate SaysNo(body: Option<Json>) {
    body.Some? && body.value.Dict? && "ok" in body.value.fields && body.value.fields["ok"] != Bool(true)
  }

  /** No JSON, no object, one that says it is not ok, one without a list, or one with a bad entry. */
  ghost predicate BadBody(body: Option<Json>, safe: string -> bool) {
    !HasItems(body) || SaysNo(body) || exists item :: item in body.value.fields["data"].items && BadEntry(item, safe)
  }

  /** The repository an entry describes, field by field. */
  ghost predicate IsEntryOf(r: Repo, item: Json) {
    && item.Dict?
    && Lookup(item.fields, "name") == Some(Str(r.name)) && Lookup(item.fields, "full_name") == Some(Str(r.fullName))
    && Lookup(item.fields, "clone_url") == Some(Str(r.cloneUrl)) && Lookup(item.fields, "empty") == Some(Bool(r.empty))
  }

  lemma EntryIsRead(item: Json, safe: string -> bool)
    ensures ReadRepo(item, safe).None? <==> BadEntry(item, safe)
    ensures ReadRepo(item, safe).Some? ==> IsEntryOf(ReadRepo(item, safe).value, item)
  {
    hide TextLines.Blank;
  }

  lemma {:induction false} EntriesAreRead(items: seq<Json>, safe: string -> bool)
    ensures ReadRepos(items, safe).None? <==> exists item :: item in items && BadEntry(item, safe)
    ensures ReadRepos(items, safe).Some? ==>
              && |ReadRepos(items, safe).value| == |items|
              && forall i :: 0 <= i < |items| ==> IsEntryOf(ReadRepos(items, safe).value[i], items[i])
  {
    hide BadEntry, IsEntryOf, ReadRepo;
    if |items| == 0 {
    } else {
      var n := |items| - 1;
      EntriesAreRead(items[..n], safe);
      EntryIsRead(items[n], safe);
      assert items == items[..n] + [items[n]];
      if item :| item in items[..n] && BadEntry(item, safe) {
        assert item in items;
      }
      if item :| item in items && BadEntry(item, safe) {
        assert item in items[..n] || item == items[n];
      }
    }
  }

  /** A body is refused exactly if it is malformed; otherwise the page has its entries, in order, and no others. */
  lemma PageIsItsEntries(body: Option<Json>, safe: string -> bool)
    ensures ReadPage(body, safe).None? <==> BadBody(body, safe)
    ensures ReadPage(body, safe).Some? ==>
              && |ReadPage(body, safe).value| == |body.value.fields["data"].items|
              && forall i :: 0 <= i < |ReadPage(body, safe).value| ==>
                   IsEntryOf(ReadPage(body, safe).value[i], body.value.fields["data"].items[i])
  {
    hide BadEntry, IsEntryOf, ReadRepos;
    if HasItems(body) {
      EntriesAreRead(body.value.fields["data"].items, safe);
    }
  }

  /** What the answer to the request for page p amounts to. */
  ghost predicate Failing(answers: seq<Answer>, p: nat) {
    1 <= p <= |answers| && answers[p - 1].Failed?
  }

  ghost predicate Malformed(answers: seq<Answer>, p: nat, safe: string -> bool) {
    1 <= p <= |answers| && answers[p - 1].Body? && BadBody(answers[p - 1].json, safe)
  }

  ghost predicate WellFormed(answers: seq<Answer>, p: nat, safe: string -> bool) {
    1 <= p <= |answers| && answers[p - 1].Body? && !BadBody(answers[p - 1].json, safe)
  }

  /** How many entries the answer lists; none past the last answer. */
  ghost function EntriesAt(answers: seq<Answer>, p: nat): nat {
    if 1 <= p <= |answers| && answers[p - 1].Body? && HasItems(answers[p - 1].json)
    then |answers[p - 1].json.value.fields["data"].items| else 0
  }

  lemma PageByItsAnswer(answers: seq<Answer>, p: nat, safe: string -> bool)
    requires p >= 1
    ensures PageAt(answers, p, safe) == Err(RequestFailed) <==> Failing(answers, p)
    ensures PageAt(answers, p, safe) == Err(InvalidPage) <==> Malformed(answers, p, safe)
    ensures PageAt(answers, p, safe).Err? ==> Failing(answers, p) || Malformed(answers, p, safe)
    ensures PageAt(answers, p, safe).Ok? ==> |PageAt(answers, p, safe).value| == EntriesAt(answers, p)
  {
    hide BadBody, ReadPage;
    if p <= |answers| {
      if answers[p - 1].Body? {
        PageIsItsEntries(answers[p - 1].json, safe);
        BadBodyOrItems(answers[p - 1].json, safe);
      }
    } else {
      PastTheEnd(answers, p, safe);
    }
  }

  lemma BadBodyOrItems(body: Option<Json>, safe: string -> bool)
    ensures BadBody(body, safe) || HasItems(body)
  {}

  /**
   Every outcome, from the answers alone: each page before the last request was
   a well-formed one of at least fifty entries, and the enumeration fails for a
   failed request or a malformed page exactly if the last answer is that. It
   returns only over well-formed answers.
   */
  lemma OutcomeIsTheLastAnswer(answers: seq<Answer>, denied: seq<string>, safe: string -> bool,
                               r: Result<seq<Repo>, EnumerationError>, requests: nat)
    requires Enumerates(answers, denied, safe, r, requests)
    ensures r == Err(RequestFailed) <==> Failing(answers, requests)
    ensures r == Err(InvalidPage) <==> Malformed(answers, requests, safe)
    ensures forall p: nat :: 1 <= p < requests ==> WellFormed(answers, p, safe) && EntriesAt(answers, p) >= PAGE_SIZE
    ensures r.Ok? ==> forall p: nat :: 1 <= p <= requests && p <= |answers| ==> WellFormed(answers, p, safe)
    ensures r.Ok? ==> EntriesAt(answers, requests) < PAGE_SIZE
  {
    hide PageAt, BadBody, Unique, Wanted, Gathered;
    forall p: nat | 1 <= p <= requests && PageAt(answers, p, safe).Ok?
      ensures p <= |answers| ==> WellFormed(answers, p, safe)
      ensures EntriesAt(answers, p) == |PageAt(answers, p, safe).value|
    {
      PageByItsAnswer(answers, p, safe);
    }
    PageByItsAnswer(answers, requests, safe);
  }

  /** The listing with one answer that is none; every page before it is as it was served. */
  lemma {:induction false} SameUntilBroken(good: seq<Answer>, answers: seq<Answer>, p: nat, bad: Answer,
                                           safe: string -> bool, pages: nat)
    requires 1 <= p <= |good| && answers == good[p - 1 := bad] && pages < p
    ensures Gathered(answers, pages, safe) == Gathered(good, pages, safe)
  {
    if pages == 0 {
    } else {
      SameUntilBroken(good, answers, p, bad, safe, pages - 1);
      assert AnswerAt(answers, pages) == AnswerAt(good, pages);
    }
  }

  /**
   A served listing whose p-th answer fails, or is no page, is refused at that
   answer if the names before it are distinct, whatever came before.
   */
  lemma BrokenPageRefuses(good: seq<Answer>, repos: seq<Repo>, p: nat, bad: Answer, denied: seq<string>,
                          safe: string -> bool, r: Result<seq<Repo>, EnumerationError>, requests: nat)
    requires Serves(good, repos) && (forall q :: q in repos ==> Acceptable(q, safe)) && 1 <= p <= |good|
    requires Unique(repos[..PAGE_SIZE * (p - 1)])
    requires bad.Failed? || BadBody(bad.json, safe)
    requires Enumerates(good[p - 1 := bad], denied, safe, r, requests)
    ensures requests == p && r == Err(if bad.Failed? then RequestFailed else InvalidPage)
  {
    hide PageAt, Serves, Unique, Wanted, BadBody, Gathered;
    var answers := good[p - 1 := bad];
    PageByItsAnswer(answers, p, safe);
    assert answers[p - 1] == bad;
    assert requests <= p;
    if requests < p {
      EarlierPageGoesOn(good, answers, repos, p, bad, safe, requests);
    }
  }

  /** Before the broken answer the walk neither ends nor refuses. */
  lemma EarlierPageGoesOn(good: seq<Answer>, answers: seq<Answer>, repos: seq<Repo>, p: nat, bad: Answer,
                          safe: string -> bool, q: nat)
    requires Serves(good, repos) && (forall r :: r in repos ==> Acceptable(r, safe)) && 1 <= q < p <= |good|
    requires answers == good[p - 1 := bad] && Unique(repos[..PAGE_SIZE * (p - 1)])
    ensures PageAt(answers, q, safe).Ok? && |PageAt(answers, q, safe).value| == PAGE_SIZE
    ensures Unique(Gathered(answers, q, safe))
  {
    assert AnswerAt(answers, q) == AnswerAt(good, q);
    assert PageAt(answers, q, safe) == PageAt(good, q, safe);
    PageIsASlice(good, repos, safe, q);
    PagesAddUp(good, repos, safe, q);
    SameUntilBroken(good, answers, p, bad, safe, q);
    hide PageAt, Serves, Unique, Acceptable;
    assert Gathered(answers, q, safe) == repos[..PAGE_SIZE * (p - 1)][..PAGE_SIZE * q];
    PrefixOfUnique(repos[..PAGE_SIZE * (p - 1)], PAGE_SIZE * q);
  }

  // ------------------------------------------------------------ what is wanted

  /** Filtering keeps the order of the listing. */
  lemma {:induction false} WantedInOrder(a: seq<Repo>, b: seq<Repo>)
    ensures forall denied :: Wanted(a + b, denied) == Wanted(a, denied) + Wanted(b, denied)
  {
    if |b| == 0 {
      assert a + b == a;
    } else {
      WantedInOrder(a, b[..|b| - 1]);
      assert (a + b)[..|a + b| - 1] == a + b[..|b| - 1];
    }
  }

  lemma {:induction false} WantedExactly(repos: seq<Repo>, denied: seq<string>)
    ensures forall r :: r in Wanted(repos, denied) <==> r in repos && !r.empty && r.name !in denied
  {
    if |repos| == 0 {
    } else {
      var n := |repos| - 1;
      WantedExactly(repos[..n], denied);
      assert repos == repos[..n] + [repos[n]];
    }
  }
}

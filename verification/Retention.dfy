/**
 Which cycles retention gives up (src/publish.py:663-682).

 The code sorts the listed ids downwards, leaves the kept cycle out and drops
 the first retention-1 of the rest. Protocol.Doomed says the same by rank, with
 no sorting: an id goes when at least that many others are greater.
 */
module Retention {
  import opened Prelude
  import opened Strings
  import opened CycleIds
  import opened Keys
  import opened S3
  import opened Protocol

  function OnlyValid(ids: seq<string>): seq<string> {
    if ids == [] then []
    else (if IsCycleId(ids[0]) then [ids[0]] else []) + OnlyValid(ids[1..])
  }

  function LeaveOut(ids: seq<string>, keep: string): seq<string> {
    if ids == [] then []
    else (if ids[0] != keep then [ids[0]] else []) + LeaveOut(ids[1..], keep)
  }

  function InsertDescending(x: string, xs: seq<string>): seq<string> {
    if xs == [] || !Less(x, xs[0]) then [x] + xs else [xs[0]] + InsertDescending(x, xs[1..])
  }

  /** `sorted(ids, reverse=True)` */
  function SortDescending(xs: seq<string>): seq<string> {
    if xs == [] then [] else InsertDescending(xs[0], SortDescending(xs[1..]))
  }

  /** `xs[m:]`, which is empty when m is past the end. */
  function From<T>(xs: seq<T>, m: nat): seq<T> {
    if m <= |xs| then xs[m..] else []
  }

  /** `doomed` of `_prune`, as the code computes it from a listing. */
  function DoomedOf(listed: seq<string>, keep: string, retention: int): seq<string> {
    From(Ranked(listed, keep), Max(0, retention - 1))
  }

  function Ranked(listed: seq<string>, keep: string): seq<string> {
    LeaveOut(SortDescending(OnlyValid(listed)), keep)
  }

  ghost predicate Descending(xs: seq<string>) {
    forall i, j :: 0 <= i < j < |xs| ==> Less(xs[j], xs[i])
  }

  ghost function Candidates(s: Store, keep: string): set<string> {
    set id | id in LiveIds(s) && IsCycleId(id) && id != keep
  }

  // ------------------------------------------------------------ the listing

  lemma {:induction false} OnlyValidFilters(ids: seq<string>)
    requires Distinct(ids)
    ensures Distinct(OnlyValid(ids))
    ensures forall id :: id in OnlyValid(ids) <==> id in ids && IsCycleId(id)
    ensures Elements(OnlyValid(ids)) == set id | id in ids && IsCycleId(id)
  {
    hide IsCycleId;
    if ids == [] {
    } else {
      var rest := OnlyValid(ids[1..]);
      OnlyValidFilters(ids[1..]);
      assert ids == [ids[0]] + ids[1..];
      assert ids[0] !in rest;
      if IsCycleId(ids[0]) {
        PrependDistinct(ids[0], rest);
      }
    }
  }

  lemma PrependDistinct(x: string, xs: seq<string>)
    requires Distinct(xs) && x !in xs
    ensures Distinct([x] + xs)
  {}

  lemma {:induction false} InsertKeepsOrder(x: string, xs: seq<string>)
    requires Descending(xs) && x !in xs
    ensures Descending(InsertDescending(x, xs))
    ensures Elements(InsertDescending(x, xs)) == Elements(xs) + {x}
  {
    if xs == [] {
    } else if !Less(x, xs[0]) {
      LessIsTotal(x, xs[0]);
      forall j | 0 <= j < |xs| ensures Less(xs[j], x) {
        if j > 0 {
          LessIsTransitive(xs[j], xs[0], x);
        }
      }
    } else {
      var rest := InsertDescending(x, xs[1..]);
      InsertKeepsOrder(x, xs[1..]);
      assert xs == [xs[0]] + xs[1..];
      forall j | 0 <= j < |rest| ensures Less(rest[j], xs[0]) {
        assert rest[j] in Elements(rest);
      }
      assert forall id :: id in InsertDescending(x, xs) <==> id == xs[0] || id in Elements(rest);
    }
  }

  lemma {:induction false} SortSorts(xs: seq<string>)
    requires Distinct(xs)
    ensures Descending(SortDescending(xs)) && Elements(SortDescending(xs)) == Elements(xs)
  {
    if xs == [] {
    } else {
      SortSorts(xs[1..]);
      assert xs == [xs[0]] + xs[1..];
      assert xs[0] !in Elements(xs[1..]);
      assert forall id :: id in SortDescending(xs[1..]) <==> id in Elements(SortDescending(xs[1..]));
      InsertKeepsOrder(xs[0], SortDescending(xs[1..]));
    }
  }

  lemma {:induction false} LeaveOutFilters(xs: seq<string>, keep: string)
    requires Descending(xs)
    ensures Descending(LeaveOut(xs, keep))
    ensures forall id :: id in LeaveOut(xs, keep) <==> id in xs && id != keep
    ensures Elements(LeaveOut(xs, keep)) == Elements(xs) - {keep}
  {
    hide Less;
    if xs == [] {
    } else {
      var rest := LeaveOut(xs[1..], keep);
      LeaveOutFilters(xs[1..], keep);
      assert xs == [xs[0]] + xs[1..];
      forall id | id in rest ensures Less(id, xs[0]) {
        var j :| 0 <= j < |xs[1..]| && xs[1..][j] == id;
        assert xs[j + 1] == id;
      }
      if xs[0] != keep {
        PrependDescending(xs[0], rest);
      }
    }
  }

  lemma PrependDescending(x: string, xs: seq<string>)
    requires Descending(xs) && forall id :: id in xs ==> Less(id, x)
    ensures Descending([x] + xs)
  {
    hide Less;
  }

  lemma RankedIsSorted(s: Store, listed: seq<string>, keep: string)
    requires Distinct(listed) && Elements(listed) == LiveIds(s)
    ensures Descending(Ranked(listed, keep)) && Elements(Ranked(listed, keep)) == Candidates(s, keep)
  {
    OnlyValidFilters(listed);
    SortSorts(OnlyValid(listed));
    LeaveOutFilters(SortDescending(OnlyValid(listed)), keep);
    assert forall id :: id in listed <==> id in LiveIds(s);
  }

  // ----------------------------------------------------------------- ranks

  lemma DescendingIsDistinct(xs: seq<string>)
    requires Descending(xs)
    ensures Distinct(xs)
  {
    forall i, j | 0 <= i < j < |xs| ensures xs[i] != xs[j] {
      LessIsTotal(xs[j], xs[i]);
    }
  }

  /** In the sorted list, an id's index is the number of greater candidates. */
  lemma IndexIsRank(s: Store, keep: string, ranked: seq<string>, j: nat)
    requires Descending(ranked) && Elements(ranked) == Candidates(s, keep) && j < |ranked|
    ensures Newer(s, ranked[j], keep) == Elements(ranked[..j])
    ensures |Newer(s, ranked[j], keep)| == j
  {
    forall x ensures x in Newer(s, ranked[j], keep) <==> x in Elements(ranked[..j]) {
      if x in Newer(s, ranked[j], keep) {
        assert x in Elements(ranked);
        var i :| 0 <= i < |ranked| && ranked[i] == x;
        LessIsTotal(ranked[j], x);
        assert ranked[..j][i] == x;
      }
      if x in Elements(ranked[..j]) {
        var i :| 0 <= i < j && ranked[..j][i] == x;
        assert Less(ranked[j], ranked[i]) && ranked[i] in Elements(ranked);
      }
    }
    DescendingIsDistinct(ranked);
    DistinctCardinality(ranked[..j]);
  }

  /** The code's slice of the sorted list is the rank rule. */
  lemma SliceIsRankRule(s: Store, listed: seq<string>, keep: string, retention: int)
    requires Distinct(listed) && Elements(listed) == LiveIds(s)
    ensures Elements(DoomedOf(listed, keep, retention)) == Doomed(s, keep, retention)
  {
    RankedIsSorted(s, listed, keep);
    hide Ranked, LiveIds, Descending, IsCycleId;
    var ranked, m: nat := Ranked(listed, keep), Max(0, retention - 1);
    forall id ensures id in Elements(From(ranked, m)) <==> id in Doomed(s, keep, retention) {
      RankedIsDoomed(s, keep, retention, ranked, id);
    }
  }

  lemma RankedIsDoomed(s: Store, keep: string, retention: int, ranked: seq<string>, id: string)
    requires Descending(ranked) && Elements(ranked) == Candidates(s, keep)
    ensures id in From(ranked, Max(0, retention - 1)) <==> id in Doomed(s, keep, retention)
  {
    hide Descending, Less, IsCycleId, LiveIds, Newer;
    var m: nat := Max(0, retention - 1);
    if id in Doomed(s, keep, retention) {
      assert id in Elements(ranked);
      var j :| 0 <= j < |ranked| && ranked[j] == id;
      IndexIsRank(s, keep, ranked, j);
      assert ranked[m..][j - m] == id;
    }
    if id in From(ranked, m) {
      var i :| 0 <= i < |ranked[m..]| && ranked[m..][i] == id;
      IndexIsRank(s, keep, ranked, m + i);
      assert ranked[m + i] in Elements(ranked);
    }
  }

  /** While pruning runs, the ids it will keep still outrank those it drops. */
  lemma KeptIdsOutrank(s0: Store, s: Store, keep: string, ranked: seq<string>, m: nat, j: nat)
    requires Descending(ranked) && Elements(ranked) == Candidates(s0, keep) && m <= j < |ranked|
    requires forall i :: 0 <= i < m ==> ranked[i] in LiveIds(s)
    ensures |Newer(s, ranked[j], keep)| >= m
  {
    forall x | x in Elements(ranked[..m]) ensures x in Newer(s, ranked[j], keep) {
      var i :| 0 <= i < m && ranked[..m][i] == x;
      assert ranked[i] in Elements(ranked) && Less(ranked[j], ranked[i]);
    }
    DescendingIsDistinct(ranked);
    DistinctCardinality(ranked[..m]);
    SubsetCardinality(Elements(ranked[..m]), Newer(s, ranked[j], keep));
  }

  // ------------------------------------------------------------ main result

  lemma SomeListing(ids: set<string>) returns (listed: seq<string>)
    ensures Distinct(listed) && Elements(listed) == ids
  {
    if ids == {} {
      listed := [];
    } else {
      var x :| x in ids;
      var rest := SomeListing(ids - {x});
      listed := rest + [x];
      DistinctAppend(rest, [x]);
    }
  }

  lemma PruneKeepsOthers(s: Store, keep: string, retention: int)
    ensures LiveIds(PruneSpec(s, keep, retention)) == LiveIds(s) - Doomed(s, keep, retention)
  {
    var s', doomed := PruneSpec(s, keep, retention), Doomed(s, keep, retention);
    forall id | id in LiveIds(s) - doomed ensures id in LiveIds(s') {
      var k :| k in s && k.CycleObj? && k.id == id;
      assert k in s';
    }
  }

  /**
   Undisturbed pruning leaves the kept cycle, every foreign key, and of the
   other valid cycles exactly the max(0, retention-1) greatest, which are also
   the newest ones by the time their ids name.
   */
  lemma PruneIsExact(s: Store, keep: string, retention: int)
    ensures var s' := PruneSpec(s, keep, retention);
            && (forall k: Key :: k in s && !(k.CycleObj? && IsCycleId(k.id) && k.id != keep) ==>
                k in s' && s'[k] == s[k])
            && |Candidates(s', keep)| == (if |Candidates(s, keep)| < Max(0, retention - 1)
                                          then |Candidates(s, keep)| else Max(0, retention - 1))
            && (forall a, b :: a in Candidates(s', keep) && b in Doomed(s, keep, retention) ==>
                                 Less(b, a) && Seconds(ReadStamp(b[..16])) <= Seconds(ReadStamp(a[..16])))
  {
    var s', m := PruneSpec(s, keep, retention), Max(0, retention - 1);
    var listed := SomeListing(LiveIds(s));
    RankedIsSorted(s, listed, keep);
    SliceIsRankRule(s, listed, keep, retention);
    PruneKeepsOthers(s, keep, retention);
    var ranked := Ranked(listed, keep);
    DescendingIsDistinct(ranked);
    DistinctCardinality(ranked);
    var top := if m <= |ranked| then m else |ranked|;
    KeptAreTheTop(s, keep, retention, ranked, top);
    DistinctCardinality(ranked[..top]);
    forall a, b | a in Candidates(s', keep) && b in Doomed(s, keep, retention)
      ensures Less(b, a) && Seconds(ReadStamp(b[..16])) <= Seconds(ReadStamp(a[..16]))
    {
      var i :| 0 <= i < top && ranked[..top][i] == a;
      assert b in Elements(ranked);
      var j :| 0 <= j < |ranked| && ranked[j] == b;
      IndexIsRank(s, keep, ranked, j);
      GreaterIdIsNotOlder(b, a);
    }
  }

  /** The retention is the number of cycles, the kept one included, that a pruning leaves at most. */
  lemma AtMostRetained(s: Store, keep: string, retention: int)
    ensures |Candidates(PruneSpec(s, keep, retention), keep) + {keep}| <= Max(1, retention)
  {
    hide Candidates, PruneSpec, Doomed;
    PruneIsExact(s, keep, retention);
  }

  lemma KeptAreTheTop(s: Store, keep: string, retention: int, ranked: seq<string>, top: nat)
    requires Descending(ranked) && Elements(ranked) == Candidates(s, keep)
    requires top == (if Max(0, retention - 1) <= |ranked| then Max(0, retention - 1) else |ranked|)
    ensures Candidates(PruneSpec(s, keep, retention), keep) == Elements(ranked[..top])
  {
    PruneKeepsOthers(s, keep, retention);
    var s' := PruneSpec(s, keep, retention);
    forall id ensures id in Candidates(s', keep) <==> id in Elements(ranked[..top]) {
      if id in Candidates(s, keep) {
        assert id in Elements(ranked);
        var j :| 0 <= j < |ranked| && ranked[j] == id;
        IndexIsRank(s, keep, ranked, j);
        if j < top {
          assert ranked[..top][j] == id;
        }
      }
      if id in Elements(ranked[..top]) {
        var i :| 0 <= i < top && ranked[..top][i] == id;
        assert ranked[i] in Elements(ranked);
        IndexIsRank(s, keep, ranked, i);
      }
      if id in Candidates(s', keep) {
        assert id in Candidates(s, keep);
        var j :| 0 <= j < |ranked| && ranked[j] == id;
        IndexIsRank(s, keep, ranked, j);
      }
    }
  }
}

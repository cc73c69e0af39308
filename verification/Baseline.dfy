/**
 The published baseline's arithmetic (scripts/validate_baseline.py:201-296).

 Means, variances and shares are exact reals here; the script uses floats.
 */
module Baseline {
  import opened Prelude

  datatype Row = Row(repo: string, ts: int)

  const HOUR := 3600000000

  // ------------------------------------------------------------ sums

  function Sum(xs: seq<nat>): nat {
    if |xs| == 0 then 0 else Sum(xs[..|xs| - 1]) + xs[|xs| - 1]
  }

  function Zeros(xs: seq<nat>): nat {
    if |xs| == 0 then 0 else Zeros(xs[..|xs| - 1]) + (if xs[|xs| - 1] == 0 then 1 else 0)
  }

  // ------------------------------------------------------------ hourly series

  predicate InRange(row: Row, start: int, hours: nat) {
    start <= row.ts < start + hours * HOUR
  }

  function Offset(row: Row, start: int): int {
    (row.ts - start) / HOUR
  }

  /** Rows of these repositories in hour `h`. */
  function CountOf(rows: seq<Row>, start: int, hours: nat, h: nat, repos: set<string>): nat {
    if |rows| == 0 then 0
    else
      var row := rows[|rows| - 1];
      CountOf(rows[..|rows| - 1], start, hours, h, repos)
        + (if InRange(row, start, hours) && Offset(row, start) == h && row.repo in repos then 1 else 0)
  }

  function CountAll(rows: seq<Row>, start: int, hours: nat, h: nat): nat {
    if |rows| == 0 then 0
    else
      var row := rows[|rows| - 1];
      CountAll(rows[..|rows| - 1], start, hours, h) +
          (if InRange(row, start, hours) && Offset(row, start) == h then 1 else 0)
  }

  function ReposIn(rows: seq<Row>, start: int, hours: nat, h: nat): set<string> {
    set row | row in rows && InRange(row, start, hours) && Offset(row, start) == h :: row.repo
  }

  /** A row counts in the hour that its time lies in, and in none if that is outside the range. */
  lemma HourOfARow(row: Row, start: int, hours: nat, h: int)
    ensures InRange(row, start, hours) && Offset(row, start) == h
       <==> 0 <= h < hours && start + 3600000000 * h <= row.ts < start + 3600000000 * (h + 1)
  {}

  lemma OffsetInRange(row: Row, start: int, hours: nat)
    requires InRange(row, start, hours)
    ensures 0 <= Offset(row, start) < hours
  {}

  /** `_hour_counts` */
  method HourCounts(rows: seq<Row>, start: int, hours: nat) returns (counts: seq<nat>, active: seq<nat>)
    ensures |counts| == |active| == hours
    ensures forall h :: 0 <= h < hours ==> counts[h] == CountAll(rows, start, hours, h)
    ensures forall h :: 0 <= h < hours ==> active[h] == |ReposIn(rows, start, hours, h)|
  {
    hide InRange, Offset;
    counts := seq(hours, _ => 0);
    var repos: seq<set<string>> := seq(hours, _ => {});
    for i := 0 to |rows|
      invariant |counts| == |repos| == hours
      invariant forall h :: 0 <= h < hours ==> counts[h] == CountAll(rows[..i], start, hours, h)
      invariant forall h :: 0 <= h < hours ==> repos[h] == ReposIn(rows[..i], start, hours, h)
    {
      assert rows[..i + 1] == rows[..i] + [rows[i]];
      assert rows[..i + 1][..i] == rows[..i];
      if InRange(rows[i], start, hours) {
        OffsetInRange(rows[i], start, hours);
        var offset := Offset(rows[i], start);
        counts := counts[offset := counts[offset] + 1];
        repos := repos[offset := repos[offset] + {rows[i].repo}];
      }
    }
    assert rows[..|rows|] == rows;
    active := seq(hours, h requires 0 <= h < hours => |repos[h]|);
  }

  // ------------------------------------------------------------ series by repository

  ghost predicate AreSeries(order: seq<string>, series: map<string, seq<nat>>, rows: seq<Row>, start: int, hours: nat) {
    && Distinct(order) && Elements(order) == series.Keys
    && (forall row :: row in rows && InRange(row, start, hours) ==> row.repo in series)
    && forall repo :: repo in series ==>
         |series[repo]| == hours && forall h :: 0 <= h < hours ==>
             series[repo][h] == CountOf(rows, start, hours, h, {repo})
  }

  lemma {:induction false} UnseenRepo(rows: seq<Row>, start: int, hours: nat, h: nat, repo: string)
    requires forall row :: row in rows && InRange(row, start, hours) ==> row.repo != repo
    ensures CountOf(rows, start, hours, h, {repo}) == 0
  {
    if |rows| == 0 {
    } else {
      assert rows[|rows| - 1] in rows;
      UnseenRepo(rows[..|rows| - 1], start, hours, h, repo);
    }
  }

  lemma OneMoreRow(rows: seq<Row>, row: Row, start: int, hours: nat, h: nat, repos: set<string>)
    ensures CountOf(rows + [row], start, hours, h, repos) == CountOf(rows, start, hours, h, repos)
              + (if InRange(row, start, hours) && Offset(row, start) == h && row.repo in repos then 1 else 0)
  {
    assert (rows + [row])[..|rows|] == rows;
  }

  /** `setdefault(repo, [0] * hours)` */
  method WithRepo(order: seq<string>, series: map<string, seq<nat>>, ghost rows: seq<Row>, ghost start: int,
                  hours: nat, repo: string)
    returns (newOrder: seq<string>, newSeries: map<string, seq<nat>>)
    requires AreSeries(order, series, rows, start, hours)
    ensures AreSeries(newOrder, newSeries, rows, start, hours)
    ensures newSeries.Keys == series.Keys + {repo}
  {
    hide InRange, Offset, CountOf;
    if repo in series {
      return order, series;
    }
    assert repo !in Elements(order);
    newOrder := order + [repo];
    newSeries := series[repo := seq(hours, _ => 0)];
    assert Elements(newOrder) == Elements(order) + {repo};
    forall h: nat ensures CountOf(rows, start, hours, h, {repo}) == 0 {
      UnseenRepo(rows, start, hours, h, repo);
    }
  }

  lemma CountRow(order: seq<string>, series: map<string, seq<nat>>, rows: seq<Row>, start: int, hours: nat, row: Row)
    requires AreSeries(order, series, rows, start, hours) && row.repo in series && InRange(row, start, hours)
    ensures 0 <= Offset(row, start) < |series[row.repo]|
    ensures var one := series[row.repo];
            var more := one[Offset(row, start) := one[Offset(row, start)] + 1];
            AreSeries(order, series[row.repo := more], rows + [row], start, hours)
  {
    hide InRange, Offset, CountOf;
    OffsetInRange(row, start, hours);
    forall h: nat, repo: string
      ensures CountOf(rows + [row], start, hours, h, {repo})
           == CountOf(rows, start, hours, h, {repo}) + (if Offset(row, start) == h && row.repo == repo then 1 else 0)
    {
      OneMoreRow(rows, row, start, hours, h, {repo});
    }
  }

  lemma SkipRow(order: seq<string>, series: map<string, seq<nat>>, rows: seq<Row>, start: int, hours: nat, row: Row)
    requires AreSeries(order, series, rows, start, hours) && !InRange(row, start, hours)
    ensures AreSeries(order, series, rows + [row], start, hours)
  {
    hide InRange, Offset, CountOf;
    forall h: nat, repo: string
      ensures CountOf(rows + [row], start, hours, h, {repo}) == CountOf(rows, start, hours, h, {repo})
    {
      OneMoreRow(rows, row, start, hours, h, {repo});
    }
  }

  /** The dictionary of `_repo_fano`, with its insertion order. */
  method RepoSeries(rows: seq<Row>, repos: seq<string>, start: int, hours: nat)
    returns (order: seq<string>, series: map<string, seq<nat>>)
    ensures AreSeries(order, series, rows, start, hours)
    ensures forall repo :: repo in repos ==> repo in series
  {
    hide AreSeries, InRange, Offset;
    order, series := [], map[];
    NoSeriesYet(start, hours);
    for i := 0 to |repos|
      invariant AreSeries(order, series, [], start, hours)
      invariant forall repo :: repo in repos[..i] ==> repo in series
    {
      order, series := WithRepo(order, series, [], start, hours, repos[i]);
    }
    for i := 0 to |rows|
      invariant AreSeries(order, series, rows[..i], start, hours)
      invariant forall repo :: repo in repos ==> repo in series
    {
      var row := rows[i];
      assert rows[..i + 1] == rows[..i] + [row];
      if InRange(row, start, hours) {
        order, series := WithRepo(order, series, rows[..i], start, hours, row.repo);
        CountRow(order, series, rows[..i], start, hours, row);
        var one := series[row.repo];
        series := series[row.repo := one[Offset(row, start) := one[Offset(row, start)] + 1]];
      } else {
        SkipRow(order, series, rows[..i], start, hours, row);
      }
    }
    assert rows[..|rows|] == rows;
  }

  lemma NoSeriesYet(start: int, hours: nat)
    ensures AreSeries([], map[], [], start, hours)
  {}

  // ------------------------------------------------------------ superposition

  /** One hour of every series, added up. */
  function Stacked(order: seq<string>, series: map<string, seq<nat>>, h: nat): nat
    requires forall repo :: repo in order ==> repo in series && h < |series[repo]|
  {
    if |order| == 0 then 0 else Stacked(order[..|order| - 1], series, h) + series[order[|order| - 1]][h]
  }

  lemma {:induction false} ReposSplit(rows: seq<Row>, start: int, hours: nat, h: nat, a: set<string>, b: set<string>)
    requires a !! b
    ensures CountOf(rows, start, hours, h, a + b) ==
              CountOf(rows, start, hours, h, a) + CountOf(rows, start, hours, h, b)
    ensures a == {} ==> CountOf(rows, start, hours, h, a) == 0
  {
    if |rows| == 0 {
    } else {
      ReposSplit(rows[..|rows| - 1], start, hours, h, a, b);
    }
  }

  lemma {:induction false} EveryRepoIsAll(rows: seq<Row>, start: int, hours: nat, h: nat, repos: set<string>)
    requires forall row :: row in rows && InRange(row, start, hours) ==> row.repo in repos
    ensures CountOf(rows, start, hours, h, repos) == CountAll(rows, start, hours, h)
  {
    if |rows| == 0 {
    } else {
      assert rows[|rows| - 1] in rows;
      EveryRepoIsAll(rows[..|rows| - 1], start, hours, h, repos);
    }
  }

  lemma {:induction false} StackIsACount(order: seq<string>, series: map<string, seq<nat>>, rows: seq<Row>, start: int,
                                         hours: nat, h: nat)
    requires Distinct(order) && h < hours
    requires forall repo :: repo in order ==> repo in series && |series[repo]| == hours
                                              && series[repo][h] == CountOf(rows, start, hours, h, {repo})
    ensures Stacked(order, series, h) == CountOf(rows, start, hours, h, Elements(order))
  {
    hide CountOf;
    if |order| == 0 {
      assert Elements(order) == {};
      ReposSplit(rows, start, hours, h, {}, {});
    } else {
      var n := |order| - 1;
      StackIsACount(order[..n], series, rows, start, hours, h);
      assert Elements(order) == Elements(order[..n]) + {order[n]};
      ReposSplit(rows, start, hours, h, Elements(order[..n]), {order[n]});
    }
  }

  /** The hourly counts are the repositories' series laid on top of each other. */
  lemma CountsAreStackedSeries(order: seq<string>, series: map<string, seq<nat>>, rows: seq<Row>, start: int,
                               hours: nat, h: nat)
    requires AreSeries(order, series, rows, start, hours) && h < hours
    ensures forall repo :: repo in order ==> repo in Elements(order)
    ensures Stacked(order, series, h) == CountAll(rows, start, hours, h)
  {
    assert forall repo :: repo in order ==> repo in Elements(order);
    StackIsACount(order, series, rows, start, hours, h);
    EveryRepoIsAll(rows, start, hours, h, Elements(order));
  }

  // ------------------------------------------------------------ Fano factors

  function Mean(xs: seq<nat>): real
    requires |xs| > 0
  {
    Sum(xs) as real / |xs| as real
  }

  /** A product by name, so that sums of products stay linear where its value does not matter. */
  function Times(u: real, v: real): real {
    u * v
  }

  function SquaredDeviations(xs: seq<nat>, mean: real): real {
    if |xs| == 0 then 0.0
    else
      var d := xs[|xs| - 1] as real - mean;
      SquaredDeviations(xs[..|xs| - 1], mean) + Times(d, d)
  }

  /** `statistics.pvariance` */
  function Variance(xs: seq<nat>): real
    requires |xs| > 0
  {
    SquaredDeviations(xs, Mean(xs)) / |xs| as real
  }

  /** `_fano` */
  function Fano(xs: seq<nat>): real
    requires |xs| > 0
  {
    if Mean(xs) == 0.0 then 0.0 else Variance(xs) / Mean(xs)
  }

  function MeanSum(order: seq<string>, series: map<string, seq<nat>>): real
    requires forall repo :: repo in order ==> repo in series && |series[repo]| > 0
  {
    if |order| == 0 then 0.0 else MeanSum(order[..|order| - 1], series) + Mean(series[order[|order| - 1]])
  }

  function VarianceSum(order: seq<string>, series: map<string, seq<nat>>): real
    requires forall repo :: repo in order ==> repo in series && |series[repo]| > 0
  {
    if |order| == 0 then 0.0 else VarianceSum(order[..|order| - 1], series) + Variance(series[order[|order| - 1]])
  }

  function SumOfSums(order: seq<string>, series: map<string, seq<nat>>): nat
    requires forall repo :: repo in order ==> repo in series
  {
    if |order| == 0 then 0 else SumOfSums(order[..|order| - 1], series) + Sum(series[order[|order| - 1]])
  }

  function StackedSeries(order: seq<string>, series: map<string, seq<nat>>, hours: nat): seq<nat>
    requires forall repo :: repo in order ==> repo in series && |series[repo]| == hours
  {
    seq(hours, h requires 0 <= h < hours => Stacked(order, series, h))
  }

  lemma {:induction false} SumsAddPointwise(a: seq<nat>, b: seq<nat>, c: seq<nat>)
    requires |a| == |b| == |c| && forall h :: 0 <= h < |a| ==> c[h] == a[h] + b[h]
    ensures Sum(c) == Sum(a) + Sum(b)
  {
    if |a| == 0 {
    } else {
      var n := |a| - 1;
      SumsAddPointwise(a[..n], b[..n], c[..n]);
    }
  }

  lemma {:induction false} SumOfNothing(xs: seq<nat>)
    requires forall h :: 0 <= h < |xs| ==> xs[h] == 0
    ensures Sum(xs) == 0
  {
    if |xs| == 0 {
    } else {
      SumOfNothing(xs[..|xs| - 1]);
    }
  }

  lemma {:induction false} SumsExchange(order: seq<string>, series: map<string, seq<nat>>, hours: nat)
    requires forall repo :: repo in order ==> repo in series && |series[repo]| == hours
    ensures Sum(StackedSeries(order, series, hours)) == SumOfSums(order, series)
  {
    if |order| == 0 {
      SumOfNothing(StackedSeries(order, series, hours));
    } else {
      var n := |order| - 1;
      SumsExchange(order[..n], series, hours);
      SumsAddPointwise(StackedSeries(order[..n], series, hours), series[order[n]], StackedSeries(order, series, hours));
    }
  }

  lemma {:induction false} MeansAddUp(order: seq<string>, series: map<string, seq<nat>>, hours: nat)
    requires hours > 0 && forall repo :: repo in order ==> repo in series && |series[repo]| == hours
    ensures MeanSum(order, series) == SumOfSums(order, series) as real / hours as real
  {
    hide Sum;
    if |order| == 0 {
    } else {
      var n := |order| - 1;
      MeansAddUp(order[..n], series, hours);
      FractionsAdd(SumOfSums(order[..n], series) as real, Sum(series[order[n]]) as real, hours as real);
    }
  }

  lemma FractionsAdd(a: real, b: real, h: real)
    requires h > 0.0
    ensures a / h + b / h == (a + b) / h
  {}

  /** Both Fano factors divide by the same mean. */
  lemma DenominatorsAgree(order: seq<string>, series: map<string, seq<nat>>, rows: seq<Row>, start: int, hours: nat,
                          counts: seq<nat>)
    requires hours > 0 && AreSeries(order, series, rows, start, hours)
    requires |counts| == hours && forall h :: 0 <= h < hours ==> counts[h] == CountAll(rows, start, hours, h)
    ensures forall repo :: repo in order ==> repo in Elements(order)
    ensures MeanSum(order, series) == Mean(counts)
  {
    hide CountAll, InRange, Offset, CountOf;
    assert forall repo :: repo in order ==> repo in Elements(order);
    forall h: nat | h < hours ensures Stacked(order, series, h) == counts[h] {
      CountsAreStackedSeries(order, series, rows, start, hours, h);
    }
    assert StackedSeries(order, series, hours) == counts;
    SumsExchange(order, series, hours);
    MeansAddUp(order, series, hours);
  }

  function RepoFanoOf(order: seq<string>, series: map<string, seq<nat>>): real
    requires forall repo :: repo in order ==> repo in series && |series[repo]| > 0
  {
    if MeanSum(order, series) == 0.0 then 0.0 else VarianceSum(order, series) / MeanSum(order, series)
  }

  /** `_repo_fano`, with the dictionary it builds. */
  method RepoFano(rows: seq<Row>, repos: seq<string>, start: int, hours: nat)
    returns (r: real, order: seq<string>, series: map<string, seq<nat>>)
    requires hours > 0
    ensures AreSeries(order, series, rows, start, hours) && forall repo :: repo in repos ==> repo in series
    ensures forall repo :: repo in order ==> repo in series && |series[repo]| > 0
    ensures r == RepoFanoOf(order, series)
  {
    hide CountOf, InRange, Mean, Variance;
    order, series := RepoSeries(rows, repos, start, hours);
    assert forall repo :: repo in order ==> repo in Elements(order);
    var numerator, denominator := 0.0, 0.0;
    for i := 0 to |order|
      invariant numerator == VarianceSum(order[..i], series) && denominator == MeanSum(order[..i], series)
    {
      assert order[..i + 1][..i] == order[..i];
      numerator := numerator + Variance(series[order[i]]);
      denominator := denominator + Mean(series[order[i]]);
    }
    assert order[..|order|] == order;
    r := if denominator == 0.0 then 0.0 else numerator / denominator;
  }

  // ------------------------------------------------------------ what the two factors differ by

  function CoDeviations(a: seq<nat>, b: seq<nat>, meanA: real, meanB: real): real
    requires |a| == |b|
  {
    if |a| == 0 then 0.0
    else
      var n := |a| - 1;
      CoDeviations(a[..n], b[..n], meanA, meanB) + Times(a[n] as real - meanA, b[n] as real - meanB)
  }

  function Covariance(a: seq<nat>, b: seq<nat>): real
    requires |a| == |b| && |a| > 0
  {
    CoDeviations(a, b, Mean(a), Mean(b)) / |a| as real
  }

  /** Covariances of one series with each of these repositories'. */
  function CovariancesWith(order: seq<string>, series: map<string, seq<nat>>, b: seq<nat>): real
    requires |b| > 0 && forall repo :: repo in order ==> repo in series && |series[repo]| == |b|
  {
    if |order| == 0 then 0.0
    else
      var n := |order| - 1;
      CovariancesWith(order[..n], series, b) + Covariance(series[order[n]], b)
  }

  /** Covariances of all pairs of repositories. */
  function CovarianceSum(order: seq<string>, series: map<string, seq<nat>>, hours: nat): real
    requires hours > 0 && forall repo :: repo in order ==> repo in series && |series[repo]| == hours
  {
    if |order| == 0 then 0.0
    else
      var n := |order| - 1;
      CovarianceSum(order[..n], series, hours) + CovariancesWith(order[..n], series, series[order[n]])
  }

  ghost predicate AddsUp(a: seq<nat>, b: seq<nat>, c: seq<nat>) {
    |a| == |b| == |c| && forall h :: 0 <= h < |a| ==> c[h] == a[h] + b[h]
  }

  lemma SquareOfSum(u: real, v: real)
    ensures Times(u + v, u + v) == Times(u, u) + Times(v, v) + 2.0 * Times(u, v)
  {}

  lemma {:induction false} DeviationsOfSum(a: seq<nat>, b: seq<nat>, c: seq<nat>, meanA: real, meanB: real)
    requires AddsUp(a, b, c)
    ensures SquaredDeviations(c, meanA + meanB)
         == SquaredDeviations(a, meanA) + SquaredDeviations(b, meanB) + 2.0 * CoDeviations(a, b, meanA, meanB)
  {
    hide Times;
    if |a| == 0 {
    } else {
      var n := |a| - 1;
      var u, v := a[n] as real - meanA, b[n] as real - meanB;
      DeviationsOfSum(a[..n], b[..n], c[..n], meanA, meanB);
      assert c[n] as real - (meanA + meanB) == u + v;
      SquareOfSum(u, v);
    }
  }

  lemma {:induction false} CoDeviationsOfSum(a: seq<nat>, b: seq<nat>, c: seq<nat>, d: seq<nat>, meanA: real,
                                             meanB: real, meanD: real)
    requires AddsUp(a, b, c) && |d| == |a|
    ensures CoDeviations(c, d, meanA + meanB, meanD) ==
              CoDeviations(a, d, meanA, meanD) + CoDeviations(b, d, meanB, meanD)
  {
    hide Times;
    if |a| == 0 {
    } else {
      var n := |a| - 1;
      CoDeviationsOfSum(a[..n], b[..n], c[..n], d[..n], meanA, meanB, meanD);
      var u, v, z := a[n] as real - meanA, b[n] as real - meanB, d[n] as real - meanD;
      assert c[n] as real - (meanA + meanB) == u + v;
      ProductOfSum(u, v, z);
    }
  }

  lemma ProductOfSum(u: real, v: real, w: real)
    ensures Times(u + v, w) == Times(u, w) + Times(v, w)
  {}

  lemma MeanOfSum(a: seq<nat>, b: seq<nat>, c: seq<nat>)
    requires AddsUp(a, b, c) && |a| > 0
    ensures Mean(c) == Mean(a) + Mean(b)
  {
    SumsAddPointwise(a, b, c);
    FractionsAdd(Sum(a) as real, Sum(b) as real, |a| as real);
  }

  lemma VarianceOfSum(a: seq<nat>, b: seq<nat>, c: seq<nat>)
    requires AddsUp(a, b, c) && |a| > 0
    ensures Variance(c) == Variance(a) + Variance(b) + 2.0 * Covariance(a, b)
  {
    hide SquaredDeviations, CoDeviations, Mean;
    MeanOfSum(a, b, c);
    DeviationsOfSum(a, b, c, Mean(a), Mean(b));
    ThreeFractions(SquaredDeviations(a, Mean(a)), SquaredDeviations(b, Mean(b)),
                   CoDeviations(a, b, Mean(a), Mean(b)), |a| as real);
  }

  lemma ThreeFractions(a: real, b: real, d: real, h: real)
    requires h > 0.0
    ensures (a + b + 2.0 * d) / h == a / h + b / h + 2.0 * (d / h)
  {}

  lemma CovarianceOfSum(a: seq<nat>, b: seq<nat>, c: seq<nat>, d: seq<nat>)
    requires AddsUp(a, b, c) && |d| == |a| > 0
    ensures Covariance(c, d) == Covariance(a, d) + Covariance(b, d)
  {
    hide CoDeviations, Mean;
    MeanOfSum(a, b, c);
    CoDeviationsOfSum(a, b, c, d, Mean(a), Mean(b), Mean(d));
    FractionsAdd(CoDeviations(a, d, Mean(a), Mean(d)), CoDeviations(b, d, Mean(b), Mean(d)), |a| as real);
  }

  lemma {:induction false} NothingVaries(a: seq<nat>, d: seq<nat>, mean: real)
    requires |a| == |d| && forall h :: 0 <= h < |a| ==> a[h] == 0
    ensures SquaredDeviations(a, 0.0) == 0.0 && CoDeviations(a, d, 0.0, mean) == 0.0
  {
    if |a| == 0 {
    } else {
      NothingVaries(a[..|a| - 1], d[..|a| - 1], mean);
    }
  }

  lemma IdleSeries(a: seq<nat>, d: seq<nat>)
    requires |a| == |d| > 0 && forall h :: 0 <= h < |a| ==> a[h] == 0
    ensures Variance(a) == 0.0 && Covariance(a, d) == 0.0
  {
    SumOfNothing(a);
    NothingVaries(a, d, Mean(d));
  }

  /** A stack's covariance with a series is the sum of its layers'. */
  lemma {:induction false} CovarianceOfStack(order: seq<string>, series: map<string, seq<nat>>, hours: nat, d: seq<nat>)
    requires hours > 0 && |d| == hours && forall repo :: repo in order ==> repo in series && |series[repo]| == hours
    ensures Covariance(StackedSeries(order, series, hours), d) == CovariancesWith(order, series, d)
  {
    hide Covariance;
    if |order| == 0 {
      IdleSeries(StackedSeries(order, series, hours), d);
    } else {
      var n := |order| - 1;
      CovarianceOfStack(order[..n], series, hours, d);
      CovarianceOfSum(StackedSeries(order[..n], series, hours), series[order[n]],
                      StackedSeries(order, series, hours), d);
    }
  }

  lemma {:induction false} VarianceOfStack(order: seq<string>, series: map<string, seq<nat>>, hours: nat)
    requires hours > 0 && forall repo :: repo in order ==> repo in series && |series[repo]| == hours
    ensures Variance(StackedSeries(order, series, hours)) ==
              VarianceSum(order, series) + 2.0 * CovarianceSum(order, series, hours)
  {
    hide Variance, Covariance;
    if |order| == 0 {
      var idle := StackedSeries(order, series, hours);
      IdleSeries(idle, idle);
    } else {
      var n := |order| - 1;
      var below, layer := StackedSeries(order[..n], series, hours), series[order[n]];
      VarianceOfStack(order[..n], series, hours);
      VarianceOfSum(below, layer, StackedSeries(order, series, hours));
      CovarianceOfStack(order[..n], series, hours, layer);
    }
  }

  /**
   The fleet's Fano factor exceeds the independent repositories' one by twice
   their summed covariances over the common mean: the two agree exactly if the
   repositories' activity is, on the whole, uncorrelated.
   */
  lemma FanoFactorsDifferByCovariances(order: seq<string>, series: map<string, seq<nat>>, rows: seq<Row>, start: int,
                                       hours: nat, counts: seq<nat>)
    requires hours > 0 && AreSeries(order, series, rows, start, hours)
    requires |counts| == hours && forall h :: 0 <= h < hours ==> counts[h] == CountAll(rows, start, hours, h)
    ensures forall repo :: repo in order ==> repo in Elements(order)
    ensures Mean(counts) == 0.0 ==> Fano(counts) == RepoFanoOf(order, series) == 0.0
    ensures Mean(counts) != 0.0 ==>
              && Fano(counts) == RepoFanoOf(order, series) + 2.0 * CovarianceSum(order, series, hours) / Mean(counts)
              && (Fano(counts) == RepoFanoOf(order, series) <==> CovarianceSum(order, series, hours) == 0.0)
  {
    hide CountAll, InRange, Offset, CountOf, Variance, Mean, CovarianceSum, VarianceSum, MeanSum, Sum;
    assert forall repo :: repo in order ==> repo in Elements(order);
    DenominatorsAgree(order, series, rows, start, hours, counts);
    forall h: nat | h < hours ensures Stacked(order, series, h) == counts[h] {
      CountsAreStackedSeries(order, series, rows, start, hours, h);
    }
    assert StackedSeries(order, series, hours) == counts;
    VarianceOfStack(order, series, hours);
    if Mean(counts) != 0.0 {
      SumOverMean(VarianceSum(order, series), CovarianceSum(order, series, hours), Mean(counts));
    }
  }

  lemma SumOverMean(v: real, k: real, m: real)
    requires m != 0.0
    ensures (v + 2.0 * k) / m == v / m + 2.0 * k / m
    ensures 2.0 * k / m == 0.0 <==> k == 0.0
  {}
}

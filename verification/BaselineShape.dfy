/**
 Bursts, hours of the day and the busiest tenth (scripts/validate_baseline.py:220-231,
 278-296).
 */
module BaselineShape {
  import opened Baseline

  // ------------------------------------------------------------ bursts

  /** `[start, start + length)` is a longest stretch of hours with commits. */
  predicate Burst(counts: seq<nat>, start: nat, length: nat) {
    && length > 0 && start + length <= |counts|
    && (forall h :: start <= h < start + length ==> counts[h] > 0)
    && (start > 0 ==> counts[start - 1] == 0)
    && (start + length < |counts| ==> counts[start + length] == 0)
  }

  ghost predicate Covered(h: nat, starts: seq<nat>, lengths: seq<nat>)
    requires |starts| == |lengths|
  {
    exists k :: 0 <= k < |starts| && starts[k] <= h < starts[k] + lengths[k]
  }

  /** Bursts, one after another, that all end before `stop`. */
  ghost predicate Separate(counts: seq<nat>, starts: seq<nat>, lengths: seq<nat>, stop: int) {
    && |starts| == |lengths|
    && (forall k :: 0 <= k < |starts| ==> starts[k] + lengths[k] < stop && Burst(counts, starts[k], lengths[k]))
    && (forall j, k :: 0 <= j < k < |starts| ==> starts[j] + lengths[j] < starts[k])
  }

  /** Every busy hour before `stop` is in one of them. */
  ghost predicate CoveredUntil(counts: seq<nat>, starts: seq<nat>, lengths: seq<nat>, stop: nat)
    requires |starts| == |lengths| && stop <= |counts|
  {
    forall h :: 0 <= h < stop && counts[h] > 0 ==> Covered(h, starts, lengths)
  }

  /** All the bursts, in order. */
  ghost predicate AreBursts(counts: seq<nat>, starts: seq<nat>, lengths: seq<nat>) {
    Separate(counts, starts, lengths, |counts| + 1) && CoveredUntil(counts, starts, lengths, |counts|)
  }

  /** What the loop knows after `i` hours; the last `current` of them are the open burst. */
  ghost predicate BurstsSoFar(counts: seq<nat>, i: nat, starts: seq<nat>, lengths: seq<nat>, current: nat)
    requires i <= |counts|
  {
    && current <= i && Separate(counts, starts, lengths, i - current)
    && CoveredUntil(counts, starts, lengths, i - current)
    && (forall h :: i - current <= h < i ==> counts[h] > 0)
    && (current < i ==> counts[i - current - 1] == 0)
  }

  /** The open burst ends where an idle hour or the series does. */
  lemma CloseBurst(counts: seq<nat>, i: nat, starts: seq<nat>, lengths: seq<nat>, current: nat)
    requires i <= |counts| && BurstsSoFar(counts, i, starts, lengths, current) && current > 0
    requires i < |counts| ==> counts[i] == 0
    ensures i < |counts| ==> BurstsSoFar(counts, i + 1, starts + [i - current], lengths + [current], 0)
    ensures i == |counts| ==> AreBursts(counts, starts + [i - current], lengths + [current])
  {
    OpenBurst(counts, i, starts, lengths, current);
    hide Burst, Separate, CoveredUntil;
    AppendBurst(counts, starts, lengths, i - current, current);
    CoverBurst(counts, starts, lengths, i - current, current);
    if i < |counts| {
      IdleIsCovered(counts, starts + [i - current], lengths + [current], i);
    }
  }

  lemma AppendBurst(counts: seq<nat>, starts: seq<nat>, lengths: seq<nat>, start: nat, length: nat)
    requires Separate(counts, starts, lengths, start) && Burst(counts, start, length)
    ensures Separate(counts, starts + [start], lengths + [length], start + length + 1)
  {
    hide Burst;
  }

  lemma CoverBurst(counts: seq<nat>, starts: seq<nat>, lengths: seq<nat>, start: nat, length: nat)
    requires |starts| == |lengths| && start + length <= |counts| && CoveredUntil(counts, starts, lengths, start)
    ensures CoveredUntil(counts, starts + [start], lengths + [length], start + length)
  {
    hide Covered;
    forall h | 0 <= h < start + length && counts[h] > 0 ensures Covered(h, starts + [start], lengths + [length]) {
      if h < start {
        StaysCovered(h, starts, lengths, start, length);
      } else {
        NewlyCovered(h, starts, lengths, start, length);
      }
    }
  }

  lemma IdleIsCovered(counts: seq<nat>, starts: seq<nat>, lengths: seq<nat>, i: nat)
    requires |starts| == |lengths| && i < |counts| && counts[i] == 0 && CoveredUntil(counts, starts, lengths, i)
    ensures CoveredUntil(counts, starts, lengths, i + 1)
  {}

  lemma NewlyCovered(h: nat, starts: seq<nat>, lengths: seq<nat>, start: nat, length: nat)
    requires |starts| == |lengths| && start <= h < start + length
    ensures Covered(h, starts + [start], lengths + [length])
  {
    var k := |starts|;
    assert (starts + [start])[k] == start && (lengths + [length])[k] == length;
  }

  lemma OpenBurst(counts: seq<nat>, i: nat, starts: seq<nat>, lengths: seq<nat>, current: nat)
    requires i <= |counts| && BurstsSoFar(counts, i, starts, lengths, current) && current > 0
    requires i < |counts| ==> counts[i] == 0
    ensures Burst(counts, i - current, current)
  {}

  lemma StaysCovered(h: nat, starts: seq<nat>, lengths: seq<nat>, start: nat, length: nat)
    requires |starts| == |lengths| && Covered(h, starts, lengths)
    ensures Covered(h, starts + [start], lengths + [length])
  {
    var k :| 0 <= k < |starts| && starts[k] <= h < starts[k] + lengths[k];
    assert (starts + [start])[k] == starts[k] && (lengths + [length])[k] == lengths[k];
  }

  lemma NoBurstYet(counts: seq<nat>)
    ensures BurstsSoFar(counts, 0, [], [], 0)
  {}

  lemma NoneIsOpen(counts: seq<nat>, starts: seq<nat>, lengths: seq<nat>)
    requires BurstsSoFar(counts, |counts|, starts, lengths, 0)
    ensures AreBursts(counts, starts, lengths)
  {}

  /** A busy hour lengthens the open burst; an idle one between bursts changes nothing. */
  lemma NextHour(counts: seq<nat>, i: nat, starts: seq<nat>, lengths: seq<nat>, current: nat)
    requires i < |counts| && BurstsSoFar(counts, i, starts, lengths, current)
    requires counts[i] > 0 || current == 0
    ensures BurstsSoFar(counts, i + 1, starts, lengths, if counts[i] > 0 then current + 1 else 0)
  {
    hide Burst;
  }

  /** `_burst_lengths` */
  method BurstLengths(counts: seq<nat>) returns (lengths: seq<nat>, ghost starts: seq<nat>)
    ensures AreBursts(counts, starts, lengths)
    ensures Sum(lengths) == |counts| - Zeros(counts)
    ensures |lengths| <= Zeros(counts) + 1
  {
    hide BurstsSoFar, AreBursts;
    lengths, starts := [], [];
    NoBurstYet(counts);
    var current: nat := 0;
    for i := 0 to |counts|
      invariant BurstsSoFar(counts, i, starts, lengths, current)
      invariant Sum(lengths) + current == i - Zeros(counts[..i])
      invariant |lengths| <= Zeros(counts[..i])
    {
      assert counts[..i + 1][..i] == counts[..i];
      if counts[i] != 0 || current == 0 {
        NextHour(counts, i, starts, lengths, current);
      }
      if counts[i] != 0 {
        current := current + 1;
      } else if current != 0 {
        CloseBurst(counts, i, starts, lengths, current);
        assert (lengths + [current])[..|lengths|] == lengths;
        lengths, starts := lengths + [current], starts + [i - current];
        current := 0;
      }
    }
    assert counts[..|counts|] == counts;
    if current == 0 {
      NoneIsOpen(counts, starts, lengths);
    }
    if current != 0 {
      CloseBurst(counts, |counts|, starts, lengths, current);
      assert (lengths + [current])[..|lengths|] == lengths;
      lengths, starts := lengths + [current], starts + [|counts| - current];
    }
  }

  // ------------------------------------------------------------ hours of the day

  const DAY := 24

  /** `sum(counts[offset] for offset in range(from, hours, 24))` */
  function Strided(counts: seq<nat>, from: nat): nat
    decreases |counts| - from
  {
    if from >= |counts| then 0 else counts[from] + Strided(counts, from + DAY)
  }

  /** The first `n` of `hour_of_day`, added up. */
  function DaySum(counts: seq<nat>, n: nat): nat {
    if n == 0 then 0 else DaySum(counts, n - 1) + Strided(counts, n - 1)
  }

  lemma {:induction false} StrideGrows(counts: seq<nat>, x: nat, from: nat)
    ensures Strided(counts + [x], from)
         == Strided(counts, from) + (if from <= |counts| && (|counts| - from) % DAY == 0 then x else 0)
    decreases |counts| + 1 - from
  {
    if from >= |counts| {
    } else {
      StrideGrows(counts, x, from + DAY);
    }
  }

  lemma {:induction false} DayGrows(counts: seq<nat>, x: nat, n: nat)
    requires n <= DAY
    ensures DaySum(counts + [x], n) == DaySum(counts, n) + (if |counts| % DAY < n then x else 0)
  {
    if n == 0 {
    } else {
      DayGrows(counts, x, n - 1);
      StrideGrows(counts, x, n - 1);
      SameHour(|counts|, n - 1);
    }
  }

  /** A position is counted under exactly one hour of the day. */
  lemma SameHour(position: nat, hour: nat)
    requires hour < DAY
    ensures hour <= position && (position - hour) % DAY == 0 <==> position % DAY == hour
  {}

  /** The 24 hour-of-day sums add up to the total. */
  lemma {:induction false} DayIsTheTotal(counts: seq<nat>)
    ensures DaySum(counts, DAY) == Sum(counts)
  {
    if |counts| == 0 {
      NothingStrided(DAY);
    } else {
      var n := |counts| - 1;
      DayIsTheTotal(counts[..n]);
      DayGrows(counts[..n], counts[n], DAY);
      assert counts == counts[..n] + [counts[n]];
    }
  }

  lemma {:induction false} NothingStrided(n: nat)
    ensures DaySum([], n) == 0
  {
    if n == 0 {
    } else {
      NothingStrided(n - 1);
    }
  }

  // ------------------------------------------------------------ the busiest tenth

  function Insert(x: nat, xs: seq<nat>): seq<nat> {
    if xs == [] || x >= xs[0] then [x] + xs else [xs[0]] + Insert(x, xs[1..])
  }

  /** `sorted(counts, reverse=True)` */
  function Descending(xs: seq<nat>): seq<nat> {
    if xs == [] then [] else Insert(xs[0], Descending(xs[1..]))
  }

  ghost predicate NonIncreasing(xs: seq<nat>) {
    forall i, j :: 0 <= i < j < |xs| ==> xs[i] >= xs[j]
  }

  lemma {:induction false} InsertKeepsAll(x: nat, xs: seq<nat>)
    ensures multiset(Insert(x, xs)) == multiset(xs) + multiset{x} && |Insert(x, xs)| == |xs| + 1
  {
    if xs == [] || x >= xs[0] {
    } else {
      InsertKeepsAll(x, xs[1..]);
      assert xs == [xs[0]] + xs[1..];
    }
  }

  lemma {:induction false} InsertKeepsOrder(x: nat, xs: seq<nat>)
    requires NonIncreasing(xs)
    ensures NonIncreasing(Insert(x, xs))
    ensures Insert(x, xs) != [] && Insert(x, xs)[0] == if xs == [] || x >= xs[0] then x else xs[0]
  {
    if xs == [] || x >= xs[0] {
    } else {
      InsertKeepsOrder(x, xs[1..]);
      PrependKeepsOrder(xs[0], Insert(x, xs[1..]));
    }
  }

  lemma PrependKeepsOrder(x: nat, xs: seq<nat>)
    requires NonIncreasing(xs) && (xs != [] ==> x >= xs[0])
    ensures NonIncreasing([x] + xs)
  {
    assert forall i :: 0 < i < |xs| ==> xs[0] >= xs[i];
  }

  lemma {:induction false} DescendingSorts(xs: seq<nat>)
    ensures NonIncreasing(Descending(xs)) && multiset(Descending(xs)) == multiset(xs) && |Descending(xs)| == |xs|
  {
    if xs == [] {
    } else {
      DescendingSorts(xs[1..]);
      InsertKeepsAll(xs[0], Descending(xs[1..]));
      InsertKeepsOrder(xs[0], Descending(xs[1..]));
      assert xs == [xs[0]] + xs[1..];
    }
  }

  /** `math.ceil(hours * 0.10)`, without the float */
  function TopHours(hours: nat): nat {
    (hours + 9) / 10
  }

  /** The least number of hours that is a tenth or more. */
  lemma TopHoursIsTheCeiling(hours: nat)
    ensures 10 * (TopHours(hours) - 1) < hours <= 10 * TopHours(hours)
  {}

  function TopSum(counts: seq<nat>): nat
  {
    var sorted := Descending(counts);
    Sum(sorted[..if TopHours(|counts|) <= |sorted| then TopHours(|counts|) else |sorted|])
  }

  lemma {:induction false} SumAtLeast(xs: seq<nat>, floor: nat)
    requires forall i :: 0 <= i < |xs| ==> xs[i] >= floor
    ensures Sum(xs) >= |xs| * floor
  {
    if |xs| == 0 {
    } else {
      SumAtLeast(xs[..|xs| - 1], floor);
    }
  }

  lemma {:induction false} SumAtMost(xs: seq<nat>, ceiling: nat)
    requires forall i :: 0 <= i < |xs| ==> xs[i] <= ceiling
    ensures Sum(xs) <= |xs| * ceiling
  {
    if |xs| == 0 {
    } else {
      SumAtMost(xs[..|xs| - 1], ceiling);
    }
  }

  lemma {:induction false} SumsConcatenate(a: seq<nat>, b: seq<nat>)
    ensures Sum(a + b) == Sum(a) + Sum(b)
  {
    if |b| == 0 {
      assert a + b == a;
    } else {
      SumsConcatenate(a, b[..|b| - 1]);
      assert (a + b)[..|a + b| - 1] == a + b[..|b| - 1];
    }
  }

  /** A leading part of a non-increasing sequence holds at least its share of the sum. */
  lemma LeadingShare(xs: seq<nat>, k: nat)
    requires NonIncreasing(xs) && 0 < k <= |xs|
    ensures Sum(xs[..k]) * |xs| >= k * Sum(xs)
  {
    hide Sum;
    var low := xs[k - 1];
    var top, rest := Sum(xs[..k]), Sum(xs[k..]);
    SumAtLeast(xs[..k], low);
    SumAtMost(xs[k..], low);
    SumsConcatenate(xs[..k], xs[k..]);
    assert xs == xs[..k] + xs[k..];
    CrossMultiply(top, rest, k, |xs| - k, low);
  }

  lemma CrossMultiply(top: nat, rest: nat, k: nat, more: nat, low: nat)
    requires top >= k * low && rest <= more * low
    ensures top * (k + more) >= k * (top + rest)
  {
    assert top * more >= (k * low) * more by {
      Scale(k * low, top, more);
    }
    assert k * rest <= k * (more * low) by {
      Scale(rest, more * low, k);
    }
    assert (k * low) * more == k * (more * low);
    assert top * (k + more) == top * k + top * more;
    assert k * (top + rest) == k * top + k * rest;
  }

  lemma Scale(a: nat, b: nat, c: nat)
    requires a <= b
    ensures a * c <= b * c && c * a <= c * b
  {}

  lemma {:induction false} SumIgnoresOrder(a: seq<nat>, b: seq<nat>)
    requires multiset(a) == multiset(b)
    ensures Sum(a) == Sum(b)
  {
    assert |a| == |multiset(a)| && |b| == |multiset(b)|;
    if |a| == 0 {
    } else {
      var n := |a| - 1;
      assert a[n] in multiset(a);
      var i :| 0 <= i < |b| && b[i] == a[n];
      assert b == b[..i] + [b[i]] + b[i + 1..];
      assert a == a[..n] + [a[n]];
      assert multiset(b[..i] + b[i + 1..]) == multiset(b) - multiset{b[i]};
      SumIgnoresOrder(a[..n], b[..i] + b[i + 1..]);
      SumsConcatenate(b[..i], b[i + 1..]);
      SumsConcatenate(b[..i] + [b[i]], b[i + 1..]);
      SumsConcatenate(b[..i], [b[i]]);
    }
  }

  /** The busiest tenth of the hours holds at least that share of the commits. */
  lemma BusiestTenth(counts: seq<nat>)
    requires |counts| > 0
    ensures TopSum(counts) * |counts| >= TopHours(|counts|) * Sum(counts)
    ensures TopSum(counts) <= Sum(counts)
  {
    hide Sum, Descending;
    DescendingSorts(counts);
    var sorted, k := Descending(counts), TopHours(|counts|);
    SumIgnoresOrder(sorted, counts);
    LeadingShare(sorted, k);
    SumsConcatenate(sorted[..k], sorted[k..]);
    assert sorted == sorted[..k] + sorted[k..];
  }
}

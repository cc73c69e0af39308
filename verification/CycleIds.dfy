/**
 Cycle identifiers and their timestamps (src/publish.py:198-247).

 An id is `<YYYYMMDD>T<HHMMSS>Z-<8 lower-case hex digits>`; its first sixteen
 characters are the cycle's `generated_at` with the punctuation of RFC 3339,
 section 5.6, taken out. Retention sorts ids as strings, so what matters is
 that string order is the order of the instants the ids name.
 */
module CycleIds {
  import opened Prelude
  import opened Strings

  const STAMP_LENGTH := 16
  const ID_LENGTH := 25

  // ------------------------------------------------------------ characters

  predicate Digit(c: char) {
    '0' <= c <= '9'
  }

  predicate LowerHex(c: char) {
    Digit(c) || 'a' <= c <= 'f'
  }

  function DigitValue(c: char): nat
    requires Digit(c)
  {
    c as int - '0' as int
  }

  predicate AllDigits(s: string) {
    forall i :: 0 <= i < |s| ==> Digit(s[i])
  }

  function Two(s: string, i: nat): nat
    requires i + 2 <= |s| && Digit(s[i]) && Digit(s[i + 1])
  {
    10 * DigitValue(s[i]) + DigitValue(s[i + 1])
  }

  // -------------------------------------------------------------- instants

  datatype Instant = Instant(year: nat, month: nat, day: nat, hour: nat, minute: nat, second: nat)

  predicate Leap(year: nat) {
    year % 4 == 0 && (year % 100 != 0 || year % 400 == 0)
  }

  function DaysInMonth(year: nat, month: nat): nat {
    if month == 2 then (if Leap(year) then 29 else 28)
    else if month == 4 || month == 6 || month == 9 || month == 11 then 30
    else 31
  }

  /** What `datetime.strptime` accepts once the shape is known. */
  predicate Calendar(t: Instant) {
    && 1 <= t.year <= 9999
    && 1 <= t.month <= 12
    && 1 <= t.day <= DaysInMonth(t.year, t.month)
    && t.hour < 24 && t.minute < 60 && t.second < 60
  }

  function DaysInYear(year: nat): nat {
    if Leap(year) then 366 else 365
  }

  function DaysBeforeYear(year: nat): nat {
    if year == 0 then 0 else DaysBeforeYear(year - 1) + DaysInYear(year - 1)
  }

  function DaysBeforeMonth(year: nat, month: nat): nat {
    if month <= 1 then 0 else DaysBeforeMonth(year, month - 1) + DaysInMonth(year, month - 1)
  }

  /** The instant as a count of seconds in the proleptic Gregorian calendar. */
  function Seconds(t: Instant): int {
    var days := DaysBeforeYear(t.year) + DaysBeforeMonth(t.year, t.month) + t.day;
    86400 * days + 3600 * t.hour + 60 * t.minute + t.second
  }

  /** Every fourth year is longer by a day, but of the hundredth ones only every fourth. */
  lemma {:induction false} GregorianYears(year: nat)
    ensures DaysBeforeYear(year) == 365 * year + (year + 3) / 4 - (year + 99) / 100 + (year + 399) / 400
  {
    if year == 0 {
    } else {
      GregorianYears(year - 1);
      OneYearOn(year - 1);
      hide DaysInYear;
    }
  }

  lemma OneYearOn(year: nat)
    ensures (year + 4) / 4 - (year + 100) / 100 + (year + 400) / 400
         == (year + 3) / 4 - (year + 99) / 100 + (year + 399) / 400 + DaysInYear(year) - 365
  {
    Fourths(year);
    Hundredths(year);
    FourHundredths(year);
  }

  lemma Fourths(year: nat)
    ensures (year + 4) / 4 == (year + 3) / 4 + if year % 4 == 0 then 1 else 0
  {}

  lemma Within100(x: nat, q: nat)
    requires 100 * q <= x < 100 * q + 100
    ensures x / 100 == q
  {}

  lemma Hundredths(year: nat)
    ensures (year + 100) / 100 == (year + 99) / 100 + if year % 100 == 0 then 1 else 0
    ensures year % 100 == 0 ==> year % 4 == 0
  {
    var q, r := year / 100, year % 100;
    assert year == 100 * q + r;
    Within100(year + 100, q + 1);
    if r == 0 {
      Within100(year + 99, q);
      assert year == 4 * (25 * q);
    } else {
      Within100(year + 99, q + 1);
    }
  }

  lemma FourHundredths(year: nat)
    ensures (year + 400) / 400 == (year + 399) / 400 + if year % 400 == 0 then 1 else 0
    ensures year % 400 == 0 ==> year % 100 == 0
  {
    var q, r := year / 400, year % 400;
    assert year == 400 * q + r;
    Within400(year + 400, q + 1);
    if r == 0 {
      Within400(year + 399, q);
      assert year == 100 * (4 * q);
    } else {
      Within400(year + 399, q + 1);
    }
  }

  lemma Within400(x: nat, q: nat)
    requires 400 * q <= x < 400 * q + 400
    ensures x / 400 == q
  {}

  /** Four centuries have 146097 days, and a year its twelve months. */
  lemma GregorianCycle(year: nat)
    ensures DaysBeforeYear(year + 400) == DaysBeforeYear(year) + 146097
    ensures DaysBeforeMonth(year, 13) == DaysBeforeYear(year + 1) - DaysBeforeYear(year)
  {
    GregorianYears(year);
    GregorianYears(year + 400);
    FourCenturies(year);
    hide DaysBeforeYear;
    YearIsTwelveMonths(year);
    TwelveMonths(year);
  }

  lemma FourCenturies(year: nat)
    ensures (year + 403) / 4 == (year + 3) / 4 + 100
    ensures (year + 499) / 100 == (year + 99) / 100 + 4 && (year + 799) / 400 == (year + 399) / 400 + 1
  {}

  lemma TwelveMonths(year: nat)
    ensures DaysBeforeMonth(year, 13) == DaysBeforeMonth(year, 12) + 31
    ensures DaysBeforeYear(year + 1) == DaysBeforeYear(year) + DaysInYear(year)
  {}

  // ---------------------------------------------------------------- shapes

  /** `[0-9]{8}T[0-9]{6}Z` */
  predicate StampShape(s: string) {
    && |s| == STAMP_LENGTH
    && AllDigits(s[..8]) && s[8] == 'T' && AllDigits(s[9..15]) && s[15] == 'Z'
  }

  function ReadStamp(s: string): Instant
    requires StampShape(s)
  {
    assert forall i :: 0 <= i < 8 ==> s[i] == s[..8][i] && Digit(s[i]);
    assert forall i :: 9 <= i < 15 ==> s[i] == s[9..15][i - 9] && Digit(s[i]);
    Instant(100 * Two(s, 0) + Two(s, 2), Two(s, 4), Two(s, 6), Two(s, 9), Two(s, 11), Two(s, 13))
  }

  /** `[0-9]{4}-[0-9]{2}-[0-9]{2}T[0-9]{2}:[0-9]{2}:[0-9]{2}Z` */
  predicate GeneratedShape(g: string) {
    && |g| == 20
    && AllDigits(g[..4]) && g[4] == '-' && AllDigits(g[5..7]) && g[7] == '-'
    && AllDigits(g[8..10]) && g[10] == 'T' && AllDigits(g[11..13]) && g[13] == ':'
    && AllDigits(g[14..16]) && g[16] == ':' && AllDigits(g[17..19]) && g[19] == 'Z'
  }

  /** `s.replace(c, "")` */
  function Without(s: string, c: char): string {
    if s == "" then "" else (if s[0] == c then "" else [s[0]]) + Without(s[1..], c)
  }

  function Compact(g: string): string {
    Without(Without(g, '-'), ':')
  }

  predicate ValidGeneratedAt(g: string) {
    GeneratedShape(g) && StampShape(Compact(g)) && Calendar(ReadStamp(Compact(g)))
  }

  /** `[0-9]{8}T[0-9]{6}Z-[0-9a-f]{8}` */
  predicate IdShape(id: string) {
    && |id| == ID_LENGTH
    && StampShape(id[..16]) && id[16] == '-'
    && (forall i :: 17 <= i < 25 ==> LowerHex(id[i]))
  }

  /** `_is_valid_cycle_id`: the only children of `cycles/` that retention counts. */
  predicate IsCycleId(id: string) {
    IdShape(id) && Calendar(ReadStamp(id[..16]))
  }

  /** `validate_cycle_id`: the grammar and the exact tie to `generated_at`. */
  predicate ValidCycleId(id: string, g: string) {
    ValidGeneratedAt(g) && IsCycleId(id) && id[..16] == Compact(g)
  }

  // ------------------------------------------------- chronology of instants

  ghost predicate Before(a: Instant, b: Instant) {
    || a.year < b.year
    || (a.year == b.year && a.month < b.month)
    || (a.year == b.year && a.month == b.month && a.day < b.day)
    || (a.year == b.year && a.month == b.month && a.day == b.day
        && 3600 * a.hour + 60 * a.minute + a.second < 3600 * b.hour + 60 * b.minute + b.second)
  }

  lemma {:induction false} YearsAccumulate(a: nat, b: nat)
    requires a < b
    ensures DaysBeforeYear(a) + DaysInYear(a) <= DaysBeforeYear(b)
  {
    if a + 1 == b {
    } else {
      YearsAccumulate(a, b - 1);
    }
  }

  lemma {:induction false} MonthsAccumulate(year: nat, a: nat, b: nat)
    requires 1 <= a < b
    ensures DaysBeforeMonth(year, a) + DaysInMonth(year, a) <= DaysBeforeMonth(year, b)
  {
    if a + 1 == b {
    } else {
      MonthsAccumulate(year, a, b - 1);
    }
  }

  lemma YearIsTwelveMonths(year: nat)
    ensures DaysBeforeMonth(year, 12) + 31 == DaysInYear(year)
  {
    assert DaysBeforeMonth(year, 2) == 31;
    assert DaysBeforeMonth(year, 4) == DaysBeforeMonth(year, 2) + DaysInMonth(year, 2) + 31;
    assert DaysBeforeMonth(year, 6) == DaysBeforeMonth(year, 4) + 30 + 31;
    assert DaysBeforeMonth(year, 8) == DaysBeforeMonth(year, 6) + 30 + 31;
    assert DaysBeforeMonth(year, 10) == DaysBeforeMonth(year, 8) + 31 + 30;
    assert DaysBeforeMonth(year, 12) == DaysBeforeMonth(year, 10) + 31 + 30;
  }

  lemma DayWithinYear(t: Instant)
    requires Calendar(t)
    ensures DaysBeforeMonth(t.year, t.month) + t.day <= DaysInYear(t.year)
  {
    YearIsTwelveMonths(t.year);
    if t.month < 12 {
      MonthsAccumulate(t.year, t.month, 12);
    }
  }

  lemma SecondsFollowFields(a: Instant, b: Instant)
    requires Calendar(a) && Calendar(b) && Before(a, b)
    ensures Seconds(a) < Seconds(b)
  {
    var da := DaysBeforeYear(a.year) + DaysBeforeMonth(a.year, a.month) + a.day;
    var db := DaysBeforeYear(b.year) + DaysBeforeMonth(b.year, b.month) + b.day;
    if a.year < b.year {
      YearsAccumulate(a.year, b.year);
      DayWithinYear(a);
    } else if a.month < b.month {
      MonthsAccumulate(a.year, a.month, b.month);
    }
    assert da < db || (da == db
                       && 3600 * a.hour + 60 * a.minute + a.second < 3600 * b.hour + 60 * b.minute + b.second);
  }

  lemma StampOrder(a: string, b: string, k: nat)
    requires StampShape(a) && StampShape(b) && Calendar(ReadStamp(a)) && Calendar(ReadStamp(b))
    requires k < STAMP_LENGTH && a[..k] == b[..k] && a[k] < b[k]
    ensures Before(ReadStamp(a), ReadStamp(b))
  {
    assert forall i :: 0 <= i < k ==> a[i] == a[..k][i] == b[..k][i] == b[i];
    assert forall i :: 0 <= i < 8 ==> a[i] == a[..8][i] && b[i] == b[..8][i];
    assert forall i :: 9 <= i < 15 ==> a[i] == a[9..15][i - 9] && b[i] == b[9..15][i - 9];
  }

  // ------------------------------------------------------ compact timestamps

  lemma {:induction false} WithoutAppends(s: string, t: string, c: char)
    ensures Without(s + t, c) == Without(s, c) + Without(t, c)
  {
    if s == "" {
      assert s + t == t;
    } else {
      WithoutAppends(s[1..], t, c);
      var u := s + t;
      assert u[0] == s[0] && u[1..] == s[1..] + t;
      ConcatenationAssociates(if s[0] == c then "" else [s[0]], Without(s[1..], c), Without(t, c));
    }
  }

  lemma ConcatenationAssociates(a: string, b: string, c: string)
    ensures a + (b + c) == (a + b) + c
  {}

  lemma {:induction false} WithoutNothing(s: string, c: char)
    requires c !in s
    ensures Without(s, c) == s
  {
    if s == "" {
    } else {
      WithoutNothing(s[1..], c);
    }
  }

  lemma RemovesOne(s: string, c: char, t: string)
    requires c !in s
    ensures Without(s + ([c] + t), c) == s + Without(t, c)
  {
    WithoutAppends(s, [c] + t, c);
    WithoutNothing(s, c);
    assert ([c] + t)[1..] == t;
    assert Without([c] + t, c) == Without(t, c);
  }

  lemma RemovesTwo(a: string, b: string, r: string, c: char)
    requires c !in a && c !in b && c !in r
    ensures Without(a + ([c] + (b + ([c] + r))), c) == a + (b + r)
  {
    RemovesOne(a, c, b + ([c] + r));
    RemovesOne(b, c, r);
    WithoutNothing(r, c);
  }

  /** The five runs of `generated_at` between its punctuation, joined. */
  lemma CompactJoinsFields(g: string)
    requires GeneratedShape(g)
    ensures Compact(g) == g[..4] + g[5..7] + g[8..13] + g[14..16] + g[17..]
    ensures StampShape(Compact(g))
  {
    FieldsArePlain(g);
    FieldsMakeAStamp(g);
    FieldsInOrder(g);
    hide GeneratedShape, StampShape, Without;
    TakeOutFour(g[..4], g[5..7], g[8..13], g[14..16], g[17..]);
  }

  lemma FieldsInOrder(g: string)
    requires GeneratedShape(g)
    ensures g == g[..4] + (['-'] + (g[5..7] + (['-'] + (g[8..13] + ([':'] + (g[14..16] + ([':'] + g[17..])))))))
  {
    hide AllDigits;
    assert g[16..] == [':'] + g[17..] && g[13..] == [':'] + (g[14..16] + g[16..]);
    assert g[7..] == ['-'] + (g[8..13] + g[13..]) && g[4..] == ['-'] + (g[5..7] + g[7..]);
  }

  lemma TakeOutFour(a: string, b: string, c: string, d: string, e: string)
    requires forall x :: x in a || x in b || x in c || x in d || x in e ==> x != '-' && x != ':'
    ensures Compact(a + (['-'] + (b + (['-'] + (c + ([':'] + (d + ([':'] + e)))))))) == a + b + c + d + e
  {
    hide Without;
    var rest := c + ([':'] + (d + ([':'] + e)));
    RemovesTwo(a, b, rest, '-');
    assert a + (b + rest) == (a + b + c) + ([':'] + (d + ([':'] + e)));
    RemovesTwo(a + b + c, d, e, ':');
    assert (a + b + c) + (d + e) == a + b + c + d + e;
  }

  lemma FieldsMakeAStamp(g: string)
    requires GeneratedShape(g)
    ensures StampShape(g[..4] + g[5..7] + g[8..13] + g[14..16] + g[17..])
  {
    var x := g[..4] + g[5..7] + g[8..13] + g[14..16] + g[17..];
    var date, time := g[..4] + g[5..7] + g[8..10], g[11..13] + g[14..16] + g[17..19];
    DigitsJoin(g[..4], g[5..7], g[8..10]);
    DigitsJoin(g[11..13], g[14..16], g[17..19]);
    hide AllDigits;
    assert g[8..13] == g[8..10] + (['T'] + g[11..13]) && g[17..] == g[17..19] + ['Z'];
    assert x == date + (['T'] + (time + ['Z']));
    assert x[..8] == date && x[9..15] == time;
  }

  lemma DigitsJoin(a: string, b: string, c: string)
    requires AllDigits(a) && AllDigits(b) && AllDigits(c)
    ensures AllDigits(a + b + c)
  {
    hide Digit;
  }

  lemma FieldsArePlain(g: string)
    requires GeneratedShape(g)
    ensures forall c :: c in g[..4] || c in g[5..7] || c in g[8..13] || c in g[14..16] || c in g[17..]
                        ==> c != '-' && c != ':'
  {
    assert g[8..13] == g[8..10] + ['T'] + g[11..13];
    assert g[17..] == g[17..19] + ['Z'];
  }

  lemma CompactIsInjective(g: string, h: string)
    requires GeneratedShape(g) && GeneratedShape(h) && Compact(g) == Compact(h)
    ensures g == h
  {
    CompactJoinsFields(g);
    CompactJoinsFields(h);
    var x := Compact(g);
    assert x[..4] == g[..4] == h[..4];
    assert x[4..6] == g[5..7] == h[5..7];
    assert x[6..11] == g[8..13] == h[8..13];
    assert x[11..13] == g[14..16] == h[14..16];
    assert x[13..] == g[17..] == h[17..];
    assert g == g[..4] + ['-'] + g[5..7] + ['-'] + g[8..13] + [':'] + g[14..16] + [':'] + g[17..];
    assert h == h[..4] + ['-'] + h[5..7] + ['-'] + h[8..13] + [':'] + h[14..16] + [':'] + h[17..];
  }

  // -------------------------------------------------------------- main facts

  function GeneratedInstant(g: string): Instant
    requires ValidGeneratedAt(g)
  {
    ReadStamp(Compact(g))
  }

  /** String order on ids is time order on the instants they were minted from. */
  lemma IdOrderIsChronological(a: string, ga: string, b: string, gb: string)
    requires ValidCycleId(a, ga) && ValidCycleId(b, gb) && ga != gb
    ensures Less(a, b) <==> Seconds(GeneratedInstant(ga)) < Seconds(GeneratedInstant(gb))
    ensures Seconds(GeneratedInstant(ga)) != Seconds(GeneratedInstant(gb))
  {
    var x, y := a[..16], b[..16];
    if x == y {
      CompactIsInjective(ga, gb);
    }
    var k := FirstDifference(x, y);
    assert a[..k] == x[..k] && b[..k] == y[..k];
    LessAtFirstDifference(a, b, k);
    if x[k] < y[k] {
      StampOrder(x, y, k);
      SecondsFollowFields(ReadStamp(x), ReadStamp(y));
    } else {
      StampOrder(y, x, k);
      SecondsFollowFields(ReadStamp(y), ReadStamp(x));
    }
  }

  /** Of two valid ids the greater one never names an earlier instant. */
  lemma GreaterIdIsNotOlder(a: string, b: string)
    requires IsCycleId(a) && IsCycleId(b) && Less(a, b)
    ensures Seconds(ReadStamp(a[..16])) <= Seconds(ReadStamp(b[..16]))
  {
    var x, y := a[..16], b[..16];
    if x != y {
      var k := FirstDifference(x, y);
      assert a[..k] == x[..k] && b[..k] == y[..k];
      LessAtFirstDifference(a, b, k);
      StampOrder(x, y, k);
      SecondsFollowFields(ReadStamp(x), ReadStamp(y));
    }
  }

  /** `new_cycle_id` mints only ids that `validate_cycle_id` accepts for that time. */
  function NewCycleId(g: string, suffix: string): (id: string)
    requires ValidGeneratedAt(g) && |suffix| == 8 && forall i :: 0 <= i < 8 ==> LowerHex(suffix[i])
    ensures ValidCycleId(id, g)
  {
    var id := Compact(g) + ['-'] + suffix;
    assert id[..16] == Compact(g);
    id
  }

  lemma HexByName(c: char)
    ensures LowerHex(c) <==> c in "0123456789abcdef"
  {
    var all := "0123456789abcdef";
    if Digit(c) {
      assert all[c as int - '0' as int] == c;
    } else if LowerHex(c) {
      assert all[10 + (c as int - 'a' as int)] == c;
    }
  }

  /** An id is valid for a time exactly if it can have been minted for it. */
  lemma ValidIdsAreMinted(id: string, g: string)
    ensures ValidCycleId(id, g) <==>
              && ValidGeneratedAt(g)
              && exists suffix: string :: |suffix| == 8 && (forall i :: 0 <= i < 8 ==> suffix[i] in "0123456789abcdef")
                                          && id == NewCycleId(g, suffix)
  {
    forall c ensures LowerHex(c) <==> c in "0123456789abcdef" {
      HexByName(c);
    }
    hide ValidGeneratedAt, Compact, Calendar, ReadStamp, StampShape;
    if ValidCycleId(id, g) {
      var suffix := id[17..];
      assert id == id[..16] + [id[16]] + suffix;
      assert id == NewCycleId(g, suffix);
    }
  }
}

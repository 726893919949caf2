/** The calendar arithmetic of HttpApi::parseUtc in src/api/HttpApi.cpp. */
module CivilTime {
  import opened Bytes

  type i32 = x: int | -0x8000_0000 <= x < 0x8000_0000

  /** The six numbers scanned from the text. */
  datatype Utc = Utc(year: i32, month: i32, day: i32, hour: i32, minute: i32, second: i32)

  datatype Date = Date(year: int, month: int, day: int)

  predicate IsLeap(year: int)
  {
    year % 4 == 0 && (year % 100 != 0 || year % 400 == 0)
  }

  function MonthDays(year: int, month: int): int
    requires 1 <= month <= 12
  {
    [0, 31, if IsLeap(year) then 29 else 28, 31, 30, 31, 30, 31, 31, 30, 31, 30, 31][month]
  }

  predicate ValidDate(d: Date)
  {
    d.year >= 1970 && 1 <= d.month <= 12 && 1 <= d.day <= MonthDays(d.year, d.month)
  }

  predicate Accepted(u: Utc)
  {
    && ValidDate(Date(u.year, u.month, u.day))
    && 0 <= u.hour <= 23 && 0 <= u.minute <= 59 && 0 <= u.second <= 60
  }

  // ----- the source's arithmetic ---------------------------------------------------------------------

  function AdjustedYear(year: int, month: int): int { year - (if month <= 2 then 1 else 0) }

  /** Days from 1 March of the year that starts there. */
  function DayOfYear(month: int, day: int): int
  {
    (153 * (month + (if month > 2 then -3 else 9)) + 2) / 5 + day - 1
  }

  function DayNumber(d: Date): int
    requires ValidDate(d)
  {
    var adjusted := AdjustedYear(d.year, d.month);
    var era := adjusted / 400;
    var yearOfEra := adjusted - era * 400;
    var dayOfEra := yearOfEra * 365 + yearOfEra / 4 - yearOfEra / 100 + DayOfYear(d.month, d.day);
    era * 146097 + dayOfEra - 719468
  }

  function Seconds(u: Utc): int
    requires Accepted(u)
  {
    DayNumber(Date(u.year, u.month, u.day)) * 86400 + u.hour * 3600 + u.minute * 60 + u.second
  }

  /** 0 for text that does not scan or is out of range; the product wraps as 64-bit unsigned integers do. */
  function ParseUtc(scanned: Option<Utc>): u64
  {
    match scanned
    case None => 0
    case Some(u) => if Accepted(u) then Seconds(u) * 1000 % U64_LIMIT else 0
  }

  // ----- the calendar --------------------------------------------------------------------------------

  const EPOCH := Date(1970, 1, 1)

  /** The next day of the Gregorian calendar. */
  function Successor(d: Date): (r: Date)
    requires ValidDate(d)
    ensures ValidDate(r)
  {
    if d.day < MonthDays(d.year, d.month) then Date(d.year, d.month, d.day + 1)
    else if d.month < 12 then Date(d.year, d.month + 1, 1)
    else Date(d.year + 1, 1, 1)
  }

  predicate Before(a: Date, b: Date)
  {
    || a.year < b.year
    || (a.year == b.year && (a.month < b.month || (a.month == b.month && a.day < b.day)))
  }

  function DateAfter(n: nat): (d: Date)
    ensures ValidDate(d)
  {
    if n == 0 then EPOCH else Successor(DateAfter(n - 1))
  }

  // ----- day numbers count days ------------------------------------------------------------------------

  /** Days before 1 March of the year, in closed form. */
  function YearDays(a: int): int { 365 * a + a / 4 - a / 100 + a / 400 }

  lemma DivideEra(a: int, e: int, r: int)
    requires 0 <= r < 400 && a == 400 * e + r
    ensures a / 400 == e && a / 100 == 4 * e + r / 100 && a / 4 == 100 * e + r / 4
  {
  }

  lemma DayNumberClosed(d: Date)
    requires ValidDate(d)
    ensures DayNumber(d) == YearDays(AdjustedYear(d.year, d.month)) + DayOfYear(d.month, d.day) - 719468
  {
    var a := AdjustedYear(d.year, d.month);
    DivideEra(a, a / 400, a - a / 400 * 400);
  }

  lemma QuotientStep(a: int, m: int)
    requires m == 4 || m == 100 || m == 400
    ensures a / m - (a - 1) / m == if a % m == 0 then 1 else 0
  {
  }

  lemma MultiplesNest(a: int)
    ensures a % 400 == 0 ==> a % 100 == 0
    ensures a % 100 == 0 ==> a % 4 == 0
  {
  }

  lemma YearStep(year: int)
    ensures YearDays(year) - YearDays(year - 1) == if IsLeap(year) then 366 else 365
  {
    QuotientStep(year, 4);
    QuotientStep(year, 100);
    QuotientStep(year, 400);
    MultiplesNest(year);
  }

  /** The month table of the source: (153m + 2) / 5 days lie before the m-th month from March. */
  lemma MonthStep(year: int, month: int)
    requires 1 <= month <= 11
    ensures month != 2 ==> DayOfYear(month + 1, 1) == DayOfYear(month, MonthDays(year, month)) + 1
    ensures month == 2 ==> DayOfYear(2, MonthDays(year, 2)) + 1 == if IsLeap(year) then 366 else 365
    ensures DayOfYear(1, 1) == DayOfYear(12, 31) + 1 && DayOfYear(3, 1) == 0
  {
    assert month in {1, 2, 3, 4, 5, 6, 7, 8, 9, 10, 11};
  }

  /** The next date has the next number, across month ends, leap days, years and eras. */
  lemma SuccessorIsNext(d: Date)
    requires ValidDate(d)
    ensures DayNumber(Successor(d)) == DayNumber(d) + 1
  {
    hide DayNumber;
    DayNumberClosed(d);
    DayNumberClosed(Successor(d));
    if d.day < MonthDays(d.year, d.month) {
      hide YearDays;
    } else {
      MonthStep(d.year, if d.month < 12 then d.month else 11);
      YearStep(d.year);
      hide YearDays, DayOfYear, IsLeap;
    }
  }

  lemma EpochIsZero()
    ensures ValidDate(EPOCH) && DayNumber(EPOCH) == 0
  {
  }

  function Predecessor(d: Date): (r: Date)
    requires ValidDate(d) && d != EPOCH
    ensures ValidDate(r) && Successor(r) == d
  {
    if d.day > 1 then Date(d.year, d.month, d.day - 1)
    else if d.month > 1 then Date(d.year, d.month - 1, MonthDays(d.year, d.month - 1))
    else Date(d.year - 1, 12, 31)
  }

  /** Days elapsed since the start of 1970, bounding every walk back to the epoch. */
  function Elapsed(d: Date): nat
    requires ValidDate(d)
  {
    (d.year - 1970) * 400 + d.month * 32 + d.day
  }

  /** The day number of a date is the number of days counted from 1 January 1970 to it. */
  lemma {:induction false} DayNumberCounts(d: Date)
    requires ValidDate(d)
    ensures DayNumber(d) >= 0 && DateAfter(DayNumber(d)) == d
    decreases Elapsed(d)
  {
    if d == EPOCH {
      EpochIsZero();
    } else {
      DayNumberCounts(Predecessor(d));
      SuccessorIsNext(Predecessor(d));
    }
  }

  lemma {:induction false} DateAfterInverse(n: nat)
    ensures DayNumber(DateAfter(n)) == n
  {
    if n == 0 {
      EpochIsZero();
    } else {
      hide DayNumber;
      DateAfterInverse(n - 1);
      SuccessorIsNext(DateAfter(n - 1));
    }
  }

  /** Later dates have greater numbers. */
  lemma {:induction false} DayNumberIsOrdered(a: Date, b: Date)
    requires ValidDate(a) && ValidDate(b) && Before(a, b)
    ensures DayNumber(a) < DayNumber(b)
    decreases Elapsed(b)
  {
    hide DayNumber;
    var p := Predecessor(b);
    SuccessorIsNext(p);
    if a != p {
      DayNumberIsOrdered(a, p);
    }
  }

  // ----- timestamps ------------------------------------------------------------------------------------

  predicate Earlier(u: Utc, v: Utc)
  {
    var d, e := Date(u.year, u.month, u.day), Date(v.year, v.month, v.day);
    || Before(d, e)
    || (d == e && u.hour * 3600 + u.minute * 60 + u.second < v.hour * 3600 + v.minute * 60 + v.second)
  }

  function TimeOfDay(u: Utc): int { u.hour * 3600 + u.minute * 60 + u.second }

  /** `u` is second 60 of the last minute of a day, and `v` is the first second of the day after. */
  predicate MidnightTie(u: Utc, v: Utc)
  {
    && u.hour == 23 && u.minute == 59 && u.second == 60
    && v.hour == 0 && v.minute == 0 && v.second == 0
    && ValidDate(Date(u.year, u.month, u.day))
    && Date(v.year, v.month, v.day) == Successor(Date(u.year, u.month, u.day))
  }

  lemma DayNumberFixesDate(d: Date, e: Date)
    requires ValidDate(d) && ValidDate(e)
    ensures DayNumber(d) < DayNumber(e) <==> Before(d, e)
    ensures DayNumber(d) == DayNumber(e) <==> d == e
    ensures DayNumber(e) == DayNumber(d) + 1 <==> e == Successor(d)
  {
    hide DayNumber, DateAfter;
    SuccessorIsNext(d);
    DayNumberCounts(d);
    DayNumberCounts(e);
    DayNumberCounts(Successor(d));
    if Before(d, e) {
      DayNumberIsOrdered(d, e);
    } else if Before(e, d) {
      DayNumberIsOrdered(e, d);
    }
  }

  /** Days of 86400 seconds: how counts of seconds compare when a day's own count can reach 86400. */
  lemma DaysAndSeconds(m: int, x: int, n: int, y: int)
    requires 0 <= x <= 86400 && 0 <= y <= 86400
    ensures m * 86400 + x < n * 86400 + y <==>
              (m < n && !(n == m + 1 && x == 86400 && y == 0)) || (m == n && x < y)
    ensures m * 86400 + x == n * 86400 + y <==>
              || (m == n && x == y)
              || (n == m + 1 && x == 86400 && y == 0)
              || (m == n + 1 && y == 86400 && x == 0)
  {
  }

  /** The unwrapped count of seconds orders two accepted moments rightly exactly when they are no midnight tie. */
  lemma SecondsAreOrderedIff(u: Utc, v: Utc)
    requires Accepted(u) && Accepted(v)
    ensures (Seconds(u) < Seconds(v) <==> Earlier(u, v)) <==> !MidnightTie(u, v)
    ensures MidnightTie(u, v) ==> Seconds(u) == Seconds(v)
  {
    hide DayNumber, MonthDays;
    var d, e := Date(u.year, u.month, u.day), Date(v.year, v.month, v.day);
    DayNumberFixesDate(d, e);
    hide ValidDate, Successor;
    DaysAndSeconds(DayNumber(d), TimeOfDay(u), DayNumber(e), TimeOfDay(v));
  }

  /** The last second whose milliseconds fit in 64 bits. */
  const LAST := Utc(584556019, 4, 3, 14, 25, 51)

  /** A guard on the calendar: the milliseconds fit exactly up to that second. */
  lemma FitsUpToLast(u: Utc, last: Utc)
    requires Accepted(u) && last == LAST
    ensures Seconds(u) * 1000 < U64_LIMIT <==> !Earlier(last, u)
  {
    LastSeconds(last);
    SecondsAreOrderedIff(last, u);
    hide Seconds, Earlier, Accepted;
  }

  lemma LastSeconds(last: Utc)
    requires last == LAST
    ensures Accepted(last) && Seconds(last) == 18_446_744_073_709_551
  {
    assert DayNumber(Date(584556019, 4, 3)) == 213_503_982_334;
  }

  /**
   * Up to that second, timestamps are strictly ordered as the moments are if and only if the two moments are
   * not second 60 before a midnight and that midnight, which share a timestamp.
   */
  lemma TimestampsAreOrderedIff(u: Utc, v: Utc)
    requires Accepted(u) && Accepted(v) && Seconds(u) * 1000 < U64_LIMIT && Seconds(v) * 1000 < U64_LIMIT
    ensures (ParseUtc(Some(u)) < ParseUtc(Some(v)) <==> Earlier(u, v)) <==> !MidnightTie(u, v)
    ensures MidnightTie(u, v) ==> Earlier(u, v) && ParseUtc(Some(u)) == ParseUtc(Some(v))
  {
    ParsedSeconds(u);
    ParsedSeconds(v);
    SecondsAreOrderedIff(u, v);
    hide Seconds, ParseUtc, Earlier, Accepted, MidnightTie;
  }

  /** In particular they are for seconds below 60. */
  lemma TimestampsAreOrdered(u: Utc, v: Utc)
    requires Accepted(u) && Accepted(v) && u.second < 60 && v.second < 60
    requires Seconds(u) * 1000 < U64_LIMIT && Seconds(v) * 1000 < U64_LIMIT
    ensures ParseUtc(Some(u)) < ParseUtc(Some(v)) <==> Earlier(u, v)
  {
    hide Seconds, ParseUtc, Earlier, Accepted;
    TimestampsAreOrderedIff(u, v);
  }

  /** 2016-12-31T23:59:60 and 2017-01-01T00:00:00: in order, and with one timestamp. */
  lemma LeapSecondTiesWithMidnight(u: Utc, v: Utc)
    requires u == Utc(2016, 12, 31, 23, 59, 60) && v == Utc(2017, 1, 1, 0, 0, 0)
    ensures Accepted(u) && Accepted(v) && Earlier(u, v)
    ensures ParseUtc(Some(u)) == ParseUtc(Some(v)) == 1_483_228_800_000
  {
    LeapSecond(u);
    NewYear(v);
    hide Seconds, Accepted;
  }

  lemma LeapSecond(u: Utc)
    requires u == Utc(2016, 12, 31, 23, 59, 60)
    ensures Accepted(u) && Seconds(u) == 1_483_228_800
  {
    assert DayNumber(Date(2016, 12, 31)) == 17_166;
  }

  lemma NewYear(u: Utc)
    requires u == Utc(2017, 1, 1, 0, 0, 0)
    ensures Accepted(u) && Seconds(u) == 1_483_228_800
  {
    assert DayNumber(Date(2017, 1, 1)) == 17_167;
  }

  /** `u` is second 60 of a minute, and `v` is second 0 of the next, in the same hour, the next hour or the next day. */
  predicate SixtyBefore(u: Utc, v: Utc)
  {
    && u.second == 60 && v.second == 0
    && (|| MidnightTie(u, v)
        || (Date(u.year, u.month, u.day) == Date(v.year, v.month, v.day)
            && v.hour * 60 + v.minute == u.hour * 60 + u.minute + 1))
  }

  /** Two accepted texts share a timestamp exactly when they are the same moment or second 60 and the next second 0. */
  lemma SharedTimestampIff(u: Utc, v: Utc)
    requires Accepted(u) && Accepted(v) && Seconds(u) * 1000 < U64_LIMIT && Seconds(v) * 1000 < U64_LIMIT
    ensures ParseUtc(Some(u)) == ParseUtc(Some(v)) <==> u == v || SixtyBefore(u, v) || SixtyBefore(v, u)
  {
    ParsedSeconds(u);
    ParsedSeconds(v);
    SharedSecondsIff(u, v);
    hide Seconds, ParseUtc, SixtyBefore, Accepted;
  }

  lemma SharedSecondsIff(u: Utc, v: Utc)
    requires Accepted(u) && Accepted(v)
    ensures Seconds(u) == Seconds(v) <==> u == v || SixtyBefore(u, v) || SixtyBefore(v, u)
  {
    hide DayNumber, MonthDays;
    var d, e := Date(u.year, u.month, u.day), Date(v.year, v.month, v.day);
    DayNumberFixesDate(d, e);
    DayNumberFixesDate(e, d);
    hide ValidDate, Successor;
    DaysAndSeconds(DayNumber(d), TimeOfDay(u), DayNumber(e), TimeOfDay(v));
    MinutesAndSeconds(u.hour * 60 + u.minute, u.second, v.hour * 60 + v.minute, v.second);
  }

  lemma MinutesAndSeconds(m: int, x: int, n: int, y: int)
    requires 0 <= x <= 60 && 0 <= y <= 60
    ensures m * 60 + x == n * 60 + y <==>
              || (m == n && x == y)
              || (n == m + 1 && x == 60 && y == 0)
              || (m == n + 1 && y == 60 && x == 0)
  {
  }

  /** Second 60 is accepted in every minute and reads as second 0 of the next: two texts share a timestamp. */
  lemma SecondSixtyIsNextMinute(u: Utc, v: Utc)
    requires Accepted(u) && Accepted(v) && SixtyBefore(u, v)
    ensures ParseUtc(Some(u)) == ParseUtc(Some(v))
  {
    SharedSecondsIff(u, v);
    hide Seconds, SixtyBefore, Accepted;
  }

  /** Inside 64 bits, 0 means the text was refused or is the epoch itself. */
  lemma ZeroMeansRefusedOrEpoch(u: Utc)
    requires Accepted(u) ==> Seconds(u) * 1000 < U64_LIMIT
    ensures ParseUtc(Some(u)) == 0 <==>
              || !Accepted(u)
              || (Date(u.year, u.month, u.day) == EPOCH && u.hour == 0 && u.minute == 0 && u.second == 0)
  {
    if Accepted(u) {
      ParsedSeconds(u);
      SecondsZero(u);
    }
  }

  lemma SecondsZero(u: Utc)
    requires Accepted(u)
    ensures Seconds(u) >= 0
    ensures Seconds(u) == 0 <==>
              Date(u.year, u.month, u.day) == EPOCH && u.hour == 0 && u.minute == 0 && u.second == 0
  {
    hide DayNumber, MonthDays;
    ZeroOnlyAtEpoch(Date(u.year, u.month, u.day));
    ZeroSeconds(DayNumber(Date(u.year, u.month, u.day)), u.hour, u.minute, u.second);
  }

  lemma ParsedSeconds(u: Utc)
    requires Accepted(u) && Seconds(u) * 1000 < U64_LIMIT
    ensures ParseUtc(Some(u)) == Seconds(u) * 1000
  {
    hide DayNumber, MonthDays;
    ZeroOnlyAtEpoch(Date(u.year, u.month, u.day));
  }

  lemma ZeroSeconds(days: nat, hour: nat, minute: nat, second: nat)
    ensures var seconds := days * 86400 + hour * 3600 + minute * 60 + second;
            seconds >= 0 && (seconds == 0 <==> days == 0 && hour == 0 && minute == 0 && second == 0)
  {
  }

  lemma ZeroOnlyAtEpoch(d: Date)
    requires ValidDate(d)
    ensures DayNumber(d) >= 0
    ensures DayNumber(d) == 0 <==> d == EPOCH
  {
    hide DayNumber, MonthDays;
    DayNumberCounts(d);
    EpochIsZero();
    assert DateAfter(0) == EPOCH;
  }

  /** Years are not bounded: past the last second that fits, a later moment reads as an earlier one. */
  lemma FarYearsWrap(u: Utc, v: Utc)
    requires u == Utc(584556019, 1, 1, 0, 0, 0) && v == Utc(584556020, 1, 1, 0, 0, 0)
    ensures Accepted(u) && Accepted(v) && Earlier(u, v)
    ensures ParseUtc(Some(u)) > ParseUtc(Some(v))
  {
    hide Seconds, Accepted;
    LastWholeYear(u);
    FirstWrappedYear(v);
    assert ParseUtc(Some(u)) == 18_446_744_065_708_800_000;
    assert ParseUtc(Some(v)) == 23_535_248_384;
  }

  /** Moments up to `m`, midnight ties apart, have timestamps in their order. */
  ghost predicate OrderedUpTo(m: Utc)
  {
    forall u, v :: Accepted(u) && Accepted(v) && !Earlier(m, u) && !Earlier(m, v) && !MidnightTie(u, v) ==>
                     (ParseUtc(Some(u)) < ParseUtc(Some(v)) <==> Earlier(u, v))
  }

  /** That holds up to the last second that fits, and up to no later moment. */
  lemma OrderedUpToIff(m: Utc, last: Utc, next: Utc)
    requires Accepted(m) && last == LAST && next == LAST.(second := 52)
    ensures OrderedUpTo(m) <==> !Earlier(last, m)
  {
    if Earlier(last, m) {
      WrapsAfterLast(last, next);
      assert !Earlier(m, last) && !Earlier(m, next);
    } else {
      forall u, v | Accepted(u) && Accepted(v) && !Earlier(m, u) && !Earlier(m, v) && !MidnightTie(u, v)
        ensures ParseUtc(Some(u)) < ParseUtc(Some(v)) <==> Earlier(u, v)
      {
        NotLater(last, m, u);
        NotLater(last, m, v);
        FitsUpToLast(u, last);
        FitsUpToLast(v, last);
        TimestampsAreOrderedIff(u, v);
      }
    }
  }

  lemma NotLater(last: Utc, m: Utc, u: Utc)
    requires !Earlier(last, m) && !Earlier(m, u)
    ensures !Earlier(last, u)
  {
  }

  lemma WrapsAfterLast(last: Utc, next: Utc)
    requires last == LAST && next == LAST.(second := 52)
    ensures Accepted(last) && Accepted(next) && Earlier(last, next) && !MidnightTie(last, next)
    ensures ParseUtc(Some(last)) > ParseUtc(Some(next))
  {
    LastSeconds(last);
    assert Accepted(next) && Seconds(next) == Seconds(last) + 1;
    hide Seconds, Accepted;
  }

  lemma LastWholeYear(u: Utc)
    requires u == Utc(584556019, 1, 1, 0, 0, 0)
    ensures Accepted(u) && Seconds(u) == 18_446_744_065_708_800
  {
    assert DayNumber(Date(584556019, 1, 1)) == 213_503_982_242;
  }

  lemma FirstWrappedYear(u: Utc)
    requires u == Utc(584556020, 1, 1, 0, 0, 0)
    ensures Accepted(u) && Seconds(u) == 18_446_744_097_244_800
  {
    assert DayNumber(Date(584556020, 1, 1)) == 213_503_982_607;
  }
}

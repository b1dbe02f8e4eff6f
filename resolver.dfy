/** `iso8601::DateTime::to_chrono`: the calendar stage. A record whose fields
    are a real civil date and time of day, under an offset chrono accepts,
    becomes a timestamp carrying exactly those fields and that offset;
    anything else becomes `None` rather than a fault.

    The conversion is modelled as chrono's steps would take it:
    `FixedOffset::east` on the offset, `ymd_opt` on the date fields,
    `and_hms_opt` on the clock fields. The calendar is the proleptic
    Gregorian one. */
module CalendarResolver {
  import opened Records

  /** The years chrono's `NaiveDate` can represent. */
  const MinYear: int := -262144
  const MaxYear: int := 262143

  const SecondsPerDay: int := 86400

  // ---------------------------------------------------------------------
  // The proleptic Gregorian calendar

  predicate IsLeapYear(y: int) {
    y % 4 == 0 && (y % 100 != 0 || y % 400 == 0)
  }

  function DaysInMonth(y: int, m: nat): (n: nat)
    requires 1 <= m <= 12
    ensures 28 <= n <= 31
    ensures m == 2 ==> (n == 29 <==> IsLeapYear(y))
    ensures m == 2 && !IsLeapYear(y) ==> n == 28
    ensures n == 30 <==> m in {4, 6, 9, 11}
    ensures n == 31 <==> m in {1, 3, 5, 7, 8, 10, 12}
  {
    if m == 2 then (if IsLeapYear(y) then 29 else 28)
    else if m == 4 || m == 6 || m == 9 || m == 11 then 30
    else 31
  }

  function YearDays(y: int): nat {
    if IsLeapYear(y) then 366 else 365
  }

  /** Whether `(year, month, day)` names a day chrono's `ymd_opt` accepts. */
  predicate ValidDate(d: Date) {
    MinYear <= d.year <= MaxYear && 1 <= d.month <= 12 && 1 <= d.day <= DaysInMonth(d.year, d.month)
  }

  /** Whether the clock fields are a time of day `and_hms_opt` accepts. */
  predicate ValidTime(t: Time) {
    t.hour < 24 && t.minute < 60 && t.second < 60
  }

  /** Whether `FixedOffset::east` accepts the offset. */
  predicate ValidOffset(offset: int) {
    -SecondsPerDay < offset < SecondsPerDay
  }

  /** Whether a parsed record stands for an existing civil timestamp. */
  predicate Resolvable(dt: DateTime) {
    ValidDate(dt.date) && ValidTime(dt.time) && ValidOffset(dt.time.tzOffset)
  }

  // ---------------------------------------------------------------------
  // The resolved timestamp

  /** A civil date and time of day at a fixed offset east of UTC. */
  datatype Timestamp = Timestamp(date: Date, hour: nat, minute: nat, second: nat, offset: int) {
    predicate Valid() {
      ValidDate(date) && hour < 24 && minute < 60 && second < 60 && ValidOffset(offset)
    }

    /** The wall-clock fields as a parsed record would hold them. */
    function Record(): DateTime {
      DateTime(date, Time(hour, minute, second, offset))
    }
  }

  /** `DateTime::to_chrono`, modelled as three refusals in turn: an offset
      `FixedOffset::east` would not accept, a date `ymd_opt` would not find,
      and clock fields `and_hms_opt` would not accept. */
  function ToChrono(dt: DateTime): (r: Option<Timestamp>)
    ensures r.Some? <==> Resolvable(dt)
    ensures r.Some? ==> r.value.Valid() && r.value.Record() == dt
  {
    var d, t := dt.date, dt.time;
    if t.tzOffset <= -SecondsPerDay || SecondsPerDay <= t.tzOffset then None
    else if d.year < MinYear || MaxYear < d.year || d.month < 1 || 12 < d.month then None
    else if d.day < 1 || DaysInMonth(d.year, d.month) < d.day then None
    else if t.hour >= 24 || t.minute >= 60 || t.second >= 60 then None
    else Some(Timestamp(d, t.hour, t.minute, t.second, t.tzOffset))
  }

  /** Every valid timestamp is what its own record resolves to. */
  lemma ToChronoOfRecord(ts: Timestamp)
    requires ts.Valid()
    ensures ToChrono(ts.Record()) == Some(ts)
  {
  }

  // ---------------------------------------------------------------------
  // Day numbers and instants

  /** Days from 1 January of year 0 to 1 January of year `y`. */
  function DaysBeforeYear(y: int): int {
    365 * y + (y + 3) / 4 - (y + 99) / 100 + (y + 399) / 400
  }

  /** Days from 1 January to the first of month `m` of year `y`. */
  function DaysBeforeMonth(y: int, m: nat): nat
    requires 1 <= m <= 13
  {
    if m == 1 then 0 else DaysBeforeMonth(y, m - 1) + DaysInMonth(y, m - 1)
  }

  /** Days from 1 January of year 0 to the date. */
  function DayNumber(d: Date): int
    requires 1 <= d.month <= 12
  {
    DaysBeforeYear(d.year) + DaysBeforeMonth(d.year, d.month) + d.day - 1
  }

  /** The instant a timestamp denotes, in seconds from 0000-01-01T00:00Z. */
  function Instant(ts: Timestamp): int
    requires ts.Valid()
  {
    DayNumber(ts.date) * SecondsPerDay + ts.hour * 3600 + ts.minute * 60 + ts.second - ts.offset
  }

  lemma DivUnique(x: int, k: int, q: int, r: int)
    requires k > 0 && 0 <= r < k && x == q * k + r
    ensures x / k == q && x % k == r
  {
    var q', r' := x / k, x % k;
    assert (q' - q) * k == r - r' by {
      assert q' * k + r' == q * k + r;
    }
    if q' > q {
      AtLeastOnce(q' - q, k);
    } else if q' < q {
      AtLeastOnce(q - q', k);
    }
  }

  lemma AtLeastOnce(d: int, k: int)
    requires d >= 1 && k > 0
    ensures d * k >= k
  {
    assert d * k == (d - 1) * k + k;
  }

  /** `(y + k - 1) / k` counts the multiples of `k` below `y`: it grows by one
      exactly past a multiple. */
  lemma MultiplesStep(y: int, k: int)
    requires k > 0
    ensures (y + k) / k - (y + k - 1) / k == if y % k == 0 then 1 else 0
  {
    var q, r := y / k, y % k;
    DivUnique(y + k, k, q + 1, r);
    if r == 0 {
      DivUnique(y + k - 1, k, q, k - 1);
    } else {
      DivUnique(y + k - 1, k, q + 1, r - 1);
    }
  }

  /** Consecutive years start `YearDays` apart: the day count follows the
      leap rule. */
  lemma YearStep(y: int)
    ensures DaysBeforeYear(y + 1) == DaysBeforeYear(y) + YearDays(y)
  {
    MultiplesStep(y, 4);
    MultiplesStep(y, 100);
    MultiplesStep(y, 400);
    if y % 100 == 0 {
      DivUnique(y, 4, y / 100 * 25, 0);
    }
    if y % 400 == 0 {
      DivUnique(y, 100, y / 400 * 4, 0);
    }
    assert 365 * (y + 1) == 365 * y + 365;
  }

  /** The twelve months add up to the length of the year. */
  lemma MonthsFillYear(y: int)
    ensures DaysBeforeMonth(y, 13) == YearDays(y)
  {
    var feb := DaysInMonth(y, 2);
    assert DaysBeforeMonth(y, 2) == 31;
    assert DaysBeforeMonth(y, 3) == 31 + feb;
    assert DaysBeforeMonth(y, 4) == 62 + feb;
    assert DaysBeforeMonth(y, 5) == 92 + feb;
    assert DaysBeforeMonth(y, 6) == 123 + feb;
    assert DaysBeforeMonth(y, 7) == 153 + feb;
    assert DaysBeforeMonth(y, 8) == 184 + feb;
    assert DaysBeforeMonth(y, 9) == 215 + feb;
    assert DaysBeforeMonth(y, 10) == 245 + feb;
    assert DaysBeforeMonth(y, 11) == 276 + feb;
    assert DaysBeforeMonth(y, 12) == 306 + feb;
  }

  lemma {:induction false} DaysBeforeYearIncreasing(a: int, b: int)
    requires a < b
    ensures DaysBeforeYear(a) + YearDays(a) <= DaysBeforeYear(b)
    decreases b - a
  {
    YearStep(a);
    if a + 1 < b {
      DaysBeforeYearIncreasing(a + 1, b);
    }
  }

  lemma {:induction false} DaysBeforeMonthIncreasing(y: int, a: nat, b: nat)
    requires 1 <= a < b <= 13
    ensures DaysBeforeMonth(y, a) + DaysInMonth(y, a) <= DaysBeforeMonth(y, b)
    decreases b - a
  {
    if a + 1 < b {
      DaysBeforeMonthIncreasing(y, a + 1, b);
    }
  }

  /** The day after a valid date, rolling over the month and the year. */
  function NextDay(d: Date): (n: Date)
    requires ValidDate(d)
    ensures d.year < MaxYear ==> ValidDate(n)
  {
    if d.day < DaysInMonth(d.year, d.month) then Date(d.year, d.month, d.day + 1)
    else if d.month < 12 then Date(d.year, d.month + 1, 1)
    else Date(d.year + 1, 1, 1)
  }

  /** Day numbers count days: the next day is one more. */
  lemma DayNumberNext(d: Date)
    requires ValidDate(d)
    ensures 1 <= NextDay(d).month <= 12 && DayNumber(NextDay(d)) == DayNumber(d) + 1
  {
    if d.day == DaysInMonth(d.year, d.month) && d.month == 12 {
      YearStep(d.year);
      MonthsFillYear(d.year);
    }
  }

  /** A valid date's day number lies within its own year. */
  lemma DayNumberInYear(d: Date)
    requires ValidDate(d)
    ensures DaysBeforeYear(d.year) <= DayNumber(d) < DaysBeforeYear(d.year) + YearDays(d.year)
  {
    DaysBeforeMonthIncreasing(d.year, d.month, 13);
    MonthsFillYear(d.year);
  }

  /** Calendar order: year, then month, then day. */
  predicate Before(a: Date, b: Date) {
    a.year < b.year
    || (a.year == b.year && a.month < b.month)
    || (a.year == b.year && a.month == b.month && a.day < b.day)
  }

  /** Day numbers follow the calendar order. */
  lemma DayNumberOrder(a: Date, b: Date)
    requires ValidDate(a) && ValidDate(b) && Before(a, b)
    ensures DayNumber(a) < DayNumber(b)
  {
    if a.year < b.year {
      DayNumberInYear(a);
      DayNumberInYear(b);
      DaysBeforeYearIncreasing(a.year, b.year);
    } else if a.month < b.month {
      DaysBeforeMonthIncreasing(a.year, a.month, b.month);
    }
  }

  /** Distinct valid dates have distinct day numbers. */
  lemma DayNumberInjective(a: Date, b: Date)
    requires ValidDate(a) && ValidDate(b) && DayNumber(a) == DayNumber(b)
    ensures a == b
  {
    if Before(a, b) {
      DayNumberOrder(a, b);
    } else if Before(b, a) {
      DayNumberOrder(b, a);
    }
  }

  /** At one offset, the instant determines the timestamp: two valid
      timestamps at the same offset are equal exactly when their instants are. */
  lemma InstantDeterminesTimestamp(a: Timestamp, b: Timestamp)
    requires a.Valid() && b.Valid() && a.offset == b.offset
    ensures Instant(a) == Instant(b) <==> a == b
  {
    if Instant(a) == Instant(b) {
      var ta := a.hour * 3600 + a.minute * 60 + a.second;
      var tb := b.hour * 3600 + b.minute * 60 + b.second;
      var x := Instant(a) + a.offset;
      DivUnique(x, SecondsPerDay, DayNumber(a.date), ta);
      DivUnique(x, SecondsPerDay, DayNumber(b.date), tb);
      DayNumberInjective(a.date, b.date);
      DivUnique(ta, 60, a.hour * 60 + a.minute, a.second);
      DivUnique(tb, 60, b.hour * 60 + b.minute, b.second);
      DivUnique(a.hour * 60 + a.minute, 60, a.hour, a.minute);
      DivUnique(b.hour * 60 + b.minute, 60, b.hour, b.minute);
    }
  }

  /** The same wall clock at two different offsets denotes two different
      instants; the offset moves the instant by exactly the difference. */
  lemma OffsetShiftsInstant(a: Timestamp, offset: int)
    requires a.Valid() && ValidOffset(offset)
    ensures Instant(a.(offset := offset)) == Instant(a) + a.offset - offset
    ensures Instant(a.(offset := offset)) == Instant(a) <==> offset == a.offset
  {
  }
}

/**
 * UTC calendar arithmetic behind the dashboard's `d3.timeParse("%Y-%m-%dT%H:%M:%SZ")`,
 * `getDay`/`getHours`/`getMonth`/`getFullYear`, `d3.timeDay.offset` and
 * `d3.timeDay.count`.  An instant is an integer number of seconds since
 * 1970-01-01T00:00:00Z (proleptic Gregorian calendar).
 */
module Calendar {
  import opened Options
  import opened Text

  /** The fields a timestamp string spells out. */
  datatype DateTime = DateTime(year: int, month: int, day: int, hour: int, minute: int, second: int)

  const SecondsPerDay: int := 86400

  predicate IsLeapYear(y: int) {
    y % 4 == 0 && (y % 100 != 0 || y % 400 == 0)
  }

  function YearLength(y: int): int {
    if IsLeapYear(y) then 366 else 365
  }

  function DaysInMonth(y: int, m: int): int
    requires 1 <= m <= 12
  {
    if m == 2 then (if IsLeapYear(y) then 29 else 28)
    else if m == 4 || m == 6 || m == 9 || m == 11 then 30
    else 31
  }

  /** Fields a four-digit-year timestamp can name: every field in range for its calendar month. */
  predicate Valid(dt: DateTime) {
    && 0 <= dt.year <= 9999
    && 1 <= dt.month <= 12
    && 1 <= dt.day <= DaysInMonth(dt.year, dt.month)
    && 0 <= dt.hour < 24 && 0 <= dt.minute < 60 && 0 <= dt.second < 60
  }

  // ---------------------------------------------------------------------------
  // day numbers

  /** The number of leap years in [0, y), shifted by a constant; only differences matter. */
  function LeapYearsBefore(y: int): int {
    (y - 1) / 4 - (y - 1) / 100 + (y - 1) / 400
  }

  /** Days from 1970-01-01 to January 1st of year `y`. */
  function DaysBeforeYear(y: int): int {
    365 * (y - 1970) + LeapYearsBefore(y) - LeapYearsBefore(1970)
  }

  /** Days from January 1st to the first day of month `m` of year `y`. */
  function DaysBeforeMonth(y: int, m: int): int
    requires 1 <= m <= 12
  {
    var common :=
      if m == 1 then 0 else if m == 2 then 31 else if m == 3 then 59
      else if m == 4 then 90 else if m == 5 then 120 else if m == 6 then 151
      else if m == 7 then 181 else if m == 8 then 212 else if m == 9 then 243
      else if m == 10 then 273 else if m == 11 then 304 else 334;
    common + (if m > 2 && IsLeapYear(y) then 1 else 0)
  }

  /** Days from 1970-01-01 to the date of `dt` (negative before 1970). */
  function DayNumber(dt: DateTime): int
    requires 1 <= dt.month <= 12
  {
    DaysBeforeYear(dt.year) + DaysBeforeMonth(dt.year, dt.month) + dt.day - 1
  }

  function SecondOfDay(dt: DateTime): int {
    dt.hour * 3600 + dt.minute * 60 + dt.second
  }

  /** The instant `dt` names, in seconds since the epoch. */
  function ToSeconds(dt: DateTime): int
    requires 1 <= dt.month <= 12
  {
    DayNumber(dt) * SecondsPerDay + SecondOfDay(dt)
  }

  /** `getDay()` in UTC: 0 is Sunday; 1970-01-01 was a Thursday. */
  function Weekday(t: int): (w: int)
    ensures 0 <= w <= 6
  {
    (t / SecondsPerDay + 4) % 7
  }

  /** `getHours()` in UTC. */
  function HourOf(t: int): (h: int)
    ensures 0 <= h <= 23
  {
    (t % SecondsPerDay) / 3600
  }

  /** `d3.timeDay.offset(t, n)` in UTC. */
  function AddDays(t: int, n: int): int {
    t + n * SecondsPerDay
  }

  /** `d3.timeDay.count(a, b)` in UTC: the number of midnights in (a, b]. */
  function DayCount(a: int, b: int): int {
    b / SecondsPerDay - a / SecondsPerDay
  }

  lemma DayCountNonNegative(a: int, b: int)
    requires a <= b
    ensures DayCount(a, b) >= 0
  {}

  // ---------------------------------------------------------------------------
  // the order of instants follows the order of their fields

  lemma FourStep(y: int)
    ensures y / 4 - (y - 1) / 4 == if y % 4 == 0 then 1 else 0
  {}

  lemma CenturyStep(y: int)
    ensures y / 100 - (y - 1) / 100 == if y % 100 == 0 then 1 else 0
  {}

  lemma FourCenturyStep(y: int)
    ensures y / 400 - (y - 1) / 400 == if y % 400 == 0 then 1 else 0
  {}

  lemma YearStep(y: int)
    ensures DaysBeforeYear(y + 1) == DaysBeforeYear(y) + YearLength(y)
  {
    FourStep(y);
    CenturyStep(y);
    FourCenturyStep(y);
  }

  lemma {:induction false} YearsMonotone(a: int, b: int)
    requires a <= b
    ensures DaysBeforeYear(a) <= DaysBeforeYear(b)
    decreases b - a
  {
    if a < b {
      YearStep(b - 1);
      YearsMonotone(a, b - 1);
    }
  }

  lemma MonthFits(y: int, m: int, m': int)
    requires 1 <= m < m' <= 12
    ensures DaysBeforeMonth(y, m) + DaysInMonth(y, m) <= DaysBeforeMonth(y, m')
  {}

  lemma MonthsFitYear(y: int, m: int)
    requires 1 <= m <= 12
    ensures DaysBeforeMonth(y, m) + DaysInMonth(y, m) <= YearLength(y)
  {}

  /** The date of a valid `dt` lies within its year. */
  lemma DayWithinYear(dt: DateTime)
    requires Valid(dt)
    ensures DaysBeforeYear(dt.year) <= DayNumber(dt) < DaysBeforeYear(dt.year + 1)
  {
    MonthsFitYear(dt.year, dt.month);
    YearStep(dt.year);
  }

  /** Field-by-field (year, month, day, hour, minute, second) order. */
  predicate Before(a: DateTime, b: DateTime) {
    if a.year != b.year then a.year < b.year
    else if a.month != b.month then a.month < b.month
    else if a.day != b.day then a.day < b.day
    else if a.hour != b.hour then a.hour < b.hour
    else if a.minute != b.minute then a.minute < b.minute
    else a.second < b.second
  }

  lemma DayNumberMonotone(a: DateTime, b: DateTime)
    requires Valid(a) && Valid(b)
    requires a.year < b.year || (a.year == b.year && (a.month < b.month || (a.month == b.month && a.day < b.day)))
    ensures DayNumber(a) < DayNumber(b)
  {
    if a.year < b.year {
      DayWithinYear(a);
      DayWithinYear(b);
      YearsMonotone(a.year + 1, b.year);
    } else if a.month < b.month {
      MonthFits(a.year, a.month, b.month);
    }
  }

  /** A field-wise earlier timestamp denotes an earlier instant. */
  lemma ToSecondsMonotone(a: DateTime, b: DateTime)
    requires Valid(a) && Valid(b) && Before(a, b)
    ensures ToSeconds(a) < ToSeconds(b)
  {
    if a.year != b.year || a.month != b.month || a.day != b.day {
      DayNumberMonotone(a, b);
      assert ToSeconds(a) < (DayNumber(a) + 1) * SecondsPerDay;
    }
  }

  /** Two valid field sets that name the same instant are the same fields. */
  lemma ToSecondsInjective(a: DateTime, b: DateTime)
    requires Valid(a) && Valid(b) && ToSeconds(a) == ToSeconds(b)
    ensures a == b
  {
    if a != b {
      if Before(a, b) { ToSecondsMonotone(a, b); }
      else {
        assert Before(b, a);
        ToSecondsMonotone(b, a);
      }
    }
  }

  /** The instant of `dt` falls on the day `DayNumber(dt)` at the hour `dt.hour`. */
  lemma HourAndDayOfInstant(dt: DateTime)
    requires Valid(dt)
    ensures ToSeconds(dt) / SecondsPerDay == DayNumber(dt)
    ensures HourOf(ToSeconds(dt)) == dt.hour
  {
    DivideDay(DayNumber(dt), SecondOfDay(dt));
    HourOfSecondOfDay(dt.hour, dt.minute, dt.second);
  }

  lemma DivideDay(d: int, s: int)
    requires 0 <= s < SecondsPerDay
    ensures (d * SecondsPerDay + s) / SecondsPerDay == d && (d * SecondsPerDay + s) % SecondsPerDay == s
  {}

  lemma HourOfSecondOfDay(h: int, m: int, s: int)
    requires 0 <= h <= 23 && 0 <= m <= 59 && 0 <= s <= 59
    ensures 0 <= h * 3600 + m * 60 + s < SecondsPerDay && (h * 3600 + m * 60 + s) / 3600 == h
  {}

  // ---------------------------------------------------------------------------
  // the fixed format %Y-%m-%dT%H:%M:%SZ

  function Pad2(n: nat): (s: string)
    requires n < 100
    ensures |s| == 2
  {
    [DigitChar(n / 10), DigitChar(n % 10)]
  }

  function Pad4(n: nat): (s: string)
    requires n < 10000
    ensures |s| == 4
  {
    Pad2(n / 100) + Pad2(n % 100)
  }

  /** `d3.timeFormat("%Y-%m-%dT%H:%M:%SZ")` in UTC. */
  function Format(dt: DateTime): (s: string)
    requires Valid(dt)
    ensures |s| == 20
  {
    Pad4(dt.year) + "-" + Pad2(dt.month) + "-" + Pad2(dt.day) + "T"
    + Pad2(dt.hour) + ":" + Pad2(dt.minute) + ":" + Pad2(dt.second) + "Z"
  }

  predicate DigitsAt(s: string, i: nat, n: nat) {
    i + n <= |s| && forall k :: i <= k < i + n ==> IsDigit(s[k])
  }

  function Field(s: string, i: nat, n: nat): nat
    requires DigitsAt(s, i, n)
  {
    DigitsValue(s[i..i + n])
  }

  /** The punctuation and digit positions of the format. */
  predicate HasShape(s: string) {
    && |s| == 20
    && DigitsAt(s, 0, 4) && s[4] == '-' && DigitsAt(s, 5, 2) && s[7] == '-' && DigitsAt(s, 8, 2)
    && s[10] == 'T' && DigitsAt(s, 11, 2) && s[13] == ':' && DigitsAt(s, 14, 2) && s[16] == ':'
    && DigitsAt(s, 17, 2) && s[19] == 'Z'
  }

  /** The fields of a timestamp string, or `None` when it does not have the format or names no real instant. */
  function ParseFields(s: string): (r: Option<DateTime>)
    ensures r.Some? ==> Valid(r.value)
  {
    if !HasShape(s) then None
    else
      var dt := DateTime(Field(s, 0, 4), Field(s, 5, 2), Field(s, 8, 2),
                         Field(s, 11, 2), Field(s, 14, 2), Field(s, 17, 2));
      if Valid(dt) then Some(dt) else None
  }

  /** `parseTime(s)`: the instant, or `null` (`None`). */
  function ParseTime(s: string): Option<int> {
    match ParseFields(s)
    case None => None
    case Some(dt) => Some(ToSeconds(dt))
  }

  /** `parseTime(v)` of a possibly missing cell: `parseTime(undefined)` is `null`. */
  function ParseCell(o: Option<string>): Option<int> {
    if o.None? then None else ParseTime(o.value)
  }

  lemma Value2(p: string)
    requires |p| == 2 && AllDigits(p)
    ensures DigitsValue(p) == DigitValue(p[0]) * 10 + DigitValue(p[1])
  {
    var q := p[..1];
    assert q[..0] == [];
    assert DigitsValue(q) == DigitValue(q[0]);
    assert DigitsValue(p) == DigitsValue(q) * 10 + DigitValue(p[1]);
  }

  lemma Value4(p: string)
    requires |p| == 4 && AllDigits(p)
    ensures DigitsValue(p) == DigitsValue(p[..2]) * 100 + DigitsValue(p[2..])
  {
    var r := p[..3];
    assert r[..2] == p[..2];
    Value2(p[..2]);
    Value2(p[2..]);
    assert DigitsValue(r) == DigitsValue(p[..2]) * 10 + DigitValue(p[2]);
    assert DigitsValue(p) == DigitsValue(r) * 10 + DigitValue(p[3]);
  }

  lemma Pad2Digits(n: nat)
    requires n < 100
    ensures DigitsAt(Pad2(n), 0, 2) && DigitsValue(Pad2(n)) == n
  {
    Value2(Pad2(n));
  }

  lemma Pad4Digits(n: nat)
    requires n < 10000
    ensures DigitsAt(Pad4(n), 0, 4) && DigitsValue(Pad4(n)) == n
  {
    var p := Pad4(n);
    assert p[..2] == Pad2(n / 100) && p[2..] == Pad2(n % 100);
    Pad2Digits(n / 100);
    Pad2Digits(n % 100);
    Value4(p);
  }

  /** `Pad2` renders the value of any two digits as those digits. */
  lemma Pad2OfValue(q: string)
    requires |q| == 2 && AllDigits(q)
    ensures DigitsValue(q) < 100 && Pad2(DigitsValue(q)) == q
  {
    Value2(q);
    var n := DigitsValue(q);
    assert n / 10 == DigitValue(q[0]) && n % 10 == DigitValue(q[1]);
    assert DigitChar(DigitValue(q[0])) == q[0] && DigitChar(DigitValue(q[1])) == q[1];
  }

  /** Formatting valid fields and parsing the text gives the fields back. */
  lemma {:induction false} ParseOfFormat(dt: DateTime)
    requires Valid(dt)
    ensures ParseFields(Format(dt)) == Some(dt)
  {
    var s := Format(dt);
    Pad4Digits(dt.year);
    Pad2Digits(dt.month); Pad2Digits(dt.day);
    Pad2Digits(dt.hour); Pad2Digits(dt.minute); Pad2Digits(dt.second);
    assert s[0..4] == Pad4(dt.year);
    assert s[5..7] == Pad2(dt.month);
    assert s[8..10] == Pad2(dt.day);
    assert s[11..13] == Pad2(dt.hour);
    assert s[14..16] == Pad2(dt.minute);
    assert s[17..19] == Pad2(dt.second);
  }

  lemma Field2Pad(s: string, i: nat)
    requires DigitsAt(s, i, 2)
    ensures Field(s, i, 2) < 100 && Pad2(Field(s, i, 2)) == s[i..i + 2]
  {
    Pad2OfValue(s[i..i + 2]);
  }

  lemma Field4Pad(s: string, i: nat)
    requires DigitsAt(s, i, 4)
    ensures Field(s, i, 4) < 10000 && Pad4(Field(s, i, 4)) == s[i..i + 4]
  {
    var p := s[i..i + 4];
    Value4(p);
    Pad2OfValue(p[..2]);
    Pad2OfValue(p[2..]);
    var n := Field(s, i, 4);
    assert n / 100 == DigitsValue(p[..2]) && n % 100 == DigitsValue(p[2..]);
    assert p == p[..2] + p[2..];
  }

  /** A string that parses is exactly the formatting of what it parses to. */
  lemma {:induction false} FormatOfParse(s: string)
    requires ParseFields(s).Some?
    ensures Format(ParseFields(s).value) == s
  {
    var dt := ParseFields(s).value;
    Field4Pad(s, 0);
    Field2Pad(s, 5); Field2Pad(s, 8); Field2Pad(s, 11); Field2Pad(s, 14); Field2Pad(s, 17);
    var f := Format(dt);
    assert f[0..4] == s[0..4] && f[5..7] == s[5..7] && f[8..10] == s[8..10];
    assert f[11..13] == s[11..13] && f[14..16] == s[14..16] && f[17..19] == s[17..19];
    forall k | 0 <= k < 20 ensures f[k] == s[k] {
      if k < 4 { assert f[k] == f[0..4][k]; assert s[k] == s[0..4][k]; }
      else if 5 <= k < 7 { assert f[k] == f[5..7][k - 5]; assert s[k] == s[5..7][k - 5]; }
      else if 8 <= k < 10 { assert f[k] == f[8..10][k - 8]; assert s[k] == s[8..10][k - 8]; }
      else if 11 <= k < 13 { assert f[k] == f[11..13][k - 11]; assert s[k] == s[11..13][k - 11]; }
      else if 14 <= k < 16 { assert f[k] == f[14..16][k - 14]; assert s[k] == s[14..16][k - 14]; }
      else if 17 <= k < 19 { assert f[k] == f[17..19][k - 17]; assert s[k] == s[17..19][k - 17]; }
    }
  }
}

/** Deletion timestamps. A record stores `YYYY-MM-DDTHH:MM:SS` (read with
    `datetime.strptime` at trashcli/trash2.py:231); the model turns a valid
    stamp into whole seconds since 0001-01-01T00:00:00 of the proleptic
    Gregorian calendar, the ordinal arithmetic `datetime` itself uses. Python
    compares two datetimes field by field; `SecondsOrderIsDateOrder` shows
    that comparing their second counts gives the same answer. */
module Dates {
  import opened Common

  datatype DateTime = DateTime(year: int, month: int, day: int,
                               hour: int, minute: int, second: int)

  const SecondsPerDay := 86400

  predicate IsLeap(y: int) {
    y % 4 == 0 && (y % 100 != 0 || y % 400 == 0)
  }

  function DaysInMonth(y: int, m: int): int
    requires 1 <= m <= 12
  {
    if m == 2 then (if IsLeap(y) then 29 else 28)
    else if m == 4 || m == 6 || m == 9 || m == 11 then 30
    else 31
  }

  function DaysInYear(y: int): int {
    if IsLeap(y) then 366 else 365
  }

  /** A value `datetime(year, month, day, hour, minute, second)` accepts. */
  predicate Valid(dt: DateTime) {
    && 1 <= dt.year <= 9999
    && 1 <= dt.month <= 12
    && 1 <= dt.day <= DaysInMonth(dt.year, dt.month)
    && 0 <= dt.hour < 24
    && 0 <= dt.minute < 60
    && 0 <= dt.second < 60
  }

  /** Days from 0001-01-01 to January 1st of year `y`. */
  function DaysBeforeYear(y: int): int
    requires y >= 1
  {
    var p := y - 1;
    365 * p + p / 4 - p / 100 + p / 400
  }

  function DaysBeforeMonth(y: int, m: int): int
    requires 1 <= m <= 12
  {
    var table := [0, 31, 59, 90, 120, 151, 181, 212, 243, 273, 304, 334];
    table[m - 1] + (if m > 2 && IsLeap(y) then 1 else 0)
  }

  /** Days from 0001-01-01 to the date of `dt` (`toordinal() - 1`). */
  function DayNumber(dt: DateTime): int
    requires Valid(dt)
  {
    DaysBeforeYear(dt.year) + DaysBeforeMonth(dt.year, dt.month) + dt.day - 1
  }

  function ToSeconds(dt: DateTime): int
    requires Valid(dt)
  {
    DayNumber(dt) * SecondsPerDay + dt.hour * 3600 + dt.minute * 60 + dt.second
  }

  /** The second count of 9999-12-31T23:59:59, the largest `datetime`. */
  const MaxSeconds := 315537897599

  lemma MaxSecondsIsLastInstant()
    ensures Valid(DateTime(9999, 12, 31, 23, 59, 59))
    ensures ToSeconds(DateTime(9999, 12, 31, 23, 59, 59)) == MaxSeconds
  {
  }

  /** Every valid stamp lies in the range a `datetime` can hold. */
  lemma SecondsInRange(dt: DateTime)
    requires Valid(dt)
    ensures 0 <= ToSeconds(dt) <= MaxSeconds
  {
    DaysBeforeYearGrows(dt.year, 10000);
    MonthsFitInYear(dt.year, dt.month);
    YearStep(dt.year);
    assert DaysBeforeYear(10000) == 3652059;
  }

  /** Field-by-field order, as `datetime.__lt__` compares. */
  predicate Before(a: DateTime, b: DateTime) {
    || a.year < b.year
    || (a.year == b.year && a.month < b.month)
    || (a.year == b.year && a.month == b.month && a.day < b.day)
    || (a.year == b.year && a.month == b.month && a.day == b.day && a.hour < b.hour)
    || (a.year == b.year && a.month == b.month && a.day == b.day && a.hour == b.hour
        && a.minute < b.minute)
    || (a.year == b.year && a.month == b.month && a.day == b.day && a.hour == b.hour
        && a.minute == b.minute && a.second < b.second)
  }

  /** How a floor quotient moves when its numerator grows by one, for the
      three divisors of the Gregorian leap rule. */
  lemma FloorStep(p: int, k: int)
    requires p >= 0 && (k == 4 || k == 100 || k == 400)
    ensures (p + 1) / k == p / k + (if (p + 1) % k == 0 then 1 else 0)
  {
    if k == 4 {
      assert p == 4 * (p / 4) + p % 4;
    } else if k == 100 {
      assert p == 100 * (p / 100) + p % 100;
    } else {
      assert p == 400 * (p / 400) + p % 400;
    }
  }

  /** Multiples of 400 are multiples of 100, which are multiples of 4. */
  lemma DivisorsNest(n: int)
    ensures n % 100 == 0 ==> n % 4 == 0
    ensures n % 400 == 0 ==> n % 100 == 0
  {
    if n % 100 == 0 {
      assert n == 4 * (25 * (n / 100));
    }
    if n % 400 == 0 {
      assert n == 100 * (4 * (n / 400));
    }
  }

  /** A year adds exactly its own length to the day count. */
  lemma YearStep(y: int)
    requires y >= 1
    ensures DaysBeforeYear(y + 1) == DaysBeforeYear(y) + DaysInYear(y)
  {
    var p := y - 1;
    FloorStep(p, 4);
    FloorStep(p, 100);
    FloorStep(p, 400);
    DivisorsNest(y);
    var a, b, c := (p + 1) / 4 - p / 4, (p + 1) / 100 - p / 100, (p + 1) / 400 - p / 400;
    assert DaysBeforeYear(y + 1) == DaysBeforeYear(y) + 365 + a - b + c;
    assert IsLeap(y) <==> a - b + c == 1;
  }

  lemma {:induction false} DaysBeforeYearGrows(y: int, z: int)
    requires 1 <= y < z
    ensures DaysBeforeYear(y) + DaysInYear(y) <= DaysBeforeYear(z)
    decreases z - y
  {
    YearStep(y);
    if y + 1 < z {
      DaysBeforeYearGrows(y + 1, z);
    }
  }

  lemma MonthsFitInYear(y: int, m: int)
    requires 1 <= m <= 12
    ensures DaysBeforeMonth(y, m) + DaysInMonth(y, m) <= DaysInYear(y)
    ensures m < 12 ==> DaysBeforeMonth(y, m) + DaysInMonth(y, m) == DaysBeforeMonth(y, m + 1)
  {
  }

  lemma {:induction false} MonthsGrow(y: int, m: int, n: int)
    requires 1 <= m < n <= 12
    ensures DaysBeforeMonth(y, m) + DaysInMonth(y, m) <= DaysBeforeMonth(y, n)
    decreases n - m
  {
    MonthsFitInYear(y, m);
    if m + 1 < n {
      MonthsGrow(y, m + 1, n);
    }
  }

  /** The second count is strictly monotone in the field-by-field order. */
  lemma BeforeMeansFewerSeconds(a: DateTime, b: DateTime)
    requires Valid(a) && Valid(b) && Before(a, b)
    ensures ToSeconds(a) < ToSeconds(b)
  {
    if a.year < b.year {
      MonthsFitInYear(a.year, a.month);
      DaysBeforeYearGrows(a.year, b.year);
      assert DayNumber(a) + 1 <= DayNumber(b);
    } else if a.month < b.month {
      MonthsGrow(a.year, a.month, b.month);
      assert DayNumber(a) + 1 <= DayNumber(b);
    } else if a.day < b.day {
      assert DayNumber(a) + 1 <= DayNumber(b);
    }
  }

  /** Comparing second counts is comparing datetimes: the model may judge
      ages on integers without changing any verdict of the source. */
  lemma SecondsOrderIsDateOrder(a: DateTime, b: DateTime)
    requires Valid(a) && Valid(b)
    ensures Before(a, b) <==> ToSeconds(a) < ToSeconds(b)
    ensures a == b <==> ToSeconds(a) == ToSeconds(b)
  {
    if Before(a, b) {
      BeforeMeansFewerSeconds(a, b);
    } else if a != b {
      assert Before(b, a);
      BeforeMeansFewerSeconds(b, a);
    }
  }

  // ---- the fixed `%Y-%m-%dT%H:%M:%S` text form ----

  predicate IsDigit(c: char) {
    '0' <= c <= '9'
  }

  function DigitValue(c: char): int
    requires IsDigit(c)
  {
    c as int - '0' as int
  }

  function DigitChar(v: int): (c: char)
    requires 0 <= v < 10
    ensures IsDigit(c) && DigitValue(c) == v
  {
    (v + '0' as int) as char
  }

  /** Value of the two decimal digits of `s` at `at` and `at + 1`. */
  function Two(s: string, at: nat): (v: int)
    requires at + 2 <= |s| && IsDigit(s[at]) && IsDigit(s[at + 1])
    ensures 0 <= v < 100
  {
    10 * DigitValue(s[at]) + DigitValue(s[at + 1])
  }

  /** The layout of a well-formed stamp: 19 characters, separators in place. */
  predicate Shaped(s: string) {
    && |s| == 19
    && s[4] == '-' && s[7] == '-' && s[10] == 'T' && s[13] == ':' && s[16] == ':'
    && forall k :: 0 <= k < 19 && k != 4 && k != 7 && k != 10 && k != 13 && k != 16
         ==> IsDigit(s[k])
  }

  function Fields(s: string): DateTime
    requires Shaped(s)
  {
    DateTime(100 * Two(s, 0) + Two(s, 2), Two(s, 5), Two(s, 8),
             Two(s, 11), Two(s, 14), Two(s, 17))
  }

  /** Strict `strptime(s, "%Y-%m-%dT%H:%M:%S")`: None where Python raises. */
  function Parse(s: string): (r: Option<DateTime>)
    ensures r.Some? ==> Shaped(s) && Valid(r.value)
  {
    if Shaped(s) && Valid(Fields(s)) then Some(Fields(s)) else None
  }

  /** Tens and units digit of a two-digit number. */
  function Hi(v: int): (c: char)
    requires 0 <= v < 100
    ensures IsDigit(c)
  {
    DigitChar(v / 10)
  }

  function Lo(v: int): (c: char)
    requires 0 <= v < 100
    ensures IsDigit(c)
  {
    DigitChar(v % 10)
  }

  lemma TwoOfHiLo(s: string, at: nat, v: int)
    requires 0 <= v < 100
    requires at + 2 <= |s| && s[at] == Hi(v) && s[at + 1] == Lo(v)
    ensures Two(s, at) == v
  {
  }

  lemma HiLoOfTwo(s: string, at: nat)
    requires at + 2 <= |s| && IsDigit(s[at]) && IsDigit(s[at + 1])
    ensures Hi(Two(s, at)) == s[at] && Lo(Two(s, at)) == s[at + 1]
  {
    var a, b := DigitValue(s[at]), DigitValue(s[at + 1]);
    assert (10 * a + b) / 10 == a;
    assert (10 * a + b) % 10 == b;
  }

  /** The zero-padded text form of a valid date and time. */
  function Format(dt: DateTime): (s: string)
    requires Valid(dt)
    ensures |s| == 19
  {
    var c, y := dt.year / 100, dt.year % 100;
    [Hi(c), Lo(c), Hi(y), Lo(y), '-', Hi(dt.month), Lo(dt.month), '-', Hi(dt.day), Lo(dt.day),
     'T', Hi(dt.hour), Lo(dt.hour), ':', Hi(dt.minute), Lo(dt.minute),
     ':', Hi(dt.second), Lo(dt.second)]
  }

  /** Reading back a formatted stamp yields the same date and time. */
  lemma ParseFormat(dt: DateTime)
    requires Valid(dt)
    ensures Parse(Format(dt)) == Some(dt)
  {
    var s := Format(dt);
    assert Shaped(s);
    TwoOfHiLo(s, 0, dt.year / 100);
    TwoOfHiLo(s, 2, dt.year % 100);
    TwoOfHiLo(s, 5, dt.month);
    TwoOfHiLo(s, 8, dt.day);
    TwoOfHiLo(s, 11, dt.hour);
    TwoOfHiLo(s, 14, dt.minute);
    TwoOfHiLo(s, 17, dt.second);
    assert Fields(s) == dt;
  }

  /** A stamp that parses is exactly the text its value formats to: the
      accepted language has one spelling per instant. */
  lemma FormatParse(s: string)
    requires Parse(s).Some?
    ensures Format(Parse(s).value) == s
  {
    var dt := Parse(s).value;
    assert dt.year / 100 == Two(s, 0) && dt.year % 100 == Two(s, 2);
    HiLoOfTwo(s, 0);
    HiLoOfTwo(s, 2);
    HiLoOfTwo(s, 5);
    HiLoOfTwo(s, 8);
    HiLoOfTwo(s, 11);
    HiLoOfTwo(s, 14);
    HiLoOfTwo(s, 17);
    var f := Format(dt);
    assert f == s;
  }
}

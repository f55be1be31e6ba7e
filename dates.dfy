/** The proleptic Gregorian calendar of Python's `datetime`: dates and times of day, the
    constructor `date(y, m, d)` that rejects impossible dates, day numbers (`toordinal`),
    and the `'%Y-%m-%d'` / `'%H:%M'` formats of `strptime` and `strftime`. */
module Dates {
  import opened Wrappers
  import opened Text

  datatype Date = Date(year: int, month: int, day: int)
  datatype Time = Time(hour: int, minute: int)

  /** `datetime.MINYEAR` and `datetime.MAXYEAR`. */
  const MinYear: int := 1
  const MaxYear: int := 9999

  predicate IsLeap(y: int) {
    y % 4 == 0 && (y % 100 != 0 || y % 400 == 0)
  }

  function DaysInMonth(y: int, m: int): (n: int)
    requires 1 <= m <= 12
    ensures 28 <= n <= 31
    ensures n == 29 <==> m == 2 && IsLeap(y)
  {
    if m == 2 then (if IsLeap(y) then 29 else 28)
    else if m == 4 || m == 6 || m == 9 || m == 11 then 30
    else 31
  }

  /** The triples `date(y, m, d)` accepts. */
  predicate ValidYmd(y: int, m: int, d: int) {
    MinYear <= y <= MaxYear && 1 <= m <= 12 && 1 <= d <= DaysInMonth(y, m)
  }

  predicate IsValid(dt: Date) {
    ValidYmd(dt.year, dt.month, dt.day)
  }

  predicate ValidTime(t: Time) {
    0 <= t.hour <= 23 && 0 <= t.minute <= 59
  }

  /** `date(y, m, d)`; None where the constructor raises ValueError. */
  function MakeDate(y: int, m: int, d: int): (r: Option<Date>)
    ensures r.Some? ==> IsValid(r.value)
  {
    if ValidYmd(y, m, d) then Some(Date(y, m, d)) else None
  }

  /** `dt.replace(year=y)`; None where it raises ValueError (Feb 29 into a
      non-leap year, or a year outside MinYear..MaxYear). */
  function ReplaceYear(dt: Date, y: int): (r: Option<Date>)
    requires IsValid(dt)
    ensures r.Some? ==> IsValid(r.value) && r.value.year == y
    ensures r.None? <==> y < MinYear || y > MaxYear || (dt.month == 2 && dt.day == 29 && !IsLeap(y))
  {
    MakeDate(y, dt.month, dt.day)
  }

  // Order and day numbers

  /** `a < b` on dates. */
  predicate Before(a: Date, b: Date) {
    a.year < b.year
    || (a.year == b.year && (a.month < b.month || (a.month == b.month && a.day < b.day)))
  }

  function YearLength(y: int): int {
    if IsLeap(y) then 366 else 365
  }

  function DaysBeforeYear(y: int): int
    requires y >= 1
    decreases y
  {
    if y == 1 then 0 else DaysBeforeYear(y - 1) + YearLength(y - 1)
  }

  function DaysBeforeMonth(y: int, m: int): (n: int)
    requires 1 <= m <= 13
    ensures n >= 0
    decreases m
  {
    if m == 1 then 0 else DaysBeforeMonth(y, m - 1) + DaysInMonth(y, m - 1)
  }

  /** `dt.toordinal()`: 1 for January 1 of year 1, counting up one per day. */
  function DayNumber(dt: Date): int
    requires IsValid(dt)
  {
    DaysBeforeYear(dt.year) + DaysBeforeMonth(dt.year, dt.month) + dt.day
  }

  /** `(b - a).days`. */
  function DaysBetween(a: Date, b: Date): int
    requires IsValid(a) && IsValid(b)
  {
    DayNumber(b) - DayNumber(a)
  }

  lemma {:induction false} MonthsFitInYear(y: int, m: int)
    requires 1 <= m <= 12
    ensures DaysBeforeMonth(y, m) + DaysInMonth(y, m) <= YearLength(y)
  {
    assert DaysBeforeMonth(y, 13) == YearLength(y);
    var k := m + 1;
    while k < 13
      invariant m + 1 <= k <= 13
      invariant DaysBeforeMonth(y, m) + DaysInMonth(y, m) <= DaysBeforeMonth(y, k)
    {
      k := k + 1;
    }
  }

  lemma {:induction false} MonthsIncrease(y: int, m1: int, m2: int)
    requires 1 <= m1 < m2 <= 12
    ensures DaysBeforeMonth(y, m1) + DaysInMonth(y, m1) <= DaysBeforeMonth(y, m2)
  {
    if m2 > m1 + 1 {
      MonthsIncrease(y, m1, m2 - 1);
    }
  }

  lemma {:induction false} YearsIncrease(y1: int, y2: int)
    requires 1 <= y1 < y2
    ensures DaysBeforeYear(y1) + YearLength(y1) <= DaysBeforeYear(y2)
    decreases y2
  {
    if y2 > y1 + 1 {
      YearsIncrease(y1, y2 - 1);
    }
  }

  /** December begins 31 days before the end of the year. */
  lemma DecemberStart(y: int)
    ensures DaysBeforeMonth(y, 12) + 31 == YearLength(y)
  {
    if IsLeap(y) {
      assert DaysBeforeMonth(y, 12) == 335;
    } else {
      assert DaysBeforeMonth(y, 12) == 334;
    }
  }

  /** A date in a year two years or more ahead is over a year away. */
  lemma YearsApart(a: Date, b: Date)
    requires IsValid(a) && IsValid(b) && a.year + 2 <= b.year
    ensures DaysBetween(a, b) > 365
  {
    MonthsFitInYear(a.year, a.month);
    YearsIncrease(a.year + 1, b.year);
    assert DaysBeforeYear(a.year + 1) == DaysBeforeYear(a.year) + YearLength(a.year);
  }

  /** Day numbers follow the order of dates: earlier dates get smaller numbers. */
  lemma DayNumberIncreases(a: Date, b: Date)
    requires IsValid(a) && IsValid(b) && Before(a, b)
    ensures DayNumber(a) < DayNumber(b)
  {
    if a.year < b.year {
      MonthsFitInYear(a.year, a.month);
      YearsIncrease(a.year, b.year);
    } else if a.month < b.month {
      MonthsIncrease(a.year, a.month, b.month);
    }
  }

  /** Two valid dates are equal exactly when they have the same day number, and one
      comes before the other exactly when its day number is smaller. */
  lemma DayNumberOrder(a: Date, b: Date)
    requires IsValid(a) && IsValid(b)
    ensures DayNumber(a) == DayNumber(b) <==> a == b
    ensures DayNumber(a) < DayNumber(b) <==> Before(a, b)
  {
    if Before(a, b) {
      DayNumberIncreases(a, b);
    } else if Before(b, a) {
      DayNumberIncreases(b, a);
    }
  }

  // strptime and strftime

  /** `%Y` of `strptime`: exactly four decimal digits. */
  function YearField(t: string): (r: Option<int>)
    ensures r.Some? ==> 0 <= r.value <= 9999
  {
    if |t| == 4 && AllDigits(t) then
      DigitsBound(t);
      Some(DigitsValue(t))
    else None
  }

  lemma DigitsBound(t: string)
    requires |t| == 4 && AllDigits(t)
    ensures DigitsValue(t) <= 9999
  {
    DigitsBelowPower(t);
    assert Pow10(4) == 10000;
  }

  /** `%m` of `strptime`: `1[0-2] | 0[1-9] | [1-9]`. */
  function MonthField(t: string): (r: Option<int>)
    ensures r.Some? ==> 1 <= r.value <= 12
  {
    if |t| == 1 && '1' <= t[0] <= '9' then Some(DigitValue(t[0]))
    else if |t| == 2 && ((t[0] == '1' && '0' <= t[1] <= '2') || (t[0] == '0' && '1' <= t[1] <= '9')) then
      Some(10 * DigitValue(t[0]) + DigitValue(t[1]))
    else None
  }

  /** `%d` of `strptime`: `3[01] | [12][0-9] | 0[1-9] | [1-9] | ' '[1-9]`. */
  function DayField(t: string): (r: Option<int>)
    ensures r.Some? ==> 1 <= r.value <= 31
  {
    if |t| == 1 && '1' <= t[0] <= '9' then Some(DigitValue(t[0]))
    else if |t| == 2 && t[0] == ' ' && '1' <= t[1] <= '9' then Some(DigitValue(t[1]))
    else if |t| == 2 && IsDigit(t[1])
            && ((t[0] == '3' && t[1] <= '1') || t[0] == '1' || t[0] == '2' || (t[0] == '0' && t[1] != '0')) then
      Some(10 * DigitValue(t[0]) + DigitValue(t[1]))
    else None
  }

  /** `%H` of `strptime`: `2[0-3] | [01][0-9] | [0-9]`. */
  function HourField(t: string): (r: Option<int>)
    ensures r.Some? ==> 0 <= r.value <= 23
  {
    if |t| == 1 && IsDigit(t[0]) then Some(DigitValue(t[0]))
    else if |t| == 2 && IsDigit(t[1]) && ((t[0] == '2' && t[1] <= '3') || t[0] == '0' || t[0] == '1') then
      Some(10 * DigitValue(t[0]) + DigitValue(t[1]))
    else None
  }

  /** `%M` of `strptime`: `[0-5][0-9] | [0-9]`. */
  function MinuteField(t: string): (r: Option<int>)
    ensures r.Some? ==> 0 <= r.value <= 59
  {
    if |t| == 1 && IsDigit(t[0]) then Some(DigitValue(t[0]))
    else if |t| == 2 && '0' <= t[0] <= '5' && IsDigit(t[1]) then
      Some(10 * DigitValue(t[0]) + DigitValue(t[1]))
    else None
  }

  /** Where the field that starts at `from` ends: the position of the next `sep` when it is at
      most two characters on, else -1. The one- and two-character fields of these formats never
      contain their separator, so this is the only split the pattern can match. */
  function FieldEnd(s: string, from: nat, sep: char): (k: int)
    ensures k == -1 || (from < k < |s| && k <= from + 2 && s[k] == sep)
  {
    if from + 1 < |s| && s[from + 1] == sep then from + 1
    else if from + 2 < |s| && s[from + 2] == sep then from + 2
    else -1
  }

  /** `datetime.strptime(s, '%Y-%m-%d').date()`; None where it raises ValueError (no match,
      text left over, or an impossible date). */
  function StrptimeDate(s: string): (r: Option<Date>)
    ensures r.Some? ==> IsValid(r.value)
  {
    if |s| < 5 || s[4] != '-' then None
    else
      var k := FieldEnd(s, 5, '-');
      if k == -1 then None
      else
        match (YearField(s[..4]), MonthField(s[5..k]), DayField(s[k + 1..]))
        case (Some(y), Some(m), Some(d)) => MakeDate(y, m, d)
        case _ => None
  }

  /** `datetime.strptime(s, '%H:%M').time()`; None where it raises ValueError. */
  function StrptimeTime(s: string): (r: Option<Time>)
    ensures r.Some? ==> ValidTime(r.value)
  {
    var k := FieldEnd(s, 0, ':');
    if k == -1 then None
    else
      match (HourField(s[..k]), MinuteField(s[k + 1..]))
      case (Some(h), Some(m)) => Some(Time(h, m))
      case _ => None
  }

  /** `dt.strftime('%Y-%m-%d')`, which for every valid date is also `str(dt)`. */
  function FormatDate(dt: Date): (s: string)
    requires IsValid(dt)
    ensures |s| == 10
  {
    Padded(dt.year, 4) + "-" + Padded(dt.month, 2) + "-" + Padded(dt.day, 2)
  }

  /** `t.strftime('%H:%M')`. */
  function FormatTime(t: Time): (s: string)
    requires ValidTime(t)
    ensures |s| == 5
  {
    Padded(t.hour, 2) + ":" + Padded(t.minute, 2)
  }

  /** The two digits `Padded` prints for a number below 100. */
  lemma TwoDigits(n: nat)
    requires n < 100
    ensures Padded(n, 2) == [DigitChar(n / 10), DigitChar(n % 10)]
  {
    if n < 10 {
      assert NatToString(n) == [DigitChar(n)];
      assert Zeros(1) == "0";
    } else {
      assert NatToString(n / 10) == [DigitChar(n / 10)];
    }
  }

  /** Reading back a printed date gives the date: `strptime(strftime(dt))` is `dt`. */
  lemma DateRoundTrip(dt: Date)
    requires IsValid(dt)
    ensures StrptimeDate(FormatDate(dt)) == Some(dt)
  {
    var y, m, d := Padded(dt.year, 4), Padded(dt.month, 2), Padded(dt.day, 2);
    var s := FormatDate(dt);
    assert |m| == 2 && |d| == 2 by {
      TwoDigits(dt.month);
      TwoDigits(dt.day);
    }
    assert s[..4] == y;
    assert s[4] == '-' && s[7] == '-';
    assert FieldEnd(s, 5, '-') == 7;
    assert s[5..7] == m;
    assert s[8..] == d;
    MonthDigits(dt.month);
    DayDigits(dt.day);
  }

  /** `%m` reads back the two digits printed for a month. */
  lemma MonthDigits(n: int)
    requires 1 <= n <= 12
    ensures MonthField(Padded(n, 2)) == Some(n)
  {
    var a, b := n / 10, n % 10;
    assert n == 10 * a + b && 0 <= a <= 1 && 0 <= b < 10;
    TwoDigits(n);
    if a == 0 { assert b != 0; } else { assert b <= 2; }
  }

  /** `%d` reads back the two digits printed for a day. */
  lemma DayDigits(n: int)
    requires 1 <= n <= 31
    ensures DayField(Padded(n, 2)) == Some(n)
  {
    var a, b := n / 10, n % 10;
    assert n == 10 * a + b && 0 <= a <= 3 && 0 <= b < 10;
    TwoDigits(n);
    if a == 0 { assert b != 0; } else if a == 3 { assert b <= 1; }
  }

  /** `strptime(strftime(t))` is `t`. */
  lemma TimeRoundTrip(t: Time)
    requires ValidTime(t)
    ensures StrptimeTime(FormatTime(t)) == Some(t)
  {
    var h, m := Padded(t.hour, 2), Padded(t.minute, 2);
    var s := FormatTime(t);
    TwoDigits(t.hour);
    TwoDigits(t.minute);
    assert FieldEnd(s, 0, ':') == 2;
    assert s[..2] == h;
    assert s[3..] == m;
  }
}

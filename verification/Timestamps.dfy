/**
 UTC timestamps as internal/gateway/logs.go formats them (section 5.1 of RFC 3339):
 for years of four digits, the order of the texts is the order of the times.
 */
module Timestamps {
  import opened Numbers
  import opened Sorting

  // A time of day on a calendar date, in UTC.
  datatype Civil = Civil(year: int, month: int, day: int, hour: int, minute: int, second: int)

  predicate Leap(year: int) {
    year % 4 == 0 && (year % 100 != 0 || year % 400 == 0)
  }

  function DaysInMonth(year: int, month: int): nat {
    if month == 2 then (if Leap(year) then 29 else 28)
    else if month == 4 || month == 6 || month == 9 || month == 11 then 30
    else 31
  }

  predicate Valid(t: Civil) {
    && 0 <= t.year <= 9999 && 1 <= t.month <= 12 && 1 <= t.day <= DaysInMonth(t.year, t.month)
    && 0 <= t.hour < 24 && 0 <= t.minute < 60 && 0 <= t.second < 60
  }

  // A time in a year that RFC 3339 can write.
  type Moment = t: Civil | Valid(t) witness Civil(0, 1, 1, 0, 0, 0)

  function DaysBeforeMonth(year: int, month: int): nat {
    if month <= 1 then 0 else DaysBeforeMonth(year, month - 1) + DaysInMonth(year, month - 1)
  }

  function DaysBeforeYear(year: int): nat {
    if year <= 0 then 0 else DaysBeforeYear(year - 1) + DaysBeforeMonth(year - 1, 13)
  }

  function Days(t: Civil): int {
    DaysBeforeYear(t.year) + DaysBeforeMonth(t.year, t.month) + t.day
  }

  // Seconds since the start of year 0.
  function Seconds(t: Civil): int {
    ((24 * Days(t) + t.hour) * 60 + t.minute) * 60 + t.second
  }

  function TwoDigits(n: int): string
    requires 0 <= n < 100
  {
    [DigitChar(n / 10), DigitChar(n % 10)]
  }

  // time.RFC3339 in UTC
  function Format(t: Moment): (s: string)
    ensures s != ""
  {
    TwoDigits(t.year / 100) + (TwoDigits(t.year % 100) + ("-" + (TwoDigits(t.month) + ("-" + (TwoDigits(t.day)
    + ("T" + (TwoDigits(t.hour) + (":" + (TwoDigits(t.minute) + (":" + (TwoDigits(t.second) + "Z")))))))))))
  }

  /******* The order of the texts *******/

  lemma AfterTwoDigits(a: int, b: int, x: string, y: string)
    requires 0 <= a < 100 && 0 <= b < 100
    ensures Below(TwoDigits(a) + x, TwoDigits(b) + y) <==> a < b || (a == b && Below(x, y))
  {
    var s, t := TwoDigits(a) + x, TwoDigits(b) + y;
    assert s[1..][1..] == x && t[1..][1..] == y;
    assert s[1..][0] == DigitChar(a % 10) && t[1..][0] == DigitChar(b % 10);
  }

  lemma AfterMark(mark: char, x: string, y: string)
    ensures Below([mark] + x, [mark] + y) <==> Below(x, y)
  {
    assert ([mark] + x)[1..] == x && ([mark] + y)[1..] == y;
  }

  // The first field that differs decides.
  predicate Earlier(a: Civil, b: Civil) {
    || a.year < b.year
    || (a.year == b.year && (
      || a.month < b.month
      || (a.month == b.month && (
        || a.day < b.day
        || (a.day == b.day && (
          || a.hour < b.hour
          || (a.hour == b.hour && (
            || a.minute < b.minute
            || (a.minute == b.minute && a.second < b.second)))))))))
  }

  lemma TextOrder(a: Moment, b: Moment)
    ensures Below(Format(a), Format(b)) <==> Earlier(a, b)
  {
    var s6, t6 := TwoDigits(a.second) + "Z", TwoDigits(b.second) + "Z";
    var s5, t5 := TwoDigits(a.minute) + (":" + s6), TwoDigits(b.minute) + (":" + t6);
    var s4, t4 := TwoDigits(a.hour) + (":" + s5), TwoDigits(b.hour) + (":" + t5);
    var s3, t3 := TwoDigits(a.day) + ("T" + s4), TwoDigits(b.day) + ("T" + t4);
    var s2, t2 := TwoDigits(a.month) + ("-" + s3), TwoDigits(b.month) + ("-" + t3);
    var s1, t1 := TwoDigits(a.year % 100) + ("-" + s2), TwoDigits(b.year % 100) + ("-" + t2);
    BelowIsTotal("Z", "Z");
    AfterTwoDigits(a.second, b.second, "Z", "Z");
    AfterMark(':', s6, t6);
    AfterTwoDigits(a.minute, b.minute, ":" + s6, ":" + t6);
    AfterMark(':', s5, t5);
    AfterTwoDigits(a.hour, b.hour, ":" + s5, ":" + t5);
    AfterMark('T', s4, t4);
    AfterTwoDigits(a.day, b.day, "T" + s4, "T" + t4);
    AfterMark('-', s3, t3);
    AfterTwoDigits(a.month, b.month, "-" + s3, "-" + t3);
    AfterMark('-', s2, t2);
    AfterTwoDigits(a.year % 100, b.year % 100, "-" + s2, "-" + t2);
    AfterTwoDigits(a.year / 100, b.year / 100, s1, t1);
  }

  /******* The order of the times *******/

  lemma {:induction false} LaterMonthStartsLater(year: int, m: int, n: int)
    requires 1 <= m < n
    ensures DaysBeforeMonth(year, m) + DaysInMonth(year, m) <= DaysBeforeMonth(year, n)
  {
    if m < n - 1 {
      LaterMonthStartsLater(year, m, n - 1);
    }
  }

  lemma {:induction false} LaterYearStartsLater(y: int, z: int)
    requires 0 <= y < z
    ensures DaysBeforeYear(y) + DaysBeforeMonth(y, 13) <= DaysBeforeYear(z)
  {
    if y < z - 1 {
      LaterYearStartsLater(y, z - 1);
    }
  }

  lemma EarlierDate(a: Moment, b: Moment)
    requires a.year < b.year || (a.year == b.year && (a.month < b.month || (a.month == b.month && a.day < b.day)))
    ensures Days(a) < Days(b)
  {
    if a.year < b.year {
      LaterMonthStartsLater(a.year, a.month, 13);
      LaterYearStartsLater(a.year, b.year);
    } else if a.month < b.month {
      LaterMonthStartsLater(a.year, a.month, b.month);
    }
  }

  lemma EarlierIsBefore(a: Moment, b: Moment)
    requires Earlier(a, b)
    ensures Seconds(a) < Seconds(b)
  {
    if (a.year, a.month, a.day) != (b.year, b.month, b.day) {
      EarlierDate(a, b);
    }
  }

  lemma OneIsEarlier(a: Civil, b: Civil)
    ensures a == b || Earlier(a, b) || Earlier(b, a)
  {
  }

  /** Of two formatted times, the lower text is the earlier time. */
  lemma TextOrderIsTimeOrder(a: Moment, b: Moment)
    ensures Below(Format(a), Format(b)) <==> Seconds(a) < Seconds(b)
    ensures Format(a) == Format(b) <==> Seconds(a) == Seconds(b)
  {
    TextOrder(a, b);
    TextOrder(b, a);
    OneIsEarlier(a, b);
    BelowIsTotal(Format(a), Format(b));
    if Earlier(a, b) {
      EarlierIsBefore(a, b);
    } else if Earlier(b, a) {
      EarlierIsBefore(b, a);
    }
  }
}

/** The timestamp formula against a calendar counted day by day. */
module Timestamp {
  import opened Words

  datatype Calendar = EveryFourth | Gregorian

  datatype Date = Date(year: nat, month: nat, day: nat)

  predicate IsLeap(c: Calendar, year: nat) {
    year % 4 == 0 && (c == EveryFourth || year % 100 != 0 || year % 400 == 0)
  }

  function MonthLength(c: Calendar, year: nat, month: nat): nat {
    if month == 2 then (if IsLeap(c, year) then 29 else 28)
    else if month == 4 || month == 6 || month == 9 || month == 11 then 30
    else 31
  }

  predicate ValidDate(c: Calendar, d: Date) {
    1970 <= d.year && 1 <= d.month <= 12 && 1 <= d.day <= MonthLength(c, d.year, d.month)
  }

  const EPOCH := Date(1970, 1, 1)

  function NextDay(c: Calendar, d: Date): Date {
    if d.day < MonthLength(c, d.year, d.month) then Date(d.year, d.month, d.day + 1)
    else if d.month < 12 then Date(d.year, d.month + 1, 1)
    else Date(d.year + 1, 1, 1)
  }

  /** The date n days after 1970-01-01, counted one day at a time. */
  function DayByDay(c: Calendar, n: nat): (d: Date)
    ensures ValidDate(c, d)
  {
    if n == 0 then EPOCH else NextDay(c, DayByDay(c, n - 1))
  }

  const DAYS_TILL: seq<nat> := [0, 31, 59, 90, 120, 151, 181, 212, 243, 273, 304, 334]

  /** The closed form for the days since the epoch. */
  function Days(d: Date): nat
    requires 1970 <= d.year && 1 <= d.month <= 12 && 1 <= d.day
  {
    (d.year - 1970) * 365 + (d.year - 1969 + if d.month > 2 then 1 else 0) / 4 + DAYS_TILL[d.month - 1] + d.day - 1
  }

  lemma DaysNext(d: Date)
    requires ValidDate(EveryFourth, d)
    ensures ValidDate(EveryFourth, NextDay(EveryFourth, d)) && Days(NextDay(EveryFourth, d)) == Days(d) + 1
  {
    MonthTable(d.month);
    if d.month < 12 { MonthTable(d.month + 1); }
    MonthTable(1);
    LeapQuarter(d.year);
  }

  lemma LeapQuarter(y: nat)
    requires 1970 <= y
    ensures (y - 1969 + 1) / 4 - (y - 1969) / 4 == if y % 4 == 0 then 1 else 0
  {
  }

  lemma MonthTable(m: nat)
    requires 1 <= m <= 12
    ensures m == 1 ==> DAYS_TILL[m - 1] == 0
    ensures m > 1 ==> DAYS_TILL[m - 1] == DAYS_TILL[m - 2] + MonthLength(EveryFourth, 1970, m - 1)
    ensures m == 12 ==> DAYS_TILL[m - 1] == 334
  {
  }

  /** The closed form is the day count of a calendar with a leap year every fourth year, for every day. */
  lemma {:induction false} DaysCountDays(n: nat)
    ensures Days(DayByDay(EveryFourth, n)) == n
  {
    if n == 0 {
      MonthTable(1);
    } else {
      DaysCountDays(n - 1);
      DaysNext(DayByDay(EveryFourth, n - 1));
    }
  }

  // ----- order

  predicate Before(d: Date, e: Date) {
    d.year < e.year || (d.year == e.year && (d.month < e.month || (d.month == e.month && d.day < e.day)))
  }

  lemma DaysInYear(d: Date)
    requires ValidDate(EveryFourth, d)
    ensures Days(Date(d.year, 1, 1)) <= Days(d) < Days(Date(d.year + 1, 1, 1))
  {
    MonthTable(1);
    MonthRange(d);
    LeapQuarter(d.year);
  }

  lemma MonthRange(d: Date)
    requires ValidDate(EveryFourth, d)
    ensures 0 <= DAYS_TILL[d.month - 1] + d.day - 1 < 365 + if d.month <= 2 && d.year % 4 == 0 then 1 else 0
    ensures d.month == 1 ==> DAYS_TILL[d.month - 1] + d.day - 1 < 31
    ensures d.month == 2 ==> DAYS_TILL[d.month - 1] + d.day - 1 < 60
  {
  }

  lemma {:induction false} YearsAscend(a: nat, b: nat)
    requires 1970 <= a <= b
    ensures Days(Date(a, 1, 1)) <= Days(Date(b, 1, 1))
    decreases b - a
  {
    if a < b { YearsAscend(a + 1, b); }
  }

  /** The closed form grows strictly with the date. */
  lemma DaysAscend(d: Date, e: Date)
    requires ValidDate(EveryFourth, d) && ValidDate(EveryFourth, e) && Before(d, e)
    ensures Days(d) < Days(e)
  {
    if d.year < e.year {
      DaysInYear(d);
      DaysInYear(e);
      YearsAscend(d.year + 1, e.year);
    } else {
      SameYearAscends(d, e);
    }
  }

  lemma SameYearAscends(d: Date, e: Date)
    requires ValidDate(EveryFourth, d) && ValidDate(EveryFourth, e) && Before(d, e) && d.year == e.year
    ensures Days(d) < Days(e)
  {
    LeapQuarter(d.year);
    if d.month < e.month { MonthsAscend(d.year, d.month, d.day, e.month); }
  }

  lemma {:induction false} MonthsAscend(year: nat, m: nat, day: nat, n: nat)
    requires 1970 <= year && 1 <= m < n <= 12 && 1 <= day <= MonthLength(EveryFourth, year, m)
    ensures DAYS_TILL[m - 1] + day <= DAYS_TILL[n - 1] + if m == 2 && year % 4 == 0 then 1 else 0
    ensures m <= 2 < n && year % 4 == 0 ==> DAYS_TILL[m - 1] + day <= DAYS_TILL[n - 1] + 1
    decreases n - m
  {
    MonthTable(m + 1);
    if m + 1 < n { MonthsAscend(year, m + 1, 1, n); }
  }

  /** Each valid date is reached by counting, at the number the closed form gives. */
  lemma DaysReached(d: Date)
    requires ValidDate(EveryFourth, d)
    ensures DayByDay(EveryFourth, Days(d)) == d
  {
    var e := DayByDay(EveryFourth, Days(d));
    DaysCountDays(Days(d));
    if Before(d, e) { DaysAscend(d, e); } else if Before(e, d) { DaysAscend(e, d); }
  }

  // ----- the Gregorian calendar

  const LAST_AGREED := Date(2100, 2, 28)

  lemma LeapAgrees(y: nat)
    requires 1970 <= y < 2100
    ensures IsLeap(Gregorian, y) == IsLeap(EveryFourth, y)
  {
    if y % 100 == 0 { assert y == 2000; }
  }

  lemma {:induction false} CalendarsAgree(n: nat)
    requires n <= Days(LAST_AGREED)
    ensures DayByDay(Gregorian, n) == DayByDay(EveryFourth, n)
  {
    if n > 0 {
      CalendarsAgree(n - 1);
      var d := DayByDay(EveryFourth, n - 1);
      DaysCountDays(n - 1);
      if !Before(d, LAST_AGREED) {
        if Before(LAST_AGREED, d) { DaysAscend(LAST_AGREED, d); }
      }
      if d.year < 2100 { LeapAgrees(d.year); }
    }
  }

  lemma GregorianStep(d: Date)
    requires ValidDate(Gregorian, d)
    ensures ValidDate(EveryFourth, d) && Days(NextDay(Gregorian, d)) >= Days(d) + 1
  {
    DaysNext(d);
    MonthTable(d.month);
    if d.month < 12 { MonthTable(d.month + 1); }
    MonthTable(1);
    LeapQuarter(d.year);
  }

  lemma {:induction false} RunsAhead(n: nat)
    requires n > Days(LAST_AGREED)
    ensures Days(DayByDay(Gregorian, n)) > n
  {
    GregorianStep(DayByDay(Gregorian, n - 1));
    if n - 1 > Days(LAST_AGREED) {
      RunsAhead(n - 1);
    } else {
      CalendarsAgree(n - 1);
      DaysReached(LAST_AGREED);
      assert DayByDay(Gregorian, n) == Date(2100, 3, 1);
    }
  }

  /** The closed form is the Gregorian day count exactly up to 2100-02-28; later it runs ahead. */
  lemma GregorianIff(n: nat)
    ensures Days(DayByDay(Gregorian, n)) == n <==> n <= Days(LAST_AGREED)
  {
    if n <= Days(LAST_AGREED) {
      CalendarsAgree(n);
      DaysCountDays(n);
    } else {
      RunsAhead(n);
    }
  }

  // ----- seconds

  datatype Moment = Moment(date: Date, hour: nat, minute: nat, second: nat)

  function Seconds(m: Moment): nat
    requires 1970 <= m.date.year && 1 <= m.date.month <= 12 && 1 <= m.date.day
  {
    ((Days(m.date) * 24 + m.hour) * 60 + m.minute) * 60 + m.second
  }

  /** One second later on a clock and a calendar. */
  function Tick(c: Calendar, m: Moment): Moment {
    if m.second < 59 then m.(second := m.second + 1)
    else if m.minute < 59 then Moment(m.date, m.hour, m.minute + 1, 0)
    else if m.hour < 23 then Moment(m.date, m.hour + 1, 0, 0)
    else Moment(NextDay(c, m.date), 0, 0, 0)
  }

  const START := Moment(EPOCH, 0, 0, 0)

  /** The moment n seconds after the start of 1970, counted one second at a time. */
  function SecondBySecond(c: Calendar, n: nat): (m: Moment)
    ensures ValidDate(c, m.date) && m.hour < 24 && m.minute < 60 && m.second < 60
  {
    if n == 0 then START else Tick(c, SecondBySecond(c, n - 1))
  }

  /** Midnight, and every other step of the clock, adds one to the closed form. */
  lemma SecondsNext(m: Moment)
    requires ValidMoment(m)
    ensures ValidMoment(Tick(EveryFourth, m)) && Seconds(Tick(EveryFourth, m)) == Seconds(m) + 1
  {
    hide Days;
    DaysNext(m.date);
  }

  /** The closed form is the second count of a clock on the calendar with a leap year every fourth year. */
  lemma {:induction false} SecondsCountSeconds(n: nat)
    ensures Seconds(SecondBySecond(EveryFourth, n)) == n
  {
    hide Days;
    if n == 0 {
      DaysCountDays(0);
      assert DayByDay(EveryFourth, 0) == EPOCH;
    } else {
      SecondsCountSeconds(n - 1);
      SecondsNext(SecondBySecond(EveryFourth, n - 1));
    }
  }

  /** The last second of 2100-02-28. */
  const LAST_SECOND: nat := 47541 * 86400 - 1

  /** Until then the clock on the Gregorian calendar shows the same. */
  lemma {:induction false} ClocksAgree(n: nat)
    requires n <= LAST_SECOND
    ensures SecondBySecond(Gregorian, n) == SecondBySecond(EveryFourth, n)
  {
    hide Days;
    if n > 0 {
      ClocksAgree(n - 1);
      var m := SecondBySecond(EveryFourth, n - 1);
      SecondsCountSeconds(n - 1);
      if m.hour == 23 && m.minute == 59 && m.second == 59 {
        assert Days(m.date) < 47540;
        NextDaysAgree(m.date);
      }
    }
  }

  lemma NextDaysAgree(d: Date)
    requires ValidDate(EveryFourth, d) && Days(d) < 47540
    ensures NextDay(Gregorian, d) == NextDay(EveryFourth, d)
  {
    LastDay();
    if !Before(d, LAST_AGREED) {
      if Before(LAST_AGREED, d) { DaysAscend(LAST_AGREED, d); }
    }
    if d.year < 2100 { LeapAgrees(d.year); }
  }

  lemma LastDay()
    ensures Days(LAST_AGREED) == 47540
  {
    MonthTable(2);
    MonthTable(1);
  }

  /** The main result: a Gregorian moment through 2100-02-28 has the number of seconds since 1970. */
  lemma GregorianSeconds(n: nat)
    requires n <= LAST_SECOND
    ensures Seconds(SecondBySecond(Gregorian, n)) == n < TWO_32
  {
    ClocksAgree(n);
    SecondsCountSeconds(n);
  }

  lemma TheCount(m: Moment)
    requires 1970 <= m.date.year && 1 <= m.date.month <= 12 && 1 <= m.date.day
    ensures forall n: nat {:trigger SecondBySecond(Gregorian, n)} ::
              n <= LAST_SECOND && SecondBySecond(Gregorian, n) == m ==> Seconds(m) % TWO_32 == n
  {
    hide Days, SecondBySecond;
    forall n: nat | n <= LAST_SECOND && SecondBySecond(Gregorian, n) == m
      ensures Seconds(m) % TWO_32 == n
    {
      GregorianSeconds(n);
      Small(n);
    }
  }

  predicate ValidMoment(m: Moment) {
    ValidDate(EveryFourth, m.date) && m.hour < 24 && m.minute < 60 && m.second < 60
  }

  predicate Earlier(a: Moment, b: Moment) {
    Before(a.date, b.date)
    || (a.date == b.date
        && (a.hour < b.hour
            || (a.hour == b.hour && (a.minute < b.minute || (a.minute == b.minute && a.second < b.second)))))
  }

  lemma Wraps(x: nat, k: nat)
    ensures (x % TWO_32 + k) % TWO_32 == (x + k) % TWO_32
    ensures (x % TWO_32 * 60) % TWO_32 == (x * 60) % TWO_32
  {
    var q := x / TWO_32;
    assert x == TWO_32 * q + x % TWO_32;
    SameRemainder(x % TWO_32 + k, q);
    SameRemainder(x % TWO_32 * 60, 60 * q);
  }

  lemma SameRemainder(r: nat, q: nat)
    ensures (0x1_0000_0000 * q + r) % 0x1_0000_0000 == r % 0x1_0000_0000
  {
  }

  /** The formula step by step in 32-bit arithmetic, on what the clock returned. */
  method GetTimestamp(year: u16, month: u16, day: u16, hour: u16, minute: u16, second: u16) returns (time: u32)
    requires 1970 <= year && 1 <= month <= 12 && 1 <= day
    ensures time == Seconds(Moment(Date(year, month, day), hour, minute, second)) % TWO_32
    ensures forall n: nat {:trigger SecondBySecond(Gregorian, n)} ::
              n <= LAST_SECOND && SecondBySecond(Gregorian, n) == Moment(Date(year, month, day), hour, minute, second) ==>
              time == n
  {
    hide Days, SecondBySecond;
    TheCount(Moment(Date(year, month, day), hour, minute, second));
    var days := DaysSinceEpoch(year, month, day);
    var t: nat := days * 24 % TWO_32;
    t := (t + hour) % TWO_32;
    Wraps(days * 24, hour);
    ghost var hours: nat := days * 24 + hour;
    t := SixtyTimes(hours, t, minute);
    t := SixtyTimes(hours * 60 + minute, t, second);
    return t;
  }

  /** One multiplication and one addition of the formula; x is what t stands for. */
  method SixtyTimes(ghost x: nat, t: nat, k: nat) returns (u: nat)
    requires t == x % TWO_32
    ensures u == (x * 60 + k) % TWO_32
  {
    Wraps(x, 0);
    u := t * 60 % TWO_32;
    Wraps(x * 60, k);
    u := (u + k) % TWO_32;
  }

  /** The day part; nothing wraps here. */
  method DaysSinceEpoch(year: u16, month: u16, day: u16) returns (t: nat)
    requires 1970 <= year && 1 <= month <= 12 && 1 <= day
    ensures t == Days(Date(year, month, day)) < 0x1000_0000
  {
    Small((year - 1970) * 365);
    t := (year - 1970) * 365 % TWO_32;
    var leapyears: nat := year - 1969;
    if month > 2 {
      leapyears := leapyears + 1;
    }
    leapyears := leapyears / 4;
    Small(t + leapyears);
    t := (t + leapyears) % TWO_32;
    MonthBound(month);
    var till := DAYS_TILL[month - 1];
    Small(t + till);
    t := (t + till) % TWO_32;
    Small(t + (day - 1));
    t := (t + (day - 1)) % TWO_32;
  }

  lemma Small(x: nat)
    requires x < TWO_32
    ensures x % TWO_32 == x
  {
  }

  lemma MonthBound(m: nat)
    requires 1 <= m <= 12
    ensures DAYS_TILL[m - 1] <= 334
  {
  }

  /** Up to the end of 2100-02-28 the seconds fit in 32 bits. */
  lemma NoWrap(m: Moment)
    requires ValidMoment(m) && !Before(LAST_AGREED, m.date)
    ensures Seconds(m) < TWO_32
  {
    if Before(m.date, LAST_AGREED) { DaysAscend(m.date, LAST_AGREED); }
    LastDay();
  }

  /** Until then later moments have larger timestamps. */
  lemma TimestampsAscend(a: Moment, b: Moment)
    requires ValidMoment(a) && ValidMoment(b) && Earlier(a, b) && !Before(LAST_AGREED, b.date)
    ensures Seconds(a) % TWO_32 < Seconds(b) % TWO_32
  {
    hide Days;
    if Before(a.date, b.date) { DaysAscend(a.date, b.date); }
    SecondsAscend(a, b);
    NoWrap(a);
    NoWrap(b);
  }

  lemma SecondsAscend(a: Moment, b: Moment)
    requires ValidMoment(a) && ValidMoment(b) && Earlier(a, b)
    requires Before(a.date, b.date) ==> Days(a.date) < Days(b.date)
    ensures Seconds(a) < Seconds(b)
  {
    hide Days;
  }

  lemma SecondsDiffer(a: Moment, b: Moment)
    requires ValidMoment(a) && ValidMoment(b) && Earlier(a, b)
    ensures Seconds(a) < Seconds(b)
  {
    hide Days;
    if Before(a.date, b.date) { DaysAscend(a.date, b.date); }
    SecondsAscend(a, b);
  }

  /** Each moment through 2100-02-28 is reached by counting seconds, at the number the closed form gives. */
  lemma MomentReached(m: Moment)
    requires ValidMoment(m) && !Before(LAST_AGREED, m.date)
    ensures Seconds(m) <= LAST_SECOND && SecondBySecond(Gregorian, Seconds(m)) == m
  {
    hide Days, SecondBySecond;
    LastDay();
    if Before(m.date, LAST_AGREED) { DaysAscend(m.date, LAST_AGREED); }
    var n := Seconds(m);
    var e := SecondBySecond(EveryFourth, n);
    SecondsCountSeconds(n);
    ClocksAgree(n);
    if Earlier(e, m) { SecondsDiffer(e, m); } else if Earlier(m, e) { SecondsDiffer(m, e); }
  }
}

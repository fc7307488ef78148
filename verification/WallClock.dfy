/** The wall clock at boot (kernel/timer.c:60-95 and 166-179). The seconds since the Epoch are a
    32-bit unsigned number. */
module WallClock {
  import opened Common

  const SECONDS_PER_DAY: nat := 86400

  predicate IsLeap(year: nat)
  {
    if year >= 1582 then year % 4 == 0 && (year % 100 != 0 || year % 400 == 0) else year % 4 == 0
  }

  function DaysPerYear(year: nat): nat { if IsLeap(year) then 366 else 365 }

  /** Months count from 0 here. */
  function DaysPerMonth(month: nat, year: nat): nat
    requires month < 12
  {
    if IsLeap(year) && month == 1 then 29 else [31, 28, 31, 30, 31, 30, 31, 31, 30, 31, 30, 31][month]
  }

  /** A date from 1970 on; months and days count from 1. */
  datatype Date = Date(year: nat, month: nat, day: nat, hour: nat, minute: nat, second: nat)

  predicate Valid(d: Date)
  {
    && 1970 <= d.year && 1 <= d.month <= 12 && 1 <= d.day <= DaysPerMonth(d.month - 1, d.year)
    && d.hour < 24 && d.minute < 60 && d.second < 60
  }

  // ---- The formula of section 4.16 of POSIX.1-2017, Base Definitions

  /** The day of the year, from 0, in the Gregorian calendar: months have 367/12 days on the average, but
      for February. */
  function YearDay(d: Date): nat
    requires Valid(d)
  {
    var leap := d.year % 400 == 0 || (d.year % 4 == 0 && d.year % 100 != 0);
    (367 * d.month - 362) / 12 - (if d.month <= 2 then 0 else if leap then 1 else 2) + d.day - 1
  }

  function SecondsSinceEpoch(d: Date): int
    requires Valid(d)
  {
    var year, yday := d.year - 1900, YearDay(d);
    d.second + d.minute * 60 + d.hour * 3600 + yday * 86400 + (year - 70) * 31536000
      + (year - 69) / 4 * 86400 - (year - 1) / 100 * 86400 + (year + 299) / 400 * 86400
  }

  // ---- The loops add up to the formula

  /** Days in the years from 1970 up to `year`. */
  function YearDays(year: nat): nat
  {
    if year <= 1970 then 0 else YearDays(year - 1) + DaysPerYear(year - 1)
  }

  /** Days before the month, in its year. */
  function MonthDays(month: nat, year: nat): nat
    requires month <= 12
  {
    if month == 0 then 0 else MonthDays(month - 1, year) + DaysPerMonth(month - 1, year)
  }

  /** The table of month lengths adds up to the rule for the day of the year. */
  lemma {:induction false} MonthsClosedForm(month: nat, year: nat)
    requires month < 12
    ensures MonthDays(month, year) ==
            (367 * (month + 1) - 362) / 12 - (if month < 2 then 0 else if IsLeap(year) then 1 else 2)
  {
    if month > 0 {
      MonthsClosedForm(month - 1, year);
    }
  }

  lemma YearDayIsSum(d: Date)
    requires Valid(d)
    ensures YearDay(d) == MonthDays(d.month - 1, d.year) + d.day - 1
  {
    MonthsClosedForm(d.month - 1, d.year);
    Multiples(d.year);
  }

  /** How the quotients of the formula change from a year to the next. */
  lemma FourStep(year: nat)
    requires 1970 <= year
    ensures (year - 1968) / 4 - (year - 1969) / 4 == if year % 4 == 0 then 1 else 0
  {
  }

  lemma HundredStep(year: nat)
    requires 1970 <= year
    ensures (year - 1900) / 100 - (year - 1901) / 100 == if year % 100 == 0 then 1 else 0
  {
  }

  lemma FourHundredStep(year: nat)
    requires 1970 <= year
    ensures (year - 1600) / 400 - (year - 1601) / 400 == if year % 400 == 0 then 1 else 0
  {
  }

  lemma LeapCount(year: nat)
    requires 1970 <= year
    ensures DaysPerYear(year) == 365 + ((year - 1968) / 4 - (year - 1969) / 4)
              - ((year - 1900) / 100 - (year - 1901) / 100) + ((year - 1600) / 400 - (year - 1601) / 400)
  {
    FourStep(year);
    HundredStep(year);
    FourHundredStep(year);
    Multiples(year);
  }

  lemma Multiples(year: nat)
    ensures (year % 100 == 0 ==> year % 4 == 0) && (year % 400 == 0 ==> year % 100 == 0)
  {
    if year % 100 == 0 {
      TimesFour(year, 25 * (year / 100));
    }
    if year % 400 == 0 {
      TimesHundred(year, 4 * (year / 400));
    }
  }

  lemma TimesFour(n: nat, q: nat)
    requires n == 4 * q
    ensures n % 4 == 0
  {
  }

  lemma TimesHundred(n: nat, q: nat)
    requires n == 100 * q
    ensures n % 100 == 0
  {
  }

  lemma {:induction false} LeapDays(year: nat)
    requires 1970 <= year
    ensures YearDays(year) == (year - 1970) * 365 + (year - 1969) / 4 - (year - 1901) / 100 + (year - 1601) / 400
  {
    if year > 1970 {
      LeapDays(year - 1);
      LeapCount(year - 1);
    }
  }

  lemma SumIsFormula(d: Date)
    requires Valid(d)
    ensures SecondsSinceEpoch(d) ==
            (YearDays(d.year) + YearDay(d)) * SECONDS_PER_DAY + d.hour * 3600 + d.minute * 60 + d.second
  {
    LeapDays(d.year);
  }

  /** Whole days since the Epoch. */
  function DayNumber(d: Date): int
    requires Valid(d)
  {
    YearDays(d.year) + MonthDays(d.month - 1, d.year) + d.day - 1
  }

  lemma DaysAreSum(d: Date)
    requires Valid(d)
    ensures SecondsSinceEpoch(d) == DayNumber(d) * SECONDS_PER_DAY + d.hour * 3600 + d.minute * 60 + d.second
  {
    SumIsFormula(d);
    YearDayIsSum(d);
  }

  /** Addition in 32 bits: `total` is the sum so far, without wrapping. */
  method Plus(realtime: nat, amount: nat, ghost total: nat) returns (r: nat)
    requires realtime == total % WORD
    ensures r == (total + amount) % WORD
  {
    r := (realtime + amount) % WORD;
  }

  /** The time arithmetic of init_wall_clock. */
  method UnixTime(d: Date) returns (realtime: nat)
    requires Valid(d)
    ensures realtime == SecondsSinceEpoch(d) % WORD
  {
    ghost var total := 0;
    realtime := 0;
    var y := 1970;
    while y < d.year
      invariant 1970 <= y <= d.year && total == YearDays(y) * SECONDS_PER_DAY && realtime == total % WORD
    {
      realtime := Plus(realtime, DaysPerYear(y) * SECONDS_PER_DAY, total);
      total := total + DaysPerYear(y) * SECONDS_PER_DAY;
      y := y + 1;
    }
    var m := 0;
    while m < d.month - 1
      invariant 0 <= m <= d.month - 1 && total == (YearDays(d.year) + MonthDays(m, d.year)) * SECONDS_PER_DAY
      invariant realtime == total % WORD
    {
      realtime := Plus(realtime, DaysPerMonth(m, d.year) * SECONDS_PER_DAY, total);
      total := total + DaysPerMonth(m, d.year) * SECONDS_PER_DAY;
      m := m + 1;
    }
    realtime := Plus(realtime, (d.day - 1) * SECONDS_PER_DAY, total);
    total := total + (d.day - 1) * SECONDS_PER_DAY;
    realtime := Plus(realtime, d.hour * 3600, total);
    total := total + d.hour * 3600;
    realtime := Plus(realtime, d.minute * 60, total);
    total := total + d.minute * 60;
    realtime := Plus(realtime, d.second, total);
    DaysAreSum(d);
  }

  // ---- Calendar order

  predicate Before(a: Date, b: Date)
  {
    || a.year < b.year
    || (a.year == b.year && (a.month < b.month
    || (a.month == b.month && (a.day < b.day
    || (a.day == b.day && (a.hour < b.hour
    || (a.hour == b.hour && (a.minute < b.minute
    || (a.minute == b.minute && a.second < b.second)))))))))
  }

  lemma {:induction false} YearsGrow(a: nat, b: nat)
    requires 1970 <= a < b
    ensures YearDays(a) + DaysPerYear(a) <= YearDays(b)
  {
    if a + 1 < b {
      YearsGrow(a, b - 1);
    }
  }

  lemma {:induction false} MonthsGrow(a: nat, b: nat, year: nat)
    requires a < b <= 12
    ensures MonthDays(a, year) + DaysPerMonth(a, year) <= MonthDays(b, year)
  {
    if a + 1 < b {
      MonthsGrow(a, b - 1, year);
    }
  }

  lemma WholeYear(year: nat)
    ensures MonthDays(12, year) == DaysPerYear(year)
  {
    MonthsClosedForm(11, year);
  }

  lemma YearDayBound(d: Date)
    requires Valid(d)
    ensures YearDay(d) < DaysPerYear(d.year)
  {
    WholeYear(d.year);
    MonthsGrow(d.month - 1, 12, d.year);
    YearDayIsSum(d);
  }

  /** An earlier day has a smaller number. */
  lemma DaysGrow(a: Date, b: Date)
    requires Valid(a) && Valid(b)
    requires a.year < b.year || (a.year == b.year && (a.month < b.month || (a.month == b.month && a.day < b.day)))
    ensures YearDays(a.year) + YearDay(a) < YearDays(b.year) + YearDay(b)
  {
    if a.year < b.year {
      YearDayBound(a);
      YearsGrow(a.year, b.year);
    } else {
      YearDayIsSum(a);
      YearDayIsSum(b);
      if a.month < b.month {
        MonthsGrow(a.month - 1, b.month - 1, a.year);
      }
    }
  }

  lemma StrictlyIncreasing(a: Date, b: Date)
    requires Valid(a) && Valid(b) && Before(a, b)
    ensures SecondsSinceEpoch(a) < SecondsSinceEpoch(b)
  {
    SumIsFormula(a);
    SumIsFormula(b);
    if a.year != b.year || a.month != b.month || a.day != b.day {
      DaysGrow(a, b);
    }
  }

  /** No date the real time clock can show, up to the end of 2099, wraps around. */
  lemma NoWrapThrough2099(d: Date)
    requires Valid(d) && d.year <= 2099
    ensures 0 <= SecondsSinceEpoch(d) < WORD
  {
    SumIsFormula(d);
    YearDayBound(d);
    YearsGrow(d.year, 2100);
    LeapDays(2100);
  }

  // ---- Every second has a date

  /** The date one second later. */
  function Later(d: Date): Date
    requires Valid(d)
  {
    if d.second < 59 then d.(second := d.second + 1)
    else if d.minute < 59 then d.(minute := d.minute + 1, second := 0)
    else if d.hour < 23 then d.(hour := d.hour + 1, minute := 0, second := 0)
    else if d.day < DaysPerMonth(d.month - 1, d.year) then Date(d.year, d.month, d.day + 1, 0, 0, 0)
    else if d.month < 12 then Date(d.year, d.month + 1, 1, 0, 0, 0)
    else Date(d.year + 1, 1, 1, 0, 0, 0)
  }

  lemma LaterDay(d: Date)
    requires Valid(d)
    ensures Valid(Later(d))
    ensures DayNumber(Later(d)) == DayNumber(d) + if d.hour == 23 && d.minute == 59 && d.second == 59 then 1 else 0
  {
    WholeYear(d.year);
  }

  lemma SecondsAre(d: Date, n: int)
    requires Valid(d) && n == DayNumber(d) * SECONDS_PER_DAY + d.hour * 3600 + d.minute * 60 + d.second
    ensures SecondsSinceEpoch(d) == n
  {
    DaysAreSum(d);
  }

  /** The clock of the calendar advances by one second of Unix time at a time. */
  lemma LaterIsOneMore(d: Date)
    requires Valid(d)
    ensures Valid(Later(d)) && SecondsSinceEpoch(Later(d)) == SecondsSinceEpoch(d) + 1
  {
    LaterDay(d);
    var n := DayNumber(d) * SECONDS_PER_DAY + d.hour * 3600 + d.minute * 60 + d.second;
    SecondsAre(d, n);
    SecondsAre(Later(d), n + 1);
  }

  /** Dates and numbers of seconds correspond one to one: every number is that of some date, and by
      StrictlyIncreasing of no other. */
  lemma {:induction false} EverySecondHasADate(n: nat) returns (d: Date)
    ensures Valid(d) && SecondsSinceEpoch(d) == n
  {
    if n == 0 {
      d := Date(1970, 1, 1, 0, 0, 0);
      DaysAreSum(d);
    } else {
      d := EverySecondHasADate(n - 1);
      LaterIsOneMore(d);
      d := Later(d);
    }
  }

  // ---- Binary coded decimals

  function BcdValue(n: nat): nat { if n == 0 then 0 else n % 16 + 10 * BcdValue(n / 16) }

  function ToBcd(x: nat): nat { if x == 0 then 0 else x % 10 + 16 * ToBcd(x / 10) }

  /** Decoding a binary coded decimal gives the number back. */
  lemma {:induction false} BcdRoundTrip(x: nat)
    ensures BcdValue(ToBcd(x)) == x && (x > 0 ==> ToBcd(x) > 0)
  {
    if x > 0 {
      BcdRoundTrip(x / 10);
      var n := ToBcd(x);
      assert n % 16 == x % 10 && n / 16 == ToBcd(x / 10);
    }
  }

  /** The loop of bcd_to_dec. On a byte it makes at most two rounds, so nothing wraps around. */
  method BcdToDec(n: nat) returns (res: nat)
    ensures res == BcdValue(n) && (n < 256 ==> res < 166)
  {
    res := 0;
    var rest: nat, mul: nat := n, 1;
    while rest != 0
      invariant 0 <= rest && BcdValue(n) == res + mul * BcdValue(rest)
    {
      BcdStep(mul, rest % 16, BcdValue(rest / 16));
      res := res + rest % 16 * mul;
      mul := mul * 10;
      rest := rest / 16;
    }
    if n < 256 {
      BcdByte(n);
    }
  }

  lemma BcdStep(mul: nat, a: nat, b: nat)
    ensures mul * (a + 10 * b) == a * mul + mul * 10 * b && 0 <= a * mul
  {
  }

  lemma BcdByte(n: nat)
    requires n < 256
    ensures BcdValue(n) < 166
  {
    assert BcdValue(n / 16) <= 15 by {
      assert n / 16 < 16 && BcdValue(n / 16 / 16) == 0;
    }
  }
}

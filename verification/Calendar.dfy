/** The conversion of a time in seconds to calendar fields. */
module Calendar {
  import opened Arith

  const SECSPERMIN := 60
  const SECSPERHOUR := 3600
  const SECSPERDAY := 86400
  const DAYSPERWEEK := 7
  const YEAR_BASE := 1900
  const EPOCH_YEAR := 1970
  const EPOCH_WDAY := 4

  /** Division in C, with a positive divisor, truncates. */
  function Quotient(a: int, b: int): int
    requires b > 0
  {
    if a >= 0 then a / b else -(-a / b)
  }

  function Remainder(a: int, b: int): int
    requires b > 0
  {
    a - Quotient(a, b) * b
  }

  predicate IsLeap(y: int) {
    (Remainder(y, 4) == 0 && Remainder(y, 100) != 0) || Remainder(y, 400) == 0
  }

  function YearLength(y: int): int {
    if IsLeap(y) then 366 else 365
  }

  function MonthLength(leap: bool, month: nat): nat
    requires month < 12
  {
    if month == 1 then (if leap then 29 else 28)
    else if month == 3 || month == 5 || month == 8 || month == 10 then 30
    else 31
  }

  /** The days of a year before a month. */
  function DaysBeforeMonth(leap: bool, month: nat): nat
    requires month <= 12
  {
    if month == 0 then 0 else DaysBeforeMonth(leap, month - 1) + MonthLength(leap, month - 1)
  }

  /** The lengths of the months follow a closed expression: as if February had 30
      days, and then 1 or 2 days less. */
  lemma MonthsAreSpread(leap: bool, month: nat)
    requires month <= 12
    ensures DaysBeforeMonth(leap, month) ==
            (367 * (month + 1) - 362) / 12 - (if month < 2 then 0 else if leap then 1 else 2)
  {
    if month > 0 {
      MonthsAreSpread(leap, month - 1);
    }
  }

  /** The days from the epoch to the start of a year that begins tm_year years
      after 1900, as section 4.16 of POSIX.1-2017 Base Definitions has them. */
  function DaysBeforeYear(tmYear: int): int {
    (tmYear - 70) * 365 + (tmYear - 69) / 4 - (tmYear - 1) / 100 + (tmYear + 299) / 400
  }

  datatype Fields = Fields(sec: int, min: int, hour: int, mday: int, mon: int, year: int, wday: int, yday: int,
                           isdst: int)

  /** The expression of that section. */
  function Seconds(f: Fields): int {
    f.sec + f.min * SECSPERMIN + f.hour * SECSPERHOUR + (DaysBeforeYear(f.year) + f.yday) * SECSPERDAY
  }

  predicate InRange(f: Fields) {
    0 <= f.sec < 60 && 0 <= f.min < 60 && 0 <= f.hour < 24 && 0 <= f.mon < 12 &&
    1 <= f.mday <= MonthLength(IsLeap(f.year + YEAR_BASE), f.mon) &&
    0 <= f.yday < YearLength(f.year + YEAR_BASE) && 0 <= f.wday < 7
  }

  /** The fields fit together: month and day are the day of the year, and the
      day of the week follows from the date. */
  predicate Consistent(f: Fields) {
    InRange(f) &&
    f.yday == DaysBeforeMonth(IsLeap(f.year + YEAR_BASE), f.mon) + f.mday - 1 &&
    f.wday == (DaysBeforeYear(f.year) + f.yday + EPOCH_WDAY) % DAYSPERWEEK &&
    f.isdst == -1
  }

  lemma DivisibleBelowZero(a: int, b: nat, q: int, r: nat)
    requires r < b && a == -(q * b + r)
    ensures a % b == 0 <==> r == 0
  {
    if r == 0 {
      assert -q * b == -(q * b);
      DivModUnique(a, b, -q, 0);
    } else {
      assert (-q - 1) * b == -(q * b) - b;
      DivModUnique(a, b, -q - 1, b - r);
    }
  }

  /** Whatever the sign, both kinds of division leave nothing over together. */
  lemma RemainderIsZero(a: int, b: nat)
    requires b >= 1
    ensures Remainder(a, b) == 0 <==> a % b == 0
  {
    if a >= 0 {
      DivMod(a, b);
    } else {
      DivMod(-a, b);
      var q, r := -a / b, -a % b;
      DivisibleBelowZero(a, b, q, r);
      assert Remainder(a, b) == a - -q * b;
      assert -q * b == -(q * b);
    }
  }

  lemma LeapRule(y: int)
    ensures IsLeap(y) <==> (y % 4 == 0 && y % 100 != 0) || y % 400 == 0
  {
    hide Remainder;
    RemainderIsZero(y, 4);
    RemainderIsZero(y, 100);
    RemainderIsZero(y, 400);
  }

  lemma NextQuarter(n: int)
    ensures (n - 68) / 4 - (n - 69) / 4 == if (n + YEAR_BASE) % 4 == 0 then 1 else 0
  {
  }

  lemma NextCentury(n: int)
    ensures n / 100 - (n - 1) / 100 == if (n + YEAR_BASE) % 100 == 0 then 1 else 0
  {
  }

  lemma NextCycle(n: int)
    ensures (n + 300) / 400 - (n + 299) / 400 == if (n + YEAR_BASE) % 400 == 0 then 1 else 0
    ensures (n + YEAR_BASE) % 400 == 0 ==> (n + YEAR_BASE) % 100 == 0
    ensures (n + YEAR_BASE) % 100 == 0 ==> (n + YEAR_BASE) % 4 == 0
  {
    var q, r, y := (n + 299) / 400, (n + 299) % 400, n + YEAR_BASE;
    assert n + 299 == q * 400 + r;
    if r == 399 {
      DivModUnique(n + 300, 400, q + 1, 0);
      DivModUnique(y, 400, q + 5, 0);
    } else {
      DivModUnique(n + 300, 400, q, r + 1);
      DivModUnique(y, 400, q + 4, r + 1);
    }
    if y % 400 == 0 {
      DivModUnique(y, 100, y / 400 * 4, 0);
    }
    if y % 100 == 0 {
      DivModUnique(y, 4, y / 100 * 25, 0);
    }
  }

  /** The closed formula counts the days of each year. */
  lemma NextYear(tmYear: int)
    ensures DaysBeforeYear(tmYear + 1) == DaysBeforeYear(tmYear) + YearLength(tmYear + YEAR_BASE)
  {
    hide IsLeap;
    LeapRule(tmYear + YEAR_BASE);
    NextQuarter(tmYear);
    NextCentury(tmYear);
    NextCycle(tmYear);
  }

  lemma {:induction false} YearsAreOrdered(a: int, b: int)
    requires a < b
    ensures DaysBeforeYear(a) + YearLength(a + YEAR_BASE) <= DaysBeforeYear(b)
    decreases b - a
  {
    hide DaysBeforeYear, IsLeap;
    NextYear(b - 1);
    if a < b - 1 {
      YearsAreOrdered(a, b - 1);
    } else {
      assert b - 1 == a;
    }
  }

  lemma {:induction false} MonthsAreOrdered(leap: bool, a: nat, b: nat)
    requires a < b <= 12
    ensures DaysBeforeMonth(leap, a) + MonthLength(leap, a) <= DaysBeforeMonth(leap, b)
    decreases b
  {
    if a < b - 1 {
      MonthsAreOrdered(leap, a, b - 1);
    }
  }

  lemma YearOfMonths(y: int)
    ensures DaysBeforeMonth(IsLeap(y), 12) == YearLength(y)
  {
    hide IsLeap;
    assert DaysBeforeMonth(true, 12) == 366;
    assert DaysBeforeMonth(false, 12) == 365;
  }

  /** Consistent fields are determined by the second they stand for. */
  lemma FieldsAreUnique(f: Fields, g: Fields)
    ensures Consistent(f) && Consistent(g) && Seconds(f) == Seconds(g) ==> f == g
  {
    hide DaysBeforeYear, IsLeap, MonthLength, DaysBeforeMonth;
    if !(Consistent(f) && Consistent(g) && Seconds(f) == Seconds(g)) {
      return;
    }
    DayAndSecond(f, g);
    if f.year < g.year {
      YearsAreOrdered(f.year, g.year);
      assert false;
    } else if g.year < f.year {
      YearsAreOrdered(g.year, f.year);
      assert false;
    }
    var leap := IsLeap(f.year + YEAR_BASE);
    if f.mon < g.mon {
      MonthsAreOrdered(leap, f.mon, g.mon);
      assert false;
    } else if g.mon < f.mon {
      MonthsAreOrdered(leap, g.mon, f.mon);
      assert false;
    }
  }

  lemma DayAndSecond(f: Fields, g: Fields)
    ensures InRange(f) && InRange(g) && Seconds(f) == Seconds(g) ==>
      DaysBeforeYear(f.year) + f.yday == DaysBeforeYear(g.year) + g.yday
      && f.hour == g.hour && f.min == g.min && f.sec == g.sec
  {
    hide DaysBeforeYear, IsLeap, MonthLength;
  }

  class Tm {
    var sec: int
    var min: int
    var hour: int
    var mday: int
    var mon: int
    var year: int
    var wday: int
    var yday: int
    var isdst: int

    function Value(): Fields
      reads this
    {
      Fields(sec, min, hour, mday, mon, year, wday, yday, isdst)
    }
  }

  /** The day and the second of the day; both loops make up for the truncation
      of negative times. */
  method SplitTime(t: int) returns (days: int, rem: int)
    ensures t == days * SECSPERDAY + rem && 0 <= rem < SECSPERDAY
  {
    days, rem := Quotient(t, SECSPERDAY), Remainder(t, SECSPERDAY);
    while rem < 0
      invariant t == days * SECSPERDAY + rem && -SECSPERDAY < rem
    {
      rem := rem + SECSPERDAY;
      days := days - 1;
    }
    while rem >= SECSPERDAY
      invariant t == days * SECSPERDAY + rem && 0 <= rem
    {
      rem := rem - SECSPERDAY;
      days := days + 1;
    }
  }

  method Weekday(days: int) returns (wday: int)
    ensures wday == (days + EPOCH_WDAY) % DAYSPERWEEK
  {
    wday := Remainder(EPOCH_WDAY + days, DAYSPERWEEK);
    if wday < 0 {
      wday := wday + DAYSPERWEEK;
    }
  }

  /** The year loops, forwards or backwards from the epoch. */
  method YearAndDay(total: int) returns (y: int, days: int)
    ensures total == DaysBeforeYear(y - YEAR_BASE) + days && 0 <= days < YearLength(y)
  {
    hide DaysBeforeYear, IsLeap;
    y, days := EPOCH_YEAR, total;
    EpochIsZero();
    if days >= 0 {
      while days >= YearLength(y)
        invariant total == DaysBeforeYear(y - YEAR_BASE) + days && 0 <= days
        decreases days
      {
        NextYear(y - YEAR_BASE);
        y, days := y + 1, days - YearLength(y);
      }
    } else {
      while true
        invariant total == DaysBeforeYear(y - YEAR_BASE) + days && days < 0
        decreases -days
      {
        NextYear(y - 1 - YEAR_BASE);
        y := y - 1;
        days := days + YearLength(y);
        if !(days < 0) {
          break;
        }
      }
    }
  }

  lemma EpochIsZero()
    ensures DaysBeforeYear(EPOCH_YEAR - YEAR_BASE) == 0
  {
  }

  /** The month loop. */
  method MonthAndDay(y: int, yday: int) returns (mon: int, mday: int)
    requires 0 <= yday < YearLength(y)
    ensures 0 <= mon < 12 && 1 <= mday <= MonthLength(IsLeap(y), mon)
    ensures yday == DaysBeforeMonth(IsLeap(y), mon) + mday - 1
  {
    hide IsLeap, MonthLength;
    YearOfMonths(y);
    var leap, days := IsLeap(y), yday;
    mon := 0;
    while days >= MonthLength(leap, mon)
      invariant 0 <= mon < 12 && 0 <= days && yday == DaysBeforeMonth(leap, mon) + days
      decreases 12 - mon
    {
      days := days - MonthLength(leap, mon);
      mon := mon + 1;
    }
    mday := days + 1;
  }

  /** localtime_r: for every time, also before the epoch, the fields are
      consistent, and the closed expression gives the time back. */
  method LocaltimeR(t: int, res: Tm)
    modifies res
    ensures Consistent(res.Value()) && Seconds(res.Value()) == t
  {
    hide DaysBeforeYear, IsLeap, MonthLength, DaysBeforeMonth;
    var days, rem := SplitTime(t);
    res.hour := rem / SECSPERHOUR;
    rem := rem % SECSPERHOUR;
    res.min := rem / SECSPERMIN;
    res.sec := rem % SECSPERMIN;
    var wday := Weekday(days);
    res.wday := wday;
    var y, yday := YearAndDay(days);
    res.year := y - YEAR_BASE;
    res.yday := yday;
    var mon, mday := MonthAndDay(y, yday);
    res.mon, res.mday, res.isdst := mon, mday, -1;
  }
}

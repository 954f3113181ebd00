/** The proleptic Gregorian calendar of ECMA-262 section 21.4.1, in whole seconds since the epoch. */
module Calendar {

  const DAY: int := 86400

  datatype Parts = Parts(year: int, month: int, day: int, hour: int, minute: int, second: int)

  predicate Leap(year: int) { year % 4 == 0 && (year % 100 != 0 || year % 400 == 0) }

  function DaysInMonth(year: int, month: int): int {
    if month == 2 then (if Leap(year) then 29 else 28)
    else if month == 4 || month == 6 || month == 9 || month == 11 then 30
    else 31
  }

  /** Names a real date and time of day. */
  predicate Valid(p: Parts) {
    && 1 <= p.month <= 12 && 1 <= p.day <= DaysInMonth(p.year, p.month)
    && 0 <= p.hour < 24 && 0 <= p.minute < 60 && 0 <= p.second < 60
  }

  function DayFromYear(year: int): int {
    365 * (year - 1970) + (year - 1969) / 4 - (year - 1901) / 100 + (year - 1601) / 400
  }

  /** Days of the year that precede the given month, 1 to 13. */
  function MonthStart(year: int, month: int): int
    requires 1 <= month <= 13
  {
    (if month <= 6 then
       if month <= 3 then (if month == 1 then 0 else if month == 2 then 31 else 59)
       else (if month == 4 then 90 else if month == 5 then 120 else 151)
     else
       if month <= 9 then (if month == 7 then 181 else if month == 8 then 212 else 243)
       else (if month == 10 then 273 else if month == 11 then 304 else if month == 12 then 334 else 365))
    + if month > 2 && Leap(year) then 1 else 0
  }

  /** MakeDay and MakeTime, with months, days and times of day allowed to overflow. */
  function Seconds(p: Parts): int {
    var year := p.year + (p.month - 1) / 12;
    var month := (p.month - 1) % 12 + 1;
    (DayFromYear(year) + MonthStart(year, month) + p.day - 1) * DAY + TimeOfDay(p)
  }

  function TimeOfDay(p: Parts): int { p.hour * 3600 + p.minute * 60 + p.second }

  /** Date.UTC: two-digit years stand for the twentieth century. */
  function DateUtc(p: Parts): int {
    Seconds(if 0 <= p.year <= 99 then p.(year := 1900 + p.year) else p)
  }

  /** The largest year that does not start after the given day. */
  function YearFromDay(day: int): (year: int)
    ensures DayFromYear(year) <= day < DayFromYear(year + 1)
  {
    LastYearUpTo(day, if day < 0 then 1970 + day / 365 else 1970 + day / 366)
  }

  function LastYearUpTo(day: int, year: int): (last: int)
    requires DayFromYear(year) <= day
    ensures DayFromYear(last) <= day < DayFromYear(last + 1)
    decreases day - DayFromYear(year)
  {
    YearLength(year);
    if DayFromYear(year + 1) <= day then LastYearUpTo(day, year + 1) else year
  }

  function MonthFromDay(year: int, dayInYear: int, month: int): (last: int)
    requires 1 <= month <= 12 && MonthStart(year, month) <= dayInYear < MonthStart(year, 13)
    ensures 1 <= last <= 12 && MonthStart(year, last) <= dayInYear < MonthStart(year, last + 1)
    decreases 13 - month
  {
    if dayInYear < MonthStart(year, month + 1) then month else MonthFromDay(year, dayInYear, month + 1)
  }

  /** The UTC getters of a Date. */
  function FromSeconds(t: int): Parts {
    var day, rest := t / DAY, t % DAY;
    var year := YearFromDay(day);
    YearLength(year);
    var dayInYear := day - DayFromYear(year);
    var month := MonthFromDay(year, dayInYear, 1);
    Parts(year, month, dayInYear - MonthStart(year, month) + 1, rest / 3600, rest / 60 % 60, rest % 60)
  }

  // ---------- the two directions of the calendar ----------

  lemma YearLength(year: int)
    ensures DayFromYear(year + 1) - DayFromYear(year) == MonthStart(year, 13) == if Leap(year) then 366 else 365
  {
    FourthYear(year);
    HundredthYear(year);
    FourHundredthYear(year);
  }

  /** A number is divided in one way. */
  lemma Quotient(n: int, d: int, q: int, r: int)
    requires d > 0 && n == d * q + r && 0 <= r < d
    ensures n / d == q && n % d == r
  {
    var p := n / d - q;
    assert d * p == r - n % d;
    assert p >= 1 ==> d * p >= d;
    assert p <= -1 ==> d * p <= -d;
  }

  /** The quotient of the next number. */
  lemma NextQuotient(n: int, d: int)
    requires d > 0
    ensures (n + 1) / d == n / d + if (n + 1) % d == 0 then 1 else 0
  {
    var q, r := n / d, n % d;
    assert n == d * q + r;
    if r == d - 1 {
      assert n + 1 == d * (q + 1);
      Quotient(n + 1, d, q + 1, 0);
    } else {
      Quotient(n + 1, d, q, r + 1);
    }
  }

  lemma SameRemainder(n: int, d: int, k: int)
    requires d > 0
    ensures (n + d * k) % d == n % d
  {
    var q, r := n / d, n % d;
    assert n + d * k == d * (q + k) + r;
    Quotient(n + d * k, d, q + k, r);
  }

  lemma FourthYear(year: int)
    ensures (year - 1968) / 4 == (year - 1969) / 4 + if year % 4 == 0 then 1 else 0
  {
    NextQuotient(year - 1969, 4);
    SameRemainder(year - 1968, 4, 492);
  }

  lemma HundredthYear(year: int)
    ensures (year - 1900) / 100 == (year - 1901) / 100 + if year % 100 == 0 then 1 else 0
    ensures year % 100 == 0 ==> year % 4 == 0
  {
    NextQuotient(year - 1901, 100);
    SameRemainder(year - 1900, 100, 19);
    if year % 100 == 0 { Quotient(year, 4, 25 * (year / 100), 0); }
  }

  lemma FourHundredthYear(year: int)
    ensures (year - 1600) / 400 == (year - 1601) / 400 + if year % 400 == 0 then 1 else 0
    ensures year % 400 == 0 ==> year % 100 == 0
  {
    NextQuotient(year - 1601, 400);
    SameRemainder(year - 1600, 400, 4);
    if year % 400 == 0 { Quotient(year, 100, 4 * (year / 400), 0); }
  }

  /** The month table adds up. */
  lemma MonthLength(year: int, month: int)
    requires 1 <= month <= 12
    ensures MonthStart(year, month + 1) == MonthStart(year, month) + DaysInMonth(year, month)
  {}

  lemma {:induction false} YearsAscend(a: int, b: int)
    requires a <= b
    ensures DayFromYear(a) + 365 * (b - a) <= DayFromYear(b)
    decreases b - a
  {
    if a < b {
      YearsAscend(a, b - 1);
      YearLength(b - 1);
    }
  }

  lemma MonthsAscend(year: int, a: int, b: int)
    requires 1 <= a <= b <= 13
    ensures MonthStart(year, a) <= MonthStart(year, b)
  {}

  /** Every instant has a valid reading, which names that instant again. */
  lemma ReadingIsExact(t: int)
    ensures Valid(FromSeconds(t)) && Seconds(FromSeconds(t)) == t
  {
    var p := FromSeconds(t);
    ClockIsExact(t % DAY);
    assert Valid(p) by { MonthLength(p.year, p.month); }
    assert DayNumber(p) == t / DAY && TimeOfDay(p) == t % DAY;
    SecondsOfValid(p);
  }

  lemma ClockIsExact(rest: int)
    requires 0 <= rest < DAY
    ensures rest / 3600 < 24 && rest == rest / 3600 * 3600 + rest / 60 % 60 * 60 + rest % 60
  {}

  lemma SecondsOfValid(p: Parts)
    requires Valid(p)
    ensures Seconds(p) == DayNumber(p) * DAY + TimeOfDay(p) && 0 <= TimeOfDay(p) < DAY
  {
    assert (p.month - 1) / 12 == 0;
  }

  function DayNumber(p: Parts): int
    requires Valid(p)
  {
    DayFromYear(p.year) + MonthStart(p.year, p.month) + p.day - 1
  }

  /** Different valid readings name different instants: the earlier field decides. */
  lemma SecondsInjective(p: Parts, q: Parts)
    requires Valid(p) && Valid(q) && Seconds(p) == Seconds(q)
    ensures p == q
  {
    SecondsOfValid(p);
    SecondsOfValid(q);
    DayAndTime(DayNumber(p), TimeOfDay(p), DayNumber(q), TimeOfDay(q));
    DayNumberInjective(p, q);
  }

  lemma DayOrder(d: int, r: int, start: int)
    requires 0 <= r < DAY
    ensures d >= start <==> d * DAY + r >= start * DAY
  {}

  lemma DayAndTime(d: int, r: int, e: int, s: int)
    requires d * DAY + r == e * DAY + s && 0 <= r < DAY && 0 <= s < DAY
    ensures d == e && r == s
  {}

  lemma DayNumberBounds(p: Parts)
    requires Valid(p)
    ensures DayFromYear(p.year) <= DayNumber(p) < DayFromYear(p.year + 1)
  {
    MonthsAscend(p.year, 1, p.month);
    MonthLength(p.year, p.month);
    MonthsAscend(p.year, p.month + 1, 13);
    YearLength(p.year);
  }

  lemma DayNumberInjective(p: Parts, q: Parts)
    requires Valid(p) && Valid(q) && DayNumber(p) == DayNumber(q)
    ensures p.year == q.year && p.month == q.month && p.day == q.day
  {
    hide DayNumber;
    DayNumberBounds(p);
    DayNumberBounds(q);
    YearOrder(p.year, DayNumber(p), q.year);
    YearOrder(q.year, DayNumber(q), p.year);
    SameYearInjective(p, q);
  }

  lemma SameYearInjective(p: Parts, q: Parts)
    requires Valid(p) && Valid(q) && DayNumber(p) == DayNumber(q) && p.year == q.year
    ensures p.month == q.month && p.day == q.day
  {
    if p.month < q.month { MonthSeparates(p, q); }
    if q.month < p.month { MonthSeparates(q, p); }
  }

  lemma MonthSeparates(p: Parts, q: Parts)
    requires Valid(p) && Valid(q) && p.year == q.year && p.month < q.month
    ensures DayNumber(p) < DayNumber(q)
  {
    MonthLength(p.year, p.month);
    MonthsAscend(p.year, p.month + 1, q.month);
  }

  /** A valid reading survives the trip through seconds. */
  lemma ReadBack(p: Parts)
    requires Valid(p)
    ensures FromSeconds(Seconds(p)) == p
  {
    ReadingIsExact(Seconds(p));
    SecondsInjective(FromSeconds(Seconds(p)), p);
  }

  /** An instant's year is at least y exactly when it is not before the start of y. */
  lemma YearBound(t: int, y: int)
    ensures FromSeconds(t).year >= y <==> t >= DayFromYear(y) * DAY
  {
    ReadingIsExact(t);
    var p := FromSeconds(t);
    DayNumberBounds(p);
    SecondsOfValid(p);
    YearOrder(p.year, DayNumber(p), y);
    DayOrder(DayNumber(p), TimeOfDay(p), DayFromYear(y));
  }

  lemma YearOrder(year: int, day: int, y: int)
    requires DayFromYear(year) <= day < DayFromYear(year + 1)
    ensures year >= y <==> day >= DayFromYear(y)
  {
    if year >= y { YearsAscend(y, year); } else { YearsAscend(year + 1, y); }
  }

  // ---------- boundary years as plain seconds ----------

  const YEAR_MINUS_1000: int := -93724128000
  const YEAR_1: int := -62135596800
  const YEAR_99: int := -59042995200
  const YEAR_100: int := -59011459200
  const YEAR_101: int := -58979923200
  const YEAR_900: int := -33765897600
  const YEAR_1900: int := -2208988800

  lemma YearStarts()
    ensures DayFromYear(-1000) * DAY == YEAR_MINUS_1000
    ensures DayFromYear(1) * DAY == YEAR_1
    ensures DayFromYear(99) * DAY == YEAR_99
    ensures DayFromYear(100) * DAY == YEAR_100
    ensures DayFromYear(101) * DAY == YEAR_101
    ensures DayFromYear(900) * DAY == YEAR_900
    ensures DayFromYear(1900) * DAY == YEAR_1900
  {}

  lemma AtLeastYear(t: int, year: int, start: int)
    requires start == DayFromYear(year) * DAY
    ensures FromSeconds(t).year >= year <==> t >= start
  {
    YearBound(t, year);
  }

  lemma BoundaryYears(t: int)
    ensures FromSeconds(t).year >= -1000 <==> t >= YEAR_MINUS_1000
    ensures FromSeconds(t).year >= 1 <==> t >= YEAR_1
    ensures FromSeconds(t).year >= 99 <==> t >= YEAR_99
    ensures FromSeconds(t).year >= 100 <==> t >= YEAR_100
    ensures FromSeconds(t).year >= 101 <==> t >= YEAR_101
  {
    var year := FromSeconds(t).year;
    assert year >= -1000 <==> t >= YEAR_MINUS_1000 by { YearStarts(); AtLeastYear(t, -1000, YEAR_MINUS_1000); }
    assert year >= 1 <==> t >= YEAR_1 by { YearStarts(); AtLeastYear(t, 1, YEAR_1); }
    assert year >= 99 <==> t >= YEAR_99 by { YearStarts(); AtLeastYear(t, 99, YEAR_99); }
    assert year >= 100 <==> t >= YEAR_100 by { YearStarts(); AtLeastYear(t, 100, YEAR_100); }
    assert year >= 101 <==> t >= YEAR_101 by { YearStarts(); AtLeastYear(t, 101, YEAR_101); }
  }

  /** Overflowing fields never reach back more than a year and a day. */
  lemma SecondsFloor(p: Parts, y: int)
    requires p.year >= y + 2 && p.month >= 0 && p.day >= 0 && p.hour >= 0 && p.minute >= 0 && p.second >= 0
    ensures Seconds(p) >= DayFromYear(y) * DAY
  {
    hide DayFromYear, MonthStart;
    var year := p.year + (p.month - 1) / 12;
    var month := (p.month - 1) % 12 + 1;
    assert MonthStart(year, month) >= 0 by { MonthsAscend(year, 1, month); JanuaryFirst(year); }
    YearsAscend(y, year);
    DaysFloor(DayFromYear(year) + MonthStart(year, month) + p.day - 1, TimeOfDay(p), DayFromYear(y));
  }

  lemma JanuaryFirst(year: int)
    ensures MonthStart(year, 1) == 0
  {}

  lemma DaysFloor(days: int, rest: int, start: int)
    requires days >= start && rest >= 0
    ensures days * DAY + rest >= start * DAY
  {}

  lemma KnownYears()
    ensures DayFromYear(1970) == 0 && DayFromYear(2000) == 10957 && DayFromYear(2024) == 19723
    ensures DayFromYear(1900) == -25567 && DayFromYear(2100) == 47482
  {}

  lemma InstantOf(p: Parts, day: int, time: int)
    requires Valid(p) && p.year >= 100 && DayNumber(p) == day && TimeOfDay(p) == time
    ensures DateUtc(p) == day * 86400 + time
  {
    hide DayNumber, TimeOfDay, Valid, Seconds;
    SecondsOfValid(p);
  }

  lemma DayOf(p: Parts, start: int)
    requires 1 <= p.month <= 12 && 1 <= p.day <= DaysInMonth(p.year, p.month) && start == DayFromYear(p.year)
    requires 0 <= p.hour < 24 && 0 <= p.minute < 60 && 0 <= p.second < 60
    ensures Valid(p) && DayNumber(p) == start + MonthStart(p.year, p.month) + p.day - 1
  {
    hide DayFromYear, MonthStart, DaysInMonth;
  }

  lemma KnownDays(p: Parts)
    ensures p == Parts(1970, 1, 1, 0, 0, 0) ==> Valid(p) && DayNumber(p) == 0 && TimeOfDay(p) == 0
    ensures p == Parts(2000, 2, 29, 12, 34, 56) ==> Valid(p) && DayNumber(p) == 11016 && TimeOfDay(p) == 45296
    ensures p == Parts(1900, 3, 1, 0, 0, 0) ==> Valid(p) && DayNumber(p) == -25508 && TimeOfDay(p) == 0
    ensures p == Parts(2100, 3, 1, 0, 0, 0) ==> Valid(p) && DayNumber(p) == 47541 && TimeOfDay(p) == 0
  {
    hide DayFromYear, DayNumber, Valid;
    KnownYears();
    if p == Parts(1970, 1, 1, 0, 0, 0) { DayOf(p, 0); }
    if p == Parts(2000, 2, 29, 12, 34, 56) { DayOf(p, 10957); }
    if p == Parts(1900, 3, 1, 0, 0, 0) { DayOf(p, -25567); }
    if p == Parts(2100, 3, 1, 0, 0, 0) { DayOf(p, 47482); }
  }

  lemma KnownInstant(p: Parts)
    ensures p == Parts(1970, 1, 1, 0, 0, 0) ==> DateUtc(p) == 0
    ensures p == Parts(2000, 2, 29, 12, 34, 56) ==> DateUtc(p) == 951827696
    ensures p == Parts(1900, 3, 1, 0, 0, 0) ==> DateUtc(p) == -2203891200
    ensures p == Parts(2100, 3, 1, 0, 0, 0) ==> DateUtc(p) == 4107542400
  {
    hide DayNumber, TimeOfDay, Valid, DateUtc;
    KnownDays(p);
    if p == Parts(1970, 1, 1, 0, 0, 0) { InstantOf(p, 0, 0); }
    if p == Parts(2000, 2, 29, 12, 34, 56) { InstantOf(p, 11016, 45296); }
    if p == Parts(1900, 3, 1, 0, 0, 0) { InstantOf(p, -25508, 0); }
    if p == Parts(2100, 3, 1, 0, 0, 0) { InstantOf(p, 47541, 0); }
  }

  /** A two-digit year is one of the twentieth century. */
  lemma TwoDigitYear(p: Parts)
    requires 0 <= p.year <= 99
    ensures DateUtc(p) == DateUtc(p.(year := 1900 + p.year))
  {
    hide Seconds;
  }

  /** The thirty-first of the fourteenth month of 2023 is the second of March 2024. */
  lemma KnownOverflow()
    ensures DateUtc(Parts(2023, 14, 31, 0, 0, 0)) == 1709337600
  {
    KnownYears();
    hide DayFromYear;
    Quotient(13, 12, 1, 1);
    assert MonthStart(2024, 2) == 31;
    hide MonthStart;
  }

  /** The epoch; leap days of 2000, and none in 1900 and 2100; two-digit years; and months that overflow. */
  lemma KnownInstants()
    ensures DateUtc(Parts(1970, 1, 1, 0, 0, 0)) == 0 == DateUtc(Parts(70, 1, 1, 0, 0, 0))
    ensures DateUtc(Parts(2000, 2, 29, 12, 34, 56)) == 951827696
    ensures DateUtc(Parts(1900, 3, 1, 0, 0, 0)) == -2203891200
    ensures DateUtc(Parts(2100, 3, 1, 0, 0, 0)) == 4107542400
    ensures DateUtc(Parts(2023, 14, 31, 0, 0, 0)) == 1709337600
  {
    hide DateUtc;
    KnownInstant(Parts(1970, 1, 1, 0, 0, 0));
    TwoDigitYear(Parts(70, 1, 1, 0, 0, 0));
    KnownInstant(Parts(2000, 2, 29, 12, 34, 56));
    KnownInstant(Parts(1900, 3, 1, 0, 0, 0));
    KnownInstant(Parts(2100, 3, 1, 0, 0, 0));
    KnownOverflow();
  }
}

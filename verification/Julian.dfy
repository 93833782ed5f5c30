/**
 Julian day numbers and time adjustment (common/ca.cpp): the closed formulas with C's truncating division agree
 with the Gregorian calendar, each undoes the other, and an adjusted time is moved by exactly the offset asked for.
 */
module Julian {
  import opened Numbers

  const SECS_PER_DAY := 86400

  /** C division: truncation towards zero. */
  function Quot(a: int, b: int): int
    requires b > 0
  {
    if a >= 0 then a / b else -((-a) / b)
  }

  // ---------- the calendar ----------

  datatype Date = Date(y: int, m: int, d: int)

  predicate IsLeap(y: int) {
    y % 4 == 0 && (y % 100 != 0 || y % 400 == 0)
  }

  function DaysIn(y: int, m: int): int {
    if m == 2 then (if IsLeap(y) then 29 else 28)
    else if m == 4 || m == 6 || m == 9 || m == 11 then 30
    else 31
  }

  /** A Gregorian date on or after 1 March -4800, where the formulas' divisions are all of non-negative numbers. */
  predicate Valid(t: Date) {
    && 1 <= t.m <= 12 && 1 <= t.d <= DaysIn(t.y, t.m)
    && (t.y >= -4799 || (t.y == -4800 && t.m >= 3))
  }

  function NextDate(t: Date): Date {
    if t.d < DaysIn(t.y, t.m) then Date(t.y, t.m, t.d + 1)
    else if t.m < 12 then Date(t.y, t.m + 1, 1)
    else Date(t.y + 1, 1, 1)
  }

  // ---------- the two formulas ----------

  /** date_to_julian. */
  function DateToJulian(y: int, m: int, d: int): int {
    Quot(1461 * (y + 4800 + Quot(m - 14, 12)), 4)
    + Quot(367 * (m - 2 - 12 * Quot(m - 14, 12)), 12)
    - Quot(3 * Quot(y + 4900 + Quot(m - 14, 12), 100), 4) + d - 32075
  }

  /** julian_to_date. */
  method JulianToDate(jd: int) returns (y: int, m: int, d: int)
    requires jd >= -32044
    ensures Valid(Date(y, m, d)) && DateToJulian(y, m, d) == jd
  {
    hide Valid;
    hide DateToJulian;
    hide EndsLeap;
    hide Quot;
    hide CenturyStart;
    hide YearStart;
    hide MonthStart;
    hide MonthLength;
    var l := jd + 68569;
    var n := Quot(4 * l, 146097);
    var i, j;
    CenturyPart(l);
    l := l - Quot(146097 * n + 3, 4);
    ghost var inCentury := l;
    i := Quot(4000 * (l + 1), 1461001);
    YearPart(l);
    l := l - Quot(1461 * i, 4) + 31;
    ghost var dayOfYear := l - 31;
    LastDay(n, i, inCentury, dayOfYear);
    j := Quot(80 * l, 2447);
    MonthPart(dayOfYear);
    d := l - Quot(2447 * j, 80);
    l := Quot(j, 11);
    m := j + 2 - (12 * l);
    y := 100 * (n - 49) + i + l;
    Assembled(n, i, j, d);
  }

  // ---------- years from March to February ----------

  /** Days before century n (from 1), counted in years that start in March. */
  function CenturyStart(n: int): int { (146097 * n + 3) / 4 }

  /** Days before year i of a century. */
  function YearStart(i: int): int { (1461 * i) / 4 }

  /** Days before month j of a year, from March = 1. */
  function MonthStart(j: int): int { (367 * j) / 12 - 30 }

  /** The day number of day d in month j of year i of century n. */
  function DayNumber(n: int, i: int, j: int, d: int): int {
    CenturyStart(n) + YearStart(i) + MonthStart(j) + d - 1 - 68569
  }

  /** Whether the year from March of year i in century n ends in a leap February. */
  predicate EndsLeap(n: int, i: int) {
    (i + 1) % 4 == 0 && (i == 99 ==> n % 4 == 0)
  }

  lemma CenturyPart(l: int)
    requires l >= 36525
    ensures var n := Quot(4 * l, 146097);
      && n >= 1 && Quot(146097 * n + 3, 4) == CenturyStart(n)
      && 0 <= l - CenturyStart(n) <= 36524
      && (n % 4 != 0 ==> l - CenturyStart(n) <= 36523)
  {
    var n := 4 * l / 146097;
    assert 146097 * n <= 4 * l <= 146097 * n + 146096;
    CenturyStartIs(n);
  }

  lemma CenturyStartIs(n: int)
    ensures 4 * CenturyStart(n) == 146097 * n + (if n % 4 == 0 then 0 else 4 - n % 4)
  {
    var k, r := n / 4, n % 4;
    var e := if r == 0 then 0 else 4 - r;
    DivModUnique(146097 * n + 3, 4, 146097 * k + (146097 * r + e) / 4, 3 - e);
  }

  lemma YearPart(l: int)
    requires 0 <= l <= 36524
    ensures var i := Quot(4000 * (l + 1), 1461001);
      && 0 <= i <= 99 && Quot(1461 * i, 4) == YearStart(i)
      && 0 <= l - YearStart(i) <= 365
      && (l - YearStart(i) == 365 ==> i % 4 == 3)
  {
    var i := 4000 * (l + 1) / 1461001;
    assert 1461001 * i <= 4000 * (l + 1) <= 1461001 * i + 1461000;
  }

  /** Day 365 exists only in a year that ends in a leap February. */
  lemma LastDay(n: int, i: int, l: int, t: int)
    requires n >= 1 && 0 <= i <= 99 && l == YearStart(i) + t && 0 <= t <= 365
    requires n % 4 != 0 ==> l <= 36523
    requires t == 365 ==> i % 4 == 3
    ensures t == 365 ==> EndsLeap(n, i)
  {
  }

  lemma MonthPart(t: int)
    requires 0 <= t <= 365
    ensures var j := Quot(80 * (t + 31), 2447);
      && 1 <= j <= 12 && Quot(2447 * j, 80) == 30 + MonthStart(j)
      && 1 <= t - MonthStart(j) + 1 <= MonthLength(j)
      && MonthStart(j) + MonthLength(j) <= 367
  {
    var j := 80 * (t + 31) / 2447;
    assert 2447 * j <= 80 * (t + 31) <= 2447 * j + 2446;
    MonthTable(j);
  }

  /** The longest a month can be, March = 1 to February = 12. */
  function MonthLength(j: int): int {
    if j == 2 || j == 4 || j == 7 || j == 9 then 30 else if j == 12 then 29 else 31
  }

  lemma MonthTable(j: int)
    requires 1 <= j <= 12
    ensures MonthStart(j) == [0, 31, 61, 92, 122, 153, 184, 214, 245, 275, 306, 337][j - 1]
    ensures 2447 * j / 80 == 30 + MonthStart(j)
    ensures j < 12 ==> MonthStart(j + 1) == MonthStart(j) + MonthLength(j)
  {
  }

  /** The parts of a day number make a date, and its Julian day is that number. */
  lemma Assembled(n: int, i: int, j: int, d: int)
    requires n >= 1 && 0 <= i <= 99 && 1 <= j <= 12 && 1 <= d <= MonthLength(j)
    requires MonthStart(j) + d - 1 == 365 ==> EndsLeap(n, i)
    ensures var k := Quot(j, 11);
      var t := Date(100 * (n - 49) + i + k, j + 2 - 12 * k, d);
      Valid(t) && DateToJulian(t.y, t.m, t.d) == DayNumber(n, i, j, d)
  {
    hide DateToJulian;
    hide DayNumber;
    hide IsLeap;
    MonthTable(j);
    FebruaryIs(n, i);
    FormulaParts(n, i, j, d);
    hide EndsLeap;
    hide MonthStart;
  }

  lemma FebruaryIs(n: int, i: int)
    requires 0 <= i <= 99
    ensures IsLeap(100 * (n - 49) + i + 1) <==> EndsLeap(n, i)
  {
    var y, c := 100 * (n - 49) + i + 1, n - 49;
    DivModUnique(y, 4, 25 * c + (i + 1) / 4, (i + 1) % 4);
    if i == 99 {
      DivModUnique(y, 100, c + 1, 0);
      DivModUnique(y, 400, (c + 1) / 4, 100 * ((c + 1) % 4));
      assert (c + 1) % 4 == n % 4;
    } else {
      DivModUnique(y, 100, c, i + 1);
    }
  }

  /** date_to_julian from the century, the year in it, the month from March and the day. */
  lemma FormulaParts(n: int, i: int, j: int, d: int)
    requires n >= 1 && 0 <= i <= 99 && 1 <= j <= 12
    ensures DateToJulian(100 * (n - 49) + i + j / 11, j + 2 - 12 * (j / 11), d) == DayNumber(n, i, j, d)
  {
    var k := j / 11;
    var m := j + 2 - 12 * k;
    assert Quot(m - 14, 12) == -k;
    var y := 100 * (n - 1) + i;
    assert 1461 * y == 4 * (36525 * (n - 1)) + 1461 * i;
    assert (1461 * y) / 4 == 36525 * (n - 1) + YearStart(i);
    assert (y + 100) / 100 == n;
    CenturyLeaps(n);
  }

  lemma CenturyLeaps(n: int)
    ensures CenturyStart(n) == 36525 * n - (3 * n) / 4
  {
  }

  /** Every date has its parts. */
  lemma Parts(t: Date) returns (n: int, i: int, j: int)
    requires Valid(t)
    ensures n >= 1 && 0 <= i <= 99 && 1 <= j <= 12
    ensures t.y == 100 * (n - 49) + i + j / 11 && t.m == j + 2 - 12 * (j / 11)
    ensures DateToJulian(t.y, t.m, t.d) == DayNumber(n, i, j, t.d)
    ensures t.d <= MonthLength(j) && (MonthStart(j) + t.d - 1 == 365 ==> EndsLeap(n, i))
  {
    hide DateToJulian;
    hide DayNumber;
    hide IsLeap;
    var k := if t.m <= 2 then 1 else 0;
    j := t.m - 2 + 12 * k;
    var y := t.y + 4800 - k;
    n := y / 100 + 1;
    i := y % 100;
    MonthTable(j);
    FebruaryIs(n, i);
    FormulaParts(n, i, j, t.d);
  }

  // ---------- the two are inverse ----------

  /** Days in different years, months or days of the year never share a number. */
  lemma PartsUnique(n: int, i: int, j: int, d: int, n2: int, i2: int, j2: int, d2: int)
    requires 0 <= i <= 99 && 1 <= j <= 12 && 1 <= d <= MonthLength(j)
    requires 0 <= i2 <= 99 && 1 <= j2 <= 12 && 1 <= d2 <= MonthLength(j2)
    requires MonthStart(j) + d - 1 == 365 ==> EndsLeap(n, i)
    requires MonthStart(j2) + d2 - 1 == 365 ==> EndsLeap(n2, i2)
    requires DayNumber(n, i, j, d) == DayNumber(n2, i2, j2, d2)
    ensures n == n2 && i == i2 && j == j2 && d == d2
  {
    MonthTable(j);
    MonthTable(j2);
    var t, t2 := MonthStart(j) + d - 1, MonthStart(j2) + d2 - 1;
    hide MonthStart;
    YearsApart(n, i, t, n2, i2, t2);
    YearsApart(n2, i2, t2, n, i, t);
  }

  /** A later year's days all come after an earlier one's. */
  lemma YearsApart(n: int, i: int, t: int, n2: int, i2: int, t2: int)
    requires 0 <= i <= 99 && 0 <= i2 <= 99 && 0 <= t <= 365 && 0 <= t2 <= 365
    requires t == 365 ==> EndsLeap(n, i)
    ensures n < n2 || (n == n2 && i < i2) ==>
              CenturyStart(n) + YearStart(i) + t < CenturyStart(n2) + YearStart(i2) + t2
  {
    YearFits(i, t);
    if n < n2 {
      CenturyFits(n, i, t);
      CenturyMono(n + 1, n2);
    }
  }

  lemma YearFits(i: int, t: int)
    requires 0 <= t <= 365 && (t == 365 ==> (i + 1) % 4 == 0)
    ensures YearStart(i) + t < YearStart(i + 1)
    ensures forall k :: i + 1 <= k ==> YearStart(i + 1) <= YearStart(k)
  {
  }

  lemma CenturyFits(n: int, i: int, t: int)
    requires 0 <= i <= 99 && 0 <= t <= 365 && (t == 365 ==> EndsLeap(n, i))
    ensures CenturyStart(n) + YearStart(i) + t < CenturyStart(n + 1)
  {
    YearFits(i, t);
    CenturyLeaps(n);
    CenturyLeaps(n + 1);
  }

  lemma CenturyMono(a: int, b: int)
    requires a <= b
    ensures CenturyStart(a) <= CenturyStart(b)
  {
  }

  /** Different dates have different day numbers, so julian_to_date undoes date_to_julian. */
  lemma DateToJulianInjective(s: Date, t: Date)
    requires Valid(s) && Valid(t) && DateToJulian(s.y, s.m, s.d) == DateToJulian(t.y, t.m, t.d)
    ensures s == t
  {
    var n, i, j := Parts(s);
    var n2, i2, j2 := Parts(t);
    hide DateToJulian;
    PartsUnique(n, i, j, s.d, n2, i2, j2, t.d);
  }

  /** Round trip from a date. */
  method DateRoundTrip(t: Date) returns (s: Date)
    requires Valid(t)
    ensures s == t
  {
    hide DateToJulian;
    FirstDay(t);
    var y, m, d := JulianToDate(DateToJulian(t.y, t.m, t.d));
    DateToJulianInjective(Date(y, m, d), t);
    s := Date(y, m, d);
  }

  lemma FirstDay(t: Date)
    requires Valid(t)
    ensures DateToJulian(t.y, t.m, t.d) >= -32044
  {
    var n, i, j := Parts(t);
    hide DateToJulian;
    CenturyMono(1, n);
    MonthTable(j);
  }

  /** The day after is the next number: the formula counts calendar days. */
  lemma NextDayIsNextNumber(t: Date)
    requires Valid(t)
    ensures var s := NextDate(t); Valid(s) && DateToJulian(s.y, s.m, s.d) == DateToJulian(t.y, t.m, t.d) + 1
  {
    hide DateToJulian;
    hide DayNumber;
    hide IsLeap;
    var n, i, j := Parts(t);
    MonthIs(t, n, i, j);
    MonthTable(j);
    NextParts(n, i, j, t.d, DaysIn(t.y, t.m));
    hide MonthStart;
    hide EndsLeap;
  }

  lemma MonthIs(t: Date, n: int, i: int, j: int)
    requires 0 <= i <= 99 && 1 <= j <= 12
    requires t.y == 100 * (n - 49) + i + j / 11 && t.m == j + 2 - 12 * (j / 11)
    ensures DaysIn(t.y, t.m) == if j == 12 && !EndsLeap(n, i) then 28 else MonthLength(j)
  {
    FebruaryIs(n, i);
    hide IsLeap;
    hide EndsLeap;
  }

  /** The next day in the same month, the next month, the next year or the next century. */
  lemma NextParts(n: int, i: int, j: int, d: int, length: int)
    requires n >= 1 && 0 <= i <= 99 && 1 <= j <= 12
    requires length == if j == 12 && !EndsLeap(n, i) then 28 else MonthLength(j)
    ensures var y, m := 100 * (n - 49) + i + j / 11, j + 2 - 12 * (j / 11);
      && DateToJulian(y, m, d + 1) == DayNumber(n, i, j, d) + 1
      && (if m == 12 then DateToJulian(y + 1, 1, 1) else DateToJulian(y, m + 1, 1)) == DayNumber(n, i, j, length) + 1
  {
    hide DateToJulian;
    hide EndsLeap;
    FormulaParts(n, i, j, d + 1);
    if j < 12 {
      FormulaParts(n, i, j + 1, 1);
      NextMonth(n, i, j);
      assert j == 10 ==> j / 11 == 0 && (j + 1) / 11 == 1;
    } else if i < 99 {
      FormulaParts(n, i + 1, 1, 1);
      NextYear(n, i, length);
    } else {
      FormulaParts(n + 1, 0, 1, 1);
      NextCentury(n, length);
    }
  }

  lemma NextMonth(n: int, i: int, j: int)
    requires 1 <= j < 12
    ensures DayNumber(n, i, j + 1, 1) == DayNumber(n, i, j, MonthLength(j)) + 1
  {
    MonthTable(j);
    hide CenturyStart;
    hide YearStart;
    hide MonthStart;
  }

  lemma NextYear(n: int, i: int, length: int)
    requires 0 <= i < 99 && length == if EndsLeap(n, i) then 29 else 28
    ensures DayNumber(n, i + 1, 1, 1) == DayNumber(n, i, 12, length) + 1
  {
    MonthTable(1);
    MonthTable(12);
    YearEnd(n, i);
    hide CenturyStart;
    hide YearStart;
    hide MonthStart;
    hide EndsLeap;
  }

  lemma NextCentury(n: int, length: int)
    requires length == if EndsLeap(n, 99) then 29 else 28
    ensures DayNumber(n + 1, 0, 1, 1) == DayNumber(n, 99, 12, length) + 1
  {
    MonthTable(1);
    MonthTable(12);
    CenturyEnd(n);
    assert YearStart(0) == 0;
    hide CenturyStart;
    hide YearStart;
    hide MonthStart;
    hide EndsLeap;
  }

  lemma YearEnd(n: int, i: int)
    requires 0 <= i < 99
    ensures YearStart(i + 1) == YearStart(i) + (if EndsLeap(n, i) then 366 else 365)
  {
  }

  lemma CenturyEnd(n: int)
    ensures CenturyStart(n + 1) == CenturyStart(n) + YearStart(99) + (if EndsLeap(n, 99) then 366 else 365)
  {
    CenturyLeaps(n);
    CenturyLeaps(n + 1);
  }

  // ---------- adjusting a time ----------

  type i32 = x: int | -0x8000_0000 <= x < 0x8000_0000

  /** A 32-bit int holding x: two's complement wrap. */
  function Wrap32(x: int): (r: int)
    ensures -0x8000_0000 <= r < 0x8000_0000
  {
    (x + 0x8000_0000) % 0x1_0000_0000 - 0x8000_0000
  }

  lemma Wraps(x: int, k: int)
    ensures -0x8000_0000 <= x < 0x8000_0000 ==> Wrap32(x) == x
    ensures Wrap32(x + 0x1_0000_0000 * k) == Wrap32(x)
  {
  }

  /** struct tm, as far as it is used. */
  class Tm {
    var year: int
    var mon: int
    var mday: int
    var hour: int
    var min: int
    var sec: int

    constructor (year: int, mon: int, mday: int, hour: int, min: int, sec: int)
      ensures this.year == year && this.mon == mon && this.mday == mday
      ensures this.hour == hour && this.min == min && this.sec == sec
    {
      this.year, this.mon, this.mday, this.hour, this.min, this.sec := year, mon, mday, hour, min, sec;
    }

    function DaySeconds(): int
      reads this
    {
      3600 * hour + 60 * min + sec
    }

    function DayOf(): int
      reads this
    {
      DateToJulian(year + 1900, mon + 1, mday)
    }

    /** Seconds since the start of Julian day 0. */
    function Instant(): int
      reads this
    {
      SECS_PER_DAY * DayOf() + DaySeconds()
    }

    /** Fields small enough for the int arithmetic on them to be defined. */
    predicate Small()
      reads this
    {
      && -1_400_000 <= year <= 1_400_000 && -100_000 <= mon <= 100_000 && -100_000 <= mday <= 100_000
      && -100_000 <= hour <= 100_000 && -100_000 <= min <= 100_000 && -100_000 <= sec <= 100_000
    }
  }

  /** Offsets whose day counts fit an int. */
  predicate SmallOffset(off_day: int, offset_sec: int) {
    && -0x4000_0000 <= off_day < 0x4000_0000
    && -SECS_PER_DAY * 0x3fff_0000 <= offset_sec <= SECS_PER_DAY * 0x3fff_0000
  }

  /**
   Days times seconds in a day, formed as an int by julian_adj, leaves 32 bits for offsets of 24856 days or more
   only.
   */
  lemma ProductFits(offset_sec: int)
    ensures -0x8000_0000 <= Quot(offset_sec, SECS_PER_DAY) * SECS_PER_DAY < 0x8000_0000
            <==> -SECS_PER_DAY * 24856 < offset_sec < SECS_PER_DAY * 24856
  {
    var a := if offset_sec < 0 then -offset_sec else offset_sec;
    assert SECS_PER_DAY * (a / SECS_PER_DAY) <= a < SECS_PER_DAY * (a / SECS_PER_DAY) + SECS_PER_DAY;
  }

  /** An offset of a hundred years is such an offset. */
  lemma CenturyOverflows()
    ensures SmallOffset(0, SECS_PER_DAY * 36500)
    ensures Quot(SECS_PER_DAY * 36500, SECS_PER_DAY) * SECS_PER_DAY >= 0x8000_0000
  {
  }

  /** If the product wraps in two's complement where it does not fit, the remainder is exact all the same. */
  lemma RemainderExact(offset_sec: int)
    requires -SECS_PER_DAY * 0x3fff_0000 <= offset_sec <= SECS_PER_DAY * 0x3fff_0000
    ensures var days := Wrap32(Quot(offset_sec, SECS_PER_DAY));
      var rest := Wrap32(offset_sec - Wrap32(days * SECS_PER_DAY));
      && days == Quot(offset_sec, SECS_PER_DAY) && offset_sec == SECS_PER_DAY * days + rest
      && -SECS_PER_DAY < rest < SECS_PER_DAY && (offset_sec >= 0 ==> rest >= 0) && (offset_sec <= 0 ==> rest <= 0)
  {
    var q := Quot(offset_sec, SECS_PER_DAY);
    var r := offset_sec - SECS_PER_DAY * q;
    Wraps(q, 0);
    var w := Wrap32(q * SECS_PER_DAY);
    var k := (q * SECS_PER_DAY + 0x8000_0000) / 0x1_0000_0000;
    assert w == q * SECS_PER_DAY - 0x1_0000_0000 * k;
    assert offset_sec - w == r + 0x1_0000_0000 * k;
    Wraps(r, k);
  }

  /** date_to_julian in int arithmetic: on the fields the adjustment is defined for no step leaves 32 bits. */
  method JulianNumber(y: i32, m: i32, d: i32) returns (jd: i32)
    requires -1_398_100 <= y <= 1_401_900 && -99_999 <= m <= 100_001 && -100_000 <= d <= 100_000
    ensures jd == DateToJulian(y, m, d)
  {
    var years, months, centuries := JulianTerms(y, m);
    jd := years + months;
    jd := jd - centuries;
    jd := jd + d;
    jd := jd - 32075;
  }

  /** The three quotients of the formula. */
  method JulianTerms(y: i32, m: i32) returns (years: i32, months: i32, centuries: i32)
    requires -1_398_100 <= y <= 1_401_900 && -99_999 <= m <= 100_001
    ensures years == Quot(1461 * (y + 4800 + Quot(m - 14, 12)), 4)
    ensures months == Quot(367 * (m - 2 - 12 * Quot(m - 14, 12)), 12)
    ensures centuries == Quot(3 * Quot(y + 4900 + Quot(m - 14, 12), 100), 4)
    ensures -0x2000_0000 <= years < 0x2000_0000 && -0x10_0000 <= months < 0x10_0000
    ensures -0x10_0000 <= centuries < 0x10_0000
  {
    var a: i32 := Quot(m - 14, 12);
    years := 1461 * (y + 4800 + a);
    years := Quot(years, 4);
    months := 367 * (m - 2 - 12 * a);
    months := Quot(months, 12);
    centuries := 3 * Quot(y + 4900 + a, 100);
    centuries := Quot(centuries, 4);
  }

  /** julian_adj: the day and second of the moved time, or failure when the day is negative. */
  method JulianAdj(tm: Tm, off_day: int, offset_sec: int) returns (ok: bool, day: int, sec: int)
    requires tm.Small() && SmallOffset(off_day, offset_sec)
    ensures ok ==> day >= 0 && SECS_PER_DAY * day + sec == tm.Instant() + SECS_PER_DAY * off_day + offset_sec
    ensures 0 <= tm.DaySeconds() < SECS_PER_DAY ==>
              0 <= sec < SECS_PER_DAY && (ok <==> tm.Instant() + SECS_PER_DAY * off_day + offset_sec >= 0)
  {
    hide DateToJulian;
    RemainderExact(offset_sec);
    var offset_day: i32 := Wrap32(Quot(offset_sec, SECS_PER_DAY));
    var offset_hms: i32 := Wrap32(offset_sec - Wrap32(offset_day * SECS_PER_DAY));
    hide Wrap32;
    hide Quot;
    offset_day := offset_day + off_day;
    offset_hms := offset_hms + (tm.hour * 3600 + tm.min * 60 + tm.sec);
    if offset_hms >= SECS_PER_DAY {
      offset_day := offset_day + 1;
      offset_hms := offset_hms - SECS_PER_DAY;
    } else if offset_hms < 0 {
      offset_day := offset_day - 1;
      offset_hms := offset_hms + SECS_PER_DAY;
    }
    var time_jd := JulianNumber(tm.year + 1900, tm.mon + 1, tm.mday);
    time_jd := time_jd + offset_day;
    if time_jd < 0 {
      return false, 0, offset_hms;
    }
    return true, time_jd, offset_hms;
  }

  /** hours, minutes and seconds of a second of the day. */
  lemma ClockParts(s: int)
    ensures 3600 * Quot(s, 3600) + 60 * Rem(Quot(s, 60), 60) + Rem(s, 60) == s
    ensures 0 <= s < SECS_PER_DAY ==>
              0 <= Quot(s, 3600) < 24 && 0 <= Rem(Quot(s, 60), 60) < 60 && 0 <= Rem(s, 60) < 60
  {
    var t := if s < 0 then -s else s;
    Hours(t);
    var a := t / 60;
    assert Quot(s, 60) == if s < 0 then -a else a;
    assert Quot(Quot(s, 60), 60) == Quot(s, 3600);
  }

  lemma Hours(t: nat)
    ensures t / 60 / 60 == t / 3600
  {
    var a := t / 60;
    var b := a / 60;
    assert 3600 * b <= t < 3600 * b + 3600;
  }

  /** C remainder. */
  function Rem(a: int, b: int): int
    requires b > 0
  {
    a - b * Quot(a, b)
  }

  /**
   OPENSSL_gmtime_adj: on success the instant moved by exactly the offset, on failure nothing changed. Offsets for
   which `ProductFits` says that the product of days overflows are covered as far as the product wraps.
   */
  method GmtimeAdj(tm: Tm, off_day: int, offset_sec: int) returns (ok: bool)
    requires tm.Small() && SmallOffset(off_day, offset_sec)
    modifies tm
    ensures ok ==> tm.Instant() == old(tm.Instant()) + SECS_PER_DAY * off_day + offset_sec
    ensures ok ==> Valid(Date(tm.year + 1900, tm.mon + 1, tm.mday)) && 0 <= tm.year <= 8099
    ensures !ok ==> unchanged(tm)
    ensures old(0 <= tm.DaySeconds() < SECS_PER_DAY) ==>
              (ok ==> 0 <= tm.hour < 24 && 0 <= tm.min < 60 && 0 <= tm.sec < 60)
    ensures old(0 <= tm.DaySeconds() < SECS_PER_DAY) ==>
              (ok <==> InRange(old(tm.Instant()) + SECS_PER_DAY * off_day + offset_sec))
  {
    hide DateToJulian;
    hide Quot;
    var fits, time_jd, time_sec := JulianAdj(tm, off_day, offset_sec);
    if !fits {
      return false;
    }
    var time_year, time_month, time_day := JulianToDate(time_jd);
    YearRange(Date(time_year, time_month, time_day));
    if time_year < 1900 || time_year > 9999 {
      return false;
    }
    ClockParts(time_sec);
    tm.year := time_year - 1900;
    tm.mon := time_month - 1;
    tm.mday := time_day;
    tm.hour := Quot(time_sec, 3600);
    tm.min := Rem(Quot(time_sec, 60), 60);
    tm.sec := Rem(time_sec, 60);
    ok := true;
  }

  /** From the start of 1900 to the end of 9999. */
  predicate InRange(instant: int) {
    SECS_PER_DAY * 2415021 <= instant < SECS_PER_DAY * 5373485
  }

  /** The years 1900 to 9999 are days 2415021 to 5373484. */
  lemma YearRange(t: Date)
    requires Valid(t)
    ensures 1900 <= t.y <= 9999 <==> 2415021 <= DateToJulian(t.y, t.m, t.d) <= 5373484
  {
    assert DateToJulian(1900, 1, 1) == 2415021 && DateToJulian(9999, 12, 31) == 5373484;
    hide DateToJulian;
    var first, last := Date(1900, 1, 1), Date(9999, 12, 31);
    if t.y < 1900 {
      DatesOrdered(t, first);
    } else if t != first {
      DatesOrdered(first, t);
    }
    if t.y > 9999 {
      DatesOrdered(last, t);
    } else if t != last {
      DatesOrdered(t, last);
    }
  }

  predicate Before(s: Date, t: Date) {
    s.y < t.y || (s.y == t.y && (s.m < t.m || (s.m == t.m && s.d < t.d)))
  }

  /** The numbering keeps the order of dates. */
  lemma DatesOrdered(s: Date, t: Date)
    requires Valid(s) && Valid(t) && Before(s, t)
    ensures DateToJulian(s.y, s.m, s.d) < DateToJulian(t.y, t.m, t.d)
  {
    var n, i, j := Parts(s);
    var n2, i2, j2 := Parts(t);
    hide DateToJulian;
    MonthTable(j);
    MonthTable(j2);
    YearsApart(n, i, MonthStart(j) + s.d - 1, n2, i2, MonthStart(j2) + t.d - 1);
    if n == n2 && i == i2 {
      MonthsOrdered(j, j2);
    }
  }

  lemma MonthsOrdered(j: int, k: int)
    requires 1 <= j <= 12 && 1 <= k <= 12
    ensures j < k ==> MonthStart(j) + MonthLength(j) <= MonthStart(k)
  {
    MonthTable(j);
    MonthTable(k);
    hide MonthStart;
  }
}

/** The calendar of lib/librtc.c: days since 1970 to a Gregorian date, by the multiply-and-shift method of
    Neri and Schneider, against plain day counting. */
module Rtc {

  datatype Tm = Tm(sec: nat, min: nat, hour: nat, mday: nat, mon: nat, year: int, wday: nat, yday: nat)

  const U32: nat := 0x1_0000_0000

  // ----- the calendar -----

  function LeapYear(year: nat): bool {
    (year % 4 == 0 && year % 100 != 0) || year % 400 == 0
  }

  function DaysInMonth(month: nat): nat
    requires month < 12
  {
    [31, 28, 31, 30, 31, 30, 31, 31, 30, 31, 30, 31][month]
  }

  /** Months count from 0. */
  function MonthDays(year: nat, month: nat): nat
    requires month < 12
  {
    DaysInMonth(month) + if LeapYear(year) && month == 1 then 1 else 0
  }

  /** Days since January 1; days of the month count from 1. */
  function YearDays(year: nat, month: nat, day: nat): int
    requires month <= 12
  {
    (if LeapYear(year) then [0, 31, 60, 91, 121, 152, 182, 213, 244, 274, 305, 335, 366][month]
     else [0, 31, 59, 90, 120, 151, 181, 212, 243, 273, 304, 334, 365][month]) + day - 1
  }

  // ----- plain day counting -----

  /** Days from January 1 of year 0 to January 1 of the year. */
  ghost function YearStart(year: nat): nat {
    if year == 0 then 0 else YearStart(year - 1) + if LeapYear(year - 1) then 366 else 365
  }

  /** Days from January 1 to the first of the month. */
  ghost function MonthStart(year: nat, month: nat): nat
    requires month <= 12
  {
    if month == 0 then 0 else MonthStart(year, month - 1) + MonthDays(year, month - 1)
  }

  ghost predicate ValidDate(year: nat, month: nat, day: nat) {
    month < 12 && 1 <= day <= MonthDays(year, month)
  }

  /** Days from January 1 of year 0. */
  ghost function DayNumber(year: nat, month: nat, day: nat): int
    requires month <= 12
  {
    YearStart(year) + MonthStart(year, month) + day - 1
  }

  /** The table of rtc_year_days sums up rtc_month_days. */
  lemma {:induction false} YearTable(year: nat, month: nat, day: nat)
    requires month <= 12
    ensures YearDays(year, month, day) == MonthStart(year, month) + day - 1
  {
    if month > 0 {
      YearTable(year, month - 1, day);
    }
  }

  /** Years counted from March: days from March 1 of year 0 to March 1 of the year. */
  function MarchStart(year: nat): nat {
    365 * year + year / 4 - year / 100 + year / 400
  }

  lemma {:induction false} MarchStep(year: nat)
    requires year > 0
    ensures MarchStart(year) == MarchStart(year - 1) + if LeapYear(year) then 366 else 365
  {
    Floors(year, 4);
    Floors(year, 100);
    Floors(year, 400);
    Centuries(year);
  }

  lemma {:induction false} Centuries(y: nat)
    ensures (y % 100 == 0 ==> y % 4 == 0) && (y % 400 == 0 ==> y % 100 == 0)
  {
    if y % 100 == 0 {
      assert y == 4 * (25 * (y / 100));
    }
    if y % 400 == 0 {
      assert y == 100 * (4 * (y / 400));
    }
  }

  lemma {:induction false} Floors(y: nat, k: nat)
    requires y > 0 && k > 1
    ensures y / k == (y - 1) / k + if y % k == 0 then 1 else 0
  {
    var q, r := (y - 1) / k, (y - 1) % k;
    assert y == q * k + (r + 1);
    if r + 1 == k {
      assert y == (q + 1) * k;
      DivIs(y, k, q + 1, 0);
    } else {
      DivIs(y, k, q, r + 1);
    }
  }

  lemma {:induction false} DivIs(y: nat, k: nat, q: nat, r: nat)
    requires k > 0 && y == q * k + r && r < k
    ensures y / k == q && y % k == r
  {
    var e: int := (y / k) as int - q as int;
    Multiple(e, k, r as int - (y % k) as int);
  }

  lemma {:induction false} Multiple(d: int, k: int, x: int)
    requires k > 0 && d * k == x && -k < x < k
    ensures d == 0
  {
  }

  /** January 1 and March 1 of the same year. */
  lemma {:induction false} YearFromMarch(year: nat)
    ensures YearStart(year) + 59 + (if LeapYear(year) then 1 else 0) == MarchStart(year) + 60
    ensures YearStart(year + 1) == MarchStart(year) + 366
  {
    if year > 0 {
      YearFromMarch(year - 1);
      MarchStep(year);
    }
  }

  // ----- a date has one day number, a day number one date -----

  lemma {:induction false} MonthsGrow(year: nat, m: nat, n: nat)
    requires m <= n <= 12
    ensures MonthStart(year, m) <= MonthStart(year, n)
    ensures m < n ==> MonthStart(year, m) + MonthDays(year, m) <= MonthStart(year, n)
    decreases n - m
  {
    if m < n {
      MonthsGrow(year, m, n - 1);
    }
  }

  lemma {:induction false} YearsGrow(x: nat, y: nat)
    requires x <= y
    ensures YearStart(x) <= YearStart(y)
    ensures x < y ==> YearStart(x) + MonthStart(x, 12) <= YearStart(y)
    decreases y - x
  {
    if x < y {
      YearsGrow(x, y - 1);
      YearTable(x, 12, 1);
    }
  }

  lemma {:induction false} EarlierYear(x: nat, m: nat, d: nat, y: nat, n: nat, e: nat)
    requires ValidDate(x, m, d) && ValidDate(y, n, e) && x < y
    ensures DayNumber(x, m, d) < DayNumber(y, n, e)
  {
    YearsGrow(x, y);
    MonthsGrow(x, m, 12);
  }

  lemma {:induction false} EarlierMonth(y: nat, m: nat, d: nat, n: nat, e: nat)
    requires ValidDate(y, m, d) && ValidDate(y, n, e) && m < n
    ensures DayNumber(y, m, d) < DayNumber(y, n, e)
  {
    MonthsGrow(y, m, n);
  }

  lemma {:induction false} DateUnique(x: nat, m: nat, d: nat, y: nat, n: nat, e: nat)
    requires ValidDate(x, m, d) && ValidDate(y, n, e) && DayNumber(x, m, d) == DayNumber(y, n, e)
    ensures x == y && m == n && d == e
  {
    if x < y {
      EarlierYear(x, m, d, y, n, e);
    } else if y < x {
      EarlierYear(y, n, e, x, m, d);
    } else if m < n {
      EarlierMonth(x, m, d, n, e);
    } else if n < m {
      EarlierMonth(x, n, e, m, d);
    }
  }

  // ----- the arithmetic of the algorithm -----

  /** Century and day of the century of day n, counted from March 1 of year 0. */
  lemma {:induction false} CenturySplit(n: nat)
    ensures var c, d := (4 * n + 3) / 146097, (4 * n + 3) % 146097 / 4;
      n == 36524 * c + c / 4 + d && d <= 36524 && (d == 36524 ==> c % 4 == 3)
  {
  }

  /** The multiplication by 2939745 divides by 1461: the upper half is the quotient, and the lower half still
      holds the remainder. */
  lemma {:induction false} YearSplit(u: nat)
    requires u < 146100
    ensures (2939745 * u) / U32 == u / 1461
    ensures (2939745 * u) % U32 / 2939745 == u % 1461
  {
    var q, r := u / 1461, u % 1461;
    assert 2939745 * u == q * U32 + (149 * q + 2939745 * r);
    assert q < 100;
    DivIs(2939745 * u, U32, q, 149 * q + 2939745 * r);
    DivIs(149 * q + 2939745 * r, 2939745, r, 149 * q);
  }

  lemma {:induction false} YearOfCentury(d: nat)
    requires d <= 36524
    ensures var u := 4 * d + 3;
      var z, e := u / 1461, u % 1461 / 4;
      d == 365 * z + z / 4 + e && z < 100 && e <= 365
      && (e == 365 ==> z % 4 == 3) && (z == 99 && e == 365 ==> d == 36524)
  {
  }

  /** First days of the months from March (month 2) on, January and February of the next year last. */
  function MarchMonth(month: nat): nat
    requires 2 <= month <= 14
  {
    [0, 31, 61, 92, 122, 153, 184, 214, 245, 275, 306, 337, 366][month - 2]
  }

  /** The multiplication by 2141 finds month and day in a year that starts in March. */
  lemma {:induction false} MonthSplit(e: nat)
    requires e <= 365
    ensures var x := 2141 * e + 132377;
      var m, d := x / 65536, x % 65536 / 2141;
      2 <= m <= 13 && e == MarchMonth(m) + d && e < MarchMonth(m + 1)
  {
    var m: nat :| 2 <= m <= 13 && MarchMonth(m) <= e < MarchMonth(m + 1);
    MonthRest(e, m);
  }

  lemma {:induction false} MonthRest(e: nat, m: nat)
    requires 2 <= m <= 13 && MarchMonth(m) <= e < MarchMonth(m + 1)
    ensures var x := 2141 * e + 132377; x / 65536 == m && x % 65536 / 2141 == e - MarchMonth(m)
  {
    var x := 2141 * e + 132377;
    var rest := 2141 * MarchMonth(m) + 132377 - 65536 * m;
    assert 0 <= rest < 2141 && 2141 * (MarchMonth(m + 1) - 1 - MarchMonth(m)) + rest < 65536;
    assert x == m * 65536 + (2141 * (e - MarchMonth(m)) + rest);
    DivIs(x, 65536, m, 2141 * (e - MarchMonth(m)) + rest);
    DivIs(2141 * (e - MarchMonth(m)) + rest, 2141, e - MarchMonth(m), rest);
  }

  // ----- the conversion -----

  /** The day the algorithm works on: days since March 1 of year 0.  The product 4 * udays + 3 is kept in 32 bits,
      so only the low 30 bits of udays count. */
  function MarchDay(days: nat): nat {
    (days + 719468) % 0x4000_0000
  }

  lemma {:induction false} LowBits(days: nat)
    ensures (4 * ((days + 719468) % U32) + 3) % U32 == 4 * MarchDay(days) + 3
  {
    var x, q := days + 719468, 0x4000_0000;
    var y := x % U32;
    assert x == (x / U32 * 4) * q + y;
    assert y == (y / q) * q + y % q;
    assert x == (x / U32 * 4 + y / q) * q + y % q;
    DivIs(x, q, x / U32 * 4 + y / q, y % q);
    DivIs(4 * y + 3, U32, y / q, 4 * (y % q) + 3);
  }

  /** January and February belong to the next year. */
  lemma {:induction false} ToGregorian(year: nat, e: nat, m: nat, d: nat)
    requires e <= 365 && 2 <= m <= 13 && e == MarchMonth(m) + d && e < MarchMonth(m + 1)
    requires e == 365 ==> LeapYear(year + 1)
    ensures e >= 306 <==> m >= 12
    ensures var y, n := if m >= 12 then year + 1 else year, if m >= 12 then m - 12 else m;
      && ValidDate(y, n, d + 1)
      && DayNumber(y, n, d + 1) == MarchStart(year) + e + 60
      && YearDays(y, n, d + 1) == if m >= 12 then e - 306 else e + 59 + if LeapYear(year) then 1 else 0
  {
    YearFromMarch(year);
    var y, n := if m >= 12 then year + 1 else year, if m >= 12 then m - 12 else m;
    YearTable(y, n, d + 1);
  }

  /** Century and year of century give the year. */
  lemma {:induction false} YearJoin(c: nat, z: nat)
    requires z < 100
    ensures MarchStart(100 * c + z) == 36524 * c + c / 4 + 365 * z + z / 4
    ensures LeapYear(100 * c + z) <==> if z != 0 then z % 4 == 0 else c % 4 == 0
    ensures z % 4 == 3 && (z == 99 ==> c % 4 == 3) ==> LeapYear(100 * c + z + 1)
  {
    var y := 100 * c + z;
    DivIs(y, 4, 25 * c + z / 4, z % 4);
    DivIs(y, 100, c, z);
    DivIs(y, 400, c / 4, 100 * (c % 4) + z);
    if z < 99 {
      DivIs(y + 1, 4, 25 * c + (z + 1) / 4, (z + 1) % 4);
      DivIs(y + 1, 100, c, z + 1);
    } else if c % 4 == 3 {
      DivIs(y + 1, 400, c / 4 + 1, 0);
    }
  }

  /** The exact divisions split a day into year and day of the year. */
  lemma {:induction false} SplitOK(n: nat)
    ensures var c, d := (4 * n + 3) / 146097, (4 * n + 3) % 146097 / 4;
      var z, e := (4 * d + 3) / 1461, (4 * d + 3) % 1461 / 4;
      && d <= 36524 && z < 100 && e <= 365
      && n == MarchStart(100 * c + z) + e
      && (e == 365 ==> LeapYear(100 * c + z + 1))
      && (LeapYear(100 * c + z) <==> if z != 0 then z % 4 == 0 else c % 4 == 0)
  {
    hide MarchStart; hide LeapYear;
    var c, d := (4 * n + 3) / 146097, (4 * n + 3) % 146097 / 4;
    var z, e := (4 * d + 3) / 1461, (4 * d + 3) % 1461 / 4;
    CenturySplit(n);
    YearOfCentury(d);
    YearJoin(c, z);
  }

  /** The first part of rtc_time_to_tm: from days since 1970 to the year that starts in March. */
  method SplitDays(days: nat) returns (century: nat, year_of_century: nat, day_of_year: nat)
    ensures MarchDay(days) == MarchStart(100 * century + year_of_century) + day_of_year
    ensures year_of_century < 100 && day_of_year <= 365
    ensures day_of_year == 365 ==> LeapYear(100 * century + year_of_century + 1)
    ensures LeapYear(100 * century + year_of_century)
      <==> if year_of_century != 0 then year_of_century % 4 == 0 else century % 4 == 0
  {
    hide MarchStart; hide LeapYear; hide MarchDay;
    SplitOK(MarchDay(days));
    var day_of_century;
    century, day_of_century := SplitCentury(days);
    year_of_century, day_of_year := SplitCenturyDay(day_of_century);
  }

  method SplitCentury(days: nat) returns (century: nat, day_of_century: nat)
    ensures century == (4 * MarchDay(days) + 3) / 146097 && day_of_century == (4 * MarchDay(days) + 3) % 146097 / 4
  {
    hide MarchDay;
    var udays := (days + 719468) % U32;
    LowBits(days);
    var u32tmp := (4 * udays + 3) % U32;
    century := u32tmp / 146097;
    day_of_century := u32tmp % 146097 / 4;
  }

  method SplitCenturyDay(day_of_century: nat) returns (year_of_century: nat, day_of_year: nat)
    requires day_of_century <= 36524
    ensures year_of_century == (4 * day_of_century + 3) / 1461 && day_of_year == (4 * day_of_century + 3) % 1461 / 4
  {
    var u32tmp := (4 * day_of_century + 3) % U32;
    YearSplit(u32tmp);
    var u64tmp := 2939745 * u32tmp;
    year_of_century := u64tmp / U32;
    day_of_year := u64tmp % U32 / 2939745 / 4;
  }

  /** The second part: month and day, and the switch to years that start in January. */
  method SplitYear(march_year: nat, is_leap_year: bool, e: nat) returns (year: nat, month: nat, day: nat, day_of_year: nat)
    requires e <= 365 && (e == 365 ==> LeapYear(march_year + 1)) && (is_leap_year <==> LeapYear(march_year))
    ensures ValidDate(year, month, day) && DayNumber(year, month, day) == MarchStart(march_year) + e + 60
    ensures day_of_year == YearDays(year, month, day)
  {
    hide YearDays; hide ValidDate; hide DayNumber; hide MarchMonth; hide MarchStart; hide LeapYear;
    year, day_of_year := march_year, e;
    MonthSplit(e);
    var u32tmp := 2141 * day_of_year + 132377;
    month := u32tmp / 65536;
    day := u32tmp % 65536 / 2141;
    ToGregorian(march_year, e, month, day);
    var is_jan_or_feb := day_of_year >= 306;
    year := year + if is_jan_or_feb then 1 else 0;
    month := if is_jan_or_feb then month - 12 else month;
    day := day + 1;
    day_of_year := if is_jan_or_feb then day_of_year - 306 else day_of_year + 31 + 28 + if is_leap_year then 1 else 0;
  }

  /** rtc_time_to_tm, on times whose days fit an int. */
  method TimeToTm(time: nat) returns (tm: Tm)
    requires time / 86400 + 4 < 0x8000_0000
    ensures tm.year + 1900 >= 0 && ValidDate(tm.year + 1900, tm.mon, tm.mday)
    ensures DayNumber(tm.year + 1900, tm.mon, tm.mday) == MarchDay(time / 86400) + 60
    ensures tm.yday == YearDays(tm.year + 1900, tm.mon, tm.mday) + 1
    ensures tm.hour < 24 && tm.min < 60 && tm.sec < 60 && tm.hour * 3600 + tm.min * 60 + tm.sec == time % 86400
    ensures tm.wday == (time / 86400 + 4) % 7
  {
    hide YearDays; hide DayNumber; hide MarchStart; hide LeapYear; hide MonthDays; hide MarchDay;
    var secs: nat := time % 86400;
    var days: nat := time / 86400;
    var wday := (days + 4) % 7;
    var century, year_of_century, e := SplitDays(days);
    var is_leap_year := if year_of_century != 0 then year_of_century % 4 == 0 else century % 4 == 0;
    var year, month, day, day_of_year := SplitYear(100 * century + year_of_century, is_leap_year, e);
    var hour := secs / 3600;
    secs := secs - hour * 3600;
    var min := secs / 60;
    tm := Tm(secs - min * 60, min, hour, day, month, year as int - 1900, wday, day_of_year + 1);
  }

  /** The date is the right one exactly for the days whose product with 4 fits 32 bits. */
  lemma {:induction false} ExactRange(days: nat)
    ensures MarchDay(days) + 60 == days + YearStart(1970) <==> days + 719468 < 0x4000_0000
  {
    YearFromMarch(1970);
  }

  const FIRST_WRONG: nat := 1073022356

  /** The first day behind that range comes out as March 1 of year 0. */
  lemma {:induction false} FirstWrong()
    ensures FIRST_WRONG + 719468 == 0x4000_0000
    ensures MarchDay(FIRST_WRONG) + 60 == DayNumber(0, 2, 1)
  {
    YearTable(0, 2, 1);
  }
}

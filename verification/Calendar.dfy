/** Days since 1970 to calendar dates and back, as the snapshot names and the request signature check convert them. */
module Calendar {
  datatype Date = Date(year: int, month: int, day: int)

  // ----- the calendar itself

  predicate Leap(year: int) { year % 4 == 0 && (year % 100 != 0 || year % 400 == 0) }

  function MonthLength(year: int, month: int): int {
    if month == 2 then (if Leap(year) then 29 else 28)
    else if month in {4, 6, 9, 11} then 30 else 31
  }

  function Tomorrow(d: Date): Date {
    if d.day < MonthLength(d.year, d.month) then d.(day := d.day + 1)
    else if d.month < 12 then Date(d.year, d.month + 1, 1)
    else Date(d.year + 1, 1, 1)
  }

  /** The date n days after 1970-01-01, found one day at a time. */
  function DaysLater(n: nat): Date {
    if n == 0 then Date(1970, 1, 1) else Tomorrow(DaysLater(n - 1))
  }

  // ----- the conversion from days to a date

  /** The year of the 400-year era that day doe of the era falls in, years starting in March. */
  function YearOfEra(doe: int): int { (doe - doe / 1460 + doe / 36524 - doe / 146096) / 365 }

  /** The first day of year yoe of the era. */
  function YearStart(yoe: int): int { 365 * yoe + yoe / 4 - yoe / 100 }

  function MonthOf(doy: int): int { (5 * doy + 2) / 153 }

  function Civil(days: nat): Date {
    var z := days + 719468;
    var era := z / 146097;
    var doe := z - era * 146097;
    var yoe := YearOfEra(doe);
    var y := yoe + era * 400;
    var doy := doe - YearStart(yoe);
    var mp := MonthOf(doy);
    var d := doy - (153 * mp + 2) / 5 + 1;
    var mo := if mp < 10 then mp + 3 else mp - 9;
    Date(if mo <= 2 then y + 1 else y, mo, d)
  }

  /** How many days a March-based year of the era has. */
  function YearLength(yoe: int): int { if (yoe + 1) % 4 == 0 && ((yoe + 1) % 100 != 0 || (yoe + 1) % 400 == 0) then 366 else 365 }

  function Scaled(doe: int): int { doe - doe / 1460 + doe / 36524 - doe / 146096 }

  lemma {:induction false} ScaledGrows(a: nat, b: nat)
    requires a <= b
    ensures Scaled(a) <= Scaled(b)
    decreases b - a
  {
    if a < b {
      ScaledGrows(a, b - 1);
      ScaledStep(b);
    }
  }

  lemma ScaledStep(b: nat)
    requires b > 0
    ensures Scaled(b - 1) <= Scaled(b)
  {
    StepDiv(b, 1460);
    StepDiv(b, 36524);
    StepDiv(b, 146096);
    if b % 146096 == 0 { Quotient(b, 36524, 4 * (b / 146096), 0); }
  }

  /** Stepping down by one, a quotient drops by one exactly at a multiple. */
  lemma StepDiv(b: nat, d: nat)
    requires b > 0 && d > 1
    ensures (b - 1) / d == if b % d == 0 then b / d - 1 else b / d
  {
    var q, r := b / d, b % d;
    assert b == d * q + r;
    if r == 0 {
      assert b - 1 == d * (q - 1) + (d - 1);
      Quotient(b - 1, d, q - 1, d - 1);
    } else {
      Quotient(b - 1, d, q, r - 1);
    }
  }

  lemma Quotient(a: int, b: int, q: int, r: int)
    requires b > 0 && a == b * q + r && 0 <= r < b
    ensures a / b == q && a % b == r
  {
    var x := a / b - q;
    assert x * b == r - a % b;
    Multiple(x, b);
  }

  lemma Multiple(x: int, b: int)
    requires b > 0
    ensures (x >= 1 ==> x * b >= b) && (x <= -1 ==> x * b <= -b)
  {
  }

  /** Year 100 h + 4 p + r of the era starts on day 36524 h + 1461 p + 365 r. */
  lemma YearParts(h: nat, p: nat, r: nat)
    requires h < 4 && p < 25 && r < 4
    ensures YearStart(100 * h + 4 * p + r) == 36524 * h + 1461 * p + 365 * r
    ensures YearLength(100 * h + 4 * p + r) == if r == 3 && (p != 24 || h == 3) then 366 else 365
  {
    var y := 100 * h + 4 * p + r;
    Quotient(y, 4, 25 * h + p, r);
    Quotient(y, 100, h, 4 * p + r);
    if r < 3 {
      Quotient(y + 1, 4, 25 * h + p, r + 1);
    } else {
      Quotient(y + 1, 4, 25 * h + p + 1, 0);
      if p < 24 { Quotient(y + 1, 100, h, 4 * p + 4); } else { Quotient(y + 1, 100, h + 1, 0); }
    }
  }

  lemma FirstDay(h: nat, p: nat, r: nat)
    requires h < 4 && p < 25 && r < 4
    ensures Scaled(36524 * h + 1461 * p + 365 * r) == 365 * (100 * h + 4 * p + r)
  {
    var s := 36524 * h + 1461 * p + 365 * r;
    Quotient(s, 1460, 25 * h + p, 24 * h + p + 365 * r);
    Quotient(s, 36524, h, 1461 * p + 365 * r);
    Quotient(s, 146096, 0, s);
  }

  lemma LastDay(h: nat, p: nat, r: nat)
    requires h < 4 && p < 25 && r < 4
    ensures Scaled(36524 * h + 1461 * p + 365 * r + (if r == 3 && (p != 24 || h == 3) then 365 else 364)) < 365 * (100 * h + 4 * p + r + 1)
  {
    var leap := if r == 3 && (p != 24 || h == 3) then 1 else 0;
    var e := 36524 * h + 1461 * p + 365 * r + 364 + leap;
    var low := 24 * h + p + 365 * r + 364 + leap;
    assert e == 1460 * (25 * h + p) + low;
    if low < 1460 { Quotient(e, 1460, 25 * h + p, low); } else { Quotient(e, 1460, 25 * h + p + 1, low - 1460); }
    if e == 146096 {
    } else {
      Quotient(e, 36524, h, 1461 * p + 365 * r + 364 + leap);
      Quotient(e, 146096, 0, e);
    }
  }

  lemma YearEnds(yoe: nat)
    requires yoe < 400
    ensures 365 * yoe <= Scaled(YearStart(yoe)) && Scaled(YearStart(yoe) + YearLength(yoe) - 1) < 365 * (yoe + 1)
  {
    var h, p, r := yoe / 100, yoe % 100 / 4, yoe % 4;
    assert yoe == 100 * h + 4 * p + r;
    YearParts(h, p, r);
    FirstDay(h, p, r);
    LastDay(h, p, r);
    hide Scaled;
    hide YearStart;
    hide YearLength;
  }

  /** Day doy of year yoe of the era is given that year. */
  lemma YearFound(yoe: nat, doy: nat)
    requires yoe < 400 && doy < YearLength(yoe)
    ensures YearStart(yoe) >= 0 && YearOfEra(YearStart(yoe) + doy) == yoe
  {
    var first := YearStart(yoe);
    YearEnds(yoe);
    ScaledGrows(first, first + doy);
    ScaledGrows(first + doy, first + YearLength(yoe) - 1);
    var n := Scaled(first + doy);
    assert YearOfEra(first + doy) == n / 365;
    hide *;
    Quotient(n, 365, yoe, n - 365 * yoe);
  }

  lemma YearsMeet(yoe: nat)
    requires yoe < 400
    ensures YearStart(yoe) + YearLength(yoe) == if yoe < 399 then YearStart(yoe + 1) else 146097
  {
    var h, p, r := yoe / 100, yoe % 100 / 4, yoe % 4;
    assert yoe == 100 * h + 4 * p + r;
    YearParts(h, p, r);
    if r < 3 { YearParts(h, p, r + 1); }
    else if p < 24 { YearParts(h, p + 1, 0); }
    else if h < 3 { YearParts(h + 1, 0, 0); }
  }

  /** The year of the era that a day falls in, found by search. */
  lemma {:induction false} YearSearch(doe: nat, yoe: nat) returns (found: nat)
    requires doe < 146097 && yoe < 400 && YearStart(yoe) <= doe
    ensures found < 400 && YearStart(found) <= doe < YearStart(found) + YearLength(found)
    decreases 400 - yoe
  {
    YearsMeet(yoe);
    hide YearStart;
    hide YearLength;
    if doe < YearStart(yoe) + YearLength(yoe) { found := yoe; } else { found := YearSearch(doe, yoe + 1); }
  }

  /** A March-based date: month number mp counted from March. */
  function MarchDate(y: int, doy: int): Date {
    var mp := MonthOf(doy);
    var mo := if mp < 10 then mp + 3 else mp - 9;
    Date(if mo <= 2 then y + 1 else y, mo, doy - (153 * mp + 2) / 5 + 1)
  }

  /** The era, year of the era and day of the year behind a date. */
  lemma CivilParts(days: nat) returns (era: nat, yoe: nat, doy: nat)
    ensures days + 719468 == 146097 * era + YearStart(yoe) + doy && yoe < 400 && doy < YearLength(yoe)
    ensures Civil(days) == MarchDate(yoe + 400 * era, doy)
  {
    var z := days + 719468;
    era := z / 146097;
    var doe := z - era * 146097;
    assert YearStart(0) == 0;
    yoe := YearSearch(doe, 0);
    doy := doe - YearStart(yoe);
    YearFound(yoe, doy);
    hide YearOfEra;
    hide YearStart;
    hide YearLength;
  }

  /** Conversely such parts determine the date. */
  lemma PartsCivil(days: nat, era: nat, yoe: nat, doy: nat)
    requires days + 719468 == 146097 * era + YearStart(yoe) + doy && yoe < 400 && doy < YearLength(yoe)
    ensures Civil(days) == MarchDate(yoe + 400 * era, doy)
  {
    YearFound(yoe, doy);
    YearFits(yoe, doy);
    hide YearOfEra;
    hide YearStart;
    hide YearLength;
    Quotient(days + 719468, 146097, era, YearStart(yoe) + doy);
  }

  lemma YearFits(yoe: nat, doy: nat)
    requires yoe < 400 && doy < YearLength(yoe)
    ensures 0 <= YearStart(yoe) + doy < 146097
  {
    YearsMeet(yoe);
  }

  /** The last day of a March-based year is the last of February. */
  lemma NextYearDay(era: nat, yoe: nat)
    requires yoe < 400
    ensures MarchDate(yoe + 400 * era + 1, 0) == Tomorrow(MarchDate(yoe + 400 * era, YearLength(yoe) - 1))
  {
    LeapNext(era, yoe);
  }

  lemma LeapNext(era: nat, yoe: nat)
    requires yoe < 400
    ensures YearLength(yoe) == if Leap(yoe + 400 * era + 1) then 366 else 365
  {
    var y, n := yoe + 400 * era + 1, yoe + 1;
    Quotient(y, 4, n / 4 + 100 * era, n % 4);
    Quotient(y, 100, n / 100 + 4 * era, n % 100);
    Quotient(y, 400, n / 400 + era, n % 400);
  }

  lemma NextMonthDay(era: nat, yoe: nat, doy: nat)
    requires yoe < 400 && doy + 1 < YearLength(yoe)
    ensures MarchDate(yoe + 400 * era, doy + 1) == Tomorrow(MarchDate(yoe + 400 * era, doy))
  {
    LeapNext(era, yoe);
    var leap := YearLength(yoe) == 366;
    hide YearLength;
    hide Leap;
  }

  lemma NewYear(n: nat, era: nat, yoe: nat)
    requires n + 719468 == 146097 * era + YearStart(yoe) + YearLength(yoe) - 1 && yoe < 400
    ensures Civil(n + 1) == MarchDate(yoe + 400 * era + 1, 0)
  {
    hide Civil;
    hide MarchDate;
    YearsMeet(yoe);
    FirstYear();
    LongYear(yoe + 1);
    hide YearStart;
    hide YearLength;
    if yoe < 399 {
      PartsCivil(n + 1, era, yoe + 1, 0);
      assert yoe + 1 + 400 * era == yoe + 400 * era + 1;
    } else {
      assert 146097 * era + 146097 == 146097 * (era + 1);
      PartsCivil(n + 1, era + 1, 0, 0);
      assert 0 + 400 * (era + 1) == yoe + 400 * era + 1;
    }
  }

  lemma FirstYear()
    ensures YearStart(0) == 0 && YearLength(0) == 365
  {
    YearParts(0, 0, 0);
  }

  lemma LongYear(yoe: nat)
    ensures YearLength(yoe) >= 365
  {
  }

  lemma CivilStep(n: nat)
    ensures Civil(n + 1) == Tomorrow(Civil(n))
  {
    hide Civil;
    hide MarchDate;
    hide YearStart;
    hide YearLength;
    hide Tomorrow;
    var era, yoe, doy := CivilParts(n);
    if doy + 1 < YearLength(yoe) {
      PartsCivil(n + 1, era, yoe, doy + 1);
      NextMonthDay(era, yoe, doy);
    } else {
      NewYear(n, era, yoe);
      NextYearDay(era, yoe);
    }
  }

  lemma CivilStart()
    ensures Civil(0) == Date(1970, 1, 1)
  {
    assert YearStart(369) == 134774 && YearLength(369) == 365;
    PartsCivil(0, 4, 369, 306);
    assert MarchDate(1969, 306) == Date(1970, 1, 1);
    hide Civil;
    hide MarchDate;
  }

  /** The conversion agrees with stepping the calendar day by day, for every day since 1970. */
  lemma {:induction false} CivilIsCalendar(n: nat)
    ensures Civil(n) == DaysLater(n)
  {
    hide Civil;
    hide Tomorrow;
    if n == 0 {
      CivilStart();
    } else {
      CivilIsCalendar(n - 1);
      CivilStep(n - 1);
    }
  }

  // ----- the inverse conversion

  /** The day number of a request date, as the signature check computes it. */
  function AmzDays(date: Date): int {
    var y := if date.month <= 2 then date.year - 1 else date.year;
    var era := y / 400;
    var yoe := y - era * 400;
    var mp := (date.month + 9) % 12;
    var doy := (153 * mp + 2) / 5 + date.day - 1;
    era * 146097 + (yoe * 365 + yoe / 4 - yoe / 100 + doy) - 719468
  }

  lemma MonthsBack(y: int, doy: nat)
    requires doy < 366
    ensures var d, mp := MarchDate(y, doy), MonthOf(doy);
      && 0 <= mp < 12 && (d.month + 9) % 12 == mp && (153 * mp + 2) / 5 + d.day - 1 == doy
      && (if d.month <= 2 then d.year - 1 else d.year) == y && 1 <= d.month <= 12 && 1 <= d.day <= 31
  {
  }

  lemma ShortYear(yoe: nat)
    ensures YearLength(yoe) <= 366
  {
  }

  /** It takes every date back to its day. */
  lemma AmzInverts(n: nat)
    ensures AmzDays(Civil(n)) == n
  {
    hide Civil;
    hide MarchDate;
    hide MonthOf;
    var era, yoe, doy := CivilParts(n);
    ShortYear(yoe);
    hide YearLength;
    MonthsBack(yoe + 400 * era, doy);
    Quotient(yoe + 400 * era, 400, era, yoe);
  }
}

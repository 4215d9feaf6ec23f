/** The date of Easter that the season check computes, against the calendar itself: days are
    counted with the leap-year rule and the moon comes from the Gregorian epact. */
module Easter {
  import opened Arithmetic

  // ----- the computation of the program

  datatype Date = Date(month: int, day: int)

  function EasterDate(year: nat): Date {
    var a := year % 19;
    var b := year / 100;
    var c := year % 100;
    var d := b / 4;
    var e := b % 4;
    var f := (b + 8) / 25;
    var g := (b - f + 1) / 3;
    var h := (19 * a + b - d - g + 15) % 30;
    var i := c / 4;
    var k := c % 4;
    var l := (32 + 2 * e + 2 * i - h - k) % 7;
    var m := (a + 11 * h + 22 * l) / 451;
    Date((h + l - 7 * m + 114) / 31, (h + l - 7 * m + 114) % 31 + 1)
  }

  // ----- the calendar

  predicate IsLeap(year: int) {
    year % 4 == 0 && (year % 100 != 0 || year % 400 == 0)
  }

  /** The days of the years before `year`, counted one year after the other. */
  function DaysBeforeYear(year: nat): nat {
    if year == 0 then 0 else DaysBeforeYear(year - 1) + if IsLeap(year - 1) then 366 else 365
  }

  /** The number of a day in March or April. */
  function DayNumber(year: nat, date: Date): int
    requires date.month == 3 || date.month == 4
  {
    DaysBeforeYear(year) + 31 + (if IsLeap(year) then 29 else 28) + (if date.month == 4 then 31 else 0) + date.day - 1
  }

  /** Sundays, with 1 January 2000 as a Saturday. */
  predicate IsSunday(dayNumber: int) {
    (dayNumber - DaysBeforeYear(2000)) % 7 == 1
  }

  /** The day of the paschal full moon as a day of March, from the golden number and the
      epact with its corrections for leap years left out and for the drift of the moon. */
  function FullMoon(year: nat): (n: int)
    ensures 21 <= n <= 50
  {
    var golden := year % 19 + 1;
    var century := year / 100 + 1;
    var leapsLeftOut := 3 * century / 4 - 12;
    var moonDrift := (8 * century + 5) / 25 - 5;
    var epact := (11 * golden + 20 + moonDrift - leapsLeftOut) % 30;
    var corrected := if epact == 24 || (epact == 25 && golden > 11) then epact + 1 else epact;
    if 44 - corrected < 21 then 74 - corrected else 44 - corrected
  }

  /** A date in March or April as a day of March, and back. */
  function DayOfMarch(date: Date): int {
    if date.month == 3 then date.day else date.day + 31
  }

  function MarchDay(n: int): Date {
    if n <= 31 then Date(3, n) else Date(4, n - 31)
  }

  // ----- the proof

  lemma DivStep(x: nat, n: nat)
    requires n > 0
    ensures (x + n) / n == (x + n - 1) / n + if x % n == 0 then 1 else 0
  {
    var q, r := x / n, x % n;
    DivModIs(x + n, n, q + 1, r);
    if r == 0 {
      DivModIs(x + n - 1, n, q, n - 1);
    } else {
      DivModIs(x + n - 1, n, q + 1, r - 1);
    }
  }

  /** The days before a year, in closed form. */
  lemma {:induction false} DaysClosed(year: nat)
    ensures DaysBeforeYear(year) == 365 * year + (year + 3) / 4 - (year + 99) / 100 + (year + 399) / 400
  {
    if year > 0 {
      var y := year - 1;
      DaysClosed(y);
      DivStep(y, 4);
      DivStep(y, 100);
      DivStep(y, 400);
      LeapNested(y);
    }
  }

  lemma LeapNested(y: nat)
    ensures y % 400 == 0 ==> y % 100 == 0
    ensures y % 100 == 0 ==> y % 4 == 0
  {
    if y % 400 == 0 {
      DivModIs(y, 100, 4 * (y / 400), 0);
    }
    if y % 100 == 0 {
      DivModIs(y, 4, 25 * (y / 100), 0);
    }
  }

  lemma DaysOf2000()
    ensures DaysBeforeYear(2000) == 730485
  {
    DaysClosed(2000);
  }

  /** The days up to the end of a year, by its century and the years in it. */
  lemma DaysToYearEnd(year: nat, b: nat, c: nat)
    requires b == year / 100 && c == year % 100
    ensures DaysBeforeYear(year + 1) == 365 * (100 * b + c) + 366 + 25 * b + c / 4 - b + b / 4
  {
    DaysClosed(year + 1);
    assert year == 100 * b + c;
    DivModIs(year + 4, 4, 25 * b + c / 4 + 1, c % 4);
    DivModIs(year + 100, 100, b + 1, c);
    DivModIs(year + 400, 400, b / 4 + 1, b % 4 * 100 + c);
  }

  /** The number `h` of the program. */
  function MoonRemainder(year: nat): nat {
    var a, b := year % 19, year / 100;
    (19 * a + b - b / 4 - (b - (b + 8) / 25 + 1) / 3 + 15) % 30
  }

  /** Easter is the day `21 + offset` of March, with the weekday correction in the offset. */
  lemma EasterOffset(year: nat) returns (h: nat, l: nat, m: nat)
    ensures h < 30 && l < 7 && m <= 1
    ensures h == MoonRemainder(year)
    ensures l == (32 + 2 * (year / 100 % 4) + 2 * (year % 100 / 4) - h - year % 100 % 4) % 7
    ensures m == if l == 6 && (h == 29 || (h == 28 && year % 19 > 10)) then 1 else 0
    ensures EasterDate(year) == MarchDay(22 + h + l - 7 * m)
    ensures 22 <= 22 + h + l - 7 * m <= 56
  {
    var a, b, c := year % 19, year / 100, year % 100;
    h := (19 * a + b - b / 4 - (b - (b + 8) / 25 + 1) / 3 + 15) % 30;
    l := (32 + 2 * (b % 4) + 2 * (c / 4) - h - c % 4) % 7;
    m := (a + 11 * h + 22 * l) / 451;
    Correction(a, h, l);
    SplitMonth(h + l - 7 * m);
  }

  lemma Correction(a: nat, h: nat, l: nat)
    requires a < 19 && h < 30 && l < 7
    ensures (a + 11 * h + 22 * l) / 451 == if l == 6 && (h == 29 || (h == 28 && a > 10)) then 1 else 0
  {
    var x := a + 11 * h + 22 * l;
    if x >= 451 {
      DivModIs(x, 451, 1, x - 451);
    }
  }

  lemma SplitMonth(offset: int)
    requires 0 <= offset <= 34
    ensures Date((offset + 114) / 31, (offset + 114) % 31 + 1) == MarchDay(22 + offset)
  {
    var n := offset + 114;
    if n < 124 {
      DivModIs(n, 31, 3, n - 93);
    } else {
      DivModIs(n, 31, 4, n - 124);
    }
  }

  /** In every year the date is a Sunday between 22 March and 25 April. */
  lemma EasterIsSunday(year: nat)
    ensures
      var date := EasterDate(year);
      && (date.month == 3 || date.month == 4)
      && (date.month == 3 ==> 22 <= date.day <= 31) && (date.month == 4 ==> 1 <= date.day <= 25)
      && IsSunday(DayNumber(year, date))
  {
    var h, l, m := EasterOffset(year);
    hide EasterDate, IsLeap;
    var b, c := year / 100, year % 100;
    DaysToYearEnd(year, b, c);
    DaysOf2000();
    var n := DayNumber(year, EasterDate(year));
    assert n == DaysBeforeYear(year + 1) - 285 + h + l - 7 * m;
    WeekdayOfOffset(b, c, h, l, m, n);
  }

  lemma WeekdayOfOffset(b: nat, c: nat, h: nat, l: nat, m: nat, n: int)
    requires n == 365 * (100 * b + c) + 366 + 25 * b + c / 4 - b + b / 4 - 285 + h + l - 7 * m
    requires l == (32 + 2 * (b % 4) + 2 * (c / 4) - h - c % 4) % 7
    ensures (n - 730485) % 7 == 1
  {
    var x := 32 + 2 * (b % 4) + 2 * (c / 4) - h - c % 4;
    assert x == 7 * (x / 7) + l;
    assert b == 4 * (b / 4) + b % 4 && c == 4 * (c / 4) + c % 4;
    assert n - 730485 == 7 * ((n - 730486) / 7) + 1;
  }

  /** The moon's drift, as the program computes it from the century. */
  lemma MoonDrift(b: nat)
    ensures (8 * (b + 1) + 5) / 25 == (b - (b + 8) / 25 + 1) / 3
  {
    var q, r := b / 25, b % 25;
    assert b == 25 * q + r;
    DivModIs(8 * b + 13, 25, 8 * q + (8 * r + 13) / 25, (8 * r + 13) % 25);
    var f := if r < 17 then q else q + 1;
    DivModIs(b + 8, 25, f, if r < 17 then r + 8 else r - 17);
    assert (b - f + 1) / 3 == 8 * q + (8 * r + 13) / 25;
  }

  lemma LeapCenturies(b: nat)
    ensures 3 * (b + 1) / 4 == b - b / 4
  {
  }

  /** The remainder `h` is the distance of the uncorrected full moon from 21 March. */
  lemma FullMoonFromRemainder(year: nat, h: nat)
    requires h == MoonRemainder(year)
    ensures FullMoon(year) == 21 + h - if h == 29 || (h == 28 && year % 19 > 10) then 1 else 0
  {
    var a, b := year % 19, year / 100;
    MoonDrift(b);
    LeapCenturies(b);
    var g := (b - (b + 8) / 25 + 1) / 3;
    var leaps := b - b / 4;
    var y := 19 * a + leaps - g + 15;
    var epact := (11 * (a + 1) + 20 + (g - 5) - (leaps - 12)) % 30;
    Complementary(a, leaps - g, y, h, epact);
  }

  lemma Complementary(a: nat, t: int, y: int, h: nat, epact: nat)
    requires y == 19 * a + t + 15 && h == y % 30 && epact == (11 * a + 38 - t) % 30
    ensures epact == if h <= 23 then 23 - h else 53 - h
  {
    assert 11 * a + 38 - t == 30 * (a + 1) + 23 - y;
    assert y == 30 * (y / 30) + h;
  }

  /** In every year the date is the first Sunday after the paschal full moon. */
  lemma EasterFollowsFullMoon(year: nat)
    ensures FullMoon(year) < DayOfMarch(EasterDate(year)) <= FullMoon(year) + 7
  {
    hide EasterDate, FullMoon;
    var h, l, m := EasterOffset(year);
    FullMoonFromRemainder(year, h);
    assert DayOfMarch(MarchDay(22 + h + l - 7 * m)) == 22 + h + l - 7 * m;
  }
}

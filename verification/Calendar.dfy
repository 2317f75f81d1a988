/** Days since 1970-01-01 from a proleptic Gregorian date, and the calendar it must agree with. */
module Calendar {

  /** Division that drops the fraction, towards zero. */
  function TruncDiv(a: int, b: int): int
    requires b > 0
  {
    if a >= 0 then a / b else -((-a) / b)
  }

  function TruncMod(a: int, b: int): int
    requires b > 0
  {
    a - b * TruncDiv(a, b)
  }

  function DaysFromCivil(year: int, m: int, d: int): int {
    var y := if m <= 2 then year - 1 else year;
    var era := TruncDiv(if y >= 0 then y else y - 399, 400);
    var yoe := y - era * 400;
    var mp := TruncMod(m + 9, 12);
    var doy := TruncDiv(153 * mp + 2, 5) + d - 1;
    var doe := yoe * 365 + TruncDiv(yoe, 4) - TruncDiv(yoe, 100) + doy;
    era * 146097 + doe - 719468
  }

  // The calendar.

  predicate IsLeap(y: int) {
    y % 4 == 0 && (y % 100 != 0 || y % 400 == 0)
  }

  function MonthLength(y: int, m: int): int {
    if m == 2 then (if IsLeap(y) then 29 else 28)
    else if m == 4 || m == 6 || m == 9 || m == 11 then 30
    else 31
  }

  datatype Date = Date(y: int, m: int, d: int)

  predicate IsDate(a: Date) {
    1 <= a.m <= 12 && 1 <= a.d <= MonthLength(a.y, a.m)
  }

  function NextDay(a: Date): (b: Date)
    requires IsDate(a)
    ensures IsDate(b) && Before(a, b)
  {
    if a.d < MonthLength(a.y, a.m) then a.(d := a.d + 1)
    else if a.m < 12 then Date(a.y, a.m + 1, 1)
    else Date(a.y + 1, 1, 1)
  }

  predicate Before(a: Date, b: Date) {
    a.y < b.y || (a.y == b.y && (a.m < b.m || (a.m == b.m && a.d < b.d)))
  }

  function Days(a: Date): int {
    DaysFromCivil(a.y, a.m, a.d)
  }

  // The same number without eras: the years since a March 1st, counted with floored division.

  function MarchYear(y: int, m: int): int {
    if m <= 2 then y - 1 else y
  }

  /** Days before a month, the year beginning in March. */
  function MonthStart(m: int): int {
    (153 * (if m > 2 then m - 3 else m + 9) + 2) / 5
  }

  function YearStart(y: int): int {
    365 * y + y / 4 - y / 100 + y / 400 - 719468
  }

  lemma Eras(y: int)
    ensures var era, yoe := y / 400, y % 400;
            && TruncDiv(if y >= 0 then y else y - 399, 400) == era
            && era * 146097 + yoe * 365 + TruncDiv(yoe, 4) - TruncDiv(yoe, 100) - 719468 == YearStart(y)
  {
    var era, yoe := y / 400, y % 400;
    assert y == 400 * era + yoe;
    assert y / 4 == 100 * era + yoe / 4;
    assert y / 100 == 4 * era + yoe / 100;
  }

  lemma ClosedForm(a: Date)
    requires 1 <= a.m <= 12
    ensures Days(a) == YearStart(MarchYear(a.y, a.m)) + MonthStart(a.m) + a.d - 1
  {
    var y := MarchYear(a.y, a.m);
    Eras(y);
    var mp := if a.m > 2 then a.m - 3 else a.m + 9;
    assert TruncMod(a.m + 9, 12) == mp;
    assert y - (y / 400) * 400 == y % 400;
  }

  lemma MonthStarts(y: int, m: int)
    requires 1 <= m <= 12
    ensures MonthStart(m) ==
            [306, 337, 0, 31, 61, 92, 122, 153, 184, 214, 245, 275][m - 1]
    ensures 1 <= m < 12 && m != 2 ==> MonthStart(m + 1) == MonthStart(m) + MonthLength(y, m)
  {
  }

  lemma YearLength(y: int)
    ensures YearStart(y) - YearStart(y - 1) == if IsLeap(y) then 366 else 365
  {
    assert y / 4 - (y - 1) / 4 == if y % 4 == 0 then 1 else 0;
    assert y / 100 - (y - 1) / 100 == if y % 100 == 0 then 1 else 0;
    assert y / 400 - (y - 1) / 400 == if y % 400 == 0 then 1 else 0;
  }

  lemma EpochIsZero()
    ensures Days(Date(1970, 1, 1)) == 0
  {
    ClosedForm(Date(1970, 1, 1));
  }

  /** The next calendar day is one day later. */
  lemma NextDayIsOneMore(a: Date)
    requires IsDate(a)
    ensures Days(NextDay(a)) == Days(a) + 1
  {
    ClosedForm(a);
    ClosedForm(NextDay(a));
    if a.d == MonthLength(a.y, a.m) {
      MonthTurns(a.y, a.m);
    }
  }

  lemma MonthTurns(y: int, m: int)
    requires 1 <= m <= 12
    ensures var (y', m') := if m < 12 then (y, m + 1) else (y + 1, 1);
            YearStart(MarchYear(y', m')) + MonthStart(m') ==
            YearStart(MarchYear(y, m)) + MonthStart(m) + MonthLength(y, m)
  {
    MonthStarts(y, m);
    if m == 2 {
      YearLength(y);
    }
  }

  /** How often `NextDay` leads from `a` on. */
  function DaysLater(a: Date, n: nat): (b: Date)
    requires IsDate(a)
    ensures IsDate(b)
  {
    if n == 0 then a else NextDay(DaysLater(a, n - 1))
  }

  lemma {:induction false} CountsDays(a: Date, n: nat)
    requires IsDate(a)
    ensures Days(DaysLater(a, n)) == Days(a) + n
  {
    if n > 0 {
      CountsDays(a, n - 1);
      NextDayIsOneMore(DaysLater(a, n - 1));
    }
  }

  lemma YearBounds(a: Date)
    requires IsDate(a)
    ensures YearStart(a.y - 1) + 306 <= Days(a) < YearStart(a.y) + 306
  {
    ClosedForm(a);
    MonthStarts(a.y, a.m);
    YearLength(a.y);
  }

  lemma {:induction false} YearsAscend(y: int, y': int)
    requires y <= y'
    ensures YearStart(y) <= YearStart(y')
    decreases y' - y
  {
    if y < y' {
      YearLength(y');
      YearsAscend(y, y' - 1);
    }
  }

  /** Later dates have more days, so different dates never share a number. */
  lemma DaysFollowDates(a: Date, b: Date)
    requires IsDate(a) && IsDate(b)
    ensures Days(a) < Days(b) <==> Before(a, b)
    ensures Days(a) == Days(b) <==> a == b
  {
    EarlierHasFewer(a, b);
    EarlierHasFewer(b, a);
  }

  lemma EarlierHasFewer(a: Date, b: Date)
    requires IsDate(a) && IsDate(b)
    ensures Before(a, b) ==> Days(a) < Days(b)
  {
    if a.y < b.y {
      YearBounds(a);
      YearBounds(b);
      YearsAscend(a.y, b.y - 1);
    } else if a.y == b.y {
      ClosedForm(a);
      ClosedForm(b);
      if a.m < b.m {
        MonthsAscend(a.y, a.m, b.m);
      }
    }
  }

  lemma {:induction false} MonthsAscend(y: int, m: int, m': int)
    requires 1 <= m < m' <= 12
    ensures YearStart(MarchYear(y, m)) + MonthStart(m) + MonthLength(y, m) <=
            YearStart(MarchYear(y, m')) + MonthStart(m')
    decreases m' - m
  {
    MonthTurns(y, m);
    if m + 1 < m' {
      MonthsAscend(y, m + 1, m');
    }
  }

  /** The calendar repeats every 146097 days. */
  lemma FourCenturies(a: Date)
    requires IsDate(a)
    ensures IsDate(a.(y := a.y + 400)) && Days(a.(y := a.y + 400)) == Days(a) + 146097
  {
    var b := a.(y := a.y + 400);
    LeapRepeats(a.y);
    ClosedForm(a);
    ClosedForm(b);
    YearStartRepeats(MarchYear(a.y, a.m));
  }

  lemma LeapRepeats(y: int)
    ensures IsLeap(y + 400) == IsLeap(y)
  {
    assert (y + 400) % 4 == y % 4 && (y + 400) % 100 == y % 100 && (y + 400) % 400 == y % 400;
  }

  lemma YearStartRepeats(y: int)
    ensures YearStart(y + 400) == YearStart(y) + 146097
  {
    assert (y + 400) / 4 == y / 4 + 100;
    assert (y + 400) / 100 == y / 100 + 4;
    assert (y + 400) / 400 == y / 400 + 1;
  }

  /** A number that is `n` larger belongs to the date `n` calendar steps later. With the epoch at 0, the
      number of a date is its distance from 1970-01-01. */
  lemma DifferenceCountsSteps(a: Date, b: Date, n: nat)
    requires IsDate(a) && IsDate(b)
    ensures Days(b) == Days(a) + n <==> DaysLater(a, n) == b
  {
    CountsDays(a, n);
    DaysFollowDates(DaysLater(a, n), b);
  }
}

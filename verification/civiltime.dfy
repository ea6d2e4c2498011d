/** The proleptic Gregorian calendar for years 0000 to 9999, counted in days from 0000-01-01. */
module CivilTime {

  predicate Leap(y: nat) {
    y % 4 == 0 && (y % 100 != 0 || y % 400 == 0)
  }

  /** Days from 0000-01-01 to the first day of year y. */
  function DaysBeforeYear(y: nat): nat {
    365 * y + (y + 3) / 4 - (y + 99) / 100 + (y + 399) / 400
  }

  function YearLength(y: nat): nat {
    if Leap(y) then 366 else 365
  }

  function DaysIn(y: nat, m: nat): nat
    requires 1 <= m <= 12
  {
    if m == 2 then if Leap(y) then 29 else 28
    else if m == 4 || m == 6 || m == 9 || m == 11 then 30
    else 31
  }

  function DaysBeforeMonth(y: nat, m: nat): nat
    requires 1 <= m <= 13
  {
    if m == 1 then 0 else DaysBeforeMonth(y, m - 1) + DaysIn(y, m - 1)
  }

  datatype Date = Date(y: nat, m: nat, d: nat)

  predicate ValidDate(date: Date) {
    date.y <= 9999 && 1 <= date.m <= 12 && 1 <= date.d <= DaysIn(date.y, date.m)
  }

  const DAY_COUNT: int := 3652425

  function DayNumber(date: Date): nat
    requires ValidDate(date)
  {
    DaysBeforeYear(date.y) + DaysBeforeMonth(date.y, date.m) + date.d - 1
  }

  predicate DateLess(a: Date, b: Date) {
    a.y < b.y || (a.y == b.y && (a.m < b.m || (a.m == b.m && a.d < b.d)))
  }

  lemma FourYears(y: nat)
    ensures (y + 4) / 4 == (y + 3) / 4 + if y % 4 == 0 then 1 else 0
  {}

  lemma Century(y: nat)
    ensures (y + 100) / 100 == (y + 99) / 100 + if y % 100 == 0 then 1 else 0
  {}

  lemma FourCenturies(y: nat)
    ensures (y + 400) / 400 == (y + 399) / 400 + if y % 400 == 0 then 1 else 0
  {}

  lemma CenturyIsFourth(y: nat)
    requires y % 100 == 0
    ensures y % 4 == 0
  {
    var k := y / 100 * 25;
    assert y == 4 * k;
  }

  lemma FourCenturiesIsCentury(y: nat)
    requires y % 400 == 0
    ensures y % 100 == 0
  {
    var k := y / 400 * 4;
    assert y == 100 * k;
  }

  lemma NextYear(y: nat)
    ensures DaysBeforeYear(y + 1) == DaysBeforeYear(y) + YearLength(y)
  {
    FourYears(y);
    Century(y);
    FourCenturies(y);
    if y % 100 == 0 {
      CenturyIsFourth(y);
    }
    if y % 400 == 0 {
      FourCenturiesIsCentury(y);
    }
  }

  lemma {:induction false} YearsAscend(y: nat, z: nat)
    requires y <= z
    ensures DaysBeforeYear(y) + 365 * (z - y) <= DaysBeforeYear(z)
    decreases z - y
  {
    if y < z {
      NextYear(y);
      YearsAscend(y + 1, z);
    }
  }

  lemma YearOfMonths(y: nat)
    ensures DaysBeforeMonth(y, 13) == YearLength(y)
  {
    var feb := DaysIn(y, 2);
    assert DaysBeforeMonth(y, 2) == 31;
    assert DaysBeforeMonth(y, 3) == 31 + feb;
    assert DaysBeforeMonth(y, 5) == 92 + feb;
    assert DaysBeforeMonth(y, 7) == 153 + feb;
    assert DaysBeforeMonth(y, 9) == 215 + feb;
    assert DaysBeforeMonth(y, 11) == 276 + feb;
  }

  /** The month lengths add up to the usual closed form: 30.6 days a month, less what February
      lacks. */
  lemma MonthsInClosedForm(y: nat, m: nat)
    requires 1 <= m <= 12
    ensures DaysBeforeMonth(y, m) == (367 * m - 362) / 12 - if m <= 2 then 0 else if Leap(y) then 1 else 2
  {
    hide Leap;
    var feb := DaysIn(y, 2);
    assert DaysBeforeMonth(y, 2) == 31;
    assert DaysBeforeMonth(y, 3) == 31 + feb;
    assert DaysBeforeMonth(y, 4) == 62 + feb;
    assert DaysBeforeMonth(y, 5) == 92 + feb;
    assert DaysBeforeMonth(y, 6) == 123 + feb;
    assert DaysBeforeMonth(y, 7) == 153 + feb;
    assert DaysBeforeMonth(y, 8) == 184 + feb;
    assert DaysBeforeMonth(y, 9) == 215 + feb;
    assert DaysBeforeMonth(y, 10) == 245 + feb;
    assert DaysBeforeMonth(y, 11) == 276 + feb;
  }

  lemma {:induction false} MonthsAscend(y: nat, m: nat, n: nat)
    requires 1 <= m < n <= 13
    ensures DaysBeforeMonth(y, m) + DaysIn(y, m) <= DaysBeforeMonth(y, n)
    decreases n - m
  {
    if m + 1 < n {
      MonthsAscend(y, m, n - 1);
    }
  }

  /** A date lies inside its year. */
  lemma WithinYear(date: Date)
    requires ValidDate(date)
    ensures DaysBeforeYear(date.y) <= DayNumber(date) < DaysBeforeYear(date.y + 1)
    ensures DayNumber(date) < DAY_COUNT
  {
    MonthsAscend(date.y, date.m, 13);
    YearOfMonths(date.y);
    NextYear(date.y);
    YearsAscend(date.y + 1, 10000);
  }

  lemma DateLessAscends(a: Date, b: Date)
    requires ValidDate(a) && ValidDate(b) && DateLess(a, b)
    ensures DayNumber(a) < DayNumber(b)
  {
    if a.y < b.y {
      WithinYear(a);
      WithinYear(b);
      YearsAscend(a.y + 1, b.y);
    } else if a.m < b.m {
      MonthsAscend(a.y, a.m, b.m);
    }
  }

  /** Calendar order is day order. */
  lemma DateOrder(a: Date, b: Date)
    requires ValidDate(a) && ValidDate(b)
    ensures DateLess(a, b) <==> DayNumber(a) < DayNumber(b)
    ensures a == b <==> DayNumber(a) == DayNumber(b)
  {
    if DateLess(a, b) {
      DateLessAscends(a, b);
    } else if a != b {
      DateLessAscends(b, a);
    }
  }

  function FindYear(n: nat, y: nat): (r: nat)
    requires DaysBeforeYear(y) <= n
    ensures y <= r && DaysBeforeYear(r) <= n < DaysBeforeYear(r + 1)
    decreases n - DaysBeforeYear(y)
  {
    if n < DaysBeforeYear(y + 1) then y else
      NextYear(y);
      FindYear(n, y + 1)
  }

  function FindMonth(y: nat, rest: nat, m: nat): (r: nat)
    requires 1 <= m <= 12 && DaysBeforeMonth(y, m) <= rest < DaysBeforeMonth(y, 13)
    ensures m <= r <= 12 && DaysBeforeMonth(y, r) <= rest < DaysBeforeMonth(y, r + 1)
    decreases 12 - m
  {
    if rest < DaysBeforeMonth(y, m + 1) then m else FindMonth(y, rest, m + 1)
  }

  /** The calendar date of a day number. */
  function DateOf(n: nat): (date: Date)
    requires n < DAY_COUNT
    ensures ValidDate(date) && DayNumber(date) == n
  {
    var y := FindYear(n, 0);
    assert y <= 9999;
    var rest := n - DaysBeforeYear(y);
    YearOfMonths(y);
    NextYear(y);
    var m := FindMonth(y, rest, 1);
    Date(y, m, rest - DaysBeforeMonth(y, m) + 1)
  }
}

/** The civil calendar the event log is dated with, and the number of every day in it. */
module Calendar {
  import opened Trace

  datatype Date = Date(year: int, month: int, day: int)

  // ---- The calendar, by its rules ---------------------------------------------------------------

  /** The Gregorian rule, extended to every year. */
  predicate Leap(year: int) { year % 4 == 0 && (year % 100 != 0 || year % 400 == 0) }

  function DaysIn(year: int, month: int): int {
    if month == 2 then (if Leap(year) then 29 else 28)
    else if month == 4 || month == 6 || month == 9 || month == 11 then 30
    else 31
  }

  predicate Valid(d: Date) { 1 <= d.month <= 12 && 1 <= d.day <= DaysIn(d.year, d.month) }

  function Next(d: Date): (n: Date)
    requires Valid(d)
    ensures Valid(n)
  {
    if d.day < DaysIn(d.year, d.month) then d.(day := d.day + 1)
    else if d.month < 12 then Date(d.year, d.month + 1, 1)
    else Date(d.year + 1, 1, 1)
  }

  function Previous(d: Date): (p: Date)
    requires Valid(d)
    ensures Valid(p) && Next(p) == d
  {
    if d.day > 1 then d.(day := d.day - 1)
    else if d.month > 1 then Date(d.year, d.month - 1, DaysIn(d.year, d.month - 1))
    else Date(d.year - 1, 12, 31)
  }

  predicate Earlier(a: Date, b: Date) {
    a.year < b.year || (a.year == b.year && (a.month < b.month || (a.month == b.month && a.day < b.day)))
  }

  // ---- The source's arithmetic ------------------------------------------------------------------

  /** Machine division, which truncates towards zero. */
  function Quotient(a: int, b: int): int
    requires b > 0
  {
    if a >= 0 then a / b else -(-a / b)
  }

  /** Days from 1970-01-01, counting years from March so that a leap day comes last. */
  function DaysFromCivil(year: int, month: int, day: int): int {
    var y := if month <= 2 then year - 1 else year;
    var era := Quotient(if y >= 0 then y else y - 399, 400);
    var yoe := y - era * 400;
    var mp := (month + 9) % 12;
    var doy := Quotient(153 * mp + 2, 5) + day - 1;
    var doe := yoe * 365 + Quotient(yoe, 4) - Quotient(yoe, 100) + doy;
    era * 146097 + doe - 719468
  }

  function DayNumber(d: Date): int { DaysFromCivil(d.year, d.month, d.day) }

  /** March-based years up to `y`, in days. */
  function YearStart(y: int): int { y * 365 + y / 4 - y / 100 + y / 400 }

  function MonthStart(month: int): int {
    if month == 1 then 306 else if month == 2 then 337 else if month == 3 then 0 else if month == 4 then 31
    else if month == 5 then 61 else if month == 6 then 92 else if month == 7 then 122 else if month == 8 then 153
    else if month == 9 then 184 else if month == 10 then 214 else if month == 11 then 245 else 275
  }

  /** The adjusted truncating division is the floor, on both sides of year zero. */
  lemma EraIsFloor(y: int)
    ensures Quotient(if y >= 0 then y else y - 399, 400) == y / 400
    ensures 0 <= y - y / 400 * 400 < 400
  {}

  lemma EraYears(y: int, era: int, yoe: int)
    requires y == era * 400 + yoe && 0 <= yoe < 400
    ensures y / 400 == era && y / 100 == era * 4 + yoe / 100 && y / 4 == era * 100 + yoe / 4
  {}

  lemma MonthsFromMarch(month: int)
    requires 1 <= month <= 12
    ensures Quotient(153 * ((month + 9) % 12) + 2, 5) == MonthStart(month)
  {}

  lemma DayNumberIs(d: Date)
    requires 1 <= d.month <= 12
    ensures DayNumber(d)
      == YearStart(if d.month <= 2 then d.year - 1 else d.year) + MonthStart(d.month) + d.day - 1 - 719468
  {
    var y := if d.month <= 2 then d.year - 1 else d.year;
    EraIsFloor(y);
    EraYears(y, y / 400, y - y / 400 * 400);
    MonthsFromMarch(d.month);
  }

  /** A March-based year is a day longer when the January within it belongs to a leap year. */
  lemma YearLength(y: int)
    ensures YearStart(y) == YearStart(y - 1) + (if Leap(y) then 366 else 365)
  {
    DivSteps(y);
    LeapParts(y);
  }

  lemma DivSteps(y: int)
    ensures y / 4 == (y - 1) / 4 + (if y % 4 == 0 then 1 else 0)
    ensures y / 100 == (y - 1) / 100 + (if y % 100 == 0 then 1 else 0)
    ensures y / 400 == (y - 1) / 400 + (if y % 400 == 0 then 1 else 0)
  {}

  lemma LeapParts(y: int)
    ensures y % 400 == 0 ==> y % 100 == 0
    ensures y % 100 == 0 ==> y % 4 == 0
  {}

  lemma EpochIsZero()
    ensures DayNumber(Date(1970, 1, 1)) == 0
  {}

  /** The day after any date, in any year, has the next number. */
  lemma NextDayNumber(d: Date)
    requires Valid(d)
    ensures DayNumber(Next(d)) == DayNumber(d) + 1
  {
    DayNumberIs(d);
    DayNumberIs(Next(d));
    YearLength(d.year);
  }

  /** Later dates have larger numbers. */
  lemma {:induction false} DayNumberOrders(a: Date, b: Date)
    requires Valid(a) && Valid(b) && Earlier(a, b)
    ensures DayNumber(a) < DayNumber(b)
    decreases (b.year - a.year) * 372 + (b.month - a.month) * 31 + (b.day - a.day)
  {
    NextDayNumber(a);
    if Next(a) != b {
      DayNumberOrders(Next(a), b);
    }
  }

  /** The date a number of days from the epoch, counted off one by one. */
  function DateOf(n: int): (d: Date)
    ensures Valid(d)
    decreases Abs(n)
  {
    if n == 0 then Date(1970, 1, 1) else if n > 0 then Next(DateOf(n - 1)) else Previous(DateOf(n + 1))
  }

  lemma {:induction false} DayNumberOf(n: int)
    ensures DayNumber(DateOf(n)) == n
    decreases Abs(n)
  {
    if n > 0 {
      DayNumberOf(n - 1);
      NextDayNumber(DateOf(n - 1));
    } else if n < 0 {
      DayNumberOf(n + 1);
      NextDayNumber(DateOf(n));
    }
  }

  /** The source's formula and counting days off the calendar agree on every date. */
  lemma DayNumberCounts(d: Date, n: int)
    requires Valid(d)
    ensures DayNumber(d) == n <==> DateOf(n) == d
  {
    DayNumberOf(n);
    if DayNumber(d) == n {
      if Earlier(d, DateOf(n)) {
        DayNumberOrders(d, DateOf(n));
      } else if Earlier(DateOf(n), d) {
        DayNumberOrders(DateOf(n), d);
      }
    }
  }
}

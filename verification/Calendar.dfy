/** The calendar's month grid, over the day numbers of sections 15.9.1.3 to 15.9.1.6 and 15.9.1.12 of
    ECMA-262 5.1. */
module Calendars {
  import opened Wrappers

  /** A date as the calendar writes it: the month counts from 1. */
  datatype Ymd = Ymd(year: int, month: int, day: int)

  // ----- day numbers -----

  function DayFromYear(y: int): int {
    365 * (y - 1970) + (y - 1969) / 4 - (y - 1901) / 100 + (y - 1601) / 400
  }

  predicate IsLeap(y: int) {
    y % 4 == 0 && (y % 100 != 0 || y % 400 == 0)
  }

  function YearLength(y: int): int {
    if IsLeap(y) then 366 else 365
  }

  function MonthLength(y: int, m: int): int {
    if m == 2 then (if IsLeap(y) then 29 else 28)
    else if m == 4 || m == 6 || m == 9 || m == 11 then 30
    else 31
  }

  /** Days of the year before month `m`. */
  function MonthStart(y: int, m: int): int
    decreases m
  {
    if m <= 1 then 0 else MonthStart(y, m - 1) + MonthLength(y, m - 1)
  }

  /** MakeDay for a month from 1 to 12 and any day, in range or not. */
  function DayNumber(d: Ymd): int
  {
    DayFromYear(d.year) + MonthStart(d.year, d.month) + d.day - 1
  }

  /** The weekday of a day number; Sunday is 0. */
  function Weekday(n: int): int {
    (n + 4) % 7
  }

  predicate IsDate(d: Ymd) {
    1 <= d.month <= 12 && 1 <= d.day <= MonthLength(d.year, d.month)
  }

  lemma NextYear(y: int)
    ensures DayFromYear(y + 1) == DayFromYear(y) + YearLength(y)
  {
    var a, b, c := (y - 1969) / 4, (y - 1901) / 100, (y - 1601) / 400;
    Step4(y);
    Step100(y);
    Step400(y);
    Multiples(y);
    assert DayFromYear(y) == 365 * (y - 1970) + a - b + c;
    assert DayFromYear(y + 1)
        == 365 * (y - 1969) + (a + One(y % 4 == 0)) - (b + One(y % 100 == 0)) + (c + One(y % 400 == 0));
    assert YearLength(y) == 365 + One(y % 4 == 0) - One(y % 100 == 0) + One(y % 400 == 0);
  }

  function One(b: bool): int {
    if b then 1 else 0
  }

  /** Floors step up exactly at the multiples. */
  lemma Step4(y: int)
    ensures (y - 1968) / 4 == (y - 1969) / 4 + One(y % 4 == 0)
  {
    var q, r := (y - 1969) / 4, (y - 1969) % 4;
    if r == 3 {
      assert y == 4 * (q + 493);
    } else {
      assert y == 4 * (q + 492) + (r + 1);
    }
  }

  lemma Step100(y: int)
    ensures (y - 1900) / 100 == (y - 1901) / 100 + One(y % 100 == 0)
  {
    var q, r := (y - 1901) / 100, (y - 1901) % 100;
    if r == 99 {
      assert y == 100 * (q + 20);
    } else {
      assert y == 100 * (q + 19) + (r + 1);
    }
  }

  lemma Step400(y: int)
    ensures (y - 1600) / 400 == (y - 1601) / 400 + One(y % 400 == 0)
  {
    var q, r := (y - 1601) / 400, (y - 1601) % 400;
    if r == 399 {
      assert y == 400 * (q + 5);
    } else {
      assert y == 400 * (q + 4) + (r + 1);
    }
  }

  lemma Multiples(y: int)
    ensures y % 400 == 0 ==> y % 100 == 0
    ensures y % 100 == 0 ==> y % 4 == 0
  {
  }

  lemma {:induction false} YearsRise(a: int, b: int)
    requires a <= b
    ensures DayFromYear(b) >= DayFromYear(a) + 365 * (b - a)
    decreases b - a
  {
    hide DayFromYear;
    if a < b {
      NextYear(b - 1);
      YearsRise(a, b - 1);
    }
  }

  lemma YearEnd(y: int)
    ensures MonthStart(y, 12) + MonthLength(y, 12) == YearLength(y)
  {
    assert MonthStart(y, 4) == MonthLength(y, 1) + MonthLength(y, 2) + MonthLength(y, 3);
    assert MonthStart(y, 8) == MonthStart(y, 4) + 122;
    assert MonthStart(y, 12) == MonthStart(y, 8) + 122;
  }

  // ----- back from day numbers to dates -----

  /** YearFromTime: the year that holds the day, looked for from 1970 on. */
  function YearOf(n: int): (r: int)
    ensures DayFromYear(r) <= n < DayFromYear(r + 1)
  {
    if n >= DayFromYear(1970) then Later(n, 1970) else Earlier(n, 1969)
  }

  function Later(n: int, y: int): (r: int)
    requires n >= DayFromYear(y)
    ensures DayFromYear(r) <= n < DayFromYear(r + 1)
    decreases n - DayFromYear(y)
  {
    NextYear(y);
    if n >= DayFromYear(y + 1) then Later(n, y + 1) else y
  }

  function Earlier(n: int, y: int): (r: int)
    requires n < DayFromYear(y + 1)
    ensures DayFromYear(r) <= n < DayFromYear(r + 1)
    decreases DayFromYear(y + 1) - n
  {
    NextYear(y);
    if n < DayFromYear(y) then Earlier(n, y - 1) else y
  }

  /** MonthFromTime: the month of year `y` that holds its day `k` (from 0), looked for from `m`. */
  function MonthOf(y: int, k: int, m: int): (r: int)
    requires 1 <= m <= 12 && MonthStart(y, m) <= k < YearLength(y)
    ensures m <= r <= 12 && MonthStart(y, r) <= k < MonthStart(y, r) + MonthLength(y, r)
    decreases 12 - m
  {
    YearEnd(y);
    if k < MonthStart(y, m) + MonthLength(y, m) then m else MonthOf(y, k, m + 1)
  }

  /** The date with a given day number. */
  function DateOf(n: int): (d: Ymd)
    ensures IsDate(d) && DayNumber(d) == n
  {
    var y := YearOf(n);
    NextYear(y);
    var k := n - DayFromYear(y);
    var m := MonthOf(y, k, 1);
    Ymd(y, m, k - MonthStart(y, m) + 1)
  }

  lemma {:induction false} MonthsRise(y: int, a: int, b: int)
    requires 1 <= a < b
    ensures MonthStart(y, a) + MonthLength(y, a) <= MonthStart(y, b)
    decreases b - a
  {
    if a < b - 1 {
      MonthsRise(y, a, b - 1);
    }
  }

  lemma InYear(d: Ymd)
    requires IsDate(d)
    ensures DayFromYear(d.year) <= DayNumber(d) < DayFromYear(d.year + 1)
  {
    hide DayFromYear;
    NextYear(d.year);
    YearEnd(d.year);
    if d.month < 12 {
      MonthsRise(d.year, d.month, 12);
    }
    if d.month > 1 {
      MonthsRise(d.year, 1, d.month);
    }
  }

  /** Two dates with the same day number are the same date. */
  lemma OneDate(d: Ymd, e: Ymd)
    requires IsDate(d) && IsDate(e) && DayNumber(d) == DayNumber(e)
    ensures d == e
  {
    hide DayFromYear;
    InYear(d);
    InYear(e);
    if d.year < e.year {
      YearsRise(d.year + 1, e.year);
    } else if e.year < d.year {
      YearsRise(e.year + 1, d.year);
    } else if d.month < e.month {
      MonthsRise(d.year, d.month, e.month);
    } else if e.month < d.month {
      MonthsRise(d.year, e.month, d.month);
    }
  }

  /** The first day is Thursday, the first of January 1970, and every day moves the weekday on by one. */
  lemma Epoch(n: int)
    ensures DateOf(0) == Ymd(1970, 1, 1) && Weekday(0) == 4 && Weekday(n + 1) == (Weekday(n) + 1) % 7
  {
    hide DateOf, DayNumber, DayFromYear, MonthStart;
    EpochNumber();
    OneDate(Ymd(1970, 1, 1), DateOf(0));
  }

  lemma EpochNumber()
    ensures DayNumber(Ymd(1970, 1, 1)) == 0
  {
  }

  /** InLeapYear, MonthFromTime and DateFromTime (sections 15.9.1.3 to 15.9.1.5), in their own numbers: the
      month and its day follow from the day within the year. */
  lemma MonthAndDay(n: int)
    ensures var d := DateOf(n); var leap := DayFromYear(d.year + 1) - DayFromYear(d.year) - 365;
            && leap == (if d.year % 4 == 0 && (d.year % 100 != 0 || d.year % 400 == 0) then 1 else 0)
            && 0 <= n - DayFromYear(d.year) < 365 + leap
    ensures var d := DateOf(n); var k := n - DayFromYear(d.year);
            var leap := DayFromYear(d.year + 1) - DayFromYear(d.year) - 365;
            && (d.month == 1 <==> 0 <= k < 31)
            && (d.month == 2 <==> 31 <= k < 59 + leap)
            && (d.month == 3 <==> 59 + leap <= k < 90 + leap)
            && (d.month == 4 <==> 90 + leap <= k < 120 + leap)
            && (d.month == 5 <==> 120 + leap <= k < 151 + leap)
            && (d.month == 6 <==> 151 + leap <= k < 181 + leap)
            && (d.month == 7 <==> 181 + leap <= k < 212 + leap)
            && (d.month == 8 <==> 212 + leap <= k < 243 + leap)
            && (d.month == 9 <==> 243 + leap <= k < 273 + leap)
            && (d.month == 10 <==> 273 + leap <= k < 304 + leap)
            && (d.month == 11 <==> 304 + leap <= k < 334 + leap)
            && (d.month == 12 <==> 334 + leap <= k < 365 + leap)
    ensures var d := DateOf(n); var k := n - DayFromYear(d.year);
            var leap := DayFromYear(d.year + 1) - DayFromYear(d.year) - 365;
            match d.month
            case 1 => d.day == k + 1
            case 2 => d.day == k - 30
            case 3 => d.day == k - 58 - leap
            case 4 => d.day == k - 89 - leap
            case 5 => d.day == k - 119 - leap
            case 6 => d.day == k - 150 - leap
            case 7 => d.day == k - 180 - leap
            case 8 => d.day == k - 211 - leap
            case 9 => d.day == k - 242 - leap
            case 10 => d.day == k - 272 - leap
            case 11 => d.day == k - 303 - leap
            case _ => d.month == 12 && d.day == k - 333 - leap
  {
    hide DayFromYear, MonthStart, MonthLength, DateOf;
    var d := DateOf(n);
    NextYear(d.year);
    InYear(d);
    MonthTable(d.year, d.month);
  }

  lemma MonthTable(y: int, m: int)
    requires 1 <= m <= 12
    ensures var leap := YearLength(y) - 365;
            && MonthStart(y, m) == (match m case 1 => 0 case 2 => 31 case 3 => 59 + leap case 4 => 90 + leap
                                    case 5 => 120 + leap case 6 => 151 + leap case 7 => 181 + leap
                                    case 8 => 212 + leap case 9 => 243 + leap case 10 => 273 + leap
                                    case 11 => 304 + leap case _ => 334 + leap)
            && MonthLength(y, m) == (match m case 1 => 31 case 2 => 28 + leap case 3 => 31 case 4 => 30 case 5 => 31
                                     case 6 => 30 case 7 => 31 case 8 => 31 case 9 => 30 case 10 => 31 case 11 => 30
                                     case _ => 31)
  {
    assert MonthStart(y, 3) == 31 + MonthLength(y, 2);
    assert MonthStart(y, 6) == MonthStart(y, 3) + 92;
    assert MonthStart(y, 9) == MonthStart(y, 6) + 92;
  }

  // ----- the Date constructor -----

  /** The last day that a Date can stand for (TimeClip, section 15.9.1.14); the first is as far before 1970. */
  const LAST_DAY := 100000000

  predicate IsTime(n: int) {
    -LAST_DAY <= n <= LAST_DAY
  }

  /** `new Date(year, index, day)`, read back with getFullYear, getMonth and getDate; `index` counts months
      from 0 and may run over. The constructor takes the years 0 to 99 for 1900 to 1999. A day out of range
      makes an invalid date, of which nothing can be read. */
  function NewDate(year: int, index: int, day: int): Ymd
    requires IsTime(ConstructorDay(year, index, day))
  {
    DateOf(ConstructorDay(year, index, day))
  }

  function ConstructorDay(year: int, index: int, day: int): int {
    DayNumber(Ymd((if 0 <= year <= 99 then 1900 + year else year) + index / 12, index % 12 + 1, day))
  }

  /** Counting on from a date of an ordinary year gives the date so many days away. */
  lemma CountOn(d: Ymd, k: int)
    requires IsDate(d) && d.year >= 100
    ensures ConstructorDay(d.year, d.month - 1, d.day + k) == DayNumber(d) + k
  {
    hide DayFromYear, MonthStart;
    MonthIndex(d.month);
  }

  lemma MonthIndex(m: int)
    requires 1 <= m <= 12
    ensures (m - 1) / 12 == 0 && (m - 1) % 12 + 1 == m
  {
  }

  /** Day 0 of a month, by its index from 0, is the last day of the month before. */
  lemma LastDay(year: int, month: int)
    requires 1 <= month <= 12 && year >= 100
    ensures ConstructorDay(year, month, 0) == DayNumber(Ymd(year, month, MonthLength(year, month)))
  {
    hide DayFromYear, YearLength, MonthLength;
    NextYear(year);
    YearEnd(year);
    assert MonthStart(year + 1, 1) == 0;
    if month < 12 {
      MonthIndex(month + 1);
      assert MonthStart(year, month + 1) == MonthStart(year, month) + MonthLength(year, month);
    }
  }

  /** A month that ends within the range of dates. */
  predicate InTime(year: int, month: int) {
    year < 275760 || (year == 275760 && month <= 8)
  }

  /** The end of time lies in the middle of a month, so a grid whose month fits does fit. */
  lemma EndOfTime(year: int, month: int)
    requires 1 <= month <= 12
    ensures DayNumber(Ymd(year, month, MonthLength(year, month))) <= LAST_DAY
            <==> DayNumber(Ymd(year, month, MonthLength(year, month))) + 13 <= LAST_DAY
    ensures DayNumber(Ymd(year, month, MonthLength(year, month))) <= LAST_DAY
            <==> InTime(year, month)
  {
    hide DayFromYear, MonthStart;
    var d := Ymd(year, month, MonthLength(year, month));
    LastMonth();
    InYear(d);
    InYear(Ymd(275760, 9, 1));
    InYear(Ymd(275760, 9, 30));
    assert DayNumber(Ymd(275760, 9, 30)) == LAST_DAY + 17;
    if year < 275760 {
      YearsRise(year + 1, 275760);
    } else if year > 275760 {
      YearsRise(275761, year);
    } else if month < 9 {
      MonthsRise(year, month, 9);
    } else if month > 9 {
      MonthsRise(year, 9, month);
    }
  }

  lemma LastMonth()
    ensures DayNumber(Ymd(275760, 9, 1)) == LAST_DAY - 12
  {
    assert DayFromYear(275760) == 99999744;
    assert MonthStart(275760, 9) == 244;
  }

  lemma LateYear(n: int, y: int)
    requires n >= DayFromYear(y)
    ensures DateOf(n).year >= y
  {
    hide DayFromYear;
    var d := DateOf(n);
    InYear(d);
    if d.year < y {
      YearsRise(d.year + 1, y);
    }
  }

  // ----- the grid -----

  /** The values of `f` at `len` places from `n` on. */
  function Table<T>(f: int -> T, n: int, len: nat): (s: seq<T>)
    ensures |s| == len
  {
    seq(len, c requires 0 <= c < len => f(n + c))
  }

  lemma TableNext<T>(f: int -> T, n: int, len: nat)
    ensures Table(f, n, len) + [f(n + len)] == Table(f, n, len + 1)
  {
  }

  lemma TableBefore<T>(f: int -> T, n: int, len: nat)
    ensures [f(n - 1)] + Table(f, n, len) == Table(f, n - 1, len + 1)
  {
    var a, b := [f(n - 1)] + Table(f, n, len), Table(f, n - 1, len + 1);
    forall c | 0 <= c < len + 1 ensures a[c] == b[c] {
      if c > 0 {
        assert a[c] == Table(f, n, len)[c - 1];
      }
    }
  }

  /** The dates of `len` days from day number `n` on. */
  function Run(n: int, len: nat): (s: seq<Ymd>)
    ensures |s| == len
  {
    Table(DateOf, n, len)
  }

  /** Six weeks from day number `n` on. */
  function Grid(n: int): (g: seq<seq<Ymd>>)
    ensures |g| == 6 && forall r :: 0 <= r < 6 ==> g[r] == Run(n + 7 * r, 7)
  {
    seq(6, r requires 0 <= r < 6 => Run(n + 7 * r, 7))
  }

  function First(year: int, month: int): int
    requires 1 <= month <= 12
  {
    DayNumber(Ymd(year, month, 1))
  }

  /** How many days of its week come before the first of the month. */
  function Lead(year: int, month: int, firstDay: int): (w: int)
    requires 1 <= month <= 12
    ensures 0 <= w < 7
  {
    (Weekday(First(year, month)) - firstDay) % 7
  }

  /** The day number of the upper left corner: the start of the week of the first of the month, or of the
      week before if the month starts a week. */
  function Corner(year: int, month: int, firstDay: int): int
    requires 1 <= month <= 12
  {
    var w := Lead(year, month, firstDay);
    First(year, month) - if w == 0 then 7 else w
  }

  /** The one month whose leading days the constructor's two-digit years spoil. */
  predicate Spoiled(year: int, month: int, firstDay: int)
    requires 1 <= month <= 12
  {
    year == 100 && month == 1 && Lead(year, month, firstDay) >= 2
  }

  /** That January starts on a Friday, so it is spoiled unless weeks start on Thursday or Friday. */
  lemma SpoiledIff(year: int, month: int, firstDay: int)
    requires year >= 100 && 1 <= month <= 12 && 0 <= firstDay <= 6
    ensures Spoiled(year, month, firstDay) <==> year == 100 && month == 1 && firstDay != 4 && firstDay != 5
  {
    hide DayFromYear, First, Weekday;
    if year == 100 && month == 1 {
      Friday(year, month);
      Behind(firstDay);
      assert Lead(year, month, firstDay) == (5 - firstDay) % 7;
    }
  }

  lemma Behind(firstDay: int)
    requires 0 <= firstDay <= 6
    ensures (5 - firstDay) % 7 >= 2 <==> firstDay != 4 && firstDay != 5
  {
  }

  lemma Friday(year: int, month: int)
    requires year == 100 && month == 1
    ensures Weekday(First(year, month)) == 5
  {
  }

  // ----- what the grid promises -----

  /** Consecutive days, each row starting on `firstDay`, at least one day of an earlier month first, and all
      days of the month. */
  lemma GridIsRight(year: int, month: int, firstDay: int)
    requires 1 <= month <= 12 && 0 <= firstDay <= 6
    ensures var n := Corner(year, month, firstDay); var g := Grid(n);
            && (forall r, c :: 0 <= r < 6 && 0 <= c < 7 ==> IsDate(g[r][c]) && DayNumber(g[r][c]) == n + 7 * r + c)
            && (forall r :: 0 <= r < 6 ==> Weekday(DayNumber(g[r][0])) == firstDay)
            && n < First(year, month)
            && (forall d :: 1 <= d <= MonthLength(year, month) ==> DayShown(year, month, n, d))
  {
    hide DayFromYear, MonthStart, First, Weekday, Grid, Run, DateOf, DayNumber, MonthLength, DayShown, IsDate, Lead;
    var n := Corner(year, month, firstDay);
    CornerWeekday(year, month, firstDay);
    forall r, c | 0 <= r < 6 && 0 <= c < 7
      ensures IsDate(Grid(n)[r][c]) && DayNumber(Grid(n)[r][c]) == n + 7 * r + c
    {
      GridAt(n, r, c);
    }
    forall r | 0 <= r < 6 ensures Weekday(DayNumber(Grid(n)[r][0])) == firstDay {
      GridAt(n, r, 0);
      WeekdayAt(n, r, 0);
    }
    forall d | 1 <= d <= MonthLength(year, month) ensures DayShown(year, month, n, d) {
      DayIsShown(year, month, n, d);
    }
  }

  /** Day `d` of the month stands in the grid from day number `n`, as many places on as days lie between. */
  predicate DayShown(year: int, month: int, n: int, d: int)
    requires 1 <= month <= 12
  {
    var k := First(year, month) - n + d - 1;
    0 <= k < 42 && Grid(n)[k / 7][k % 7] == Ymd(year, month, d)
  }

  lemma DayIsShown(year: int, month: int, n: int, d: int)
    requires 1 <= month <= 12 && First(year, month) - 7 <= n < First(year, month)
    requires 1 <= d <= MonthLength(year, month)
    ensures DayShown(year, month, n, d)
  {
    hide DayFromYear, MonthStart;
    var k := First(year, month) - n + d - 1;
    assert k == 7 * (k / 7) + k % 7;
    GridAt(n, k / 7, k % 7);
    OneDate(Ymd(year, month, d), DateOf(n + k));
  }

  lemma CornerWeekday(year: int, month: int, firstDay: int)
    requires 1 <= month <= 12 && 0 <= firstDay <= 6
    ensures Weekday(Corner(year, month, firstDay)) == firstDay
  {
    hide First;
    var w := Lead(year, month, firstDay);
    BackToStart(First(year, month), firstDay, w);
  }

  lemma BackToStart(n: int, firstDay: int, w: int)
    requires 0 <= firstDay <= 6 && w == (Weekday(n) - firstDay) % 7
    ensures Weekday(n - if w == 0 then 7 else w) == firstDay
  {
  }

  /** The Saturday and Sunday columns: `_33` and `_34`. */
  method WeekendColumns(firstDay: int) returns (saturday: int, sunday: int)
    requires 0 <= firstDay <= 6
    ensures IsColumn(saturday, firstDay, 6) && IsColumn(sunday, firstDay, 0)
  {
    saturday := 6 - firstDay;
    sunday := saturday + 1;
    if saturday >= 7 {
      saturday := saturday - 7;
    }
    if sunday >= 7 {
      sunday := sunday - 7;
    }
  }

  predicate IsColumn(c: int, firstDay: int, weekday: int) {
    0 <= c < 7 && (firstDay + c) % 7 == weekday
  }

  /** In a grid that starts on `firstDay` such a column has just the days of that weekday. */
  lemma ColumnOfWeekday(n: int, firstDay: int, column: int, weekday: int)
    requires 0 <= firstDay <= 6 && Weekday(n) == firstDay && IsColumn(column, firstDay, weekday)
    ensures forall r, c :: 0 <= r < 6 && 0 <= c < 7 ==>
              (Weekday(DayNumber(Grid(n)[r][c])) == weekday <==> c == column)
  {
    hide DayFromYear, MonthStart, Weekday, Grid, DateOf, DayNumber, IsColumn;
    forall r, c | 0 <= r < 6 && 0 <= c < 7
      ensures Weekday(DayNumber(Grid(n)[r][c])) == weekday <==> c == column
    {
      GridAt(n, r, c);
      WeekdayAt(n, r, c);
      OneColumn(firstDay, c, column, weekday);
    }
  }

  lemma OneColumn(firstDay: int, c: int, column: int, weekday: int)
    requires 0 <= c < 7 && IsColumn(column, firstDay, weekday)
    ensures (firstDay + c) % 7 == weekday <==> c == column
  {
  }

  lemma GridAt(n: int, r: int, c: int)
    requires 0 <= r < 6 && 0 <= c < 7
    ensures |Grid(n)[r]| == 7 && Grid(n)[r][c] == DateOf(n + 7 * r + c)
    ensures IsDate(Grid(n)[r][c]) && DayNumber(Grid(n)[r][c]) == n + 7 * r + c
  {
    hide DayFromYear, MonthStart;
  }

  lemma WeekdayAt(n: int, r: int, c: int)
    ensures Weekday(n + 7 * r + c) == (Weekday(n) + c) % 7
  {
  }

  /** The function `_20`. Beyond the range of dates it finds no day to list and fails on the missing row. */
  method Weeks(year: int, month: int, firstDay: int) returns (result: Option<seq<seq<Ymd>>>)
    requires year >= 100 && 1 <= month <= 12 && 0 <= firstDay <= 6
    ensures result.Some? <==> InTime(year, month)
    ensures result.Some? ==> |result.value| == 6 && forall r :: 0 <= r < 6 ==> |result.value[r]| == 7
    ensures result == Some(Grid(Corner(year, month, firstDay)))
            <==> InTime(year, month) && !Spoiled(year, month, firstDay)
    ensures result.Some? ==> result.value[1..] == Grid(Corner(year, month, firstDay))[1..]
  {
    hide DayFromYear, MonthStart, MonthRow, AllChunks, DateOf, DayNumber, Run, Corner, Lead, First, Weekday, InTime;
    EndOfTime(year, month);
    var weeks := Chunks(year, month, firstDay);
    if |weeks| == 0 {
      return None;
    }
    LastCorner(year, month, firstDay);
    ghost var chunks, n := weeks, Corner(year, month, firstDay);
    FirstChunk(year, month, firstDay, weeks);
    weeks := FillFront(year, month, firstDay, weeks);
    ghost var filled := weeks;
    RowsInPlace(year, month, firstDay, chunks, filled);
    weeks := FillBack(year, month, firstDay, weeks);
    assert forall r :: 0 <= r < |filled| - 1 ==> weeks[r] == weeks[..|filled| - 1][r] == filled[r];
    assert forall r :: 1 <= r < 6 ==> weeks[r] == Grid(n)[r];
    assert weeks[0] == Grid(n)[0] <==> !Spoiled(year, month, firstDay);
    assert weeks == Grid(n) <==> weeks[0] == Grid(n)[0];
    result := Some(weeks);
  }

  lemma FirstChunk(year: int, month: int, firstDay: int, weeks: seq<seq<Ymd>>)
    requires 1 <= month <= 12
    requires AllChunks(First(year, month), Lead(year, month, firstDay), MonthLength(year, month), weeks)
    ensures |weeks| > 0 && weeks[0] == Run(First(year, month), 7 - Lead(year, month, firstDay))
  {
    hide First, Lead, Run;
  }

  /** After the front is filled, every later row is the part of its week that lies in the month. */
  lemma RowsInPlace(year: int, month: int, firstDay: int, chunks: seq<seq<Ymd>>, filled: seq<seq<Ymd>>)
    requires 1 <= month <= 12 && |filled| > 0
    requires AllChunks(First(year, month), Lead(year, month, firstDay), MonthLength(year, month), chunks)
    requires filled[1..] == if Lead(year, month, firstDay) == 0 then chunks else chunks[1..]
    ensures 5 <= |filled| <= 6
    ensures forall r :: 1 <= r < |filled| ==>
              && 0 < |filled[r]| <= 7 && (r < |filled| - 1 ==> |filled[r]| == 7)
              && filled[r] == Run(Corner(year, month, firstDay) + 7 * r, |filled[r]|)
  {
    hide First, Lead, Run, MonthRow, Corner;
    var w := Lead(year, month, firstDay);
    var skip := if w == 0 then 1 else 0;
    forall r | 1 <= r < |filled|
      ensures 0 < |filled[r]| <= 7 && filled[r] == Run(Corner(year, month, firstDay) + 7 * r, |filled[r]|)
      ensures r < |filled| - 1 ==> |filled[r]| == 7
    {
      assert filled[1..][r - 1] == filled[r] == chunks[r - skip];
      var last := w + MonthLength(year, month) - 7 * (|chunks| - 1);
      MonthRowPlace(year, month, firstDay, r - skip,
                    if r - skip == 0 then 7 else if r - skip == |chunks| - 1 then last else 7);
    }
  }

  /** Where the grid lies. */
  lemma LastCorner(year: int, month: int, firstDay: int)
    requires year >= 100 && 1 <= month <= 12
    ensures First(year, month) - 7 <= Corner(year, month, firstDay) < First(year, month)
    ensures First(year, month) >= DayFromYear(100) && DayFromYear(100) > 10 - LAST_DAY
    ensures DayNumber(Ymd(year, month, MonthLength(year, month))) == First(year, month) + MonthLength(year, month) - 1
  {
    hide MonthStart, Lead;
    MonthsAfter(year, month);
    assert DayFromYear(100) == -683003;
  }

  /** Where the weeks of the month go: one row lower if the month starts a week. */
  lemma MonthRowPlace(year: int, month: int, firstDay: int, r: nat, len: nat)
    requires 1 <= month <= 12 && (r == 0 ==> Lead(year, month, firstDay) == 0)
    ensures var w := Lead(year, month, firstDay); var row := MonthRow(First(year, month), w, r, len);
            |row| == len && row == Run(Corner(year, month, firstDay) + 7 * (if w == 0 then r + 1 else r), len)
  {
    hide First, Lead, Run;
  }

  // ----- the rows of the month itself -----

  /** The part of week `r` that belongs to a month whose first day is day `first`, with `w` days of week 0
      before it. */
  function MonthRow(first: int, w: int, r: nat, len: nat): seq<Ymd> {
    if r == 0 then Run(first, len) else Run(first - w + 7 * r, len)
  }

  /** The weeks that the first `i` days of the month fill, and the days of the week that they start. */
  predicate Chunked(first: int, w: int, weeks: seq<seq<Ymd>>, week: seq<Ymd>, i: nat) {
    && 0 <= w < 7 && |weeks| == (w + i) / 7
    && (forall r :: 0 <= r < |weeks| ==> weeks[r] == MonthRow(first, w, r, if r == 0 then 7 - w else 7))
    && week == MonthRow(first, w, |weeks|, if weeks == [] then i else (w + i) % 7)
  }

  /** One more day: it ends its week, or not. */
  lemma Extended(first: int, w: int, weeks: seq<seq<Ymd>>, week: seq<Ymd>, i: nat)
    requires Chunked(first, w, weeks, week, i)
    ensures var more := week + [DateOf(first + i)];
            if (w + i + 1) % 7 == 0 then Chunked(first, w, weeks + [more], [], i + 1)
            else Chunked(first, w, weeks, more, i + 1)
  {
    hide DateOf, Table;
    NextDay(w + i);
    var len := if weeks == [] then i else (w + i) % 7;
    TableNext(DateOf, if weeks == [] then first else first - w + 7 * |weeks|, len);
    EmptyRow(first, w, |weeks| + 1);
  }

  /** A day ends its week iff it falls on the weekday before `firstDay`. */
  lemma EndsWeek(year: int, month: int, firstDay: int, i: nat)
    requires 1 <= month <= 12 && 0 <= firstDay <= 6
    ensures Weekday(First(year, month) + i) == (if firstDay == 0 then 7 else firstDay) - 1
            <==> (Lead(year, month, firstDay) + i + 1) % 7 == 0
  {
    hide First;
    WeekdayAt(First(year, month), 0, i);
  }

  lemma NextDay(x: nat)
    ensures if (x + 1) % 7 == 0 then (x + 1) / 7 == x / 7 + 1 && x % 7 == 6
            else (x + 1) / 7 == x / 7 && (x + 1) % 7 == x % 7 + 1
  {
  }

  lemma EmptyRow(first: int, w: int, r: nat)
    ensures MonthRow(first, w, r, 0) == []
  {
  }

  /** The loop that cuts the days of the month into weeks. */
  method Chunks(year: int, month: int, firstDay: int) returns (weeks: seq<seq<Ymd>>)
    requires year >= 100 && 1 <= month <= 12 && 0 <= firstDay <= 6
    ensures if DayNumber(Ymd(year, month, MonthLength(year, month))) <= LAST_DAY
            then weeks != [] && AllChunks(First(year, month), Lead(year, month, firstDay), MonthLength(year, month), weeks)
            else weeks == []
  {
    hide DayFromYear, MonthStart, DateOf, Run, MonthRow, Weekday, Lead, First, DayNumber;
    LastDay(year, month);
    LastCorner(year, month, firstDay);
    if !IsTime(ConstructorDay(year, month, 0)) {
      return [];
    }
    OneDate(Ymd(year, month, MonthLength(year, month)), NewDate(year, month, 0));
    var length := NewDate(year, month, 0).day;
    var days: seq<Ymd> := [];
    for i := 0 to length
      invariant |days| == i && forall k :: 0 <= k < i ==> days[k] == Ymd(year, month, k + 1)
    {
      days := days + [Ymd(year, month, i + 1)];
    }
    weeks := [];
    var week: seq<Ymd> := [];
    var last := -1;
    ghost var first, w := First(year, month), Lead(year, month, firstDay);
    EmptyRow(first, w, 0);
    while |days| > 0
      invariant |days| <= length
      invariant forall k :: 0 <= k < |days| ==> days[k] == Ymd(year, month, length - |days| + k + 1)
      invariant Chunked(first, w, weeks, week, length - |days|)
      invariant last == if |days| == length then -1 else Weekday(first + length - |days| - 1)
    {
      ghost var i := length - |days|;
      var d := days[0];
      days := days[1..];
      DayInMonth(year, month, i + 1);
      assert IsTime(ConstructorDay(d.year, d.month - 1, d.day));
      var day := Weekday(ConstructorDay(d.year, d.month - 1, d.day));
      EndsWeek(year, month, firstDay, i);
      Extended(first, w, weeks, week, i);
      week := week + [d];
      WeekdaysDiffer(first + i);
      if last == day {
        day := 0;
      } else if day == (if firstDay == 0 then 7 else firstDay) - 1 {
        weeks, week := weeks + [week], [];
      }
      last := day;
    }
    LastRow(first, w, weeks, week, length);
    if |week| > 0 {
      weeks := weeks + [week];
    }
  }

  /** All weeks of a month of `length` days. */
  predicate AllChunks(first: int, w: int, length: int, weeks: seq<seq<Ymd>>) {
    && |weeks| == (w + length + 6) / 7
    && forall r :: 0 <= r < |weeks| ==>
         weeks[r] == MonthRow(first, w, r,
                              if r == 0 then Floored(7 - w) else if r == |weeks| - 1 then Floored(w + length - 7 * r) else 7)
  }

  function Floored(n: int): nat {
    if n < 0 then 0 else n
  }

  lemma WeekdaysDiffer(n: int)
    ensures Weekday(n - 1) != Weekday(n) && Weekday(n) != -1
  {
  }

  /** The days of a month count on from its first. */
  lemma DayInMonth(year: int, month: int, day: int)
    requires year >= 100 && 1 <= month <= 12 && 1 <= day <= MonthLength(year, month)
    ensures ConstructorDay(year, month - 1, day) == First(year, month) + day - 1
    ensures DateOf(First(year, month) + day - 1) == Ymd(year, month, day)
  {
    hide DayFromYear, MonthStart, DateOf, MonthLength;
    MonthIndex(month);
    OneDate(Ymd(year, month, day), DateOf(First(year, month) + day - 1));
  }

  lemma LastRow(first: int, w: int, weeks: seq<seq<Ymd>>, week: seq<Ymd>, length: nat)
    requires 28 <= length && Chunked(first, w, weeks, week, length)
    ensures AllChunks(first, w, length, if |week| > 0 then weeks + [week] else weeks)
  {
    hide DateOf, Run;
  }

  // ----- filling up -----

  /** The row before the month, or the missing front of its first row. */
  method FillFront(year: int, month: int, firstDay: int, weeks: seq<seq<Ymd>>) returns (out: seq<seq<Ymd>>)
    requires year >= 100 && 1 <= month <= 12 && 0 <= firstDay <= 6 && First(year, month) <= LAST_DAY
    requires |weeks| > 0 && weeks[0] == Run(First(year, month), 7 - Lead(year, month, firstDay))
    ensures |out| > 0 && |out[0]| == 7
    ensures out[1..] == if Lead(year, month, firstDay) == 0 then weeks else weeks[1..]
    ensures out[0] == Run(Corner(year, month, firstDay), 7) <==> !Spoiled(year, month, firstDay)
  {
    hide DayFromYear, MonthStart, DateOf, Table, Lead, First, DayNumber;
    LastCorner(year, month, firstDay);
    FirstNumber(year, month);
    var row := weeks[0];
    FirstOfRun(First(year, month), 7 - Lead(year, month, firstDay));
    DayInMonth(year, month, 1);
    if |row| < 7 {
      row := Unshift(year, month, row);
      return weeks[0 := row];
    } else {
      var head := row[0];
      row := [];
      for i := 1 to 8
        invariant row == Run(First(year, month) - i + 1, i - 1)
      {
        CountOn(Ymd(year, month, 1), -i);
        TableBefore(DateOf, First(year, month) - i + 1, i - 1);
        row := [NewDate(head.year, head.month - 1, head.day - i)] + row;
      }
      return [row] + weeks;
    }
  }

  lemma FirstNumber(year: int, month: int)
    requires 1 <= month <= 12
    ensures IsDate(Ymd(year, month, 1)) && DayNumber(Ymd(year, month, 1)) == First(year, month)
  {
  }

  lemma FirstOfRun(n: int, len: nat)
    ensures len > 0 ==> Run(n, len)[0] == DateOf(n)
    ensures Run(n, 0) == []
  {
    hide DateOf;
  }

  /** The loop that puts the days before the month into its first row, each found from the one after it. */
  method Unshift(year: int, month: int, part: seq<Ymd>) returns (row: seq<Ymd>)
    requires year >= 100 && 1 <= month <= 12 && First(year, month) <= LAST_DAY
    requires 0 < |part| < 7 && part == Run(First(year, month), |part|)
    ensures |row| == 7
    ensures row == Run(First(year, month) - (7 - |part|), 7) <==> !(year == 100 && month == 1 && |part| <= 5)
  {
    hide DayFromYear, MonthStart, DateOf, Table, First, DayNumber;
    LastCorner(year, month, 0);
    FirstNumber(year, month);
    row := part;
    ghost var n := First(year, month);
    FirstOfRun(n, |part|);
    while |row| < 7
      invariant |part| <= |row| <= 7
      invariant year == 100 && month == 1 && |row| - |part| >= 2 ==>
                  row[|row| - |part| - 2].year == 1999 && row[0] == DateOf(NEARLY_2000 - (|row| - |part| - 2))
      invariant !(year == 100 && month == 1 && |row| - |part| >= 2) ==> row == Run(n - (|row| - |part|), |row|)
    {
      ghost var u := |row| - |part|;
      var head := row[0];
      if year == 100 && month == 1 && u >= 1 {
        NinetyNine();
        if u == 1 {
          FirstOfRun(n - 1, |row|);
        } else {
          Nineties(u - 2);
          CountOn(head, -1);
        }
      } else {
        FirstOfRun(n - u, |row|);
        MonthsAfter(year, month);
        if u == 0 {
          DayInMonth(year, month, 1);
        } else {
          LateYear(n - u, 100);
        }
        CountOn(head, -1);
        TableBefore(DateOf, n - u, |row|);
      }
      row := [NewDate(head.year, head.month - 1, head.day - 1)] + row;
    }
    if year == 100 && month == 1 && |part| <= 5 {
      NinetyNine();
      RunAt(n - (7 - |part|), 7, 5 - |part|);
    }
  }

  lemma RunAt(n: int, len: nat, c: nat)
    requires c < len
    ensures Run(n, len)[c] == DateOf(n + c)
  {
    hide DateOf;
  }

  /** Around the start of the year 100: the constructor takes 99 for 1999. */
  lemma NinetyNine()
    ensures First(100, 1) == DayFromYear(100)
    ensures DateOf(First(100, 1) - 1) == Ymd(99, 12, 31) && DateOf(First(100, 1) - 2) == Ymd(99, 12, 30)
    ensures ConstructorDay(99, 11, 30) == NEARLY_2000 && DateOf(NEARLY_2000) == Ymd(1999, 12, 30)
  {
    hide DayFromYear, DateOf, MonthStart;
    assert MonthStart(100, 1) == 0 by { MonthZero(100); }
    NextYear(99);
    YearEnd(99);
    OneDate(Ymd(99, 12, 31), DateOf(First(100, 1) - 1));
    OneDate(Ymd(99, 12, 30), DateOf(First(100, 1) - 2));
    assert DayNumber(Ymd(1999, 12, 30)) == NEARLY_2000 by { Nearly2000(); }
    OneDate(Ymd(1999, 12, 30), DateOf(NEARLY_2000));
  }

  /** The number of the day before New Year's Eve of 1999. */
  const NEARLY_2000 := 10955

  lemma Nearly2000()
    ensures DayNumber(Ymd(1999, 12, 30)) == NEARLY_2000
  {
    YearEnd(1999);
    assert DayFromYear(1999) == 10592;
  }

  lemma Nineties(u: nat)
    requires u <= 6
    ensures DateOf(NEARLY_2000 - u).year >= 100 && IsDate(DateOf(NEARLY_2000 - u))
    ensures DayNumber(DateOf(NEARLY_2000 - u)) == NEARLY_2000 - u
  {
    assert DayFromYear(100) == -683003;
    LateYear(NEARLY_2000 - u, 100);
  }

  lemma MonthZero(y: int)
    ensures MonthStart(y, 1) == 0
  {
  }

  lemma MonthsAfter(year: int, month: int)
    requires year >= 100 && 1 <= month <= 12
    ensures First(year, month) >= DayFromYear(100) + (if year == 100 && month == 1 then 0 else 31)
  {
    hide DayFromYear;
    YearsRise(100, year);
    if month > 1 {
      MonthsRise(year, 1, month);
    }
  }

  /** The missing end of the last row, and one more row if there are only five. */
  method FillBack(year: int, month: int, firstDay: int, weeks: seq<seq<Ymd>>) returns (out: seq<seq<Ymd>>)
    requires year >= 100 && 1 <= month <= 12 && 5 <= |weeks| <= 6
    requires Corner(year, month, firstDay) + 41 <= LAST_DAY
    requires var last := weeks[|weeks| - 1];
             0 < |last| <= 7 && last == Run(Corner(year, month, firstDay) + 7 * (|weeks| - 1), |last|)
    ensures |out| == 6 && out[..|weeks| - 1] == weeks[..|weeks| - 1]
    ensures forall r :: |weeks| - 1 <= r < 6 ==> out[r] == Run(Corner(year, month, firstDay) + 7 * r, 7)
  {
    hide DayFromYear, MonthStart, DateOf, Table, Corner, First, DayNumber;
    LastCorner(year, month, firstDay);
    var last := weeks[|weeks| - 1];
    ghost var n := Corner(year, month, firstDay) + 7 * (|weeks| - 1);
    AfterFirst(year, month, firstDay);
    while |last| < 7
      invariant 0 < |last| <= 7 && last == Run(n, |last|)
    {
      var tail := last[|last| - 1];
      RunAt(n, |last|, |last| - 1);
      LateYear(n + |last| - 1, 100);
      CountOn(tail, 1);
      TableNext(DateOf, n, |last|);
      last := last + [NewDate(tail.year, tail.month - 1, tail.day + 1)];
    }
    out := weeks[|weeks| - 1 := last];
    if |out| < 6 {
      var tail := last[|last| - 1];
      RunAt(n, 7, 6);
      LateYear(n + 6, 100);
      var row: seq<Ymd> := [];
      FirstOfRun(n + 7, 0);
      for i := 1 to 8
        invariant row == Run(n + 7, i - 1)
      {
        CountOn(tail, i);
        TableNext(DateOf, n + 7, i - 1);
        row := row + [NewDate(tail.year, tail.month - 1, tail.day + i)];
      }
      out := out + [row];
    }
  }

  lemma AfterFirst(year: int, month: int, firstDay: int)
    requires year >= 100 && 1 <= month <= 12
    ensures Corner(year, month, firstDay) + 7 >= DayFromYear(100)
  {
    MonthsAfter(year, month);
  }
}

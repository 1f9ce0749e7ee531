/**
 Days since 1970-01-01 and dates of the proleptic Gregorian calendar (ISO 8601:2004 section 3.2.1),
 as `src/db/partition.rs` converts between them.
 */
module Civil {

  datatype Date = Date(year: int, month: nat, day: nat)

  // ------------------------------------------------------------------ the calendar

  predicate Leap(y: int)
  {
    y % 4 == 0 && (y % 100 != 0 || y % 400 == 0)
  }

  function DaysInMonth(y: int, m: nat): nat
  {
    if m == 2 then (if Leap(y) then 29 else 28)
    else if m in {4, 6, 9, 11} then 30
    else 31
  }

  predicate Valid(d: Date)
  {
    1 <= d.month <= 12 && 1 <= d.day <= DaysInMonth(d.year, d.month)
  }

  function NextDay(d: Date): (n: Date)
    requires Valid(d)
    ensures Valid(n)
  {
    if d.day < DaysInMonth(d.year, d.month) then d.(day := d.day + 1)
    else if d.month < 12 then Date(d.year, d.month + 1, 1)
    else Date(d.year + 1, 1, 1)
  }

  predicate Before(a: Date, b: Date)
  {
    a.year < b.year || (a.year == b.year && (a.month < b.month || (a.month == b.month && a.day < b.day)))
  }

  // ------------------------------------------------------------------ the conversions

  /** Division that truncates toward zero, as the source's does. */
  function TruncDiv(a: int, b: int): int
    requires b > 0
  {
    if a >= 0 then a / b else -(-a / b)
  }

  function Era(y: int, size: int): int
    requires size > 0
  {
    TruncDiv(if y >= 0 then y else y - (size - 1), size)
  }

  /** For the two period lengths used, this is division rounding down. */
  lemma EraIsFloor(x: int)
    ensures Era(x, 400) == x / 400 && Era(x, 146_097) == x / 146_097
  {
  }

  /** Days before the year `yoe` of an era that starts in March. */
  function YearStart(yoe: int): int
  {
    yoe * 365 + yoe / 4 - yoe / 100
  }

  /** Days before the month `mp`, counted from March, of such a year. */
  function MonthStart(mp: int): int
  {
    (153 * mp + 2) / 5
  }

  function DaysFromCivil(y: int, m: nat, d: nat): int
  {
    var y' := if m <= 2 then y - 1 else y;
    var era := Era(y', 400);
    var yoe := y' - era * 400;
    var doy := MonthStart(if m > 2 then m - 3 else m + 9) + d - 1;
    var doe := yoe * 365 + yoe / 4 - yoe / 100 + doy;
    era * 146_097 + doe - 719_468
  }

  /** Month and day from the day of a year that starts in March. */
  function InYear(y: int, doy: int): (int, int, int)
  {
    var mp := (5 * doy + 2) / 153;
    var m := if mp < 10 then mp + 3 else mp - 9;
    (if m <= 2 then y + 1 else y, m, doy - MonthStart(mp) + 1)
  }

  function FoundYearOfEra(doe: int): int
  {
    (doe - doe / 1460 + doe / 36_524 - doe / 146_096) / 365
  }

  function CivilFromDays(z: int): (int, int, int)
  {
    var z' := z + 719_468;
    var era := Era(z', 146_097);
    var doe := z' - era * 146_097;
    var yoe := FoundYearOfEra(doe);
    InYear(yoe + era * 400, doe - (365 * yoe + yoe / 4 - yoe / 100))
  }

  // ------------------------------------------------------------------ within an era

  /** A day of the era as century, four-year cycle within it, and day within that. */
  lemma SplitDay(doe: int) returns (c: int, q: int, s: int)
    requires 0 <= doe < 146_097
    ensures 0 <= c <= 3 && 0 <= q <= 24 && 0 <= s <= 1460 && doe == 36_524 * c + 1461 * q + s
    ensures q == 24 && s == 1460 ==> c == 3
  {
    c := if doe == 146_096 then 3 else doe / 36_524;
    q := (doe - 36_524 * c) / 1461;
    s := doe - 36_524 * c - 1461 * q;
  }

  lemma Quotients(doe: int, c: int, q: int, s: int)
    requires 0 <= c <= 3 && 0 <= q <= 24 && 0 <= s <= 1460 && doe == 36_524 * c + 1461 * q + s
    requires q == 24 && s == 1460 ==> c == 3
    ensures doe / 1460 == 25 * c + q + (if 24 * c + q + s >= 1460 then 1 else 0)
    ensures doe / 36_524 - doe / 146_096 == c
  {
    var e := if 24 * c + q + s >= 1460 then 1 else 0;
    assert doe == 1460 * (25 * c + q + e) + (24 * c + q + s - 1460 * e);
  }

  function YearOf(c: int, q: int, s: int): int
  {
    100 * c + 4 * q + (if s == 1460 then 3 else s / 365)
  }

  lemma FoundYear(doe: int, c: int, q: int, s: int)
    requires 0 <= c <= 3 && 0 <= q <= 24 && 0 <= s <= 1460 && doe == 36_524 * c + 1461 * q + s
    requires q == 24 && s == 1460 ==> c == 3
    ensures (doe - doe / 1460 + doe / 36_524 - doe / 146_096) / 365 == YearOf(c, q, s)
  {
    Quotients(doe, c, q, s);
    var e := if 24 * c + q + s >= 1460 then 1 else 0;
    assert doe - doe / 1460 + doe / 36_524 - doe / 146_096 == 365 * (100 * c + 4 * q) + (s - e);
  }

  lemma YearStarts(c: int, q: int, j: int)
    requires 0 <= c <= 3 && 0 <= q <= 24 && 0 <= j <= 3
    ensures YearStart(100 * c + 4 * q + j) == 36_524 * c + 1461 * q + 365 * j
  {
    var y := 100 * c + 4 * q + j;
    assert y / 4 == 25 * c + q;
    assert y / 100 == c;
  }

  /** The year of the era found for a day of the era: the day lies in it. */
  lemma YearOfEra(doe: int)
    requires 0 <= doe < 146_097
    ensures var yoe := FoundYearOfEra(doe);
            0 <= yoe < 400 && YearStart(yoe) <= doe && (doe < YearStart(yoe + 1) || (yoe == 399 && doe == 146_096))
  {
    var c, q, s := SplitDay(doe);
    FoundYear(doe, c, q, s);
    var j := if s == 1460 then 3 else s / 365;
    YearStarts(c, q, j);
    if j < 3 {
      YearStarts(c, q, j + 1);
    } else if q < 24 {
      YearStarts(c, q + 1, 0);
    } else if c < 3 {
      YearStarts(c + 1, 0, 0);
    } else {
      assert YearStart(400) == 146_096;
    }
  }

  lemma MonthOfYear(doy: int)
    requires 0 <= doy < 366
    ensures var mp := (5 * doy + 2) / 153; 0 <= mp < 12 && MonthStart(mp) <= doy < MonthStart(mp + 1)
  {
  }

  // ------------------------------------------------------------------ a closed form

  /** The year that starts in March and holds month `m` of year `y`. */
  function MarchYear(y: int, m: nat): int
  {
    if m <= 2 then y - 1 else y
  }

  function MarchMonth(m: nat): int
  {
    if m > 2 then m - 3 else m + 9
  }

  /** Days before a year that starts in March. */
  function YearDays(y: int): int
  {
    365 * y + y / 4 - y / 100 + y / 400
  }

  lemma DaysClosedForm(y: int, m: nat, d: nat)
    ensures DaysFromCivil(y, m, d) == YearDays(MarchYear(y, m)) + MonthStart(MarchMonth(m)) + d - 1 - 719_468
  {
    var y' := MarchYear(y, m);
    EraIsFloor(y');
    EraDays(y');
  }

  lemma EraDays(y: int)
    ensures var yoe := y - y / 400 * 400; y / 400 * 146_097 + YearStart(yoe) == YearDays(y) && 0 <= yoe < 400
  {
    var era, yoe := y / 400, y % 400;
    assert y == 400 * era + yoe;
    assert y / 4 == 100 * era + yoe / 4;
    assert y / 100 == 4 * era + yoe / 100;
  }

  lemma YearLength(y: int)
    ensures YearDays(y + 1) - YearDays(y) == if Leap(y + 1) then 366 else 365
  {
    assert (y + 1) / 4 - y / 4 == if (y + 1) % 4 == 0 then 1 else 0;
    assert (y + 1) / 100 - y / 100 == if (y + 1) % 100 == 0 then 1 else 0;
    assert (y + 1) / 400 - y / 400 == if (y + 1) % 400 == 0 then 1 else 0;
    assert (y + 1) % 400 == 0 ==> (y + 1) % 100 == 0;
    assert (y + 1) % 100 == 0 ==> (y + 1) % 4 == 0;
  }

  lemma YearsApart(a: int, b: int)
    requires a < b
    ensures YearDays(a) + 365 * (b - a) <= YearDays(b)
    ensures YearDays(a + 1) <= YearDays(b)
  {
    YearsApartAtLeast(a, b);
    if a + 1 < b { YearsApartAtLeast(a + 1, b); }
  }

  lemma YearsApartAtLeast(a: int, b: int)
    requires a < b
    ensures YearDays(a) + 365 * (b - a) <= YearDays(b)
  {
    assert b / 4 - b / 100 >= a / 4 - a / 100;
    assert b / 400 >= a / 400;
  }

  /** In each month the next one starts after its last day; February ends the year. */
  lemma MonthLength(y: int, m: nat)
    requires 1 <= m <= 12
    ensures m != 2 ==>
            MonthStart(MarchMonth(m)) + DaysInMonth(y, m) == MonthStart(MarchMonth(m) + 1) && 0 <= MarchMonth(m) < 11
    ensures m == 2 ==> MonthStart(MarchMonth(m)) + DaysInMonth(y, m) == YearDays(y) - YearDays(y - 1)
  {
    YearLength(y - 1);
  }

  lemma MonthStartMono(a: int, b: int)
    requires a <= b
    ensures MonthStart(a) <= MonthStart(b)
  {
  }

  /** A valid day lies inside its year. */
  lemma DayInYear(d: Date)
    requires Valid(d)
    ensures var y := MarchYear(d.year, d.month);
            0 <= MonthStart(MarchMonth(d.month)) + d.day - 1 < YearDays(y + 1) - YearDays(y)
  {
    MonthLength(d.year, d.month);
    YearLength(MarchYear(d.year, d.month));
    if d.month != 2 {
      MonthStartMono(MarchMonth(d.month) + 1, 11);
    }
  }

  // ------------------------------------------------------------------ the theorems

  function Days(d: Date): int
  {
    DaysFromCivil(d.year, d.month, d.day)
  }

  lemma EpochIsZero()
    ensures Days(Date(1970, 1, 1)) == 0
  {
  }

  /** The day after a date has the next number: together with the epoch, this fixes every number. */
  lemma NextDayIsNext(d: Date)
    requires Valid(d)
    ensures Days(NextDay(d)) == Days(d) + 1
  {
    var n := NextDay(d);
    DaysClosedForm(d.year, d.month, d.day);
    DaysClosedForm(n.year, n.month, n.day);
    MonthLength(d.year, d.month);
    assert n.month == d.month || (n.month == 3 && d.month == 2) || MarchMonth(n.month) == MarchMonth(d.month) + 1;
    hide DaysFromCivil, YearDays, DaysInMonth, MonthStart;
    assert MonthStart(0) == 0 by { MarchStarts(); }
  }

  lemma MarchStarts()
    ensures MonthStart(0) == 0
  {
  }

  /** Later dates have larger numbers. */
  lemma DaysMonotone(a: Date, b: Date)
    requires Valid(a) && Valid(b) && Before(a, b)
    ensures Days(a) < Days(b)
  {
    DaysClosedForm(a.year, a.month, a.day);
    DaysClosedForm(b.year, b.month, b.day);
    DayInYear(a);
    DayInYear(b);
    var y, y' := MarchYear(a.year, a.month), MarchYear(b.year, b.month);
    hide DaysFromCivil, YearDays, DaysInMonth;
    if y < y' {
      YearsApart(y, y');
    } else if MarchMonth(a.month) < MarchMonth(b.month) {
      MonthLength(a.year, a.month);
      MonthStartMono(MarchMonth(a.month) + 1, MarchMonth(b.month));
    }
  }

  /** What `civil_from_days` returns, as a date. */
  function DateOf(z: int): (d: Date)
    ensures Valid(d) && Days(d) == z
  {
    FoundDate(z);
    var (y, m, d) := CivilFromDays(z);
    Date(y, m, d)
  }

  lemma CivilUnfolds(z: int)
    ensures var era := (z + 719_468) / 146_097;
            var doe := z + 719_468 - era * 146_097;
            var yoe := FoundYearOfEra(doe);
            0 <= doe < 146_097 && CivilFromDays(z) == InYear(yoe + era * 400, doe - YearStart(yoe))
  {
    EraIsFloor(z + 719_468);
    hide Era, InYear, FoundYearOfEra;
  }

  /** The year and the day in it that `civil_from_days` finds. */
  lemma FoundYearDay(z: int) returns (y: int, doy: int)
    ensures z + 719_468 == YearDays(y) + doy && 0 <= doy < YearDays(y + 1) - YearDays(y) <= 366
    ensures CivilFromDays(z) == InYear(y, doy)
  {
    CivilUnfolds(z);
    hide *;
    var era := (z + 719_468) / 146_097;
    var doe := z + 719_468 - era * 146_097;
    var yoe := FoundYearOfEra(doe);
    YearOfEra(doe);
    y, doy := yoe + era * 400, doe - YearStart(yoe);
    YearInEra(era, yoe);
    YearLength(y);
  }

  lemma YearInEra(era: int, yoe: int)
    requires 0 <= yoe < 400
    ensures YearDays(yoe + era * 400) == era * 146_097 + YearStart(yoe)
    ensures YearDays(yoe + era * 400 + 1) == era * 146_097 + (if yoe == 399 then 146_097 else YearStart(yoe + 1))
  {
    var y := yoe + era * 400;
    EraDays(y);
    EraDays(y + 1);
    if yoe == 399 { assert (y + 1) / 400 == era + 1; } else { assert (y + 1) / 400 == era; }
    assert y / 400 == era;
    hide YearDays;
  }

  /** The steps of `civil_from_days`, each in its range. */
  lemma FoundDate(z: int)
    ensures var (y, m, d) := CivilFromDays(z);
            1 <= m <= 12 && d >= 1 && Valid(Date(y, m, d)) && DaysFromCivil(y, m, d) == z
  {
    var y, doy := FoundYearDay(z);
    hide CivilFromDays;
    MonthOfYear(doy);
    var (year, m, d) := InYear(y, doy);
    assert MarchYear(year, m) == y && MarchMonth(m) == (5 * doy + 2) / 153;
    MonthLength(year, m);
    DaysClosedForm(year, m, d);
    hide DaysFromCivil, YearDays, MonthStart;
  }

  /** Converting a date to its number and back gives the date, for every valid date of any year. */
  lemma DateOfDays(d: Date)
    requires Valid(d)
    ensures DateOf(Days(d)) == d
  {
    var e := DateOf(Days(d));
    hide DateOf, Days;
    if Before(e, d) { DaysMonotone(e, d); }
    else if Before(d, e) { DaysMonotone(d, e); }
  }
}

/** Time partitions (`src/db/partition.rs`): names printed from dates and read back as periods. */
module Partition {
  import opened Basics
  import opened Civil
  import opened Schema

  const SECONDS_PER_DAY := 86_400
  const I64_MAX: nat := 0x7FFF_FFFF_FFFF_FFFF
  const U32_MAX: nat := 0xFFFF_FFFF

  datatype By = ByDay | ByMonth | Custom(name: Record -> string)

  // ------------------------------------------------------------------ printing and reading numbers

  predicate IsDigit(c: char)
  {
    '0' <= c <= '9'
  }

  function Digit(n: nat): (c: char)
    requires n < 10
    ensures IsDigit(c)
  {
    '0' + n as char
  }

  function Digits(n: nat): (s: string)
    ensures s != [] && forall i :: 0 <= i < |s| ==> IsDigit(s[i])
  {
    if n < 10 then [Digit(n)] else Digits(n / 10) + [Digit(n % 10)]
  }

  /** Left-padded with zeros to at least `width` characters. */
  function Padded(width: nat, s: string): string
    decreases width - |s|
  {
    if |s| >= width then s else Padded(width, "0" + s)
  }

  /** `{:0width}` of a signed number: the sign counts toward the width. */
  function Printed(width: nat, n: int): string
    requires width > 0
  {
    if n >= 0 then Padded(width, Digits(n)) else "-" + Padded(width - 1, Digits(-n))
  }

  function Value(s: string): nat
    requires forall i :: 0 <= i < |s| ==> IsDigit(s[i])
  {
    if s == [] then 0
    else
      assert IsDigit(s[|s| - 1]);
      Value(s[..|s| - 1]) * 10 + (s[|s| - 1] as int - '0' as int)
  }

  /** Reading an integer of at most `max`: an optional plus sign, then one or more digits. */
  function ParseNat(max: nat, s: string): Option<nat>
  {
    var digits := if s != [] && s[0] == '+' then s[1..] else s;
    if digits == [] || exists i :: 0 <= i < |digits| && !IsDigit(digits[i]) then None
    else if Value(digits) > max then None
    else Some(Value(digits))
  }

  lemma {:induction false} ValueOfDigits(n: nat)
    ensures Value(Digits(n)) == n
  {
    if n >= 10 {
      ValueOfDigits(n / 10);
      assert Digits(n)[..|Digits(n)| - 1] == Digits(n / 10);
    }
  }

  predicate AllDigits(s: string)
  {
    forall i :: 0 <= i < |s| ==> IsDigit(s[i])
  }

  lemma {:induction false} LeadingZero(s: string)
    requires AllDigits(s)
    ensures AllDigits("0" + s) && Value("0" + s) == Value(s)
  {
    if s != [] {
      LeadingZero(s[..|s| - 1]);
      assert ("0" + s)[..|s|] == "0" + s[..|s| - 1];
    }
  }

  lemma {:induction false} PaddedKeeps(width: nat, s: string)
    requires AllDigits(s) && s != []
    ensures AllDigits(Padded(width, s)) && Padded(width, s) != [] && Value(Padded(width, s)) == Value(s)
    decreases width - |s|
  {
    if |s| < width {
      LeadingZero(s);
      PaddedKeeps(width, "0" + s);
    }
  }

  /** A padded number reads back, and has no dash in it. */
  lemma ParsePrinted(width: nat, max: nat, n: nat)
    requires n <= max && width > 0
    ensures ParseNat(max, Printed(width, n)) == Some(n) && AllDigits(Printed(width, n))
  {
    ValueOfDigits(n);
    PaddedKeeps(width, Digits(n));
    var s := Printed(width, n);
    assert IsDigit(s[0]);
    hide Digits, Padded, Value;
  }

  // ------------------------------------------------------------------ splitting at dashes

  function SplitDashes(s: string): (parts: seq<string>)
    ensures |parts| >= 1
  {
    if s == [] then [[]]
    else
      var rest := SplitDashes(s[1..]);
      if s[0] == '-' then [[]] + rest else [[s[0]] + rest[0]] + rest[1..]
  }

  lemma {:induction false} SplitFirst(a: string, rest: string)
    requires AllDigits(a)
    ensures SplitDashes(a + "-" + rest) == [a] + SplitDashes(rest)
    ensures SplitDashes(a) == [a]
  {
    if a == [] {
      assert a + "-" + rest == "-" + rest;
      assert ("-" + rest)[1..] == rest;
      assert SplitDashes("-" + rest) == [[]] + SplitDashes(rest);
    } else {
      SplitFirst(a[1..], rest);
      assert IsDigit(a[0]) && [a[0]] + a[1..] == a;
      assert (a + "-" + rest)[1..] == a[1..] + "-" + rest;
    }
  }

  function ParseYmd(s: string): Option<(nat, nat, nat)>
  {
    var parts := SplitDashes(s);
    if |parts| != 3 then None
    else
      var y, m, d := ParseNat(I64_MAX, parts[0]), ParseNat(U32_MAX, parts[1]), ParseNat(U32_MAX, parts[2]);
      if y.None? || m.None? || d.None? then None else Some((y.value, m.value, d.value))
  }

  function ParseYm(s: string): Option<(nat, nat)>
  {
    var parts := SplitDashes(s);
    if |parts| != 2 then None
    else
      var y, m := ParseNat(I64_MAX, parts[0]), ParseNat(U32_MAX, parts[1]);
      if y.None? || m.None? then None else Some((y.value, m.value))
  }

  function PrintYmd(y: int, m: nat, d: nat): string
  {
    Printed(4, y) + "-" + (Printed(2, m) + "-" + Printed(2, d))
  }

  function PrintYm(y: int, m: nat): string
  {
    Printed(4, y) + "-" + Printed(2, m)
  }

  lemma ParsePrintedYmd(y: nat, m: nat, d: nat)
    requires y <= I64_MAX && m <= U32_MAX && d <= U32_MAX
    ensures ParseYmd(PrintYmd(y, m, d)) == Some((y, m, d))
  {
    ParsePrinted(4, I64_MAX, y);
    ParsePrinted(2, U32_MAX, m);
    ParsePrinted(2, U32_MAX, d);
    hide Printed, ParseNat, AllDigits, SplitDashes;
    SplitFirst(Printed(4, y), Printed(2, m) + "-" + Printed(2, d));
    SplitFirst(Printed(2, m), Printed(2, d));
    SplitFirst(Printed(2, d), "");
  }

  lemma ParsePrintedYm(y: nat, m: nat)
    requires y <= I64_MAX && m <= U32_MAX
    ensures ParseYm(PrintYm(y, m)) == Some((y, m))
  {
    ParsePrinted(4, I64_MAX, y);
    ParsePrinted(2, U32_MAX, m);
    hide Printed, ParseNat, AllDigits, SplitDashes;
    SplitFirst(Printed(4, y), Printed(2, m));
    SplitFirst(Printed(2, m), "");
  }

  /** A negative year prints with a leading dash, and the dash splits off an empty year. */
  lemma NegativeYearUnread(y: int, m: nat, d: nat)
    requires y < 0
    ensures ParseYmd(PrintYmd(y, m, d)) == None && ParseYm(PrintYm(y, m)) == None
  {
    LeadingDash(PrintYmd(y, m, d));
    LeadingDash(PrintYm(y, m));
  }

  lemma LeadingDash(s: string)
    requires s != [] && s[0] == '-'
    ensures SplitDashes(s)[0] == [] && ParseNat(I64_MAX, SplitDashes(s)[0]) == None
  {
  }

  /** Four digits for a year and two for a month or a day, for years up to 9999. */
  lemma NameShape(y: nat, m: nat, d: nat)
    requires y <= 9999 && m <= 99 && d <= 99
    ensures |PrintYm(y, m)| == 7 && PrintYm(y, m)[4] == '-'
    ensures |PrintYmd(y, m, d)| == 10 && PrintYmd(y, m, d)[4] == '-' && PrintYmd(y, m, d)[7] == '-'
  {
    PrintedWidth(4, y);
    PrintedWidth(2, m);
    PrintedWidth(2, d);
    hide Printed;
  }

  lemma PrintedWidth(width: nat, n: nat)
    requires (width == 4 && n <= 9999) || (width == 2 && n <= 99)
    ensures |Printed(width, n)| == width
  {
    DigitCount(n);
    PaddedWidth(width, Digits(n));
    hide Digits, Padded;
  }

  lemma {:induction false} PaddedWidth(width: nat, s: string)
    ensures |Padded(width, s)| == if |s| >= width then |s| else width
    decreases width - |s|
  {
    if |s| < width { PaddedWidth(width, "0" + s); }
  }

  lemma DigitCount(n: nat)
    ensures n <= 99 ==> |Digits(n)| <= 2
    ensures n <= 9999 ==> |Digits(n)| <= 4
  {
    DigitsStep(n);
    if n >= 10 { DigitsStep(n / 10); }
    if n >= 100 { DigitsStep(n / 100); }
    if n >= 1000 { DigitsStep(n / 1000); }
    hide Digits;
    assert n / 10 / 10 == n / 100 && n / 100 / 10 == n / 1000;
  }

  lemma DigitsStep(n: nat)
    ensures |Digits(n)| == if n < 10 then 1 else |Digits(n / 10)| + 1
  {
  }

  // ------------------------------------------------------------------ routing and periods

  /** What a timestamp's partition is called, after the base name and a colon. */
  function Suffix(unit: By, rec: Record, at: int): string
  {
    var d := DateOf(at / SECONDS_PER_DAY);
    match unit
    case ByDay => PrintYmd(d.year, d.month, d.day)
    case ByMonth => PrintYm(d.year, d.month)
    case Custom(name) => name(rec)
  }

  function RoutingTime(rec: Record, now: int): int
  {
    if rec.createdAt.Some? then rec.createdAt.value else now
  }

  function Route(unit: By, base: string, rec: Record, now: int): string
  {
    base + ":" + Suffix(unit, rec, RoutingTime(rec, now))
  }

  /** The month after, in December of the next year. */
  function MonthAfter(y: int, m: nat): (int, nat)
  {
    if m == 12 then (y + 1, 1) else (y, m + 1)
  }

  function DayPeriod(y: int, m: nat, d: nat): (int, int)
  {
    var start := DaysFromCivil(y, m, d) * SECONDS_PER_DAY;
    (start, start + SECONDS_PER_DAY)
  }

  function MonthPeriod(y: int, m: nat): (int, int)
  {
    (DaysFromCivil(y, m, 1) * SECONDS_PER_DAY,
        DaysFromCivil(MonthAfter(y, m).0, MonthAfter(y, m).1, 1) * SECONDS_PER_DAY)
  }

  predicate InBase(base: string, name: string)
  {
    base + ":" <= name
  }

  function SuffixPeriod(unit: By, suffix: string): Option<(int, int)>
  {
    match unit
    case ByDay =>
      var p := ParseYmd(suffix);
      if p.None? then None else Some(DayPeriod(p.value.0, p.value.1, p.value.2))
    case ByMonth =>
      var p := ParseYm(suffix);
      if p.None? then None else Some(MonthPeriod(p.value.0, p.value.1))
    case Custom(_) => None
  }

  function PeriodOf(unit: By, base: string, name: string): Option<(int, int)>
  {
    if InBase(base, name) then SuffixPeriod(unit, name[|base| + 1..]) else None
  }

  /** The period a timestamp belongs to, by the calendar alone. */
  function PeriodAt(unit: By, at: int): (int, int)
    requires !unit.Custom?
  {
    var d := DateOf(at / SECONDS_PER_DAY);
    if unit.ByDay? then DayPeriod(d.year, d.month, d.day) else MonthPeriod(d.year, d.month)
  }

  lemma MonthHoldsDay(d: Date)
    requires Valid(d)
    ensures Valid(Date(d.year, d.month, 1)) && DaysFromCivil(d.year, d.month, 1) <= Days(d)
    ensures var n := MonthAfter(d.year, d.month);
            Valid(Date(n.0, n.1, 1)) && Days(d) < DaysFromCivil(n.0, n.1, 1)
  {
    var first, next := Date(d.year, d.month, 1), Date(MonthAfter(d.year, d.month).0, MonthAfter(d.year, d.month).1, 1);
    hide DaysFromCivil;
    if d.day != 1 { DaysMonotone(first, d); }
    DaysMonotone(d, next);
  }

  /** The period holds the timestamp, December included. */
  lemma PeriodHolds(unit: By, at: int)
    requires !unit.Custom?
    ensures PeriodAt(unit, at).0 <= at < PeriodAt(unit, at).1
  {
    var z := at / SECONDS_PER_DAY;
    var d := DateOf(z);
    MonthHoldsDay(d);
    assert z * SECONDS_PER_DAY <= at < z * SECONDS_PER_DAY + SECONDS_PER_DAY;
    hide DateOf, DaysFromCivil, Valid;
  }

  /** Two timestamps share a period exactly if they share the date, or the month, it is made of. */
  lemma PeriodsTellDates(unit: By, a: int, b: int)
    requires !unit.Custom?
    ensures var d, e := DateOf(a / SECONDS_PER_DAY), DateOf(b / SECONDS_PER_DAY);
            PeriodAt(unit, a) == PeriodAt(unit, b) <==>
                d.year == e.year && d.month == e.month && (unit.ByDay? ==> d.day == e.day)
  {
    var d, e := DateOf(a / SECONDS_PER_DAY), DateOf(b / SECONDS_PER_DAY);
    var d1, e1 := if unit.ByDay? then d else Date(d.year, d.month, 1), if unit.ByDay? then e
      else Date(e.year, e.month, 1);
    MonthHoldsDay(d);
    MonthHoldsDay(e);
    DateOfDays(d1);
    DateOfDays(e1);
    hide DateOf, DaysFromCivil, Valid;
    if PeriodAt(unit, a) == PeriodAt(unit, b) {
      assert Days(d1) == Days(e1);
    }
  }

  lemma FirstsApart(d: Date, e: Date)
    requires Valid(d) && Valid(e) && (d.year < e.year || (d.year == e.year && d.month < e.month))
    ensures var n := MonthAfter(d.year, d.month);
            DaysFromCivil(n.0, n.1, 1) <= DaysFromCivil(e.year, e.month, 1)
  {
    var n := MonthAfter(d.year, d.month);
    var next, first := Date(n.0, n.1, 1), Date(e.year, e.month, 1);
    MonthHoldsDay(d);
    MonthHoldsDay(e);
    hide DaysFromCivil;
    if next != first { DaysMonotone(next, first); }
  }

  /** Periods tile time: a timestamp lies in another's period exactly if it has the same one. */
  lemma PeriodsTile(unit: By, a: int, t: int)
    requires !unit.Custom?
    ensures PeriodAt(unit, a).0 <= t < PeriodAt(unit, a).1 <==> PeriodAt(unit, t) == PeriodAt(unit, a)
  {
    PeriodHolds(unit, t);
    hide *;
    if unit.ByDay? { DaysTile(unit, a, t); } else { MonthsTile(unit, a, t); }
  }

  lemma DayIs(unit: By, a: int)
    requires unit.ByDay?
    ensures PeriodAt(unit, a) ==
            (a / SECONDS_PER_DAY * SECONDS_PER_DAY, a / SECONDS_PER_DAY * SECONDS_PER_DAY + SECONDS_PER_DAY)
  {
    hide DateOf, DaysFromCivil;
    assert Days(DateOf(a / SECONDS_PER_DAY)) == a / SECONDS_PER_DAY;
  }

  lemma DaysTile(unit: By, a: int, t: int)
    requires unit.ByDay?
    ensures PeriodAt(unit, a).0 <= t < PeriodAt(unit, a).1 ==> PeriodAt(unit, t) == PeriodAt(unit, a)
  {
    DayIs(unit, a);
    DayIs(unit, t);
    hide PeriodAt;
    var x := a / SECONDS_PER_DAY;
    if x * SECONDS_PER_DAY <= t < x * SECONDS_PER_DAY + SECONDS_PER_DAY { assert t / SECONDS_PER_DAY == x; }
  }

  lemma MonthIs(unit: By, a: int)
    requires unit.ByMonth?
    ensures var d := DateOf(a / SECONDS_PER_DAY);
            Valid(d) && PeriodAt(unit, a) == MonthPeriod(d.year, d.month)
  {
    hide DateOf, MonthPeriod;
  }

  lemma MonthsTile(unit: By, a: int, t: int)
    requires unit.ByMonth? && PeriodAt(unit, t).0 <= t < PeriodAt(unit, t).1
    ensures PeriodAt(unit, a).0 <= t < PeriodAt(unit, a).1 ==> PeriodAt(unit, t) == PeriodAt(unit, a)
  {
    MonthIs(unit, a);
    MonthIs(unit, t);
    var d, e := DateOf(a / SECONDS_PER_DAY), DateOf(t / SECONDS_PER_DAY);
    hide *;
    if d.year < e.year || (d.year == e.year && d.month < e.month) {
      FirstsApart(d, e);
      MonthsApart(d, e);
    } else if e.year < d.year || e.month < d.month {
      FirstsApart(e, d);
      MonthsApart(e, d);
    }
  }

  lemma MonthsApart(d: Date, e: Date)
    requires var n := MonthAfter(d.year, d.month); DaysFromCivil(n.0, n.1, 1) <= DaysFromCivil(e.year, e.month, 1)
    ensures MonthPeriod(d.year, d.month).1 <= MonthPeriod(e.year, e.month).0
  {
    hide DaysFromCivil, MonthAfter;
  }

  /** The last second of January 2024 and the first of February, in seconds since 1970. */
  lemma KnownPeriods()
    ensures PeriodAt(ByDay, 1_706_745_599) == (1_706_659_200, 1_706_745_600)
    ensures PeriodAt(ByMonth, 1_706_745_599) == (1_704_067_200, 1_706_745_600)
    ensures PeriodAt(ByMonth, 1_706_745_600).0 == 1_706_745_600
  {
    var last, next := Date(2024, 1, 31), Date(2024, 2, 1);
    assert Days(last) == 19_753 && Days(next) == 19_754 && Days(Date(2024, 1, 1)) == 19_723;
    DateOfDays(last);
    DateOfDays(next);
    assert 1_706_745_599 / SECONDS_PER_DAY == 19_753 && 1_706_745_600 / SECONDS_PER_DAY == 19_754;
    hide DateOf;
  }

  // ------------------------------------------------------------------ names and periods

  lemma YearFits(at: int)
    requires at <= I64_MAX
    ensures DateOf(at / SECONDS_PER_DAY).year <= I64_MAX
  {
    var z := at / SECONDS_PER_DAY;
    assert z <= 106_751_991_167_300;
    var d := DateOf(z);
    DaysClosedForm(d.year, d.month, d.day);
    YearLower(MarchYear(d.year, d.month));
    DayInYear(d);
    hide DateOf, DaysFromCivil, Valid, YearDays, MonthStart, DaysInMonth;
  }

  lemma YearLower(y: int)
    ensures y >= 0 ==> YearDays(y) >= 365 * y
  {
  }

  /** The name a record is routed to reads back as its period exactly if the year is not negative. */
  lemma RoutedPeriod(unit: By, base: string, rec: Record, now: int)
    requires !unit.Custom? && RoutingTime(rec, now) <= I64_MAX
    ensures var at := RoutingTime(rec, now);
            PeriodOf(unit, base, Route(unit, base, rec, now)) ==
            if DateOf(at / SECONDS_PER_DAY).year >= 0 then Some(PeriodAt(unit, at)) else None
  {
    var at := RoutingTime(rec, now);
    var d := DateOf(at / SECONDS_PER_DAY);
    YearFits(at);
    var suffix := Suffix(unit, rec, at);
    assert Route(unit, base, rec, now)[|base| + 1..] == suffix;
    assert 1 <= d.month <= 12 && d.day <= 31;
    if d.year >= 0 {
      ParsePrintedYmd(d.year, d.month, d.day);
      ParsePrintedYm(d.year, d.month);
    } else {
      NegativeYearUnread(d.year, d.month, d.day);
    }
    hide DateOf, PrintYmd, PrintYm, ParseYmd, ParseYm, DayPeriod, MonthPeriod;
  }

  /** What is printed of a number without its sign. */
  function Magnitude(n: int): string
  {
    if n >= 0 then Padded(4, Digits(n)) else Padded(3, Digits(-n))
  }

  function Absolute(n: int): nat
  {
    if n >= 0 then n else -n
  }

  lemma MagnitudeReads(n: int)
    ensures AllDigits(Magnitude(n)) && Magnitude(n) != [] && Value(Magnitude(n)) == Absolute(n)
    ensures Printed(4, n) == (if n >= 0 then Magnitude(n) else "-" + Magnitude(n))
  {
    ValueOfDigits(Absolute(n));
    PaddedKeeps(if n >= 0 then 4 else 3, Digits(Absolute(n)));
    hide Digits, Padded, Value;
  }

  /** The sign is in the first character. */
  lemma SignsAgree(y: int, z: int, rest: string, other: string)
    requires Printed(4, y) + "-" + rest == Printed(4, z) + "-" + other
    ensures (y >= 0 <==> z >= 0) && Magnitude(y) + "-" + rest == Magnitude(z) + "-" + other
  {
    DashMeansNegative(y, rest);
    DashMeansNegative(z, other);
    hide *;
  }

  lemma DashMeansNegative(y: int, rest: string)
    ensures var s := Printed(4, y) + "-" + rest;
            && (s[0] == '-' <==> y < 0)
            && Magnitude(y) + "-" + rest == if y < 0 then s[1..] else s
  {
    MagnitudeReads(y);
    var m, s := Magnitude(y), Printed(4, y) + "-" + rest;
    assert IsDigit(m[0]);
    hide Printed, Magnitude, Value, AllDigits;
    if y < 0 {
      assert s == "-" + (m + "-" + rest);
      assert s[1..] == m + "-" + rest;
    }
  }

  /** Names of a year and a rest read apart into that year and that rest. */
  lemma SameYear(y: int, z: int, rest: string, other: string)
    requires Printed(4, y) + "-" + rest == Printed(4, z) + "-" + other
    ensures y == z && SplitDashes(rest) == SplitDashes(other)
  {
    hide *;
    SignsAgree(y, z, rest, other);
    MagnitudeReads(y);
    MagnitudeReads(z);
    SplitFirst(Magnitude(y), rest);
    SplitFirst(Magnitude(z), other);
    SameParts(Magnitude(y), Magnitude(z), SplitDashes(rest), SplitDashes(other));
    assert Absolute(y) == Absolute(z);
    SameAbsolute(y, z);
  }

  lemma SameAbsolute(y: int, z: int)
    requires Absolute(y) == Absolute(z) && (y >= 0 <==> z >= 0)
    ensures y == z
  {
  }

  lemma SameParts(a: string, b: string, p: seq<string>, q: seq<string>)
    requires [a] + p == [b] + q
    ensures a == b && p == q
  {
    assert ([a] + p)[0] == a && ([b] + q)[0] == b && ([a] + p)[1..] == p && ([b] + q)[1..] == q;
  }

  lemma SameNumber(m: nat, n: nat)
    requires SplitDashes(Printed(2, m)) == SplitDashes(Printed(2, n))
    ensures m == n
  {
    ParsePrinted(2, m + n, m);
    ParsePrinted(2, m + n, n);
    hide Printed;
    SplitFirst(Printed(2, m), "");
    SplitFirst(Printed(2, n), "");
  }

  lemma SamePair(m: nat, d: nat, n: nat, e: nat)
    requires SplitDashes(Printed(2, m) + "-" + Printed(2, d)) == SplitDashes(Printed(2, n) + "-" + Printed(2, e))
    ensures m == n && d == e
  {
    ParsePrinted(2, m + n, m);
    ParsePrinted(2, m + n, n);
    hide Printed, ParseNat;
    SplitFirst(Printed(2, m), Printed(2, d));
    SplitFirst(Printed(2, n), Printed(2, e));
    var p, q := [Printed(2, m)] + SplitDashes(Printed(2, d)), [Printed(2, n)] + SplitDashes(Printed(2, e));
    assert p[0] == q[0] && p[1..] == SplitDashes(Printed(2, d)) && q[1..] == SplitDashes(Printed(2, e));
    SameNumber(d, e);
  }

  /** Printed names tell dates apart, negative years included. */
  lemma NamesTellDates(a: Date, b: Date)
    ensures PrintYmd(a.year, a.month, a.day) == PrintYmd(b.year, b.month, b.day) <==> a == b
    ensures PrintYm(a.year, a.month) == PrintYm(b.year, b.month) <==> a.year == b.year && a.month == b.month
  {
    hide Printed, SplitDashes;
    if PrintYmd(a.year, a.month, a.day) == PrintYmd(b.year, b.month, b.day) {
      SameYear(a.year, b.year, Printed(2, a.month) + "-" + Printed(2, a.day),
          Printed(2, b.month) + "-" + Printed(2, b.day));
      SamePair(a.month, a.day, b.month, b.day);
    }
    if PrintYm(a.year, a.month) == PrintYm(b.year, b.month) {
      SameYear(a.year, b.year, Printed(2, a.month), Printed(2, b.month));
      SameNumber(a.month, b.month);
    }
  }

  /** Two timestamps share a partition name exactly if they share a period, in any year. */
  lemma SameNameIffSamePeriod(unit: By, base: string, a: Record, b: Record, now: int, now': int)
    requires !unit.Custom?
    ensures Route(unit, base, a, now) == Route(unit, base, b, now') <==>
            PeriodAt(unit, RoutingTime(a, now)) == PeriodAt(unit, RoutingTime(b, now'))
  {
    var s, t := RoutingTime(a, now), RoutingTime(b, now');
    var d, e := DateOf(s / SECONDS_PER_DAY), DateOf(t / SECONDS_PER_DAY);
    NamesTellDates(d, e);
    PeriodsTellDates(unit, s, t);
    assert Route(unit, base, a, now)[|base| + 1..] == Suffix(unit, a, s);
    assert Route(unit, base, b, now')[|base| + 1..] == Suffix(unit, b, t);
    hide DateOf, PeriodAt, PrintYmd, PrintYm;
  }

  // ------------------------------------------------------------------ windows

  /** The period [start, end) meets the closed window, as the source tests it. */
  predicate Meets(period: (int, int), from: int, to: int)
  {
    period.1 > from && period.0 <= to
  }

  /** Existing partitions of a base, by name. */
  function Existing(names: set<string>, base: string): set<string>
  {
    set n | n in names && InBase(base, n)
  }

  function InWindow(unit: By, base: string, names: set<string>, from: int, to: int): set<string>
  {
    set n | n in Existing(names, base) && PeriodOf(unit, base, n).Some?
        && Meets(PeriodOf(unit, base, n).value, from, to)
  }

  predicate Within(period: (int, int), from: int, to: int, t: int)
  {
    period.0 <= t < period.1 && from <= t <= to
  }

  /** A window selects exactly the partitions with an instant in it, provided it is not inverted. */
  lemma WindowSelects(unit: By, base: string, names: set<string>, from: int, to: int, name: string)
    requires from <= to
    requires name in names && PeriodOf(unit, base, name).Some?
             && PeriodOf(unit, base, name).value.0 < PeriodOf(unit, base, name).value.1
    ensures name in InWindow(unit, base, names, from, to) <==>
            exists t :: Within(PeriodOf(unit, base, name).value, from, to, t)
  {
    var p := PeriodOf(unit, base, name).value;
    hide PeriodOf;
    if Meets(p, from, to) {
      var t := if p.0 <= from then from else p.0;
      assert Within(p, from, to, t);
    }
  }

  /** An inverted window still selects a partition that spans it, though no instant lies in it. */
  lemma InvertedWindow(unit: By, base: string, names: set<string>, from: int, to: int, name: string)
    requires to < from
    requires name in names && PeriodOf(unit, base, name).Some?
    ensures name in InWindow(unit, base, names, from, to) <==>
            PeriodOf(unit, base, name).value.0 <= to && from < PeriodOf(unit, base, name).value.1
    ensures forall t :: !Within(PeriodOf(unit, base, name).value, from, to, t)
  {
    hide SuffixPeriod;
  }

  /** A record with a timestamp in the window is in a selected partition. */
  lemma WindowFindsRecord(unit: By, base: string, names: set<string>, from: int, to: int, rec: Record, now: int)
    requires !unit.Custom? && RoutingTime(rec, now) <= I64_MAX
             && DateOf(RoutingTime(rec, now) / SECONDS_PER_DAY).year >= 0
    requires from <= RoutingTime(rec, now) <= to && Route(unit, base, rec, now) in names
    ensures Route(unit, base, rec, now) in InWindow(unit, base, names, from, to)
  {
    RoutedPeriod(unit, base, rec, now);
    PeriodHolds(unit, RoutingTime(rec, now));
    assert InBase(base, Route(unit, base, rec, now));
    hide DateOf, PeriodAt, PeriodOf, Suffix;
  }
}

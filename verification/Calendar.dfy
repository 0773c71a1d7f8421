/**
Civil dates and Unix time: `unix_seconds_from_civil` (error_dialect.rs) and
`civil_date_from_unix_days` (extension_capability.rs), two independently
written closed forms, against plain counting of months and years.  Every
divisor is positive, so Dafny's division is the source's on every operand that
occurs; the divisions of possibly negative numbers are Euclidean in the source.
*/
module Calendar {
  import opened Results
  import opened Widths

  datatype Date = Date(year: int, month: int, day: int)

  predicate IsLeapYear(year: int) {
    year % 4 == 0 && (year % 100 != 0 || year % 400 == 0)
  }

  function DaysInMonth(year: int, month: int): Option<int> {
    if month in {1, 3, 5, 7, 8, 10, 12} then Some(31)
    else if month in {4, 6, 9, 11} then Some(30)
    else if month == 2 then Some(if IsLeapYear(year) then 29 else 28)
    else None
  }

  predicate IsValid(d: Date) {
    && 1 <= d.month <= 12 && 1 <= d.day
    && var days := DaysInMonth(d.year, d.month); days.Some? && d.day <= days.value
  }

  predicate IsTimeOfDay(hour: int, minute: int, second: int) {
    0 <= hour <= 23 && 0 <= minute <= 59 && 0 <= second <= 59
  }

  // ---- The two closed forms ----

  function UnixSecondsFromCivil(d: Date, hour: int, minute: int, second: int): Option<int> {
    if !IsValid(d) || !IsTimeOfDay(hour, minute, second) then None
    else if d.month <= 2 && d.year - 1 < I32_MIN then None
    else
      var y := if d.month <= 2 then d.year - 1 else d.year;
      var era := y / 400;
      var yoe := y - era * 400;
      var mp := if d.month > 2 then d.month - 3 else d.month + 9;
      var doy := (153 * mp + 2) / 5 + d.day - 1;
      var doe := yoe * 365 + yoe / 4 - yoe / 100 + doy;
      var days := era * 146_097 + doe - 719_468;
      var seconds := days * 86_400 + hour * 3_600 + minute * 60 + second;
      if seconds < 0 then None else Some(seconds)
  }

  function CivilDateFromUnixDays(days: int): Option<Date>
    requires 0 <= days <= U64_MAX
  {
    var z := days + 719_468;
    if z > I64_MAX then None
    else
      var era := z / 146_097;
      var doe := z % 146_097;
      var yoe := (doe - doe / 1_460 + doe / 36_524 - doe / 146_096) / 365;
      var y := yoe + era * 400;
      var doy := doe - (365 * yoe + yoe / 4 - yoe / 100);
      var mp := (5 * doy + 2) / 153;
      var day := doy - (153 * mp + 2) / 5 + 1;
      var month := mp + if mp < 10 then 3 else -9;
      var year := if month <= 2 then y + 1 else y;
      if year < I32_MIN || year > I32_MAX then None else Some(Date(year, month, day))
  }

  // ---- Plain counting ----

  function YearLength(year: int): int {
    if IsLeapYear(year) then 366 else 365
  }

  /** Days from 1970-01-01 to the first day of `year`, counted a year at a time. */
  function YearStart(year: int): int
    decreases if year < 1970 then 1970 - year else year - 1970
  {
    if year == 1970 then 0
    else if year > 1970 then YearStart(year - 1) + YearLength(year - 1)
    else YearStart(year + 1) - YearLength(year)
  }

  /** Days from the first day of `year` to the first day of `month`, counted a month at a time. */
  function MonthStart(year: int, month: int): int
    requires 1 <= month <= 12
    decreases month
  {
    if month == 1 then 0
    else
      var days := DaysInMonth(year, month - 1);
      MonthStart(year, month - 1) + if days.Some? then days.value else 0
  }

  /** The day number of a date: days since 1970-01-01 by plain counting. */
  function DayNumber(d: Date): int
    requires 1 <= d.month <= 12
  {
    YearStart(d.year) + MonthStart(d.year, d.month) + d.day - 1
  }

  // ---- Years that start in March ----

  /** Days from 0000-03-01 to the first of March of `y`. */
  function MarchStart(y: int): int {
    365 * y + y / 4 - y / 100 + y / 400
  }

  /** Days from the first of March to the first of the month `mp` months later. */
  function MarchMonth(mp: int): int {
    (153 * mp + 2) / 5
  }

  lemma QuotientSteps(y: int)
    ensures (y + 1) / 4 == y / 4 + (if (y + 1) % 4 == 0 then 1 else 0)
    ensures (y + 1) / 100 == y / 100 + (if (y + 1) % 100 == 0 then 1 else 0)
    ensures (y + 1) / 400 == y / 400 + (if (y + 1) % 400 == 0 then 1 else 0)
  {
    var a, b, c := y / 4, y / 100, y / 400;
    assert 4 * a <= y < 4 * a + 4 && 100 * b <= y < 100 * b + 100 && 400 * c <= y < 400 * c + 400;
  }

  lemma ProductAtLeast(n: int, k: int)
    requires n > 0 && k >= 1
    ensures n * k >= n
  {
  }

  lemma SmallMultiple(n: int, k: int, x: int)
    requires -n < x < n && n * k == x
    ensures k == 0
  {
    if k >= 1 {
      ProductAtLeast(n, k);
    } else if k <= -1 {
      ProductAtLeast(n, -k);
    }
  }

  /** Quotient and remainder are unique. */
  lemma DivisionUnique(a: int, n: int, q: int, r: int)
    requires 0 <= r < n && a == n * q + r
    ensures a / n == q && a % n == r
  {
    var q', r' := a / n, a % n;
    assert a == n * q' + r' && 0 <= r' < n;
    assert n * (q - q') == n * q - n * q';
    SmallMultiple(n, q - q', r' - r);
  }

  lemma Divisors(y: int)
    ensures y % 400 == 0 ==> y % 100 == 0
    ensures y % 100 == 0 ==> y % 4 == 0
  {
    var k, j := y / 400, y / 100;
    if y == 400 * k { DivisionUnique(y, 100, 4 * k, 0); }
    if y == 100 * j { DivisionUnique(y, 4, 25 * j, 0); }
  }

  lemma MarchYearLength(y: int)
    ensures MarchStart(y + 1) == MarchStart(y) + YearLength(y + 1)
  {
    QuotientSteps(y);
    Divisors(y + 1);
  }

  lemma {:induction false} YearStartIsMarch(year: int)
    ensures YearStart(year) == MarchStart(year - 1) + 306 - 719_468
    decreases if year < 1970 then 1970 - year else year - 1970
  {
    if year > 1970 {
      YearStartIsMarch(year - 1);
      MarchYearLength(year - 2);
    } else if year < 1970 {
      YearStartIsMarch(year + 1);
      MarchYearLength(year - 1);
    }
  }

  function MarchYear(d: Date): int {
    if d.month <= 2 then d.year - 1 else d.year
  }

  function MarchIndex(d: Date): int {
    if d.month > 2 then d.month - 3 else d.month + 9
  }

  lemma MonthStartTable(year: int)
    ensures var leap := if IsLeapYear(year) then 1 else 0;
      && MonthStart(year, 1) == 0 && MonthStart(year, 2) == 31
      && MonthStart(year, 3) == 59 + leap && MonthStart(year, 4) == 90 + leap && MonthStart(year, 5) == 120 + leap
      && MonthStart(year, 6) == 151 + leap && MonthStart(year, 7) == 181 + leap && MonthStart(year, 8) == 212 + leap
      && MonthStart(year, 9) == 243 + leap && MonthStart(year, 10) == 273 + leap && MonthStart(year, 11) == 304 + leap
      && MonthStart(year, 12) == 334 + leap
  {
    hide IsLeapYear;
    assert MonthStart(year, 3) == MonthStart(year, 2) + DaysInMonth(year, 2).value;
    assert MonthStart(year, 4) == MonthStart(year, 3) + 31;
    assert MonthStart(year, 5) == MonthStart(year, 4) + 30;
    assert MonthStart(year, 6) == MonthStart(year, 5) + 31;
    assert MonthStart(year, 7) == MonthStart(year, 6) + 30;
    assert MonthStart(year, 8) == MonthStart(year, 7) + 31;
    assert MonthStart(year, 9) == MonthStart(year, 8) + 31;
    assert MonthStart(year, 10) == MonthStart(year, 9) + 30;
    assert MonthStart(year, 11) == MonthStart(year, 10) + 31;
    assert MonthStart(year, 12) == MonthStart(year, 11) + 30;
  }

  /** Counting from March gives the same day number. */
  lemma DayNumberFromMarch(d: Date)
    requires 1 <= d.month <= 12
    ensures DayNumber(d) == MarchStart(MarchYear(d)) + MarchMonth(MarchIndex(d)) + d.day - 1 - 719_468
  {
    YearStartIsMarch(d.year);
    MarchYearLength(d.year - 1);
    MonthStartTable(d.year);
    hide IsLeapYear, MarchStart;
  }

  /** `unix_seconds_from_civil` counts days, hours, minutes and seconds, and refuses the rest. */
  lemma UnixSecondsExactly(d: Date, hour: int, minute: int, second: int)
    requires I32_MIN <= d.year <= I32_MAX
    ensures UnixSecondsFromCivil(d, hour, minute, second) ==
      if IsValid(d) && IsTimeOfDay(hour, minute, second) && DayNumber(d) >= 0
      then Some(DayNumber(d) * 86_400 + hour * 3_600 + minute * 60 + second) else None
  {
    if IsValid(d) {
      DayNumberFromMarch(d);
      EraSplit(MarchYear(d));
      if d.month <= 2 && d.year - 1 < I32_MIN {
        BeforeEpoch(d);
      }
    }
  }

  lemma EraSplit(y: int)
    ensures var era := y / 400; var yoe := y - era * 400;
      0 <= yoe < 400 && MarchStart(y) == era * 146_097 + yoe * 365 + yoe / 4 - yoe / 100
  {
    var era, yoe := y / 400, y % 400;
    DivisionUnique(y, 4, 100 * era + yoe / 4, yoe % 4);
    DivisionUnique(y, 100, 4 * era + yoe / 100, yoe % 100);
  }

  lemma BeforeEpoch(d: Date)
    requires IsValid(d) && d.year <= 1900
    ensures DayNumber(d) < 0
  {
    DayNumberFromMarch(d);
    assert MarchStart(MarchYear(d)) <= 365 * 1901 + 500;
    assert MarchMonth(MarchIndex(d)) <= 337;
  }

  // ---- The inverse ----

  /** The cycle position of a day: century, four-year group, year and day within them. */
  lemma CycleSplit(doe: int) returns (c: int, q: int, r: int, t: int)
    requires 0 <= doe < 146_097
    ensures 0 <= c <= 3 && 0 <= q <= 24 && 0 <= r <= 3 && 0 <= t <= 365
    ensures t == 365 ==> r == 3 && (q < 24 || c == 3)
    ensures doe == 36_524 * c + 1_461 * q + 365 * r + t
  {
    c := if doe / 36_524 < 3 then doe / 36_524 else 3;
    var a := doe - 36_524 * c;
    q := a / 1_461;
    var b := a - 1_461 * q;
    r := if b / 365 < 3 then b / 365 else 3;
    t := b - 365 * r;
  }

  function CycleYear(doe: int): int {
    (doe - doe / 1_460 + doe / 36_524 - doe / 146_096) / 365
  }

  /** The division formula finds the year of the cycle, and what is left lies within that year. */
  lemma CycleYearCorrect(doe: int)
    requires 0 <= doe < 146_097
    ensures var yoe := CycleYear(doe);
      && 0 <= yoe < 400
      && var doy := doe - (365 * yoe + yoe / 4 - yoe / 100);
      0 <= doy <= 365 && (doy == 365 ==> IsLeapYear(yoe + 1))
  {
    var c, q, r, t := CycleSplit(doe);
    var low := 24 * c + q + 365 * r + t;
    var e := if low >= 1_460 then 1 else 0;
    DivisionUnique(doe, 1_460, 25 * c + q + e, low - 1_460 * e);
    CenturyQuotient(doe, c, 1_461 * q + 365 * r + t);
    assert 0 <= t - e < 365;
    var yoe := 100 * c + 4 * q + r;
    DivisionUnique(365 * yoe + (t - e), 365, yoe, t - e);
    DivisionUnique(yoe, 4, 25 * c + q, r);
    DivisionUnique(yoe, 100, c, 4 * q + r);
    assert CycleYear(doe) == yoe;
    if t == 365 {
      DivisionUnique(yoe + 1, 4, 25 * c + q + 1, 0);
      if q < 24 { DivisionUnique(yoe + 1, 100, c, 4 * q + 4); }
    }
  }

  lemma CenturyQuotient(doe: int, c: int, rest: int)
    requires 0 <= c <= 3 && doe == 36_524 * c + rest && 0 <= rest <= 36_524 && (rest == 36_524 ==> c == 3)
    ensures doe / 36_524 - doe / 146_096 == c
  {
    if rest < 36_524 {
      DivisionUnique(doe, 36_524, c, rest);
      DivisionUnique(doe, 146_096, 0, doe);
    }
  }

  /** The month formula inverts the month table. */
  lemma MonthOfDay(doy: int)
    requires 0 <= doy <= 365
    ensures var mp := (5 * doy + 2) / 153;
      0 <= mp <= 11 && MarchMonth(mp) <= doy && (mp < 11 ==> doy < MarchMonth(mp + 1))
  {
  }

  /** March-month lengths are the calendar's. */
  lemma MarchMonthLength(d: Date)
    requires 1 <= d.month <= 12
    ensures MarchIndex(d) < 11 ==>
      DaysInMonth(d.year, d.month) == Some(MarchMonth(MarchIndex(d) + 1) - MarchMonth(MarchIndex(d)))
    ensures MarchIndex(d) == 11 <==> d.month == 2
    ensures MarchMonth(11) == 337
  {
  }

  lemma LeapYearPeriod(era: int, yoe: int)
    ensures IsLeapYear(yoe + 400 * era) <==> IsLeapYear(yoe)
  {
    var y := yoe + 400 * era;
    DivisionUnique(y, 4, yoe / 4 + 100 * era, yoe % 4);
    DivisionUnique(y, 100, yoe / 100 + 4 * era, yoe % 100);
    DivisionUnique(y, 400, yoe / 400 + era, yoe % 400);
  }

  /** Day `doy` of the March year `y`, as the month formula names it. */
  function DateOfMarchDay(y: int, doy: int): Date {
    var mp := (5 * doy + 2) / 153;
    var month := mp + if mp < 10 then 3 else -9;
    Date(if month <= 2 then y + 1 else y, month, doy - MarchMonth(mp) + 1)
  }

  lemma MarchDayIsValid(y: int, doy: int)
    requires 0 <= doy <= 365 && (doy == 365 ==> IsLeapYear(y + 1))
    ensures var d := DateOfMarchDay(y, doy);
      IsValid(d) && DayNumber(d) == MarchStart(y) + doy - 719_468
  {
    MonthOfDay(doy);
    var d, mp := DateOfMarchDay(y, doy), (5 * doy + 2) / 153;
    assert MarchYear(d) == y && MarchIndex(d) == mp;
    MarchMonthLength(d);
    DayNumberFromMarch(d);
  }

  /** `civil_date_from_unix_days` gives the valid date with that day number, or nothing past year i32::MAX. */
  lemma CivilDateExactly(days: int)
    requires 0 <= days <= I64_MAX - 719_468
    ensures CivilDateFromUnixDays(days).Some? ==>
      var d := CivilDateFromUnixDays(days).value;
      IsValid(d) && DayNumber(d) == days && 1970 <= d.year <= I32_MAX
    ensures CivilDateFromUnixDays(days).None? ==> YearStart(I32_MAX + 1) <= days
  {
    hide IsLeapYear, YearStart, MonthStart, IsValid, DayNumber, CycleYear, DateOfMarchDay;
    hide CivilDateFromUnixDays, MarchStart;
    var z := days + 719_468;
    var era, doe := z / 146_097, z % 146_097;
    CycleYearCorrect(doe);
    var yoe := CycleYear(doe);
    var y := yoe + era * 400;
    var doy := doe - (365 * yoe + yoe / 4 - yoe / 100);
    LeapYearPeriod(era, yoe + 1);
    MarchDayIsValid(y, doy);
    var d := DateOfMarchDay(y, doy);
    assert MarchStart(y) + doy == z by {
      DivisionUnique(y, 400, era, yoe);
      EraSplit(y);
    }
    FormulaUsesMarchDay(days);
    YearBounds(d);
    EpochYear();
  }

  lemma EpochYear()
    ensures YearStart(1970) == 0
  {
  }

  lemma FormulaUsesMarchDay(days: int)
    requires 0 <= days <= I64_MAX - 719_468
    ensures
      var z := days + 719_468;
      var doe := z % 146_097;
      var yoe := CycleYear(doe);
      var d := DateOfMarchDay(yoe + z / 146_097 * 400, doe - (365 * yoe + yoe / 4 - yoe / 100));
      CivilDateFromUnixDays(days) == if d.year < I32_MIN || d.year > I32_MAX then None else Some(d)
  {
  }

  /** A date lies between the starts of its year and the next. */
  lemma YearBounds(d: Date)
    requires IsValid(d)
    ensures YearStart(d.year) <= DayNumber(d) < YearStart(d.year) + YearLength(d.year)
    ensures forall y :: y <= d.year ==> YearStart(y) <= DayNumber(d)
    ensures forall y :: y > d.year ==> DayNumber(d) < YearStart(y)
  {
    MonthStartTable(d.year);
    assert YearStart(d.year) <= DayNumber(d) < YearStart(d.year) + YearLength(d.year);
    forall y | y <= d.year ensures YearStart(y) <= YearStart(d.year) { YearsIncrease(y, d.year); }
    forall y | y > d.year ensures YearStart(d.year) + YearLength(d.year) <= YearStart(y) {
      YearStep(d.year);
      YearsIncrease(d.year + 1, y);
    }
  }

  lemma YearStep(y: int)
    ensures YearStart(y + 1) == YearStart(y) + YearLength(y)
  {
  }

  lemma {:induction false} YearsIncrease(a: int, b: int)
    requires a <= b
    ensures YearStart(a) <= YearStart(b)
    decreases b - a
  {
    if a < b {
      YearsIncrease(a, b - 1);
      YearStep(b - 1);
    }
  }

  lemma {:induction false} MonthsIncrease(year: int, a: int, b: int)
    requires 1 <= a < b <= 12
    ensures MonthStart(year, a) + DaysInMonth(year, a).value <= MonthStart(year, b)
    decreases b - a
  {
    hide IsLeapYear;
    if a < b - 1 {
      MonthsIncrease(year, a, b - 1);
    }
  }

  /** No two valid dates have the same day number. */
  lemma DayNumberInjective(a: Date, b: Date)
    requires IsValid(a) && IsValid(b) && DayNumber(a) == DayNumber(b)
    ensures a == b
  {
    YearBounds(a);
    YearBounds(b);
    assert a.year == b.year;
    if a.month < b.month {
      MonthsIncrease(a.year, a.month, b.month);
    } else if b.month < a.month {
      MonthsIncrease(a.year, b.month, a.month);
    }
  }

  lemma ModernDayNumber(d: Date)
    requires IsValid(d) && 1970 <= d.year <= I32_MAX
    ensures 0 <= DayNumber(d) <= I64_MAX - 719_468 && DayNumber(d) < YearStart(I32_MAX + 1)
  {
    hide IsValid, DayNumber, YearStart;
    YearBounds(d);
    EpochYear();
    YearStartIsMarch(I32_MAX + 1);
  }

  lemma SplitSeconds(days: int, hour: int, minute: int, second: int)
    requires IsTimeOfDay(hour, minute, second)
    ensures var s := days * 86_400 + hour * 3_600 + minute * 60 + second;
      s / 86_400 == days && s % 86_400 / 3_600 == hour && s % 3_600 / 60 == minute && s % 60 == second
  {
    var s := days * 86_400 + hour * 3_600 + minute * 60 + second;
    DivisionUnique(s, 86_400, days, hour * 3_600 + minute * 60 + second);
    DivisionUnique(hour * 3_600 + minute * 60 + second, 3_600, hour, minute * 60 + second);
    DivisionUnique(s, 3_600, 24 * days + hour, minute * 60 + second);
    DivisionUnique(minute * 60 + second, 60, minute, second);
    DivisionUnique(s, 60, 1_440 * days + 60 * hour + minute, second);
  }

  lemma DayNumberFits(days: int)
    requires 0 <= days <= U64_MAX && CivilDateFromUnixDays(days).Some?
    ensures days <= I64_MAX - 719_468
  {
  }

  // ---- Main results ----

  /** From days to a date and back. */
  lemma DaysToCivilToSeconds(days: int)
    requires 0 <= days <= U64_MAX && CivilDateFromUnixDays(days).Some?
    ensures var d := CivilDateFromUnixDays(days).value;
      IsValid(d) && UnixSecondsFromCivil(d, 0, 0, 0) == Some(86_400 * days)
  {
    DayNumberFits(days);
    hide CivilDateFromUnixDays, UnixSecondsFromCivil, IsLeapYear, DayNumber;
    CivilDateExactly(days);
    UnixSecondsExactly(CivilDateFromUnixDays(days).value, 0, 0, 0);
  }

  /** From a date and time, in any year of i32 from 1970 on, to seconds and back. */
  lemma CivilToSecondsToDays(d: Date, hour: int, minute: int, second: int)
    requires IsValid(d) && 1970 <= d.year <= I32_MAX && IsTimeOfDay(hour, minute, second)
    ensures var s := UnixSecondsFromCivil(d, hour, minute, second);
      && s.Some? && 0 <= s.value / 86_400 <= U64_MAX
      && CivilDateFromUnixDays(s.value / 86_400) == Some(d)
      && s.value % 86_400 / 3_600 == hour && s.value % 3_600 / 60 == minute && s.value % 60 == second
  {
    hide DayNumber, YearStart, UnixSecondsFromCivil, CivilDateFromUnixDays, IsLeapYear;
    UnixSecondsExactly(d, hour, minute, second);
    ModernDayNumber(d);
    var days := DayNumber(d);
    SplitSeconds(days, hour, minute, second);
    CivilDateExactly(days);
    var back := CivilDateFromUnixDays(days);
    if back.Some? {
      DayNumberInjective(back.value, d);
    }
  }

  // ---- Overflow ----

  predicate FitsI32(x: int) { I32_MIN <= x <= I32_MAX }

  predicate FitsU32(x: int) { 0 <= x <= U32_MAX }

  predicate FitsI64(x: int) { I64_MIN <= x <= I64_MAX }

  /** The intermediates of `unix_seconds_from_civil` fit their types, `era * 400` left aside. */
  ghost predicate IntermediatesFit(d: Date, hour: int, minute: int, second: int) {
    var y := MarchYear(d);
    var era := y / 400;
    var yoe := y - era * 400;
    var mp := MarchIndex(d);
    var doy := (153 * mp + 2) / 5 + d.day - 1;
    var doe := yoe * 365 + yoe / 4 - yoe / 100 + doy;
    var days := era * 146_097 + doe - 719_468;
    && FitsI32(y) && FitsI32(era) && FitsU32(yoe) && FitsU32(yoe * 365 + yoe / 4)
    && FitsU32(153 * mp + 2) && FitsU32((153 * mp + 2) / 5 + d.day) && FitsU32(doy) && FitsU32(doe)
    && FitsI64(era * 146_097) && FitsI64(era * 146_097 + doe) && FitsI64(days) && FitsI64(days * 86_400)
    && FitsI64(days * 86_400 + hour * 3_600 + minute * 60 + second)
  }

  predicate EraFits(d: Date) {
    FitsI32(MarchYear(d) / 400 * 400)
  }

  /** Every intermediate fits its type, but for `era * 400` in the last era of i32. */
  lemma CivilIntermediatesFit(d: Date, hour: int, minute: int, second: int)
    requires IsValid(d) && FitsI32(d.year) && FitsI32(MarchYear(d)) && IsTimeOfDay(hour, minute, second)
    ensures IntermediatesFit(d, hour, minute, second)
    ensures EraFits(d) <==> MarchYear(d) >= -2_147_483_600
  {
    hide IsLeapYear;
    assert 0 <= MarchIndex(d) <= 11 && 1 <= d.day <= 31;
    var y := MarchYear(d);
    var era := y / 400;
    assert 400 * era <= y < 400 * era + 400;
    assert -5_368_710 <= era <= 5_368_709;
    YearOfEraBounds(y - era * 400, MarchIndex(d), d.day);
  }

  lemma YearOfEraBounds(yoe: int, mp: int, day: int)
    requires 0 <= yoe < 400 && 0 <= mp <= 11 && 1 <= day <= 31
    ensures 0 <= yoe * 365 + yoe / 4 - yoe / 100 <= 146_095 && 0 <= yoe * 365 + yoe / 4 <= 146_100
    ensures 0 <= (153 * mp + 2) / 5 <= 337
  {
  }
}

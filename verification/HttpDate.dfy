/**
Retry-After values: IMF-fixdate (section 5.6.7 of RFC 9110) and delta-seconds
(section 10.2.3 of RFC 9110), as error_dialect.rs parses them.
*/
module HttpDate {
  import opened Results
  import opened Widths
  import opened Decimals
  import opened Calendar

  // ---- Rust integer parsing ----

  /** `str::parse` for an unsigned type: an optional plus, then at least one digit, no overflow. */
  function ParseUnsigned(s: string, max: int): Option<int> {
    var body := if |s| > 1 && s[0] == '+' then s[1..] else s;
    if body == "" then None
    else
      match DigitsValue(body)
      case None => None
      case Some(v) => if v > max then None else Some(v)
  }

  /** `str::parse` for a signed type. */
  function ParseSigned(s: string, min: int, max: int): Option<int> {
    if |s| > 1 && s[0] == '-' then
      match DigitsValue(s[1..])
      case None => None
      case Some(v) => if 0 - v < min then None else Some(0 - v)
    else ParseUnsigned(s, max)
  }

  /** The digits of `n` after an optional plus. */
  ghost predicate ShowsUnsigned(s: string, n: nat) {
    ShowsNumber(s, n) || ("+" <= s && ShowsNumber(s[1..], n))
  }

  /** The digits of `n` after an optional plus, or those of `-n` after a minus. */
  ghost predicate ShowsSigned(s: string, n: int) {
    (n >= 0 && ShowsUnsigned(s, n)) || (n <= 0 && "-" <= s && ShowsNumber(s[1..], -n))
  }

  lemma ShownNotEmpty(s: string, n: nat)
    requires ShowsNumber(s, n)
    ensures s != "" && '0' <= s[0] <= '9'
  {
    DecimalRoundTrip(n);
    var zeros: nat :| Padded(s, zeros, n);
  }

  /** An unsigned number is read exactly as it is shown, up to the bound. */
  lemma UnsignedExactly(s: string, max: int, n: nat)
    ensures ParseUnsigned(s, max) == Some(n) <==> n <= max && ShowsUnsigned(s, n)
  {
    if s != "" {
      DigitsExactly(s, n);
      if s[0] == '+' {
        if ShowsNumber(s, n) { ShownNotEmpty(s, n); }
        if |s| > 1 {
          DigitsExactly(s[1..], n);
        } else {
          assert s[1..] == "" && s == "+";
          if ShowsNumber("", n) { ShownNotEmpty("", n); }
          DigitsAlone(s);
        }
      }
    } else if ShowsNumber(s, n) {
      ShownNotEmpty(s, n);
    }
  }

  /** A signed number is read exactly as it is shown, within the bounds. */
  lemma SignedExactly(s: string, min: int, max: int, n: int)
    requires min <= 0 <= max
    ensures ParseSigned(s, min, max) == Some(n) <==>
      min <= n <= max && ShowsSigned(s, n)
  {
    if "-" <= s {
      assert s[0] == '-';
      if n >= 0 && ShowsUnsigned(s, n) {
        ShownNotEmpty(s, n);
      }
      if |s| > 1 {
        if n <= 0 { DigitsExactly(s[1..], -n); }
      } else {
        if n >= 0 { UnsignedExactly(s, max, n); }
        assert s[1..] == "";
        if n <= 0 && ShowsNumber("", -n) { ShownNotEmpty("", -n); }
        DigitsAlone(s);
        assert s == "-";
      }
    } else if n >= 0 {
      UnsignedExactly(s, max, n);
    }
  }

  // ---- IMF-fixdate ----

  const WEEKDAYS: seq<string> := ["Sun", "Mon", "Tue", "Wed", "Thu", "Fri", "Sat"]

  const MONTHS: seq<string> := ["Jan", "Feb", "Mar", "Apr", "May", "Jun", "Jul", "Aug", "Sep", "Oct", "Nov", "Dec"]

  function IndexOf(names: seq<string>, name: string, i: nat): (r: Option<nat>)
    requires i <= |names|
    ensures r.Some? ==> i <= r.value < |names| && names[r.value] == name
    ensures r.None? ==> forall j :: i <= j < |names| ==> names[j] != name
    decreases |names| - i
  {
    if i == |names| then None else if names[i] == name then Some(i) else IndexOf(names, name, i + 1)
  }

  predicate HasFixdateShape(s: string) {
    && |s| == 29 && IsAscii(s)
    && s[3] == ',' && s[4] == ' ' && s[7] == ' ' && s[11] == ' ' && s[16] == ' '
    && s[19] == ':' && s[22] == ':' && s[25] == ' ' && s[26] == 'G' && s[27] == 'M' && s[28] == 'T'
  }

  datatype Fields = Fields(weekday: int, date: Date, hour: int, minute: int, second: int)

  /** The six slices, each through its own parser. */
  function ParseFields(s: string): Option<Fields>
    requires HasFixdateShape(s)
  {
    var weekday, month := IndexOf(WEEKDAYS, s[0..3], 0), IndexOf(MONTHS, s[8..11], 0);
    var day, year := ParseUnsigned(s[5..7], U32_MAX), ParseSigned(s[12..16], I32_MIN, I32_MAX);
    var hour, minute, second :=
      ParseUnsigned(s[17..19], U32_MAX), ParseUnsigned(s[20..22], U32_MAX), ParseUnsigned(s[23..25], U32_MAX);
    if weekday.None? || day.None? || month.None? || year.None? || hour.None? || minute.None? || second.None? then None
    else
      Some(Fields(weekday.value, Date(year.value, month.value + 1, day.value), hour.value, minute.value, second.value))
  }

  /** `parse_imf_fixdate` */
  function ParseImfFixdate(s: string): Option<int> {
    if !HasFixdateShape(s) then None
    else
      match ParseFields(s)
      case None => None
      case Some(f) =>
        match UnixSecondsFromCivil(f.date, f.hour, f.minute, f.second)
        case None => None
        case Some(t) => if (t / 86_400 + 4) % 7 == f.weekday then Some(t) else None
  }

  /** The names of section 5.6.7 of RFC 9110, in the order of the calendar. */
  lemma NamesByOrder()
    ensures WEEKDAYS[0] == "Sun" && WEEKDAYS[1] == "Mon" && WEEKDAYS[2] == "Tue" && WEEKDAYS[3] == "Wed"
    ensures WEEKDAYS[4] == "Thu" && WEEKDAYS[5] == "Fri" && WEEKDAYS[6] == "Sat" && |WEEKDAYS| == 7
    ensures MONTHS[0] == "Jan" && MONTHS[1] == "Feb" && MONTHS[2] == "Mar" && MONTHS[3] == "Apr" && MONTHS[4] == "May"
    ensures MONTHS[5] == "Jun" && MONTHS[6] == "Jul" && MONTHS[7] == "Aug" && MONTHS[8] == "Sep" && MONTHS[9] == "Oct"
    ensures MONTHS[10] == "Nov" && MONTHS[11] == "Dec" && |MONTHS| == 12
  {
  }

  /** The shape is the literal text around the six fields. */
  lemma ShapeExactly(s: string)
    ensures HasFixdateShape(s) <==>
      && |s| == 29 && (forall i :: 0 <= i < 29 ==> s[i] as int < 128)
      && s == s[0..3] + ", " + s[5..7] + " " + s[8..11] + " " + s[12..16] + " " + s[17..19] + ":" + s[20..22] + ":"
              + s[23..25] + " GMT"
  {
    if |s| == 29 {
      var t := s[0..3] + ", " + s[5..7] + " " + s[8..11] + " " + s[12..16] + " " + s[17..19] + ":" + s[20..22] + ":"
               + s[23..25] + " GMT";
      if HasFixdateShape(s) {
        assert |t| == 29;
        assert forall i :: 0 <= i < 29 ==> s[i] == t[i];
      }
      assert t[3] == ',' && t[4] == ' ' && t[7] == ' ' && t[11] == ' ' && t[16] == ' ';
      assert t[19] == ':' && t[22] == ':' && t[25] == ' ' && t[26] == 'G' && t[27] == 'M' && t[28] == 'T';
    }
  }

  ghost predicate IsWeekday(name: string, i: int) {
    0 <= i < 7 && name == WEEKDAYS[i]
  }

  ghost predicate IsMonth(name: string, month: int) {
    1 <= month <= 12 && name == MONTHS[month - 1]
  }

  /** The digits of a number that is not negative, after an optional plus. */
  ghost predicate ShowsCount(s: string, n: int) {
    n >= 0 && ShowsUnsigned(s, n)
  }

  /** The fields are what their slices show; a year may be negative, any number may carry a plus. */
  lemma FieldsExactly(s: string, f: Fields)
    requires HasFixdateShape(s)
    ensures ParseFields(s) == Some(f) <==>
      && IsWeekday(s[0..3], f.weekday) && ShowsCount(s[5..7], f.date.day) && IsMonth(s[8..11], f.date.month)
      && ShowsSigned(s[12..16], f.date.year)
      && ShowsCount(s[17..19], f.hour) && ShowsCount(s[20..22], f.minute) && ShowsCount(s[23..25], f.second)
  {
    assert |s| == 29;
    hide ShowsCount, ShowsSigned, ParseUnsigned, ParseSigned, HasFixdateShape, IndexOf, IsWeekday, IsMonth;
    hide WEEKDAYS, MONTHS;
    NameExactly(s[0..3], s[8..11], f.weekday, f.date.month - 1);
    TwoDigitsExactly(s[5..7], f.date.day);
    TwoDigitsExactly(s[17..19], f.hour);
    TwoDigitsExactly(s[20..22], f.minute);
    TwoDigitsExactly(s[23..25], f.second);
    YearExactly(s[12..16], f.date.year);
  }

  lemma NameExactly(day: string, month: string, i: int, k: int)
    ensures IndexOf(WEEKDAYS, day, 0) == Some(i) <==> IsWeekday(day, i)
    ensures IndexOf(MONTHS, month, 0) == Some(k) <==> IsMonth(month, k + 1)
  {
    WeekdaysAreDistinct();
    MonthsAreDistinct();
  }

  lemma TwoDigitsExactly(s: string, n: int)
    requires |s| == 2
    ensures ParseUnsigned(s, U32_MAX) == Some(n) <==> ShowsCount(s, n)
  {
    if n >= 0 {
      UnsignedExactly(s, U32_MAX, n);
      if ShowsUnsigned(s, n) {
        ShownIsSmall(s, n);
      }
    }
  }

  lemma YearExactly(s: string, n: int)
    requires |s| == 4
    ensures ParseSigned(s, I32_MIN, I32_MAX) == Some(n) <==> ShowsSigned(s, n)
  {
    SignedExactly(s, I32_MIN, I32_MAX, n);
    if n >= 0 && ShowsUnsigned(s, n) {
      ShownIsSmall(s, n);
      if "-" <= s { ShownNotEmpty(s, n); }
    }
    if n <= 0 && "-" <= s && ShowsNumber(s[1..], -n) {
      ShownIsSmall(s[1..], -n);
    }
  }

  lemma ShownIsSmall(s: string, n: nat)
    requires ShowsUnsigned(s, n) && |s| <= 4
    ensures n < 10_000
  {
    var t := if ShowsNumber(s, n) then s else s[1..];
    ShownNotEmpty(t, n);
    DigitsExactly(t, n);
    DigitsBound(t);
    assert Power10(1) == 10 && Power10(2) == 100 && Power10(3) == 1_000 && Power10(4) == 10_000;
  }

  function Power10(n: nat): nat {
    if n == 0 then 1 else 10 * Power10(n - 1)
  }

  lemma {:induction false} DigitsBound(s: string)
    ensures DigitsValue(s).Some? ==> DigitsValue(s).value < Power10(|s|)
  {
    if s != "" {
      DigitsBound(s[..|s| - 1]);
    }
  }

  /** Four characters, a sign among them or not, name a year from -999 to 9999. */
  lemma YearFieldBounds(s: string)
    requires |s| == 4 && ParseSigned(s, I32_MIN, I32_MAX).Some?
    ensures -999 <= ParseSigned(s, I32_MIN, I32_MAX).value <= 9_999
  {
    DigitsBound(s);
    DigitsBound(s[1..]);
    assert Power10(1) == 10 && Power10(2) == 100 && Power10(3) == 1_000 && Power10(4) == 10_000;
  }

  /** No intermediate overflows for any date and time that the parser hands over, `era * 400` included. */
  lemma ParsedDatesFit(s: string)
    requires HasFixdateShape(s) && ParseFields(s).Some?
    requires
      var f := ParseFields(s).value;
      IsValid(f.date) && IsTimeOfDay(f.hour, f.minute, f.second)
    ensures
      var f := ParseFields(s).value;
      IntermediatesFit(f.date, f.hour, f.minute, f.second) && EraFits(f.date)
  {
    hide IsValid, IntermediatesFit, EraFits, ParseUnsigned, IndexOf;
    YearFieldBounds(s[12..16]);
    var f := ParseFields(s).value;
    CivilIntermediatesFit(f.date, f.hour, f.minute, f.second);
  }

  /**
  A string is accepted exactly when it has the shape, its fields name a real date
  and time from 1970 on, and its weekday is that date's; the result is the plain
  count of seconds.
  */
  lemma ParsesExactly(s: string, t: int)
    ensures ParseImfFixdate(s) == Some(t) <==>
      && HasFixdateShape(s) && ParseFields(s).Some?
      && var f := ParseFields(s).value;
      && IsValid(f.date) && IsTimeOfDay(f.hour, f.minute, f.second) && DayNumber(f.date) >= 0
      && f.weekday == (DayNumber(f.date) + 4) % 7
      && t == DayNumber(f.date) * 86_400 + f.hour * 3_600 + f.minute * 60 + f.second
  {
    hide UnixSecondsFromCivil, IsValid, DayNumber, IndexOf, ParseUnsigned, ParseSigned;
    if HasFixdateShape(s) && ParseFields(s).Some? {
      YearFieldBounds(s[12..16]);
      var f := ParseFields(s).value;
      UnixSecondsExactly(f.date, f.hour, f.minute, f.second);
      if IsValid(f.date) && IsTimeOfDay(f.hour, f.minute, f.second) && DayNumber(f.date) >= 0 {
        SplitSeconds(DayNumber(f.date), f.hour, f.minute, f.second);
      }
    }
  }

  // ---- Printing ----

  function Digit(n: int): char
    requires 0 <= n <= 9
  {
    '0' + n as char
  }

  function Two(n: int): (r: string)
    requires 0 <= n < 100
    ensures |r| == 2
  {
    [Digit(n / 10), Digit(n % 10)]
  }

  function Four(n: int): (r: string)
    requires 0 <= n < 10_000
    ensures |r| == 4
  {
    [Digit(n / 1_000), Digit(n / 100 % 10), Digit(n / 10 % 10), Digit(n % 10)]
  }

  ghost predicate Printable(f: Fields) {
    && 0 <= f.weekday < 7 && 1 <= f.date.month <= 12 && 0 <= f.date.day < 100 && 0 <= f.date.year < 10_000
    && 0 <= f.hour < 100 && 0 <= f.minute < 100 && 0 <= f.second < 100
  }

  lemma NamesHaveThreeLetters()
    ensures forall i :: 0 <= i < 7 ==> |WEEKDAYS[i]| == 3 && forall c <- WEEKDAYS[i] :: 'A' <= c <= 'z'
    ensures forall i :: 0 <= i < 12 ==> |MONTHS[i]| == 3 && forall c <- MONTHS[i] :: 'A' <= c <= 'z'
  {
  }

  function CharAt(w: string, d: string, m: string, y: string, h: string, n: string, s: string, i: nat): char
    requires |w| == 3 && |d| == 2 && |m| == 3 && |y| == 4 && |h| == 2 && |n| == 2 && |s| == 2 && i < 29
  {
    if i < 3 then w[i] else if i == 3 then ',' else if i == 4 then ' '
    else if i < 7 then d[i - 5] else if i == 7 then ' '
    else if i < 11 then m[i - 8] else if i == 11 then ' '
    else if i < 16 then y[i - 12] else if i == 16 then ' '
    else if i < 19 then h[i - 17] else if i == 19 then ':'
    else if i < 22 then n[i - 20] else if i == 22 then ':'
    else if i < 25 then s[i - 23] else if i == 25 then ' '
    else if i == 26 then 'G' else if i == 27 then 'M' else 'T'
  }

  /** `www, dd mmm yyyy hh:nn:ss GMT` */
  function Compose(w: string, d: string, m: string, y: string, h: string, n: string, s: string): (r: string)
    requires |w| == 3 && |d| == 2 && |m| == 3 && |y| == 4 && |h| == 2 && |n| == 2 && |s| == 2
    ensures |r| == 29
  {
    seq(29, i requires 0 <= i < 29 => CharAt(w, d, m, y, h, n, s, i))
  }

  lemma ComposeSlices(w: string, d: string, m: string, y: string, h: string, n: string, s: string)
    requires |w| == 3 && |d| == 2 && |m| == 3 && |y| == 4 && |h| == 2 && |n| == 2 && |s| == 2
    ensures var r := Compose(w, d, m, y, h, n, s);
      && r[0..3] == w && r[5..7] == d && r[8..11] == m && r[12..16] == y
      && r[17..19] == h && r[20..22] == n && r[23..25] == s
  {
  }

  predicate IsAscii(s: string) {
    forall i :: 0 <= i < |s| ==> s[i] as int < 128
  }

  lemma ComposeShape(w: string, d: string, m: string, y: string, h: string, n: string, s: string)
    requires |w| == 3 && |d| == 2 && |m| == 3 && |y| == 4 && |h| == 2 && |n| == 2 && |s| == 2
    requires IsAscii(w) && IsAscii(d) && IsAscii(m) && IsAscii(y) && IsAscii(h) && IsAscii(n) && IsAscii(s)
    ensures HasFixdateShape(Compose(w, d, m, y, h, n, s))
  {
  }

  /** The fields in the form of section 5.6.7 of RFC 9110. */
  function PrintFields(f: Fields): (r: string)
    requires Printable(f)
    ensures |r| == 29
  {
    NamesHaveThreeLetters();
    Compose(WEEKDAYS[f.weekday], Two(f.date.day), MONTHS[f.date.month - 1], Four(f.date.year),
            Two(f.hour), Two(f.minute), Two(f.second))
  }

  lemma ParseTwo(n: int)
    requires 0 <= n < 100
    ensures ParseUnsigned(Two(n), U32_MAX) == Some(n)
  {
    var s := Two(n);
    assert s[..1][..0] == "";
    assert DigitsValue(s[..1][..0]) == Some(0);
    assert DigitsValue(s[..1]) == Some(n / 10);
  }

  lemma FourDigits(n: int)
    requires 0 <= n < 10_000
    ensures n / 100 == 10 * (n / 1_000) + n / 100 % 10
    ensures n / 10 == 10 * (n / 100) + n / 10 % 10
    ensures n == 10 * (n / 10) + n % 10
  {
    var a, b := n / 100, n / 10;
    DivisionUnique(n, 1_000, a / 10, 100 * (a % 10) + n % 100);
    DivisionUnique(n, 100, b / 10, 10 * (b % 10) + n % 10);
  }

  lemma ParseFour(n: int)
    requires 0 <= n < 10_000
    ensures ParseSigned(Four(n), I32_MIN, I32_MAX) == Some(n)
  {
    FourDigits(n);
    var s := Four(n);
    assert DigitsValue("") == Some(0);
    assert s[..1][..0] == "";
    assert DigitsValue(s[..1]) == Some(n / 1_000);
    assert s[..2][..1] == s[..1];
    assert DigitsValue(s[..2]) == Some(n / 100);
    assert s[..3][..2] == s[..2];
    assert DigitsValue(s[..3]) == Some(n / 10);
    assert s[..3] == s[..|s| - 1];
  }

  lemma WeekdaysAreDistinct()
    ensures forall i :: 0 <= i < 7 ==> IndexOf(WEEKDAYS, WEEKDAYS[i], 0) == Some(i)
  {
    assert forall i, j :: 0 <= i < j < 7 ==> WEEKDAYS[i] != WEEKDAYS[j] by {
      assert forall i, j :: 0 <= i < j < 7 ==> WEEKDAYS[i][0] != WEEKDAYS[j][0] || WEEKDAYS[i][1] != WEEKDAYS[j][1];
    }
    hide WEEKDAYS;
  }

  lemma MonthsAreDistinct()
    ensures forall i :: 0 <= i < 12 ==> IndexOf(MONTHS, MONTHS[i], 0) == Some(i)
  {
    assert forall i, j :: 0 <= i < j < 12 ==> MONTHS[i] != MONTHS[j] by {
      assert forall i, j :: 0 <= i < j < 12 ==>
        MONTHS[i][0] != MONTHS[j][0] || MONTHS[i][1] != MONTHS[j][1] || MONTHS[i][2] != MONTHS[j][2];
    }
    hide MONTHS;
  }

  /** Printed fields parse back to themselves. */
  lemma FieldsRoundTrip(f: Fields)
    requires Printable(f)
    ensures HasFixdateShape(PrintFields(f)) && ParseFields(PrintFields(f)) == Some(f)
  {
    NamesHaveThreeLetters();
    WeekdaysAreDistinct();
    MonthsAreDistinct();
    var w, m := WEEKDAYS[f.weekday], MONTHS[f.date.month - 1];
    assert IsAscii(w) by { assert forall i :: 0 <= i < 3 ==> w[i] in w; }
    assert IsAscii(m) by { assert forall i :: 0 <= i < 3 ==> m[i] in m; }
    assert IndexOf(WEEKDAYS, w, 0) == Some(f.weekday) && IndexOf(MONTHS, m, 0) == Some(f.date.month - 1);
    RoundTripNamed(f, w, m);
  }

  lemma RoundTripNamed(f: Fields, w: string, m: string)
    requires Printable(f) && |w| == 3 && |m| == 3 && IsAscii(w) && IsAscii(m)
    requires IndexOf(WEEKDAYS, w, 0) == Some(f.weekday) && IndexOf(MONTHS, m, 0) == Some(f.date.month - 1)
    ensures
      var s := Compose(w, Two(f.date.day), m, Four(f.date.year), Two(f.hour), Two(f.minute), Two(f.second));
      HasFixdateShape(s) && ParseFields(s) == Some(f)
  {
    hide IndexOf, ParseUnsigned, ParseSigned, Compose, HasFixdateShape;
    ParseTwo(f.date.day);
    ParseTwo(f.hour);
    ParseTwo(f.minute);
    ParseTwo(f.second);
    ParseFour(f.date.year);
    ComposeShape(w, Two(f.date.day), m, Four(f.date.year), Two(f.hour), Two(f.minute), Two(f.second));
    ComposeSlices(w, Two(f.date.day), m, Four(f.date.year), Two(f.hour), Two(f.minute), Two(f.second));
  }

  /** A second of the years 1970 to 9999, as fields. */
  ghost function FieldsOf(t: int): Fields
    requires t >= 0 && t / 86_400 <= U64_MAX && CivilDateFromUnixDays(t / 86_400).Some?
  {
    Fields((t / 86_400 + 4) % 7, CivilDateFromUnixDays(t / 86_400).value, t % 86_400 / 3_600, t % 3_600 / 60, t % 60)
  }

  ghost predicate UpToYear9999(t: int) {
    0 <= t < YearStart(10_000) * 86_400
  }

  lemma FieldsOfSecond(t: int)
    requires UpToYear9999(t)
    ensures t / 86_400 <= U64_MAX && CivilDateFromUnixDays(t / 86_400).Some?
    ensures var f := FieldsOf(t);
      && Printable(f) && IsValid(f.date) && IsTimeOfDay(f.hour, f.minute, f.second)
      && DayNumber(f.date) == t / 86_400
      && t == DayNumber(f.date) * 86_400 + f.hour * 3_600 + f.minute * 60 + f.second
  {
    hide YearStart, CivilDateFromUnixDays, DayNumber;
    var days := t / 86_400;
    assert YearStart(10_000) == 2_932_897 by {
      YearStartIsMarch(10_000);
    }
    YearStartIsMarch(I32_MAX + 1);
    CivilDateExactly(days);
    var d := CivilDateFromUnixDays(days).value;
    YearBounds(d);
    assert d.year < 10_000;
    RecomposeSeconds(t);
  }

  lemma RecomposeSeconds(t: int)
    requires t >= 0
    ensures IsTimeOfDay(t % 86_400 / 3_600, t % 3_600 / 60, t % 60)
    ensures t == t / 86_400 * 86_400 + t % 86_400 / 3_600 * 3_600 + t % 3_600 / 60 * 60 + t % 60
  {
    var days, rem := t / 86_400, t % 86_400;
    var hour, left := rem / 3_600, rem % 3_600;
    DivisionUnique(t, 3_600, 24 * days + hour, left);
    var minute, second := left / 60, left % 60;
    DivisionUnique(t, 60, 1_440 * days + 60 * hour + minute, second);
  }

  ghost function PrintImfFixdate(t: int): string
    requires UpToYear9999(t)
  {
    FieldsOfSecond(t);
    PrintFields(FieldsOf(t))
  }

  /** Printing any second of the years 1970 to 9999 and parsing it gives that second. */
  lemma ImfFixdateRoundTrip(t: int)
    requires UpToYear9999(t)
    ensures ParseImfFixdate(PrintImfFixdate(t)) == Some(t)
  {
    hide PrintFields, ParseFields, HasFixdateShape, ParseImfFixdate;
    hide IsValid, DayNumber, YearStart, CivilDateFromUnixDays;
    FieldsOfSecond(t);
    FieldsRoundTrip(FieldsOf(t));
    ParsesExactly(PrintImfFixdate(t), t);
  }

  // ---- Retry-After ----

  predicate IsSpace(c: char) {
    c == ' ' || '\t' <= c <= '\r'
  }

  function TrimStart(s: string): string {
    if s != "" && IsSpace(s[0]) then TrimStart(s[1..]) else s
  }

  function TrimEnd(s: string): string {
    if s != "" && IsSpace(s[|s| - 1]) then TrimEnd(s[..|s| - 1]) else s
  }

  /** A trimmed value, at `now` in nanoseconds since the Unix epoch. */
  function RetryAfterOf(s: string, now: int): Option<int> {
    match ParseUnsigned(s, U64_MAX)
    case Some(seconds) => if seconds * 1_000 > U64_MAX then None else Some(seconds * 1_000)
    case None =>
      if ParseSigned(s, I64_MIN, I64_MAX).Some? then None
      else
        match ParseImfFixdate(s)
        case None => None
        case Some(t) =>
          var delay := t * 1_000_000_000 - now;
          if delay < 0 || delay / 1_000_000 > U64_MAX then None else Some(delay / 1_000_000)
  }

  /** `parse_retry_after_ms` */
  function ParseRetryAfterMs(value: string, now: int): Option<int> {
    var s := TrimEnd(TrimStart(value));
    if s == "" then None else RetryAfterOf(s, now)
  }

  // ---- Exactly which values, and how long ----

  ghost predicate Blank(s: string) {
    forall i :: 0 <= i < |s| ==> s[i] in {' ', '\t', '\n', '\r', 11 as char, 12 as char}
  }

  ghost predicate NoBlankEnds(s: string) {
    s != "" && !Blank(s[..1]) && !Blank(s[|s| - 1..])
  }

  lemma SpaceIsBlank(c: char)
    ensures IsSpace(c) <==> Blank([c])
  {
    assert [c][0] == c;
    assert '\t' as int == 9 && '\n' as int == 10 && '\r' as int == 13;
    assert IsSpace(c) <==> c as int == 32 || 9 <= c as int <= 13;
    assert 11 as char as int == 11 && 12 as char as int == 12;
  }

  lemma {:induction false} TrimStartExactly(a: string, t: string)
    requires Blank(a) && t != "" && !Blank(t[..1])
    ensures TrimStart(a + t) == t
  {
    if a != "" {
      SpaceIsBlank(a[0]);
      TrimStartExactly(a[1..], t);
      assert (a + t)[1..] == a[1..] + t;
    } else {
      SpaceIsBlank(t[0]);
      assert a + t == t && [t[0]] == t[..1];
    }
  }

  lemma {:induction false} TrimEndExactly(t: string, b: string)
    requires Blank(b) && t != "" && !Blank(t[|t| - 1..])
    ensures TrimEnd(t + b) == t
    decreases |b|
  {
    var n := |t + b| - 1;
    if b != "" {
      SpaceIsBlank(b[|b| - 1]);
      TrimEndExactly(t, b[..|b| - 1]);
      assert (t + b)[..n] == t + b[..|b| - 1];
    } else {
      SpaceIsBlank(t[|t| - 1]);
      assert t + b == t && [t[|t| - 1]] == t[|t| - 1..];
    }
  }

  /** White space around the value is dropped. */
  lemma TrimExactly(a: string, t: string, b: string)
    requires Blank(a) && Blank(b) && NoBlankEnds(t)
    ensures TrimEnd(TrimStart(a + t + b)) == t
  {
    assert a + t + b == a + (t + b) && (t + b)[..1] == t[..1];
    TrimStartExactly(a, t + b);
    TrimEndExactly(t, b);
  }

  /** A number is never a date. */
  lemma NumberIsNoDate(t: string)
    requires DigitsValue(t).Some? || (t != "" && t[0] in {'+', '-'} && DigitsValue(t[1..]).Some?)
    ensures ParseImfFixdate(t).None?
  {
    DigitsAlone(t);
    if t != "" {
      DigitsAlone(t[1..]);
      assert |t| > 3 ==> t[1..][2] == t[3];
    }
  }

  lemma PrintedDateIsPlain(f: Fields)
    requires Printable(f)
    ensures NoBlankEnds(PrintFields(f))
  {
    var s := PrintFields(f);
    NamesHaveThreeLetters();
    var w := WEEKDAYS[f.weekday];
    assert s[0] == w[0] && w[0] in w && s[..1] == [s[0]];
    assert s[28] == 'T' && s[28..] == [s[28]];
    SpaceIsBlank(s[0]);
    SpaceIsBlank(s[28]);
  }

  /** The wait until a date, in whole milliseconds. */
  ghost predicate WaitsUntil(seconds: int, now: int, ms: int) {
    var delay := seconds * 1_000_000_000 - now;
    0 <= delay && ms == delay / 1_000_000 <= U64_MAX
  }

  /** A number of seconds counts when its milliseconds fit u64. */
  lemma NumberCounts(t: string, n: nat, now: int)
    requires ShowsUnsigned(t, n)
    ensures RetryAfterOf(t, now) == if 1_000 * n <= U64_MAX then Some(1_000 * n) else None
  {
    ShownIsDigits(t, n);
    NumberIsNoDate(t);
    UnsignedExactly(t, U64_MAX, n);
    hide ParseUnsigned, ParseSigned, ParseImfFixdate, ShowsUnsigned;
    var seconds := ParseUnsigned(t, U64_MAX);
    if seconds.Some? {
      UnsignedExactly(t, U64_MAX, seconds.value);
      ShownOnce(t, n, seconds.value);
    }
  }

  /** Anything else counts when it is a date that is not past. */
  lemma DateCounts(t: string, now: int, ms: int)
    requires forall n: nat :: !ShowsUnsigned(t, n)
    ensures RetryAfterOf(t, now) == Some(ms) <==>
      exists seconds :: ParseImfFixdate(t) == Some(seconds) && WaitsUntil(seconds, now, ms)
  {
    hide ParseImfFixdate, ShowsUnsigned;
    var seconds := ParseUnsigned(t, U64_MAX);
    if seconds.Some? {
      UnsignedExactly(t, U64_MAX, seconds.value);
    } else if ParseSigned(t, I64_MIN, I64_MAX).Some? {
      SignedIsDigits(t);
      NumberIsNoDate(t);
    }
  }

  /**
  With white space around it, a value counts exactly when it is a number of
  seconds whose milliseconds fit u64, or a date that is not past.
  */
  lemma RetryAfterExactly(a: string, t: string, b: string, now: int, ms: int)
    requires Blank(a) && Blank(b) && NoBlankEnds(t)
    ensures ParseRetryAfterMs(a + t + b, now) == Some(ms) <==>
      || (exists n: nat :: ShowsUnsigned(t, n) && ms == 1_000 * n <= U64_MAX)
      || (exists seconds :: ParseImfFixdate(t) == Some(seconds) && WaitsUntil(seconds, now, ms))
  {
    TrimExactly(a, t, b);
    hide TrimStart, TrimEnd, ParseImfFixdate, Blank, ShowsUnsigned, RetryAfterOf, WaitsUntil;
    if n: nat :| ShowsUnsigned(t, n) {
      NumberCounts(t, n, now);
      ShownIsDigits(t, n);
      NumberIsNoDate(t);
      forall m: nat | ShowsUnsigned(t, m) ensures m == n { ShownOnce(t, n, m); }
    } else {
      DateCounts(t, now, ms);
    }
  }

  lemma SignedIsDigits(t: string)
    requires ParseSigned(t, I64_MIN, I64_MAX).Some?
    ensures DigitsValue(t).Some? || (t != "" && t[0] in {'+', '-'} && DigitsValue(t[1..]).Some?)
  {
  }

  lemma ShownIsDigits(t: string, n: nat)
    requires ShowsUnsigned(t, n)
    ensures t != "" && (DigitsValue(t) == Some(n) || (t[0] == '+' && DigitsValue(t[1..]) == Some(n)))
  {
    var s := if ShowsNumber(t, n) then t else t[1..];
    ShownNotEmpty(s, n);
    DigitsExactly(s, n);
  }

  /** A string shows one number. */
  lemma ShownOnce(t: string, n: nat, m: nat)
    requires ShowsUnsigned(t, n) && ShowsUnsigned(t, m)
    ensures n == m
  {
    ShownIsDigits(t, n);
    ShownIsDigits(t, m);
    DigitsAlone(t);
  }

  lemma DigitsHaveNoBlank(s: string)
    requires s != "" && '0' <= s[|s| - 1] <= '9' && ('0' <= s[0] <= '9' || s[0] == '+' || s[0] == '-')
    ensures NoBlankEnds(s)
  {
    assert s[..1] == [s[0]] && s[|s| - 1..] == [s[|s| - 1]];
    SpaceIsBlank(s[0]);
    SpaceIsBlank(s[|s| - 1]);
  }

  /**
  A number of seconds in decimal, with white space around it and for any clock,
  becomes milliseconds, or nothing when those exceed u64.
  */
  lemma DeltaSeconds(a: string, t: string, n: nat, b: string, now: int)
    requires Blank(a) && Blank(b) && ShowsUnsigned(t, n)
    ensures ParseRetryAfterMs(a + t + b, now) == if 1_000 * n <= U64_MAX then Some(1_000 * n) else None
  {
    ShownIsDigits(t, n);
    DigitsAlone(t);
    DigitsAlone(t[1..]);
    assert |t| > 1 ==> t[1..][|t| - 2] == t[|t| - 1];
    DigitsHaveNoBlank(t);
    NumberIsNoDate(t);
    hide ParseRetryAfterMs, ParseImfFixdate, ShowsUnsigned, Blank;
    forall ms
      ensures ParseRetryAfterMs(a + t + b, now) == Some(ms) <==> ms == 1_000 * n <= U64_MAX
    {
      RetryAfterExactly(a, t, b, now, ms);
      forall m: nat | ShowsUnsigned(t, m) ensures m == n { ShownOnce(t, n, m); }
    }
  }

  /** Negative seconds are nothing. */
  lemma NegativeSeconds(a: string, n: nat, b: string, now: int)
    requires Blank(a) && Blank(b)
    ensures ParseRetryAfterMs(a + ("-" + Decimal(n)) + b, now) == None
  {
    DecimalRoundTrip(n);
    var t := "-" + Decimal(n);
    assert t[1..] == Decimal(n) && t[|t| - 1] == Decimal(n)[|t| - 2];
    DigitsHaveNoBlank(t);
    NumberIsNoDate(t);
    hide ParseRetryAfterMs, ParseImfFixdate, Blank;
    forall ms ensures ParseRetryAfterMs(a + t + b, now) != Some(ms) {
      RetryAfterExactly(a, t, b, now, ms);
      if m: nat :| ShowsUnsigned(t, m) {
        ShownIsDigits(t, m);
        DigitsAlone(t);
      }
    }
  }

  /**
  A printed date, with white space around it, makes the caller wait the whole
  milliseconds until then, for any clock; it is ignored once past, or when the
  wait exceeds u64.
  */
  lemma RetryAfterDate(a: string, t: int, b: string, now: int)
    requires Blank(a) && Blank(b) && UpToYear9999(t)
    ensures
      var delay := t * 1_000_000_000 - now;
      ParseRetryAfterMs(a + PrintImfFixdate(t) + b, now) ==
        if 0 <= delay && delay / 1_000_000 <= U64_MAX then Some(delay / 1_000_000) else None
  {
    var s := PrintImfFixdate(t);
    ImfFixdateRoundTrip(t);
    FieldsOfSecond(t);
    PrintedDateIsPlain(FieldsOf(t));
    hide ParseRetryAfterMs, ParseImfFixdate, ShowsUnsigned, PrintFields, PrintImfFixdate, FieldsOf, IsValid, DayNumber;
    forall ms
      ensures ParseRetryAfterMs(a + s + b, now) == Some(ms) <==> WaitsUntil(t, now, ms)
    {
      RetryAfterExactly(a, s, b, now, ms);
      if n: nat :| ShowsUnsigned(s, n) {
        ShownIsDigits(s, n);
        NumberIsNoDate(s);
      }
    }
  }
}

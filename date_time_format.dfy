/**
 * The date check of the post validator: PHP's
 * `date_create_from_format('Y-m-d H:i:s', …)` followed by
 * `date_get_last_errors()`, approximated by a strict fixed-width layout
 * `YYYY-MM-DD HH:MM:SS`. A string of that shape parses; its fields are then
 * range-checked, and each failed range check is one warning, as PHP's parser
 * reports "The parsed time was invalid" and "The parsed date was invalid".
 */
module DateTimeFormat {
  import opened Wrappers

  /** The fields read by the format characters Y, m, d, H, i and s. */
  datatype DateTime = DateTime(year: int, month: int, day: int, hour: int, minute: int, second: int)

  /** A string that matched the layout: the fields read and how many warnings were raised. */
  datatype Parsed = Parsed(value: DateTime, warningCount: nat)

  // ---------------------------------------------------------------------------
  // Calendar

  /** Gregorian leap years: every fourth year, except centuries not divisible by 400. */
  predicate IsLeapYear(y: int) {
    y % 4 == 0 && (y % 100 != 0 || y % 400 == 0)
  }

  function DaysInMonth(y: int, m: int): (n: int)
    requires 1 <= m <= 12
    ensures 28 <= n <= 31
    ensures n == 28 <==> m == 2 && !IsLeapYear(y)
    ensures n == 29 <==> m == 2 && IsLeapYear(y)
    ensures n == 30 <==> m in {4, 6, 9, 11}
    ensures n == 31 <==> m in {1, 3, 5, 7, 8, 10, 12}
  {
    if m == 2 then (if IsLeapYear(y) then 29 else 28)
    else if m == 4 || m == 6 || m == 9 || m == 11 then 30
    else 31
  }

  /** A month that exists and a day that exists in it. */
  predicate ValidDate(y: int, m: int, d: int) {
    1 <= m <= 12 && 1 <= d <= DaysInMonth(y, m)
  }

  /** An hour of a 24-hour clock, a minute and a second. */
  predicate ValidTime(h: int, i: int, s: int) {
    0 <= h <= 23 && 0 <= i <= 59 && 0 <= s <= 59
  }

  /** A date and time that the strict layout can spell: a four-digit year, a real date, a real time. */
  predicate WellFormed(dt: DateTime) {
    0 <= dt.year <= 9999
    && ValidDate(dt.year, dt.month, dt.day)
    && ValidTime(dt.hour, dt.minute, dt.second)
  }

  // ---------------------------------------------------------------------------
  // Decimal digits

  predicate IsDigit(c: char) {
    '0' <= c <= '9'
  }

  predicate AllDigits(s: string) {
    forall i :: 0 <= i < |s| ==> IsDigit(s[i])
  }

  function DigitValue(c: char): (v: nat)
    requires IsDigit(c)
    ensures v <= 9
  {
    c as int - '0' as int
  }

  function DigitChar(v: nat): (c: char)
    requires v <= 9
    ensures IsDigit(c) && DigitValue(c) == v
  {
    ('0' as int + v) as char
  }

  function Pow10(n: nat): (p: nat)
    ensures p >= 1
  {
    if n == 0 then 1 else 10 * Pow10(n - 1)
  }

  /** The number a string of decimal digits denotes, most significant digit first. */
  function NumberOf(s: string): (n: nat)
    requires AllDigits(s)
    ensures n < Pow10(|s|)
  {
    if s == [] then 0
    else
      var init := s[..|s| - 1];
      assert AllDigits(init) by {
        forall i | 0 <= i < |init| ensures IsDigit(init[i]) {
          assert init[i] == s[i];
        }
      }
      NumberOf(init) * 10 + DigitValue(s[|s| - 1])
  }

  /** `n` written in exactly `width` decimal digits, with leading zeros. */
  function Padded(n: nat, width: nat): (s: string)
    requires n < Pow10(width)
    ensures |s| == width && AllDigits(s)
  {
    if width == 0 then ""
    else Padded(n / 10, width - 1) + [DigitChar(n % 10)]
  }

  lemma {:induction false} NumberOfPadded(n: nat, width: nat)
    requires n < Pow10(width)
    ensures NumberOf(Padded(n, width)) == n
  {
    if width > 0 {
      var s := Padded(n, width);
      assert s[..|s| - 1] == Padded(n / 10, width - 1);
      NumberOfPadded(n / 10, width - 1);
    }
  }

  lemma {:induction false} PaddedNumberOf(s: string)
    requires AllDigits(s)
    ensures Padded(NumberOf(s), |s|) == s
  {
    if s != [] {
      var init := s[..|s| - 1];
      assert AllDigits(init) by {
        forall i | 0 <= i < |init| ensures IsDigit(init[i]) {
          assert init[i] == s[i];
        }
      }
      PaddedNumberOf(init);
      var n := NumberOf(s);
      assert n / 10 == NumberOf(init) && n % 10 == DigitValue(s[|s| - 1]);
      assert DigitChar(DigitValue(s[|s| - 1])) == s[|s| - 1];
      assert s == init + [s[|s| - 1]];
    }
  }

  // ---------------------------------------------------------------------------
  // The layout `Y-m-d H:i:s`

  /** `s` has the shape `dddd-dd-dd dd:dd:dd`, with a digit at every `d`. */
  predicate MatchesLayout(s: string) {
    |s| == 19
    && AllDigits(s[0..4]) && s[4] == '-'
    && AllDigits(s[5..7]) && s[7] == '-'
    && AllDigits(s[8..10]) && s[10] == ' '
    && AllDigits(s[11..13]) && s[13] == ':'
    && AllDigits(s[14..16]) && s[16] == ':'
    && AllDigits(s[17..19])
  }

  /** The six fields put together with the layout's separators. */
  function Join(y: string, mo: string, d: string, h: string, mi: string, se: string): string {
    y + "-" + mo + "-" + d + " " + h + ":" + mi + ":" + se
  }

  /** Fields of the right widths, joined, match the layout, and slicing the result gives them back. */
  lemma JoinLayout(y: string, mo: string, d: string, h: string, mi: string, se: string)
    requires |y| == 4 && |mo| == 2 && |d| == 2 && |h| == 2 && |mi| == 2 && |se| == 2
    requires AllDigits(y) && AllDigits(mo) && AllDigits(d) && AllDigits(h) && AllDigits(mi) && AllDigits(se)
    ensures var s := Join(y, mo, d, h, mi, se);
            && s[0..4] == y && s[5..7] == mo && s[8..10] == d
            && s[11..13] == h && s[14..16] == mi && s[17..19] == se
            && MatchesLayout(s)
  {
  }

  /** A string with the layout is the join of its own fields. */
  lemma LayoutIsJoin(s: string)
    requires MatchesLayout(s)
    ensures s == Join(s[0..4], s[5..7], s[8..10], s[11..13], s[14..16], s[17..19])
  {
  }

  /** The fields a string with the layout denotes. */
  function FieldsOf(s: string): (dt: DateTime)
    requires MatchesLayout(s)
    ensures 0 <= dt.year <= 9999
  {
    assert Pow10(4) == 10000;
    DateTime(NumberOf(s[0..4]), NumberOf(s[5..7]), NumberOf(s[8..10]),
             NumberOf(s[11..13]), NumberOf(s[14..16]), NumberOf(s[17..19]))
  }

  /** One warning for a time out of range and one for a date that does not exist. */
  function WarningCount(dt: DateTime): (n: nat)
    ensures n <= 2
    ensures n == 0 <==> ValidDate(dt.year, dt.month, dt.day) && ValidTime(dt.hour, dt.minute, dt.second)
  {
    (if ValidTime(dt.hour, dt.minute, dt.second) then 0 else 1)
    + (if ValidDate(dt.year, dt.month, dt.day) then 0 else 1)
  }

  /**
   * `date_create_from_format('Y-m-d H:i:s', s)` on the fixed-width layout:
   * None where the string lacks that layout (standing for PHP's false, though
   * PHP's parser also accepts some shorter or differently spaced strings),
   * otherwise the fields read and the warning count `date_get_last_errors()`
   * would report.
   */
  function ParseFromFormat(s: string): (r: Option<Parsed>)
    ensures r.Some? <==> MatchesLayout(s)
    ensures r.Some? ==> r.value.value == FieldsOf(s) && r.value.warningCount == WarningCount(FieldsOf(s))
    ensures r.Some? ==> (r.value.warningCount == 0 <==> WellFormed(r.value.value))
  {
    if MatchesLayout(s) then
      var dt := FieldsOf(s);
      Some(Parsed(dt, WarningCount(dt)))
    else
      None
  }

  /** The string parses under the format and the parse raised no warning. */
  predicate ValidDateTime(s: string): (ok: bool)
    ensures ok <==> MatchesLayout(s) && WellFormed(FieldsOf(s))
    ensures ok ==> |s| == 19
  {
    var r := ParseFromFormat(s);
    r.Some? && r.value.warningCount == 0
  }

  /** The canonical spelling of a well-formed date and time in the layout. */
  function Format(dt: DateTime): (s: string)
    requires WellFormed(dt)
  {
    assert Pow10(4) == 10000 && Pow10(2) == 100;
    Join(Padded(dt.year, 4), Padded(dt.month, 2), Padded(dt.day, 2),
         Padded(dt.hour, 2), Padded(dt.minute, 2), Padded(dt.second, 2))
  }

  /** Every well-formed date and time, once formatted, parses back to itself without warnings. */
  lemma FormatThenParse(dt: DateTime)
    requires WellFormed(dt)
    ensures ParseFromFormat(Format(dt)) == Some(Parsed(dt, 0))
    ensures ValidDateTime(Format(dt))
  {
    assert Pow10(4) == 10000 && Pow10(2) == 100;
    JoinLayout(Padded(dt.year, 4), Padded(dt.month, 2), Padded(dt.day, 2),
               Padded(dt.hour, 2), Padded(dt.minute, 2), Padded(dt.second, 2));
    NumberOfPadded(dt.year, 4);
    NumberOfPadded(dt.month, 2);
    NumberOfPadded(dt.day, 2);
    NumberOfPadded(dt.hour, 2);
    NumberOfPadded(dt.minute, 2);
    NumberOfPadded(dt.second, 2);
    assert FieldsOf(Format(dt)) == dt;
  }

  /** A string that passes the check is exactly the canonical spelling of what it parses to. */
  lemma ParseThenFormat(s: string)
    requires ValidDateTime(s)
    ensures WellFormed(ParseFromFormat(s).value.value)
    ensures Format(ParseFromFormat(s).value.value) == s
  {
    var dt := FieldsOf(s);
    LayoutIsJoin(s);
    PaddedNumberOf(s[0..4]);
    PaddedNumberOf(s[5..7]);
    PaddedNumberOf(s[8..10]);
    PaddedNumberOf(s[11..13]);
    PaddedNumberOf(s[14..16]);
    PaddedNumberOf(s[17..19]);
  }

  /** The strict check accepts exactly the spellings of well-formed dates and times. */
  lemma ValidDateTimeIff(s: string)
    ensures ValidDateTime(s) <==> exists dt :: WellFormed(dt) && Format(dt) == s
  {
    if ValidDateTime(s) {
      ParseThenFormat(s);
    }
    if exists dt :: WellFormed(dt) && Format(dt) == s {
      var dt :| WellFormed(dt) && Format(dt) == s;
      FormatThenParse(dt);
    }
  }

  /** The empty string never passes, so an empty publication date cannot be a valid one. */
  lemma EmptyIsNotValid()
    ensures !ValidDateTime("")
  {
  }

  // ---------------------------------------------------------------------------
  // Examples

  /** The value of a two-digit field. */
  lemma NumberOfTwo(s: string)
    requires |s| == 2 && AllDigits(s)
    ensures NumberOf(s) == 10 * DigitValue(s[0]) + DigitValue(s[1])
  {
  }

  /** The value of a four-digit field. */
  lemma NumberOfFour(s: string)
    requires |s| == 4 && AllDigits(s)
    ensures NumberOf(s) == 1000 * DigitValue(s[0]) + 100 * DigitValue(s[1]) + 10 * DigitValue(s[2]) + DigitValue(s[3])
  {
    assert s[..3][..2] == s[..2];
    NumberOfTwo(s[..2]);
  }

  /** 29 February exists in a leap year. */
  lemma LeapDayExample()
    ensures ValidDateTime("2024-02-29 23:59:59")
  {
    JoinLayout("2024", "02", "29", "23", "59", "59");
    assert Join("2024", "02", "29", "23", "59", "59") == "2024-02-29 23:59:59";
    NumberOfFour("2024");
    NumberOfTwo("02");
    NumberOfTwo("29");
    NumberOfTwo("23");
    NumberOfTwo("59");
    assert FieldsOf("2024-02-29 23:59:59") == DateTime(2024, 2, 29, 23, 59, 59);
  }

  /** 29 February does not exist in a common year: the string parses, with a warning. */
  lemma CommonYearExample()
    ensures ParseFromFormat("2023-02-29 12:00:00").Some?
    ensures ParseFromFormat("2023-02-29 12:00:00").value.warningCount > 0
    ensures !ValidDateTime("2023-02-29 12:00:00")
  {
    JoinLayout("2023", "02", "29", "12", "00", "00");
    assert Join("2023", "02", "29", "12", "00", "00") == "2023-02-29 12:00:00";
    NumberOfFour("2023");
    NumberOfTwo("02");
    NumberOfTwo("29");
    var dt := FieldsOf("2023-02-29 12:00:00");
    assert dt.year == 2023 && dt.month == 2 && dt.day == 29;
  }

  /** Month 13 parses but raises a warning. */
  lemma MonthThirteenExample()
    ensures ParseFromFormat("2024-13-01 00:00:00").Some?
    ensures ParseFromFormat("2024-13-01 00:00:00").value.warningCount > 0
    ensures !ValidDateTime("2024-13-01 00:00:00")
  {
    JoinLayout("2024", "13", "01", "00", "00", "00");
    assert Join("2024", "13", "01", "00", "00", "00") == "2024-13-01 00:00:00";
    NumberOfTwo("13");
    assert FieldsOf("2024-13-01 00:00:00").month == 13;
  }

  /** Day 32 parses but raises a warning. */
  lemma DayThirtyTwoExample()
    ensures ParseFromFormat("2024-01-32 00:00:00").Some?
    ensures ParseFromFormat("2024-01-32 00:00:00").value.warningCount > 0
    ensures !ValidDateTime("2024-01-32 00:00:00")
  {
    JoinLayout("2024", "01", "32", "00", "00", "00");
    assert Join("2024", "01", "32", "00", "00", "00") == "2024-01-32 00:00:00";
    NumberOfTwo("01");
    NumberOfTwo("32");
    var dt := FieldsOf("2024-01-32 00:00:00");
    assert dt.month == 1 && dt.day == 32;
  }

  /** Every field out of range at once. */
  lemma AllOutOfRangeExample()
    ensures !ValidDateTime("2024-13-40 99:99:99")
  {
    JoinLayout("2024", "13", "40", "99", "99", "99");
    assert Join("2024", "13", "40", "99", "99", "99") == "2024-13-40 99:99:99";
    NumberOfTwo("13");
    assert FieldsOf("2024-13-40 99:99:99").month == 13;
  }

  /** A string without the seconds field does not match the layout. */
  lemma ShortExample()
    ensures ParseFromFormat("2024-01-05 10:00").None?
    ensures !ValidDateTime("2024-01-05 10:00")
  {
  }
}

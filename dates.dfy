/**
 * The date parser `d3.timeParse("%d-%b-%y")` of d3-time-format, in the
 * en-US locale. A date is a day number: days since 1 January 1970 in the
 * proleptic Gregorian calendar, which orders dates as their local-midnight
 * `getTime()` values do.
 */
module Dates {
  import opened Wrappers
  import opened Chars

  /** English three-letter month names, as `%b` reads them. */
  const MonthNames: seq<string> :=
    ["Jan", "Feb", "Mar", "Apr", "May", "Jun", "Jul", "Aug", "Sep", "Oct", "Nov", "Dec"]

  /**
   * Day number of day `d` of month `m` (1 to 12) of year `y`. Like the
   * `Date` constructor, a day outside the month rolls over into the next or
   * previous months (day 0 is the last day of the previous month).
   */
  function DayNumber(y: int, m: int, d: int): int
    requires 1 <= m <= 12
  {
    var y' := if m <= 2 then y - 1 else y;
    var era := y' / 400;
    var yoe := y' - era * 400;
    var mp := if m > 2 then m - 3 else m + 9;
    var doy := (153 * mp + 2) / 5 + d - 1;
    var doe := yoe * 365 + yoe / 4 - yoe / 100 + doy;
    era * 146097 + doe - 719468
  }

  /** Day numbers count days from 1 January 1970, which is day 0. */
  lemma DayNumberEpoch(d: int)
    ensures DayNumber(1970, 1, d) == d - 1
  {
  }

  /** The Gregorian leap-year rule. */
  predicate IsLeapYear(y: int)
  {
    y % 4 == 0 && (y % 100 != 0 || y % 400 == 0)
  }

  /** Length of month `m` of year `y`. */
  function DaysInMonth(y: int, m: int): int
    requires 1 <= m <= 12
  {
    if m == 2 then (if IsLeapYear(y) then 29 else 28)
    else if m == 4 || m == 6 || m == 9 || m == 11 then 30
    else 31
  }
  /** Days from 1 March of year 0 to 1 March of year `y`. */
  function MarchYearStart(y: int): int
  {
    var era := y / 400;
    var yoe := y - era * 400;
    era * 146097 + yoe * 365 + yoe / 4 - yoe / 100
  }
  /** The year from 1 March of `y` has 366 days when the February in it has 29. */
  lemma MarchYearLength(y: int)
    ensures MarchYearStart(y + 1) - MarchYearStart(y) == if IsLeapYear(y + 1) then 366 else 365
  {
    var era := y / 400;
    var yoe := y - era * 400;
    MarchYearStartIn(y, era, yoe);
    if yoe == 399 {
      MarchYearStartIn(y + 1, era + 1, 0);
      EraRemainders(y + 1, era + 1, 0);
      assert yoe / 4 == 99 && yoe / 100 == 3;
    } else {
      MarchYearStartIn(y + 1, era, yoe + 1);
      LeapWithinEra(y + 1, era, yoe + 1);
    }
  }

  /** `MarchYearStart` in terms of any division of the year into eras of 400 years. */
  lemma MarchYearStartIn(y: int, era: int, yoe: int)
    requires y == 400 * era + yoe && 0 <= yoe < 400
    ensures MarchYearStart(y) == era * 146097 + yoe * 365 + yoe / 4 - yoe / 100
  {
    assert y / 400 == era;
  }

  /** The remainders that decide a leap year are those of the year within its era. */
  lemma EraRemainders(z: int, era: int, r: int)
    requires z == 400 * era + r && 0 <= r < 400
    ensures z % 4 == r % 4 && z % 100 == r % 100 && z % 400 == r
  {
    RemainderOf4(z, 100 * era, r);
    RemainderOf100(z, 4 * era, r);
  }

  lemma RemainderOf4(z: int, k: int, r: int)
    requires z == 4 * k + r && r >= 0
    ensures z % 4 == r % 4
  {
    assert z == 4 * (k + r / 4) + r % 4;
  }

  lemma RemainderOf100(z: int, k: int, r: int)
    requires z == 100 * k + r && r >= 0
    ensures z % 100 == r % 100
  {
    assert z == 100 * (k + r / 100) + r % 100;
  }

  /** `r / n` steps up by one exactly at the multiples of `n`. */
  lemma StepsAtMultiples(r: int)
    requires 1 <= r < 400
    ensures r / 4 - (r - 1) / 4 == if r % 4 == 0 then 1 else 0
    ensures r / 100 - (r - 1) / 100 == if r % 100 == 0 then 1 else 0
  {
  }

  /** Within a 400-year era, the leap years are where `r / 4` steps up and `r / 100` does not. */
  lemma LeapWithinEra(z: int, era: int, r: int)
    requires z == 400 * era + r && 1 <= r < 400
    ensures (r / 4 - (r - 1) / 4) - (r / 100 - (r - 1) / 100) == if IsLeapYear(z) then 1 else 0
  {
    EraRemainders(z, era, r);
    StepsAtMultiples(r);
  }

  /** `DayNumber` counts whole years from March, then days within the year. */
  lemma DayNumberParts(y: int, m: int, d: int)
    requires 1 <= m <= 12
    ensures DayNumber(y, m, d) == MarchYearStart(if m <= 2 then y - 1 else y) + (153 * (if m > 2 then m - 3 else m + 9) + 2) / 5 + d - 1 - 719468
  {}
  /**
   * Day numbers follow the Gregorian calendar: the first of the next month
   * comes `DaysInMonth` days after the first of this one, and the day after
   * the last of a month is the first of the next (as `new Date` rolls it over).
   */
  lemma NextMonth(y: int, m: int)
    requires 1 <= m <= 12
    ensures DayNumber(if m == 12 then y + 1 else y, if m == 12 then 1 else m + 1, 1) == DayNumber(y, m, 1) + DaysInMonth(y, m)
    ensures DayNumber(y, m, DaysInMonth(y, m) + 1) == DayNumber(if m == 12 then y + 1 else y, if m == 12 then 1 else m + 1, 1)
  {
    DayNumberParts(y, m, 1);
    DayNumberParts(y, m, DaysInMonth(y, m) + 1);
    DayNumberParts(if m == 12 then y + 1 else y, if m == 12 then 1 else m + 1, 1);
    if m == 2 {
      MarchYearLength(y - 1);
    }
  }

  /** Later days of the same month have larger day numbers. */
  lemma WithinMonth(y: int, m: int, d1: int, d2: int)
    requires 1 <= m <= 12 && d1 < d2
    ensures DayNumber(y, m, d1) < DayNumber(y, m, d2)
  {
    DayNumberParts(y, m, d1);
    DayNumberParts(y, m, d2);
  }

  /**
   * Day numbers order the dates of a year chronologically: an earlier month,
   * or the same month and an earlier day, gives a smaller day number.
   */
  lemma {:induction false} DayNumberOrder(y: int, m1: int, d1: int, m2: int, d2: int)
    requires 1 <= m1 <= m2 <= 12
    requires 1 <= d1 <= DaysInMonth(y, m1) && 1 <= d2
    requires m1 < m2 || d1 < d2
    ensures DayNumber(y, m1, d1) < DayNumber(y, m2, d2)
    decreases m2 - m1
  {
    if m1 < m2 {
      var last := DaysInMonth(y, m1);
      if d1 < last {
        WithinMonth(y, m1, d1, last);
      }
      NextMonth(y, m1);
      WithinMonth(y, m1, last, last + 1);
      if m1 + 1 < m2 || 1 < d2 {
        DayNumberOrder(y, m1 + 1, 1, m2, d2);
      }
    } else {
      WithinMonth(y, m1, d1, d2);
    }
  }

  /**
   * Day numbers order dates chronologically across years: an earlier year,
   * or the same year and an earlier month or day, gives a smaller day number.
   */
  lemma {:induction false} DateOrder(y1: int, m1: int, d1: int, y2: int, m2: int, d2: int)
    requires 1 <= m1 <= 12 && 1 <= m2 <= 12
    requires 1 <= d1 <= DaysInMonth(y1, m1) && 1 <= d2
    requires y1 < y2 || (y1 == y2 && (m1 < m2 || (m1 == m2 && d1 < d2)))
    ensures DayNumber(y1, m1, d1) < DayNumber(y2, m2, d2)
    decreases y2 - y1
  {
    if y1 == y2 {
      DayNumberOrder(y1, m1, d1, m2, d2);
    } else {
      BeforeNewYear(y1, m1, d1);
      if y1 + 1 < y2 || m2 > 1 || d2 > 1 {
        DateOrder(y1 + 1, 1, 1, y2, m2, d2);
      }
    }
  }

  /** Every day of a year comes before the first of January of the next. */
  lemma BeforeNewYear(y: int, m: int, d: int)
    requires 1 <= m <= 12 && 1 <= d <= DaysInMonth(y, m)
    ensures DayNumber(y, m, d) < DayNumber(y + 1, 1, 1)
  {
    if m < 12 || d < 31 {
      DayNumberOrder(y, m, d, 12, 31);
    }
    WithinMonth(y, 12, 31, 32);
    NextMonth(y, 12);
  }

  /** A number read by a directive: its value and the index just after it. */
  datatype Field = Field(value: int, end: nat)

  /**
   * A numeric field of `%d` or `%y` written out on its own: one digit, two
   * digits, or one digit after a JavaScript white-space character.
   */
  predicate NumericText(f: string)
  {
    || (|f| == 1 && IsDigit(f[0]))
    || (|f| == 2 && IsDigit(f[1]) && (IsDigit(f[0]) || IsJsSpace(f[0])))
  }

  /** The number a numeric field spells: its digits, read in base ten. */
  function NumericValue(f: string): int
    requires NumericText(f)
  {
    if |f| == 1 then DigitValue(f[0])
    else if IsDigit(f[0]) then 10 * DigitValue(f[0]) + DigitValue(f[1])
    else DigitValue(f[1])
  }

  /**
   * The numeric directives `%d` and `%y`: the regular expression `^\s*\d+`
   * (d3-time-format's `numberRe`) applied to the (at most) two characters
   * at `i`. Within two characters it matches two digits, one digit, or one
   * digit after a white-space character; a sign is not a digit, so `+1`
   * and `-1` do not match.
   */
  function ParseTwoChars(s: string, i: nat): (r: Option<Field>)
    ensures r.Some? ==> i < r.value.end <= i + 2 && r.value.end <= |s|
    ensures r.Some? ==> 0 <= r.value.value <= 99
  {
    if i >= |s| then None
    else if IsDigit(s[i]) then
      if i + 1 < |s| && IsDigit(s[i + 1]) then Some(Field(10 * DigitValue(s[i]) + DigitValue(s[i + 1]), i + 2))
      else Some(Field(DigitValue(s[i]), i + 1))
    else if i + 1 < |s| && IsJsSpace(s[i]) && IsDigit(s[i + 1]) then Some(Field(DigitValue(s[i + 1]), i + 2))
    else None
  }

  /** ASCII case folding, as a case-insensitive non-Unicode regular expression compares letters. */
  function Lower(c: char): char
  {
    if 'A' <= c <= 'Z' then (c as int + 32) as char else c
  }

  predicate SameIgnoringCase(a: string, b: string)
  {
    |a| == |b| && forall k :: 0 <= k < |a| ==> Lower(a[k]) == Lower(b[k])
  }

  /** The first month, from `from` on, whose name matches `w` ignoring case. */
  function FindMonth(w: string, from: nat): (r: Option<int>)
    requires from <= 12
    ensures r.Some? ==> from + 1 <= r.value <= 12 && SameIgnoringCase(w, MonthNames[r.value - 1])
    decreases 12 - from
  {
    if from == 12 then None
    else if SameIgnoringCase(w, MonthNames[from]) then Some(from + 1)
    else FindMonth(w, from + 1)
  }

  /** The `%b` directive at `i`: a month (1 to 12), when the next three characters name one. */
  function ParseMonth(s: string, i: nat): (r: Option<int>)
    ensures r.Some? ==>
      i + 3 <= |s| && 1 <= r.value <= 12 && SameIgnoringCase(s[i..i + 3], MonthNames[r.value - 1])
  {
    if i + 3 <= |s| then FindMonth(s[i..i + 3], 0) else None
  }

  /** `%y`: a two-digit year above 68 is in the 1900s, otherwise in the 2000s. */
  function CenturyPivot(yy: int): (r: int)
    ensures 0 <= yy <= 99 ==> 1969 <= r <= 2068 && r % 100 == yy
  {
    yy + (if yy > 68 then 1900 else 2000)
  }

  /** The fields a date string holds: the day, the month (1 to 12) and the two-digit year. */
  datatype DateFields = DateFields(day: int, month: int, yy: int)

  /**
   * The fields `%d-%b-%y` reads from `s`, directive by directive, or `None`
   * when `s` does not match the whole pattern.
   */
  function ReadFields(s: string): (r: Option<DateFields>)
    ensures r.Some? ==> 7 <= |s| <= 9 && 1 <= r.value.month <= 12
  {
    var day := ParseTwoChars(s, 0);
    if day.None? then None
    else
      var i := day.value.end;
      if !(i < |s| && s[i] == '-') then None
      else
        var month := ParseMonth(s, i + 1);
        if month.None? || !(i + 4 < |s| && s[i + 4] == '-') then None
        else
          var year := ParseTwoChars(s, i + 5);
          if year.None? || year.value.end != |s| then None
          else Some(DateFields(day.value.value, month.value, year.value.value))
  }

  /**
   * `d3.timeParse("%d-%b-%y")(s)`: the day number of the date `s` spells,
   * or `None` (JavaScript's `null`) when `s` does not match the whole
   * pattern. It never fails otherwise.
   */
  function ParseDate(s: string): (r: Option<int>)
    ensures r.Some? ==> 7 <= |s| <= 9
  {
    match ReadFields(s)
    case None => None
    case Some(f) => Some(DayNumber(CenturyPivot(f.yy), f.month, f.day))
  }

  /**
   * `s` is laid out as `%d-%b-%y`, with a day field of `k` characters and
   * the name of month `m`: the day field, `-`, the three letters of the
   * month name in any case, `-`, and a year field that ends the string.
   * Both numeric fields are what `^\s*\d+` matches within two characters.
   */
  predicate DateLayout(s: string, k: nat, m: int)
  {
    && 1 <= m <= 12 && k + 5 <= |s|
    && NumericText(s[..k]) && s[k] == '-'
    && SameIgnoringCase(s[k + 1..k + 4], MonthNames[m - 1])
    && s[k + 4] == '-' && NumericText(s[k + 5..])
  }

  /** `s` is laid out as `%d-%b-%y`, for some width of the day field and some month. */
  predicate IsDateText(s: string)
  {
    exists k: nat, m :: 1 <= k <= 2 && 1 <= m <= 12 && DateLayout(s, k, m)
  }

  /** The date a laid-out string spells, its year read through the `%y` pivot. */
  function LayoutDate(s: string, k: nat, m: int): int
    requires DateLayout(s, k, m)
  {
    DayNumber(CenturyPivot(NumericValue(s[k + 5..])), m, NumericValue(s[..k]))
  }

  /**
   * The parser accepts exactly the strings laid out as `%d-%b-%y`, and
   * gives the date their fields spell.
   */
  lemma ParseDateLayout(s: string)
    ensures ParseDate(s).Some? <==> IsDateText(s)
    ensures forall k: nat, m :: DateLayout(s, k, m) ==> ParseDate(s) == Some(LayoutDate(s, k, m))
  {
    if ParseDate(s).Some? {
      ParsedLayout(s);
    }
    forall k: nat, m | DateLayout(s, k, m)
      ensures ParseDate(s) == Some(LayoutDate(s, k, m))
    {
      LayoutParses(s, k, m);
    }
  }

  /** A string the parser accepts is laid out as `%d-%b-%y`, with the date its fields spell. */
  lemma ParsedLayout(s: string)
    requires ParseDate(s).Some?
    ensures exists k: nat, m :: DateLayout(s, k, m) && ParseDate(s) == Some(LayoutDate(s, k, m))
  {
    var day, m, year := ParsedParts(s);
    FieldsLayout(s, day, m, year);
    assert DateLayout(s, day.end, m) && ParseDate(s) == Some(LayoutDate(s, day.end, m));
  }

  /** What an accepted string is made of: the three fields the parser reads, and the two dashes. */
  lemma ParsedParts(s: string) returns (day: Field, m: int, year: Field)
    requires ReadFields(s).Some?
    ensures ParseMonth(s, day.end + 1) == Some(m)
    ensures ParseTwoChars(s, 0) == Some(day) && ParseTwoChars(s, day.end + 5) == Some(year)
    ensures s[day.end] == '-' && s[day.end + 4] == '-' && year.end == |s|
    ensures ReadFields(s) == Some(DateFields(day.value, m, year.value))
  {
    day := ParseTwoChars(s, 0).value;
    m := ParseMonth(s, day.end + 1).value;
    year := ParseTwoChars(s, day.end + 5).value;
  }

  /** The fields the parser reads, with dashes between them, make up the layout. */
  lemma FieldsLayout(s: string, day: Field, m: int, year: Field)
    requires ParseMonth(s, day.end + 1) == Some(m)
    requires ParseTwoChars(s, 0) == Some(day) && ParseTwoChars(s, day.end + 5) == Some(year)
    requires s[day.end] == '-' && s[day.end + 4] == '-' && year.end == |s|
    ensures DateLayout(s, day.end, m)
    ensures NumericValue(s[..day.end]) == day.value && NumericValue(s[day.end + 5..]) == year.value
  {
    ReadField(s, 0);
    ReadField(s, day.end + 5);
    assert s[0..day.end] == s[..day.end];
    assert s[day.end + 5..year.end] == s[day.end + 5..];
  }

  /** A string laid out as `%d-%b-%y` is accepted, with the date its fields spell. */
  lemma LayoutParses(s: string, k: nat, m: int)
    requires DateLayout(s, k, m)
    ensures ParseDate(s) == Some(LayoutDate(s, k, m))
  {
    var day, year := LayoutFields(s, k, m);
    ParseDateWhen(s, day, m, year);
  }

  /** The parser reads the fields of a laid-out string one by one. */
  lemma LayoutFields(s: string, k: nat, m: int) returns (day: Field, year: Field)
    requires DateLayout(s, k, m)
    ensures day == Field(NumericValue(s[..k]), k) && year == Field(NumericValue(s[k + 5..]), |s|)
    ensures ParseTwoChars(s, 0) == Some(day) && ParseTwoChars(s, k + 5) == Some(year)
    ensures ParseMonth(s, k + 1) == Some(m)
  {
    day, year := Field(NumericValue(s[..k]), k), Field(NumericValue(s[k + 5..]), |s|);
    assert s[0..k] == s[..k] && s[k + 5..|s|] == s[k + 5..];
    FieldParses(s, 0, k);
    MonthParses(s, k + 1, m);
    FieldParses(s, k + 5, |s|);
  }

  /** Three fields the parser reads, with dashes between them and nothing after, are a date. */
  lemma ParseDateWhen(s: string, day: Field, m: int, year: Field)
    requires ParseMonth(s, day.end + 1) == Some(m)
    requires ParseTwoChars(s, 0) == Some(day) && ParseTwoChars(s, day.end + 5) == Some(year)
    requires s[day.end] == '-' && s[day.end + 4] == '-' && year.end == |s|
    ensures ReadFields(s) == Some(DateFields(day.value, m, year.value))
  {
  }
  /**
   * What a numeric directive reads is a numeric field, and the number it
   * spells; a one-character field is never followed by a digit.
   */
  lemma ReadField(s: string, i: nat)
    requires ParseTwoChars(s, i).Some?
    ensures var f := ParseTwoChars(s, i).value;
      && NumericText(s[i..f.end]) && f.value == NumericValue(s[i..f.end])
      && (f.end == i + 2 || f.end == |s| || !IsDigit(s[f.end]))
  {
    var f := ParseTwoChars(s, i).value;
    assert s[i..f.end][0] == s[i];
    if f.end == i + 2 {
      assert s[i..f.end][1] == s[i + 1];
    }
  }

  /** A numeric field that a non-digit or the end of the text follows is read whole. */
  lemma FieldParses(s: string, i: nat, j: nat)
    requires i <= j <= |s| && NumericText(s[i..j])
    requires j == |s| || !IsDigit(s[j])
    ensures ParseTwoChars(s, i) == Some(Field(NumericValue(s[i..j]), j))
  {
    assert s[i..j][0] == s[i];
    if j == i + 2 {
      assert s[i..j][1] == s[i + 1];
    }
  }

  /** Three letters that name month `m` in any case are read as `m`. */
  lemma MonthParses(s: string, i: nat, m: int)
    requires 1 <= m <= 12 && i + 3 <= |s| && SameIgnoringCase(s[i..i + 3], MonthNames[m - 1])
    ensures ParseMonth(s, i) == Some(m)
  {
    var w := s[i..i + 3];
    forall j | 0 <= j < m - 1
      ensures !SameIgnoringCase(w, MonthNames[j])
    {
      MonthNamesDistinct(m - 1, j);
    }
    FindMonthSkips(w, 0, m - 1);
  }

  /** A slash where the layout has a dash is not a date. */
  lemma SlashRejected()
    ensures ParseDate("01/May-20").None?
  {
  }

  /** `%d` takes no sign: a day written with `+` or `-` is not a date. */
  lemma SignedDayRejected()
    ensures ParseDate("+1-May-20").None? && ParseDate("-1-May-20").None?
  {
  }

  /** `%y` takes no sign either: a year written `-5` is not a date. */
  lemma SignedYearRejected()
    ensures ParseDate("01-May--5").None?
  {
    var s := "01-May--5";
    assert ParseTwoChars(s, 0) == Some(Field(1, 2));
    assert ParseTwoChars(s, 7).None? by { assert !IsDigit(s[7]) && !IsJsSpace(s[7]); }
  }

  /** White space may stand before a one-digit day: " 1-May-20" is 1 May 2020. */
  lemma SpacedDayAccepted()
    ensures ParseDate(" 1-May-20") == Some(DayNumber(2020, 5, 1))
  {
    SpacedLayout();
    ExampleDate(" 1-May-20", 2, 5, 1, 20);
  }

  lemma SpacedLayout()
    ensures var s := " 1-May-20";
      DateLayout(s, 2, 5) && NumericValue(s[..2]) == 1 && NumericValue(s[7..]) == 20
  {
    var s := " 1-May-20";
    assert s[..2] == " 1" && s[7..] == "20" && s[3..6] == "May";
    assert IsJsSpace(s[0]);
  }

  /** A laid-out string parses to the date of its month and its two fields' values. */
  lemma ExampleDate(s: string, k: nat, m: int, d: int, yy: int)
    requires DateLayout(s, k, m) && NumericValue(s[..k]) == d && NumericValue(s[k + 5..]) == yy
    ensures ParseDate(s) == Some(DayNumber(CenturyPivot(yy), m, d))
  {
    LayoutParses(s, k, m);
  }

  /** A one-digit day and a lower-case month name are accepted: "1-may-20" is 1 May 2020. */
  lemma LowerCaseDate()
    ensures ParseDate("1-may-20") == Some(DayNumber(2020, 5, 1))
  {
    LowerCaseLayout();
    ExampleDate("1-may-20", 1, 5, 1, 20);
  }

  lemma LowerCaseLayout()
    ensures var s := "1-may-20";
      DateLayout(s, 1, 5) && NumericValue(s[..1]) == 1 && NumericValue(s[6..]) == 20
  {
    var s := "1-may-20";
    assert s[..1] == "1" && s[6..] == "20" && s[2..5] == "may";
  }

  /** Two decimal digits with a leading zero, as `%d` and `%y` print them. */
  function PadTwo(n: nat): (r: string)
    requires n < 100
    ensures |r| == 2 && IsDigit(r[0]) && IsDigit(r[1])
    ensures 10 * DigitValue(r[0]) + DigitValue(r[1]) == n
  {
    [('0' as int + n / 10) as char, ('0' as int + n % 10) as char]
  }

  /** The `%d-%b-%y` layout of the fields: day `d`, month `m` by name, and the last two digits of year `y`. */
  function FormatDate(y: int, m: int, d: nat): (r: string)
    requires 1 <= m <= 12 && d < 100
    ensures |r| == 9
  {
    PadTwo(d) + "-" + MonthNames[m - 1] + "-" + PadTwo(y % 100)
  }

  /** Month names are told apart by their three letters, ignoring case. */
  lemma MonthNamesDistinct(j: int, k: int)
    requires 0 <= j < 12 && 0 <= k < 12 && j != k
    ensures !SameIgnoringCase(MonthNames[j], MonthNames[k])
  {
    var a, b := MonthNames[j], MonthNames[k];
    assert !(Lower(a[0]) == Lower(b[0]) && Lower(a[1]) == Lower(b[1]) && Lower(a[2]) == Lower(b[2]));
  }

  /** A zero-padded two-digit number at `i` is read back whole. */
  lemma ParsePadded(s: string, i: nat, n: nat)
    requires n < 100 && i + 2 <= |s| && s[i..i + 2] == PadTwo(n)
    ensures ParseTwoChars(s, i) == Some(Field(n, i + 2))
  {
    assert s[i] == PadTwo(n)[0] && s[i + 1] == PadTwo(n)[1];
  }

  /** The name of month `m` at `i` is read back as `m`. */
  lemma ParseMonthName(s: string, i: nat, m: int)
    requires 1 <= m <= 12 && i + 3 <= |s| && s[i..i + 3] == MonthNames[m - 1]
    ensures ParseMonth(s, i) == Some(m)
  {
    var name := MonthNames[m - 1];
    forall k | 0 <= k < m - 1
      ensures !SameIgnoringCase(name, MonthNames[k])
    {
      MonthNamesDistinct(m - 1, k);
    }
    FindMonthSkips(name, 0, m - 1);
  }

  /** A string laid out as day, '-', month name, '-', year parses to that date. */
  lemma ParseDateFields(s: string, d: int, m: int, yy: int)
    requires |s| == 9 && s[2] == '-' && s[6] == '-'
    requires ParseTwoChars(s, 0) == Some(Field(d, 2))
    requires ParseMonth(s, 3) == Some(m)
    requires ParseTwoChars(s, 7) == Some(Field(yy, 9))
    ensures ParseDate(s) == Some(DayNumber(CenturyPivot(yy), m, d))
  {
  }

  /**
   * Parsing what the format prints gives back the same calendar date, for
   * every year of the window 1969 to 2068 that `%y` can express.
   */
  lemma ParseFormat(y: int, m: int, d: nat)
    requires 1969 <= y <= 2068 && 1 <= m <= 12 && d < 100
    ensures ParseDate(FormatDate(y, m, d)) == Some(DayNumber(y, m, d))
  {
    var s := FormatDate(y, m, d);
    var yy := y % 100;
    assert CenturyPivot(yy) == y by {
      if y < 2000 { assert yy == y - 1900; } else { assert yy == y - 2000; }
    }
    assert s[0..2] == PadTwo(d) && s[2] == '-' && s[3..6] == MonthNames[m - 1] && s[6] == '-';
    assert s[7..9] == PadTwo(yy);
    ParsePadded(s, 0, d);
    ParseMonthName(s, 3, m);
    ParsePadded(s, 7, yy);
    ParseDateFields(s, d, m, yy);
  }

  /** Months before `k` that do not match are skipped. */
  lemma {:induction false} FindMonthSkips(w: string, from: nat, k: nat)
    requires from <= k <= 12
    requires forall j :: from <= j < k ==> !SameIgnoringCase(w, MonthNames[j])
    ensures FindMonth(w, from) == FindMonth(w, k)
    decreases k - from
  {
    if from < k {
      assert !SameIgnoringCase(w, MonthNames[from]);
      assert FindMonth(w, from) == FindMonth(w, from + 1);
      FindMonthSkips(w, from + 1, k);
    }
  }

  /** The first date of the embedded data, 1 May 2020, is day 18383. */
  lemma FirstOfMayNumber()
    ensures DayNumber(2020, 5, 1) == 18383
  {
  }

  /** The example of the embedded data: "01-May-20" is 1 May 2020, day 18383. */
  lemma ParseFirstOfMay()
    ensures ParseDate("01-May-20") == Some(18383)
  {
    assert PadTwo(1) == "01" && PadTwo(20) == "20";
    assert FormatDate(2020, 5, 1) == "01-May-20";
    ParseFormat(2020, 5, 1);
    FirstOfMayNumber();
  }
}

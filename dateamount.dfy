/**
 * The text `createGraph` draws, the constant of `dateAmount.ts`: sixteen
 * rows, newest first, each a date in `%d-%b-%y` form, a comma, and a close
 * with two decimals. What the pipeline makes of it: the rows sorted from
 * 10 April to 1 May 2020, and the domains those give the two scales.
 */
module DateAmount {
  import opened Wrappers
  import opened Text
  import opened Chars
  import opened Dates
  import opened Numbers
  import opened Records
  import opened Sorting
  import opened Domains
  import opened Graph

  /** One row of the data: day `day` of month `month` of 2020, and the close in hundredths. */
  datatype Row = Row(day: int, month: int, cents: nat)

  /** The rows of the data, in the order the text lists them. */
  const Table: seq<Row> := [
    Row(1, 5, 5813), Row(30, 4, 5398), Row(27, 4, 6700), Row(26, 4, 8970),
    Row(25, 4, 9900), Row(24, 4, 13028), Row(23, 4, 16670), Row(20, 4, 23498),
    Row(19, 4, 34544), Row(18, 4, 44334), Row(17, 4, 54370), Row(16, 4, 58013),
    Row(13, 4, 60523), Row(12, 4, 62277), Row(11, 4, 62620), Row(10, 4, 62844)]

  /** A real calendar day of 2020. */
  predicate ValidRow(r: Row)
  {
    1 <= r.month <= 12 && 1 <= r.day <= DaysInMonth(2020, r.month)
  }

  predicate ValidRows(t: seq<Row>)
  {
    forall i :: 0 <= i < |t| ==> ValidRow(t[i])
  }

  /** The decimal digits of `n`, without leading zeros. */
  function Digits(n: nat): (r: string)
    ensures |r| >= 1 && AllDigits(r) && DigitsValue(r) == n
  {
    if n < 10 then [('0' as int + n) as char]
    else
      var r := Digits(n / 10) + [('0' as int + n % 10) as char];
      assert r[..|r| - 1] == Digits(n / 10);
      r
  }

  /** Two padded digits read back as the number they print. */
  lemma PadTwoValue(n: nat)
    requires n < 100
    ensures AllDigits(PadTwo(n)) && DigitsValue(PadTwo(n)) == n
  {
    var r := PadTwo(n);
    assert r[..1][..0] == [] && r[..1][0] == r[0];
    assert DigitsValue(r[..1]) == DigitValue(r[0]);
    assert DigitsValue(r) == 10 * DigitsValue(r[..1]) + DigitValue(r[1]);
  }

  /** A close as the data writes it: the whole part, a point, then two decimals. */
  function CloseText(cents: nat): (r: string)
    ensures ',' !in r && '\n' !in r
  {
    Digits(cents / 100) + "." + PadTwo(cents % 100)
  }

  /** `parseFloat` reads a printed close back as its value. */
  lemma ParseClose(cents: nat)
    ensures ParseFloat(CloseText(cents)) == Num(cents as real / 100.0)
  {
    PadTwoValue(cents % 100);
    ParseHundredths(Digits(cents / 100), PadTwo(cents % 100), cents);
  }

  lemma ParseHundredths(w: string, f: string, cents: nat)
    requires |w| >= 1 && AllDigits(w) && AllDigits(f) && |f| == 2
    requires DigitsValue(w) == cents / 100 && DigitsValue(f) == cents % 100
    ensures ParseFloat(w + "." + f) == Num(cents as real / 100.0)
  {
    assert w + "." + f + "" == w + "." + f;
    ParseDecimal(w, f, "");
    HundredthsValue(w, f, cents);
  }

  lemma HundredthsValue(w: string, f: string, cents: nat)
    requires AllDigits(w) && AllDigits(f) && |f| == 2
    requires DigitsValue(w) == cents / 100 && DigitsValue(f) == cents % 100
    ensures PointValue(w, f) == cents as real / 100.0
  {
    assert Pow10(2) == 100.0;
    var q, r := cents / 100, cents % 100;
    assert cents == 100 * q + r;
    assert (cents as real) == 100.0 * (q as real) + (r as real);
  }

  /** A date of the `%d-%b-%y` form holds no comma and no line break. */
  lemma DateTextPlain(m: int, d: nat)
    requires 1 <= m <= 12 && d < 100
    ensures ',' !in FormatDate(2020, m, d) && '\n' !in FormatDate(2020, m, d)
  {
    var name := MonthNames[m - 1];
    assert ',' !in name && '\n' !in name;
  }

  /** A row as the data writes it: the date, a comma, the close. */
  function Line(r: Row): (s: string)
    requires ValidRow(r)
    ensures '\n' !in s
  {
    DateTextPlain(r.month, r.day);
    FormatDate(2020, r.month, r.day) + "," + CloseText(r.cents)
  }

  function Lines(t: seq<Row>): seq<string>
    requires ValidRows(t)
  {
    seq(|t|, i requires 0 <= i < |t| => Line(t[i]))
  }

  /** The text of `dateAmount`: the rows of the table, one per line. */
  const Data: string := Join(Lines(Table), '\n')

  /** The point a row stands for: its day and its close. */
  function RowPoint(r: Row): Point
    requires ValidRow(r)
  {
    Point(Some(DayNumber(2020, r.month, r.day)), Num(r.cents as real / 100.0))
  }

  /** The first printed row is the first line of the source text. */
  lemma FirstLine()
    ensures Line(Table[0]) == "01-May-20,58.13"
  {
    assert PadTwo(1) == "01" && PadTwo(20) == "20";
    LineText(Table[0], "01-May-20", "58.13");
  }

  /** The last printed row is the last line of the source text. */
  lemma LastLine()
    ensures Line(Table[15]) == "10-Apr-20,628.44"
  {
    assert PadTwo(10) == "10" && PadTwo(20) == "20";
    LineText(Table[15], "10-Apr-20", "628.44");
  }

  lemma LineText(r: Row, date: string, close: string)
    requires ValidRow(r)
    requires FormatDate(2020, r.month, r.day) == date && CloseText(r.cents) == close
    ensures Line(r) == date + "," + close
  {
  }

  /** Parsing a printed row gives back its day and its close. */
  lemma ParseLine(r: Row)
    requires ValidRow(r)
    ensures ParsePoint(SplitRow(Line(r))) == RowPoint(r)
  {
    DateOfRow(r);
    CloseOfRow(r);
    DateTextPlain(r.month, r.day);
    ParseFields(FormatDate(2020, r.month, r.day), CloseText(r.cents), RowPoint(r));
  }

  lemma DateOfRow(r: Row)
    requires ValidRow(r)
    ensures ParseDate(FormatDate(2020, r.month, r.day)) == RowPoint(r).date
  {
    ParseFormat(2020, r.month, r.day);
  }

  lemma CloseOfRow(r: Row)
    requires ValidRow(r)
    ensures ParseFloat(CloseText(r.cents)) == RowPoint(r).close
  {
    ParseClose(r.cents);
  }

  /** A date field and a close field that parse to the point's parts make a row that parses to it. */
  lemma ParseFields(date: string, close: string, p: Point)
    requires ',' !in date && ',' !in close
    requires ParseDate(date) == p.date && ParseFloat(close) == p.close
    ensures ParsePoint(SplitRow(date + "," + close)) == p
  {
    TwoFields(date, close);
  }

  /** Any table printed one row per line parses back to its rows' points, in order. */
  lemma ParseTable(t: seq<Row>)
    requires |t| >= 1 && ValidRows(t)
    ensures ParsedText(Join(Lines(t), '\n')) == seq(|t|, i requires 0 <= i < |t| => RowPoint(t[i]))
  {
    var lines := Lines(t);
    SplitJoin(lines, '\n');
    forall i | 0 <= i < |t|
      ensures ParsedText(Join(lines, '\n'))[i] == RowPoint(t[i])
    {
      ParseLine(t[i]);
    }
  }

  /** `a` comes before `b` in the year. */
  predicate Earlier(a: Row, b: Row)
  {
    a.month < b.month || (a.month == b.month && a.day < b.day)
  }

  /** The rows of the table are real days of 2020. */
  lemma TableValid()
    ensures ValidRows(Table)
  {
  }

  /** Each row of the table is a day before every row listed above it. */
  lemma TableEarlier()
    ensures forall i, j :: 0 <= i < j < |Table| ==> Earlier(Table[j], Table[i])
  {
  }

  /** The rows of the table run newest first. */
  lemma TableDescending()
    ensures ValidRows(Table)
    ensures forall i, j :: 0 <= i < j < |Table| ==>
      DayNumber(2020, Table[i].month, Table[i].day) > DayNumber(2020, Table[j].month, Table[j].day)
  {
    TableValid();
    TableEarlier();
    forall i, j | 0 <= i < j < |Table|
      ensures DayNumber(2020, Table[i].month, Table[i].day) > DayNumber(2020, Table[j].month, Table[j].day)
    {
      DayNumberOrder(2020, Table[j].month, Table[j].day, Table[i].month, Table[i].day);
    }
  }

  /** The points of the data, one per row, newest first. */
  lemma DataPoints()
    ensures ParsedText(Data) == seq(|Table|, i requires 0 <= i < |Table| => RowPoint(Table[i]))
    ensures AllDated(ParsedText(Data)) && StrictlyDescending(ParsedText(Data))
  {
    TableDescending();
    ParseTable(Table);
  }

  /**
   * The pipeline turns the data into its sixteen points in reverse, from
   * 10 April to 1 May 2020.
   */
  lemma DataSorted()
    ensures SortedPoints(Data) == Reverse(ParsedText(Data))
    ensures |SortedPoints(Data)| == 16
    ensures SortedPoints(Data)[0] == Point(Some(DayNumber(2020, 4, 10)), Num(628.44))
    ensures SortedPoints(Data)[15] == Point(Some(DayNumber(2020, 5, 1)), Num(58.13))
    ensures AllDated(SortedPoints(Data)) && SortedByDate(SortedPoints(Data))
  {
    DataPoints();
    DescendingReversed(ParsedText(Data));
    PipelinePoints(Data);
  }

  /** The largest close of the data is 628.44, that of 10 April. */
  lemma DataMaxClose()
    ensures MaxClose(ParsedText(Data)) == Some(Num(628.44))
  {
    DataPoints();
    TableValid();
    TableMaxClose(ParsedText(Data));
  }

  /** The points of the table's rows have 628.44 as their largest close. */
  lemma TableMaxClose(s: seq<Point>)
    requires ValidRows(Table)
    requires s == seq(|Table|, i requires 0 <= i < |Table| => RowPoint(Table[i]))
    ensures MaxClose(s) == Some(Num(628.44))
  {
    TableCents();
    forall i | 0 <= i < |s|
      ensures s[i].close.Num? && s[i].close.r <= 628.44
    {
      assert s[i].close == Num(Table[i].cents as real / 100.0);
    }
    MaxCloseIs(s, 15, 628.44);
  }

  /** No close of the table is above that of its last row, 628.44. */
  lemma TableCents()
    ensures forall i :: 0 <= i < |Table| ==> Table[i].cents <= Table[15].cents == 62844
  {
  }

  /**
   * `createGraph` on the data: the time domain runs from 10 April to
   * 1 May 2020 and the value domain from 0 to 628.44.
   */
  lemma DataScales()
    ensures FitScales(DefaultScales, SortedPoints(Data))
      == Scales((DayNumber(2020, 4, 10), DayNumber(2020, 5, 1)), (Num(0.0), Num(628.44)))
  {
    DataSorted();
    SortedXDomain(SortedPoints(Data));
    PipelineScales(Data);
    DataMaxClose();
  }
}

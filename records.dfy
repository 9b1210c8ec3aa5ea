/**
 * The first two steps of `createGraph`: the embedded text is split into
 * rows and each row into a date field and a close field; then every row
 * becomes a point with a parsed date and a parsed close.
 */
module Records {
  import opened Wrappers
  import opened Text
  import opened Chars
  import opened Dates
  import opened Numbers

  /** A row before parsing: `const [date, close] = row.split(",")`. */
  datatype Record = Record(date: string, close: Option<string>)

  /** A parsed row, `IDateAmount`: the date is `None` where JavaScript has `null`. */
  datatype Point = Point(date: Option<int>, close: Close)

  /**
   * The first two comma-separated fields of a row. The date field is the
   * text before the first comma (all of the row when it has none); the
   * close field is the text between the first and the second comma (or the
   * end of the row), and is missing (`undefined`) when the row has no comma.
   */
  function SplitRow(row: string): (r: Record)
    ensures ',' !in r.date
    ensures r.close.None? <==> ',' !in row
    ensures r.close.None? ==> r.date == row
    ensures r.close.Some? ==>
      var n, c := |r.date|, r.close.value;
      && ',' !in c
      && n + 1 + |c| <= |row|
      && row[..n] == r.date && row[n] == ',' && row[n + 1..n + 1 + |c|] == c
      && (n + 1 + |c| == |row| || row[n + 1 + |c|] == ',')
  {
    var fields := Split(row, ',');
    FirstTwoFields(row);
    Record(fields[0], if |fields| > 1 then Some(fields[1]) else None)
  }

  /** Where the first two pieces of `row.split(",")` lie in the row. */
  lemma FirstTwoFields(row: string)
    ensures var fields := Split(row, ',');
      && |fields[0]| <= |row| && row[..|fields[0]|] == fields[0]
      && (|fields| == 1 <==> ',' !in row)
      && (|fields| == 1 ==> fields[0] == row)
      && (|fields| > 1 ==>
        var n, c := |fields[0]|, fields[1];
        && n + 1 + |c| <= |row| && row[n] == ',' && row[n + 1..n + 1 + |c|] == c
        && (n + 1 + |c| == |row| || row[n + 1 + |c|] == ','))
  {
    var fields := Split(row, ',');
    SplitHead(row, ',');
    var n := |fields[0]|;
    if |fields| > 1 {
      var rest := row[n + 1..];
      SplitHead(rest, ',');
      var c := fields[1];
      assert c == Split(rest, ',')[0];
      assert row[n + 1..n + 1 + |c|] == rest[..|c|];
      if |c| < |rest| {
        assert row[n + 1 + |c|] == rest[|c|];
      }
      assert ',' in row by { assert row[n] == ','; }
    } else {
      assert fields[0] == row;
      assert ',' !in row;
    }
  }

  /** `dateAmount.split("\n").map(...)`: one record per line, empty lines included. */
  function SplitData(text: string): (r: seq<Record>)
    ensures |r| == Count(text, '\n') + 1
  {
    var rows := Split(text, '\n');
    seq(|rows|, i requires 0 <= i < |rows| => SplitRow(rows[i]))
  }

  /**
   * The point of one record: `d3.timeParse("%d-%b-%y")` of the date field
   * and `parseFloat` of the close field. A missing close field is
   * `undefined`, which `parseFloat` reads as the string "undefined".
   */
  function ParsePoint(r: Record): (p: Point)
    ensures p.date.Some? <==> IsDateText(r.date)
    ensures r.close.None? ==> p.close == NaN
    ensures r.close.Some? ==> (p.close == NaN <==> !StartsNumber(SkipSpaces(r.close.value)))
  {
    ParseDateLayout(r.date);
    ParseUndefined();
    Point(ParseDate(r.date), ParseFloat(if r.close.Some? then r.close.value else "undefined"))
  }

  /**
   * The `forEach` loop that pushes one parsed point per record onto
   * `parsedData`, in order.
   */
  method ParseAll(data: seq<Record>) returns (parsedData: seq<Point>)
    ensures |parsedData| == |data|
    ensures forall i :: 0 <= i < |data| ==> parsedData[i] == ParsePoint(data[i])
  {
    parsedData := [];
    var i := 0;
    while i < |data|
      invariant 0 <= i <= |data|
      invariant |parsedData| == i
      invariant forall k :: 0 <= k < i ==> parsedData[k] == ParsePoint(data[k])
    {
      parsedData := parsedData + [ParsePoint(data[i])];
      i := i + 1;
    }
  }

  /** The points of the whole text, as `ParseAll` produces them. */
  function ParsedText(text: string): (r: seq<Point>)
    ensures |r| == Count(text, '\n') + 1
  {
    var data := SplitData(text);
    seq(|data|, i requires 0 <= i < |data| => ParsePoint(data[i]))
  }

  /** A row with no comma has a missing close field, which parses as NaN. */
  lemma NoCommaIsNaN(row: string)
    requires ',' !in row
    ensures ParsePoint(SplitRow(row)) == Point(ParseDate(row), NaN)
  {
    ParseUndefined();
  }

  /** Fields after the second are ignored: only the first two fields decide the point. */
  lemma ExtraFieldsIgnored(date: string, close: string, rest: string)
    requires ',' !in date && ',' !in close
    ensures SplitRow(date + "," + close + "," + rest) == Record(date, Some(close))
  {
    var row := date + "," + close + "," + rest;
    assert row == date + [','] + (close + [','] + rest);
    SplitCons(date, ',', close + [','] + rest);
    SplitCons(close, ',', rest);
  }

  /** A row of exactly two fields splits into them. */
  lemma TwoFields(date: string, close: string)
    requires ',' !in date && ',' !in close
    ensures SplitRow(date + "," + close) == Record(date, Some(close))
  {
    SplitCons(date, ',', close);
    SplitNone(close, ',');
  }

  /** `"01-May-20,58.13"` is 1 May 2020 (day 18383) with close 58.13. */
  lemma ExampleRow()
    ensures ParsePoint(SplitRow("01-May-20,58.13")) == Point(Some(18383), Num(58.13))
  {
    TwoFields("01-May-20", "58.13");
    assert "01-May-20" + "," + "58.13" == "01-May-20,58.13";
    ParseFirstOfMay();
    CloseOf58();
  }

  lemma CloseOf58()
    ensures ParseFloat("58.13") == Num(58.13)
  {
    assert "58.13" == "58" + "." + "13" + "";
    ParseDecimal("58", "13", "");
    assert DigitsValue("58") == 58 && DigitsValue("13") == 13;
    assert Pow10(2) == 100.0;
  }

  /** A date that does not match the pattern is `null`, and the point is still produced. */
  lemma ExampleBadDate()
    ensures ParsePoint(SplitRow("not-a-date,58.13")) == Point(None, Num(58.13))
  {
    TwoFields("not-a-date", "58.13");
    assert "not-a-date" + "," + "58.13" == "not-a-date,58.13";
    CloseOf58();
  }

  /** A close that is not a number is NaN. */
  lemma ExampleBadClose()
    ensures ParsePoint(SplitRow("01-May-20,abc")) == Point(Some(18383), NaN)
  {
    TwoFields("01-May-20", "abc");
    assert "01-May-20" + "," + "abc" == "01-May-20,abc";
    ParseFirstOfMay();
    CloseOfAbc();
  }

  lemma CloseOfAbc()
    ensures ParseFloat("abc") == NaN
  {
    var s := "abc";
    assert !IsJsSpace(s[0]);
    assert SkipSpaces(s) == s;
    assert !StartsNumber(s) by { assert !IsDigit(s[0]) && s[0] != '.'; }
  }
}

/**
 * The data pipeline of `createGraph`, end to end: rows, points, the
 * in-place sort, then the scale domains.
 */
module Graph {
  import opened Wrappers
  import opened Text
  import opened Dates
  import opened Numbers
  import opened Records
  import opened Sorting
  import opened Domains

  /** The points of `text` in the order the sort leaves them. */
  function SortedPoints(text: string): seq<Point>
  {
    SortByDate(ParsedText(text))
  }

  /**
   * The parsing, sorting and domain part of `createGraph`: split the text,
   * parse every record, sort the points in place, then fit the scales.
   */
  method CreateGraph(text: string) returns (parsedData: seq<Point>, scales: Scales)
    ensures parsedData == SortedPoints(text)
    ensures scales == FitScales(DefaultScales, parsedData)
  {
    var data := SplitData(text);
    var points := ParseAll(data);
    assert points == ParsedText(text);
    var a := new Point[|points|](i requires 0 <= i < |points| => points[i]);
    assert a[..] == points;
    SortInPlace(a);
    parsedData := a[..];
    scales := FitScales(DefaultScales, parsedData);
  }

  /**
   * One point per line of the text, empty lines included; the sort only
   * reorders them, and puts them in date order when every date parsed.
   */
  lemma PipelinePoints(text: string)
    ensures |SortedPoints(text)| == Count(text, '\n') + 1
    ensures multiset(SortedPoints(text)) == multiset(ParsedText(text))
    ensures AllDated(ParsedText(text)) ==> AllDated(SortedPoints(text)) && SortedByDate(SortedPoints(text))
  {
    SortPermutes(ParsedText(text));
    if AllDated(ParsedText(text)) {
      SortSorted(ParsedText(text));
    }
  }

  /** The scales come out the same whether they are fitted before or after the sort. */
  lemma PipelineScales(text: string)
    ensures FitScales(DefaultScales, SortedPoints(text)) == FitScales(DefaultScales, ParsedText(text))
  {
    SortPermutes(ParsedText(text));
    DomainsIgnoreOrder(SortedPoints(text), ParsedText(text));
  }

  /**
   * Once the points are in date order, the time domain runs from the first
   * point's date to the last one's.
   */
  lemma SortedXDomain(s: seq<Point>)
    requires |s| > 0 && AllDated(s) && SortedByDate(s)
    ensures XDomain(s) == Some((s[0].date.value, s[|s| - 1].date.value))
  {
    assert HasDate(s) by { assert s[0].date.Some?; }
    var lo, hi := MinDate(s).value, MaxDate(s).value;
    var i :| 0 <= i < |s| && s[i].date == Some(lo);
    var j :| 0 <= j < |s| && s[j].date == Some(hi);
    assert s[0].date.value <= lo && hi <= s[|s| - 1].date.value;
  }

  /** Empty text is one empty row, whose point has no date and a NaN close. */
  lemma EmptyTextPoints()
    ensures ParsedText("") == [Point(None, NaN)]
  {
    assert Split("", '\n') == [""];
    assert SplitRow("") == Record("", None) by { FirstTwoFields(""); }
    assert ParseDate("") == None;
    ParseUndefined();
  }

  /** For empty text the pipeline yields that one point and touches neither scale. */
  lemma EmptyText()
    ensures SortedPoints("") == [Point(None, NaN)]
    ensures FitScales(DefaultScales, SortedPoints("")) == DefaultScales
  {
    var x := Point(None, NaN);
    EmptyTextPoints();
    assert SortByDate([x]) == Insert([], x) == [x];
    UntouchedScales([x]);
  }

  /** Points without a date or a number leave both scales as they were. */
  lemma UntouchedScales(s: seq<Point>)
    requires forall i :: 0 <= i < |s| ==> s[i].date.None? && s[i].close.NaN?
    ensures FitScales(DefaultScales, s) == DefaultScales
  {
    assert !HasDate(s) && !HasNumber(s);
  }

  /** The largest of the closes 58.13, 53.98 and 67.00 is 67.00, so the value domain is [0, 67.00]. */
  lemma ExampleValueDomain(d1: Option<int>, d2: Option<int>, d3: Option<int>)
    ensures YDomain([Point(d1, Num(58.13)), Point(d2, Num(53.98)), Point(d3, Num(67.00))]) == Some((Num(0.0), Num(67.00)))
  {
    var s := [Point(d1, Num(58.13)), Point(d2, Num(53.98)), Point(d3, Num(67.00))];
    assert s[..2][..1] == [s[0]] && s[..2] == [s[0], s[1]] && s[..3] == s;
  }
}

/**
 * The scale domains `createGraph` fits to the sorted points:
 * `d3.min`/`d3.max` over the dates and `d3.max` over the closes, each
 * skipping `null` and NaN and giving `undefined` when nothing is left,
 * and the truthiness guards before `xScale.domain` and `yScale.domain`.
 */
module Domains {
  import opened Wrappers
  import opened Dates
  import opened Numbers
  import opened Records

  predicate HasDate(s: seq<Point>)
  {
    exists i :: 0 <= i < |s| && s[i].date.Some?
  }

  predicate HasNumber(s: seq<Point>)
  {
    exists i :: 0 <= i < |s| && !s[i].close.NaN?
  }

  /**
   * `d3.min(parsedData, d => d.date)`: the points in order, a `null` date
   * skipped, the running minimum replaced by a date it is greater than.
   */
  function MinDate(s: seq<Point>): (r: Option<int>)
    ensures r.None? <==> !HasDate(s)
    ensures r.Some? ==> exists i :: 0 <= i < |s| && s[i].date == r
    ensures r.Some? ==> forall i :: 0 <= i < |s| && s[i].date.Some? ==> r.value <= s[i].date.value
  {
    if |s| == 0 then None
    else
      var m, v := MinDate(s[..|s| - 1]), s[|s| - 1].date;
      assert forall i :: 0 <= i < |s| - 1 ==> s[..|s| - 1][i] == s[i];
      if v.None? then m
      else if m.None? || m.value > v.value then v
      else m
  }

  /** `d3.max(parsedData, d => d.date)`, symmetrically. */
  function MaxDate(s: seq<Point>): (r: Option<int>)
    ensures r.None? <==> !HasDate(s)
    ensures r.Some? ==> exists i :: 0 <= i < |s| && s[i].date == r
    ensures r.Some? ==> forall i :: 0 <= i < |s| && s[i].date.Some? ==> s[i].date.value <= r.value
  {
    if |s| == 0 then None
    else
      var m, v := MaxDate(s[..|s| - 1]), s[|s| - 1].date;
      assert forall i :: 0 <= i < |s| - 1 ==> s[..|s| - 1][i] == s[i];
      if v.None? then m
      else if m.None? || m.value < v.value then v
      else m
  }

  /**
   * `d3.max(parsedData, d => d.close)`: NaN is skipped (it is neither
   * greater than the running maximum nor equal to itself).
   */
  function MaxClose(s: seq<Point>): (r: Option<Close>)
    ensures r.None? <==> !HasNumber(s)
    ensures r.Some? ==> !r.value.NaN? && exists i :: 0 <= i < |s| && s[i].close == r.value
    ensures r.Some? ==> forall i :: 0 <= i < |s| ==> !Less(r.value, s[i].close)
  {
    if |s| == 0 then None
    else
      var m, v := MaxClose(s[..|s| - 1]), s[|s| - 1].close;
      assert forall i :: 0 <= i < |s| - 1 ==> s[..|s| - 1][i] == s[i];
      if v.NaN? then m
      else if m.None? || Less(m.value, v) then Some(v)
      else m
  }

  /** When every close is a number, the largest of them is `d3.max` of the closes. */
  lemma MaxCloseIs(s: seq<Point>, k: nat, v: real)
    requires k < |s| && s[k].close == Num(v)
    requires forall i :: 0 <= i < |s| ==> s[i].close.Num? && s[i].close.r <= v
    ensures MaxClose(s) == Some(Num(v))
  {
    assert HasNumber(s);
    var m := MaxClose(s).value;
    var i :| 0 <= i < |s| && s[i].close == m;
    assert !Less(m, s[k].close);
  }

  /** The domains of the two scales: days for the time axis, numbers for the value axis. */
  datatype Scales = Scales(x: (int, int), y: (Close, Close))

  /**
   * The domains d3-scale starts with: `scaleTime` covers 1 and 2 January
   * 2000, `scaleLinear` covers 0 to 1.
   */
  const DefaultScales: Scales := Scales((DayNumber(2000, 1, 1), DayNumber(2000, 1, 2)), (Num(0.0), Num(1.0)))

  /**
   * The time domain `createGraph` sets, `[minDate, maxDate]`, or `None` when
   * it leaves the scale alone. A `Date` is always truthy, so the guard
   * `minDate && maxDate` only asks whether both are defined.
   */
  function XDomain(s: seq<Point>): (r: Option<(int, int)>)
    ensures r.Some? <==> HasDate(s)
    ensures r.Some? ==>
      var (lo, hi) := r.value;
      && lo <= hi
      && (exists i :: 0 <= i < |s| && s[i].date == Some(lo))
      && (exists i :: 0 <= i < |s| && s[i].date == Some(hi))
      && forall i :: 0 <= i < |s| && s[i].date.Some? ==> lo <= s[i].date.value <= hi
  {
    var lo, hi := MinDate(s), MaxDate(s);
    if lo.Some? && hi.Some? then
      var i :| 0 <= i < |s| && s[i].date.Some?;
      assert lo.value <= s[i].date.value <= hi.value;
      Some((lo.value, hi.value))
    else None
  }

  /**
   * The value domain `createGraph` sets, `[0, maxClose]`, or `None` when it
   * leaves the scale alone: `maxClose` undefined, or zero, which is falsy.
   * It always starts at 0 and ends at the largest number among the closes,
   * and is left unset exactly when every close is NaN, or when that largest
   * number is 0: some close is 0 and none is above it.
   */
  function YDomain(s: seq<Point>): (r: Option<(Close, Close)>)
    ensures r.None? <==>
      || !HasNumber(s)
      || ((exists i :: 0 <= i < |s| && s[i].close == Num(0.0)) && forall i :: 0 <= i < |s| ==> !Less(Num(0.0), s[i].close))
    ensures r.Some? ==>
      var (zero, top) := r.value;
      && zero == Num(0.0) && !top.NaN?
      && (exists i :: 0 <= i < |s| && s[i].close == top)
      && forall i :: 0 <= i < |s| ==> !Less(top, s[i].close)
  {
    var m := MaxClose(s);
    YDomainGuard(s);
    if m.Some? && Truthy(m.value) then Some((Num(0.0), m.value)) else None
  }

  /** The guard on `maxClose` fails exactly when every close is NaN or the largest is 0. */
  lemma YDomainGuard(s: seq<Point>)
    ensures (MaxClose(s).Some? && Truthy(MaxClose(s).value)) <==>
      && HasNumber(s)
      && !((exists i :: 0 <= i < |s| && s[i].close == Num(0.0)) && forall i :: 0 <= i < |s| ==> !Less(Num(0.0), s[i].close))
  {
    var m := MaxClose(s);
    if m.Some? && m.value == Num(0.0) {
      var i :| 0 <= i < |s| && s[i].close == m.value;
    }
    if m.Some? && m.value != Num(0.0) && (exists i :: 0 <= i < |s| && s[i].close == Num(0.0)) {
      var i :| 0 <= i < |s| && s[i].close == Num(0.0);
      assert !Less(m.value, Num(0.0));
      var j :| 0 <= j < |s| && s[j].close == m.value;
      assert Less(Num(0.0), s[j].close);
    }
  }

  /** The scales after `createGraph` has fitted them to the points. */
  function FitScales(scales: Scales, s: seq<Point>): (r: Scales)
    ensures XDomain(s).None? ==> r.x == scales.x
    ensures YDomain(s).None? ==> r.y == scales.y
    ensures XDomain(s).Some? ==> r.x == XDomain(s).value
    ensures YDomain(s).Some? ==> r.y == YDomain(s).value
  {
    var x, y := XDomain(s), YDomain(s);
    Scales(if x.Some? then x.value else scales.x, if y.Some? then y.value else scales.y)
  }

  /** Numbers other than NaN are totally ordered by `<`. */
  lemma LessTotal(a: Close, b: Close)
    requires !a.NaN? && !b.NaN?
    ensures Less(a, b) || a == b || Less(b, a)
    ensures !(Less(a, b) && Less(b, a))
  {
  }

  /**
   * The domains do not depend on the order of the points: fitting before
   * or after the sort gives the same scales.
   */
  lemma DomainsIgnoreOrder(p: seq<Point>, q: seq<Point>)
    requires multiset(p) == multiset(q)
    ensures XDomain(p) == XDomain(q) && YDomain(p) == YDomain(q)
  {
    SameElements(p, q);
    MinDateWithin(p, q);
    MinDateWithin(q, p);
    MaxDateWithin(p, q);
    MaxDateWithin(q, p);
    MaxCloseWithin(p, q);
    MaxCloseWithin(q, p);
    if MaxClose(p).Some? {
      LessTotal(MaxClose(p).value, MaxClose(q).value);
    }
  }

  /** Every point of `p` occurs in `q`. */
  predicate Within(p: seq<Point>, q: seq<Point>)
  {
    forall x :: x in p ==> x in q
  }

  /** Over more points the minimum date can only be earlier. */
  lemma MinDateWithin(p: seq<Point>, q: seq<Point>)
    requires Within(p, q)
    ensures MinDate(p).Some? ==> MinDate(q).Some? && MinDate(q).value <= MinDate(p).value
  {
    if MinDate(p).Some? {
      var i :| 0 <= i < |p| && p[i].date == MinDate(p);
      assert p[i] in p;
      var j :| 0 <= j < |q| && q[j] == p[i];
      assert q[j].date.Some?;
    }
  }

  /** Over more points the maximum date can only be later. */
  lemma MaxDateWithin(p: seq<Point>, q: seq<Point>)
    requires Within(p, q)
    ensures MaxDate(p).Some? ==> MaxDate(q).Some? && MaxDate(p).value <= MaxDate(q).value
  {
    if MaxDate(p).Some? {
      var i :| 0 <= i < |p| && p[i].date == MaxDate(p);
      assert p[i] in p;
      var j :| 0 <= j < |q| && q[j] == p[i];
      assert q[j].date.Some?;
    }
  }

  /** Over more points the maximum close can only be greater. */
  lemma MaxCloseWithin(p: seq<Point>, q: seq<Point>)
    requires Within(p, q)
    ensures MaxClose(p).Some? ==> MaxClose(q).Some? && !Less(MaxClose(q).value, MaxClose(p).value)
  {
    if MaxClose(p).Some? {
      var i :| 0 <= i < |p| && p[i].close == MaxClose(p).value;
      assert p[i] in p;
      var j :| 0 <= j < |q| && q[j] == p[i];
      assert !q[j].close.NaN?;
    }
  }

  /** A permutation has the same points. */
  lemma SameElements(p: seq<Point>, q: seq<Point>)
    requires multiset(p) == multiset(q)
    ensures Within(p, q) && Within(q, p)
  {
    forall x | x in p ensures x in q {
      assert x in multiset(p);
    }
    forall x | x in q ensures x in p {
      assert x in multiset(q);
    }
  }
}

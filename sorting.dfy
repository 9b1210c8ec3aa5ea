/**
 * `parsedData.sort(...)` with the comparator of `createGraph`: points with
 * two dates are ordered by date; a pair in which either date is `null`
 * compares as equal. `Array.prototype.sort` is stable; the sort here is a
 * stable insertion sort, given once as a function on sequences and once
 * as the in-place method on an array.
 */
module Sorting {
  import opened Wrappers
  import opened Records

  /**
   * The comparator: the difference of the two dates when both are present
   * (in days; `getTime()` gives the same sign in milliseconds), else 0. It
   * says "equal" whenever a date is missing, otherwise gives the order of
   * the dates.
   */
  function Compare(a: Point, b: Point): (r: int)
    ensures a.date.None? || b.date.None? ==> r == 0
    ensures a.date.Some? && b.date.Some? ==>
      && (r < 0 <==> a.date.value < b.date.value)
      && (r == 0 <==> a.date.value == b.date.value)
      && (r > 0 <==> a.date.value > b.date.value)
  {
    if a.date.Some? && b.date.Some? then a.date.value - b.date.value else 0
  }

  /** The comparator is antisymmetric: swapping the points negates it. */
  lemma CompareAntisymmetric(a: Point, b: Point)
    ensures Compare(a, b) == -Compare(b, a)
  {
  }

  predicate AllDated(s: seq<Point>)
  {
    forall i :: 0 <= i < |s| ==> s[i].date.Some?
  }

  /** Every date is at most every later date. */
  predicate SortedByDate(s: seq<Point>)
    requires AllDated(s)
  {
    forall i, j :: 0 <= i < j < |s| ==> s[i].date.value <= s[j].date.value
  }

  /** Every two neighbouring points that both have dates are in date order. */
  predicate NeighboursInOrder(s: seq<Point>)
  {
    forall i :: 0 < i < |s| && s[i - 1].date.Some? && s[i].date.Some? ==> s[i - 1].date.value <= s[i].date.value
  }

  /**
   * One insertion step: `x` is moved left past every element at the end of
   * `t` that compares greater than it, and stops at the first that does not.
   */
  function Insert(t: seq<Point>, x: Point): (r: seq<Point>)
    ensures |r| == |t| + 1
  {
    if |t| == 0 || Compare(t[|t| - 1], x) <= 0 then t + [x]
    else Insert(t[..|t| - 1], x) + [t[|t| - 1]]
  }

  /**
   * The order the sort leaves the points in: each point in turn inserted
   * after those before it. Every two neighbours that both have dates come
   * out in date order.
   */
  function SortByDate(s: seq<Point>): (r: seq<Point>)
    ensures |r| == |s|
    ensures NeighboursInOrder(r)
  {
    if |s| == 0 then []
    else
      InsertNeighbours(SortByDate(s[..|s| - 1]), s[|s| - 1]);
      Insert(SortByDate(s[..|s| - 1]), s[|s| - 1])
  }

  /**
   * An insertion keeps dated neighbours in order: the point before the
   * inserted one does not compare greater, and the point after it does.
   */
  lemma {:induction false} InsertNeighbours(t: seq<Point>, x: Point)
    requires NeighboursInOrder(t)
    ensures NeighboursInOrder(Insert(t, x))
    ensures Insert(t, x)[|t|] == x || Insert(t, x)[|t|] == t[|t| - 1]
    decreases |t|
  {
    if |t| > 0 && Compare(t[|t| - 1], x) > 0 {
      var t', last := t[..|t| - 1], t[|t| - 1];
      assert NeighboursInOrder(t');
      InsertNeighbours(t', x);
      var r := Insert(t, x);
      assert r == Insert(t', x) + [last];
      if |t'| > 0 && r[|t'|] == t'[|t'| - 1] {
        assert t[|t'| - 1] == r[|t'|];
      }
    }
  }

  /** An insertion adds exactly the inserted point. */
  lemma {:induction false} InsertPermutes(t: seq<Point>, x: Point)
    ensures multiset(Insert(t, x)) == multiset(t) + multiset{x}
    decreases |t|
  {
    if |t| > 0 && Compare(t[|t| - 1], x) > 0 {
      InsertPermutes(t[..|t| - 1], x);
      assert t == t[..|t| - 1] + [t[|t| - 1]];
    }
  }

  /** The sort is a permutation: the same points, each as often as before. */
  lemma {:induction false} SortPermutes(s: seq<Point>)
    ensures multiset(SortByDate(s)) == multiset(s)
    decreases |s|
  {
    if |s| > 0 {
      SortPermutes(s[..|s| - 1]);
      InsertPermutes(SortByDate(s[..|s| - 1]), s[|s| - 1]);
      assert s == s[..|s| - 1] + [s[|s| - 1]];
    }
  }

  /** Inserting a dated point into dated points in date order keeps them in date order. */
  lemma {:induction false} InsertSorted(t: seq<Point>, x: Point)
    requires AllDated(t) && SortedByDate(t) && x.date.Some?
    ensures AllDated(Insert(t, x)) && SortedByDate(Insert(t, x))
    decreases |t|
  {
    var r := Insert(t, x);
    InsertPermutes(t, x);
    forall i | 0 <= i < |r| ensures r[i].date.Some? {
      assert r[i] in multiset(r);
      if r[i] != x {
        assert r[i] in multiset(t);
      }
    }
    if |t| > 0 && Compare(t[|t| - 1], x) > 0 {
      var t', last := t[..|t| - 1], t[|t| - 1];
      InsertSorted(t', x);
      var r' := Insert(t', x);
      InsertPermutes(t', x);
      forall i | 0 <= i < |r'| ensures r'[i].date.value <= last.date.value {
        assert r'[i] in multiset(r');
        if r'[i] != x {
          assert r'[i] in multiset(t');
          var k :| 0 <= k < |t'| && t'[k] == r'[i];
        }
      }
    }
  }

  /** When every point has a date, the sorted points are in date order. */
  lemma {:induction false} SortSorted(s: seq<Point>)
    requires AllDated(s)
    ensures AllDated(SortByDate(s)) && SortedByDate(SortByDate(s))
    decreases |s|
  {
    if |s| > 0 {
      SortSorted(s[..|s| - 1]);
      InsertSorted(SortByDate(s[..|s| - 1]), s[|s| - 1]);
    }
  }

  /** A point without a date stops every insertion that reaches it. */
  lemma {:induction false} InsertStopsAtUndated(a: seq<Point>, z: Point, b: seq<Point>, x: Point)
    requires z.date.None?
    ensures Insert(a + [z] + b, x) == a + [z] + Insert(b, x)
    decreases |b|
  {
    var t := a + [z] + b;
    if |b| > 0 && Compare(b[|b| - 1], x) > 0 {
      assert t[..|t| - 1] == a + [z] + b[..|b| - 1];
      InsertStopsAtUndated(a, z, b[..|b| - 1], x);
    } else if |b| == 0 {
      assert t == a + [z];
    }
  }

  /**
   * A point without a date keeps its index: the points before it and the
   * points after it are sorted separately, on either side of it.
   */
  lemma {:induction false} UndatedStays(p: seq<Point>, z: Point, q: seq<Point>)
    requires z.date.None?
    ensures SortByDate(p + [z] + q) == SortByDate(p) + [z] + SortByDate(q)
    decreases |q|
  {
    var s := p + [z] + q;
    if |q| == 0 {
      assert s == p + [z] && s[..|s| - 1] == p;
      InsertStopsAtUndated(SortByDate(p), z, [], z);
    } else {
      var q', x := q[..|q| - 1], q[|q| - 1];
      assert s[..|s| - 1] == p + [z] + q' && s[|s| - 1] == x;
      assert SortByDate(s) == Insert(SortByDate(p + [z] + q'), x);
      UndatedStays(p, z, q');
      InsertStopsAtUndated(SortByDate(p), z, SortByDate(q'), x);
      assert SortByDate(q) == Insert(SortByDate(q'), x) by { assert q[..|q| - 1] == q'; }
    }
  }

  /** The points of `s` whose date is `d` (missing dates included), in their order in `s`. */
  function WithDate(s: seq<Point>, d: Option<int>): seq<Point>
  {
    if |s| == 0 then []
    else WithDate(s[..|s| - 1], d) + (if s[|s| - 1].date == d then [s[|s| - 1]] else [])
  }

  lemma {:induction false} WithDateAppend(s: seq<Point>, u: seq<Point>, d: Option<int>)
    ensures WithDate(s + u, d) == WithDate(s, d) + WithDate(u, d)
    decreases |u|
  {
    if |u| == 0 {
      assert s + u == s;
    } else {
      var u' := u[..|u| - 1];
      assert (s + u)[..|s + u| - 1] == s + u';
      WithDateAppend(s, u', d);
    }
  }

  /** An insertion passes only points with later dates, so it keeps the order of equal keys. */
  lemma {:induction false} InsertStable(t: seq<Point>, x: Point, d: Option<int>)
    ensures WithDate(Insert(t, x), d) == WithDate(t, d) + (if x.date == d then [x] else [])
    decreases |t|
  {
    if |t| == 0 || Compare(t[|t| - 1], x) <= 0 {
      WithDateAppend(t, [x], d);
      assert [x][..0] == [];
    } else {
      var t', last := t[..|t| - 1], t[|t| - 1];
      InsertStable(t', x, d);
      WithDateAppend(Insert(t', x), [last], d);
      WithDateAppend(t', [last], d);
      assert [last][..0] == [];
      assert t' + [last] == t;
      assert last.date != x.date;
    }
  }

  /**
   * The sort is stable: the points that share a date, and the points
   * without a date, come out in the order they went in.
   */
  lemma {:induction false} SortStable(s: seq<Point>, d: Option<int>)
    ensures WithDate(SortByDate(s), d) == WithDate(s, d)
    decreases |s|
  {
    if |s| > 0 {
      SortStable(s[..|s| - 1], d);
      InsertStable(SortByDate(s[..|s| - 1]), s[|s| - 1], d);
    }
  }

  /** Where the insertion stops: after the last element that does not compare greater. */
  lemma {:induction false} InsertAt(t: seq<Point>, x: Point, j: nat)
    requires j <= |t|
    requires j == 0 || Compare(t[j - 1], x) <= 0
    requires forall k :: j <= k < |t| ==> Compare(t[k], x) > 0
    ensures Insert(t, x) == t[..j] + [x] + t[j..]
    decreases |t|
  {
    if j < |t| {
      var t', last := t[..|t| - 1], t[|t| - 1];
      assert Compare(last, x) > 0;
      assert Insert(t, x) == Insert(t', x) + [last];
      InsertAt(t', x, j);
      assert t'[..j] == t[..j];
      assert t'[j..] + [last] == t[j..];
    } else {
      assert t[..j] == t;
    }
  }

  /** The points in the opposite order. */
  function Reverse(s: seq<Point>): (r: seq<Point>)
    ensures |r| == |s|
    ensures forall i :: 0 <= i < |s| ==> r[i] == s[|s| - 1 - i]
  {
    if |s| == 0 then [] else [s[|s| - 1]] + Reverse(s[..|s| - 1])
  }

  /** Every date is later than every date after it. */
  predicate StrictlyDescending(s: seq<Point>)
    requires AllDated(s)
  {
    forall i, j :: 0 <= i < j < |s| ==> s[i].date.value > s[j].date.value
  }

  /**
   * Points that come newest first, as the embedded data does, are sorted by
   * reversing them: each new point is moved to the front.
   */
  lemma {:induction false} DescendingReversed(s: seq<Point>)
    requires AllDated(s) && StrictlyDescending(s)
    ensures SortByDate(s) == Reverse(s)
    decreases |s|
  {
    if |s| > 0 {
      var s', x := s[..|s| - 1], s[|s| - 1];
      assert AllDated(s') && StrictlyDescending(s');
      DescendingReversed(s');
      var t := Reverse(s');
      forall k | 0 <= k < |t|
        ensures Compare(t[k], x) > 0
      {
        assert t[k] == s[|s'| - 1 - k];
      }
      InsertFront(t, x);
      assert SortByDate(s) == Insert(t, x);
      assert Reverse(s) == [x] + t;
    }
  }

  /** A point before which every point compares greater is inserted at the front. */
  lemma InsertFront(t: seq<Point>, x: Point)
    requires forall k :: 0 <= k < |t| ==> Compare(t[k], x) > 0
    ensures Insert(t, x) == [x] + t
  {
    InsertAt(t, x, 0);
    assert t[..0] == [] && t[0..] == t;
  }

  /**
   * One pass of the sort: `a[i]` is shifted left past the points before it
   * that compare greater, which move up by one.
   */
  method InsertInPlace(a: array<Point>, i: nat)
    requires i < a.Length
    modifies a
    ensures a[..i + 1] == Insert(old(a[..i]), old(a[i]))
    ensures a[i + 1..] == old(a[i + 1..])
  {
    ghost var t := a[..i];
    var x := a[i];
    var j := i;
    while j > 0 && Compare(a[j - 1], x) > 0
      invariant 0 <= j <= i
      invariant forall k :: 0 <= k < j ==> a[k] == t[k]
      invariant forall k :: j < k <= i ==> a[k] == t[k - 1]
      invariant forall k :: i < k < a.Length ==> a[k] == old(a[k])
      invariant forall k :: j <= k < i ==> Compare(t[k], x) > 0
    {
      a[j] := a[j - 1];
      j := j - 1;
    }
    a[j] := x;
    InsertAt(t, x, j);
    assert a[..i + 1] == t[..j] + [x] + t[j..];
  }

  /** After pass `i`, one more point of the input is sorted and the rest is untouched. */
  lemma SortStep(s: seq<Point>, before: seq<Point>, after: seq<Point>, i: nat)
    requires i < |s| == |before| == |after|
    requires before[..i] == SortByDate(s[..i]) && before[i..] == s[i..]
    requires after[..i + 1] == Insert(before[..i], before[i]) && after[i + 1..] == before[i + 1..]
    ensures after[..i + 1] == SortByDate(s[..i + 1]) && after[i + 1..] == s[i + 1..]
  {
    assert before[i] == s[i];
    assert s[..i + 1][..i] == s[..i] && s[..i + 1][i] == s[i];
    assert before[i + 1..] == s[i + 1..];
  }

  /**
   * `parsedData.sort(comparator)` in place: insertion sort, each point
   * shifted left past the sorted points that compare greater than it.
   */
  method SortInPlace(a: array<Point>)
    modifies a
    ensures a[..] == SortByDate(old(a[..]))
    ensures multiset(a[..]) == multiset(old(a[..]))
  {
    SortPermutes(a[..]);
    ghost var s := a[..];
    var i := 0;
    while i < a.Length
      invariant 0 <= i <= a.Length
      invariant a[..i] == SortByDate(s[..i])
      invariant a[i..] == s[i..]
    {
      ghost var before := a[..];
      InsertInPlace(a, i);
      SortStep(s, before, a[..], i);
      i := i + 1;
    }
    assert s[..a.Length] == s;
  }
}

/**
 * `String.prototype.split` with a one-character separator, as the pipeline
 * uses it for lines ("\n") and for the fields of a row (",").
 */
module Text {

  /** Number of occurrences of `c` in `s`. */
  function Count(s: string, c: char): nat
  {
    if |s| == 0 then 0 else (if s[0] == c then 1 else 0) + Count(s[1..], c)
  }

  /**
   * `s.split(sep)`: the pieces between separators, in order, empty pieces
   * kept; the empty string gives one empty piece.
   */
  function Split(s: string, sep: char): (r: seq<string>)
    ensures |r| == Count(s, sep) + 1
    ensures forall i :: 0 <= i < |r| ==> sep !in r[i]
    decreases |s|
  {
    if |s| == 0 then [""]
    else
      var rest := Split(s[1..], sep);
      if s[0] == sep then [""] + rest
      else [[s[0]] + rest[0]] + rest[1..]
  }

  /** `pieces.join(sep)`. */
  function Join(pieces: seq<string>, sep: char): string
  {
    if |pieces| == 0 then ""
    else if |pieces| == 1 then pieces[0]
    else pieces[0] + [sep] + Join(pieces[1..], sep)
  }

  /** Joining the pieces back with the separator restores the text. */
  lemma {:induction false} JoinSplit(s: string, sep: char)
    ensures Join(Split(s, sep), sep) == s
    decreases |s|
  {
    if |s| > 0 {
      JoinSplit(s[1..], sep);
      var rest := Split(s[1..], sep);
      if s[0] != sep {
        if |rest| == 1 {
          assert Join(Split(s, sep), sep) == [s[0]] + rest[0];
        } else {
          assert Split(s, sep)[1..] == rest[1..];
          assert Join(rest, sep) == rest[0] + [sep] + Join(rest[1..], sep);
        }
      } else {
        assert Split(s, sep)[1..] == rest;
      }
      assert s == [s[0]] + s[1..];
    }
  }

  /** A separator-free prefix, a separator, then the rest: the prefix is the first piece. */
  lemma {:induction false} SplitCons(u: string, sep: char, v: string)
    requires sep !in u
    ensures Split(u + [sep] + v, sep) == [u] + Split(v, sep)
    decreases |u|
  {
    if |u| > 0 {
      var s := u + [sep] + v;
      assert s[1..] == u[1..] + [sep] + v;
      SplitCons(u[1..], sep, v);
      assert [u[0]] + u[1..] == u;
    } else {
      assert u + [sep] + v == [sep] + v;
    }
  }

  /** Text without the separator is a single piece. */
  lemma {:induction false} SplitNone(u: string, sep: char)
    requires sep !in u
    ensures Split(u, sep) == [u]
    decreases |u|
  {
    if |u| > 0 {
      SplitNone(u[1..], sep);
      assert [u[0]] + u[1..] == u;
    }
  }

  /**
   * Splitting undoes joining: the separator-free pieces are the only ones
   * whose join is the text, so `Split` and `Join` are inverse bijections.
   */
  lemma {:induction false} SplitJoin(pieces: seq<string>, sep: char)
    requires |pieces| >= 1
    requires forall i :: 0 <= i < |pieces| ==> sep !in pieces[i]
    ensures Split(Join(pieces, sep), sep) == pieces
    decreases |pieces|
  {
    if |pieces| == 1 {
      SplitNone(pieces[0], sep);
    } else {
      SplitJoin(pieces[1..], sep);
      SplitCons(pieces[0], sep, Join(pieces[1..], sep));
      assert [pieces[0]] + pieces[1..] == pieces;
    }
  }

  /**
   * The first piece is the text up to the first separator (or all of it);
   * when a separator follows, the remaining pieces split the text after it.
   */
  lemma {:induction false} SplitHead(s: string, sep: char)
    ensures var r := Split(s, sep);
      && |r[0]| <= |s| && s[..|r[0]|] == r[0]
      && (|r[0]| == |s| <==> |r| == 1)
      && (|r[0]| < |s| ==> s[|r[0]|] == sep && r[1..] == Split(s[|r[0]| + 1..], sep))
    decreases |s|
  {
    if |s| > 0 && s[0] != sep {
      SplitHead(s[1..], sep);
      var rest := Split(s[1..], sep);
      assert s[1..][|rest[0]|..] == s[|rest[0]| + 1..];
      if |rest[0]| < |s[1..]| {
        assert s[1..][|rest[0]| + 1..] == s[|rest[0]| + 2..];
      }
    }
  }
}

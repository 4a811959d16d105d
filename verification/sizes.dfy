/**
 * The five size counters `scc` reports per file and every later table sums,
 * differences or takes the absolute value of, column by column.
 */
module Sizes {

  datatype Sizes = Sizes(lines: int, code: int, comments: int, blanks: int, bytes: int) {

    function Add(o: Sizes): Sizes {
      Sizes(lines + o.lines, code + o.code, comments + o.comments, blanks + o.blanks, bytes + o.bytes)
    }

    function Sub(o: Sizes): Sizes {
      Sizes(lines - o.lines, code - o.code, comments - o.comments, blanks - o.blanks, bytes - o.bytes)
    }

    /** `DataFrame.abs()` on the five columns. */
    function Abs(): (a: Sizes)
      ensures a.NonNegative()
    {
      Sizes(AbsInt(lines), AbsInt(code), AbsInt(comments), AbsInt(blanks), AbsInt(bytes))
    }

    predicate NonNegative() {
      lines >= 0 && code >= 0 && comments >= 0 && blanks >= 0 && bytes >= 0
    }

    /** Column by column at most `o`. */
    predicate AtMost(o: Sizes) {
      lines <= o.lines && code <= o.code && comments <= o.comments && blanks <= o.blanks && bytes <= o.bytes
    }
  }

  const Zero: Sizes := Sizes(0, 0, 0, 0, 0)

  /** Every column set to -1: the bus-factor row of a day without contributions. */
  const MinusOne: Sizes := Sizes(-1, -1, -1, -1, -1)

  function AbsInt(x: int): (a: int)
    ensures a >= 0 && (a == x || a == -x)
  {
    if x < 0 then -x else x
  }

  /** Column sums of a sequence of rows. */
  function Sum(xs: seq<Sizes>): Sizes {
    if |xs| == 0 then Zero else Sum(xs[..|xs| - 1]).Add(xs[|xs| - 1])
  }

  /** The absolute value of every row. */
  function AbsAll(xs: seq<Sizes>): (ys: seq<Sizes>)
    ensures |ys| == |xs|
    ensures forall i :: 0 <= i < |xs| ==> ys[i] == xs[i].Abs()
  {
    seq(|xs|, i requires 0 <= i < |xs| => xs[i].Abs())
  }

  /** Rearranging a sum of four rows. */
  lemma AddSwap(a: Sizes, b: Sizes, c: Sizes, d: Sizes)
    ensures a.Add(b).Add(c.Add(d)) == a.Add(c).Add(b.Add(d))
  {
  }

  lemma {:induction false} SumAppend(xs: seq<Sizes>, ys: seq<Sizes>)
    ensures Sum(xs + ys) == Sum(xs).Add(Sum(ys))
    decreases |ys|
  {
    if |ys| == 0 {
      assert xs + ys == xs;
    } else {
      var init := ys[..|ys| - 1];
      assert (xs + ys)[..|xs + ys| - 1] == xs + init;
      SumAppend(xs, init);
    }
  }

  lemma AddZero(x: Sizes)
    ensures x.Add(Zero) == x
  {
  }

  /** The sum of a non-empty sequence is the sum of all but the last row plus the last row. */
  lemma SumSnoc(xs: seq<Sizes>)
    requires |xs| > 0
    ensures Sum(xs) == Sum(xs[..|xs| - 1]).Add(xs[|xs| - 1])
  {
  }

  lemma SumSingle(x: Sizes)
    ensures Sum([x]) == x
  {
    assert [x][..0] == [];
  }

  /** Summing absolute values gives a non-negative total. */
  lemma {:induction false} SumOfAbsNonNegative(xs: seq<Sizes>)
    ensures Sum(AbsAll(xs)).NonNegative()
  {
    if |xs| > 0 {
      var init := xs[..|xs| - 1];
      assert AbsAll(xs)[..|xs| - 1] == AbsAll(init);
      SumOfAbsNonNegative(init);
    }
  }

  /** Triangle inequality: the absolute total is at most the total of absolute values. */
  lemma {:induction false} AbsOfSumAtMostSumOfAbs(xs: seq<Sizes>)
    ensures Sum(xs).Abs().AtMost(Sum(AbsAll(xs)))
  {
    if |xs| > 0 {
      var init := xs[..|xs| - 1];
      assert AbsAll(xs)[..|xs| - 1] == AbsAll(init);
      AbsOfSumAtMostSumOfAbs(init);
    }
  }
}

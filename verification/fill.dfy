/**
 * `DataFrame.ffill()` on one column whose missing values are `None`.
 */
module Fill {
  import opened Wrappers

  /** The last present value of `xs`, or `None` when every value is missing. */
  function LastPresent<T>(xs: seq<Option<T>>): Option<T> {
    if |xs| == 0 then None
    else if xs[|xs| - 1].Some? then xs[|xs| - 1]
    else LastPresent(xs[..|xs| - 1])
  }

  /**
   * Forward fill: a present value stays, a missing value takes the value
   * the row before it ended up with, and a missing first value stays missing.
   */
  function ForwardFill<T>(xs: seq<Option<T>>): (ys: seq<Option<T>>)
    ensures |ys| == |xs|
    ensures forall i :: 0 <= i < |xs| && xs[i].Some? ==> ys[i] == xs[i]
    ensures forall i :: 0 < i < |xs| && xs[i].None? ==> ys[i] == ys[i - 1]
    ensures |xs| > 0 && xs[0].None? ==> ys[0].None?
  {
    if |xs| == 0 then []
    else
      var init := ForwardFill(xs[..|xs| - 1]);
      var last := xs[|xs| - 1];
      assert forall i :: 0 <= i < |xs| - 1 ==> xs[..|xs| - 1][i] == xs[i];
      init + [if last.Some? || |init| == 0 then last else init[|init| - 1]]
  }

  /** Every filled value is the nearest present value at or before its row. */
  lemma {:induction false} ForwardFillIsLastPresent<T>(xs: seq<Option<T>>, i: nat)
    requires i < |xs|
    ensures ForwardFill(xs)[i] == LastPresent(xs[..i + 1])
  {
    var ys := ForwardFill(xs);
    var p := xs[..i + 1];
    assert p[|p| - 1] == xs[i];
    if xs[i].None? && i > 0 {
      assert p[..|p| - 1] == xs[..i];
      ForwardFillIsLastPresent(xs, i - 1);
    } else if xs[i].None? {
      assert p[..|p| - 1] == [];
    }
  }

  /** A filled value is missing exactly when every value up to its row is missing. */
  lemma {:induction false} ForwardFillLeadingGap<T>(xs: seq<Option<T>>, i: nat)
    requires i < |xs|
    ensures ForwardFill(xs)[i].None? <==> forall j :: 0 <= j <= i ==> xs[j].None?
  {
    if i > 0 && xs[i].None? {
      ForwardFillLeadingGap(xs, i - 1);
    }
  }
}

/**
 * Row concatenation and the left merge of two tables on one key column.
 */
module Joins {
  import opened Wrappers
  import opened Frames

  /** `pd.concat(parts, ignore_index=True)`: the parts' rows one after another. */
  function Concat<T(!new)>(parts: seq<seq<T>>): (xs: seq<T>)
    ensures forall x :: x in xs <==> exists i :: 0 <= i < |parts| && x in parts[i]
  {
    if |parts| == 0 then []
    else
      var init := parts[..|parts| - 1];
      var rest := Concat(init);
      assert forall i :: 0 <= i < |parts| - 1 ==> init[i] == parts[i];
      rest + parts[|parts| - 1]
  }

  lemma ConcatAppend<T(!new)>(parts: seq<seq<T>>, part: seq<T>)
    ensures Concat(parts + [part]) == Concat(parts) + part
  {
    assert (parts + [part])[..|parts|] == parts;
  }

  /** The rows of `right` whose key is `k`, in their order. */
  function Matches<R(!new), K(==)>(right: seq<R>, rkey: R -> K, k: K): (ms: seq<R>)
    ensures |ms| <= |right|
    ensures forall r :: r in ms <==> r in right && rkey(r) == k
  {
    if |right| == 0 then []
    else
      var init := right[..|right| - 1];
      var last := right[|right| - 1];
      assert forall r :: r in right <==> r in init || r == last;
      Matches(init, rkey, k) + (if rkey(last) == k then [last] else [])
  }

  /** The output rows one left row yields: one per match, or one without a match. */
  function MergeRow<L(!new), R(!new), K(==)>(l: L, right: seq<R>, lkey: L -> K, rkey: R -> K): (out: seq<(L, Option<R>)>)
    ensures |out| > 0
    ensures forall p :: p in out ==> p.0 == l
  {
    var ms := Matches(right, rkey, lkey(l));
    if |ms| == 0 then [(l, None)]
    else seq(|ms|, j requires 0 <= j < |ms| => (l, Some(ms[j])))
  }

  /**
   * `left.merge(right, on=key, how="left")`: left rows in order, each paired
   * with every right row of the same key in right order, or with `None`
   * (the NaN columns) when no right row has its key.
   */
  function LeftMerge<L(!new), R(!new), K(==)>(left: seq<L>, right: seq<R>, lkey: L -> K, rkey: R -> K): (out: seq<(L, Option<R>)>)
    ensures |out| >= |left|
  {
    if |left| == 0 then []
    else LeftMerge(left[..|left| - 1], right, lkey, rkey) + MergeRow(left[|left| - 1], right, lkey, rkey)
  }

  /**
   * Every merged row pairs a left row with a right row of the same key, and
   * is unpaired only when no right row has that key.
   */
  lemma {:induction false} LeftMergeRows<L(!new), R(!new), K>(left: seq<L>, right: seq<R>, lkey: L -> K, rkey: R -> K)
    ensures forall p :: p in LeftMerge(left, right, lkey, rkey) ==> p.0 in left
    ensures forall p :: p in LeftMerge(left, right, lkey, rkey) && p.1.Some? ==>
      p.1.value in right && rkey(p.1.value) == lkey(p.0)
    ensures forall p :: p in LeftMerge(left, right, lkey, rkey) && p.1.None? ==>
      forall r :: r in right ==> rkey(r) != lkey(p.0)
  {
    if |left| > 0 {
      var init := left[..|left| - 1];
      var l := left[|left| - 1];
      LeftMergeRows(init, right, lkey, rkey);
      var ms := Matches(right, rkey, lkey(l));
      var row := MergeRow(l, right, lkey, rkey);
      assert forall p :: p in row && p.1.Some? ==> p.1.value in ms;
      assert forall p :: p in LeftMerge(left, right, lkey, rkey) <==> p in LeftMerge(init, right, lkey, rkey) || p in row;
      assert forall x :: x in init ==> x in left;
    }
  }

  /** A left row whose key has at most one match yields exactly one row. */
  lemma MergeRowUnique<L(!new), R(!new), K>(l: L, right: seq<R>, lkey: L -> K, rkey: R -> K)
    requires |Matches(right, rkey, lkey(l))| <= 1
    ensures MergeRow(l, right, lkey, rkey) == [(l, UniqueMatchOf(right, rkey, lkey(l)))]
  {
  }

  /** The one row of `right` with key `k`, when the key is unique on the right. */
  function UniqueMatchOf<R(!new), K(==)>(right: seq<R>, rkey: R -> K, k: K): Option<R> {
    var ms := Matches(right, rkey, k);
    if |ms| == 0 then None else Some(ms[0])
  }

  /**
   * Merging on a key that is unique on the right keeps exactly one row per
   * left row, in order, paired with the right row holding its key.
   */
  lemma LeftMergeUnique<L(!new), R(!new), K>(left: seq<L>, right: seq<R>, lkey: L -> K, rkey: R -> K)
    requires DistinctKeys(right, rkey)
    ensures |LeftMerge(left, right, lkey, rkey)| == |left|
    ensures forall i :: 0 <= i < |left| ==>
      LeftMerge(left, right, lkey, rkey)[i] == (left[i], UniqueMatchOf(right, rkey, lkey(left[i])))
  {
    LeftMergeIsPaired(left, right, lkey, rkey);
  }

  /** Each left row with its unique match, if any. */
  function Paired<L(!new), R(!new), K(==)>(left: seq<L>, right: seq<R>, lkey: L -> K, rkey: R -> K): (out: seq<(L, Option<R>)>)
    ensures |out| == |left|
    ensures forall i :: 0 <= i < |left| ==> out[i] == (left[i], UniqueMatchOf(right, rkey, lkey(left[i])))
  {
    seq(|left|, i requires 0 <= i < |left| => (left[i], UniqueMatchOf(right, rkey, lkey(left[i]))))
  }

  lemma {:induction false} LeftMergeIsPaired<L(!new), R(!new), K>(left: seq<L>, right: seq<R>, lkey: L -> K, rkey: R -> K)
    requires DistinctKeys(right, rkey)
    ensures LeftMerge(left, right, lkey, rkey) == Paired(left, right, lkey, rkey)
  {
    if |left| > 0 {
      LeftMergeIsPaired(left[..|left| - 1], right, lkey, rkey);
      UniqueMatch(right, rkey, lkey(left[|left| - 1]));
      LeftMergeSnocUnique(left, right, lkey, rkey);
      PairedSnoc(left, right, lkey, rkey);
    }
  }

  lemma PairedSnoc<L(!new), R(!new), K>(left: seq<L>, right: seq<R>, lkey: L -> K, rkey: R -> K)
    requires |left| > 0
    ensures Paired(left, right, lkey, rkey)
      == Paired(left[..|left| - 1], right, lkey, rkey) + [(left[|left| - 1], UniqueMatchOf(right, rkey, lkey(left[|left| - 1])))]
  {
    var init := left[..|left| - 1];
    assert forall i :: 0 <= i < |init| ==> init[i] == left[i];
  }

  lemma LeftMergeSnocUnique<L(!new), R(!new), K>(left: seq<L>, right: seq<R>, lkey: L -> K, rkey: R -> K)
    requires |left| > 0 && |Matches(right, rkey, lkey(left[|left| - 1]))| <= 1
    ensures LeftMerge(left, right, lkey, rkey)
      == LeftMerge(left[..|left| - 1], right, lkey, rkey) + [(left[|left| - 1], UniqueMatchOf(right, rkey, lkey(left[|left| - 1])))]
  {
    MergeRowUnique(left[|left| - 1], right, lkey, rkey);
  }

  /** At most one row of a frame with distinct keys matches a key. */
  lemma {:induction false} UniqueMatch<R(!new), K>(right: seq<R>, rkey: R -> K, k: K)
    requires DistinctKeys(right, rkey)
    ensures |Matches(right, rkey, k)| <= 1
  {
    if |right| > 0 {
      var init := right[..|right| - 1];
      var last := right[|right| - 1];
      assert forall i :: 0 <= i < |init| ==> init[i] == right[i];
      UniqueMatch(init, rkey, k);
      var m := Matches(init, rkey, k);
      assert rkey(last) == k ==> forall r :: r in init ==> rkey(r) != k;
      assert |m| > 0 ==> m[0] in m && m[0] in init && rkey(m[0]) == k;
    }
  }
}

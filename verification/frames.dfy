/**
 * The table helpers of `src/api/utils.py`, on frames modelled as sequences of
 * labelled rows. A pandas frame's index label is kept with every row because
 * the label, not the position, is what a later `reset_index` turns into a
 * foreign key and what the persistence layer stores as `id`.
 */
module Frames {
  import opened Wrappers

  /** One row of a frame: its index label and its column values. */
  datatype Row<T> = Row(index: nat, value: T)

  type Frame<T> = seq<Row<T>>

  /** A frame over `xs` with the default index 0..n-1. */
  function Labelled<T>(xs: seq<T>): (f: Frame<T>)
    ensures |f| == |xs|
    ensures forall i :: 0 <= i < |xs| ==> f[i] == Row(i, xs[i])
  {
    seq(|xs|, i requires 0 <= i < |xs| => Row(i, xs[i]))
  }

  /** The column values of a frame, index dropped. */
  function Values<T>(f: Frame<T>): (xs: seq<T>)
    ensures |xs| == |f|
    ensures forall i :: 0 <= i < |f| ==> xs[i] == f[i].value
  {
    seq(|f|, i requires 0 <= i < |f| => f[i].value)
  }

  /** The index of `f` is 0..n-1. */
  predicate RangeIndexed<T>(f: Frame<T>) {
    forall i :: 0 <= i < |f| ==> f[i].index == i
  }

  /** The index labels of `f` increase strictly from row to row. */
  predicate IncreasingLabels<T>(f: Frame<T>) {
    forall i, j :: 0 <= i < j < |f| ==> f[i].index < f[j].index
  }

  /** The set of keys that rows of `xs` carry. */
  function KeysOf<T, K>(xs: seq<T>, key: T -> K): set<K> {
    set i | 0 <= i < |xs| :: key(xs[i])
  }

  /** No two rows of `xs` carry the same key. */
  predicate DistinctKeys<T, K(==)>(xs: seq<T>, key: T -> K) {
    forall i, j :: 0 <= i < j < |xs| ==> key(xs[i]) != key(xs[j])
  }

  /** Position of the first row with key `k`, or |xs| when there is none. */
  function FirstIndex<T, K(==)>(xs: seq<T>, key: T -> K, k: K): (i: nat)
    ensures i <= |xs|
    ensures i < |xs| ==> key(xs[i]) == k
    ensures forall j :: 0 <= j < i ==> key(xs[j]) != k
  {
    if |xs| == 0 then 0
    else if key(xs[0]) == k then 0
    else 1 + FirstIndex(xs[1..], key, k)
  }

  /** Position of the last row with key `k`, or -1 when there is none. */
  function LastIndex<T, K(==)>(xs: seq<T>, key: T -> K, k: K): (i: int)
    ensures -1 <= i < |xs|
    ensures 0 <= i ==> key(xs[i]) == k
    ensures forall j :: i < j < |xs| ==> key(xs[j]) != k
  {
    if |xs| == 0 then -1
    else if key(xs[|xs| - 1]) == k then |xs| - 1
    else LastIndex(xs[..|xs| - 1], key, k)
  }

  /**
   * `copy_dataframe_columns_to_dataframe`: the same rows with the same labels,
   * each restricted to the columns that `cols` keeps.
   */
  function Select<T, U>(f: Frame<T>, cols: T -> U): (g: Frame<U>)
    ensures |g| == |f|
    ensures forall i :: 0 <= i < |f| ==> g[i].index == f[i].index && g[i].value == cols(f[i].value)
  {
    seq(|f|, i requires 0 <= i < |f| => Row(f[i].index, cols(f[i].value)))
  }

  /** `df[mask]`: the rows whose values satisfy `keep`, labels and order unchanged. */
  function Where<T>(f: Frame<T>, keep: T -> bool): (g: Frame<T>)
    ensures |g| <= |f|
    ensures forall j :: 0 <= j < |g| ==> g[j] in f && keep(g[j].value)
    ensures forall i :: 0 <= i < |f| && keep(f[i].value) ==> f[i] in g
    ensures IncreasingLabels(f) ==> IncreasingLabels(g)
  {
    if |f| == 0 then []
    else
      var init := Where(f[..|f| - 1], keep);
      var last := f[|f| - 1];
      assert forall i :: 0 <= i < |f| - 1 ==> f[..|f| - 1][i] == f[i];
      init + (if keep(last.value) then [last] else [])
  }

  lemma KeysOfAppend<T, K>(xs: seq<T>, x: T, key: T -> K)
    ensures KeysOf(xs + [x], key) == KeysOf(xs, key) + {key(x)}
  {
    var ys := xs + [x];
    forall k | k in KeysOf(ys, key) ensures k in KeysOf(xs, key) + {key(x)} {
      var i :| 0 <= i < |ys| && key(ys[i]) == k;
      if i < |xs| { assert key(xs[i]) == k; }
    }
    forall k | k in KeysOf(xs, key) ensures k in KeysOf(ys, key) {
      var i :| 0 <= i < |xs| && key(xs[i]) == k;
      assert key(ys[i]) == k;
    }
    assert key(ys[|xs|]) == key(x);
  }

  lemma KeysOfPrepend<T, K>(x: T, xs: seq<T>, key: T -> K)
    ensures KeysOf([x] + xs, key) == {key(x)} + KeysOf(xs, key)
  {
    var ys := [x] + xs;
    forall k | k in KeysOf(ys, key) ensures k in {key(x)} + KeysOf(xs, key) {
      var i :| 0 <= i < |ys| && key(ys[i]) == k;
      if 0 < i { assert key(xs[i - 1]) == k; }
    }
    forall k | k in KeysOf(xs, key) ensures k in KeysOf(ys, key) {
      var i :| 0 <= i < |xs| && key(xs[i]) == k;
      assert key(ys[i + 1]) == k;
    }
    assert key(ys[0]) == key(x);
  }

  lemma FirstIndexOfExtended<T, K>(xs: seq<T>, x: T, key: T -> K, k: K)
    ensures FirstIndex(xs + [x], key, k) ==
      (if FirstIndex(xs, key, k) < |xs| then FirstIndex(xs, key, k)
       else if key(x) == k then |xs| else |xs| + 1)
  {
    var p := FirstIndex(xs, key, k);
    var q := FirstIndex(xs + [x], key, k);
    if p < |xs| {
      assert (xs + [x])[p] == xs[p];
    } else if key(x) == k {
      assert (xs + [x])[|xs|] == x;
    }
    assert forall j :: 0 <= j < |xs| ==> (xs + [x])[j] == xs[j];
  }

  lemma LastIndexOfPrepended<T, K>(x: T, xs: seq<T>, key: T -> K, k: K)
    ensures LastIndex([x] + xs, key, k) ==
      (if 0 <= LastIndex(xs, key, k) then 1 + LastIndex(xs, key, k)
       else if key(x) == k then 0 else -1)
  {
    var p := LastIndex(xs, key, k);
    if 0 <= p {
      assert ([x] + xs)[p + 1] == xs[p];
    } else if key(x) == k {
      assert ([x] + xs)[0] == x;
    }
    assert forall j :: 0 <= j < |xs| ==> ([x] + xs)[j + 1] == xs[j];
  }

  lemma InKeysOf<T, K>(xs: seq<T>, key: T -> K)
    ensures forall j :: 0 <= j < |xs| ==> key(xs[j]) in KeysOf(xs, key)
  {
  }

  /**
   * The first row of every key, in order: the reference meaning of
   * `drop_duplicates(keep="first")`.
   */
  function FirstOccurrences<T(==), K(==)>(xs: seq<T>, key: T -> K): (ys: seq<T>)
    ensures |ys| <= |xs|
    ensures DistinctKeys(ys, key)
    ensures KeysOf(ys, key) == KeysOf(xs, key)
    ensures forall j :: 0 <= j < |ys| ==>
      FirstIndex(xs, key, key(ys[j])) < |xs| && ys[j] == xs[FirstIndex(xs, key, key(ys[j]))]
    ensures forall j1, j2 :: 0 <= j1 < j2 < |ys| ==>
      FirstIndex(xs, key, key(ys[j1])) < FirstIndex(xs, key, key(ys[j2]))
  {
    if |xs| == 0 then []
    else
      var init := xs[..|xs| - 1];
      var x := xs[|xs| - 1];
      var prev := FirstOccurrences(init, key);
      assert xs == init + [x];
      if key(x) in KeysOf(init, key) then
        OldKeyStep(init, x, key, prev);
        prev
      else
        NewKeyStep(init, x, key, prev);
        prev + [x]
  }

  /** A row with a key seen before leaves the first rows as they were. */
  lemma OldKeyStep<T, K>(init: seq<T>, x: T, key: T -> K, prev: seq<T>)
    requires key(x) in KeysOf(init, key)
    requires KeysOf(prev, key) == KeysOf(init, key)
    requires forall j :: 0 <= j < |prev| ==>
      FirstIndex(init, key, key(prev[j])) < |init| && prev[j] == init[FirstIndex(init, key, key(prev[j]))]
    requires forall j1, j2 :: 0 <= j1 < j2 < |prev| ==>
      FirstIndex(init, key, key(prev[j1])) < FirstIndex(init, key, key(prev[j2]))
    ensures KeysOf(prev, key) == KeysOf(init + [x], key)
    ensures forall j :: 0 <= j < |prev| ==>
      FirstIndex(init + [x], key, key(prev[j])) < |init + [x]|
      && prev[j] == (init + [x])[FirstIndex(init + [x], key, key(prev[j]))]
    ensures forall j1, j2 :: 0 <= j1 < j2 < |prev| ==>
      FirstIndex(init + [x], key, key(prev[j1])) < FirstIndex(init + [x], key, key(prev[j2]))
  {
    KeysOfAppend(init, x, key);
    PrevStillFirst(init, x, key, prev);
  }

  /** A row with a key not seen before is its key's first row and comes after all others. */
  lemma NewKeyStep<T, K>(init: seq<T>, x: T, key: T -> K, prev: seq<T>)
    requires key(x) !in KeysOf(init, key)
    requires DistinctKeys(prev, key)
    requires KeysOf(prev, key) == KeysOf(init, key)
    requires forall j :: 0 <= j < |prev| ==>
      FirstIndex(init, key, key(prev[j])) < |init| && prev[j] == init[FirstIndex(init, key, key(prev[j]))]
    requires forall j1, j2 :: 0 <= j1 < j2 < |prev| ==>
      FirstIndex(init, key, key(prev[j1])) < FirstIndex(init, key, key(prev[j2]))
    ensures DistinctKeys(prev + [x], key)
    ensures KeysOf(prev + [x], key) == KeysOf(init + [x], key)
    ensures forall j :: 0 <= j < |prev| + 1 ==>
      FirstIndex(init + [x], key, key((prev + [x])[j])) < |init| + 1
      && (prev + [x])[j] == (init + [x])[FirstIndex(init + [x], key, key((prev + [x])[j]))]
    ensures forall j1, j2 :: 0 <= j1 < j2 < |prev| + 1 ==>
      FirstIndex(init + [x], key, key((prev + [x])[j1])) < FirstIndex(init + [x], key, key((prev + [x])[j2]))
  {
    KeysOfAppend(init, x, key);
    PrevStillFirst(init, x, key, prev);
    FirstIndexOfExtended(init, x, key, key(x));
    if FirstIndex(init, key, key(x)) < |init| {
      InKeysOf(init, key);
    }
    NewKeyDistinct(prev, x, key, KeysOf(init, key));
    KeysOfAppend(prev, x, key);
    NewKeyFirst(init, x, key, prev);
    NewKeyOrder(init, x, key, prev);
  }

  /** Appending a row keeps the first rows of the keys already seen where they were. */
  lemma PrevStillFirst<T, K>(init: seq<T>, x: T, key: T -> K, prev: seq<T>)
    requires forall j :: 0 <= j < |prev| ==>
      FirstIndex(init, key, key(prev[j])) < |init| && prev[j] == init[FirstIndex(init, key, key(prev[j]))]
    requires forall j1, j2 :: 0 <= j1 < j2 < |prev| ==>
      FirstIndex(init, key, key(prev[j1])) < FirstIndex(init, key, key(prev[j2]))
    ensures forall j :: 0 <= j < |prev| ==>
      FirstIndex(init + [x], key, key(prev[j])) < |init|
      && prev[j] == (init + [x])[FirstIndex(init + [x], key, key(prev[j]))]
    ensures forall j1, j2 :: 0 <= j1 < j2 < |prev| ==>
      FirstIndex(init + [x], key, key(prev[j1])) < FirstIndex(init + [x], key, key(prev[j2]))
  {
    var xs := init + [x];
    forall j | 0 <= j < |prev|
      ensures FirstIndex(xs, key, key(prev[j])) == FirstIndex(init, key, key(prev[j]))
    {
      FirstIndexOfExtended(init, x, key, key(prev[j]));
    }
    forall j | 0 <= j < |prev| ensures prev[j] == xs[FirstIndex(xs, key, key(prev[j]))] {
      var i := FirstIndex(init, key, key(prev[j]));
      assert xs[i] == init[i];
    }
  }

  lemma NewKeyDistinct<T, K>(prev: seq<T>, x: T, key: T -> K, keys: set<K>)
    requires key(x) !in keys
    requires DistinctKeys(prev, key)
    requires KeysOf(prev, key) == keys
    ensures DistinctKeys(prev + [x], key)
  {
    InKeysOf(prev, key);
    var ys := prev + [x];
    assert ys[|prev|] == x;
    forall j | 0 <= j < |prev| ensures ys[j] == prev[j] && key(ys[j]) != key(x) {
    }
  }

  lemma NewKeyFirst<T, K>(init: seq<T>, x: T, key: T -> K, prev: seq<T>)
    requires FirstIndex(init + [x], key, key(x)) == |init|
    requires forall j :: 0 <= j < |prev| ==>
      FirstIndex(init + [x], key, key(prev[j])) < |init|
      && prev[j] == (init + [x])[FirstIndex(init + [x], key, key(prev[j]))]
    ensures forall j :: 0 <= j < |prev| + 1 ==>
      FirstIndex(init + [x], key, key((prev + [x])[j])) < |init| + 1
      && (prev + [x])[j] == (init + [x])[FirstIndex(init + [x], key, key((prev + [x])[j]))]
  {
    var ys := prev + [x];
    assert (init + [x])[|init|] == x;
    assert ys[|prev|] == x;
    assert forall j :: 0 <= j < |prev| ==> ys[j] == prev[j];
  }

  lemma NewKeyOrder<T, K>(init: seq<T>, x: T, key: T -> K, prev: seq<T>)
    requires FirstIndex(init + [x], key, key(x)) == |init|
    requires forall j :: 0 <= j < |prev| ==> FirstIndex(init + [x], key, key(prev[j])) < |init|
    requires forall j1, j2 :: 0 <= j1 < j2 < |prev| ==>
      FirstIndex(init + [x], key, key(prev[j1])) < FirstIndex(init + [x], key, key(prev[j2]))
    ensures forall j1, j2 :: 0 <= j1 < j2 < |prev| + 1 ==>
      FirstIndex(init + [x], key, key((prev + [x])[j1])) < FirstIndex(init + [x], key, key((prev + [x])[j2]))
  {
    var ys := prev + [x];
    forall j1, j2 | 0 <= j1 < j2 < |prev| + 1
      ensures FirstIndex(init + [x], key, key(ys[j1])) < FirstIndex(init + [x], key, key(ys[j2]))
    {
      assert ys[j1] == prev[j1];
      if j2 == |prev| {
        assert ys[j2] == x;
      } else {
        assert ys[j2] == prev[j2];
      }
    }
  }

  /**
   * The last row of every key, in order: the reference meaning of
   * `drop_duplicates(keep="last")`.
   */
  function LastOccurrences<T(==), K(==)>(xs: seq<T>, key: T -> K): (ys: seq<T>)
    ensures |ys| <= |xs|
    ensures DistinctKeys(ys, key)
    ensures KeysOf(ys, key) == KeysOf(xs, key)
    ensures forall j :: 0 <= j < |ys| ==>
      0 <= LastIndex(xs, key, key(ys[j])) && ys[j] == xs[LastIndex(xs, key, key(ys[j]))]
    ensures forall j1, j2 :: 0 <= j1 < j2 < |ys| ==>
      LastIndex(xs, key, key(ys[j1])) < LastIndex(xs, key, key(ys[j2]))
  {
    if |xs| == 0 then []
    else
      var x := xs[0];
      var rest := xs[1..];
      var next := LastOccurrences(rest, key);
      assert xs == [x] + rest;
      KeysOfPrepend(x, rest, key);
      ShiftLast(x, rest, key, next);
      if key(x) in KeysOf(rest, key) then
        next
      else
        LastOccurrencesNewKey(x, rest, key, next);
        [x] + next
  }

  lemma LastOccurrencesNewKey<T, K>(x: T, rest: seq<T>, key: T -> K, next: seq<T>)
    requires key(x) !in KeysOf(rest, key)
    requires DistinctKeys(next, key)
    requires KeysOf(next, key) == KeysOf(rest, key)
    requires forall j :: 0 <= j < |next| ==>
      1 <= LastIndex([x] + rest, key, key(next[j]))
      && next[j] == ([x] + rest)[LastIndex([x] + rest, key, key(next[j]))]
    requires forall j1, j2 :: 0 <= j1 < j2 < |next| ==>
      LastIndex([x] + rest, key, key(next[j1])) < LastIndex([x] + rest, key, key(next[j2]))
    ensures DistinctKeys([x] + next, key)
    ensures KeysOf([x] + next, key) == KeysOf([x] + rest, key)
    ensures forall j :: 0 <= j < |next| + 1 ==>
      0 <= LastIndex([x] + rest, key, key(([x] + next)[j]))
      && ([x] + next)[j] == ([x] + rest)[LastIndex([x] + rest, key, key(([x] + next)[j]))]
    ensures forall j1, j2 :: 0 <= j1 < j2 < |next| + 1 ==>
      LastIndex([x] + rest, key, key(([x] + next)[j1])) < LastIndex([x] + rest, key, key(([x] + next)[j2]))
  {
    KeysOfPrepend(x, rest, key);
    LastIndexOfPrepended(x, rest, key, key(x));
    if 0 <= LastIndex(rest, key, key(x)) {
      InKeysOf(rest, key);
    }
    assert ([x] + rest)[0] == x;
    NewFrontKeyDistinct(x, next, key, KeysOf(rest, key));
    KeysOfPrepend(x, next, key);
    NewFrontKeyLast(x, rest, key, next);
    NewFrontKeyOrder(x, rest, key, next);
  }

  lemma ShiftLast<T, K>(x: T, rest: seq<T>, key: T -> K, next: seq<T>)
    requires forall j :: 0 <= j < |next| ==>
      0 <= LastIndex(rest, key, key(next[j])) && next[j] == rest[LastIndex(rest, key, key(next[j]))]
    requires forall j1, j2 :: 0 <= j1 < j2 < |next| ==>
      LastIndex(rest, key, key(next[j1])) < LastIndex(rest, key, key(next[j2]))
    ensures forall j :: 0 <= j < |next| ==>
      1 <= LastIndex([x] + rest, key, key(next[j]))
      && next[j] == ([x] + rest)[LastIndex([x] + rest, key, key(next[j]))]
    ensures forall j1, j2 :: 0 <= j1 < j2 < |next| ==>
      LastIndex([x] + rest, key, key(next[j1])) < LastIndex([x] + rest, key, key(next[j2]))
  {
    var xs := [x] + rest;
    forall j | 0 <= j < |next|
      ensures LastIndex(xs, key, key(next[j])) == 1 + LastIndex(rest, key, key(next[j]))
    {
      LastIndexOfPrepended(x, rest, key, key(next[j]));
    }
    assert forall i :: 0 <= i < |rest| ==> xs[i + 1] == rest[i];
  }

  lemma NewFrontKeyDistinct<T, K>(x: T, next: seq<T>, key: T -> K, keys: set<K>)
    requires key(x) !in keys
    requires DistinctKeys(next, key)
    requires KeysOf(next, key) == keys
    ensures DistinctKeys([x] + next, key)
  {
    InKeysOf(next, key);
    var ys := [x] + next;
    assert ys[0] == x;
    forall j | 0 <= j < |next| ensures ys[j + 1] == next[j] && key(ys[j + 1]) != key(x) {
    }
  }

  lemma NewFrontKeyLast<T, K>(x: T, rest: seq<T>, key: T -> K, next: seq<T>)
    requires LastIndex([x] + rest, key, key(x)) == 0
    requires forall j :: 0 <= j < |next| ==>
      1 <= LastIndex([x] + rest, key, key(next[j]))
      && next[j] == ([x] + rest)[LastIndex([x] + rest, key, key(next[j]))]
    ensures forall j :: 0 <= j < |next| + 1 ==>
      0 <= LastIndex([x] + rest, key, key(([x] + next)[j]))
      && ([x] + next)[j] == ([x] + rest)[LastIndex([x] + rest, key, key(([x] + next)[j]))]
  {
    var ys := [x] + next;
    assert ([x] + rest)[0] == x;
    assert ys[0] == x;
    assert forall j :: 0 <= j < |next| ==> ys[j + 1] == next[j];
  }

  lemma NewFrontKeyOrder<T, K>(x: T, rest: seq<T>, key: T -> K, next: seq<T>)
    requires LastIndex([x] + rest, key, key(x)) == 0
    requires forall j :: 0 <= j < |next| ==> 1 <= LastIndex([x] + rest, key, key(next[j]))
    requires forall j1, j2 :: 0 <= j1 < j2 < |next| ==>
      LastIndex([x] + rest, key, key(next[j1])) < LastIndex([x] + rest, key, key(next[j2]))
    ensures forall j1, j2 :: 0 <= j1 < j2 < |next| + 1 ==>
      LastIndex([x] + rest, key, key(([x] + next)[j1])) < LastIndex([x] + rest, key, key(([x] + next)[j2]))
  {
    var ys := [x] + next;
    forall j1, j2 | 0 <= j1 < j2 < |next| + 1
      ensures LastIndex([x] + rest, key, key(ys[j1])) < LastIndex([x] + rest, key, key(ys[j2]))
    {
      assert ys[j2] == next[j2 - 1];
      if j1 == 0 {
        assert ys[j1] == x;
      } else {
        assert ys[j1] == next[j1 - 1];
      }
    }
  }

  /**
   * `remove_duplicate_dataframe_rows`: one row per key, each the first row
   * carrying that key, in their original order, relabelled 0..n-1.
   */
  function DedupFirst<T(==), K(==)>(f: Frame<T>, key: T -> K): (g: Frame<T>)
    ensures RangeIndexed(g)
    ensures DistinctKeys(Values(g), key)
    ensures KeysOf(Values(g), key) == KeysOf(Values(f), key)
    ensures forall j :: 0 <= j < |g| ==>
      FirstIndex(Values(f), key, key(g[j].value)) < |f|
      && g[j].value == f[FirstIndex(Values(f), key, key(g[j].value))].value
  {
    var ys := FirstOccurrences(Values(f), key);
    assert Values(Labelled(ys)) == ys;
    Labelled(ys)
  }

  lemma FirstOccurrencesSnoc<T, K>(xs: seq<T>, x: T, key: T -> K)
    ensures FirstOccurrences(xs + [x], key)
      == if key(x) in KeysOf(xs, key) then FirstOccurrences(xs, key) else FirstOccurrences(xs, key) + [x]
  {
    assert (xs + [x])[..|xs|] == xs;
  }

  /**
   * The same deduplication as a loop over the rows with a set of keys already
   * seen, the way `drop_duplicates` hashes its subset column.
   */
  method RemoveDuplicateRows<T(==), K(==)>(f: Frame<T>, key: T -> K) returns (g: Frame<T>)
    ensures g == DedupFirst(f, key)
  {
    var xs := Values(f);
    var kept: seq<T> := [];
    var seen: set<K> := {};
    var i := 0;
    while i < |xs|
      invariant 0 <= i <= |xs|
      invariant kept == FirstOccurrences(xs[..i], key)
      invariant seen == KeysOf(xs[..i], key)
    {
      var x := xs[i];
      assert xs[..i + 1] == xs[..i] + [x];
      KeysOfAppend(xs[..i], x, key);
      FirstOccurrencesSnoc(xs[..i], x, key);
      if key(x) !in seen {
        kept := kept + [x];
        seen := seen + {key(x)};
      }
      i := i + 1;
    }
    assert xs[..|xs|] == xs;
    g := Labelled(kept);
  }

  /**
   * `copy_dataframe_cols_and_remove_duplicate_rows_by_col`: projection onto the
   * kept columns, then one row per unique-column value, first seen wins.
   */
  function SelectDistinct<T, U(==), K(==)>(f: Frame<T>, cols: T -> U, unique: U -> K): (g: Frame<U>)
    ensures RangeIndexed(g)
    ensures DistinctKeys(Values(g), unique)
    ensures KeysOf(Values(g), unique) == set i | 0 <= i < |f| :: unique(cols(f[i].value))
    ensures forall j :: 0 <= j < |g| ==> exists i :: 0 <= i < |f| && g[j].value == cols(f[i].value)
    ensures forall j :: 0 <= j < |g| ==>
      var i := FirstIndex(Values(Select(f, cols)), unique, unique(g[j].value));
      i < |f| && g[j].value == cols(f[i].value)
  {
    var s := Select(f, cols);
    var g := DedupFirst(s, unique);
    assert KeysOf(Values(s), unique) == set i | 0 <= i < |f| :: unique(cols(f[i].value)) by {
      assert forall i :: 0 <= i < |f| ==> Values(s)[i] == cols(f[i].value);
    }
    forall j | 0 <= j < |g| ensures exists i :: 0 <= i < |f| && g[j].value == cols(f[i].value) {
      var i := FirstIndex(Values(s), unique, unique(g[j].value));
      assert g[j].value == cols(f[i].value);
    }
    g
  }

  /**
   * The dictionary `df_2.reset_index().set_index(col)["index"].to_dict()`:
   * value to label, built row by row so that a later row overwrites an
   * earlier row with the same value.
   */
  function IndexMap<K(==)>(table: Frame<K>): map<K, nat> {
    if |table| == 0 then map[]
    else
      var last := table[|table| - 1];
      IndexMap(table[..|table| - 1])[last.value := last.index]
  }

  /**
   * The dictionary holds every value of `table`, and maps it to the label of
   * the last row holding it.
   */
  lemma {:induction false} IndexMapLast<K(!new)>(table: Frame<K>)
    ensures forall i :: 0 <= i < |table| ==> table[i].value in IndexMap(table)
    ensures forall v :: v in IndexMap(table) ==> 0 <= LastIndex(Values(table), Identity, v)
    ensures forall v :: v in IndexMap(table) ==>
      IndexMap(table)[v] == table[LastIndex(Values(table), Identity, v)].index
  {
    if |table| > 0 {
      IndexMapLast(table[..|table| - 1]);
      IndexMapStep(table, IndexMap(table[..|table| - 1]));
    }
  }

  /** Adding the last row's value to the dictionary of the rows before it. */
  lemma IndexMapStep<K(!new)>(table: Frame<K>, m: map<K, nat>)
    requires |table| > 0
    requires forall i :: 0 <= i < |table| - 1 ==> table[i].value in m
    requires forall v :: v in m ==> 0 <= LastIndex(Values(table[..|table| - 1]), Identity, v)
    requires forall v :: v in m ==> m[v] == table[LastIndex(Values(table[..|table| - 1]), Identity, v)].index
    ensures var m' := m[table[|table| - 1].value := table[|table| - 1].index];
      (forall i :: 0 <= i < |table| ==> table[i].value in m')
      && (forall v :: v in m' ==> 0 <= LastIndex(Values(table), Identity, v))
      && (forall v :: v in m' ==> m'[v] == table[LastIndex(Values(table), Identity, v)].index)
  {
    var init := table[..|table| - 1];
    var last := table[|table| - 1];
    var m' := m[last.value := last.index];
    LastIndexDrop(table);
    forall i | 0 <= i < |table| ensures table[i].value in m' {
      if i < |table| - 1 {
        assert table[i] == init[i];
      }
    }
    forall v | v in m' ensures 0 <= LastIndex(Values(table), Identity, v) && m'[v] == table[LastIndex(Values(table), Identity, v)].index {
      if v != last.value {
        var j := LastIndex(Values(init), Identity, v);
        assert table[j] == init[j];
      }
    }
  }

  /** Below the last row, the last row holding any other value is found in the rows before. */
  lemma LastIndexDrop<K>(table: Frame<K>)
    requires |table| > 0
    ensures LastIndex(Values(table), Identity, table[|table| - 1].value) == |table| - 1
    ensures forall v :: v != table[|table| - 1].value ==>
      LastIndex(Values(table), Identity, v) == LastIndex(Values(table[..|table| - 1]), Identity, v)
  {
    assert Values(table)[..|table| - 1] == Values(table[..|table| - 1]);
  }

  function Identity<K>(x: K): K { x }

  /**
   * `value_to_index.get(v)`: the label of the last row of `table` holding `v`,
   * or `None` (a NaN after `Series.map`) when no row holds it.
   */
  function Lookup<K(==,!new)>(table: Frame<K>, v: K): (r: Option<nat>)
    ensures r.None? <==> forall i :: 0 <= i < |table| ==> table[i].value != v
    ensures r.Some? ==> exists i :: (0 <= i < |table| && table[i] == Row(r.value, v)
      && forall j :: i < j < |table| ==> table[j].value != v)
  {
    var m := IndexMap(table);
    IndexMapLast(table);
    if v in m then
      var i := LastIndex(Values(table), Identity, v);
      assert table[i] == Row(m[v], v);
      Some(m[v])
    else None
  }

  /**
   * `replace_dataframe_value_column_with_index_reference` on the column it
   * rewrites: every value becomes the label of the last row of `table`
   * holding it, and a value no row holds becomes missing.
   */
  function ReplaceWithIndex<K(==,!new)>(column: Frame<K>, table: Frame<K>): (r: Frame<Option<nat>>)
    ensures |r| == |column|
    ensures forall i :: 0 <= i < |column| ==> r[i].index == column[i].index
    ensures forall i :: 0 <= i < |column| ==> (r[i].value.None? <==> column[i].value !in Values(table))
    ensures forall i :: 0 <= i < |column| && r[i].value.Some? ==>
      exists j :: 0 <= j < |table| && table[j] == Row(r[i].value.value, column[i].value)
        && forall k :: j < k < |table| ==> table[k].value != column[i].value
  {
    seq(|column|, i requires 0 <= i < |column| => Row(column[i].index, Lookup(table, column[i].value)))
  }

  /**
   * One list cell of `replace_dataframe_value_column_with_index_reference_list`
   * before serialisation: one reference per element, and a lone missing
   * reference for an empty list.
   */
  function RefList<K(==,!new)>(values: seq<K>, table: Frame<K>): (refs: seq<Option<nat>>)
    ensures |refs| > 0
    ensures |values| == 0 ==> refs == [None]
    ensures |values| > 0 ==> |refs| == |values|
    ensures |values| > 0 ==> forall i :: 0 <= i < |values| ==>
      (refs[i].None? <==> values[i] !in Values(table))
    ensures |values| > 0 ==> forall i :: 0 <= i < |values| && refs[i].Some? ==>
      exists j :: 0 <= j < |table| && table[j] == Row(refs[i].value, values[i])
        && forall k :: j < k < |table| ==> table[k].value != values[i]
  {
    if |values| == 0 then [None]
    else seq(|values|, i requires 0 <= i < |values| => Lookup(table, values[i]))
  }

  /**
   * The positions of the present values of `xs`, ascending: every present
   * position once, and no missing one.
   */
  function PresentPositions<T>(xs: seq<Option<T>>): (ps: seq<nat>)
    ensures |ps| <= |xs|
    ensures forall j :: 0 <= j < |ps| ==> ps[j] < |xs| && xs[ps[j]].Some?
    ensures forall i :: 0 <= i < |xs| && xs[i].Some? ==> i in ps
    ensures forall j, k :: 0 <= j < k < |ps| ==> ps[j] < ps[k]
  {
    if |xs| == 0 then []
    else
      var n := |xs| - 1;
      var init := PresentPositions(xs[..n]);
      assert forall j :: 0 <= j < |init| ==> init[j] < n && xs[init[j]] == xs[..n][init[j]];
      if xs[n].Some? then init + [n] else init
  }

  /**
   * `dropna` on one column: the present values of `xs`, one for each present
   * position, in the order of those positions.
   */
  function Present<T>(xs: seq<Option<T>>): (ys: seq<T>)
    ensures |ys| == |PresentPositions(xs)|
    ensures forall j :: 0 <= j < |ys| ==> xs[PresentPositions(xs)[j]] == Some(ys[j])
    ensures forall j :: 0 <= j < |ys| ==> Some(ys[j]) in xs
    ensures forall i :: 0 <= i < |xs| && xs[i].Some? ==> xs[i].value in ys
  {
    if |xs| == 0 then []
    else
      var n := |xs| - 1;
      var init := Present(xs[..n]);
      var ys := if xs[n].Some? then init + [xs[n].value] else init;
      PresentStep(xs, init, ys);
      ys
  }

  /** Extending `dropna` of all but the last value by the last value, if present. */
  lemma PresentStep<T>(xs: seq<Option<T>>, init: seq<T>, ys: seq<T>)
    requires |xs| > 0
    requires |init| == |PresentPositions(xs[..|xs| - 1])|
    requires forall j :: 0 <= j < |init| ==> xs[..|xs| - 1][PresentPositions(xs[..|xs| - 1])[j]] == Some(init[j])
    requires ys == if xs[|xs| - 1].Some? then init + [xs[|xs| - 1].value] else init
    ensures |ys| == |PresentPositions(xs)|
    ensures forall j :: 0 <= j < |ys| ==> xs[PresentPositions(xs)[j]] == Some(ys[j])
    ensures forall j :: 0 <= j < |ys| ==> Some(ys[j]) in xs
    ensures forall i :: 0 <= i < |xs| && xs[i].Some? ==> xs[i].value in ys
  {
    var n := |xs| - 1;
    var ps := PresentPositions(xs);
    var qs := PresentPositions(xs[..n]);
    assert ps == if xs[n].Some? then qs + [n] else qs;
    forall j | 0 <= j < |ys| ensures xs[ps[j]] == Some(ys[j]) {
      if j < |init| {
        assert ps[j] == qs[j] && qs[j] < n;
      }
    }
    forall j | 0 <= j < |ys| ensures Some(ys[j]) in xs {
      assert xs[ps[j]] == Some(ys[j]);
    }
    forall i | 0 <= i < |xs| && xs[i].Some? ensures xs[i].value in ys {
      var j :| 0 <= j < |ps| && ps[j] == i;
      assert xs[ps[j]] == Some(ys[j]);
    }
  }

  /** `dropna` leaves nothing behind exactly when every value is missing. */
  lemma PresentEmpty<T>(xs: seq<Option<T>>)
    ensures Present(xs) == [] <==> forall i :: 0 <= i < |xs| ==> xs[i].None?
  {
    if Present(xs) != [] {
      assert xs[PresentPositions(xs)[0]].Some?;
    }
  }
}

/**
 * `groupby(key).sum()` on the five size columns: group sums, sorted group
 * keys, and the fact that grouping neither loses nor invents any amount.
 */
module Groups {
  import opened Sizes

  /** Column sums of the rows of `xs` whose key lies in `keys`. */
  function SumKeysIn<T, K(==)>(xs: seq<T>, key: T -> K, size: T -> Sizes, keys: set<K>): Sizes {
    if |xs| == 0 then Zero
    else
      var last := xs[|xs| - 1];
      SumKeysIn(xs[..|xs| - 1], key, size, keys).Add(if key(last) in keys then size(last) else Zero)
  }

  /** The sizes of every row of `xs`. */
  function SizesOf<T>(xs: seq<T>, size: T -> Sizes): (ys: seq<Sizes>)
    ensures |ys| == |xs|
    ensures forall i :: 0 <= i < |xs| ==> ys[i] == size(xs[i])
  {
    seq(|xs|, i requires 0 <= i < |xs| => size(xs[i]))
  }

  lemma SizesOfSlice<T>(xs: seq<T>, size: T -> Sizes, a: nat, b: nat)
    requires a <= b <= |xs|
    ensures SizesOf(xs[a..b], size) == SizesOf(xs, size)[a..b]
  {
  }

  /** The sums of the groups `ks`, in that order. */
  function GroupSums<T, K(==)>(xs: seq<T>, key: T -> K, size: T -> Sizes, ks: seq<K>): (sums: seq<Sizes>)
    ensures |sums| == |ks|
    ensures forall i :: 0 <= i < |ks| ==> sums[i] == SumKeysIn(xs, key, size, {ks[i]})
  {
    seq(|ks|, i requires 0 <= i < |ks| => SumKeysIn(xs, key, size, {ks[i]}))
  }

  predicate Distinct<K(==)>(ks: seq<K>) {
    forall i, j :: 0 <= i < j < |ks| ==> ks[i] != ks[j]
  }

  /** A group no row belongs to sums to zero. */
  lemma {:induction false} SumKeysInNone<T, K>(xs: seq<T>, key: T -> K, size: T -> Sizes, keys: set<K>)
    requires forall i :: 0 <= i < |xs| ==> key(xs[i]) !in keys
    ensures SumKeysIn(xs, key, size, keys) == Zero
  {
    if |xs| > 0 {
      SumKeysInNone(xs[..|xs| - 1], key, size, keys);
    }
  }

  /** When every row's key is selected, the selected sum is the plain column sum. */
  lemma {:induction false} SumKeysInAll<T, K>(xs: seq<T>, key: T -> K, size: T -> Sizes, keys: set<K>)
    requires forall i :: 0 <= i < |xs| ==> key(xs[i]) in keys
    ensures SumKeysIn(xs, key, size, keys) == Sum(SizesOf(xs, size))
  {
    if |xs| > 0 {
      var init := xs[..|xs| - 1];
      SumKeysInAll(init, key, size, keys);
      assert SizesOf(xs, size)[..|xs| - 1] == SizesOf(init, size);
    }
  }

  /** Sums over two disjoint key sets add up to the sum over their union. */
  lemma {:induction false} SumKeysInUnion<T, K>(xs: seq<T>, key: T -> K, size: T -> Sizes, a: set<K>, b: set<K>)
    requires a !! b
    ensures SumKeysIn(xs, key, size, a + b) == SumKeysIn(xs, key, size, a).Add(SumKeysIn(xs, key, size, b))
  {
    if |xs| > 0 {
      var init := xs[..|xs| - 1];
      var x := xs[|xs| - 1];
      SumKeysInUnion(init, key, size, a, b);
      var ca := if key(x) in a then size(x) else Zero;
      var cb := if key(x) in b then size(x) else Zero;
      assert (if key(x) in a + b then size(x) else Zero) == ca.Add(cb);
      AddSwap(SumKeysIn(init, key, size, a), SumKeysIn(init, key, size, b), ca, cb);
    }
  }

  /** A selection that picks exactly the rows `a` through `b - 1` sums exactly those rows. */
  lemma {:induction false} SumKeysInBlock<T, K>(xs: seq<T>, key: T -> K, size: T -> Sizes, keys: set<K>, a: nat, b: nat)
    requires a <= b <= |xs|
    requires forall i :: 0 <= i < |xs| ==> (key(xs[i]) in keys <==> a <= i < b)
    ensures SumKeysIn(xs, key, size, keys) == Sum(SizesOf(xs[a..b], size))
    decreases |xs|
  {
    if a == b {
      SumKeysInNone(xs, key, size, keys);
      assert SizesOf(xs[a..b], size) == [];
    } else if |xs| > b {
      var init := xs[..|xs| - 1];
      SumKeysInBlock(init, key, size, keys, a, b);
      BlockAfter(xs, key, size, keys, a, b);
    } else {
      var init := xs[..|xs| - 1];
      SumKeysInBlock(init, key, size, keys, a, b - 1);
      BlockEnd(xs, key, size, keys, a, b);
    }
  }

  /** A row after the block adds nothing. */
  lemma BlockAfter<T, K>(xs: seq<T>, key: T -> K, size: T -> Sizes, keys: set<K>, a: nat, b: nat)
    requires a <= b < |xs| && key(xs[|xs| - 1]) !in keys
    requires SumKeysIn(xs[..|xs| - 1], key, size, keys) == Sum(SizesOf(xs[..|xs| - 1][a..b], size))
    ensures SumKeysIn(xs, key, size, keys) == Sum(SizesOf(xs[a..b], size))
  {
    assert xs[..|xs| - 1][a..b] == xs[a..b];
    AddZero(SumKeysIn(xs[..|xs| - 1], key, size, keys));
  }

  /** The last row of the block adds its own sizes. */
  lemma BlockEnd<T, K>(xs: seq<T>, key: T -> K, size: T -> Sizes, keys: set<K>, a: nat, b: nat)
    requires a < b == |xs| && key(xs[|xs| - 1]) in keys
    requires SumKeysIn(xs[..|xs| - 1], key, size, keys) == Sum(SizesOf(xs[..|xs| - 1][a..b - 1], size))
    ensures SumKeysIn(xs, key, size, keys) == Sum(SizesOf(xs[a..b], size))
  {
    var block := SizesOf(xs[a..b], size);
    assert xs[..|xs| - 1][a..b - 1] == xs[a..b - 1];
    assert block[..|block| - 1] == SizesOf(xs[a..b - 1], size);
    SumSnoc(block);
  }

  /** Two selections that pick the same rows have the same sum. */
  lemma {:induction false} SumKeysInSameRows<T, K, J>(xs: seq<T>, size: T -> Sizes, key: T -> K, keys: set<K>, key2: T -> J, keys2: set<J>)
    requires forall i :: 0 <= i < |xs| ==> (key(xs[i]) in keys <==> key2(xs[i]) in keys2)
    ensures SumKeysIn(xs, key, size, keys) == SumKeysIn(xs, key2, size, keys2)
  {
    if |xs| > 0 {
      SumKeysInSameRows(xs[..|xs| - 1], size, key, keys, key2, keys2);
    }
  }

  /** The keys listed in `ks`, as a set. */
  function SetOf<K(!new)>(ks: seq<K>): (s: set<K>)
    ensures forall k :: k in s <==> k in ks
  {
    if |ks| == 0 then {}
    else
      var init := ks[..|ks| - 1];
      assert forall k :: k in ks <==> k in init || k == ks[|ks| - 1];
      SetOf(init) + {ks[|ks| - 1]}
  }

  /**
   * Grouping conserves the totals: the group sums of distinct keys add up
   * to the sum of every row whose key is one of them.
   */
  lemma {:induction false} GroupSumsTotal<T, K(!new)>(xs: seq<T>, key: T -> K, size: T -> Sizes, ks: seq<K>)
    requires Distinct(ks)
    ensures Sum(GroupSums(xs, key, size, ks)) == SumKeysIn(xs, key, size, SetOf(ks))
  {
    if |ks| == 0 {
      SumKeysInNone(xs, key, size, {});
    } else {
      var init := ks[..|ks| - 1];
      var k := ks[|ks| - 1];
      var g := GroupSums(xs, key, size, ks);
      assert g[..|ks| - 1] == GroupSums(xs, key, size, init);
      assert Sum(g) == Sum(GroupSums(xs, key, size, init)).Add(SumKeysIn(xs, key, size, {k}));
      GroupSumsTotal(xs, key, size, init);
      assert k !in SetOf(init);
      SumKeysInUnion(xs, key, size, SetOf(init), {k});
    }
  }

  /** The triangle inequality for any selection of rows. */
  lemma {:induction false} SumKeysInAbs<T, K>(xs: seq<T>, key: T -> K, size: T -> Sizes, absSize: T -> Sizes, keys: set<K>)
    requires forall i :: 0 <= i < |xs| ==> absSize(xs[i]) == size(xs[i]).Abs()
    ensures SumKeysIn(xs, key, size, keys).Abs().AtMost(SumKeysIn(xs, key, absSize, keys))
    ensures SumKeysIn(xs, key, absSize, keys).NonNegative()
  {
    if |xs| > 0 {
      SumKeysInAbs(xs[..|xs| - 1], key, size, absSize, keys);
    }
  }

  predicate Increasing(ks: seq<int>) {
    forall i, j :: 0 <= i < j < |ks| ==> ks[i] < ks[j]
  }

  /** Adds `x` to an ascending sequence of distinct keys. */
  function Insert(ks: seq<int>, x: int): (r: seq<int>)
    requires Increasing(ks)
    ensures Increasing(r)
    ensures forall y :: y in r <==> y in ks || y == x
  {
    if |ks| == 0 then [x]
    else if x < ks[0] then
      ConsIncreasing(x, ks);
      [x] + ks
    else if x == ks[0] then ks
    else
      var rest := Insert(ks[1..], x);
      assert forall y :: y in rest ==> ks[0] < y;
      ConsIncreasing(ks[0], rest);
      assert forall y :: y in [ks[0]] + rest <==> y == ks[0] || y in rest;
      [ks[0]] + rest
  }

  lemma ConsIncreasing(a: int, rest: seq<int>)
    requires Increasing(rest) && forall y :: y in rest ==> a < y
    ensures Increasing([a] + rest)
  {
    var r := [a] + rest;
    forall i, j | 0 <= i < j < |r| ensures r[i] < r[j] {
      assert r[j] == rest[j - 1] && rest[j - 1] in rest;
      if i > 0 {
        assert r[i] == rest[i - 1];
      }
    }
  }

  /** The keys of a sorted `groupby`: every value of `xs` once, ascending. */
  function SortedKeys(xs: seq<int>): (ks: seq<int>)
    ensures Increasing(ks)
    ensures forall y :: y in ks <==> y in xs
  {
    if |xs| == 0 then []
    else
      var ks := Insert(SortedKeys(xs[..|xs| - 1]), xs[|xs| - 1]);
      assert forall y :: y in xs <==> y in xs[..|xs| - 1] || y == xs[|xs| - 1];
      ks
  }

  lemma IncreasingDistinct(ks: seq<int>)
    requires Increasing(ks)
    ensures Distinct(ks)
  {
  }
}

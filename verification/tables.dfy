/** Group-by over table columns, as pandas computes groupby(keys)[col].sum()
    and groupby(keys).size(): the group index lists each key once, and every
    aggregated column is aligned with that index. The index here is in order
    of first occurrence. */
module Tables {
  function Sum(s: seq<nat>): nat
  {
    if s == [] then 0 else Sum(s[..|s| - 1]) + s[|s| - 1]
  }

  /** A column of ones, the values that groupby().size() counts. */
  function Ones(n: nat): (r: seq<nat>)
    ensures |r| == n && forall i :: 0 <= i < n ==> r[i] == 1
  {
    seq(n, i => 1)
  }

  /** The keys of a column, each once, in order of first occurrence. */
  function Distinct<K(==)>(keys: seq<K>): seq<K>
  {
    if keys == [] then []
    else
      var d := Distinct(keys[..|keys| - 1]);
      if keys[|keys| - 1] in d then d else d + [keys[|keys| - 1]]
  }

  predicate NoDuplicates<K(==)>(s: seq<K>)
  {
    forall a, b :: 0 <= a < b < |s| ==> s[a] != s[b]
  }

  /** The sum of values over the rows whose key is k. */
  function SumFor<K(==)>(keys: seq<K>, values: seq<nat>, k: K): nat
    requires |keys| == |values|
  {
    if keys == [] then 0
    else SumFor(keys[..|keys| - 1], values[..|values| - 1], k) + (if keys[|keys| - 1] == k then values[|values| - 1] else 0)
  }

  /** The sum of values over the rows whose key satisfies p. */
  function SumWhere<K>(keys: seq<K>, values: seq<nat>, p: K -> bool): nat
    requires |keys| == |values|
  {
    if keys == [] then 0
    else SumWhere(keys[..|keys| - 1], values[..|values| - 1], p) + (if p(keys[|keys| - 1]) then values[|values| - 1] else 0)
  }

  /** The sum of the group sums over the groups whose key satisfies p. */
  function GroupedSumWhere<K(==)>(groups: seq<K>, keys: seq<K>, values: seq<nat>, p: K -> bool): nat
    requires |keys| == |values|
  {
    if groups == [] then 0
    else GroupedSumWhere(groups[..|groups| - 1], keys, values, p) +
         (if p(groups[|groups| - 1]) then SumFor(keys, values, groups[|groups| - 1]) else 0)
  }

  /** The group index holds every key of the column, and only those, once. */
  lemma {:induction false} DistinctKeys<K>(keys: seq<K>)
    ensures NoDuplicates(Distinct(keys))
    ensures forall k :: k in Distinct(keys) <==> k in keys
  {
    if keys != [] {
      var init := keys[..|keys| - 1];
      DistinctKeys(init);
      assert keys == init + [keys[|keys| - 1]];
    }
  }

  /** Group a of the index is the key of some row. */
  lemma {:induction false} DistinctFrom<K>(keys: seq<K>, a: nat) returns (i: nat)
    requires a < |Distinct(keys)|
    ensures i < |keys| && keys[i] == Distinct(keys)[a]
  {
    var n := |keys|;
    var d := Distinct(keys[..n - 1]);
    if a < |d| {
      i := DistinctFrom(keys[..n - 1], a);
    } else {
      i := n - 1;
    }
  }

  /** A key that no row has sums to nothing. */
  lemma {:induction false} SumForAbsent<K>(keys: seq<K>, values: seq<nat>, k: K)
    requires |keys| == |values| && k !in keys
    ensures SumFor(keys, values, k) == 0
  {
    if keys != [] {
      assert keys[..|keys| - 1] <= keys;
      SumForAbsent(keys[..|keys| - 1], values[..|values| - 1], k);
    }
  }

  /** A key that some row has gets at least that row's value. */
  lemma {:induction false} SumForAtLeast<K>(keys: seq<K>, values: seq<nat>, i: nat)
    requires |keys| == |values| && i < |keys|
    ensures SumFor(keys, values, keys[i]) >= values[i]
  {
    var n := |keys|;
    if i < n - 1 {
      assert keys[..n - 1][i] == keys[i] && values[..n - 1][i] == values[i];
      SumForAtLeast(keys[..n - 1], values[..n - 1], i);
    }
  }

  /** Group sums are monotone in the summed column. */
  lemma {:induction false} SumForMonotone<K>(keys: seq<K>, small: seq<nat>, large: seq<nat>, k: K)
    requires |keys| == |small| == |large|
    requires forall i :: 0 <= i < |keys| ==> small[i] <= large[i]
    ensures SumFor(keys, small, k) <= SumFor(keys, large, k)
  {
    if keys != [] {
      var n := |keys|;
      SumForMonotone(keys[..n - 1], small[..n - 1], large[..n - 1], k);
    }
  }

  /** Summing a group over two stretches of rows is summing it over each
      stretch: the group's sum does not depend on where the rows are cut. */
  lemma {:induction false} SumForSplit<K>(k1: seq<K>, v1: seq<nat>, k2: seq<K>, v2: seq<nat>, k: K)
    requires |k1| == |v1| && |k2| == |v2|
    ensures SumFor(k1 + k2, v1 + v2, k) == SumFor(k1, v1, k) + SumFor(k2, v2, k)
    decreases |k2|
  {
    if k2 == [] {
      assert k1 + k2 == k1 && v1 + v2 == v1;
    } else {
      var n := |k2|;
      var keys, values := k1 + k2, v1 + v2;
      assert keys[..|keys| - 1] == k1 + k2[..n - 1];
      assert values[..|values| - 1] == v1 + v2[..n - 1];
      SumForSplit(k1, v1, k2[..n - 1], v2[..n - 1], k);
    }
  }

  /** Appending a row adds its value to the groups that satisfy p and have
      its key, which is at most one group of a duplicate-free index. */
  lemma {:induction false} GroupedSumAppend<K>(groups: seq<K>, keys: seq<K>, values: seq<nat>, x: K, v: nat, p: K -> bool)
    requires |keys| == |values| && NoDuplicates(groups)
    ensures GroupedSumWhere(groups, keys + [x], values + [v], p) ==
            GroupedSumWhere(groups, keys, values, p) + (if x in groups && p(x) then v else 0)
  {
    if groups != [] {
      var init := groups[..|groups| - 1];
      var g := groups[|groups| - 1];
      assert (keys + [x])[..|keys|] == keys && (values + [v])[..|values|] == values;
      assert groups == init + [g];
      GroupedSumAppend(init, keys, values, x, v, p);
    }
  }

  /** Summing the group sums over the group index gives the column sum:
      every row lands in exactly one group. */
  lemma {:induction false} GroupedSumsAddUp<K>(keys: seq<K>, values: seq<nat>, p: K -> bool)
    requires |keys| == |values|
    ensures GroupedSumWhere(Distinct(keys), keys, values, p) == SumWhere(keys, values, p)
  {
    if keys != [] {
      var n := |keys|;
      var init, vinit, x, v := keys[..n - 1], values[..n - 1], keys[n - 1], values[n - 1];
      assert keys == init + [x] && values == vinit + [v];
      var d := Distinct(init);
      GroupedSumsAddUp(init, vinit, p);
      DistinctKeys(init);
      GroupedSumAppend(d, init, vinit, x, v, p);
      if x !in d {
        assert (d + [x])[..|d|] == d;
        SumForAbsent(init, vinit, x);
      }
    }
  }

  /** Adding v to one entry of a sequence adds v to its sum. */
  lemma {:induction false} SumBump(s: seq<nat>, g: nat, v: nat)
    requires g < |s|
    ensures Sum(s[g := s[g] + v]) == Sum(s) + v
  {
    var n := |s|;
    if g < n - 1 {
      assert s[g := s[g] + v][..n - 1] == s[..n - 1][g := s[g] + v];
      SumBump(s[..n - 1], g, v);
    } else {
      assert s[g := s[g] + v][..n - 1] == s[..n - 1];
    }
  }

  lemma {:induction false} SumOfOnes(n: nat)
    ensures Sum(Ones(n)) == n
  {
    if n > 0 {
      assert Ones(n)[..n - 1] == Ones(n - 1);
      SumOfOnes(n - 1);
    }
  }

  /** A group of the index holds at least one row. */
  lemma GroupIsNonEmpty<K>(keys: seq<K>, a: nat)
    requires a < |Distinct(keys)|
    ensures SumFor(keys, Ones(|keys|), Distinct(keys)[a]) >= 1
  {
    var i := DistinctFrom(keys, a);
    SumForAtLeast(keys, Ones(|keys|), i);
  }

  /** Appending a key adds one to its own count and nothing to the others. */
  lemma CountAppend<K>(keys: seq<K>, x: K, k: K)
    ensures SumFor(keys + [x], Ones(|keys| + 1), k) == SumFor(keys, Ones(|keys|), k) + (if x == k then 1 else 0)
  {
    assert (keys + [x])[..|keys|] == keys;
    assert Ones(|keys| + 1)[..|keys|] == Ones(|keys|);
  }

  /** A row of groupby(keys).size().reset_index(): a group key and the
      number of rows that have it. */
  datatype CountRow<K> = CountRow(key: K, count: nat)

  function CountTotal<K>(rows: seq<CountRow<K>>): nat
  {
    if rows == [] then 0 else CountTotal(rows[..|rows| - 1]) + rows[|rows| - 1].count
  }

  /** rows is the size table of keys: row a holds group a of the index and
      the number of rows with that key. */
  ghost predicate IsCountTable<K>(keys: seq<K>, rows: seq<CountRow<K>>)
  {
    |rows| == |Distinct(keys)| &&
    forall a :: 0 <= a < |rows| ==>
      rows[a].key == Distinct(keys)[a] && rows[a].count == SumFor(keys, Ones(|keys|), rows[a].key)
  }

  /** groupby(keys)[values].sum(): one sum per key of the group index
      Distinct(keys), in the index's order. */
  method GroupSum<K(==)>(keys: seq<K>, values: seq<nat>) returns (sums: seq<nat>)
    requires |keys| == |values|
    ensures |sums| == |Distinct(keys)|
    ensures forall a :: 0 <= a < |sums| ==> sums[a] == SumFor(keys, values, Distinct(keys)[a])
    ensures Sum(sums) == Sum(values)
  {
    var index: seq<K> := [];
    sums := [];
    var i := 0;
    while i < |keys|
      invariant 0 <= i <= |keys|
      invariant index == Distinct(keys[..i])
      invariant |sums| == |index|
      invariant forall a :: 0 <= a < |sums| ==> sums[a] == SumFor(keys[..i], values[..i], index[a])
      invariant Sum(sums) == Sum(values[..i])
    {
      var x, v := keys[i], values[i];
      assert keys[..i + 1] == keys[..i] + [x] && values[..i + 1] == values[..i] + [v];
      assert keys[..i + 1][..i] == keys[..i] && values[..i + 1][..i] == values[..i];
      DistinctKeys(keys[..i]);
      var g := 0;
      while g < |index| && index[g] != x
        invariant 0 <= g <= |index|
        invariant forall a :: 0 <= a < g ==> index[a] != x
      {
        g := g + 1;
      }
      if g < |index| {
        SumBump(sums, g, v);
        sums := sums[g := sums[g] + v];
      } else {
        SumForAbsent(keys[..i], values[..i], x);
        var before := sums;
        index := index + [x];
        sums := sums + [v];
        assert sums[..|sums| - 1] == before;
      }
      i := i + 1;
    }
    assert keys[..i] == keys && values[..i] == values;
  }

  /** groupby(keys).size().reset_index(): one row per key of the group
      index; no group is empty and the counts add up to the row count. */
  method CountBy<K(==)>(keys: seq<K>) returns (rows: seq<CountRow<K>>)
    ensures IsCountTable(keys, rows)
    ensures forall a :: 0 <= a < |rows| ==> rows[a].count >= 1
    ensures CountTotal(rows) == |keys|
  {
    var index := Distinct(keys);
    var sizes := GroupSum(keys, Ones(|keys|));
    rows := [];
    var a := 0;
    while a < |index|
      invariant 0 <= a <= |index|
      invariant |rows| == a
      invariant forall b :: 0 <= b < a ==> rows[b] == CountRow(index[b], sizes[b])
      invariant CountTotal(rows) == Sum(sizes[..a])
    {
      var before := rows;
      rows := rows + [CountRow(index[a], sizes[a])];
      assert rows[..a] == before;
      assert sizes[..a + 1][..a] == sizes[..a];
      a := a + 1;
    }
    assert sizes[..a] == sizes;
    SumOfOnes(|keys|);
    forall b | 0 <= b < |rows|
      ensures rows[b].count >= 1
    {
      GroupIsNonEmpty(keys, b);
    }
  }
}

/** Category counts as pandas computes them with `value_counts()`: one table row per
    category that occurs, missing cells dropped; and the categorical variant, which
    lists every declared category in category order, zero counts included. */
module Tallies {
  import opened Wrappers
  import opened Rows

  /** One row of `value_counts().reset_index()`: a category and how many rows hold it. */
  datatype CountRow<K> = CountRow(key: K, count: nat)

  /** The count the table records for `k`; 0 when `k` is not listed. */
  function CountOf<K(==)>(t: seq<CountRow<K>>, k: K): (r: nat)
  {
    if t == [] then 0 else if t[0].key == k then t[0].count else CountOf(t[1..], k)
  }

  /** Sum of the `Count` column. */
  function Total<K>(t: seq<CountRow<K>>): (r: nat)
  {
    if t == [] then 0 else t[0].count + Total(t[1..])
  }

  ghost predicate Lists<K>(t: seq<CountRow<K>>, k: K)
  {
    exists i :: 0 <= i < |t| && t[i].key == k
  }

  ghost predicate DistinctKeys<K>(t: seq<CountRow<K>>)
  {
    forall i, j :: 0 <= i < j < |t| ==> t[i].key != t[j].key
  }

  ghost predicate Positive<K>(t: seq<CountRow<K>>)
  {
    forall i :: 0 <= i < |t| ==> t[i].count > 0
  }

  ghost predicate Distinct<K>(s: seq<K>)
  {
    forall i, j :: 0 <= i < j < |s| ==> s[i] != s[j]
  }

  lemma ListsCons<K>(h: CountRow<K>, t: seq<CountRow<K>>, k: K)
    ensures Lists([h] + t, k) <==> h.key == k || Lists(t, k)
  {
    var r := [h] + t;
    if Lists(r, k) && h.key != k {
      var i :| 0 <= i < |r| && r[i].key == k;
      assert t[i - 1].key == k;
    }
    if h.key == k {
      assert r[0].key == k;
    }
    if Lists(t, k) {
      var i :| 0 <= i < |t| && t[i].key == k;
      assert r[i + 1].key == k;
    }
  }

  lemma DistinctCons<K>(h: CountRow<K>, t: seq<CountRow<K>>)
    requires DistinctKeys(t) && !Lists(t, h.key)
    ensures DistinctKeys([h] + t)
  {
    var r := [h] + t;
    forall i, j | 0 <= i < j < |r| ensures r[i].key != r[j].key {
      if i == 0 {
        assert r[j].key == t[j - 1].key;
      } else {
        assert r[i].key == t[i - 1].key && r[j].key == t[j - 1].key;
      }
    }
  }

  /** Records one more occurrence of `x`: bumps its row, or appends a new row for it. */
  function Tally<K(==,!new)>(t: seq<CountRow<K>>, x: K): (r: seq<CountRow<K>>)
    requires DistinctKeys(t)
    ensures DistinctKeys(r)
    ensures Positive(t) ==> Positive(r)
    ensures forall k :: Lists(r, k) <==> Lists(t, k) || k == x
    ensures forall k :: CountOf(r, k) == CountOf(t, k) + (if k == x then 1 else 0)
    ensures Total(r) == Total(t) + 1
  {
    if t == [] then
      var r := [CountRow(x, 1)];
      assert forall k :: Lists(r, k) <==> k == x by {
        forall k ensures Lists(r, k) <==> k == x { ListsCons(CountRow(x, 1), [], k); }
      }
      r
    else
      assert t == [t[0]] + t[1..];
      assert !Lists(t[1..], t[0].key) by { ListsCons(t[0], t[1..], t[0].key); }
      assert forall k :: Lists(t, k) <==> k == t[0].key || Lists(t[1..], k) by {
        forall k ensures Lists(t, k) <==> k == t[0].key || Lists(t[1..], k) { ListsCons(t[0], t[1..], k); }
      }
      if t[0].key == x then
        var h := CountRow(x, t[0].count + 1);
        var r := [h] + t[1..];
        assert forall k :: Lists(r, k) <==> k == x || Lists(t[1..], k) by {
          forall k ensures Lists(r, k) <==> k == x || Lists(t[1..], k) { ListsCons(h, t[1..], k); }
        }
        DistinctCons(h, t[1..]);
        r
      else
        var rest := Tally(t[1..], x);
        var r := [t[0]] + rest;
        assert forall k :: Lists(r, k) <==> k == t[0].key || Lists(rest, k) by {
          forall k ensures Lists(r, k) <==> k == t[0].key || Lists(rest, k) { ListsCons(t[0], rest, k); }
        }
        DistinctCons(t[0], rest);
        r
  }

  /** `Series.value_counts()` (missing cells are not part of `col`): the categories of
      `col` in order of first appearance, each with its number of occurrences. */
  function ValueCounts<K(==,!new)>(col: seq<K>): (r: seq<CountRow<K>>)
    ensures DistinctKeys(r) && Positive(r)
    ensures forall k :: Lists(r, k) <==> k in col
    ensures forall k :: CountOf(r, k) == multiset(col)[k]
    ensures Total(r) == |col|
    decreases |col|
  {
    if col == [] then []
    else
      var init := col[..|col| - 1];
      assert col == init + [col[|col| - 1]];
      Tally(ValueCounts(init), col[|col| - 1])
  }

  /** In a table with distinct keys, the count looked up for a listed key is its row's count. */
  lemma {:induction false} CountOfListed<K>(t: seq<CountRow<K>>, i: nat)
    requires DistinctKeys(t) && i < |t|
    ensures CountOf(t, t[i].key) == t[i].count
  {
    if i > 0 {
      CountOfListed(t[1..], i - 1);
    }
  }

  /** Each row of `value_counts()` holds the number of occurrences of its category. */
  lemma ValueCountsRows<K(!new)>(col: seq<K>)
    ensures forall i :: 0 <= i < |ValueCounts(col)| ==>
      ValueCounts(col)[i].count == multiset(col)[ValueCounts(col)[i].key]
  {
    var r := ValueCounts(col);
    forall i | 0 <= i < |r| ensures r[i].count == multiset(col)[r[i].key] {
      CountOfListed(r, i);
    }
  }

  /** A count table reindexed to a fixed list of categories, absent ones filled with 0. */
  function Reindex<K(==)>(t: seq<CountRow<Option<K>>>, categories: seq<K>): (r: seq<CountRow<K>>)
    ensures |r| == |categories|
    ensures forall i :: 0 <= i < |r| ==>
      r[i].key == categories[i] && r[i].count == CountOf(t, Some(categories[i]))
  {
    if categories == [] then []
    else [CountRow(categories[0], CountOf(t, Some(categories[0])))] + Reindex(t, categories[1..])
  }

  /** `value_counts().sort_index()` of a categorical column whose cells are `codes`
      (`None` is a missing cell): every category, in category order, with its count. */
  function CategoricalCounts<K(==,!new)>(codes: seq<Option<K>>, categories: seq<K>): (r: seq<CountRow<K>>)
    ensures |r| == |categories|
    ensures forall i :: 0 <= i < |r| ==>
      r[i].key == categories[i] && r[i].count == multiset(codes)[Some(categories[i])]
  {
    Reindex(ValueCounts(codes), categories)
  }

  predicate InCategories<K(==)>(categories: seq<K>, g: Option<K>)
  {
    g.Some? && g.value in categories
  }

  /** Occurrences in `m` of the categories, summed. */
  ghost function MassOn<K>(m: multiset<Option<K>>, categories: seq<K>): (r: nat)
  {
    if categories == [] then 0 else m[Some(categories[0])] + MassOn(m, categories[1..])
  }

  lemma {:induction false} TotalReindex<K>(t: seq<CountRow<Option<K>>>, m: multiset<Option<K>>, categories: seq<K>)
    requires forall k :: CountOf(t, k) == m[k]
    ensures Total(Reindex(t, categories)) == MassOn(m, categories)
  {
    if categories != [] {
      TotalReindex(t, m, categories[1..]);
    }
  }

  lemma {:induction false} MassOnAdd<K>(m: multiset<Option<K>>, x: Option<K>, categories: seq<K>)
    requires Distinct(categories)
    ensures MassOn(m + multiset{x}, categories) == MassOn(m, categories) + (if InCategories(categories, x) then 1 else 0)
  {
    if categories != [] {
      MassOnAdd(m, x, categories[1..]);
      assert forall j :: 0 <= j < |categories[1..]| ==> categories[1..][j] == categories[j + 1];
      assert categories[0] !in categories[1..];
    }
  }

  lemma {:induction false} MassOnEmpty<K>(categories: seq<K>)
    ensures MassOn(multiset{}, categories) == 0
  {
    if categories != [] {
      MassOnEmpty(categories[1..]);
    }
  }

  lemma {:induction false} MassOnKeep<K>(codes: seq<Option<K>>, categories: seq<K>, inCats: Option<K> -> bool)
    requires Distinct(categories)
    requires forall i :: 0 <= i < |codes| ==> inCats(codes[i]) == InCategories(categories, codes[i])
    ensures MassOn(multiset(codes), categories) == |Keep(codes, inCats)|
    decreases |codes|
  {
    if codes == [] {
      MassOnEmpty(categories);
    } else {
      var init, x := codes[..|codes| - 1], codes[|codes| - 1];
      assert codes == init + [x];
      MassOnKeep(init, categories, inCats);
      MassOnAdd(multiset(init), x, categories);
      KeepSnoc(init, x, inCats);
      assert multiset(codes) == multiset(init) + multiset{x};
    }
  }

  /** The counts of a categorical column sum to the number of its cells that hold
      one of the categories (missing cells are not counted). */
  lemma CategoricalTotal<K(!new)>(codes: seq<Option<K>>, categories: seq<K>, inCats: Option<K> -> bool)
    requires Distinct(categories)
    requires forall i :: 0 <= i < |codes| ==> inCats(codes[i]) == InCategories(categories, codes[i])
    ensures Total(CategoricalCounts(codes, categories)) == |Keep(codes, inCats)|
  {
    TotalReindex(ValueCounts(codes), multiset(codes), categories);
    MassOnKeep(codes, categories, inCats);
  }

  /** The cells of a column that hold a value, in row order: `value_counts()` drops the
      missing ones before counting. */
  function Present<K(!new)>(col: seq<Option<K>>): (r: seq<K>)
    ensures forall k :: multiset(r)[k] == multiset(col)[Some(k)]
    ensures |r| == |col| - multiset(col)[None]
  {
    if col == [] then []
    else
      assert col == [col[0]] + col[1..];
      (if col[0].Some? then [col[0].value] else []) + Present(col[1..])
  }
}

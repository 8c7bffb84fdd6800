/**
 * The grouping engine behind every `groupby(...).agg(...)` table of the
 * pipeline and behind the Map rollups of the chart script.
 *
 * A table is a sequence of rows with pairwise distinct keys, in the order the
 * keys were first seen. `Fold` builds it one item at a time, the way a
 * dictionary of accumulators is filled: the row of an item's key is updated in
 * place, or a new row is appended. Each row carries the summed measures of its
 * items (`sum`, and `count` through the commits measure), the name of its first
 * item (`first`) and the union of its items' branches (`nunique` is the size of
 * that set). Sums are exact: the measures are unbounded naturals.
 */
module Aggregation {

  /** The summed columns: commits, files changed, inserted, deleted and total lines. */
  datatype Measures = Measures(commits: nat, files: nat, insertions: nat, deletions: nat, totalLines: nat)

  const Zero: Measures := Measures(0, 0, 0, 0, 0)

  function Plus(a: Measures, b: Measures): Measures {
    Measures(a.commits + b.commits, a.files + b.files, a.insertions + b.insertions,
             a.deletions + b.deletions, a.totalLines + b.totalLines)
  }

  /** One contribution to a group. */
  datatype Item<K> = Item(key: K, name: string, measures: Measures, branches: set<string>)

  /** One row of a grouped table. */
  datatype Row<K> = Row(key: K, name: string, total: Measures, branches: set<string>)

  function Last<T>(xs: seq<T>): T
    requires xs != []
  {
    xs[|xs| - 1]
  }

  function NewRow<K>(x: Item<K>): Row<K> {
    Row(x.key, x.name, x.measures, x.branches)
  }

  /** Adds an item to an existing row; the row keeps its first name. */
  function Merge<K>(r: Row<K>, x: Item<K>): Row<K> {
    r.(total := Plus(r.total, x.measures), branches := r.branches + x.branches)
  }

  function RowKeys<K>(t: seq<Row<K>>): set<K> {
    set i | 0 <= i < |t| :: t[i].key
  }

  predicate DistinctKeys<K(==)>(t: seq<Row<K>>) {
    forall i, j :: 0 <= i < j < |t| ==> t[i].key != t[j].key
  }

  /** One step of the fold: update the row of x's key, or append a row for it. */
  function Accumulate<K(==)>(t: seq<Row<K>>, x: Item<K>): seq<Row<K>>
    decreases |t|
  {
    if t == [] then [NewRow(x)]
    else if t[0].key == x.key then [Merge(t[0], x)] + t[1..]
    else [t[0]] + Accumulate(t[1..], x)
  }

  /** The grouped table of a sequence of items. */
  function Fold<K(==)>(xs: seq<Item<K>>): seq<Row<K>> {
    if xs == [] then [] else Accumulate(Fold(xs[..|xs| - 1]), Last(xs))
  }

  // ---------------------------------------------------------------------
  // The reference definition: what the row of a key holds, stated on the items.
  // ---------------------------------------------------------------------

  function Own<K(==)>(x: Item<K>, k: K): Measures {
    if x.key == k then x.measures else Zero
  }

  /** The summed measures of the items with key k. */
  function SumKey<K(==)>(xs: seq<Item<K>>, k: K): Measures {
    if xs == [] then Zero else Plus(SumKey(xs[..|xs| - 1], k), Own(Last(xs), k))
  }

  /** The branches of the items with key k. */
  function BranchesKey<K(==)>(xs: seq<Item<K>>, k: K): set<string> {
    if xs == [] then {}
    else BranchesKey(xs[..|xs| - 1], k) + (if Last(xs).key == k then Last(xs).branches else {})
  }

  /** The keys of the items. */
  function ItemKeys<K>(xs: seq<Item<K>>): set<K> {
    if xs == [] then {} else ItemKeys(xs[..|xs| - 1]) + {Last(xs).key}
  }

  /** The name of the first item with key k. */
  function FirstName<K(==)>(xs: seq<Item<K>>, k: K): string {
    if xs == [] then ""
    else if k in ItemKeys(xs[..|xs| - 1]) then FirstName(xs[..|xs| - 1], k)
    else if Last(xs).key == k then Last(xs).name
    else ""
  }

  /** The summed measures of all items. */
  function SumAll<K>(xs: seq<Item<K>>): Measures {
    if xs == [] then Zero else Plus(SumAll(xs[..|xs| - 1]), Last(xs).measures)
  }

  /** The summed measures of all rows of a table. */
  function SumRows<K>(t: seq<Row<K>>): Measures {
    if t == [] then Zero else Plus(t[0].total, SumRows(t[1..]))
  }

  lemma PlusZero(m: Measures)
    ensures Plus(m, Zero) == m && Plus(Zero, m) == m
  {
  }

  lemma PlusAssoc(a: Measures, b: Measures, c: Measures)
    ensures Plus(Plus(a, b), c) == Plus(a, Plus(b, c))
  {
  }

  lemma {:induction false} ItemKeysMember<K>(xs: seq<Item<K>>, k: K)
    ensures k in ItemKeys(xs) <==> exists i :: 0 <= i < |xs| && xs[i].key == k
  {
    if xs != [] {
      var p := xs[..|xs| - 1];
      ItemKeysMember(p, k);
      if exists i :: 0 <= i < |xs| && xs[i].key == k {
        var i :| 0 <= i < |xs| && xs[i].key == k;
        if i < |p| {
          assert p[i].key == k;
        }
      }
      if exists i :: 0 <= i < |p| && p[i].key == k {
        var i :| 0 <= i < |p| && p[i].key == k;
        assert xs[i].key == k;
      }
    }
  }

  /** A key no item carries has no measures. */
  lemma {:induction false} AbsentKeySum<K>(xs: seq<Item<K>>, k: K)
    requires k !in ItemKeys(xs)
    ensures SumKey(xs, k) == Zero
  {
    if xs != [] {
      AbsentKeySum(xs[..|xs| - 1], k);
      assert Last(xs).key != k;
      PlusZero(Zero);
    }
  }

  /** A key no item carries has no branches. */
  lemma {:induction false} AbsentKeyBranches<K>(xs: seq<Item<K>>, k: K)
    requires k !in ItemKeys(xs)
    ensures BranchesKey(xs, k) == {}
  {
    if xs != [] {
      AbsentKeyBranches(xs[..|xs| - 1], k);
    }
  }

  /** The index of the first row with key k, or |t| when there is none. */
  function Find<K(==)>(t: seq<Row<K>>, k: K): (i: nat)
    ensures i <= |t|
    ensures i < |t| ==> t[i].key == k
    ensures forall j :: 0 <= j < i ==> t[j].key != k
    ensures i == |t| <==> k !in RowKeys(t)
    decreases |t|
  {
    if t == [] then 0
    else if t[0].key == k then 0
    else
      assert k in RowKeys(t) ==> k in RowKeys(t[1..]) by {
        if k in RowKeys(t) {
          var j :| 0 <= j < |t| && t[j].key == k;
          assert t[1..][j - 1].key == k;
        }
      }
      var i := Find(t[1..], k);
      assert forall j :: 1 <= j <= i ==> t[j] == t[1..][j - 1];
      1 + i
  }

  /** Accumulate is a dictionary update: merge into the row of x's key, or append a new row. */
  lemma {:induction false} AccumulateUpdates<K>(t: seq<Row<K>>, x: Item<K>)
    ensures Find(t, x.key) < |t| ==>
      Accumulate(t, x) == t[Find(t, x.key) := Merge(t[Find(t, x.key)], x)]
    ensures Find(t, x.key) == |t| ==> Accumulate(t, x) == t + [NewRow(x)]
    decreases |t|
  {
    if t != [] && t[0].key != x.key {
      AccumulateUpdates(t[1..], x);
      assert t == [t[0]] + t[1..];
    }
  }

  lemma RowKeysUpdate<K>(t: seq<Row<K>>, i: nat, r: Row<K>)
    requires i < |t| && r.key == t[i].key
    ensures RowKeys(t[i := r]) == RowKeys(t)
    ensures DistinctKeys(t) ==> DistinctKeys(t[i := r])
  {
    var u := t[i := r];
    forall k | k in RowKeys(t) ensures k in RowKeys(u) {
      var j :| 0 <= j < |t| && t[j].key == k;
      assert u[j].key == k;
    }
  }

  lemma RowKeysAppend<K>(t: seq<Row<K>>, r: Row<K>)
    ensures RowKeys(t + [r]) == RowKeys(t) + {r.key}
    ensures DistinctKeys(t) && r.key !in RowKeys(t) ==> DistinctKeys(t + [r])
  {
    var u := t + [r];
    assert u[|t|].key == r.key;
    forall k | k in RowKeys(t) ensures k in RowKeys(u) {
      var j :| 0 <= j < |t| && t[j].key == k;
      assert u[j].key == k;
    }
    forall k | k in RowKeys(u) ensures k in RowKeys(t) + {r.key} {
      var j :| 0 <= j < |u| && u[j].key == k;
      if j < |t| {
        assert t[j].key == k;
      }
    }
    if DistinctKeys(t) && r.key !in RowKeys(t) {
      forall i, j | 0 <= i < j < |u| ensures u[i].key != u[j].key {
        if j == |t| {
          assert t[i].key in RowKeys(t);
        }
      }
    }
  }

  /** Accumulate keeps keys distinct and adds x's key. */
  lemma AccumulateKeys<K>(t: seq<Row<K>>, x: Item<K>)
    requires DistinctKeys(t)
    ensures DistinctKeys(Accumulate(t, x))
    ensures RowKeys(Accumulate(t, x)) == RowKeys(t) + {x.key}
  {
    AccumulateUpdates(t, x);
    var i := Find(t, x.key);
    if i < |t| {
      RowKeysUpdate(t, i, Merge(t[i], x));
      assert t[i].key in RowKeys(t);
    } else {
      RowKeysAppend(t, NewRow(x));
    }
  }

  lemma ItemKeysLast<K>(xs: seq<Item<K>>)
    requires xs != []
    ensures ItemKeys(xs) == ItemKeys(xs[..|xs| - 1]) + {Last(xs).key}
  {
  }

  /** The grouped table has distinct keys, one per key of the items. */
  lemma {:induction false} FoldKeys<K>(xs: seq<Item<K>>)
    ensures DistinctKeys(Fold(xs))
    ensures RowKeys(Fold(xs)) == ItemKeys(xs)
  {
    if xs != [] {
      FoldKeys(xs[..|xs| - 1]);
      AccumulateKeys(Fold(xs[..|xs| - 1]), Last(xs));
      ItemKeysLast(xs);
    }
  }

  /** In a table with distinct keys, Find locates the one row of a key. */
  lemma FindDistinct<K>(t: seq<Row<K>>, i: nat)
    requires DistinctKeys(t) && i < |t|
    ensures Find(t, t[i].key) == i
  {
    assert t[i].key in RowKeys(t);
  }

  /** The row of a key holds the summed measures of that key's items. */
  lemma {:induction false} FoldTotals<K>(xs: seq<Item<K>>)
    ensures forall i :: 0 <= i < |Fold(xs)| ==> Fold(xs)[i].total == SumKey(xs, Fold(xs)[i].key)
  {
    if xs != [] {
      var p := xs[..|xs| - 1];
      var x := Last(xs);
      var tp := Fold(p);
      FoldTotals(p);
      FoldKeys(p);
      AccumulateUpdates(tp, x);
      var t := Fold(xs);
      forall i | 0 <= i < |t| ensures t[i].total == SumKey(xs, t[i].key) {
        var k := t[i].key;
        if i < |tp| {
          assert tp[i].key == k;
          FindDistinct(tp, i);
          if k != x.key {
            PlusZero(SumKey(p, k));
          }
        } else {
          assert k == x.key && Find(tp, k) == |tp|;
          AbsentKeySum(p, k);
          PlusZero(x.measures);
        }
      }
    }
  }

  /** The row of a key holds the union of that key's items' branches. */
  lemma {:induction false} FoldBranches<K>(xs: seq<Item<K>>)
    ensures forall i :: 0 <= i < |Fold(xs)| ==> Fold(xs)[i].branches == BranchesKey(xs, Fold(xs)[i].key)
  {
    if xs != [] {
      var p := xs[..|xs| - 1];
      var x := Last(xs);
      var tp := Fold(p);
      FoldBranches(p);
      FoldKeys(p);
      AccumulateUpdates(tp, x);
      var t := Fold(xs);
      forall i | 0 <= i < |t| ensures t[i].branches == BranchesKey(xs, t[i].key) {
        var k := t[i].key;
        if i < |tp| {
          assert tp[i].key == k;
          FindDistinct(tp, i);
        } else {
          assert k == x.key && Find(tp, k) == |tp|;
          AbsentKeyBranches(p, k);
        }
      }
    }
  }

  /** The row of a key carries the name of that key's first item. */
  lemma {:induction false} FoldNames<K>(xs: seq<Item<K>>)
    ensures forall i :: 0 <= i < |Fold(xs)| ==> Fold(xs)[i].name == FirstName(xs, Fold(xs)[i].key)
  {
    if xs != [] {
      var p := xs[..|xs| - 1];
      var x := Last(xs);
      var tp := Fold(p);
      FoldNames(p);
      FoldKeys(p);
      AccumulateUpdates(tp, x);
      var t := Fold(xs);
      forall i | 0 <= i < |t| ensures t[i].name == FirstName(xs, t[i].key) {
        var k := t[i].key;
        if i < |tp| {
          assert tp[i].key == k && k in RowKeys(tp);
          FindDistinct(tp, i);
        } else {
          assert k == x.key && Find(tp, k) == |tp|;
        }
      }
    }
  }

  /** Every key of the items has a row in the grouped table. */
  lemma FoldRowOf<K>(xs: seq<Item<K>>, k: K)
    requires k in ItemKeys(xs)
    ensures Find(Fold(xs), k) < |Fold(xs)|
  {
    FoldKeys(xs);
  }

  lemma {:induction false} AccumulateSum<K>(t: seq<Row<K>>, x: Item<K>)
    ensures SumRows(Accumulate(t, x)) == Plus(SumRows(t), x.measures)
    decreases |t|
  {
    if t == [] {
      PlusZero(x.measures);
    } else if t[0].key == x.key {
      assert Accumulate(t, x)[1..] == t[1..];
    } else {
      AccumulateSum(t[1..], x);
      assert Accumulate(t, x)[1..] == Accumulate(t[1..], x);
    }
  }

  /** The rows of a grouped table together hold exactly the measures of all items. */
  lemma {:induction false} FoldSum<K>(xs: seq<Item<K>>)
    ensures SumRows(Fold(xs)) == SumAll(xs)
  {
    if xs != [] {
      FoldSum(xs[..|xs| - 1]);
      AccumulateSum(Fold(xs[..|xs| - 1]), Last(xs));
    }
  }

  // ---------------------------------------------------------------------
  // Grouping a grouped table again by a coarser key.
  // ---------------------------------------------------------------------

  function RowItem<K, J>(r: Row<K>, proj: K -> J): Item<J> {
    Item(proj(r.key), r.name, r.total, r.branches)
  }

  /** The rows of a table as items keyed by a projection of their keys. */
  function AsItems<K, J>(t: seq<Row<K>>, proj: K -> J): seq<Item<J>> {
    if t == [] then [] else [RowItem(t[0], proj)] + AsItems(t[1..], proj)
  }

  function RelabelItem<K, J>(x: Item<K>, proj: K -> J): Item<J> {
    Item(proj(x.key), x.name, x.measures, x.branches)
  }

  /** The items with their keys projected. */
  function Relabel<K, J>(xs: seq<Item<K>>, proj: K -> J): seq<Item<J>> {
    if xs == [] then []
    else Relabel(xs[..|xs| - 1], proj) + [RelabelItem(Last(xs), proj)]
  }

  /** `table.groupby(coarser key).agg(sum)`. */
  function Regroup<K, J(==)>(t: seq<Row<K>>, proj: K -> J): seq<Row<J>> {
    Fold(AsItems(t, proj))
  }

  lemma {:induction false} SumKeyConcat<K>(a: seq<Item<K>>, b: seq<Item<K>>, k: K)
    ensures SumKey(a + b, k) == Plus(SumKey(a, k), SumKey(b, k))
    decreases |b|
  {
    if b == [] {
      assert a + b == a;
      PlusZero(SumKey(a, k));
    } else {
      var b' := b[..|b| - 1];
      assert (a + b)[..|a + b| - 1] == a + b';
      assert Last(a + b) == Last(b);
      SumKeyConcat(a, b', k);
      PlusAssoc(SumKey(a, k), SumKey(b', k), Own(Last(b), k));
    }
  }

  lemma {:induction false} BranchesKeyConcat<K>(a: seq<Item<K>>, b: seq<Item<K>>, k: K)
    ensures BranchesKey(a + b, k) == BranchesKey(a, k) + BranchesKey(b, k)
    decreases |b|
  {
    if b == [] {
      assert a + b == a;
    } else {
      var b' := b[..|b| - 1];
      assert (a + b)[..|a + b| - 1] == a + b';
      assert Last(a + b) == Last(b);
      BranchesKeyConcat(a, b', k);
    }
  }

  lemma {:induction false} ItemKeysConcat<K>(a: seq<Item<K>>, b: seq<Item<K>>)
    ensures ItemKeys(a + b) == ItemKeys(a) + ItemKeys(b)
    decreases |b|
  {
    if b == [] {
      assert a + b == a;
    } else {
      var b' := b[..|b| - 1];
      assert (a + b)[..|a + b| - 1] == a + b';
      assert Last(a + b) == Last(b);
      ItemKeysConcat(a, b');
    }
  }

  lemma SingleSum<K>(x: Item<K>, k: K)
    ensures SumKey([x], k) == Own(x, k)
  {
    assert [x][..0] == [];
    PlusZero(Own(x, k));
  }

  lemma SingleBranches<K>(x: Item<K>, k: K)
    ensures BranchesKey([x], k) == if x.key == k then x.branches else {}
  {
    assert [x][..0] == [];
  }

  lemma SingleKeys<K>(x: Item<K>)
    ensures ItemKeys([x]) == {x.key}
  {
    assert [x][..0] == [];
  }

  lemma AsItemsCons<K, J>(r: Row<K>, t: seq<Row<K>>, proj: K -> J)
    ensures AsItems([r] + t, proj) == [RowItem(r, proj)] + AsItems(t, proj)
  {
    assert ([r] + t)[1..] == t;
  }

  lemma PlusSwap(a: Measures, b: Measures, c: Measures)
    ensures Plus(Plus(a, b), c) == Plus(Plus(a, c), b)
  {
  }

  lemma OwnMerged<K, J>(r: Row<K>, x: Item<K>, proj: K -> J, j: J)
    requires r.key == x.key
    ensures Own(RowItem(Merge(r, x), proj), j) == Plus(Own(RowItem(r, proj), j), Own(RelabelItem(x, proj), j))
  {
    if proj(r.key) != j {
      PlusZero(Zero);
    }
  }

  /** Accumulate, seen through a projection: the row of x's key absorbs x's measures. */
  lemma {:induction false} AccumulateRelabelSum<K, J>(t: seq<Row<K>>, x: Item<K>, proj: K -> J, j: J)
    ensures SumKey(AsItems(Accumulate(t, x), proj), j)
         == Plus(SumKey(AsItems(t, proj), j), Own(RelabelItem(x, proj), j))
    decreases |t|
  {
    var ox := Own(RelabelItem(x, proj), j);
    if t == [] {
      AsItemsCons(NewRow(x), [], proj);
      assert AsItems(Accumulate(t, x), proj) == [RelabelItem(x, proj)];
      SingleSum(RelabelItem(x, proj), j);
      assert SumKey(AsItems(t, proj), j) == Zero;
      PlusZero(ox);
    } else {
      var head := RowItem(t[0], proj);
      var tail := AsItems(t[1..], proj);
      AsItemsCons(t[0], t[1..], proj);
      assert t == [t[0]] + t[1..];
      SingleSum(head, j);
      SumKeyConcat([head], tail, j);
      if t[0].key == x.key {
        var merged := RowItem(Merge(t[0], x), proj);
        AsItemsCons(Merge(t[0], x), t[1..], proj);
        SingleSum(merged, j);
        SumKeyConcat([merged], tail, j);
        OwnMerged(t[0], x, proj, j);
        PlusSwap(Own(head, j), ox, SumKey(tail, j));
        assert Accumulate(t, x) == [Merge(t[0], x)] + t[1..];
        assert AsItems(Accumulate(t, x), proj) == [merged] + tail;
        assert SumKey(AsItems(Accumulate(t, x), proj), j) == Plus(Own(merged, j), SumKey(tail, j));
        assert SumKey(AsItems(t, proj), j) == Plus(Own(head, j), SumKey(tail, j));
      } else {
        var rest := Accumulate(t[1..], x);
        AccumulateRelabelSum(t[1..], x, proj, j);
        AsItemsCons(t[0], rest, proj);
        SumKeyConcat([head], AsItems(rest, proj), j);
        PlusAssoc(Own(head, j), SumKey(tail, j), ox);
        assert Accumulate(t, x) == [t[0]] + rest;
        assert AsItems(Accumulate(t, x), proj) == [head] + AsItems(rest, proj);
        assert SumKey(AsItems(Accumulate(t, x), proj), j) == Plus(Own(head, j), SumKey(AsItems(rest, proj), j));
        assert SumKey(AsItems(t, proj), j) == Plus(Own(head, j), SumKey(tail, j));
      }
    }
  }

  /** Accumulate, seen through a projection: the row of x's key absorbs x's branches. */
  lemma {:induction false} AccumulateRelabelBranches<K, J>(t: seq<Row<K>>, x: Item<K>, proj: K -> J, j: J)
    ensures BranchesKey(AsItems(Accumulate(t, x), proj), j)
         == BranchesKey(AsItems(t, proj), j) + (if proj(x.key) == j then x.branches else {})
    decreases |t|
  {
    if t == [] {
      AsItemsCons(NewRow(x), [], proj);
      SingleBranches(RowItem(NewRow(x), proj), j);
    } else {
      var head := RowItem(t[0], proj);
      AsItemsCons(t[0], t[1..], proj);
      assert t == [t[0]] + t[1..];
      SingleBranches(head, j);
      BranchesKeyConcat([head], AsItems(t[1..], proj), j);
      if t[0].key == x.key {
        var merged := RowItem(Merge(t[0], x), proj);
        AsItemsCons(Merge(t[0], x), t[1..], proj);
        SingleBranches(merged, j);
        BranchesKeyConcat([merged], AsItems(t[1..], proj), j);
      } else {
        var rest := Accumulate(t[1..], x);
        AccumulateRelabelBranches(t[1..], x, proj, j);
        AsItemsCons(t[0], rest, proj);
        BranchesKeyConcat([head], AsItems(rest, proj), j);
      }
    }
  }

  /** Accumulate, seen through a projection: the projected keys gain x's projected key. */
  lemma {:induction false} AccumulateRelabelKeys<K, J>(t: seq<Row<K>>, x: Item<K>, proj: K -> J)
    ensures ItemKeys(AsItems(Accumulate(t, x), proj)) == ItemKeys(AsItems(t, proj)) + {proj(x.key)}
    decreases |t|
  {
    if t == [] {
      AsItemsCons(NewRow(x), [], proj);
      SingleKeys(RowItem(NewRow(x), proj));
    } else {
      var head := RowItem(t[0], proj);
      AsItemsCons(t[0], t[1..], proj);
      assert t == [t[0]] + t[1..];
      SingleKeys(head);
      ItemKeysConcat([head], AsItems(t[1..], proj));
      if t[0].key == x.key {
        var merged := RowItem(Merge(t[0], x), proj);
        AsItemsCons(Merge(t[0], x), t[1..], proj);
        SingleKeys(merged);
        ItemKeysConcat([merged], AsItems(t[1..], proj));
      } else {
        var rest := Accumulate(t[1..], x);
        AccumulateRelabelKeys(t[1..], x, proj);
        AsItemsCons(t[0], rest, proj);
        ItemKeysConcat([head], AsItems(rest, proj));
      }
    }
  }

  /**
   * Regrouping the table of some items by a coarser key gives, per coarse key,
   * the same measures as grouping the items by it directly.
   */
  lemma {:induction false} FoldRelabelSum<K, J>(xs: seq<Item<K>>, proj: K -> J, j: J)
    ensures SumKey(AsItems(Fold(xs), proj), j) == SumKey(Relabel(xs, proj), j)
  {
    if xs != [] {
      var p := xs[..|xs| - 1];
      var rx := RelabelItem(Last(xs), proj);
      FoldRelabelSum(p, proj, j);
      AccumulateRelabelSum(Fold(p), Last(xs), proj, j);
      assert Relabel(xs, proj) == Relabel(p, proj) + [rx];
      SumKeyConcat(Relabel(p, proj), [rx], j);
      SingleSum(rx, j);
    }
  }

  /** Regrouping keeps, per coarse key, the branches of grouping the items directly. */
  lemma {:induction false} FoldRelabelBranches<K, J>(xs: seq<Item<K>>, proj: K -> J, j: J)
    ensures BranchesKey(AsItems(Fold(xs), proj), j) == BranchesKey(Relabel(xs, proj), j)
  {
    if xs != [] {
      var p := xs[..|xs| - 1];
      var rx := RelabelItem(Last(xs), proj);
      FoldRelabelBranches(p, proj, j);
      AccumulateRelabelBranches(Fold(p), Last(xs), proj, j);
      assert Relabel(xs, proj) == Relabel(p, proj) + [rx];
      BranchesKeyConcat(Relabel(p, proj), [rx], j);
      SingleBranches(rx, j);
    }
  }

  /** Regrouping has one row per projected key of the items. */
  lemma {:induction false} FoldRelabelKeys<K, J>(xs: seq<Item<K>>, proj: K -> J)
    ensures ItemKeys(AsItems(Fold(xs), proj)) == ItemKeys(Relabel(xs, proj))
  {
    if xs != [] {
      var p := xs[..|xs| - 1];
      var rx := RelabelItem(Last(xs), proj);
      FoldRelabelKeys(p, proj);
      AccumulateRelabelKeys(Fold(p), Last(xs), proj);
      assert Relabel(xs, proj) == Relabel(p, proj) + [rx];
      ItemKeysConcat(Relabel(p, proj), [rx]);
      SingleKeys(rx);
    }
  }

  lemma {:induction false} SumAllConcat<K>(a: seq<Item<K>>, b: seq<Item<K>>)
    ensures SumAll(a + b) == Plus(SumAll(a), SumAll(b))
    decreases |b|
  {
    if b == [] {
      assert a + b == a;
      PlusZero(SumAll(a));
    } else {
      var b' := b[..|b| - 1];
      assert (a + b)[..|a + b| - 1] == a + b';
      assert Last(a + b) == Last(b);
      SumAllConcat(a, b');
      PlusAssoc(SumAll(a), SumAll(b'), Last(b).measures);
    }
  }

  lemma {:induction false} AsItemsSum<K, J>(t: seq<Row<K>>, proj: K -> J)
    ensures SumAll(AsItems(t, proj)) == SumRows(t)
  {
    if t != [] {
      AsItemsSum(t[1..], proj);
      SumAllConcat([RowItem(t[0], proj)], AsItems(t[1..], proj));
      assert SumAll([RowItem(t[0], proj)]) == Plus(Zero, t[0].total);
      PlusZero(t[0].total);
    }
  }

  /** Regrouping a table keeps the sum of its rows. */
  lemma RegroupSum<K, J>(t: seq<Row<K>>, proj: K -> J)
    ensures SumRows(Regroup(t, proj)) == SumRows(t)
  {
    FoldSum(AsItems(t, proj));
    AsItemsSum(t, proj);
  }

  // ---------------------------------------------------------------------
  // Ordering a table by a rank of its keys (`sort_values`).
  // ---------------------------------------------------------------------

  predicate SortedBy<K>(t: seq<Row<K>>, rank: K -> int) {
    forall i, j :: 0 <= i < j < |t| ==> rank(t[i].key) <= rank(t[j].key)
  }

  function InsertBy<K(==)>(x: Row<K>, s: seq<Row<K>>, rank: K -> int): seq<Row<K>> {
    if s == [] then [x]
    else if rank(x.key) <= rank(s[0].key) then [x] + s
    else [s[0]] + InsertBy(x, s[1..], rank)
  }

  lemma {:induction false} InsertByPerm<K>(x: Row<K>, s: seq<Row<K>>, rank: K -> int)
    ensures multiset(InsertBy(x, s, rank)) == multiset(s) + multiset{x}
  {
    if s != [] {
      assert s == [s[0]] + s[1..];
      if rank(s[0].key) < rank(x.key) {
        InsertByPerm(x, s[1..], rank);
      }
    }
  }

  /** Inserting keeps a lower bound on the ranks. */
  lemma {:induction false} InsertByBound<K>(x: Row<K>, s: seq<Row<K>>, rank: K -> int, b: int)
    requires b <= rank(x.key)
    requires forall i :: 0 <= i < |s| ==> b <= rank(s[i].key)
    ensures forall i :: 0 <= i < |InsertBy(x, s, rank)| ==> b <= rank(InsertBy(x, s, rank)[i].key)
  {
    if s != [] && rank(s[0].key) < rank(x.key) {
      InsertByBound(x, s[1..], rank, b);
      var rest := InsertBy(x, s[1..], rank);
      assert forall i :: 1 <= i < |rest| + 1 ==> ([s[0]] + rest)[i] == rest[i - 1];
    }
  }

  lemma {:induction false} InsertBySorted<K>(x: Row<K>, s: seq<Row<K>>, rank: K -> int)
    requires SortedBy(s, rank)
    ensures SortedBy(InsertBy(x, s, rank), rank)
  {
    if s != [] && rank(s[0].key) < rank(x.key) {
      var rest := InsertBy(x, s[1..], rank);
      InsertBySorted(x, s[1..], rank);
      InsertByBound(x, s[1..], rank, rank(s[0].key));
      var r := [s[0]] + rest;
      assert r == InsertBy(x, s, rank);
      forall i, j | 0 <= i < j < |r| ensures rank(r[i].key) <= rank(r[j].key) {
        assert r[j] == rest[j - 1];
        if i > 0 {
          assert r[i] == rest[i - 1];
        }
      }
    }
  }

  /** A stable sort of the rows, ascending by the rank of their keys. */
  function SortBy<K(==)>(t: seq<Row<K>>, rank: K -> int): (r: seq<Row<K>>)
    ensures multiset(r) == multiset(t)
    ensures SortedBy(r, rank)
  {
    if t == [] then []
    else
      var s := SortBy(t[1..], rank);
      InsertByPerm(t[0], s, rank);
      InsertBySorted(t[0], s, rank);
      assert t == [t[0]] + t[1..];
      InsertBy(t[0], s, rank)
  }

  lemma PlusExchange(a: Measures, b: Measures, c: Measures)
    ensures Plus(a, Plus(b, c)) == Plus(b, Plus(a, c))
  {
  }

  lemma {:induction false} InsertBySum<K>(x: Row<K>, s: seq<Row<K>>, rank: K -> int)
    ensures SumRows(InsertBy(x, s, rank)) == Plus(x.total, SumRows(s))
  {
    if s == [] {
      assert SumRows([x]) == Plus(x.total, SumRows([x][1..]));
    } else if rank(x.key) <= rank(s[0].key) {
      assert ([x] + s)[1..] == s;
    } else {
      InsertBySum(x, s[1..], rank);
      assert ([s[0]] + InsertBy(x, s[1..], rank))[1..] == InsertBy(x, s[1..], rank);
      PlusExchange(x.total, s[0].total, SumRows(s[1..]));
    }
  }

  /** Sorting a table keeps the sum of its rows. */
  lemma {:induction false} SortBySum<K>(t: seq<Row<K>>, rank: K -> int)
    ensures SumRows(SortBy(t, rank)) == SumRows(t)
  {
    if t != [] {
      SortBySum(t[1..], rank);
      InsertBySum(t[0], SortBy(t[1..], rank), rank);
    }
  }

  /** A table with distinct keys holds each row at most once. */
  lemma {:induction false} DistinctRowsOnce<K>(t: seq<Row<K>>, row: Row<K>)
    requires DistinctKeys(t)
    ensures multiset(t)[row] <= 1
  {
    if t != [] {
      assert t == [t[0]] + t[1..];
      DistinctRowsOnce(t[1..], row);
    }
  }

  /** A row at two positions of a sequence occurs there at least twice. */
  lemma TwiceCounted<K>(r: seq<Row<K>>, i: nat, j: nat)
    requires i < j < |r| && r[i] == r[j]
    ensures multiset(r)[r[i]] >= 2
  {
    assert r == r[..j] + r[j..];
    assert r[i] == r[..j][i];
    assert r[j] == r[j..][0];
  }

  /** Reordering a table keeps its rows, its keys and their distinctness. */
  lemma PermutationKeepsRows<K>(t: seq<Row<K>>, r: seq<Row<K>>)
    requires multiset(r) == multiset(t)
    requires DistinctKeys(t)
    ensures |r| == |t|
    ensures forall row :: row in r <==> row in t
    ensures DistinctKeys(r)
    ensures RowKeys(r) == RowKeys(t)
  {
    assert |r| == |multiset(r)| == |multiset(t)| == |t|;
    forall row ensures row in r <==> row in t {
      assert row in r <==> row in multiset(r);
      assert row in t <==> row in multiset(t);
    }
    forall i, j | 0 <= i < j < |r| ensures r[i].key != r[j].key {
      if r[i].key == r[j].key {
        assert r[i] in t && r[j] in t;
        var a :| 0 <= a < |t| && t[a] == r[i];
        var b :| 0 <= b < |t| && t[b] == r[j];
        if a == b {
          TwiceCounted(r, i, j);
          DistinctRowsOnce(t, r[i]);
          assert false;
        }
      }
    }
    forall k | k in RowKeys(r) ensures k in RowKeys(t) {
      var i :| 0 <= i < |r| && r[i].key == k;
      assert r[i] in t;
    }
    forall k | k in RowKeys(t) ensures k in RowKeys(r) {
      var i :| 0 <= i < |t| && t[i].key == k;
      assert t[i] in r;
    }
  }
}

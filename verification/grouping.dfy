/**
  pandas `df.groupby(key)[col].count()` and `df.groupby(key).size()`: one
  group per distinct key present in the rows, listed in ascending key order
  (pandas sorts group keys by default). `count()` tallies the rows whose
  column value is not null, so a group can hold 0; `size()` tallies every row.
  Both are the same function here: `counted` says which rows a group tallies.
 */
module Grouping {
  import opened Ordering

  datatype Group<K> = Group(key: K, count: nat)

  /** Reference definition: how many rows carry key `k` and are tallied. */
  function Hits<R, K(==)>(rows: seq<R>, key: R -> K, counted: R -> bool, k: K): nat {
    if |rows| == 0 then 0
    else (if key(rows[0]) == k && counted(rows[0]) then 1 else 0) + Hits(rows[1..], key, counted, k)
  }

  /** How many rows are tallied at all. */
  function CountWhere<R>(rows: seq<R>, counted: R -> bool): nat {
    if |rows| == 0 then 0
    else (if counted(rows[0]) then 1 else 0) + CountWhere(rows[1..], counted)
  }

  /** The distinct keys present in the rows. */
  function RowKeys<R, K(==)>(rows: seq<R>, key: R -> K): set<K> {
    if |rows| == 0 then {} else {key(rows[0])} + RowKeys(rows[1..], key)
  }

  /** `size()` tallies every row. */
  predicate Always<R>(row: R) {
    true
  }

  /** The count a group table reports for `k`; 0 when `k` has no group. */
  function Lookup<K(==)>(gs: seq<Group<K>>, k: K): nat {
    if |gs| == 0 then 0
    else if gs[0].key == k then gs[0].count
    else Lookup(gs[1..], k)
  }

  function GroupKeys<K(==)>(gs: seq<Group<K>>): set<K> {
    if |gs| == 0 then {} else {gs[0].key} + GroupKeys(gs[1..])
  }

  function Total<K>(gs: seq<Group<K>>): nat {
    if |gs| == 0 then 0 else gs[0].count + Total(gs[1..])
  }

  predicate Ascending<K>(gs: seq<Group<K>>, less: (K, K) -> bool) {
    forall i, j :: 0 <= i < j < |gs| ==> less(gs[i].key, gs[j].key)
  }

  lemma {:induction false} AbsentKey<K>(gs: seq<Group<K>>, k: K)
    requires k !in GroupKeys(gs)
    ensures Lookup(gs, k) == 0
  {
    if |gs| > 0 {
      AbsentKey(gs[1..], k);
    }
  }

  lemma {:induction false} BelowFirst<K(!new)>(gs: seq<Group<K>>, k: K, less: (K, K) -> bool)
    requires StrictTotalOrder(less) && Ascending(gs, less)
    requires |gs| > 0 && less(k, gs[0].key)
    ensures k !in GroupKeys(gs)
  {
    if |gs| > 1 {
      BelowFirst(gs[1..], k, less);
    }
  }

  lemma {:induction false} KeyAt<K>(gs: seq<Group<K>>, i: nat)
    requires i < |gs|
    ensures gs[i].key in GroupKeys(gs)
  {
    if i > 0 {
      KeyAt(gs[1..], i - 1);
    }
  }

  /** Tally one row with key `k` into a key-sorted group table. */
  function Bump<K(==,!new)>(gs: seq<Group<K>>, k: K, hit: bool, less: (K, K) -> bool): (r: seq<Group<K>>)
    requires StrictTotalOrder(less) && Ascending(gs, less)
    ensures Ascending(r, less)
    ensures |r| > 0 && (r[0].key == k || (|gs| > 0 && r[0].key == gs[0].key))
    ensures GroupKeys(r) == GroupKeys(gs) + {k}
    ensures forall x :: Lookup(r, x) == Lookup(gs, x) + (if x == k && hit then 1 else 0)
    ensures Total(r) == Total(gs) + (if hit then 1 else 0)
    decreases |gs|
  {
    var one := if hit then 1 else 0;
    if |gs| == 0 then
      [Group(k, one)]
    else if gs[0].key == k then
      var r := [Group(k, gs[0].count + one)] + gs[1..];
      assert r[1..] == gs[1..];
      r
    else if less(k, gs[0].key) then
      BelowFirst(gs, k, less);
      AbsentKey(gs, k);
      var r := [Group(k, one)] + gs;
      assert r[1..] == gs;
      r
    else
      var rest := Bump(gs[1..], k, hit, less);
      var r := [gs[0]] + rest;
      assert r[1..] == rest;
      r
  }

  /** The group-by: one group per distinct key, ascending, each holding the
      number of its rows that are tallied. */
  function GroupCount<R, K(==,!new)>(rows: seq<R>, key: R -> K, counted: R -> bool, less: (K, K) -> bool): (gs: seq<Group<K>>)
    requires StrictTotalOrder(less)
    ensures Ascending(gs, less)
    ensures GroupKeys(gs) == RowKeys(rows, key)
    ensures forall k :: Lookup(gs, k) == Hits(rows, key, counted, k)
    ensures Total(gs) == CountWhere(rows, counted)
  {
    if |rows| == 0 then []
    else Bump(GroupCount(rows[1..], key, counted, less), key(rows[0]), counted(rows[0]), less)
  }

  /** In a key-sorted table the keys are distinct and each group's count is
      what `Lookup` reports for its key. */
  lemma {:induction false} LookupAt<K(!new)>(gs: seq<Group<K>>, i: nat, less: (K, K) -> bool)
    requires StrictTotalOrder(less) && Ascending(gs, less) && i < |gs|
    ensures Lookup(gs, gs[i].key) == gs[i].count
  {
    if i > 0 {
      assert less(gs[0].key, gs[i].key);
      LookupAt(gs[1..], i - 1, less);
    }
  }

  lemma AscendingDistinct<K(!new)>(gs: seq<Group<K>>, less: (K, K) -> bool)
    requires StrictTotalOrder(less) && Ascending(gs, less)
    ensures forall i, j :: 0 <= i < j < |gs| ==> gs[i].key != gs[j].key
  {
  }

  /** Every group of a group-by is a key present in the rows, and its count is
      the number of tallied rows carrying that key. */
  lemma GroupsMatchRows<R, K(!new)>(rows: seq<R>, key: R -> K, counted: R -> bool, less: (K, K) -> bool)
    requires StrictTotalOrder(less)
    ensures var gs := GroupCount(rows, key, counted, less);
      forall i :: 0 <= i < |gs| ==> gs[i].key in RowKeys(rows, key) && gs[i].count == Hits(rows, key, counted, gs[i].key)
  {
    var gs := GroupCount(rows, key, counted, less);
    forall i | 0 <= i < |gs|
      ensures gs[i].key in RowKeys(rows, key) && gs[i].count == Hits(rows, key, counted, gs[i].key)
    {
      KeyAt(gs, i);
      LookupAt(gs, i, less);
    }
  }

  lemma {:induction false} HitsPositive<R, K>(rows: seq<R>, key: R -> K, counted: R -> bool, k: K)
    requires k in RowKeys(rows, key)
    requires forall i :: 0 <= i < |rows| ==> counted(rows[i])
    ensures Hits(rows, key, counted, k) >= 1
  {
    if key(rows[0]) != k {
      HitsPositive(rows[1..], key, counted, k);
    }
  }

  /** When every row is tallied, no group is empty. */
  lemma GroupsNonEmpty<R, K(!new)>(rows: seq<R>, key: R -> K, counted: R -> bool, less: (K, K) -> bool)
    requires StrictTotalOrder(less)
    requires forall i :: 0 <= i < |rows| ==> counted(rows[i])
    ensures var gs := GroupCount(rows, key, counted, less);
      forall i :: 0 <= i < |gs| ==> gs[i].count >= 1
  {
    var gs := GroupCount(rows, key, counted, less);
    forall i | 0 <= i < |gs| ensures gs[i].count >= 1 {
      KeyAt(gs, i);
      LookupAt(gs, i, less);
      HitsPositive(rows, key, counted, gs[i].key);
    }
  }

  lemma {:induction false} CountWhereAll<R>(rows: seq<R>, counted: R -> bool)
    requires forall i :: 0 <= i < |rows| ==> counted(rows[i])
    ensures CountWhere(rows, counted) == |rows|
  {
    if |rows| > 0 {
      CountWhereAll(rows[1..], counted);
    }
  }

  /** `count()` and `size()` agree when no tallied column value is null. */
  lemma {:induction false} CountIsSizeWithoutNulls<R, K(!new)>(rows: seq<R>, key: R -> K, counted: R -> bool, less: (K, K) -> bool)
    requires StrictTotalOrder(less)
    requires forall i :: 0 <= i < |rows| ==> counted(rows[i])
    ensures GroupCount(rows, key, counted, less) == GroupCount(rows, key, Always, less)
  {
    if |rows| > 0 {
      CountIsSizeWithoutNulls(rows[1..], key, counted, less);
    }
  }
}

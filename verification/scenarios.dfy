/**
  Whole-table behaviour of hashtable.c over a run of calls: any mix of `ht_set`, `ht_take`
  and `ht_delete` (every allocation succeeding) keeps the table equal to the finite map the
  same calls build, keeps it inside the density band, and a table emptied that way is back
  at the smallest bucket count.
*/
module Scenarios {
  import opened Wrappers
  import opened Levels
  import opened Chains
  import opened HashTable

  /** One mutating call on a table. */
  datatype Op<K, V> = SetOp(key: K, value: V) | TakeOp(key: K) | DeleteOp(key: K)

  /** The reference meaning of a run of calls on a finite map: set maps a key, take and
      delete unmap it. */
  function ApplyMap<K, V>(m: map<K, V>, ops: seq<Op<K, V>>): map<K, V>
    decreases |ops|
  {
    if |ops| == 0 then m
    else
      var m' := match ops[0]
        case SetOp(k, v) => m[k := v]
        case TakeOp(k) => m - {k}
        case DeleteOp(k) => m - {k};
      ApplyMap(m', ops[1..])
  }

  /** Runs the calls on a table in order, every allocation succeeding. Each step keeps the
      table invariant and the density band, and the table tracks the reference map. */
  function Run<K(==,!new), V>(t: Table<K, V>, ops: seq<Op<K, V>>): (r: Table<K, V>)
    requires Valid(t) && InBand(t.count, t.level)
    ensures Valid(r) && InBand(r.count, r.level)
    ensures Contents(r) == ApplyMap(Contents(t), ops)
    decreases |ops|
  {
    if |ops| == 0 then t
    else
      var t' := match ops[0]
        case SetOp(k, v) => (SetKeepsBand(t, k, v); Set(Some(t), k, v, true, true).value.table)
        case TakeOp(k) => (TakeKeepsBand(t, k); Take(t, k, true).table)
        case DeleteOp(k) => (DeleteKeepsBand(t, k); Delete(t, k, true).table);
      Run(t', ops[1..])
  }

  /** A table in the band that holds nothing is at level 0, where `ht_alloc` starts it. */
  lemma EmptyIsSmallest<K(!new), V>(t: Table<K, V>)
    requires Valid(t) && InBand(t.count, t.level)
    requires Contents(t) == map[]
    ensures t.level == 0 && |t.buckets| == 37
  {
    CountIsSize(t);
  }

  /** Starting from a freshly allocated table, any run of set, take and delete calls that
      leaves no key behind returns the table to its first bucket count. */
  lemma DrainedRunReturnsToStart<K(!new), V>(
    hash: K -> nat, cmp: (K, K) -> int, kp: Ownership.Policy, vp: Ownership.Policy, ops: seq<Op<K, V>>)
    requires CmpIsEquality(cmp)
    requires ApplyMap(map[], ops) == map[]
    ensures var a := Alloc<K, V>(true, Some(hash), Some(cmp), kp, vp, true);
      a.Success? && Run(a.value, ops).level == 0
  {
    var t := Alloc<K, V>(true, Some(hash), Some(cmp), kp, vp, true).value;
    EmptyIsSmallest(Run(t, ops));
  }

  /** A worked example, on integer keys and character values, first half: `set(1, 'a')` and
      `set(2, 'b')` on an empty table both report a new key, and `get(1)` then yields `'a'`. */
  lemma ExampleSets(t: Table<int, char>)
    requires Valid(t) && Contents(t) == map[]
    ensures var s1 := Set(Some(t), 1, 'a', true, true);
      && s1.Success? && s1.value.result
      && var s2 := Set(Some(s1.value.table), 2, 'b', true, true);
      && s2.Success? && s2.value.result
      && Contents(s2.value.table) == map[1 := 'a', 2 := 'b']
      && Get(s2.value.table, 1) == Some('a')
  {
    var t1 := Set(Some(t), 1, 'a', true, true).value.table;
    assert Contents(t1) == map[1 := 'a'];
    var t2 := Set(Some(t1), 2, 'b', true, true).value.table;
    assert Contents(t2) == map[1 := 'a', 2 := 'b'];
  }

  /** Second half: `delete(1)` on that table leaves key 1 absent and one entry. */
  lemma ExampleDelete(t: Table<int, char>)
    requires Valid(t) && Contents(t) == map[1 := 'a', 2 := 'b']
    ensures var t' := Delete(t, 1, true).table;
      Get(t', 1) == None && Size(t') == 1
  {
    DeleteOfTwo(t, 1, 'a', 2, 'b');
  }

  /** Deleting one key of a two-key table leaves the other key alone. */
  lemma DeleteOfTwo<K(!new), V>(t: Table<K, V>, k: K, v: V, k2: K, v2: V)
    requires Valid(t) && k != k2 && Contents(t) == map[k := v, k2 := v2]
    ensures var t' := Delete(t, k, true).table;
      Get(t', k) == None && Size(t') == 1
  {
    var t' := Delete(t, k, true).table;
    RemoveFromTwo(k, v, k2, v2);
    assert Contents(t') == map[k2 := v2];
    assert |Contents(t')| == 1;
  }

  lemma RemoveFromTwo<K, V>(k: K, v: V, k2: K, v2: V)
    requires k != k2
    ensures map[k := v, k2 := v2] - {k} == map[k2 := v2]
  {
  }
}

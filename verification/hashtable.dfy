/**
  The generic chained hash table of hashtable.c: a table value, its invariant, the
  finite map it denotes, and the public operations `ht_alloc`, `ht_get`, `ht_set`,
  `ht_take`, `ht_delete`, `ht_purge`, `ht_free`, `ht_size`, `ht_buckets`, with the
  density maintenance `_adjust_by_density` that the mutating operations run.
*/
module HashTable {
  import opened Wrappers
  import opened Levels
  import opened Ownership
  import opened Chains
  import opened Buckets

  /** The failures the table reports: a NULL handle or missing function, or a failed allocation. */
  datatype Error = InvalidArgument | AllocationFailure

  /** The `ht_st` structure. `level` is the C field `buckets` (an index into `Primes`) and
      `buckets` is the C field `nodes` (the chain heads). */
  datatype Table<!K, V> = Table(
    keyPolicy: Policy,
    valuePolicy: Policy,
    hash: K -> nat,
    cmp: (K, K) -> int,
    count: nat,
    level: nat,
    buckets: seq<seq<Entry<K, V>>>)

  /** What a mutating operation leaves behind: the new table, its C return value, and the
      copies and releases it performed, in order. */
  datatype Step<!K, V, R> = Step(table: Table<K, V>, result: R, log: seq<Event<K, V>>)

  /** The table can be indexed: its level is in the prime sequence and the array has that many buckets. */
  predicate Shaped<K, V>(t: Table<K, V>) {
    t.level <= MaxLevel && |t.buckets| == BucketCount(t.level)
  }

  /** The bucket of `k`: `hash(key) % _primes[level]`. */
  function Home<K, V>(t: Table<K, V>, k: K): (i: nat)
    requires Shaped(t)
    ensures i < |t.buckets|
  {
    t.hash(k) % BucketCount(t.level)
  }

  /** The entries in traversal order. */
  function Entries<K, V>(t: Table<K, V>): seq<Entry<K, V>> {
    Flatten(t.buckets)
  }

  /** The table invariant: keys compared by an equality, every entry in its home bucket,
      no key twice in a chain, and `n_nodes` equal to the number of chained entries. */
  ghost predicate Valid<K(!new), V>(t: Table<K, V>) {
    && Shaped(t)
    && CmpIsEquality(t.cmp)
    && Placed(t.buckets, t.hash)
    && ChainsDistinct(t.buckets)
    && t.count == |Entries(t)|
  }

  /** The finite map the table denotes. */
  function Contents<K(==), V>(t: Table<K, V>): map<K, V> {
    MapOf(Entries(t))
  }

  /** `ht_alloc`: a NULL destination or a missing hash or compare function is rejected;
      otherwise a failed allocation is reported, or an empty table at level 0 is returned. */
  function Alloc<K(==,!new), V>(
    dst: bool, hash: Option<K -> nat>, cmp: Option<(K, K) -> int>,
    keyPolicy: Policy, valuePolicy: Policy, allocOk: bool): (r: Result<Table<K, V>, Error>)
    requires cmp.Some? ==> CmpIsEquality(cmp.value)
    ensures r.Success? <==> dst && hash.Some? && cmp.Some? && allocOk
    ensures !dst || hash.None? || cmp.None? ==> r == Failure(InvalidArgument)
    ensures r.Success? ==>
      && Valid(r.value)
      && r.value.level == 0
      && |r.value.buckets| == 37
      && Contents(r.value) == map[]
      && r.value.keyPolicy == keyPolicy && r.value.valuePolicy == valuePolicy
      && r.value.hash == hash.value && r.value.cmp == cmp.value
  {
    if !dst || hash.None? || cmp.None? then Failure(InvalidArgument)
    else if !allocOk then Failure(AllocationFailure)
    else
      var t := Table(keyPolicy, valuePolicy, hash.value, cmp.value, 0, 0, EmptyBuckets(BucketCount(0)));
      EmptyIsValid(t);
      Success(t)
  }

  /** `ht_get`: the value of the first node of `k`'s chain whose key compares equal, or NULL. */
  function Get<K(==,!new), V>(t: Table<K, V>, k: K): (r: Option<V>)
    requires Valid(t)
    ensures r.Some? <==> k in Contents(t)
    ensures r.Some? ==> r.value == Contents(t)[k]
  {
    var c := t.buckets[Home(t, k)];
    var j := Locate(c, k, t.cmp);
    LocateAgrees(c, k, t.cmp);
    ContentsByBucket(t, k);
    if j < |c| then Some(c[j].value) else None
  }

  /** `ht_size`: the number of distinct keys the table holds. */
  function Size<K(==,!new), V>(t: Table<K, V>): (n: nat)
    requires Valid(t)
    ensures n == |Contents(t)|
  {
    PlacedApart(t.buckets, t.hash);
    FlattenDistinct(t.buckets);
    MapOfSize(Entries(t));
    t.count
  }

  /** `ht_buckets`: the bucket count is the prime of the current level. */
  function BucketTotal<K, V>(t: Table<K, V>): (n: nat)
    requires Shaped(t)
    ensures n == |t.buckets| && n in Primes
  {
    BucketCount(t.level)
  }

  /** `ht_set`. A NULL table is rejected and a failed node allocation is reported. Otherwise the
      key and value are copied per policy; a replaced node's old key and value are released
      through the table's own policy (the source reads it through the node's `owner`, which
      `_new_node` never sets); and density maintenance runs only when the key is new. */
  function Set<K(==,!new), V>(h: Option<Table<K, V>>, k: K, v: V, nodeOk: bool, resizeOk: bool): (r: Result<Step<K, V, bool>, Error>)
    requires h.Some? ==> Valid(h.value)
    ensures h.None? ==> r == Failure(InvalidArgument)
    ensures h.Some? && !nodeOk ==> r == Failure(AllocationFailure)
    ensures h.Some? && nodeOk ==> r.Success?
    ensures r.Success? ==>
      var t, t' := h.value, r.value.table;
      && Valid(t')
      && Contents(t') == Contents(t)[k := v]
      && r.value.result == (k !in Contents(t))
      && r.value.log == [CopyKey(k, StoreModeOf(t.keyPolicy)), CopyValue(v, StoreModeOf(t.valuePolicy))] +
           (if k in Contents(t)
            then [ReleaseKey(k, ReleaseModeOf(t.keyPolicy)), ReleaseValue(Contents(t)[k], ReleaseModeOf(t.valuePolicy))]
            else [])
      && t'.level == (if k !in Contents(t) && resizeOk then TargetLevel(t.count + 1, t.level) else t.level)
      && t'.keyPolicy == t.keyPolicy && t'.valuePolicy == t.valuePolicy
      && t'.hash == t.hash && t'.cmp == t.cmp
  {
    if h.None? then Failure(InvalidArgument)
    else if !nodeOk then Failure(AllocationFailure)
    else
      var t := h.value;
      var c := t.buckets[Home(t, k)];
      var j := Locate(c, k, t.cmp);
      var copies := [CopyKey(k, StoreModeOf(t.keyPolicy)), CopyValue(v, StoreModeOf(t.valuePolicy))];
      PutKeeps(t, k, v);
      LocateAgrees(c, k, t.cmp);
      ContentsByBucket(t, k);
      var t' := t.(count := if j < |c| then t.count else t.count + 1,
                   buckets := t.buckets[Home(t, k) := Put(c, k, v, t.cmp)]);
      if j < |c| then
        Success(Step(t', false, copies + [ReleaseKey(c[j].key, ReleaseModeOf(t.keyPolicy)),
                                          ReleaseValue(c[j].value, ReleaseModeOf(t.valuePolicy))]))
      else
        Success(Step(Adjust(t', resizeOk), true, copies))
  }

  /** `ht_take`. An absent key leaves the table alone and yields NULL. A present key's node is
      unlinked, its key released and its value handed to the caller unreleased; the count drops
      by one and density maintenance runs. The source unlinks first and then releases through
      the updated link (hashtable.c:220-221), so it releases the successor node instead; the
      model releases the unlinked node. */
  function Take<K(==,!new), V>(t: Table<K, V>, k: K, resizeOk: bool): (r: Step<K, V, Option<V>>)
    requires Valid(t)
    ensures Valid(r.table)
    ensures Contents(r.table) == Contents(t) - {k}
    ensures r.result == if k in Contents(t) then Some(Contents(t)[k]) else None
    ensures r.log == if k in Contents(t) then [ReleaseKey(k, ReleaseModeOf(t.keyPolicy))] else []
    ensures k !in Contents(t) ==> r.table == t
    ensures k in Contents(t) ==> r.table.level == (if resizeOk then TargetLevel(t.count - 1, t.level) else t.level)
  {
    var c := t.buckets[Home(t, k)];
    var j := Locate(c, k, t.cmp);
    LocateAgrees(c, k, t.cmp);
    ContentsByBucket(t, k);
    if j == |c| then
      Step(t, None, [])
    else
      RemoveKeeps(t, k);
      var t' := t.(count := t.count - 1, buckets := t.buckets[Home(t, k) := Remove(c, k, t.cmp)]);
      Step(Adjust(t', resizeOk), Some(c[j].value), [ReleaseKey(c[j].key, ReleaseModeOf(t.keyPolicy))])
  }

  /** `ht_delete`: as `ht_take`, but the removed node's value is released too and nothing is
      returned. The same unlink-then-release slip (hashtable.c:232-233) is corrected. */
  function Delete<K(==,!new), V>(t: Table<K, V>, k: K, resizeOk: bool): (r: Step<K, V, ()>)
    requires Valid(t)
    ensures Valid(r.table)
    ensures Contents(r.table) == Contents(t) - {k}
    ensures r.log == if k in Contents(t)
                     then [ReleaseKey(k, ReleaseModeOf(t.keyPolicy)), ReleaseValue(Contents(t)[k], ReleaseModeOf(t.valuePolicy))]
                     else []
    ensures k !in Contents(t) ==> r.table == t
    ensures k in Contents(t) ==> r.table.level == (if resizeOk then TargetLevel(t.count - 1, t.level) else t.level)
  {
    var s := Take(t, k, resizeOk);
    var release := if s.result.Some? then [ReleaseValue(s.result.value, ReleaseModeOf(t.valuePolicy))] else [];
    Step(s.table, (), s.log + release)
  }

  /** The releases of a sequence of nodes, each key then (unless skipped) its value,
      through the table's policy. */
  function Releases<K, V>(es: seq<Entry<K, V>>, keyPolicy: Policy, valuePolicy: Policy): (log: seq<Event<K, V>>)
    ensures |log| == 2 * |es|
    ensures forall x :: 0 <= x < |es| ==>
      && log[2 * x] == ReleaseKey(es[x].key, ReleaseModeOf(keyPolicy))
      && log[2 * x + 1] == ReleaseValue(es[x].value, ReleaseModeOf(valuePolicy))
  {
    if |es| == 0 then []
    else [ReleaseKey(es[0].key, ReleaseModeOf(keyPolicy)), ReleaseValue(es[0].value, ReleaseModeOf(valuePolicy))]
         + Releases(es[1..], keyPolicy, valuePolicy)
  }

  /** `ht_purge`: every node is released, bucket by bucket and head to tail; the table ends
      empty at the same level, with the same number of buckets. */
  function Purge<K(==,!new), V>(t: Table<K, V>): (r: Step<K, V, ()>)
    requires Valid(t)
    ensures Valid(r.table)
    ensures Contents(r.table) == map[] && r.table.count == 0
    ensures r.table.level == t.level && |r.table.buckets| == |t.buckets|
    ensures r.log == Releases(Entries(t), t.keyPolicy, t.valuePolicy)
  {
    Step(t.(count := 0, buckets := EmptyBuckets(|t.buckets|)), (), Releases(Entries(t), t.keyPolicy, t.valuePolicy))
  }

  /** `ht_free`: a NULL handle is left alone; otherwise the table is purged and the caller's
      handle becomes NULL. */
  function Free<K(==,!new), V>(h: Option<Table<K, V>>): (r: (Option<Table<K, V>>, seq<Event<K, V>>))
    requires h.Some? ==> Valid(h.value)
    ensures r.0 == None
    ensures h.None? ==> r.1 == []
    ensures h.Some? ==> r.1 == Releases(Entries(h.value), h.value.keyPolicy, h.value.valuePolicy)
  {
    if h.None? then (None, []) else (None, Purge(h.value).log)
  }

  /** `_adjust_by_density`: moves the table one level towards the density band, or leaves it
      where it is when the density is inside the band or the new bucket array cannot be
      allocated. The entries, their count and the map are unchanged. */
  function Adjust<K(==,!new), V>(t: Table<K, V>, allocOk: bool): (r: Table<K, V>)
    requires Valid(t)
    ensures Valid(r)
    ensures r.level == if allocOk then TargetLevel(t.count, t.level) else t.level
    ensures TargetLevel(t.count, t.level) == t.level || !allocOk ==> r == t
    ensures r.count == t.count
    ensures Contents(r) == Contents(t)
    ensures multiset(Entries(r)) == multiset(Entries(t))
    ensures r.keyPolicy == t.keyPolicy && r.valuePolicy == t.valuePolicy && r.hash == t.hash && r.cmp == t.cmp
  {
    var target := TargetLevel(t.count, t.level);
    if target == t.level || !allocOk then t else Rehash(t, target)
  }

  /** The resize proper: a fresh array of the new level's size receives every node, relinked at
      the head of bucket `hash(key) % new prime`, in the order the old buckets are drained. */
  function Rehash<K(==,!new), V>(t: Table<K, V>, level: nat): (r: Table<K, V>)
    requires Valid(t)
    requires level <= MaxLevel
    ensures Valid(r)
    ensures r.level == level && r.count == t.count
    ensures multiset(Entries(r)) == multiset(Entries(t))
    ensures Contents(r) == Contents(t)
    ensures r.keyPolicy == t.keyPolicy && r.valuePolicy == t.valuePolicy && r.hash == t.hash && r.cmp == t.cmp
  {
    var empty := EmptyBuckets<K, V>(BucketCount(level));
    PlacedApart(t.buckets, t.hash);
    FlattenDistinct(t.buckets);
    var nb := MoveEntries(Entries(t), empty, t.hash);
    var r := t.(level := level, buckets := nb);
    PlacedApart(nb, t.hash);
    FlattenDistinct(nb);
    MapOfPermutation(Entries(t), Entries(r));
    r
  }

  /** A table with no entries and a fresh bucket array of its level's size is valid and empty. */
  lemma EmptyIsValid<K(!new), V>(t: Table<K, V>)
    requires CmpIsEquality(t.cmp) && t.level <= MaxLevel && t.count == 0
    requires t.buckets == EmptyBuckets(BucketCount(t.level))
    ensures Valid(t) && Contents(t) == map[]
  {
    assert Placed(t.buckets, t.hash) && ChainsDistinct(t.buckets);
  }

  /** Inside a valid table, `k` is mapped exactly as its home chain maps it. */
  lemma ContentsByBucket<K(!new), V>(t: Table<K, V>, k: K)
    requires Valid(t)
    ensures k in Contents(t) <==> k in MapOf(t.buckets[Home(t, k)])
    ensures k in Contents(t) ==> Contents(t)[k] == MapOf(t.buckets[Home(t, k)])[k]
  {
    var bs := t.buckets;
    var c := bs[Home(t, k)];
    PlacedApart(bs, t.hash);
    FlattenDistinct(bs);
    MapOfGraph(Flatten(bs));
    MapOfGraph(c);
    if k in Contents(t) {
      var e := Entry(k, Contents(t)[k]);
      FlattenMember(bs, e);
      var i :| 0 <= i < |bs| && e in bs[i];
      var x :| 0 <= x < |bs[i]| && bs[i][x] == e;
      assert i == Home(t, k);
    }
    if k in MapOf(c) {
      FlattenMember(bs, Entry(k, MapOf(c)[k]));
    }
  }

  /** `n_nodes` counts the distinct keys of a valid table. */
  lemma CountIsSize<K(!new), V>(t: Table<K, V>)
    requires Valid(t)
    ensures t.count == |Contents(t)|
  {
    PlacedApart(t.buckets, t.hash);
    FlattenDistinct(t.buckets);
    MapOfSize(Entries(t));
  }

  /** Replacing `k`'s home chain by one that still holds only home keys, without duplicates,
      keeps the invariant once the count follows the chain's length. */
  lemma SwapChain<K(!new), V>(t: Table<K, V>, k: K, c': seq<Entry<K, V>>, t': Table<K, V>)
    requires Valid(t)
    requires DistinctKeys(c')
    requires forall x :: 0 <= x < |c'| ==> Home(t, c'[x].key) == Home(t, k)
    requires t' == t.(count := t'.count, buckets := t.buckets[Home(t, k) := c'])
    requires t'.count + |t.buckets[Home(t, k)]| == t.count + |c'|
    ensures Valid(t')
  {
    var i := Home(t, k);
    FlattenUpdate(t.buckets, i, c');
    forall j, x | 0 <= j < |t'.buckets| && 0 <= x < |t'.buckets[j]|
      ensures t.hash(t'.buckets[j][x].key) % |t'.buckets| == j
    {
      if j != i {
        assert t'.buckets[j] == t.buckets[j];
      }
    }
  }

  /** After such a swap a key of the swapped bucket is mapped as the new chain maps it, and a
      key of any other bucket keeps its mapping. */
  lemma SwapLookup<K(!new), V>(t: Table<K, V>, k: K, c': seq<Entry<K, V>>, t': Table<K, V>, x: K)
    requires Valid(t) && Valid(t')
    requires t' == t.(count := t'.count, buckets := t.buckets[Home(t, k) := c'])
    ensures Home(t, x) == Home(t, k) ==> (x in Contents(t') <==> x in MapOf(c'))
    ensures Home(t, x) == Home(t, k) && x in Contents(t') ==> Contents(t')[x] == MapOf(c')[x]
    ensures Home(t, x) != Home(t, k) ==> (x in Contents(t') <==> x in Contents(t))
    ensures Home(t, x) != Home(t, k) && x in Contents(t') ==> Contents(t')[x] == Contents(t)[x]
  {
    ContentsByBucket(t, x);
    ContentsByBucket(t', x);
    assert Home(t', x) == Home(t, x);
  }

  /** The chain-level insert-or-replace, installed in the table, keeps the invariant and
      updates the map at `k`. */
  lemma PutKeeps<K(!new), V>(t: Table<K, V>, k: K, v: V)
    requires Valid(t)
    ensures var c := t.buckets[Home(t, k)];
      var t' := t.(count := if k in MapOf(c) then t.count else t.count + 1,
                   buckets := t.buckets[Home(t, k) := Put(c, k, v, t.cmp)]);
      Valid(t') && Contents(t') == Contents(t)[k := v]
  {
    var i := Home(t, k);
    var c := t.buckets[i];
    var c' := Put(c, k, v, t.cmp);
    var t' := t.(count := if k in MapOf(c) then t.count else t.count + 1, buckets := t.buckets[i := c']);
    forall x | 0 <= x < |c'| ensures Home(t, c'[x].key) == i {
      if c'[x] != Entry(k, v) {
        var y :| 0 <= y < |c| && c[y] == c'[x];
      }
    }
    SwapChain(t, k, c', t');
    ContentsByBucket(t, k);
    var m, m' := Contents(t)[k := v], Contents(t');
    forall x | true ensures (x in m' <==> x in m) && (x in m' ==> m'[x] == m[x]) {
      SwapLookup(t, k, c', t', x);
      ContentsByBucket(t, x);
    }
    assert m' == m;
  }

  /** The chain-level unlink, installed in the table, keeps the invariant and removes `k`
      from the map. */
  lemma RemoveKeeps<K(!new), V>(t: Table<K, V>, k: K)
    requires Valid(t)
    requires k in Contents(t)
    ensures t.count > 0
    ensures var c := t.buckets[Home(t, k)];
      var t' := t.(count := t.count - 1, buckets := t.buckets[Home(t, k) := Remove(c, k, t.cmp)]);
      Valid(t') && Contents(t') == Contents(t) - {k}
  {
    var i := Home(t, k);
    var c := t.buckets[i];
    var c' := Remove(c, k, t.cmp);
    ContentsByBucket(t, k);
    assert |c| > 0;
    FlattenUpdate(t.buckets, i, c');
    var t' := t.(count := t.count - 1, buckets := t.buckets[i := c']);
    forall x | 0 <= x < |c'| ensures Home(t, c'[x].key) == i {
      var y :| 0 <= y < |c| && c[y] == c'[x];
    }
    SwapChain(t, k, c', t');
    var m, m' := Contents(t) - {k}, Contents(t');
    forall x | true ensures (x in m' <==> x in m) && (x in m' ==> m'[x] == m[x]) {
      SwapLookup(t, k, c', t', x);
      ContentsByBucket(t, x);
    }
    assert m' == m;
  }

  /** A table inside the density band stays inside it through `ht_set`, whether the key is new
      (one more entry, one resize step) or replaced (nothing moves). */
  lemma SetKeepsBand<K(!new), V>(t: Table<K, V>, k: K, v: V)
    requires Valid(t) && InBand(t.count, t.level)
    ensures var r := Set(Some(t), k, v, true, true);
      r.Success? && InBand(r.value.table.count, r.value.table.level)
  {
    var t' := Set(Some(t), k, v, true, true).value.table;
    CountIsSize(t);
    CountIsSize(t');
    if k in Contents(t) {
      assert Contents(t') == Contents(t)[k := v];
      assert Contents(t').Keys == Contents(t).Keys;
    } else {
      assert Contents(t').Keys == Contents(t).Keys + {k};
      InsertKeepsBand(t.count, t.level);
    }
  }

  /** `ht_take` keeps a table inside the density band. */
  lemma TakeKeepsBand<K(!new), V>(t: Table<K, V>, k: K)
    requires Valid(t) && InBand(t.count, t.level)
    ensures var r := Take(t, k, true);
      InBand(r.table.count, r.table.level)
  {
    var t' := Take(t, k, true).table;
    if k in Contents(t) {
      RemovedCount(t, t', k);
      RemoveKeepsBand(t.count, t.level);
    }
  }

  /** `ht_delete` keeps a table inside the density band. */
  lemma DeleteKeepsBand<K(!new), V>(t: Table<K, V>, k: K)
    requires Valid(t) && InBand(t.count, t.level)
    ensures var r := Delete(t, k, true);
      InBand(r.table.count, r.table.level)
  {
    var t' := Delete(t, k, true).table;
    if k in Contents(t) {
      RemovedCount(t, t', k);
      RemoveKeepsBand(t.count, t.level);
    }
  }

  /** Removing a present key from a valid table leaves one entry fewer. */
  lemma RemovedCount<K(!new), V>(t: Table<K, V>, t': Table<K, V>, k: K)
    requires Valid(t) && Valid(t')
    requires k in Contents(t) && Contents(t') == Contents(t) - {k}
    ensures t'.count == t.count - 1 && t.count > 0
  {
    CountIsSize(t);
    CountIsSize(t');
    assert Contents(t).Keys == Contents(t').Keys + {k};
  }
}

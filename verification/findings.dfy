/**
  Four slips in hashtable.c, each modelled as written beside a concrete input that exposes
  it. The rest of the model follows the evident intent: `Chains.Put` keeps the chain's tail,
  `HashTable.Take` and `HashTable.Delete` release the node they unlink and drop the count,
  every release goes through the table's own policy, and `HashTable.Alloc` fails without
  side effects.
*/
module Findings {
  import opened Wrappers
  import opened Ownership
  import opened Chains
  import opened Arith
  import HashTable
  import IntKeys

  /** The examples below key a chain by integers, compared with `ht_int_cmp`. */
  const One: Word := 1
  const Two: Word := 2

  // ---------------------------------------------------------------- replace drops the tail

  /** `ht_set` on a chain as written: a new key goes at the end, but a replacement node comes
      from `calloc` with a null `next` (hashtable.c:162, 181-182), so the chain stops there. */
  function PutAsWritten<K, V>(c: seq<Entry<K, V>>, k: K, v: V, cmp: (K, K) -> int): (c': seq<Entry<K, V>>)
    ensures Locate(c, k, cmp) < |c| ==> |c'| == Locate(c, k, cmp) + 1 && c'[|c'| - 1] == Entry(k, v)
    ensures Locate(c, k, cmp) + 1 < |c| ==> |c'| < |c|
  {
    var j := Locate(c, k, cmp);
    if j < |c| then c[..j] + [Entry(k, v)] else c + [Entry(k, v)]
  }

  /** Replacing the head of a two-node chain loses the second key as written, while the
      corrected `Chains.Put` keeps it. */
  lemma PutAsWrittenDropsTail()
    ensures var c := [Entry(One, 'a'), Entry(Two, 'b')];
      && 2 !in MapOf(PutAsWritten(c, 1, 'c', IntKeys.IntCmp))
      && MapOf(Put(c, 1, 'c', IntKeys.IntCmp)) == map[1 := 'c', 2 := 'b']
  {
    IntKeys.IntCmpIsEquality();
    var c := [Entry(One, 'a'), Entry(Two, 'b')];
    assert Locate(c, 1, IntKeys.IntCmp) == 0;
    assert PutAsWritten(c, 1, 'c', IntKeys.IntCmp) == [Entry(One, 'c')];
    assert c[1..] == [Entry(Two, 'b')];
    assert MapOf(c[1..]) == map[Two := 'b'];
    assert MapOf(c) == map[1 := 'a', 2 := 'b'];
  }

  // ---------------------------------------------------------------- take/delete release the successor

  /** What `ht_delete` leaves: the chain after the unlink, the node count, and the node its
      cleanup released. */
  datatype Unlinked<K, V> = Unlinked(chain: seq<Entry<K, V>>, count: nat, released: Option<Entry<K, V>>)

  /** `ht_delete` on a chain as written: the matched node is spliced out, then the cleanup runs
      through the updated link (hashtable.c:232-233), so it releases the successor, which stays
      linked, or, when the match was last, releases nothing and leaves the count alone.
      `ht_take` (hashtable.c:220-221) does the same. */
  function DeleteAsWritten<K, V>(c: seq<Entry<K, V>>, k: K, cmp: (K, K) -> int, count: nat): (r: Unlinked<K, V>)
    ensures Locate(c, k, cmp) < |c| ==> |r.chain| == |c| - 1
    ensures Locate(c, k, cmp) + 1 < |c| ==>
      r.released == Some(c[Locate(c, k, cmp) + 1]) && r.released.value in r.chain
    ensures Locate(c, k, cmp) + 1 == |c| ==> r.released.None? && r.count == count
  {
    var j := Locate(c, k, cmp);
    if j == |c| then Unlinked(c, count, None)
    else
      var spliced := c[..j] + c[j + 1..];
      if j + 1 < |c| then
        assert spliced[j] == c[j + 1];
        Unlinked(spliced, if count > 0 then count - 1 else 0, Some(c[j + 1]))
      else Unlinked(spliced, count, None)
  }

  /** Deleting the only node of a chain as written empties the chain but keeps counting the
      node; the corrected `Chains.Remove` gives the empty chain too, and `HashTable.Delete`
      drops the count (`DeleteDropsCount`). */
  lemma DeleteAsWrittenMiscounts()
    ensures var r := DeleteAsWritten([Entry(One, 'a')], 1, IntKeys.IntCmp, 1);
      r.chain == [] && r.count == 1 && r.released.None?
    ensures Remove([Entry(One, 'a')], 1, IntKeys.IntCmp) == []
  {
    IntKeys.IntCmpIsEquality();
    assert Locate([Entry(One, 'a')], 1, IntKeys.IntCmp) == 0;
  }

  /** Deleting the head of a two-node chain as written releases the second node, which stays
      in the chain. */
  lemma DeleteAsWrittenReleasesSuccessor()
    ensures var r := DeleteAsWritten([Entry(One, 'a'), Entry(Two, 'b')], 1, IntKeys.IntCmp, 2);
      r.chain == [Entry(Two, 'b')] && r.released == Some(Entry(Two, 'b'))
  {
    assert Locate([Entry(One, 'a'), Entry(Two, 'b')], 1, IntKeys.IntCmp) == 0;
  }

  /** Corrected: deleting a present key releases exactly that key and its value and leaves
      one entry fewer. */
  lemma DeleteDropsCount<K(!new), V>(t: HashTable.Table<K, V>, k: K, resizeOk: bool)
    requires HashTable.Valid(t) && k in HashTable.Contents(t)
    ensures var r := HashTable.Delete(t, k, resizeOk);
      && r.table.count == t.count - 1
      && r.log == [ReleaseKey(k, ReleaseModeOf(t.keyPolicy)), ReleaseValue(HashTable.Contents(t)[k], ReleaseModeOf(t.valuePolicy))]
  {
    var r := HashTable.Delete(t, k, resizeOk);
    HashTable.RemovedCount(t, r.table, k);
  }

  // ---------------------------------------------------------------- owner never set

  /** A node as `_new_node` builds it: the `owner` link comes zeroed from `calloc` and is never
      assigned (hashtable.c:19, 162). */
  datatype Node<K, V> = Node(owner: Option<(Policy, Policy)>, entry: Entry<K, V>)

  function NewNodeAsWritten<K, V>(k: K, v: V): (n: Node<K, V>)
    ensures n.entry == Entry(k, v) && n.owner.None?
  {
    Node(None, Entry(k, v))
  }

  /** `_cleanup_node_util` as written reads both policies through `owner` (hashtable.c:76-88):
      with no owner that is a NULL dereference (`None`); otherwise the key, then unless
      skipped the value, is released per policy. */
  function ReleaseAsWritten<K, V>(n: Node<K, V>, skipValue: bool): (r: Option<seq<Event<K, V>>>)
    ensures r.None? <==> n.owner.None?
    ensures r.Some? ==> |r.value| == (if skipValue then 1 else 2)
  {
    match n.owner
    case None => None
    case Some((kp, vp)) =>
      Some([ReleaseKey(n.entry.key, ReleaseModeOf(kp))] +
           (if skipValue then [] else [ReleaseValue(n.entry.value, ReleaseModeOf(vp))]))
  }

  /** Every node the table creates faults when it is itself released, so the first replace of
      a present key, and the first purge of a non-empty table, dereference NULL. `ht_take` and
      `ht_delete` release through the advanced link (`DeleteAsWritten`): they fault when the
      removed node has a successor, and release nothing when it is last in its chain. */
  lemma EveryReleaseFaults<K, V>(k: K, v: V, skipValue: bool)
    ensures ReleaseAsWritten(NewNodeAsWritten(k, v), skipValue).None?
  {
  }

  /** Corrected: with the table's policy passed to the release, replacing a key releases the
      old key and value through that policy. */
  lemma ReplaceReleasesThroughTable<K(!new), V>(t: HashTable.Table<K, V>, k: K, v: V, resizeOk: bool)
    requires HashTable.Valid(t) && k in HashTable.Contents(t)
    ensures var r := HashTable.Set(Some(t), k, v, true, resizeOk);
      && r.Success?
      && r.value.log[2..] == [ReleaseKey(k, ReleaseModeOf(t.keyPolicy)),
                              ReleaseValue(HashTable.Contents(t)[k], ReleaseModeOf(t.valuePolicy))]
  {
  }

  // ---------------------------------------------------------------- allocation cleanup

  /** What the `CLEANUP(ht_free)` on `ht_alloc`'s `tmp` does when the function returns:
      nothing, read an uninitialised pointer (`tmp` is declared without a value), or purge a
      zeroed table whose bucket array is NULL. */
  datatype Cleanup = Nothing | ReadsUninitialised | PurgesNullBuckets

  /** `ht_alloc` as written (hashtable.c:52-68): the error, if any, and what the cleanup of
      `tmp` then does. `tableOk` and `bucketsOk` are the outcomes of the two `calloc`s. A
      rejected argument returns before `tmp` is assigned; a failed table `calloc` leaves it
      NULL, which `ht_free` skips; a failed bucket `calloc` leaves a zeroed table at level 0,
      which `ht_purge` walks through its NULL `nodes` for all `_primes[0]` buckets. */
  function AllocAsWritten(dst: bool, functionsGiven: bool, tableOk: bool, bucketsOk: bool)
    : (r: (Option<HashTable.Error>, Cleanup))
    ensures r.0.None? <==> dst && functionsGiven && tableOk && bucketsOk
    ensures r.1 == ReadsUninitialised <==> !dst || !functionsGiven
    ensures r.1 == PurgesNullBuckets <==> dst && functionsGiven && tableOk && !bucketsOk
  {
    if !dst || !functionsGiven then (Some(HashTable.InvalidArgument), ReadsUninitialised)
    else if !tableOk then (Some(HashTable.AllocationFailure), Nothing)
    else if !bucketsOk then (Some(HashTable.AllocationFailure), PurgesNullBuckets)
    else (None, Nothing)
  }

  /** A failed bucket allocation crashes in the cleanup as written, and a NULL destination
      reads an uninitialised pointer, while the corrected `HashTable.Alloc` reports both
      failures without side effects. */
  lemma AllocFailureFaults<K(!new), V>(hash: K -> nat, cmp: (K, K) -> int, kp: Policy, vp: Policy)
    requires CmpIsEquality(cmp)
    ensures AllocAsWritten(true, true, true, false).1 == PurgesNullBuckets
    ensures AllocAsWritten(false, true, true, true).1 == ReadsUninitialised
    ensures HashTable.Alloc<K, V>(true, Some(hash), Some(cmp), kp, vp, false) == Failure(HashTable.AllocationFailure)
    ensures HashTable.Alloc<K, V>(false, Some(hash), Some(cmp), kp, vp, true) == Failure(HashTable.InvalidArgument)
  {
  }
}

/**
  `ht_foreach` (hashtable.c:239-255): a callback walk over every entry in traversal order
  that stops at the first callback returning 0 and aborts on a callback error.
*/
module Traversal {
  import opened Wrappers
  import opened Chains
  import opened Buckets
  import opened HashTable

  /** How a walk ends: every entry visited, stopped by a 0 from the callback, aborted by a
      callback error, or refused because the table handle is NULL. */
  datatype Walk = Completed | Stopped | Failed | Rejected

  /** The callback asked to go on. A negative return is the callback's error signal, 0 asks to stop. */
  predicate Continues<K, V>(body: (K, V) -> int, e: Entry<K, V>) {
    body(e.key, e.value) > 0
  }

  /** Walks the table, calling `body` on each key and value, buckets in index order and each
      chain from head to tail; `calls` is the number of callbacks made. The callback is a pure
      function of the key and value: it cannot change the table. The source reads the visited
      node's `next` only after the callback returns (hashtable.c:251), so a callback that
      deleted that node would make the walk read freed memory. */
  method ForEach<K(==,!new), V>(h: Option<Table<K, V>>, body: (K, V) -> int) returns (w: Walk, calls: nat)
    requires h.Some? ==> Valid(h.value)
    ensures h.None? ==> w == Rejected && calls == 0
    ensures h.Some? ==> w != Rejected && calls <= |Entries(h.value)|
    ensures h.Some? ==> forall x :: 0 <= x < calls - 1 ==> Continues(body, Entries(h.value)[x])
    ensures h.Some? && w == Completed ==>
      && calls == |Entries(h.value)| == h.value.count
      && forall x :: 0 <= x < calls ==> Continues(body, Entries(h.value)[x])
    ensures h.Some? && w == Stopped ==> 0 < calls && body(Entries(h.value)[calls - 1].key, Entries(h.value)[calls - 1].value) == 0
    ensures h.Some? && w == Failed ==> 0 < calls && body(Entries(h.value)[calls - 1].key, Entries(h.value)[calls - 1].value) < 0
    ensures h.Some? && (forall x :: 0 <= x < |Entries(h.value)| ==> Continues(body, Entries(h.value)[x])) ==> w == Completed
  {
    if h.None? {
      return Rejected, 0;
    }
    w, calls := WalkBuckets(h.value.buckets, body);
  }

  /** The walk itself, over the bucket array in index order; `calls` callbacks were made, all
      but the last of which asked to go on. */
  method WalkBuckets<K, V>(bs: seq<seq<Entry<K, V>>>, body: (K, V) -> int) returns (w: Walk, calls: nat)
    ensures w != Rejected && calls <= |Flatten(bs)|
    ensures forall x :: 0 <= x < calls - 1 ==> Continues(body, Flatten(bs)[x])
    ensures w == Completed ==> calls == |Flatten(bs)| && forall x :: 0 <= x < calls ==> Continues(body, Flatten(bs)[x])
    ensures w == Stopped ==> 0 < calls && body(Flatten(bs)[calls - 1].key, Flatten(bs)[calls - 1].value) == 0
    ensures w == Failed ==> 0 < calls && body(Flatten(bs)[calls - 1].key, Flatten(bs)[calls - 1].value) < 0
    ensures (forall x :: 0 <= x < |Flatten(bs)| ==> Continues(body, Flatten(bs)[x])) ==> w == Completed
  {
    ghost var es := Flatten(bs);
    calls := 0;
    var i := 0;
    while i < |bs|
      invariant 0 <= i <= |bs|
      invariant calls == |Flatten(bs[..i])| <= |es|
      invariant forall x :: 0 <= x < calls ==> Continues(body, es[x])
    {
      var c := bs[i];
      var j := 0;
      while j < |c|
        invariant 0 <= j <= |c|
        invariant calls == |Flatten(bs[..i])| + j <= |es|
        invariant forall x :: 0 <= x < calls ==> Continues(body, es[x])
      {
        var ret := body(c[j].key, c[j].value);
        Position(bs, i, j);
        calls := calls + 1;
        if ret < 0 {
          return Failed, calls;
        }
        if ret == 0 {
          return Stopped, calls;
        }
        j := j + 1;
      }
      FlattenSnoc(bs, i);
      i := i + 1;
    }
    assert bs[..|bs|] == bs;
    return Completed, calls;
  }

  /** The `j`-th entry of bucket `i` comes right after every entry of the earlier buckets and
      the `j` entries ahead of it in its chain. */
  lemma Position<K, V>(bs: seq<seq<Entry<K, V>>>, i: nat, j: nat)
    requires i < |bs| && j < |bs[i]|
    ensures var n := |Flatten(bs[..i])| + j;
      n < |Flatten(bs)| && Flatten(bs)[n] == bs[i][j]
  {
    FlattenSplit(bs, i);
    assert bs[i..][1..] == bs[i + 1..];
    assert Flatten(bs[i..]) == bs[i] + Flatten(bs[i + 1..]);
    assert bs[i] == bs[i][..j] + bs[i][j..];
  }
}

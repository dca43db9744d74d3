/**
  The bucket array of the hash table: chains indexed by `hash(key) mod bucket count`,
  their concatenation in traversal order, and the relinking step of a resize
  (hashtable.c `_adjust_by_density`, the loop at lines 145-153).
*/
module Buckets {
  import opened Chains

  /** All entries of a bucket array in traversal order: buckets by ascending index,
      each chain from head to tail. */
  function Flatten<K, V>(bs: seq<seq<Entry<K, V>>>): seq<Entry<K, V>> {
    if |bs| == 0 then [] else bs[0] + Flatten(bs[1..])
  }

  /** Every entry sits in bucket `hash(key) mod |bs|`. */
  predicate Placed<K, V>(bs: seq<seq<Entry<K, V>>>, hash: K -> nat) {
    |bs| > 0 &&
    forall i, x :: 0 <= i < |bs| && 0 <= x < |bs[i]| ==> hash(bs[i][x].key) % |bs| == i
  }

  /** Every chain is free of duplicate keys. */
  predicate ChainsDistinct<K(==), V>(bs: seq<seq<Entry<K, V>>>) {
    forall i :: 0 <= i < |bs| ==> DistinctKeys(bs[i])
  }

  /** No key occurs in two different buckets. */
  predicate BucketsApart<K(==), V>(bs: seq<seq<Entry<K, V>>>) {
    forall i, j, x, y ::
      0 <= i < |bs| && 0 <= j < |bs| && i != j && 0 <= x < |bs[i]| && 0 <= y < |bs[j]| ==>
        bs[i][x].key != bs[j][y].key
  }

  /** No key of the bucket array occurs in `es`. */
  predicate KeysApart<K(==), V>(bs: seq<seq<Entry<K, V>>>, es: seq<Entry<K, V>>) {
    forall i, x, y :: 0 <= i < |bs| && 0 <= x < |bs[i]| && 0 <= y < |es| ==> bs[i][x].key != es[y].key
  }

  /** An array of `n` empty buckets: the `calloc` of a fresh bucket array. */
  function EmptyBuckets<K, V>(n: nat): (bs: seq<seq<Entry<K, V>>>)
    ensures |bs| == n
    ensures Flatten(bs) == []
    ensures forall i :: 0 <= i < n ==> bs[i] == []
  {
    if n == 0 then [] else [[]] + EmptyBuckets(n - 1)
  }

  /** Relinks every entry of `es`, in order, at the head of bucket `hash(key) mod |nb|`,
      as the resize loop does with each node it pops from the old array. Nothing is
      copied or dropped, and a duplicate-free input yields duplicate-free chains. */
  function MoveEntries<K(==), V>(es: seq<Entry<K, V>>, nb: seq<seq<Entry<K, V>>>, hash: K -> nat): (r: seq<seq<Entry<K, V>>>)
    requires |nb| > 0
    ensures |r| == |nb|
    ensures multiset(Flatten(r)) == multiset(Flatten(nb)) + multiset(es)
    ensures Placed(nb, hash) ==> Placed(r, hash)
    ensures ChainsDistinct(nb) && DistinctKeys(es) && KeysApart(nb, es) ==> ChainsDistinct(r)
    decreases |es|
  {
    if |es| == 0 then nb
    else
      var h := hash(es[0].key) % |nb|;
      var nb' := nb[h := [es[0]] + nb[h]];
      MoveStep(es, nb, hash);
      PrependPlaced(nb, h, es[0], hash);
      PrependDistinct(es, nb, h);
      MoveEntries(es[1..], nb', hash)
  }

  /** One relinking step moves an entry from the input into the array. */
  lemma MoveStep<K, V>(es: seq<Entry<K, V>>, nb: seq<seq<Entry<K, V>>>, hash: K -> nat)
    requires |nb| > 0 && |es| > 0
    ensures var nb' := nb[hash(es[0].key) % |nb| := [es[0]] + nb[hash(es[0].key) % |nb|]];
      multiset(Flatten(nb')) + multiset(es[1..]) == multiset(Flatten(nb)) + multiset(es)
  {
    var h := hash(es[0].key) % |nb|;
    var c := [es[0]] + nb[h];
    FlattenUpdate(nb, h, c);
    assert multiset(c) == multiset{es[0]} + multiset(nb[h]);
    MultisetCancel(multiset(Flatten(nb[h := c])), multiset(Flatten(nb)) + multiset{es[0]}, multiset(nb[h]));
    assert es == [es[0]] + es[1..];
    assert multiset(es) == multiset{es[0]} + multiset(es[1..]);
  }

  /** Prepending an entry to its home bucket keeps every entry at home. */
  lemma PrependPlaced<K, V>(nb: seq<seq<Entry<K, V>>>, h: nat, e: Entry<K, V>, hash: K -> nat)
    requires |nb| > 0 && h == hash(e.key) % |nb|
    ensures Placed(nb, hash) ==> Placed(nb[h := [e] + nb[h]], hash)
  {
    if Placed(nb, hash) {
      var nb': seq<seq<Entry<K, V>>> := nb[h := [e] + nb[h]];
      forall i, x | 0 <= i < |nb'| && 0 <= x < |nb'[i]| ensures hash(nb'[i][x].key) % |nb'| == i {
        if i == h && x > 0 {
          assert nb'[i][x] == nb[h][x - 1];
        }
      }
    }
  }

  /** Moving the first pending entry whose key is in neither the array nor the rest of the
      input keeps the chains duplicate-free and the pending keys apart. */
  lemma PrependDistinct<K, V>(es: seq<Entry<K, V>>, nb: seq<seq<Entry<K, V>>>, h: nat)
    requires |es| > 0 && h < |nb|
    ensures ChainsDistinct(nb) && DistinctKeys(es) && KeysApart(nb, es) ==>
      && ChainsDistinct(nb[h := [es[0]] + nb[h]])
      && DistinctKeys(es[1..])
      && KeysApart(nb[h := [es[0]] + nb[h]], es[1..])
  {
    if ChainsDistinct(nb) && DistinctKeys(es) && KeysApart(nb, es) {
      var c: seq<Entry<K, V>> := [es[0]] + nb[h];
      var nb': seq<seq<Entry<K, V>>> := nb[h := c];
      assert DistinctKeys(c) by {
        forall x, y | 0 <= x < y < |c| ensures c[x].key != c[y].key {
          assert c[y] == nb[h][y - 1];
          if x > 0 {
            assert c[x] == nb[h][x - 1];
          }
        }
      }
      var rest: seq<Entry<K, V>> := es[1..];
      forall x, y | 0 <= x < y < |rest| ensures rest[x].key != rest[y].key {
        assert rest[x] == es[x + 1] && rest[y] == es[y + 1];
      }
      forall i, x, y | 0 <= i < |nb'| && 0 <= x < |nb'[i]| && 0 <= y < |rest|
        ensures nb'[i][x].key != rest[y].key
      {
        assert rest[y] == es[y + 1];
        if i == h && x > 0 {
          assert nb'[i][x] == nb[h][x - 1];
        }
      }
    }
  }

  /** An entry is in the flattened array exactly when it is in one of the buckets. */
  lemma {:induction false} FlattenMember<K, V>(bs: seq<seq<Entry<K, V>>>, e: Entry<K, V>)
    ensures e in Flatten(bs) <==> exists i :: 0 <= i < |bs| && e in bs[i]
  {
    if |bs| > 0 {
      FlattenMember(bs[1..], e);
      if e in Flatten(bs[1..]) {
        var i :| 0 <= i < |bs[1..]| && e in bs[1..][i];
        assert e in bs[i + 1];
      }
      if exists i :: 0 <= i < |bs| && e in bs[i] {
        var i :| 0 <= i < |bs| && e in bs[i];
        if i > 0 {
          assert e in bs[1..][i - 1];
        }
      }
    }
  }

  /** Flattening distributes over concatenation of bucket arrays. */
  lemma {:induction false} FlattenAppend<K, V>(a: seq<seq<Entry<K, V>>>, b: seq<seq<Entry<K, V>>>)
    ensures Flatten(a + b) == Flatten(a) + Flatten(b)
  {
    if |a| > 0 {
      assert (a + b)[1..] == a[1..] + b;
      FlattenAppend(a[1..], b);
    } else {
      assert a + b == b;
    }
  }

  /** The entries before bucket `i + 1` are those before bucket `i` followed by bucket `i`. */
  lemma FlattenSnoc<K, V>(bs: seq<seq<Entry<K, V>>>, i: nat)
    requires i < |bs|
    ensures Flatten(bs[..i + 1]) == Flatten(bs[..i]) + bs[i]
  {
    assert bs[..i + 1] == bs[..i] + [bs[i]];
    FlattenAppend(bs[..i], [bs[i]]);
    assert Flatten([bs[i]]) == bs[i] + Flatten([bs[i]][1..]);
  }

  /** The traversal order splits at any bucket boundary. */
  lemma FlattenSplit<K, V>(bs: seq<seq<Entry<K, V>>>, i: nat)
    requires i <= |bs|
    ensures Flatten(bs) == Flatten(bs[..i]) + Flatten(bs[i..])
  {
    assert bs == bs[..i] + bs[i..];
    FlattenAppend(bs[..i], bs[i..]);
  }

  /** Replacing bucket `i` by `c` trades the entries of `bs[i]` for those of `c`. */
  lemma FlattenUpdate<K, V>(bs: seq<seq<Entry<K, V>>>, i: nat, c: seq<Entry<K, V>>)
    requires i < |bs|
    ensures multiset(Flatten(bs[i := c])) + multiset(bs[i]) == multiset(Flatten(bs)) + multiset(c)
    ensures |Flatten(bs[i := c])| + |bs[i]| == |Flatten(bs)| + |c|
  {
    var pre, post := bs[..i], bs[i + 1..];
    assert bs == pre + [bs[i]] + post;
    assert bs[i := c] == pre + [c] + post;
    FlattenAppend(pre + [bs[i]], post);
    FlattenAppend(pre, [bs[i]]);
    FlattenAppend(pre + [c], post);
    FlattenAppend(pre, [c]);
    assert Flatten([bs[i]]) == bs[i] + Flatten([bs[i]][1..]);
    assert Flatten([c]) == c + Flatten([c][1..]);
    assert |multiset(Flatten(bs[i := c]))| == |Flatten(bs[i := c])|;
  }

  /** Placement keeps different buckets' keys apart. */
  lemma PlacedApart<K, V>(bs: seq<seq<Entry<K, V>>>, hash: K -> nat)
    requires Placed(bs, hash)
    ensures BucketsApart(bs)
  {
  }

  /** Duplicate-free chains whose keys are apart flatten to a duplicate-free sequence. */
  lemma {:induction false} FlattenDistinct<K, V>(bs: seq<seq<Entry<K, V>>>)
    requires ChainsDistinct(bs) && BucketsApart(bs)
    ensures DistinctKeys(Flatten(bs))
  {
    if |bs| > 0 {
      var rest := bs[1..];
      assert ChainsDistinct(rest) by {
        forall i | 0 <= i < |rest| ensures DistinctKeys(rest[i]) {
          assert rest[i] == bs[i + 1];
        }
      }
      assert BucketsApart(rest) by {
        forall i, j, x, y | 0 <= i < |rest| && 0 <= j < |rest| && i != j && 0 <= x < |rest[i]| && 0 <= y < |rest[j]|
          ensures rest[i][x].key != rest[j][y].key
        {
          assert rest[i] == bs[i + 1] && rest[j] == bs[j + 1];
        }
      }
      FlattenDistinct(rest);
      var a, b := bs[0], Flatten(rest);
      forall x, y | 0 <= x < |a| && 0 <= y < |b| ensures a[x].key != b[y].key {
        FlattenMember(rest, b[y]);
        var j :| 0 <= j < |rest| && b[y] in rest[j];
        var y' :| 0 <= y' < |rest[j]| && rest[j][y'] == b[y];
        assert bs[j + 1][y'] == b[y];
      }
      DistinctConcat(a, b);
    }
  }

  /** Two duplicate-free sequences with no key in common concatenate to a duplicate-free one. */
  lemma DistinctConcat<K, V>(a: seq<Entry<K, V>>, b: seq<Entry<K, V>>)
    requires DistinctKeys(a) && DistinctKeys(b)
    requires forall x, y :: 0 <= x < |a| && 0 <= y < |b| ==> a[x].key != b[y].key
    ensures DistinctKeys(a + b)
  {
    var ab := a + b;
    forall x, y | 0 <= x < y < |ab| ensures ab[x].key != ab[y].key {
      if y < |a| {
        assert ab[x] == a[x] && ab[y] == a[y];
      } else if x >= |a| {
        assert ab[x] == b[x - |a|] && ab[y] == b[y - |a|];
      } else {
        assert ab[x] == a[x] && ab[y] == b[y - |a|];
      }
    }
  }

  /** Multiset addition cancels. */
  lemma MultisetCancel<T>(a: multiset<T>, b: multiset<T>, x: multiset<T>)
    requires a + x == b + x
    ensures a == b
  {
    forall z ensures a[z] == b[z] {
      assert (a + x)[z] == (b + x)[z];
    }
  }
}

/**
  One bucket chain of the hash table: a sequence of entries walked from the head,
  the finite map it denotes, and the chain-level edits behind `ht_set`, `ht_take`
  and `ht_delete` (hashtable.c `_find_node`, `_new_node`).
*/
module Chains {

  /** One node of a chain, without its link (the link is the position in the sequence). */
  datatype Entry<K, V> = Entry(key: K, value: V)

  /** The table's comparator decides key equality: `cmp(a, b) == 0` exactly when `a == b`. */
  ghost predicate CmpIsEquality<K(!new)>(cmp: (K, K) -> int) {
    forall a, b :: cmp(a, b) == 0 <==> a == b
  }

  /** No key occurs twice. */
  predicate DistinctKeys<K(==), V>(c: seq<Entry<K, V>>) {
    forall x, y :: 0 <= x < y < |c| ==> c[x].key != c[y].key
  }

  /** Some entry of `c` carries key `k`. */
  predicate HasKey<K(==), V>(c: seq<Entry<K, V>>, k: K) {
    exists x :: 0 <= x < |c| && c[x].key == k
  }

  /** The finite map a chain denotes. The entry nearest the head wins, as in a walk from the head. */
  function MapOf<K(==), V>(c: seq<Entry<K, V>>): map<K, V> {
    if |c| == 0 then map[] else MapOf(c[1..])[c[0].key := c[0].value]
  }

  /** The walk of `_find_node` over one chain: the position of the first entry whose key
      compares equal to `k`, or `|c|` for the terminating null link. */
  function Locate<K, V>(c: seq<Entry<K, V>>, k: K, cmp: (K, K) -> int): (j: nat)
    ensures j <= |c|
    ensures forall x :: 0 <= x < j ==> cmp(c[x].key, k) != 0
    ensures j < |c| ==> cmp(c[j].key, k) == 0
  {
    if |c| == 0 then 0
    else if cmp(c[0].key, k) == 0 then 0
    else 1 + Locate(c[1..], k, cmp)
  }

  /** Insert-or-replace on one chain, as `ht_set` intends it: a new key is linked at the
      terminating null link (the chain's tail); an existing key's node is replaced in place.
      The source installs the replacement with a null `next` (hashtable.c:181-182), which
      drops the rest of the chain; the model keeps the successors (see `Findings.PutAsWritten`). */
  function Put<K(==,!new), V>(c: seq<Entry<K, V>>, k: K, v: V, cmp: (K, K) -> int): (c': seq<Entry<K, V>>)
    requires CmpIsEquality(cmp)
    ensures MapOf(c') == MapOf(c)[k := v]
    ensures DistinctKeys(c) ==> DistinctKeys(c')
    ensures |c'| == if k in MapOf(c) then |c| else |c| + 1
    ensures forall x :: 0 <= x < |c'| ==> c'[x] == Entry(k, v) || c'[x] in c
  {
    var j := Locate(c, k, cmp);
    LocateAgrees(c, k, cmp);
    if j == |c| then
      AppendNew(c, k, v, cmp);
      c + [Entry(k, v)]
    else
      ReplaceAt(c, k, v, cmp);
      c[j := Entry(k, v)]
  }

  /** Unlinking the node for `k` from one chain (`*head = (*head)->next`). */
  function Remove<K(==,!new), V>(c: seq<Entry<K, V>>, k: K, cmp: (K, K) -> int): (c': seq<Entry<K, V>>)
    requires CmpIsEquality(cmp)
    ensures DistinctKeys(c) ==> MapOf(c') == MapOf(c) - {k}
    ensures DistinctKeys(c) ==> DistinctKeys(c')
    ensures |c'| == if k in MapOf(c) then |c| - 1 else |c|
    ensures forall x :: 0 <= x < |c'| ==> c'[x] in c
  {
    var j := Locate(c, k, cmp);
    LocateAgrees(c, k, cmp);
    if j == |c| then c
    else
      RemoveAt(c, k, cmp);
      c[..j] + c[j + 1..]
  }

  /** The walk finds `k` exactly when the chain's map holds it, and yields the mapped value. */
  lemma {:induction false} LocateAgrees<K(!new), V>(c: seq<Entry<K, V>>, k: K, cmp: (K, K) -> int)
    requires CmpIsEquality(cmp)
    ensures Locate(c, k, cmp) < |c| <==> k in MapOf(c)
    ensures Locate(c, k, cmp) < |c| ==> c[Locate(c, k, cmp)].key == k
    ensures Locate(c, k, cmp) < |c| ==> MapOf(c)[k] == c[Locate(c, k, cmp)].value
  {
    if |c| > 0 && cmp(c[0].key, k) != 0 {
      LocateAgrees(c[1..], k, cmp);
    }
  }

  /** A key is in the chain's map exactly when some entry carries it. */
  lemma {:induction false} MapOfKeys<K, V>(c: seq<Entry<K, V>>)
    ensures forall k :: k in MapOf(c) <==> HasKey(c, k)
  {
    if |c| > 0 {
      MapOfKeys(c[1..]);
      forall k | HasKey(c, k) && k != c[0].key
        ensures HasKey(c[1..], k)
      {
        var x :| 0 <= x < |c| && c[x].key == k;
        assert c[1..][x - 1].key == k;
      }
      forall k | HasKey(c[1..], k)
        ensures HasKey(c, k)
      {
        var x :| 0 <= x < |c[1..]| && c[1..][x].key == k;
        assert c[x + 1].key == k;
      }
    }
  }

  /** With distinct keys, the chain's map is exactly the set of its entries. */
  lemma {:induction false} MapOfGraph<K, V>(c: seq<Entry<K, V>>)
    requires DistinctKeys(c)
    ensures forall k :: k in MapOf(c) ==> Entry(k, MapOf(c)[k]) in c
    ensures forall k, v :: Entry(k, v) in c ==> k in MapOf(c) && MapOf(c)[k] == v
  {
    if |c| > 0 {
      var rest := c[1..];
      assert DistinctKeys(rest) by {
        forall x, y | 0 <= x < y < |rest| ensures rest[x].key != rest[y].key {
          assert rest[x] == c[x + 1] && rest[y] == c[y + 1];
        }
      }
      MapOfGraph(rest);
      assert c == [c[0]] + rest;
      forall k, v | Entry(k, v) in rest
        ensures k != c[0].key
      {
        var y :| 0 <= y < |rest| && rest[y] == Entry(k, v);
        assert c[y + 1] == Entry(k, v);
      }
    }
  }

  /** With distinct keys, the map has one key per entry. */
  lemma {:induction false} MapOfSize<K, V>(c: seq<Entry<K, V>>)
    requires DistinctKeys(c)
    ensures |MapOf(c)| == |c|
  {
    if |c| > 0 {
      var rest := c[1..];
      assert DistinctKeys(rest) by {
        forall x, y | 0 <= x < y < |rest| ensures rest[x].key != rest[y].key {
          assert rest[x] == c[x + 1] && rest[y] == c[y + 1];
        }
      }
      MapOfSize(rest);
      MapOfKeys(rest);
      assert !HasKey(rest, c[0].key) by {
        forall x | 0 <= x < |rest| ensures rest[x].key != c[0].key {
          assert rest[x] == c[x + 1];
        }
      }
    }
  }

  /** Two duplicate-free chains holding the same entries in any order denote the same map. */
  lemma MapOfPermutation<K, V>(a: seq<Entry<K, V>>, b: seq<Entry<K, V>>)
    requires DistinctKeys(a) && DistinctKeys(b)
    requires multiset(a) == multiset(b)
    ensures MapOf(a) == MapOf(b)
  {
    MapOfGraph(a);
    MapOfGraph(b);
    var ma, mb := MapOf(a), MapOf(b);
    forall k | k in ma ensures k in mb && mb[k] == ma[k] {
      var e := Entry(k, ma[k]);
      assert e in a;
      assert e in multiset(a);
      assert e in b;
    }
    forall k | k in mb ensures k in ma {
      var e := Entry(k, mb[k]);
      assert e in b;
      assert e in multiset(b);
      assert e in a;
    }
  }

  lemma {:induction false} AppendNew<K(!new), V>(c: seq<Entry<K, V>>, k: K, v: V, cmp: (K, K) -> int)
    requires CmpIsEquality(cmp)
    requires Locate(c, k, cmp) == |c|
    ensures MapOf(c + [Entry(k, v)]) == MapOf(c)[k := v]
    ensures DistinctKeys(c) ==> DistinctKeys(c + [Entry(k, v)])
  {
    if |c| > 0 {
      assert (c + [Entry(k, v)])[1..] == c[1..] + [Entry(k, v)];
      AppendNew(c[1..], k, v, cmp);
    }
  }

  lemma {:induction false} ReplaceAt<K(!new), V>(c: seq<Entry<K, V>>, k: K, v: V, cmp: (K, K) -> int)
    requires CmpIsEquality(cmp)
    requires Locate(c, k, cmp) < |c|
    ensures MapOf(c[Locate(c, k, cmp) := Entry(k, v)]) == MapOf(c)[k := v]
    ensures DistinctKeys(c) ==> DistinctKeys(c[Locate(c, k, cmp) := Entry(k, v)])
  {
    var j := Locate(c, k, cmp);
    var c' := c[j := Entry(k, v)];
    if j == 0 {
      assert c'[1..] == c[1..];
    } else {
      assert c'[1..] == c[1..][j - 1 := Entry(k, v)];
      ReplaceAt(c[1..], k, v, cmp);
    }
  }

  lemma RemoveAt<K(!new), V>(c: seq<Entry<K, V>>, k: K, cmp: (K, K) -> int)
    requires CmpIsEquality(cmp)
    requires Locate(c, k, cmp) < |c|
    ensures DistinctKeys(c) ==> MapOf(c[..Locate(c, k, cmp)] + c[Locate(c, k, cmp) + 1..]) == MapOf(c) - {k}
    ensures DistinctKeys(c) ==> DistinctKeys(c[..Locate(c, k, cmp)] + c[Locate(c, k, cmp) + 1..])
  {
    if DistinctKeys(c) {
      UnlinkMap(c, Locate(c, k, cmp), k);
      DropKeepsDistinct(c, Locate(c, k, cmp));
    }
  }

  /** The map part of `RemoveAt`, by induction on the position of the unlinked entry. */
  lemma {:induction false} UnlinkMap<K, V>(c: seq<Entry<K, V>>, j: nat, k: K)
    requires j < |c| && c[j].key == k && DistinctKeys(c)
    ensures MapOf(c[..j] + c[j + 1..]) == MapOf(c) - {k}
  {
    var rest := c[1..];
    if j == 0 {
      assert c[..0] + c[1..] == rest;
      UnlinkHead(c, k);
    } else {
      TailDistinct(c);
      assert j - 1 < |rest| && rest[j - 1].key == k && DistinctKeys(rest);
      UnlinkMap(rest, j - 1, k);
      var tail' := rest[..j - 1] + rest[j..];
      var d := c[..j] + c[j + 1..];
      assert d == [c[0]] + tail';
      assert d[0] == c[0] && d[1..] == tail';
      assert MapOf(d) == MapOf(tail')[c[0].key := c[0].value];
      assert c[0].key != k;
      SwapUpdateRemove(MapOf(rest), c[0].key, c[0].value, k);
    }
  }

  /** In a chain without repeated keys, the head's key is not in the rest of the chain. */
  lemma UnlinkHead<K, V>(c: seq<Entry<K, V>>, k: K)
    requires |c| > 0 && c[0].key == k && DistinctKeys(c)
    ensures MapOf(c[1..]) == MapOf(c) - {k}
  {
    var rest := c[1..];
    MapOfKeys(rest);
    assert !HasKey(rest, k) by {
      forall x | 0 <= x < |rest| ensures rest[x].key != k {
        assert rest[x] == c[x + 1];
      }
    }
  }

  /** Removing a key and updating a different one commute. */
  lemma SwapUpdateRemove<K, V>(m: map<K, V>, a: K, v: V, k: K)
    requires a != k
    ensures (m - {k})[a := v] == m[a := v] - {k}
  {
  }

  /** Unlinking the head of a chain without repeated keys leaves none repeated. */
  lemma TailDistinct<K, V>(c: seq<Entry<K, V>>)
    requires |c| > 0 && DistinctKeys(c)
    ensures DistinctKeys(c[1..])
  {
    forall x, y | 0 <= x < y < |c| - 1 ensures c[1..][x].key != c[1..][y].key {
      assert c[1..][x] == c[x + 1] && c[1..][y] == c[y + 1];
    }
  }

  /** Unlinking any one entry of a chain without repeated keys leaves none repeated. */
  lemma DropKeepsDistinct<K, V>(c: seq<Entry<K, V>>, j: nat)
    requires j < |c| && DistinctKeys(c)
    ensures DistinctKeys(c[..j] + c[j + 1..])
  {
    var c' := c[..j] + c[j + 1..];
    forall x, y | 0 <= x < y < |c'| ensures c'[x].key != c'[y].key {
      var x0 := if x < j then x else x + 1;
      var y0 := if y < j then y else y + 1;
      assert c'[x] == c[x0] && c'[y] == c[y0];
    }
  }
}

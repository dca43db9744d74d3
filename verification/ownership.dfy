/**
  The key/value ownership policy of the hash table (hashtable.c `_new_node`,
  `_cleanup_node_util`). Real memory is not modelled: a copy or a release is an
  event in the log an operation returns.
*/
module Ownership {

  /** One side (keys or values) of the policy a table is created with:
      `size` is `key_size`/`value_size`, `copy` and `free` say whether
      `key_copy`/`value_copy` and `key_free`/`value_free` were supplied. */
  datatype Policy = Policy(size: nat, copy: bool, free: bool)

  /** How a key or value is stored when a node is built. */
  datatype StoreMode =
    | Copy            // the custom copy function produces the stored object
    | Inline(n: nat)  // `n` bytes are allocated and byte-copied
    | PassThrough     // the caller's pointer is stored verbatim

  /** How a stored key or value is released when its node is destroyed. */
  datatype ReleaseMode =
    | CustomFree   // the custom free function is called
    | GenericFree  // `free` is called
    | Keep         // nothing is done

  /** The observable ownership traffic of the table. */
  datatype Event<K, V> =
    | CopyKey(key: K, store: StoreMode)
    | CopyValue(value: V, store: StoreMode)
    | ReleaseKey(key: K, release: ReleaseMode)
    | ReleaseValue(value: V, release: ReleaseMode)

  /** Store priority: custom copy, else an inline copy of `size` bytes, else pass-through. */
  function StoreModeOf(p: Policy): (m: StoreMode)
    ensures m == Copy <==> p.copy
    ensures m.Inline? <==> !p.copy && p.size != 0
    ensures m.Inline? ==> m.n == p.size
    ensures m == PassThrough <==> !p.copy && p.size == 0
  {
    if p.copy then Copy
    else if p.size != 0 then Inline(p.size)
    else PassThrough
  }

  /** Release priority: custom free, else `free` when `size != 0`, else nothing. */
  function ReleaseModeOf(p: Policy): (m: ReleaseMode)
    ensures m == CustomFree <==> p.free
    ensures m == GenericFree <==> !p.free && p.size != 0
    ensures m == Keep <==> !p.free && p.size == 0
  {
    if p.free then CustomFree
    else if p.size != 0 then GenericFree
    else Keep
  }

  /** Without custom functions, release mirrors storage: what was allocated inline is freed,
      and what was passed through is never freed. With a custom free function that function
      always runs, whatever the storage mode; a custom copy with neither a free function nor
      a size is never released. */
  lemma ReleaseMirrorsStore(p: Policy)
    ensures !p.copy && !p.free ==> (StoreModeOf(p).Inline? <==> ReleaseModeOf(p) == GenericFree)
    ensures !p.copy && !p.free ==> (StoreModeOf(p) == PassThrough <==> ReleaseModeOf(p) == Keep)
    ensures p.free ==> ReleaseModeOf(p) == CustomFree
    ensures StoreModeOf(p) == PassThrough ==> ReleaseModeOf(p) != GenericFree
    ensures p.copy && !p.free && p.size == 0 ==> ReleaseModeOf(p) == Keep
  {
  }
}

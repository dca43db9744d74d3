# A verified model of the host-side hash table and memory decoders

This project models two parts of the FPGA DNN accelerator host program in Dafny:

- **The generic chained hash table** (`src/global/data-structures/hashtable.c`). A table holds:
  - an ownership policy for keys and one for values (custom copy/free, inline size, or pass-through);
  - a hash function and a comparator;
  - the entry count `n_nodes`;
  - a level that indexes the 27 ascending primes giving the bucket count;
  - the bucket array of chains.

  The model covers:
  - `ht_alloc`, `_find_node`/`ht_get`, `ht_set` (through `_new_node`), `ht_take`, `ht_delete`;
  - density maintenance and rehashing (`_adjust_by_density`);
  - `ht_purge`, `ht_free`, `ht_foreach`, `ht_buckets`, `ht_size`;
  - the integer, string and byte-buffer hash, compare and copy helpers.

  A table is an immutable value. Its buckets are a `seq<seq<Entry>>`, and every copy or release the C code performs is recorded as an event in a log. The table invariant `HashTable.Valid` says:
  - keys are compared by an equality;
  - every entry sits in bucket `hash(key) mod prime(level)`;
  - no key occurs twice;
  - `n_nodes` is the number of chained entries.

  `HashTable.Contents` is the finite map a valid table denotes. Every operation is stated against it.

- **The pure decoding and encoding rules of `src/memory_utils.c`**:
  - `/proc/<pid>/pagemap` entries are decoded as the Linux kernel's pagemap interface defines them: bit 63 means present, bit 62 means swapped, bits 0-54 hold the page frame number. Two functions use this decoding:
    - virtual-to-physical translation (`mu_virt_to_phys`);
    - the contiguity check over a range of pages (`mu_is_continuous`).
  - For the u-dma-buf driver:
    - the sync-word packing and its fixed-width hex rendering (`mu_udmabuf_sync_for_cpu`, `mu_udmabuf_sync_for_device`, `_write_sync_for`);
    - the buffer-id check and attribute sequence of `mu_get_udmabuf`.

The model replaces I/O, allocation and the environment with parameters:
- A failed allocation is a boolean parameter: `allocOk`, `nodeOk` or `resizeOk`.
- A pagemap read is an oracle `read: nat -> Option<U64>`, where `None` means the read failed.
- `sysconf(_SC_PAGE_SIZE)` is a positive parameter `ps`.
- Each sysfs attribute read, attribute write or device open is an `Option`/`bool` outcome supplied by the caller.

Files:
- `wrappers.dfy`: `Option` and `Result`.
- `levels.dfy`: the primes and the density rule.
- `ownership.dfy`: storage and release policies.
- `chains.dfy`: one chain and the map it denotes.
- `buckets.dfy`: the bucket array and rehash relinking.
- `hashtable.dfy`: the table operations.
- `traversal.dfy`: `ht_foreach`.
- `scenarios.dfy`: runs of operations against a reference map.
- `hashing.dfy`: the string and byte-buffer helpers.
- `intkeys.dfy`: the integer helpers.
- `arith.dfy`: the 64-bit word type and arithmetic lemmas.
- `pagemap.dfy`: the pagemap decoding.
- `udmabuf.dfy`: the u-dma-buf sync words.
- `findings.dfy`: the source defects, as written and corrected.

Behaviour of the code that the model keeps, stated directly:
- `ht_set` on an existing key copies the new key and value and then releases the old key and value (hashtable.c:163-183).
- A NULL value is passed to `value_copy` like any other (hashtable.c:172-173).
- There are no `emplace` or `has` operations in the code. `HashTable.Get` returning `None` is the "absent" answer; the code answers NULL, which it also answers for a stored NULL value (see "Left out").
- `ht_foreach` is not safe against a callback that deletes the visited entry. It reads `next` after the callback returns.
- `ht_purge` leaves the level unchanged, so a purged table may fall below the density band. The band lemmas therefore cover set, take and delete only.

## Model

| member | source | states |
|---|---|---|
| Levels.BucketCount | src/global/data-structures/hashtable.c:11-15 | The bucket count of every level is one of the 27 primes, at least 37 and below 2^32. |
| Levels.TargetLevel | src/global/data-structures/hashtable.c:129-141 | The density rule moves at most one level and stays within 0..26. It steps down only when `4n <= p` and steps up only when `n >= 2p`. It stays put exactly when the table is inside the band: density in [0.25, 2.0), except that level 0 may be sparser and level 26 denser. |
| Levels.ShrinkTestIsExact | src/global/data-structures/hashtable.c:9 | The shrink test `n/p <= 0.25`, taken over the reals, is exactly the integer test `4n <= p`. |
| Levels.GrowTestIsExact | src/global/data-structures/hashtable.c:8 | The grow test `n/p >= 2.0`, taken over the reals, is exactly the integer test `n >= 2p`. |
| Levels.InsertKeepsBand | src/global/data-structures/hashtable.c:135-141 | Adding one entry to a table inside the density band and applying the rule leaves it inside the band. |
| Levels.RemoveKeepsBand | src/global/data-structures/hashtable.c:135-141 | Removing one entry from a table inside the band and applying the rule leaves it inside the band. |
| Ownership.StoreModeOf | src/global/data-structures/hashtable.c:163-179 | A custom copy function wins; otherwise a nonzero size means an inline copy of exactly that many bytes; otherwise the caller's pointer is stored. Each mode is chosen exactly under its condition. |
| Ownership.ReleaseModeOf | src/global/data-structures/hashtable.c:76-86 | A custom free function wins; otherwise a nonzero size means `free`; otherwise nothing is released. Each mode is chosen exactly under its condition. |
| Ownership.ReleaseMirrorsStore | src/global/data-structures/hashtable.c:76-86 | Without custom functions, what was allocated inline is freed and pass-through storage is never freed. A custom free function always runs when configured. |
| Chains.Locate | src/global/data-structures/hashtable.c:119-127 | The chain walk stops at the first entry whose key compares equal, or at the terminating null link, and skips only non-matching keys. |
| Chains.LocateAgrees | src/global/data-structures/hashtable.c:123-126 | The walk finds a node exactly when the chain's map holds the key, and that node carries the mapped value. |
| Chains.Put | src/global/data-structures/hashtable.c:159-185 | Insert-or-replace on a chain updates its map at exactly that key, keeps keys distinct, and grows the chain only for a new key. |
| Chains.Remove | src/global/data-structures/hashtable.c:219-220 | Unlinking removes exactly that key from the chain's map, keeps keys distinct, and shortens the chain only when the key was present. |
| Chains.MapOfSize | src/global/data-structures/hashtable.c:262-265 | A chain without repeated keys denotes a map with one key per entry. |
| Chains.MapOfPermutation | src/global/data-structures/hashtable.c:145-153 | Reordering the entries of a duplicate-free chain, as relinking does, does not change the map it denotes. |
| Buckets.MoveEntries | src/global/data-structures/hashtable.c:145-153 | Relinking moves every entry into its new home bucket without copying or dropping any (multiset preserved), and keeps every chain free of duplicates. |
| Buckets.FlattenDistinct | src/global/data-structures/hashtable.c:119-127 | Chains without duplicates whose keys live in different buckets give a traversal with no key twice. |
| HashTable.Alloc | src/global/data-structures/hashtable.c:42-69 | A NULL destination or a missing hash or compare function is rejected as an invalid argument. Otherwise the table is created exactly when allocation succeeds, valid, empty, at level 0 with 37 buckets, and with the given functions and policies. |
| HashTable.Home | src/global/data-structures/hashtable.c:121 | The home bucket `hash(key) mod prime(level)` always indexes inside the bucket array. |
| HashTable.Get | src/global/data-structures/hashtable.c:200-212 | Lookup yields a value exactly when the key is in the table's map, and that value is the mapped one. |
| HashTable.Size | src/global/data-structures/hashtable.c:262-265 | `n_nodes` equals the number of distinct keys the table holds. |
| HashTable.BucketTotal | src/global/data-structures/hashtable.c:257-260 | The bucket count is the length of the bucket array and one of the primes. |
| HashTable.Set | src/global/data-structures/hashtable.c:187-198 | A NULL table is rejected and a failed allocation reported. Otherwise the map is updated at exactly that key and the invariant kept. The result is true exactly for a new key. The key and value are copied per policy, and a replaced key and value are released. The level changes only for a new key. |
| HashTable.SetKeepsBand | src/global/data-structures/hashtable.c:194-196 | When every allocation succeeds, `ht_set` on a table inside the density band succeeds and leaves it inside the band. |
| HashTable.Take | src/global/data-structures/hashtable.c:214-226 | The key leaves the map and the invariant holds. The removed value is returned, with only the key released. An absent key changes nothing and yields nothing. |
| HashTable.TakeKeepsBand | src/global/data-structures/hashtable.c:222 | When the resize allocation succeeds, `ht_take` leaves a table inside the density band inside it. |
| HashTable.Delete | src/global/data-structures/hashtable.c:228-237 | The key leaves the map and the invariant holds. Both the key and the value of the removed entry are released. An absent key changes nothing. |
| HashTable.DeleteKeepsBand | src/global/data-structures/hashtable.c:234 | When the resize allocation succeeds, `ht_delete` leaves a table inside the density band inside it. |
| HashTable.RemovedCount | src/global/data-structures/hashtable.c:88 | Removing a present key from a valid table leaves exactly one entry fewer. |
| HashTable.Releases | src/global/data-structures/hashtable.c:76-86 | Releasing a run of nodes releases each key and then its value, in node order, through the table's policies. |
| HashTable.Purge | src/global/data-structures/hashtable.c:97-108 | The table ends empty with count 0, at the same level and bucket count. Every node is released in traversal order. |
| HashTable.Free | src/global/data-structures/hashtable.c:110-117 | A NULL handle is left alone with no releases. Otherwise every node is released and the caller's handle becomes NULL. |
| HashTable.Adjust | src/global/data-structures/hashtable.c:129-144 | Density maintenance moves to the rule's target level, or stays put when allocation fails. When the density is in band or the allocation fails, the table is returned untouched, chain order included. Otherwise entries, count, map and policies are unchanged. |
| HashTable.Rehash | src/global/data-structures/hashtable.c:142-156 | A resize to a new level keeps the invariant, the count, the map and the multiset of entries. |
| HashTable.EmptyIsValid | src/global/data-structures/hashtable.c:56-57 | A zero-count table with a freshly cleared bucket array of its level's size is valid and denotes the empty map. |
| HashTable.CountIsSize | src/global/data-structures/hashtable.c:37 | In a valid table, `n_nodes` is the number of keys of the denoted map. |
| HashTable.ContentsByBucket | src/global/data-structures/hashtable.c:121-122 | A key's mapping in the table is its mapping in its home chain `hash(key) mod prime`. |
| Traversal.ForEach | src/global/data-structures/hashtable.c:239-255 | A NULL table is rejected. Otherwise entries are visited in bucket order, head to tail, and every callback before the last returned a positive value. A return of 0 stops the walk and a negative return aborts it. A walk completes exactly when every callback continues, and then it has made `n_nodes` calls. |
| Traversal.WalkBuckets | src/global/data-structures/hashtable.c:244-253 | The nested bucket and chain loops make one callback per entry in traversal order and stop at the first callback that does not return a positive value: 0 stops the walk, a negative value fails it, and completing means every callback continued. |
| Scenarios.Run | src/global/data-structures/hashtable.c:187-237 | When every allocation succeeds, any run of set, take and delete calls keeps the invariant and the density band, and the table always denotes the map the same calls build on a plain finite map. |
| Scenarios.EmptyIsSmallest | src/global/data-structures/hashtable.c:135-136 | A table inside the band that holds no key is at level 0 with 37 buckets. |
| Scenarios.DrainedRunReturnsToStart | src/global/data-structures/hashtable.c:129-141 | A freshly allocated table, with any hash, comparator and ownership policies, put through calls that leave no key behind while every allocation succeeds, is back at its first bucket count. |
| Scenarios.ExampleSets | src/global/data-structures/hashtable.c:187-212 | On an empty table, `set(1,'a')` and `set(2,'b')` both report new keys, and `get(1)` is `'a'`. |
| Scenarios.ExampleDelete | src/global/data-structures/hashtable.c:200-237 | Then `delete(1)` leaves key 1 absent and size 1. |
| Hashing.ShiftAddIsTimes33 | src/global/data-structures/hashtable.c:292 | `(h << 5) + h` is `h * 33` in 64-bit arithmetic. |
| Hashing.StrHashScan | src/global/data-structures/hashtable.c:286-295 | The string hash reads up to the first NUL byte and returns djb2 (seed 5381, `h*33 + c`) of exactly the bytes before it. |
| Hashing.ArbHashScan | src/global/data-structures/hashtable.c:320-328 | The buffer hash folds exactly the first `size` bytes with `h*33 xor byte` from seed 5381. |
| Hashing.Lex | src/global/data-structures/hashtable.c:297-300 | Byte-wise comparison gives -1, 0 or 1, and 0 exactly for equal sequences. |
| Hashing.LexAntisymmetric | src/global/data-structures/hashtable.c:297-300 | Swapping the operands negates the comparison. |
| Hashing.LexPrefixFirst | src/global/data-structures/hashtable.c:297-300 | A proper prefix sorts before the longer string. |
| Hashing.StrCmp | src/global/data-structures/hashtable.c:297-300 | On the contents of two C strings (no NUL inside), the string comparator returns 0 exactly for equal strings. |
| Hashing.ArbCmp | src/global/data-structures/hashtable.c:329-332 | The buffer comparator returns 0 exactly when the first `size` bytes agree. |
| Hashing.StrCopy | src/global/data-structures/hashtable.c:302-312 | Copying a NULL key yields NULL and succeeds. Otherwise a failed allocation is reported, and a successful copy is exactly the bytes of the key's buffer before its first NUL. |
| Hashing.FirstNul | src/global/data-structures/hashtable.c:291 | A NUL at `len` with no NUL before it is where the string ends: the scan of `ht_str_hash` and the copy of `strdup` see the same bytes. |
| Hashing.CopyActsAsKey | src/global/data-structures/hashtable.c:286-312 | The copy `ht_str_copy` stores hashes to what `ht_str_hash` computes on the caller's buffer, and `ht_str_cmp` finds it equal to the caller's string. |
| IntKeys.IntHash | src/global/data-structures/hashtable.c:272-279 | The 64-bit mix of `ht_int_hash` loses nothing: `IntUnhash` recovers the key from it. |
| IntKeys.IntHashBijective | src/global/data-structures/hashtable.c:272-279 | The 64-bit mix is a bijection on 64-bit words: `IntUnhash` inverts it on both sides. |
| IntKeys.IntHashInjective | src/global/data-structures/hashtable.c:272-279 | The 64-bit mix never maps two distinct keys to the same word. |
| IntKeys.IntHash32 | src/global/data-structures/hashtable.c:272-279 | Where `size_t` is 32 bits, the returned hash is the low half of the 64-bit mix. |
| IntKeys.IntHash32Collides | src/global/data-structures/hashtable.c:272-279 | The 32-bit hash is not injective: keys 17275 and 153923 get the same hash. |
| IntKeys.IntTableAllocates | src/global/data-structures/hashtable.c:42-69 | A table keyed by integers through `ht_int_hash` and `ht_int_cmp` can be created, and starts empty at level 0. |
| IntKeys.Signed | src/global/data-structures/hashtable.c:281-284 | The `int64_t` reading of a word lies in the signed range and is 0 exactly for the zero word. |
| IntKeys.IntCmp | src/global/data-structures/hashtable.c:281-284 | The integer comparator returns 0 exactly for equal keys. |
| Pagemap.FrameNumber | src/memory_utils.c:47 | The frame number is below 2^55. |
| Pagemap.DecodeEncode | src/memory_utils.c:18-47 | With `IsPresent` (`_PRESENT_IN_RAM`), `IsSwapped` (`_SWAPPED`) and `FrameNumber` (`PFN_MASK`) as the decoders, decoding an entry built from a present bit, a swapped bit, flag bits and a frame number recovers all three fields, and the flags never leak into the frame number. |
| Pagemap.VirtToPhys | src/memory_utils.c:38-51 | A NULL destination, a failed read, a page that is not present, and a swapped page are each rejected, and translation succeeds exactly otherwise. Without 64-bit overflow, the address has the frame number as its page and keeps the virtual offset within the page. |
| Pagemap.Splice | src/memory_utils.c:48 | Without overflow, the physical address splits back into the frame number and the in-page offset. |
| Pagemap.IsContinuous | src/memory_utils.c:53-82 | `a >= b` is rejected before any read. The result is true exactly when the pages of `a` through `b` are mapped to consecutive frames, after reading every one of them. A false answer stops at the first page that fails, and a failed read is propagated after the pages before it passed. When `a` and `b` share a page, the result is true exactly when that page is mapped. |
| Pagemap.FramesAdvance | src/memory_utils.c:61-79 | Over a contiguous run, each page's frame is the first page's frame plus its distance in pages. |
| Pagemap.ContiguousTranslates | src/memory_utils.c:38-82 | When the check holds for `[a, b]` and nothing overflows, every address in between translates, and its physical distance from `a` equals its virtual distance. |
| Udmabuf.SyncWords | src/memory_utils.c:184-203 | The upper word is the offset. The lower word carries `size` with its low four bits cleared, direction 0 (bidirectional) and the enable bit 1. |
| Udmabuf.DecodeLower | src/memory_utils.c:191 | The fields of the lower word do not overlap: size, direction and enable bit decode back separately. |
| Udmabuf.SizeKeptIffAligned | src/memory_utils.c:191 | The size survives packing exactly when it is a multiple of 16. |
| Udmabuf.Hex | src/memory_utils.c:152 | Rendering gives exactly `width` uppercase hex digits. |
| Udmabuf.HexRoundTrip | src/memory_utils.c:152 | Parsing a fixed-width rendering recovers the number modulo 16^width. |
| Udmabuf.RenderSync | src/memory_utils.c:152 | The sync text is 18 characters: `0x` and then 16 uppercase hex digits. |
| Udmabuf.RenderParses | src/memory_utils.c:152 | Parsing the rendered sync text recovers both words. |
| Udmabuf.RenderInjective | src/memory_utils.c:152 | Two word pairs render the same text exactly when they are equal. |
| Udmabuf.GetUdmabuf | src/memory_utils.c:171-182 | An id outside [0, 8) is rejected before any attribute access. Otherwise the accesses are a prefix of size read, physical-address read, sync-mode write and device open. The buffer is produced exactly when all four succeed. |
| Udmabuf.SyncFor | src/memory_utils.c:184-204 | The sync call writes one attribute of the buffer's device, named for the target. The text parses back to the packed sync words, and the call succeeds exactly when the write does. |
| Udmabuf.SyncTargetsDifferOnlyInName | src/memory_utils.c:184-204 | The cpu and device variants write the same text to differently named attributes. |
| Findings.PutAsWritten | src/global/data-structures/hashtable.c:181-182 | Replacing as written leaves the chain ending at the replaced node, so any later nodes are lost. |
| Findings.PutAsWrittenDropsTail | src/global/data-structures/hashtable.c:181-182 | On the chain [1:'a', 2:'b'], replacing key 1 as written loses key 2, while `Chains.Put` keeps it. |
| Findings.DeleteAsWritten | src/global/data-structures/hashtable.c:228-237 | Unlinking then releasing through the updated link releases the successor node, or, for the last node, releases nothing and leaves the count unchanged. |
| Findings.DeleteAsWrittenMiscounts | src/global/data-structures/hashtable.c:232-233 | Deleting the only node as written keeps the count at 1, whereas the chain becomes empty. |
| Findings.DeleteAsWrittenReleasesSuccessor | src/global/data-structures/hashtable.c:232-233 | Deleting key 1 from [1:'a', 2:'b'] as written releases key 2's node. |
| Findings.DeleteDropsCount | src/global/data-structures/hashtable.c:228-237 | The corrected delete of a present key lowers the count by one and releases that key and its value. |
| Findings.NewNodeAsWritten | src/global/data-structures/hashtable.c:161-162 | A node made as written has no owner. |
| Findings.ReleaseAsWritten | src/global/data-structures/hashtable.c:76-88 | Releasing through the node's owner faults exactly when the owner is missing. |
| Findings.EveryReleaseFaults | src/global/data-structures/hashtable.c:159-185 | Every node made by `_new_node` faults when it is itself released: by a replace, a purge, or a take or delete that releases it through the advanced link. |
| Findings.AllocAsWritten | src/global/data-structures/hashtable.c:52-68 | As written, a rejected argument leaves the cleanup reading an uninitialised `tmp`, and a failed bucket `calloc` leaves it purging a table whose bucket array is NULL. Only a failed table `calloc` and success exit cleanly. |
| Findings.AllocFailureFaults | src/global/data-structures/hashtable.c:52-57 | A failed bucket allocation crashes in the cleanup as written, and a NULL destination reads an uninitialised pointer. `HashTable.Alloc` reports both failures without side effects. |
| Findings.ReplaceReleasesThroughTable | src/global/data-structures/hashtable.c:181 | The corrected replace releases the old key and value through the table's own policies. |

## Left out

- I/O: the `/proc/<pid>/pagemap` read (`_get_pagemap_entry`), the sysfs attribute reads and writes, `/dev/udmabuf` opening, `mmap`/`munmap`/`close`, `valloc` (`mu_alloc`), and `mu_sdram_csr_print` are not modelled. Each read or write is an outcome supplied by the caller.
- `_read_attr` parsing with `sscanf` is not modelled. The values read are parameters of `Udmabuf.GetUdmabuf`.
- The path building with `snprintf` is not modelled. Only the attribute names are kept.
- `src/main.c`, `src/global/hps.h` and the constants of `src/memory_utils.h` other than the sync mode and direction are not part of this model.
- The errstack macros are not modelled (errstack.h is not part of this model). A callback return below 0 is taken as the error that `ES_ERR_INT_NM` propagates.
- Real memory is not modelled: `malloc`, `calloc`, `free`, `memcpy`, `strdup` and pointer identity. Stored keys and values are the caller's values, and ownership appears only as copy and release events.
- HashTable.Set: a failed key or value copy inside `_new_node` is one `nodeOk` flag. The partial cleanup of a half-built node is not modelled.
- Floating point: `ht_density` is replaced by the integer tests `4n <= p` and `n >= 2p`. The two lemmas `Levels.ShrinkTestIsExact` and `Levels.GrowTestIsExact` relate them to exact real division. Double rounding is not modelled.
- Hashing.StrHashScan and Hashing.ArbHashScan: hashes are modelled as 64-bit words (`uint64_t`). A 32-bit `size_t` truncating the returned hash is not modelled. The table takes the hash as an abstract `K -> nat`.
- Hashing.StrHashScan: bytes are taken as unsigned. On platforms where `char` is signed, bytes above 127 would be added as negative numbers.
- IntKeys.IntHashInjective, IntKeys.IntHashBijective: the bijection is on the 64-bit mix. On a 32-bit `size_t` the returned hash is its low half and collides (`IntKeys.IntHash32Collides`). The table takes the hash as an abstract `K -> nat`, so collisions only cost chain length.
- IntKeys.IntCmp: pointer subtraction of keys is taken as 64-bit wrap-around subtraction. Only its zero test is stated, because the table inspects only that.
- HashTable.Get, HashTable.Take: a stored NULL value comes back as `Some(NULL)` in the model, whereas the code returns NULL (hashtable.c:209-211, 218-223), which a caller cannot tell apart from an absent key.
- HashTable.SetKeepsBand, HashTable.TakeKeepsBand, HashTable.DeleteKeepsBand, Scenarios.Run, Scenarios.DrainedRunReturnsToStart: the density band is promised only when every allocation succeeds. A failed node allocation makes `ht_set` fail, and a failed resize allocation leaves the level where it was, so the table can leave the band.
- `ht_density` and `ht_str_free` are not modelled: one is floating point and the other frees memory.
- `ht_foreach` callbacks that mutate the table are not modelled. The callback is a pure function of key and value, because the source reads the visited node's `next` after the callback.
- `ht_free` not freeing the bucket array (a memory leak) is not visible in the model.
- The `_PRESENT_IN_RAM`/`_SWAPPED` macros ignore their argument and read the local `pagemap_entry`. Both callers name their entry that, so the intended test on the entry is modelled.
- Pagemap.VirtToPhys: the address formula is proved only when the frame's page lies below 2^64. Above that the result is wrapped to 64 bits, as the source computes it, without a further statement.

## Findings

| source | as written | input that shows it | evidently intended | confidence | as-written member | corrected member |
|---|---|---|---|---|---|---|
| src/global/data-structures/hashtable.c:181-182 | replacing an existing key installs a fresh node with a NULL `next` in place of the old one | once `owner` is set: chain [1:'a', 2:'b'] in one bucket, then `ht_set` of key 1 (as written the release of the old node faults first) | the new node keeps the old node's successors | not executed | Findings.PutAsWrittenDropsTail | Chains.Put |
| src/global/data-structures/hashtable.c:214-237 | the link is advanced to the successor before the release goes through it | `ht_delete` of key 1 on chain [1:'a'] (count stays 1); once `owner` is set, also on [1:'a', 2:'b'] (node 2 is released) | release the unlinked node and decrement `n_nodes` | not executed | Findings.DeleteAsWrittenMiscounts | Findings.DeleteDropsCount |
| src/global/data-structures/hashtable.c:159-185 | `_new_node` never sets `owner`, and releasing reads the policy through it | any `ht_set` of a present key; `ht_purge` of a non-empty table; `ht_take`/`ht_delete` of a node that has a successor in its chain | release through the table's policy | not executed | Findings.EveryReleaseFaults | Findings.ReplaceReleasesThroughTable |
| src/global/data-structures/hashtable.c:52-57 | the cleanup of `tmp` runs `ht_free` on an uninitialised pointer after a rejected argument, and on a table whose `nodes` is NULL after a failed bucket `calloc` | `ht_alloc` with `dst == NULL`, or with the bucket `calloc` failing | initialise `tmp` to NULL and report either failure without touching memory | not executed | Findings.AllocFailureFaults | HashTable.Alloc |

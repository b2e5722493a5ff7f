# C4 / libcol core collections in Dafny

This project models the sequential core of the C4 engine and proves properties of the model. The core is these collections:

- **RSet** (`src/libc4/util/rset.c`): a reference-counted set. It is a chained hash table whose bucket array has a power-of-two size and doubles once there are as many entries as buckets (`count > max`, where `max` is the bucket count less one). Deleted entries are recycled through a free list. The model keeps the concrete bucket array and chains. It proves that:
  - `rset_add`, `rset_remove` and `expand_array` each implement one step of an abstract multiset (element to refcount), and the queries `rset_get` and `rset_count` answer from it: the multiplicity of an element and the number of distinct elements;
  - the iterator leaves the multiset unchanged and enumerates its elements, each exactly once;
  - every entry sits in bucket `hash & max`;
  - `max` stays `2^n - 1`;
  - `count` is the number of distinct elements;
  - every stored refcount is at least 1.
- **ColHash** (`src/libcol/include/util/hash.h`): the hash-table contract of libcol. A table is a list of entries, a new key going at the tail, read through a finite-map view. Scans walk that list in order, which is a choice of the model: hash.h promises no scan order. Set, set-if-new, get, count, clear, overlay, merge and do are each stated against that view. The key-length convention and the default byte-wise comparator are modelled as well.
- **ColTable** (`src/libcol/types/table.c`, in-memory branch): a set of tuples under `tuple_equal`, built on ColHash. It covers insert with pinning, cleanup (unpin everything), the comparator and hash callbacks, and scanning.
- **TuplePool** (`src/libcol/util/tuple_pool.c`): a slab allocator of tuples. Memory is modelled as slot numbers. Chunks of 64 tuples, then twice the previous size, are carved into consecutive slots, and returned tuples sit on a LIFO free list.
- **Catalog** (`src/libcol/types/catalog.c`): type-name lookup, and the table of schema definitions that rejects duplicates.

Modules and files:

| file | module | contents |
|---|---|---|
| `wrappers.dfy` | `Wrappers` | `Option`, `Result` |
| `ctypes.dfy` | `CTypes` | `Uint32` |
| `refset.dfy` | `RefSet` | rset.c |
| `colhash.dfy` | `ColHash` | hash.h |
| `coltable.dfy` | `ColTable` | table.c |
| `tuplepool.dfy` | `TuplePool` | tuple_pool.c |
| `catalog.dfy` | `Catalog` | catalog.c |

Callbacks and foreign code:

- Key comparators are equivalences. Each one is modelled by a class function: the rset's `cmp_func(a, b)` holds iff `cls(a) == cls(b)`, and `tuple_equal(a, b)` holds iff `content(a) == content(b)`.
- Hash functions are functions of that class, so equal keys always hash alike.
- `tuple_equal`, `tuple_hash` and `schema_get_tuple_size` are in files that are not part of this model. They appear as the parameters `content`, `hash` and `tupleSize`.
- `ERROR`, `FAIL` and `ASSERT` become the `Failure` arm of a `Result`.
- APR allocation is assumed to succeed.

## Model

| member | source | states |
|---|---|---|
| RefSet.AndWithMaskIsMod | src/libc4/util/rset.c:61-65 | With a mask `2^n - 1`, `hash & max` is `hash` modulo the array size. This is why the set keeps the maximum index rather than the size. |
| RefSet.BucketIndex | src/libc4/util/rset.c:213 | The bucket of a hash is `hash & max`. It is below the array size and equals the hash modulo the size. |
| RefSet.Make | src/libc4/util/rset.c:81-109 | A new set is valid and has 16 empty buckets (`max` = 15), count 0 and no recycled entries. Every element's multiplicity is 0. |
| RefSet.FindEntry | src/libc4/util/rset.c:205-221 | The chain walk looks in bucket `hash % size`. A found entry has an equal key and carries the element's multiplicity, which is positive. When nothing is found, no stored entry anywhere has an equal key and the multiplicity is 0. |
| RefSet.Get | src/libc4/util/rset.c:237-246 | The answer is the element's multiplicity, 0 when absent. It is positive iff an equal element is stored. |
| RefSet.Size | src/libc4/util/rset.c:285-288 | `count` is the number of distinct stored elements. |
| RefSet.Expand | src/libc4/util/rset.c:168-195 | `max` becomes `2*max+1` and every entry is re-bucketed under the new mask. The stored entries, the elements and every multiplicity are preserved, and so are count and the free list. |
| RefSet.AddEntry | src/libc4/util/rset.c:223-235 | The new refcount is the old multiplicity plus one. On the absent path a new entry with refcount 1 and the element's hash is appended at the tail of its home chain, which otherwise keeps its entries in order, and the free-list head is reused when there is one. The element joins the set and count grows by one. |
| RefSet.CheckCollisionRate | src/libc4/util/rset.c:254-256 | The array is expanded exactly when count exceeds `max`. This restores `count <= max` without changing any multiplicity. |
| RefSet.Add | src/libc4/util/rset.c:248-259 | The element's multiplicity grows by exactly one and all others are unchanged. The answer is true iff the element was absent. A new element joins the set and count grows by one. `max` doubles to `2*max+1` exactly when count then exceeds the old `max`. |
| RefSet.Remove | src/libc4/util/rset.c:261-283 | For an absent element the answer is None and the set is unchanged. Otherwise the answer is the stored equal key and the new refcount, which is one less, and only that multiplicity drops. At 0 the key leaves the set, count drops by one and the entry heads the free list. |
| RefSet.SetRefcount | src/libc4/util/rset.c:253 | Rewriting a stored entry's refcount to a positive value changes only that class's multiplicity, by the difference, and keeps the layout. |
| RefSet.AppendEntry | src/libc4/util/rset.c:228-233 | Linking a new entry for an absent class at the chain tail adds exactly that element and its multiplicity. |
| RefSet.DeleteEntry | src/libc4/util/rset.c:273-279 | Unlinking a stored entry (count one less, the entry on the free list with refcount 0) keeps the layout. It removes exactly its key from the set and only its class's multiplicity drops, to 0. |
| RefSet.IterReset | src/libc4/util/rset.c:114-131 | A reset iterator is consistent with the set, not at the end and has no current entry. The keys it still has to yield are the whole walk: every bucket in order, each chain head first. |
| RefSet.IterNext | src/libc4/util/rset.c:133-136 | Once at the end, `rset_iter_next` answers false and stays at the end. |
| RefSet.IterThis | src/libc4/util/rset.c:160-166 | At the end the answer is a failure. With no current entry it is a NULL dereference. Otherwise it is a stored element. |
| RefSet.IterNextStep | src/libc4/util/rset.c:133-158 | Each true answer makes the first pending key current and drops it from the pending keys. A false answer leaves the iterator at the end with nothing pending. |
| RefSet.AdvanceYieldsPending | src/libc4/util/rset.c:138-147 | The loop over bucket heads finds the first pending key, or reaches the end exactly when nothing is pending. |
| RefSet.WalkFromSpec | src/libc4/util/rset.c:139-146 | The keys of buckets `i` onwards, in walk order, are distinct and are exactly the keys stored in those buckets. |
| RefSet.WalkEnumeratesElements | src/libc4/util/rset.c:133-158 | A full iteration lists every stored element exactly once, `count` keys in all. |
| RefSet.CollectKeys | src/libc4/util/rset.c:184-189 | The reset/next/this loop collects `count` distinct keys, exactly the stored elements. |
| ColHash.Find | src/libcol/include/util/hash.h:129-136 | The position found holds the key, and no earlier entry does. None means no entry holds the key. |
| ColHash.Make | src/libcol/include/util/hash.h:74-90 | A new table is valid and its view is empty. |
| ColHash.Get | src/libcol/include/util/hash.h:129-136 | The answer is None (NULL) iff the key is absent, and otherwise the associated value. |
| ColHash.Set | src/libcol/include/util/hash.h:101-110 | A value maps the key to it and leaves every other key alone. None (NULL) deletes the key. |
| ColHash.SetIfNew | src/libcol/include/util/hash.h:112-126 | An absent key is given `val` and `val` is returned. For a present key the table is unmodified and the answer is what Get returns. |
| ColHash.Count | src/libcol/include/util/hash.h:170-175 | The count is the number of key/value pairs. |
| ColHash.Clear | src/libcol/include/util/hash.h:177-181 | After a clear the count is 0 and the view is empty. |
| ColHash.MergeInto | src/libcol/include/util/hash.h:196-219 | Folding the first table's entries into the second gives the merged map: the merger combines shared keys. |
| ColHash.Merge | src/libcol/include/util/hash.h:196-219 | The keys are the union of both tables. A shared key gets the merger's value, or h1's when there is no merger. Every other key keeps the value of the table holding it. |
| ColHash.Overlay | src/libcol/include/util/hash.h:183-194 | The result is the base overridden by the overlay. The inputs are values and are not modified. |
| ColHash.Do | src/libcol/include/util/hash.h:221-249 | The answer is true iff every callback returned non-zero. It stops right after the first zero, and every call before that returned non-zero. |
| ColHash.StrLen | src/libcol/include/util/hash.h:26-36 | The string length is the position of the first NUL, or the whole buffer when there is none. |
| ColHash.KeyOf | src/libcol/include/util/hash.h:26-36 | A non-negative length takes that many bytes. COL_HASH_KEY_STRING takes the C string without its NUL. |
| ColHash.Memcmp | src/libcol/include/util/hash.h:63-64 | The default comparison is zero iff the first `n` bytes agree. |
| ColHash.DefaultComparatorIsKeyEquality | src/libcol/include/util/hash.h:56-67 | Keys compare equal only if their lengths agree, and then exactly when they have the same bytes. |
| ColTable.Make | src/libcol/types/table.c:12-33 | A new table stores nothing. |
| ColTable.CmpTuple | src/libcol/types/table.c:56-68 | The answer is zero iff the tuples are `tuple_equal`. A key length other than a pointer's is an assertion failure. |
| ColTable.HashTuple | src/libcol/types/table.c:70-77 | A key length other than a pointer's is an assertion failure. Otherwise the hash is `tuple_hash` of the tuple's content. |
| ColTable.EqualTuplesCollide | src/libcol/types/table.c:56-77 | Tuples the comparator calls equal get the same hash. |
| ColTable.Pin | src/libcol/types/table.c:95 | Pinning raises the refcount of exactly that tuple by one. |
| ColTable.Unpin | src/libcol/types/table.c:50 | Unpinning lowers the refcount of exactly that tuple by one. |
| ColTable.Insert | src/libcol/types/table.c:79-100 | The answer is true iff no equal tuple was stored. A new tuple is stored and pinned. On a duplicate the table is unchanged and the stored equal tuple is pinned. Either way a tuple equal to `t` is then stored. |
| ColTable.InsertAsWritten | src/libcol/types/table.c:94-96 | The source's insert changes the table and the pins as Insert does. It answers "new" for a fresh tuple and also for a tuple that is already stored. |
| ColTable.ReinsertReportedAsNew | src/libcol/types/table.c:94-96 | Inserting the same tuple twice: the second call leaves the table as it is, yet the source's test answers "new". |
| ColTable.Cleanup | src/libcol/types/table.c:38-54 | Every stored tuple is unpinned exactly once and no other refcount changes. |
| ColTable.EntriesAreStored | src/libcol/types/table.c:44-51 | The hash entries hold exactly the stored tuples, each filed under its own content, none twice. |
| ColTable.ScanFirst | src/libcol/types/table.c:102-117 | The answer is None iff the table is empty, and otherwise a stored tuple. |
| ColTable.ScanFirstAsWritten | src/libcol/types/table.c:102-117 | The source's scan start fails (NULL iterator dereferenced) exactly on an empty table, and otherwise agrees with ScanFirst. |
| ColTable.ScanNext | src/libcol/types/table.c:119-133 | The cursor advances by one. The answer is None exactly after the last entry, and otherwise that entry's tuple. |
| ColTable.ScanRestIsEntries | src/libcol/types/table.c:119-133 | Repeated scan_next calls return the remaining entries' tuples in order. |
| ColTable.ScanReturnsEachStoredTupleOnce | src/libcol/types/table.c:102-133 | A whole scan returns every stored tuple exactly once before NULL. |
| TuplePool.SlotsOfChunksClosedForm | src/libcol/util/tuple_pool.c:50-61 | Chunk sizes are 64 and then twice the previous one. After chunk `k`, `ntotal` (the sum of the sizes) is twice that chunk's size less 64. |
| TuplePool.Make | src/libcol/util/tuple_pool.c:8-26 | A new pool has an empty free list, every counter at 0, and the schema's tuple size. |
| TuplePool.LoanFromChunk | src/libcol/util/tuple_pool.c:48-70 | A chunk is carved only when the current one is used up: 64 slots the first time, then twice the last. The next never-loaned slot is handed out with refcount 1 and the pool's schema. It is the first slot of a new chunk, after which `nalloc_unused` is the chunk size less one; otherwise `nalloc_unused` drops by one. The free list, `nfree`, the schema and the tuple size are unchanged. |
| TuplePool.LoanAsWritten | src/libcol/util/tuple_pool.c:28-71 | The source's loan uses the free list whenever `nfree > 0` and does not decrement `nfree`. It fails (NULL head) exactly when `nfree > 0` and the free list is empty. Otherwise, with `nfree > 0`, it pops the free-list head and leaves `nfree` as it was; with `nfree == 0` it falls through to the chunk loan. |
| TuplePool.Loan | src/libcol/util/tuple_pool.c:28-71 | The loan keeps `nfree == |free list|`. It reuses the most recently returned tuple when there is one, and otherwise hands out a fresh chunk slot. The tuple is newly on loan, has refcount 1 and the pool's schema. The tuples on loan afterwards are exactly those before plus this one, and the schema and tuple size are unchanged. |
| TuplePool.Return | src/libcol/util/tuple_pool.c:73-82 | A tuple with the wrong schema or a non-zero refcount is an assertion failure. Otherwise it heads the free list, `nfree` grows by one, and, when the tuple was on loan, the pool invariant is kept. The schema, tuple size and chunk counters (`raw_alloc`, `ntotal`, `nalloc_unused`, `nalloc_total`) are unchanged, and no other tuple changes its loan state. |
| TuplePool.LoanAfterReturnIsLifo | src/libcol/util/tuple_pool.c:33-46 | A loan right after a successful return hands back the tuple just returned, because the free list is LIFO. |
| TuplePool.NfreeNotDecrementedOnLoan | src/libcol/util/tuple_pool.c:38-46 | With the source's loan, the sequence loan, return, loan, loan reads the NULL head of an empty free list. The corrected loan hands out a fresh slot instead. |
| Catalog.CanonicalName | src/libcol/types/catalog.c:51-72 | Each valid type has a name among the known type names. |
| Catalog.LookupTypeName | src/libcol/types/catalog.c:51-72 | The match is exact and case-sensitive. A name is TYPE_INVALID iff it is not one of the eight known names, and otherwise it names its type; "int" is INT4. |
| Catalog.LookupInvertsCanonicalName | src/libcol/types/catalog.c:51-72 | Looking up a type's own name gives the type back, and "int" and "int4" are the same type. |
| Catalog.IsValidTypeName | src/libcol/types/catalog.c:45-49 | A name is valid iff it is one of the known type names. |
| Catalog.GetSchema | src/libcol/types/catalog.c:29-33 | The answer is NULL (None) iff no schema is defined for the name. Otherwise it is the schema defined for that name. |
| Catalog.Make | src/libcol/types/catalog.c:14-27 | A new catalog defines no schema. |
| Catalog.SetSchema | src/libcol/types/catalog.c:35-43 | Defining a name twice is an error that keeps the first definition. Otherwise the name gets the schema and every other name keeps its definition. |

## Left out

- Counter width: the unsigned counters (`count`, `max`, `refcount`, `nfree`, `ntotal`) are unbounded naturals, and no 32-bit wrap-around is modelled. For `count`, `max` and `ntotal` a wrap would need 2^32 live entries or tuples. For `refcount` it takes 2^32 adds of one element (rset.c:253). For the source's `nfree` it takes 2^32 returns in total, because its loan never decrements it (the finding below).
- RefSet.CheckCollisionRate: the early return of `expand_array` when `apr_pool_create` fails is not modelled. Allocation is taken to succeed, so the array always expands once count exceeds `max`.
- RefSet.Make: the NULL return of `rset_make` when `apr_pool_create` fails is not modelled, for the same reason.
- APR pools are not modelled: sub-pools, `apr_pool_destroy`, cleanup registration and `rset_iter_make`'s allocation. Memory is not part of the model.
- The `user_data` argument passed to the rset callbacks is not modelled. The callbacks are pure functions of the key.
- The `__builtin_prefetch` hints in `rset_iter_next` are not modelled. They are performance hints with no effect on the result.
- RefSet.IterNext: iteration over a set that changes between calls is not modelled. The iterator is stated for one fixed set.
- The SQLite branch of `table_make`, `table_insert`, `table_scan_first` and `table_scan_next` is not modelled: it calls into `sqlite_table.c`, which is not part of this model.
- `tuple_equal`, `tuple_hash`, `tuple_pin`/`tuple_unpin` and `schema_get_tuple_size` live in `tuple.c` and `schema.c`, which are not part of this model. `tuple_equal` is taken to be content equality, and the hash is a function of the content.
- ColTable.ScanNext: requires a live cursor, one from a non-empty ScanFirst or an earlier ScanNext that returned a tuple. Calling `table_scan_next` after the end passes a NULL index to `col_hash_next`, which is outside the documented contract.
- ColHash: `col_hash_copy`, `col_hash_make_custom`'s function pointers, and `col_hash_first`/`col_hash_next`/`col_hash_this` are not separate operations. A table is a value, so a copy is the value itself, and a scan walks the entry list in order.
- ColHash.Do: the callback's side effects are not modelled, and `rec` is not passed. The callback is a pure function of key and value.
- ColHash.Do: the entries are visited in insertion order, which hash.h does not promise. The hash-ordered bucket walk of the real table, which changes on expansion, is not modelled. So which callback stops the walk, and the call count, are facts about the model's order only.
- ColTable.ScanRestIsEntries: a scan returns the tuples in insertion order, which the source does not promise. The hash-ordered walk of `col_hash_first`/`col_hash_next` is not modelled. `ColTable.ScanReturnsEachStoredTupleOnce` states only which tuples a scan returns, and that holds for any order.
- ColTable.ScanFirst: every cursor is private. In the source, `col_hash_first(NULL, ...)` selects the table's one internal iterator, so all scans of one table share it. A second `table_scan_first` restarts a scan in progress, and `table_scan_next` advances the shared iterator. Interleaved scans of one table are not modelled; the scan lemmas hold for one scan at a time.
- ColHash: the hash function of a table is not modelled. The view depends only on key equality, and the bucket layout of hash.h's implementation is not part of its documented contract.
- Catalog: schemas are an opaque type parameter, and names are strings compared by value, as `APR_HASH_KEY_STRING` does.
- TuplePool: raw pointer arithmetic, `tuple_size` bytes per slot and alignment are modelled as slot numbers.
- Error reporting (`ERROR`, `FAIL`, `ASSERT` printing and aborting) is modelled as a `Failure` result.

## Findings

| source | as written | input that shows it | evidently intended | confidence | as-written member | corrected member |
|---|---|---|---|---|---|---|
| src/libcol/util/tuple_pool.c:38-46 | A free-list loan never decrements `nfree`, so `nfree > 0` stays true after the free list is drained. | On a new pool: loan, return the tuple, loan, loan. The last loan reads the NULL head of the empty free list. | Use the free list only while it holds a tuple, and decrement `nfree` on each free-list loan. | high (not executed) | TuplePool.LoanAsWritten, TuplePool.NfreeNotDecrementedOnLoan | TuplePool.Loan |
| src/libcol/types/table.c:94-96 | The "new" answer is `t == val`, a pointer comparison with the value the hash holds. | Insert tuple `t` into an empty table, then insert the same `t` again. The second insert is a no-op on the table but answers "new". | Answer "new" only when no equal tuple was stored. | medium (not executed) | ColTable.InsertAsWritten, ColTable.ReinsertReportedAsNew | ColTable.Insert |
| src/libcol/types/table.c:113-115 | `col_hash_this` is called on the iterator `col_hash_first` returns, which is NULL for an empty table. | `table_scan_first` on an empty in-memory table. | Return NULL for an empty table, as `table_scan_next` does at the end. | medium (not executed) | ColTable.ScanFirstAsWritten | ColTable.ScanFirst |

# STG arenas and hashing helpers of the Flang front end, in Dafny

This project models two data-structure layers of the Flang Fortran compiler.

- **The STG arena** (`tools/flang1/flang1exe/miscutil.c`). An STG is a growable
  array of fixed-size elements with these parts:
  - `stg_avail` is a bump pointer. Element 0 is reserved.
  - `stg_cleared` is a mark below which every element has been zeroed.
  - A free list is threaded through freed elements. Each freed element holds the
    previous head in its first `int`.
  - Sidecar arenas hang off a base arena. When the base grows, every sidecar
    is reallocated to the same capacity.

  `Stg.STG` is a class with the descriptor's fields. Its methods update them
  in place, as the C functions do. The element buffer is a sequence of
  elements, and each element is a sequence of bytes. `ArenaSpec` holds the
  value-level definitions behind the contracts:
  - zeroing a range;
  - the cleared-mark rule;
  - the growth formula `2 * (avail - 1)`;
  - the 4-byte little-endian two's-complement encoding of the free-list link.

  The ghost field `chain` lists the arenas reachable through `stg_sidecar`.
  `Valid()` states four things:
  - the list is acyclic and correctly linked;
  - every sidecar has the base's capacity;
  - no sidecar's `stg_avail` runs past its own `stg_cleared`;
  - the counters fit a C `int`.

  The third part holds because `stg_alloc_sidecar` sets both counters equal
  (`miscutil.c:199-201`), and nothing in `miscutil.c` touches them later. Its
  consequence is that the sidecar pass of `stg_need`'s clearing loop
  (`miscutil.c:186-188`) clears an empty range, so it never changes a sidecar.
  Once the base hands out an element past the avail a sidecar had when it was
  attached, that sidecar element is never zeroed. After growth, it keeps whatever
  `sccrelal` returned. The same holds for an element the base hands out a second
  time after lowering its avail: the sidecar copy keeps its old bytes.

- **`fprintf_str_esc_backslash`** (same file), in `Escape`. It writes a C
  string in double quotes with every backslash doubled. The output stream is
  the sequence of characters written.

- **The hashing helpers** (`runtime/flangrti/hash.h`):
  - `HashAccu` models the `HASH_ACCU_*` macros (Jenkins' one-at-a-time mixing
    steps) as exact `bv32` functions.
  - `HashTable` models the documented contracts of `hashset_*` and
    `hashmap_*`. Each is a class whose contents are a set (or map) of keys, no
    two of them equivalent under the user's equality function. The
    out-parameter `hash_data_t *data` is an `Option<Data>`: `None` is a NULL
    pointer, and `Some(v)` is a cell holding `v`.

Fatal errors reported through `interr` (invalid size, sidecar not found,
element too small for a free-list link) are modelled as a `Fatal(...)` status
returned before any change is made.

`StgScenarios` and `HashScenarios` are methods whose contracts state what the
laws imply for sequences of calls. Two of them, `StgScenarios.AddThenPop` and
`StgScenarios.TwoReservations`, hold for every valid arena; the others describe
short, concrete sequences of calls. For example:
- the free list is LIFO;
- the arena grows from 2 to 6 elements;
- the sidecar follows the growth of its base;
- a sidecar element is not zeroed when the base hands out its index again.

## Model

| member | source | states |
|---|---|---|
| Escape.CString | tools/flang1/flang1exe/miscutil.c:71 | the characters read before the first NUL: a NUL-free prefix of the input ending just before its first NUL |
| Escape.FprintfStrEscBackslash | tools/flang1/flang1exe/miscutil.c:66-77 | the output is an opening quote, then the string up to its NUL with each backslash written twice, then a closing quote |
| Escape.UnescapeEscaped | tools/flang1/flang1exe/miscutil.c:71-75 | the escaping loses nothing: reading doubled backslashes back as single ones gives the original string |
| Escape.EscapedCounts | tools/flang1/flang1exe/miscutil.c:72-74 | the output has one extra character per backslash; it has twice as many backslashes, and every other character (a double quote included) appears as often as in the input |
| HashAccu.Init | runtime/flangrti/hash.h:261-264 | the accumulator starts with value 0 |
| HashAccu.Add | runtime/flangrti/hash.h:266-271 | one ADD step: the low 32 bits of the data are added, then the word is mixed by a += a << 10 and a ^= a >> 6; the mixing can be undone (UnmixAdd recovers old word + data), so for a given accumulator distinct 32-bit data give distinct results |
| HashAccu.Finish | runtime/flangrti/hash.h:273-278 | the FINISH steps a += a << 3, a ^= a >> 11, a += a << 15 form a bijection on 32-bit words: Unfinish recovers the accumulator, so finishing merges no two accumulators |
| HashAccu.Value | runtime/flangrti/hash.h:280 | the value is the accumulated word itself |
| HashAccu.AddAllAppend | runtime/flangrti/hash.h:266-271 | adding fields one group after another equals adding them all at once, so a composite key can be hashed member by member |
| HashAccu.HashOfNothing | runtime/flangrti/hash.h:261-280 | INIT followed by FINISH and VALUE, with nothing added, yields 0 |
| HashAccu.OneAtATimeTestVector | runtime/flangrti/hash.h:266-278 | the ADD and FINISH steps are Jenkins' one-at-a-time hash: the byte 'a' hashes to its published value 0xca2e9442 |
| HashAccu.OrderMatters | runtime/flangrti/hash.h:245-253 | the recipe is order-sensitive: fields 1 then 2 and fields 2 then 1 hash to different values |
| ArenaSpec.Zeroed | tools/flang1/flang1exe/miscutil.c:119-121 | the memset of stg_clear: elements r .. r+n-1 become zero, every other element is unchanged, the length is kept |
| ArenaSpec.ClearedMarkSound | tools/flang1/flang1exe/miscutil.c:122-126 | the cleared-mark update never lowers the mark; when it moves, it moves to the end of the zeroed range; and "every element below the mark is zero" is preserved |
| ArenaSpec.ZeroedRefreshes | tools/flang1/flang1exe/miscutil.c:119-121 | zeroing a range zeroes exactly that range and keeps every other element |
| ArenaSpec.RefreshedAfterGrowth | tools/flang1/flang1exe/miscutil.c:173-189 | growing with sccrelal and then clearing from the cleared mark to avail keeps every old element outside that range and zeroes the range |
| ArenaSpec.GrowthLaw | tools/flang1/flang1exe/miscutil.c:163-176 | the new size 2*(avail-1), taken only when avail > size, is at least twice the old size and at least avail |
| ArenaSpec.EncodeLink | tools/flang1/flang1exe/miscutil.c:328 | storing an int link writes four bytes |
| ArenaSpec.DecodeLink | tools/flang1/flang1exe/miscutil.c:304 | reading an int link yields a 32-bit int |
| ArenaSpec.LinkRoundTrip | tools/flang1/flang1exe/miscutil.c:304-328 | the link read by stg_next_freelist is the link stored by stg_add_freelist, whatever bytes follow it |
| ArenaSpec.LinkBytesRoundTrip | tools/flang1/flang1exe/miscutil.c:304-328 | every four bytes are the encoding of the int they decode to, so the encoding is a bijection on 32-bit ints |
| ArenaSpec.WithLink | tools/flang1/flang1exe/miscutil.c:328 | writing the link keeps the element's length and its bytes past the first int, and the link reads back as the stored value |
| Stg.LinkedCons | tools/flang1/flang1exe/miscutil.c:203-204 | pushing an arena that is not on the list onto the head of a well-linked list gives a well-linked list without repeats |
| Stg.LinkedTail | tools/flang1/flang1exe/miscutil.c:228-229 | dropping the head of a well-linked list leaves a well-linked list that no longer contains it |
| Stg.LinkedSplice | tools/flang1/flang1exe/miscutil.c:234-235 | pointing chain[k] past chain[k+1] leaves a well-linked list of the others, without chain[k+1] |
| Stg.STG.constructor | tools/flang1/flang1exe/miscutil.c:100 | a descriptor starts zeroed: no buffer, every count zero, no sidecar |
| Stg.STG.AllocBase | tools/flang1/flang1exe/miscutil.c:96-110 | with positive sizes: capacity and element size set, avail 1, cleared 0, no free list, no sidecar; otherwise fatal InvalidSize and nothing changed |
| Stg.STG.Clear | tools/flang1/flang1exe/miscutil.c:116-128 | with r >= 0 and n > 0 the buffer becomes Zeroed(r, n) and the mark follows ClearedMark; otherwise nothing changes |
| Stg.STG.ClearAll | tools/flang1/flang1exe/miscutil.c:133-137 | every element below avail is zero, the rest unchanged; the mark rises to avail if it was lower |
| Stg.STG.Alloc | tools/flang1/flang1exe/miscutil.c:142-147 | a valid arena with no sidecars whose element 0 is zero and counted as cleared; fatal InvalidSize otherwise |
| Stg.STG.Delete | tools/flang1/flang1exe/miscutil.c:152-158 | the buffer is released and every field is zero |
| Stg.STG.Resize | tools/flang1/flang1exe/miscutil.c:179-181 | one arena gets the new capacity and keeps its old elements as a prefix |
| Stg.STG.Grow | tools/flang1/flang1exe/miscutil.c:173-183 | the arena and every sidecar on the list get the new capacity, each keeping its old elements; the list stays valid |
| Stg.STG.ClearFresh | tools/flang1/flang1exe/miscutil.c:184-189 | when avail passed the cleared mark, elements from the mark to avail are zeroed and the mark reaches avail; sidecars keep their buffers and marks |
| Stg.STG.Need | tools/flang1/flang1exe/miscutil.c:165-190 | the capacity becomes GrownSize(avail) exactly when avail > size; afterwards avail <= size, cleared == avail, every element from min(cleared, avail) up to avail is zero, all other old elements are kept, and every sidecar has the new capacity, its old elements and its cleared mark |
| Stg.STG.Next | tools/flang1/flang1exe/miscutil.c:251-266 | returns the old avail and advances avail by n; grows exactly when the new avail passes the capacity; the reserved elements read as zero and all older elements outside the stale cleared range are kept; every sidecar keeps its old elements and its cleared mark |
| Stg.STG.ClearToAvail | tools/flang1/flang1exe/miscutil.c:263-264 | the in-capacity branch of stg_next zeroes exactly the range from the cleared mark to avail |
| Stg.STG.AllocSidecar | tools/flang1/flang1exe/miscutil.c:195-205 | the sidecar becomes an arena with the base's capacity and avail, zero below avail, at the head of the list; fatal InvalidSize otherwise |
| Stg.STG.Attach | tools/flang1/flang1exe/miscutil.c:203-204 | the sidecar is pushed onto the head of the list and the base stays valid |
| Stg.STG.FindPredecessor | tools/flang1/flang1exe/miscutil.c:231-238 | finds the list member whose successor is the sidecar, or null exactly when the sidecar is not on the list |
| Stg.STG.UnlinkFirst | tools/flang1/flang1exe/miscutil.c:228-229 | unlinking the head sidecar leaves the rest of the list, valid |
| Stg.STG.UnlinkAfter | tools/flang1/flang1exe/miscutil.c:234-235 | unlinking a later sidecar removes exactly it from the list, which stays valid |
| Stg.STG.DeleteSidecar | tools/flang1/flang1exe/miscutil.c:225-244 | a listed sidecar is removed from the list (the others keep their order) and every field of it is zero; an unlisted one gives fatal SidecarNotFound with the base, the list and the sidecar unchanged |
| Stg.STG.AddFreelist | tools/flang1/flang1exe/miscutil.c:315-330 | element r is zeroed except for a link holding the old head, and r becomes the head; fatal TooSmallForFreelist when an element cannot hold an int |
| Stg.STG.NextFreelist | tools/flang1/flang1exe/miscutil.c:289-309 | with an empty list, reserves one element as stg_next(stg, 1) does: same capacity law, cleared mark at avail, older elements kept outside the stale cleared range; otherwise pops the head, whose link becomes the new head, and only that element changes; either way the element returned reads as zero and every sidecar keeps its elements and cleared mark |
| Stg.STG.ReserveOne | tools/flang1/flang1exe/miscutil.c:293-294 | the empty-list path: stg_next(stg, 1) followed by stg_clear of its result hands out the old avail, zeroed, with the same capacity law and cleared mark as stg_next; sidecars keep their elements and cleared marks |
| Stg.STG.PopFree | tools/flang1/flang1exe/miscutil.c:295-307 | the non-empty path: the head is returned, the link stored in its first int becomes the new head, only that element changes and it becomes zero, and the mark follows ClearedMark |
| StgScenarios.AddThenPop | tools/flang1/flang1exe/miscutil.c:289-330 | freeing element r and then popping the free list returns r, zeroed, and restores the previous head |
| StgScenarios.TwoReservations | tools/flang1/flang1exe/miscutil.c:251-266 | two reservations within the capacity return adjacent ranges: the second starts where the first ends |
| StgScenarios.ThreeInUse | tools/flang1/flang1exe/miscutil.c:251-266 | three one-element reservations in a fresh arena hand out 1, 2 and 3 and leave avail at 4 |
| StgScenarios.ThreeFreed | tools/flang1/flang1exe/miscutil.c:315-330 | freeing 1, 2, 3 chains the links 3 -> 2 -> 1 -> 0 |
| StgScenarios.FreeListIsLifo | tools/flang1/flang1exe/miscutil.c:289-309 | the free list pops 3, 2, 1, each of the three elements then reads as zero, and the next call falls back to avail and hands out 4 |
| StgScenarios.ReserveThree | tools/flang1/flang1exe/miscutil.c:251-266 | reserving three elements of a capacity-2 arena returns 1, grows to 6, and zero-fills elements 1 .. 3 |
| StgScenarios.OneSidecar | tools/flang1/flang1exe/miscutil.c:195-205 | attaching a sidecar copies the base's avail once |
| StgScenarios.GrowthCarriesSidecar | tools/flang1/flang1exe/miscutil.c:173-183 | growth of the base gives its sidecar the same capacity; the sidecar's avail stays the copied one |
| StgScenarios.SidecarKeepsStaleElement | tools/flang1/flang1exe/miscutil.c:251-266 | after the base's avail is lowered from 2 to 1, stg_next hands out element 1 again zeroed in the base, while the sidecar's element 1 keeps the bytes written to it |
| HashTable.Equivalent | runtime/flangrti/hash.h:40-41 | two keys are the same key when the user's equality says so; with a NULL equality function, exactly when the words are equal |
| HashTable.Lawful | runtime/flangrti/hash.h:33-36 | the caller's obligation: the equality is an equivalence and equal keys hash alike; a NULL equality function meets it for every hash function |
| HashTable.SingleMatch | runtime/flangrti/hash.h:108-111 | with a lawful equality and pairwise non-equivalent keys, a query matches at most one stored key |
| HashTable.InsertFresh | runtime/flangrti/hash.h:113-123 | inserting a key nothing stored matches keeps the keys pairwise non-equivalent, adds one to the count, and makes exactly the queries equivalent to it find it |
| HashTable.ReplaceMatch | runtime/flangrti/hash.h:125-132 | swapping the matching stored key for the new one keeps the keys pairwise non-equivalent and the count, and the new key finds itself |
| HashTable.EraseMatch | runtime/flangrti/hash.h:134-139 | removing the matching key keeps the keys pairwise non-equivalent, lowers the count by one, and the query then finds nothing |
| HashTable.HashSet.constructor | runtime/flangrti/hash.h:82-89 | a new set is empty and keeps the functions it was given, which must be lawful |
| HashTable.HashSet.Clear | runtime/flangrti/hash.h:98-101 | no keys remain |
| HashTable.HashSet.Size | runtime/flangrti/hash.h:103-106 | the number of stored keys |
| HashTable.HashSet.Lookup | runtime/flangrti/hash.h:108-111 | returns the stored key equivalent to the query, or NULL exactly when none is |
| HashTable.HashSet.Insert | runtime/flangrti/hash.h:113-123 | for a non-sentinel key nothing stored matches, the key is added and the size grows by one |
| HashTable.HashSet.Replace | runtime/flangrti/hash.h:125-132 | an equivalent stored key is swapped for the new one and returned (size unchanged); otherwise the key is inserted and NULL returned |
| HashTable.HashSet.Erase | runtime/flangrti/hash.h:134-139 | the equivalent stored key is removed and returned, and the size drops by one; otherwise NULL and nothing changes |
| HashTable.HashSet.Iterate | runtime/flangrti/hash.h:141-152 | the callback sees every stored key exactly once |
| HashTable.HashMap.constructor | runtime/flangrti/hash.h:166-171 | a new map is empty and keeps the functions it was given, which must be lawful |
| HashTable.HashMap.Clear | runtime/flangrti/hash.h:181-184 | no pairs remain |
| HashTable.HashMap.Size | runtime/flangrti/hash.h:186-189 | the number of stored pairs |
| HashTable.HashMap.Lookup | runtime/flangrti/hash.h:191-197 | returns the equivalent stored key or NULL; the data cell receives the key's data only when a key is found and the cell pointer is not NULL |
| HashTable.HashMap.Insert | runtime/flangrti/hash.h:199-207 | for a non-sentinel key nothing stored matches, the pair is added and the size grows by one |
| HashTable.HashMap.Replace | runtime/flangrti/hash.h:209-218 | an equivalent pair is swapped for (key, data), and the old key and old data come back; otherwise the pair is inserted, NULL is returned and the cell is unchanged |
| HashTable.HashMap.Erase | runtime/flangrti/hash.h:220-228 | the equivalent pair is removed, its key returned and its data written to a non-NULL cell; otherwise NULL, with the map and the cell unchanged |
| HashTable.HashMap.Iterate | runtime/flangrti/hash.h:230-237 | the callback sees every stored pair exactly once |
| HashScenarios.SetScenario | runtime/flangrti/hash.h:113-139 | insert 5 and 9, replace 5, erase 9: replace returns 5 with size 2, erase returns 9 with size 1, and 9 is then not found |
| HashScenarios.MapScenario | runtime/flangrti/hash.h:191-228 | replace hands back the old data; a lookup with a NULL cell writes nothing; erase hands back the data; a second erase leaves the cell alone |

`stg_alloc_sidecar` copies the base's `stg_avail` once, when the sidecar is
attached (`miscutil.c:199`). `stg_next` advances only the base's
(`miscutil.c:259`), so a sidecar's avail falls behind its base's.
`StgScenarios.GrowthCarriesSidecar` shows this. `StgScenarios.SidecarKeepsStaleElement`
shows the consequence described above.

## Left out

- `runtime/flang/cddivd.c` (floating-point complex division) is not part of this model.
- The command-line flag helpers and `mkfname` in `miscutil.c` are not part of this model.
- The name field `stg_name` and the text of the fatal messages are not modelled. (The message of `sidecar_not_found` passes two strings for three `%s` directives.)
- `interr` aborts the compiler; the model returns a `Fatal` status and makes no change.
- Byte addresses and pointer arithmetic are not modelled: elements are addressed by index.
- Stg.Allocate, Stg.Reallocate: these model `sccalloc` and `sccrelal` only by their contracts: the length, and for `sccrelal` the elements kept. The contents of new elements are unspecified; the bodies fill them with zero bytes, and no contract relies on those bytes.
- StgScenarios.TwoReservations: stated only for reservations that fit the capacity, which keeps its preconditions free of the growth bounds; with growth, Stg.STG.Next gives the same relation call by call.
- Stg.STG.Next: the model requires `n >= 0`. The C code also accepts a negative `n`, which moves `stg_avail` back.
- C `int` overflow in `(avail - 1) * 2` and `dtsize * size` is not modelled. The bounds that keep these in range are preconditions.
- ArenaSpec.EncodeLink, ArenaSpec.DecodeLink: the link uses little-endian byte order, which the compiler's hosts have.
- Stg.SidecarsFollow: states that each sidecar keeps its old elements and its cleared mark. Sidecar capacities come from `Valid()`. The contents of the elements that growth adds to a sidecar are not stated, because `sccrelal` leaves them unspecified.
- Stg.STG.Grow, Stg.STG.ClearFresh: the C loops start at the base arena; the model performs that first pass before the loop and iterates over the sidecars.
- The bodies in `hash.c` are not part of this model: bucket layout, probing, resizing, the iteration order, and the predefined `hash_functions_strings` / `hash_functions_direct`. The tables keep their contents as a set or map.
- `hashset_free` and `hashmap_free` only release memory; the model has no deallocation.
- HashTable.HashSet.Size, HashTable.HashMap.Size: the result is a natural number rather than a C `unsigned`, so a count at or above 2^32 is not wrapped.
- HashAccu.HashFields: over lists of fields the hash is not injective, and nothing about collisions is stated. Only the single ADD and FINISH steps are proved invertible.

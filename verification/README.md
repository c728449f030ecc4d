# fast_hashmap in Dafny

This is a model of the compact unique-insert hash sets of `fast_hashmap.hpp`, their key mixer, and the bitmap sets that `benchs/main.cpp` measures them against.

- **`fast_hashsetimpl`.** This is the class behind `fast_hashset30` and `fast_hashset62`.
  - A fixed table `ha` holds `size_` bucket nodes of `node_keys` slots each. A slot is a `KeyFlags` record: a key, `is_offs` and `occupied`.
  - When the slots of a bucket are full, the key in its last slot moves into a new big node of `big_node_keys` slots. The big node is appended to the growable overflow list `olist`. The last slot becomes an index into `olist`.
  - Big nodes overflow the same way. Every bucket therefore heads a chain of big nodes linked by index.
  - `insert` returns true exactly when the key is new.
  - `count_` is a `uint32_t` insertion counter.
- **`fast_hashset_fclear`.** It uses the same algorithm. The difference is where the `occupied` and `is_offs` bits of the bucket slots live: in two `vector<bool>` flag arrays, indexed `h32 * node_keys + i`.
- **`utils::rotl` and `utils::hash32`.** These pick the bucket: `hash32(key) % size_`.
- **`get_aligned`, `bitmap_set_raw`, `bitmap_set_std`.** These come from `benchs/main.cpp`: a rounding helper, a set as an array of 64-bit words, and a set as a `vector<bool>`.

## Modules

| File | Module | What it holds |
|---|---|---|
| `mixer.dfy` | `Mixer` | `rotl` and both `hash32` overloads, on `bv32`/`bv64`. |
| `layout.dfy` | `Layout` | The storage layout as values: slots, nodes, big nodes, the overflow list. |
| `fast_hash_set.dfy` | `FastHashSet` | Class `HashSet`: `fast_hashsetimpl`, with `ha` as an `array` and `olist` as a `seq`. |
| `flag_hash_set.dfy` | `FlagHashSet` | Class `FlagHashSet`: `fast_hashset_fclear`, with the two flag vectors as fields. |
| `nat_bits.dfy` | `NatBits` | Powers of two and the bitwise and and or on naturals, with their bit-level meaning. |
| `bitmaps.dfy` | `Bitmaps` | `get_aligned` and the classes `BitmapSetRaw` and `BitmapSetStd`. |

More on `Layout`:

- `Layout` holds the invariant that makes the layout an exact set of keys. Two ghost components support it:
  - `owner`: the bucket each big node belongs to.
  - `loc`: the slot holding each key.
- Its main lemmas show that the two layout changes preserve the invariant:
  - storing a key in a free slot;
  - overflowing a full node into a new big node.

More on `FlagHashSet`:

- Its view merges the bare bucket words with the two flag vectors into the `Layout` table.
- It therefore reuses every `Layout` lemma.

Both hash-set classes prove `insert` against the set of keys inserted since construction or the last `clear`. This is what the unit test in `test/unit/generic_tests.cpp` compares, call by call, with `std::unordered_set`.

**`clear` and `count_`.** In both hash sets, `clear` does not reset `count_` (fast_hashmap.hpp:108-112, 244-248). So `count()` after a `clear` still reports every key inserted before it, modulo 2^32. The model follows the code on this point.
- The ghost field `cleared` records those earlier keys.
- `Count` is `(cleared + |Contents()|) % 2^32`.

The bitmap sets do reset `count_` on `clear`.

## Model

| member | source | states |
|---|---|---|
| Mixer.RotlMasksAmount | fast_hashmap.hpp:11-18 | `rotl` masks the amount to 5 bits for 32-bit words and to 6 bits for 64-bit words. |
| Mixer.Rotl32 | fast_hashmap.hpp:11-18 | `rotl<uint32_t>(n, c)` as written: mask the amount to 0..31, then the or of `n << c` and `n >> (-c & 31)`. Its properties are stated by RotlMasksAmount and Rotl32Rotates. |
| Mixer.Rotl64 | fast_hashmap.hpp:11-18 | `rotl<uint64_t>(n, c)` as written, with the amount masked to 0..63. Its properties are stated by RotlMasksAmount and the Rotl64Rotates lemmas. |
| Mixer.Rotl32Rotates | fast_hashmap.hpp:15-17 | For each of the 32 masked amounts 0..31, the shift-and-or formula is the machine left rotation by that amount. With RotlMasksAmount, `rotl` on 32 bits rotates by `c & 31` for every `c`. |
| Mixer.Rotl64Rotates0To15 | fast_hashmap.hpp:15-17 | For each amount 0..15, the 64-bit shift-and-or formula is the machine left rotation by that amount. |
| Mixer.Rotl64Rotates16To31 | fast_hashmap.hpp:15-17 | The same for amounts 16..31. |
| Mixer.Rotl64Rotates32To47 | fast_hashmap.hpp:15-17 | The same for amounts 32..47. |
| Mixer.Rotl64Rotates48To63 | fast_hashmap.hpp:15-17 | The same for amounts 48..63. With RotlMasksAmount, `rotl` on 64 bits rotates by `c & 63` for every `c`. |
| Mixer.Rotl32Inverse | fast_hashmap.hpp:24 | Rotating by 13 and then by 19 restores the word, so the rotation in `hash32` loses no bit. |
| Mixer.Hash32 | fast_hashmap.hpp:22-25 | `hash32(uint32_t k)` is `4111732 * k` modulo 2^32, rotated left by 13. |
| Mixer.Hash64 | fast_hashmap.hpp:27-30 | `hash32(uint64_t k)` is the low 32 bits of `rotl(k, 29) ^ k`. |
| Mixer.Hash32Ignores2TopBits | fast_hashmap.hpp:22-25 | The 32-bit hash depends only on the low 30 bits of the key, which are the bits a `fast_hashset30` slot keeps. |
| Mixer.BucketOf | fast_hashmap.hpp:85 | `hash % size_` names a bucket: it is below `size_`. |
| Layout.Shape.Bucket | fast_hashmap.hpp:85 | `Hash32{}(key) % size_`: the `uint64_t` overload for `fast_hashset62`, the `uint32_t` one otherwise. The result is a bucket below `size_`. |
| Layout.Inc32 | fast_hashmap.hpp:123 | `++count_` on a `uint32_t` gives the successor, or 0 after 2^32 - 1. |
| Layout.EmptyNode | fast_hashmap.hpp:110 | A zeroed node has `node_keys` free slots. |
| Layout.NewBigNode | fast_hashmap.hpp:54-67 | `big_node(key0, key1)` has `big_node_keys` slots. Slots 0 and 1 are occupied keys `key0` and `key1`. Every other slot is neither occupied nor a link. |
| Layout.AddKey | fast_hashmap.hpp:118-124 | Storing a key in a slot adds exactly that key to the contents. |
| Layout.Appended | fast_hashmap.hpp:130-132 | `olist.emplace_back(key0, key)` grows the list by one and leaves the node it came from unchanged. |
| Layout.Overflowed | fast_hashmap.hpp:126-137 | Overflowing node r keeps every key. Afterwards the contents are the old ones plus the moved key and the new key. |
| Layout.EmptyTable | fast_hashmap.hpp:108-111 | A zeroed table with an empty `olist` satisfies the invariant and holds no key. |
| Layout.FreeTableInv | fast_hashmap.hpp:108-111 | Any table whose slots are all free and not links, with no big node, satisfies the invariant, whatever its key words hold. |
| Layout.FoundKey | fast_hashmap.hpp:96-97 | A key slot that holds the key met by the scan means the key is in the set. Here `insert` returns false. |
| Layout.KeyLocated | fast_hashmap.hpp:85-98 | Every key of the set sits in a key slot of a node in the chain of bucket `hash(key) % size_`. |
| Layout.ScanMissAbsent | fast_hashmap.hpp:141-150 | The scan reaches a free slot, or the end of a chain, without meeting the key. Then the key is not in the set. |
| Layout.ScanMissFollow | fast_hashmap.hpp:151-152 | A link in the last slot leads to an existing big node further along the same chain. The key is in none of the nodes before it. |
| Layout.NodeLink | fast_hashmap.hpp:101-102 | Every node satisfies the link rule. A link targets a later big node of the same bucket, below `olist.size()`, and no big node of that bucket lies between. A non-link last slot ends the chain. |
| Layout.ChainEndReached | fast_hashmap.hpp:151-152 | Following the links from any node reaches a node of the same chain, at the same position or later, whose last slot is not a link. |
| Layout.ChainEndExists | fast_hashmap.hpp:151-155 | Every bucket's chain has at least one node whose last slot is not a link: the place where `allocate_big` is called. |
| Layout.ChainEndUnique | fast_hashmap.hpp:151-155 | A bucket's chain has at most one node whose last slot is not a link. With ChainEndExists, it has exactly one. |
| Layout.FullFromLink | fast_hashmap.hpp:151-152 | Past a full node whose last slot links on, the chain is full from that node exactly when it is full from the linked node. |
| Layout.FullFromEnd | fast_hashmap.hpp:153-155 | A full node whose last slot holds a key ends its chain, so every node of the chain from it on is full. |
| Layout.ChainFullAtEnd | fast_hashmap.hpp:99-104 | A bucket's chain is full exactly when the last slot of its end node is occupied. That is the slot `insert` and `traverse` find occupied before they call `allocate_big`. |
| Layout.KeyStoredOnce | fast_hashmap.hpp:96-97 | No two key slots hold the same key, so the duplicate test of the slot loop can meet a key only once. |
| Layout.ContentsBounded | fast_hashmap.hpp:43 | Every key held fits the `W - 2`-bit key field. |
| Layout.AddKeyKeepsInv | fast_hashmap.hpp:118-124 | `new_key` on the first free slot of the key's chain keeps the invariant, and the set grows by one key. |
| Layout.OverflowIndexFits | fast_hashmap.hpp:131-133 | While a new key can still be added, `olist.size()` fits the key field, so the link stored in the last slot is not cut. |
| Layout.OverflowKeepsInv | fast_hashmap.hpp:126-137 | `allocate_big` on the end of the key's chain keeps the invariant, and the set grows by one key. |
| Layout.OverflowedAsWritten | fast_hashmap.hpp:130 | `allocate_big` with `uint32_t key0` records the same key locations as the intended version, but writes `key0 % 2^32` into the new big node. |
| Layout.TruncatedKeyLost | fast_hashmap.hpp:130 | For 62-bit keys: a moved key of 2^32 or more is counted in the set but is no longer stored, and the invariant fails. |
| FastHashSet.HashSet.constructor | fast_hashmap.hpp:77-81 | `max_set` empty buckets, no big node, a zero counter, an empty set. |
| FastHashSet.HashSet.Store | fast_hashmap.hpp:120-122 | The write through `KeyFlags &`: the table becomes the old one with slot l overwritten, and nothing else changes. |
| FastHashSet.HashSet.Tally | fast_hashmap.hpp:123 | `++count_` wraps at 2^32. The ghost wrap count keeps the full total. |
| FastHashSet.HashSet.NewKey | fast_hashmap.hpp:118-124 | `new_key` stores the key in the free slot, adds it to the set, keeps the invariant and increments `count_`. |
| FastHashSet.HashSet.AppendBig | fast_hashmap.hpp:130-132 | `olist.emplace_back(key0, key)` with `key0` taken from the last slot of the node. |
| FastHashSet.HashSet.Spill | fast_hashmap.hpp:130-135 | Appends the big node, then turns the last slot into a link to index `olist.size()`: the table becomes `Overflowed`. |
| FastHashSet.HashSet.AllocateBig | fast_hashmap.hpp:126-137 | Called after a scan of a chain-end node that met no free slot and not the key: the key was absent and the chain was full from that node on. `allocate_big` keeps the invariant, adds the key, grows `overdrawn_size()` by exactly one and increments `count_`. |
| FastHashSet.HashSet.Probe | fast_hashmap.hpp:141-150 | The slot loop (the same loop as at 88-98) returns the first slot that is free or holds the key. Every slot before it is occupied and does not hold the key. |
| FastHashSet.HashSet.Traverse | fast_hashmap.hpp:139-156 | Returns true iff the key was absent. The key is in the set afterwards. The invariant holds. A false return changes no slot, no `olist` entry and not `count_`. A true return increments `count_`. `olist` grows by one exactly when the key was absent and every node of the chain from the scanned one on was full; otherwise its length is kept. |
| FastHashSet.HashSet.Extend | fast_hashmap.hpp:151-155 | After a scan that missed: store in the free slot, follow the link, or overflow. Same contract as Traverse. |
| FastHashSet.HashSet.Insert | fast_hashmap.hpp:83-106 | `insert(key)` returns true iff the key was not inserted since construction or the last `clear`. The set gains exactly that key. A false return changes nothing observable. A true return increments `count_` (modulo 2^32). `overdrawn_size()` grows by one exactly when the key is new and every slot of its bucket's chain is occupied. Otherwise it is unchanged. |
| FastHashSet.HashSet.Clear | fast_hashmap.hpp:108-112 | Every slot becomes zero, `olist` is empty and the set is empty. `count_` is kept. |
| FastHashSet.HashSet.Count | fast_hashmap.hpp:114 | `count()` is the number of keys inserted since construction, across clears, modulo 2^32. |
| FastHashSet.HashSet.OverdrawnSize | fast_hashmap.hpp:116 | `overdrawn_size()` is at most the number of keys held. |
| FlagHashSet.FlagIndexInRange | fast_hashmap.hpp:206 | Every flag index `h32 * node_keys + i`, computed in `uint32_t`, is below `max_set * node_keys`, the length of both flag vectors. |
| FlagHashSet.FlagIndexNoWrap | fast_hashmap.hpp:218 | While the flag vectors hold at most 2^32 entries, the `uint32_t` index does not wrap. |
| FlagHashSet.FlagIndexInjective | fast_hashmap.hpp:218 | Within that bound, distinct bucket slots have distinct flag indexes. |
| FlagHashSet.FlagIndexWraps | fast_hashmap.hpp:218 | Beyond that bound, a slot of bucket `2^32 / node_keys` shares its flags with slot 0 of bucket 0. |
| FlagHashSet.Merge | fast_hashmap.hpp:199-202 | The bucket words and the two flag vectors, read at the `uint32_t` index, stand for `size_` nodes of `node_keys` slots each. |
| FlagHashSet.MergeWrite | fast_hashmap.hpp:221-222 | Within the 2^32 bound, writing a word and its two flags writes exactly one slot of the merged table. |
| FlagHashSet.FlagHashSet.constructor | fast_hashmap.hpp:205-209 | Both flag vectors hold `max_set * node_keys` clear bits. There is no big node, the counter is zero and the set is empty. The object keeps `max_set * node_keys` at most 2^32. |
| FlagHashSet.FlagHashSet.ClaimFirst | fast_hashmap.hpp:221-222 | Setting `flags_occupied` and storing the word writes one occupied key slot. |
| FlagHashSet.FlagHashSet.LinkFirst | fast_hashmap.hpp:237-239 | Storing the offset and setting both flags turns the last bucket slot into a link. |
| FlagHashSet.FlagHashSet.StoreBig | fast_hashmap.hpp:269-271 | Writing a big-node slot writes that slot of the table. |
| FlagHashSet.FlagHashSet.Tally | fast_hashmap.hpp:223 | `++count_` wraps at 2^32. |
| FlagHashSet.FlagHashSet.PutKey | fast_hashmap.hpp:254-257 | Writes a key slot, through the flags for a bucket node. |
| FlagHashSet.FlagHashSet.NewKey | fast_hashmap.hpp:254-260 | Stores the key in the free slot, adds it to the set, keeps the invariant and increments `count_`. |
| FlagHashSet.FlagHashSet.AppendBig | fast_hashmap.hpp:234-236 | `olist.emplace_back(key0, key)` with the word or key of the last slot. |
| FlagHashSet.FlagHashSet.Spill | fast_hashmap.hpp:234-239 | Appends the big node and links the last slot to it: the table becomes `Overflowed`. |
| FlagHashSet.FlagHashSet.AllocateBig | fast_hashmap.hpp:262-273 | Called after a scan of a chain-end node that met no free slot and not the key: the key was absent and the chain was full from that node on. The overflow step keeps the invariant, adds the key, grows `olist` by exactly one and increments `count_`. |
| FlagHashSet.FlagHashSet.Probe | fast_hashmap.hpp:216-228 | The slot loop, reading the flags for a bucket node, returns the first slot that is free or holds the key. |
| FlagHashSet.FlagHashSet.Traverse | fast_hashmap.hpp:275-292 | Returns true iff the key was absent. The key is in the set afterwards. The invariant holds. A false return changes nothing. `olist` grows by one exactly when the key was absent and every node of the chain from the scanned one on was full. |
| FlagHashSet.FlagHashSet.Extend | fast_hashmap.hpp:229-241 | After a scan that missed: store, follow the link, or overflow. Same contract as Traverse. |
| FlagHashSet.FlagHashSet.Insert | fast_hashmap.hpp:211-242 | `insert(key)` returns true iff the key is new since construction. The set gains exactly that key. `count_` increases only on true. `overdrawn_size()` grows by one exactly when the key is new and every slot of its bucket's chain is occupied. Otherwise it is unchanged. |
| FlagHashSet.FlagHashSet.ClearAsWritten | fast_hashmap.hpp:244-248 | `clear` as written leaves `flags_occupied` empty and `flags_is_offs` untouched. So every flag index the next `insert` reads is past the end, and the object no longer has the sizes or the invariant its operations require. |
| FlagHashSet.FlagHashSet.Clear | fast_hashmap.hpp:244-248 | `clear` as intended: both flag vectors are back to `size_ * node_keys` clear bits, `olist` is empty, the set is empty, and `count_` is kept. |
| FlagHashSet.FlagHashSet.Count | fast_hashmap.hpp:250 | `count()` is the number of keys inserted since construction, across clears, modulo 2^32. |
| FlagHashSet.FlagHashSet.OverdrawnSize | fast_hashmap.hpp:252 | `overdrawn_size()` is at most the number of keys held. |
| NatBits.AndBit | benchs/main.cpp:11 | Bit k of `x & y` is set iff it is set in both. |
| NatBits.OrBit | benchs/main.cpp:94 | Bit k of the bitwise or of x and y is set iff it is set in either. |
| NatBits.PowBit | benchs/main.cpp:94 | `1UL << e` has exactly bit e set. |
| NatBits.AndLowMask | benchs/main.cpp:11 | `x & (2^e - 1)` is `x % 2^e`. |
| NatBits.AndHighMask | benchs/main.cpp:12 | `x & ~(2^e - 1)` keeps the low n bits of x with the low e of them cleared. |
| Bitmaps.GetAligned | benchs/main.cpp:9-14 | `get_aligned(count, 2^e)` on a word of `bits` bits, as written. The result fits the word. Its rounding is stated by the lemmas below. |
| Bitmaps.LowBitsTest | benchs/main.cpp:11 | The test `count & (align - 1)` is true iff count is not a multiple of align. |
| Bitmaps.RoundDown | benchs/main.cpp:12 | Masking with `~(align - 1)` rounds down to a multiple of align. |
| Bitmaps.GetAlignedValue | benchs/main.cpp:9-14 | `get_aligned` without bit operators: count itself when aligned, otherwise `count + align` (wrapping at 2^64) rounded down to a multiple of align. |
| Bitmaps.GetAlignedIsMultiple | benchs/main.cpp:9-14 | The result is a multiple of align, even when the addition wraps. |
| Bitmaps.GetAlignedFixed | benchs/main.cpp:11-13 | The result equals count iff count is already a multiple of align. |
| Bitmaps.GetAlignedRoundsUp | benchs/main.cpp:9-14 | Without wrap-around, `count <= result < count + align`. |
| Bitmaps.GetAlignedIsLeast | benchs/main.cpp:9-14 | Without wrap-around, the result is at most every multiple of align that is at least count, so it is the least such multiple. |
| Bitmaps.RawSizing | benchs/main.cpp:76-77 | `get_aligned(max_capacity, 256)` bits make a whole number of bytes and of 64-bit words. Without wrap-around, they cover `max_capacity` with fewer than 256 bits to spare. |
| Bitmaps.MembersHas | benchs/main.cpp:88-89 | Id d is present iff bit `d % 64` of word `d / 64` is set. |
| Bitmaps.ZeroWords | benchs/main.cpp:106 | Zero words hold no id. |
| Bitmaps.MembersInsert | benchs/main.cpp:94 | Or-ing `1UL << (d % 64)` into the word of d adds d and no other id. |
| Bitmaps.BitmapSetRaw.constructor | benchs/main.cpp:74-79 | `capacity_` is `get_aligned(max_capacity, 256) / 8` bytes of zeroed words, and the set is empty. Without wrap-around, every id below `max_capacity` has a bit, with fewer than 256 bits to spare. |
| Bitmaps.BitmapSetRaw.Insert | benchs/main.cpp:86-98 | Returns false iff the bit of docid was already set. Afterwards the set is the old one plus docid. `count_` grows by one exactly on true. |
| Bitmaps.BitmapSetRaw.Count | benchs/main.cpp:100 | `count()` is the number of ids present. |
| Bitmaps.BitmapSetRaw.Clear | benchs/main.cpp:102-107 | Zeroing `capacity_` bytes zeroes every word: the set is empty and `count_` is 0, so each id inserts as new again. |
| Bitmaps.BitmapSetStd.constructor | benchs/main.cpp:49 | `max_set` entries, all false, and a zero count. |
| Bitmaps.BitmapSetStd.Insert | benchs/main.cpp:51-58 | Returns false iff `bm[id]` was set. Afterwards the set is the old one plus id and the length is kept. `count_` grows by one exactly on true. |
| Bitmaps.BitmapSetStd.Count | benchs/main.cpp:60 | `count()` is the number of ids present. |
| Bitmaps.BitmapSetStd.Clear | benchs/main.cpp:62-66 | Same length, every entry false, `count_` is 0. |

## Left out

- FastHashSet.HashSet.Insert requires `key < 2^(W-2)`: 2^30 for `fast_hashset30`, 2^62 for `fast_hashset62`. The C++ silently cuts a wider key to the bit-field. The same requirement is on FlagHashSet.FlagHashSet.Insert, with 2^30.
- FastHashSet.HashSet.Insert requires `olist.size() + 1 < 2^32`. Otherwise `uint32_t offs = olist.size()` (fast_hashmap.hpp:131, 235, 267) would wrap. The same requirement is on FlagHashSet.FlagHashSet.Insert.
- FastHashSet.HashSet.constructor starts from free slots. `new node[max_set]` (fast_hashmap.hpp:78, 206) leaves the slots indeterminate, and `insert` reads `occupied` before writing it. The C++ depends on the allocator handing out zeroed memory. The flag variant only reads a word after its flag is set, so only its words start at 0.
- FastHashSet.HashSet.constructor and FlagHashSet.FlagHashSet.constructor require `max_set < 2^32`. `size_` is a `uint32_t` initialised from a `size_t`.
- FlagHashSet.FlagHashSet.constructor requires `max_set * node_keys <= 2^32`, and `Sized` keeps that bound for the object's life. The C++ computes every flag index `h32 * node_keys + i` in `uint32_t` (fast_hashmap.hpp:218, 221, 226, 231, 238-239), while both vectors hold `max_set * node_keys` entries. Beyond 2^32 flags the index wraps and two buckets share their flags (FlagHashSet.FlagIndexWraps). A bucket can then see a link flag that another bucket set, and `insert` reads `olist` past its end. The model does not cover such a set.
- FlagHashSet.FlagIndexInjective holds only within the 2^32 bound. FlagHashSet.FlagIndexWraps shows two slots sharing an index beyond it.
- FlagHashSet.Merge reads the flags at the wrapped index, as the C++ does. Only within the 2^32 bound does each merged slot have flags of its own.
- FlagHashSet.MergeWrite requires the 2^32 bound. Beyond it, one flag write changes two merged slots.
- FlagHashSet.FlagHashSet.ClaimFirst requires `Sized`, so it says nothing of a set beyond the 2^32 bound, where the flag it sets also belongs to another bucket's slot.
- FlagHashSet.FlagHashSet.LinkFirst requires `Sized`, so it says nothing of a set beyond the 2^32 bound, where the link flags it sets also belong to another bucket's slot.
- FlagHashSet.FlagHashSet.PutKey requires `Sized`, so it says nothing of a set beyond the 2^32 bound.
- FlagHashSet.FlagHashSet.NewKey requires `Valid`, so it says nothing of a set beyond the 2^32 bound.
- FlagHashSet.FlagHashSet.Spill requires `Sized`, so it says nothing of a set beyond the 2^32 bound.
- FlagHashSet.FlagHashSet.AllocateBig requires `Valid`, so it says nothing of a set beyond the 2^32 bound.
- FlagHashSet.FlagHashSet.Probe requires `Valid`, so it says nothing of a set beyond the 2^32 bound, where the flags it reads may belong to another bucket.
- FlagHashSet.FlagHashSet.Traverse requires `Valid`, so it says nothing of a set beyond the 2^32 bound.
- FlagHashSet.FlagHashSet.Extend requires `Valid`, so it says nothing of a set beyond the 2^32 bound, where the link flag it reads may belong to another bucket.
- FlagHashSet.FlagHashSet.Insert requires `Valid`, so it says nothing of a set beyond the 2^32 bound, where the C++ can read `olist` out of bounds.
- FastHashSet.HashSet.constructor and FlagHashSet.FlagHashSet.constructor require `max_set > 0`. The C++ builds a set of zero buckets, and `clear`, `count` and `overdrawn_size` work on it. Only `insert` is undefined there: it divides by `size_` (fast_hashmap.hpp:85, 213). The model does not cover the zero-bucket object.
- FastHashSet.HashSet.Insert, for `fast_hashset62`, follows the corrected `allocate_big`: the moved key keeps its full 62 bits. The code as written cuts it to 32 bits (fast_hashmap.hpp:130). So for keys of 2^32 or more, the contract of Insert holds for the corrected program only. The as-written step is Layout.OverflowedAsWritten; see Findings.
- Allocation failure is not modelled. Here `new` or `olist.emplace_back` throw (fast_hashmap.hpp:78, 132, 206, 236, 268), and `calloc` returns NULL (benchs/main.cpp:77). Every allocation is assumed to succeed.
- The `olist.reserve(max_set * 0.1)` capacity hint (fast_hashmap.hpp:80, 208) is left out: floating point, and it has no effect on contents.
- The traverse recursion holds a `big_node &` into `olist` across the `emplace_back` in `allocate_big`. Once the vector reallocates beyond its reserve, the write goes through a dangling reference. The C++ then writes the link into the freed buffer. The node in the new buffer keeps key0 as a plain key, the new big node is unreachable, and `key` is lost: a later `insert(key)` returns true again. The model writes the link into the node meant, so it does not capture this loss.
- `KeyFlags` packing and bit-field order are not modelled. A slot is a record of its three fields. The `static_assert`s on `sizeof(KeyFlags)` are represented by fixing the key width (`Shape.wide`).
- The `Hash32` template parameter is fixed to `utils::hash32`, as in every instantiation (fast_hashmap.hpp:314-329). The flag variant's key type is fixed to `uint32_t` by its `static_assert`.
- `count_` of `bitmap_set_raw` and `bitmap_set_std` is a `size_t`. Its wrap at 2^64 is not modelled, since it holds at most `max_capacity` ids.
- Bitmaps.BitmapSetRaw.Insert requires `docid < 64 * words`. The C++ writes out of bounds otherwise, which is undefined behaviour.
- Bitmaps.BitmapSetStd.Insert requires `id < bm.size()`. `vector<bool>::operator[]` past the end is undefined behaviour.
- Bitmaps.GetAligned covers only power-of-two alignments `2^e`, which is every use in benchs/main.cpp. Rounding bounds are proved only when `count + align` does not wrap.
- Bitmaps.BitmapSetRaw.constructor gives its sizing bounds only when `max_capacity + 256 < 2^64`. Without that bound, `get_aligned` wraps.
- The 64-bit words of `bitmap_set_raw` are modelled as naturals whose set bits are all below 64. `calloc` and `free` are the allocation and release of the array.
- Not modelled: `aligned_malloc`, `std_uset`, the benchmark driver and its timing, `main` (benchs/main.cpp:16-45, 115-166), and the gtest harness. `timestamp.hpp` is not part of this model.

## Findings

| source | as written | input that shows it | evidently intended | confidence | as-written member | corrected member |
|---|---|---|---|---|---|---|
| fast_hashmap.hpp:244-248 | `clear` calls `flags_occupied.clear()`, which leaves a vector of length 0. `flags_is_offs` keeps every bit. | `fast_hashset_fclear<uint32_t, utils::hash32> s(1); s.insert(1); s.clear(); s.insert(1);`: the second `insert` reads `flags_occupied[0]` of an empty vector. | Reset both flag vectors to `size_ * node_keys` clear bits and empty `olist`. | not executed | FlagHashSet.FlagHashSet.ClearAsWritten | FlagHashSet.FlagHashSet.Clear |
| fast_hashmap.hpp:130 | `uint32_t key0 = last_k.key` in `fast_hashsetimpl::allocate_big` keeps only 32 bits of a 62-bit key. | `fast_hashset62<2, 4> s(1); s.insert(0); s.insert(1ULL << 32); s.insert(1);`: the big node receives key 0 in place of 2^32. A later `s.insert(1ULL << 32)` returns true again. | `T key0 = last_k.key`, so the moved key keeps its full width. | not executed | Layout.TruncatedKeyLost | Layout.OverflowKeepsInv |

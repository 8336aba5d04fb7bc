# ArceOS early allocators and the `axstd` hash map, in Dafny

This project models three pieces of ArceOS as imperative Dafny: classes with
the source's fields, methods with `modifies` clauses, and loops with their
invariants.

- **`EarlyAllocator`** (module `BumpAllocator`) is the boot-time allocator.
  It manages one region from both ends:
  - byte allocations bump `bytePos` up from `byteStart`;
  - page allocations bump `pagePos` down from `end`.

  A counter of live byte allocations triggers a bulk reclaim of the whole
  byte area when it drops to zero. `PAGE_SIZE` is a constant of the object,
  required to be a power of two.
- **`LabByteAllocator`** (module `LabAllocator`) is a byte allocator.
  - Requests of alignment 1 take bytes from both ends of `[start, end)`. The
    end is chosen by the parity of the request counter `cnt`: an odd counter
    bumps `pos1` up, an even one bumps `pos2` down.
  - Such a request is refused while `pos2 == end` and the gap is below the
    headroom of `0x102000` bytes.
  - Every request of larger alignment is served from one of four embedded
    buffers, chosen by exact size (96, 192, 384, anything else). Repeated
    requests of one size get the same address.
- **`HashMap`** (module `HashMaps`) is the `axstd` shim's map: open
  addressing with linear probing over a vector of optional pairs.
  - It starts with 16 buckets and doubles when half full.
  - It hashes with `SimpleHasher`, which applies `h := h * 31 + b` (mod 2^64)
    to each byte.
  - Its iterator scans the buckets in index order.

  The vector is a `seq<Option<(K, V)>>` field, replaced on every change. The
  bytes that `K: Hash` writes into the hasher are the map's `keyBytes`
  function. Everything from those bytes on is modelled: the byte-by-byte
  hasher, the home bucket, the probe and the wrap-around.

In the two allocators, machine words are `nat`s bounded by `2^64 - 1` in
the class's `Valid()`; the hash map's `len` and bucket count have no such
bound. Almost every overflow that Rust would check in a debug build, and
every failing `assert!`, is excluded by a precondition, so on those inputs
both builds agree. Each `checked_add`/`checked_sub` appears as the error
path it takes in the source. The masks `x & !(a - 1)` for a power of two `a`
are written as `x - x % a` (`AlignDown`).

The one exception is the page mask `align_mask * PAGE_SIZE` in
`alloc_pages`. That product always overflows for a page size of two or
more, so no precondition could exclude it. There the model follows a build
without overflow checks, where the product wraps: `WrappedPageMask` proves
that the wrapped product is the mask of `align_pow2` itself. A build with
overflow checks panics at that point (see "## Findings").

The proved properties include:
- each allocator's cursor order is preserved, and its byte and page figures
  add up;
- alignment and bounds hold for every address handed out;
- bulk reclaim works for any interleaved run of byte requests (each with its
  own size and alignment) and releases that match them;
- the lab allocator's alternation, round trips and size-class aliasing;
- for the hash map:
  - the linear-probing invariant (every stored pair is reachable from its
    home bucket without passing an empty bucket) is kept by `insert` and
    `resize`;
  - `resize` preserves the multiset of pairs;
  - `get` agrees with a reference lookup, and finds any key that has been
    inserted;
  - the iterator yields the stored pairs in bucket order, `len` of them;
  - the hasher is a left fold, so writing `a ++ b` equals writing `a` and
    then `b`.

Files (all modules are top level):
- `arith.dfy`: Euclidean division facts;
- `optional.dfy`: `Option`;
- `alloc_types.dfy`: error type, word bound, powers of two, rounding;
- `bump_allocator.dfy`, `lab_allocator.dfy`, `hash_map.dfy`.

In two places the code behaves differently from what one might expect, and
the model follows the code:

- On the lab allocator, one might expect `init(0x1000, 0x1000)` followed by
  two alignment-1 allocations of 64 bytes to land them on opposite ends of
  `[0x1000, 0x2000)`. In the code the first request already fails with `NoMemory`: `pos2 == end` and the
  0x1000-byte gap is below the `0x102000` headroom. This is
  `LabAllocator.SmallRegionRefused`. The alternation itself holds once that
  guard is passed (`LabAllocator.Alternation`).
- The early allocator's `init` sets the live-byte counter to the region size,
  not to 0. So a paired allocation and release right after `init` reclaims
  nothing (`BumpAllocator.InitThenPairedAlloc`). The bulk-reclaim round trip
  holds from a zero counter (`BumpAllocator.AllocDeallocReclaims`).

## Model

| member | source | states |
|---|---|---|
| AllocTypes.AlignUp | arceos/modules/bump_allocator/src/lib.rs:59 | `(x + a - 1) & !(a - 1)` is a multiple of `a` in `[x, x + a)` |
| AllocTypes.AlignDown | arceos/modules/bump_allocator/src/lib.rs:109 | masking rounds down: a multiple of `a` in `(x - a, x]` |
| AllocTypes.PageMaskProductOverflows | arceos/modules/bump_allocator/src/lib.rs:102-109 | with a page size of two or more, the plain product `!(align_pages - 1) * PAGE_SIZE` exceeds the word for every accepted alignment |
| AllocTypes.WrappedPageMask | arceos/modules/bump_allocator/src/lib.rs:102-109 | `!(align_pages - 1) * PAGE_SIZE`, wrapped to 64 bits, equals `!(align_pow2 - 1)` |
| BumpAllocator.AcceptedPageMask | arceos/modules/bump_allocator/src/lib.rs:93-109 | for an accepted alignment, `align_pow2 > 0` and the wrapped page mask is the byte mask of `align_pow2` |
| BumpAllocator.PageTarget | arceos/modules/bump_allocator/src/lib.rs:104-109 | the subtraction succeeds iff `total <= page_pos`; the target is then aligned, at least `total` below `page_pos` and less than `total + align` below it |
| BumpAllocator.EarlyAllocator.constructor | arceos/modules/bump_allocator/src/lib.rs:30-38 | every cursor and the counter are 0, and the invariant holds |
| BumpAllocator.EarlyAllocator.Init | arceos/modules/bump_allocator/src/lib.rs:42-48 | `byte_start = byte_pos = start`, `page_pos = end = start + size`, `byte_count = size`; the invariant holds |
| BumpAllocator.EarlyAllocator.Alloc | arceos/modules/bump_allocator/src/lib.rs:55-70 | success exactly when the aligned end fits below `page_pos`: returns the aligned position, moves `byte_pos` to its end, counts one more; otherwise `NoMemory` with nothing changed; the page side never moves |
| BumpAllocator.EarlyAllocator.Dealloc | arceos/modules/bump_allocator/src/lib.rs:71-78 | no-op at count 0; else decrements, and at 0 resets `byte_pos` to `byte_start`; `page_pos`, `end` and `byte_start` unchanged |
| BumpAllocator.EarlyAllocator.TotalBytes | arceos/modules/bump_allocator/src/lib.rs:79-81 | the total fits within the region `[byte_start, end)` |
| BumpAllocator.EarlyAllocator.UsedBytes | arceos/modules/bump_allocator/src/lib.rs:82-84 | used bytes never exceed the total |
| BumpAllocator.EarlyAllocator.AvailableBytes | arceos/modules/bump_allocator/src/lib.rs:85-87 | used plus available is the total |
| BumpAllocator.EarlyAllocator.PageAlignAccepted | arceos/modules/bump_allocator/src/lib.rs:93-100 | an accepted alignment is at least one page (so 0 is refused) |
| BumpAllocator.EarlyAllocator.AllocPages | arceos/modules/bump_allocator/src/lib.rs:92-117 | `InvalidParam` with nothing changed unless the alignment is accepted; `NoMemory`, nothing changed, on underflow or when the target is below `byte_pos`; otherwise `page_pos` becomes the aligned target and is returned; a result is aligned, at or above `byte_pos` and `n * PAGE_SIZE` or more below the old `page_pos`; byte fields never move |
| BumpAllocator.EarlyAllocator.TotalPages | arceos/modules/bump_allocator/src/lib.rs:121-123 | the pages counted fit between `byte_pos` and `end` |
| BumpAllocator.EarlyAllocator.UsedPages | arceos/modules/bump_allocator/src/lib.rs:124-126 | the pages counted fit between `page_pos` and `end` |
| BumpAllocator.EarlyAllocator.AvailablePages | arceos/modules/bump_allocator/src/lib.rs:127-129 | used plus available pages never exceed the total (floor division) |
| BumpAllocator.AllocDeallocReclaims | arceos/modules/bump_allocator/src/lib.rs:55-78 | from a zero counter, over any interleaving of requests (each with its own size and power-of-two alignment) and releases: the counter plus the releases equals the granted requests plus the releases that found it at zero; at counter 0 `byte_pos == byte_start`; so releases matching the grants one for one reclaim the byte area; every granted block lies in `[byte_start, page_pos]`; the page side is unchanged |
| BumpAllocator.InitThenPairedAlloc | arceos/modules/bump_allocator/src/lib.rs:42-78 | right after `init`, an allocation and its release leave the counter at the region size and the block still counted as used |
| BumpAllocator.OnePageReducesAvailable | arceos/modules/bump_allocator/src/lib.rs:79-117 | one page at page alignment from a page-aligned `page_pos` succeeds and lowers `available_bytes` by exactly one page |
| LabAllocator.LabByteAllocator.constructor | arceos/labs/lab_allocator/src/lib.rs:23-35 | every cursor and `cnt` are 0; the four buffers are distinct |
| LabAllocator.LabByteAllocator.Init | arceos/labs/lab_allocator/src/lib.rs:41-46 | `start`, `pos_1 = start`, `pos_2 = end = start + size`; `cnt` untouched |
| LabAllocator.LabByteAllocator.AddMemory | arceos/labs/lab_allocator/src/lib.rs:47-56 | at `start == end`: `end += size`, `pos_2 = end`, `Ok`; otherwise `InvalidParam` with nothing changed; `start`, `pos_1`, `cnt` never move; the cursor order is kept |
| LabAllocator.LabByteAllocator.ClassBlock | arceos/labs/lab_allocator/src/lib.rs:83-96 | size 96, 192, 384 pick their own buffer, every other size the 86016-byte one, each case if and only if |
| LabAllocator.LabByteAllocator.Alloc | arceos/labs/lab_allocator/src/lib.rs:60-98 | alignment 1: `NoMemory` with nothing changed exactly under the headroom guard; otherwise odd `cnt` returns old `pos_1` and advances it, even `cnt` lowers `pos_2` and returns it, the other cursor stays, `cnt + 1`, `pos_1 < pos_2`; larger alignment: the size-class buffer, nothing changed; every address is non-zero |
| LabAllocator.LabByteAllocator.Dealloc | arceos/labs/lab_allocator/src/lib.rs:99-107 | `ptr == pos_2`: `pos_2 += size`, `cnt = 0`; else `ptr == pos_1 - size`: `pos_1 -= size`; else nothing; order kept for releases that fit the region |
| LabAllocator.LabByteAllocator.TotalBytes | arceos/labs/lab_allocator/src/lib.rs:108-110 | always `0x1000` |
| LabAllocator.LabByteAllocator.UsedBytes | arceos/labs/lab_allocator/src/lib.rs:111-113 | both used sides together fit in `end - start`, provided `pos_1 - start + end`, summed left to right as the source does, stays within the word |
| LabAllocator.LabByteAllocator.AvailableBytes | arceos/labs/lab_allocator/src/lib.rs:114-116 | used plus available is `end - start` whenever `used_bytes` does not overflow |
| LabAllocator.HighSideRoundTrip | arceos/labs/lab_allocator/src/lib.rs:68-106 | a high-side allocation released with its address and size restores `pos_2`, keeps `pos_1` and resets `cnt` to 0 |
| LabAllocator.LowSideRoundTrip | arceos/labs/lab_allocator/src/lib.rs:68-106 | a low-side allocation released with its address and size restores `pos_1` and `pos_2`; `cnt` keeps its increment |
| LabAllocator.Alternation | arceos/labs/lab_allocator/src/lib.rs:63-81 | from an even counter, two equal requests land at the top and the bottom of the gap |
| LabAllocator.SizeClassAliasing | arceos/labs/lab_allocator/src/lib.rs:82-97 | two larger-alignment requests of one size return the same buffer and change nothing |
| LabAllocator.SmallRegionRefused | arceos/labs/lab_allocator/src/lib.rs:41-66 | `init(0x1000, 0x1000)` then an alignment-1 request gives `NoMemory` |
| HashMaps.AbsorbConcat | arceos/ulib/axstd/src/collections/hash/map.rs:102-106 | writing `a ++ b` leaves the hasher where writing `a` then `b` does |
| HashMaps.SimpleHasher.constructor | arceos/ulib/axstd/src/collections/hash/map.rs:99 | the hasher starts from the given state |
| HashMaps.SimpleHasher.Write | arceos/ulib/axstd/src/collections/hash/map.rs:102-106 | the state becomes the byte-by-byte fold of `h * 31 + b` mod 2^64 |
| HashMaps.SimpleHash | arceos/ulib/axstd/src/collections/hash/map.rs:90-110 | a hasher from 0, the key's bytes written, the state read out through `SimpleHasher.Finish` (`finish` returns the state unchanged): the hash of a key is the fold of its bytes from 0 and fits 64 bits |
| HashMaps.Empty | arceos/ulib/axstd/src/collections/hash/map.rs:12 | `vec![None; n]`: `n` buckets, all empty, no pairs |
| HashMaps.Home | arceos/ulib/axstd/src/collections/hash/map.rs:16-23 | the home bucket is a valid index |
| HashMaps.Distance | arceos/ulib/axstd/src/collections/hash/map.rs:36 | the probe from `h` reaches bucket `i` in fewer than `n` steps |
| HashMaps.DistanceOfSlot | arceos/ulib/axstd/src/collections/hash/map.rs:36 | the first `n` probe steps visit distinct buckets, so the distance to step `d` is `d` |
| HashMaps.FreeDistance | arceos/ulib/axstd/src/collections/hash/map.rs:30-38 | the first empty bucket from a probe step, with every bucket before it occupied, or none when all are occupied |
| HashMaps.FreeExists | arceos/ulib/axstd/src/collections/hash/map.rs:26-38 | a table with fewer pairs than buckets has an empty bucket on every probe, so the probe loops end |
| HashMaps.Place | arceos/ulib/axstd/src/collections/hash/map.rs:29-34 | filling the first empty bucket keeps the size and stores one more pair |
| HashMaps.PlaceContents | arceos/ulib/axstd/src/collections/hash/map.rs:29-34 | the stored pairs grow by exactly the new pair (multiset) |
| HashMaps.LookupFrom | arceos/ulib/axstd/src/collections/hash/map.rs:41-50 | a found value is stored under the key; a key in no bucket is not found |
| HashMaps.PlaceReachable | arceos/ulib/axstd/src/collections/hash/map.rs:29-38 | placing at the home's first empty bucket keeps every pair reachable from its home |
| HashMaps.PlaceThenLookup | arceos/ulib/axstd/src/collections/hash/map.rs:29-50 | after placing a key absent from the table, the lookup from its home returns its value |
| HashMaps.LookupFindsStored | arceos/ulib/axstd/src/collections/hash/map.rs:41-50 | in a table where every pair is reachable, every stored key is found, with its own value when the key is unique |
| HashMaps.Regrow | arceos/ulib/axstd/src/collections/hash/map.rs:56-60 | re-inserting a prefix of the old buckets keeps the size and adds at most one pair per bucket |
| HashMaps.RegrowContents | arceos/ulib/axstd/src/collections/hash/map.rs:56-60 | re-inserting a prefix stores exactly the pairs of the prefix (multiset) |
| HashMaps.RegrowReachable | arceos/ulib/axstd/src/collections/hash/map.rs:56-60 | re-insertion keeps every pair reachable |
| HashMaps.RegrownReachable | arceos/ulib/axstd/src/collections/hash/map.rs:52-61 | re-inserting a whole table into twice as many empty buckets gives an even table with every pair reachable |
| HashMaps.RegrownContents | arceos/ulib/axstd/src/collections/hash/map.rs:52-61 | the regrown table holds the same multiset of pairs and the same count |
| HashMaps.KeyAbsent | arceos/ulib/axstd/src/collections/hash/map.rs:29-38 | a key not among the stored pairs is in no occupied bucket |
| HashMaps.HashMap.constructor | arceos/ulib/axstd/src/collections/hash/map.rs:11-14 | 16 empty buckets, `len == 0`, invariant holds |
| HashMaps.HashMap.Hash | arceos/ulib/axstd/src/collections/hash/map.rs:16-23 | `hash(key) < buckets.len()` |
| HashMaps.HashMap.ProbeInsert | arceos/ulib/axstd/src/collections/hash/map.rs:29-38 | the probe loop fills the first empty bucket from the key's home, `len + 1`, no other bucket changes |
| HashMaps.HashMap.Resize | arceos/ulib/axstd/src/collections/hash/map.rs:52-61 | bucket count doubles, `len` unchanged, the multiset of pairs preserved, the invariant kept, and the nested `insert` never grows again |
| HashMaps.HashMap.Insert | arceos/ulib/axstd/src/collections/hash/map.rs:25-39 | grow if half full, then place at the first empty bucket from the home without overwriting an equal key; `len + 1`; pairs grow by the new one; invariant kept; a key that was absent is then found by lookup with its value |
| HashMaps.HashMap.Get | arceos/ulib/axstd/src/collections/hash/map.rs:41-50 | the probe loop returns the reference lookup: the first bucket with the key, or `None` at the first empty bucket |
| HashMaps.HashMap.Iter | arceos/ulib/axstd/src/collections/hash/map.rs:63-68 | the iterator starts at bucket 0 with the stored pairs, `len` of them, still to come |
| HashMaps.Iter.constructor | arceos/ulib/axstd/src/collections/hash/map.rs:71-74 | an iterator over the given buckets at index 0 |
| HashMaps.Iter.Next | arceos/ulib/axstd/src/collections/hash/map.rs:76-88 | yields the first stored pair not yet yielded and drops it from the rest, or `None` once none is left |

## Left out

- `EarlyAllocator::add_memory` and `dealloc_pages` are `unimplemented!()` in the source. The model has no member for them and invents no behaviour.
- Raw pointers, `NonNull`, `Layout` and the `allocator` crate's traits are not modelled. Addresses and sizes are `nat`s, the error enum is `AllocError`, and `usize` is bounded by `Valid()`.
- The bytes inside the lab allocator's four buffers are not modelled. Only their base addresses matter, and these are four distinct, non-zero constructor parameters.
- `unsafe impl Send` is a concurrency marker with no behaviour.
- `!` and `&` on machine words are written as arithmetic (`2^64 - m` and `x - x % a`). They are not proved equal to the bit operations.
- For a page size of two or more, the page mask at arceos/modules/bump_allocator/src/lib.rs:109 always overflows, so there the model describes a build without overflow checks, where the product wraps. With such a page size, a build with overflow checks panics at that line on every accepted alignment once the `checked_sub` succeeds; `AllocTypes.PageMaskProductOverflows` states this. For a page size of 1 the product is the mask itself and does not overflow.
- Debug-mode overflow panics elsewhere and the lab allocator's `assert!`s are preconditions. So are `unwrap()` on a null pointer and `pos_1 - size` underflowing in `dealloc`. The model does not describe the panics themselves.
- HashMaps.HashMap.Insert: `len` and the bucket count have no machine-word bound. `len * 2` and the doubled bucket count are taken not to overflow.
- `K: Hash` is a foreign trait. The bytes a key writes into the hasher are modelled as the map's `keyBytes` function, so equal keys write equal bytes. Keys are compared with Dafny equality (`K(==)`).
- Allocating and dropping the `Vec` storage in `resize` is not modelled; the bucket sequence is replaced as a value.
- `get` returns `Option<&V>` and `Iter::next` returns `(&K, &V)`. The model returns the values, not references.
- LabAllocator.LabByteAllocator.Dealloc: the cursor order is kept only when the caller's release fits the region. That condition is a hypothesis of the ensures, because the source does not check it.

## Findings

| source | as written | input that shows it | evidently intended | confidence | as-written member | corrected member |
|---|---|---|---|---|---|---|
| arceos/modules/bump_allocator/src/lib.rs:109 | `new_page_pos &= align_mask * PAGE_SIZE` with a plain `*`, where `align_mask = !(align_pages - 1) = 2^64 - align_pages` | `PAGE_SIZE = 4096`, `alloc_pages(1, 4096)` with `page_pos >= 4096`: `(2^64 - 1) * 4096` overflows, so an overflow-checked build panics | a wrapping product (or the mask `!(align_pow2 - 1)` directly), which rounds down to a multiple of `align_pow2` | high; not executed | AllocTypes.PageMaskProductOverflows | BumpAllocator.AcceptedPageMask |

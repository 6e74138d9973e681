# kstd storage and IO kit, in Dafny

This project models the storage and IO core of the `kstd` kernel support
library and proves properties of the model:

- **LRU cache** (`lru.dfy`): a bounded deque with the most recent item at
  the front and eviction from the back.
- **Block devices**:
  - the block device contract and its blanket `read_at`, which reads an
    arbitrary byte range by staging whole blocks (`block_device.dfy`);
  - the write-back block cache (`cache.dfy`);
  - the copy-on-write device (`cow.dfy`);
  - the counting stub device `OneDevice` (`one_device.dfy`).
- **Byte streams**:
  - the error enumeration and `ReadAt` for vectors (`io.dfy`);
  - `read_exact` and `write_all` over any reader or writer (`streams.dfy`);
  - the in-memory `Cursor` and the `Seek` defaults (`cursor.dfy`);
  - the one-element `SingleRead` adapter (`testing.dfy`);
  - the reading macros with their big- and little-endian integer decoding
    (`macros.dfy`).
- **Delta queue** (`deltaq.dfy`): each element stores the difference between
  its key and the key before it.
- **Paths**:
  - the component tokeniser (`components.dfy`);
  - the growable `OwnedPath` with `push` and `into_components` (`owned.dfy`).

Objects whose methods update fields in place are classes:
- `LruCache`, `Disk`, `BlockCache`, `CowBlockDevice`, `OneDevice`, `Cursor`,
  `SingleRead`, `DeltaQueue`, `Components`, `OwnedPath`.

Each class method is proved against a function that specifies it:
- `Inserted`, `Promoted`, `ReadView`, `Flat`, `CursorRead`, `CursorWrite`,
  `SeekResult`, `ReadExactSpec`, `WriteAllSpec`, `PushAll`, `Resolve`,
  `ComponentsOf`.

The lemmas state what the source promises about those functions: round
trips, invariants, orderings, and its unit tests stated over all inputs of
their shape.

Generic code over traits is modelled as follows:
- A generic block device (`D: BlockDevice`) is the memory-backed class
  `BlockDevice.Disk`. It has a fixed block size and a sequence of equally
  long blocks, and it counts calls to `block_size`, `read_block` and
  `write_block`.
- A generic reader or writer is a state `S` plus a function that gives the
  outcome of one `read`/`write` call from that state. `read_exact`,
  `write_all` and the macros take that function as a parameter.

## Model

| member | source | states |
|---|---|---|
| Io.FirstMatch | src/collections/lru.rs:32 | the index `position` finds is the first element satisfying the predicate; `None` means no element does |
| Io.VecReadAt | src/io/mod.rs:67-79 | a vector read is all or nothing: exactly the `len` elements from `offset` when they lie inside the vector, else `InvalidOffset` |
| Io.VecReadAtEmpty | src/io/mod.rs:70-78 | an empty buffer at any offset up to the length reads nothing successfully |
| Io.ReadAtRef | src/io/mod.rs:67-79 | `read_at` on `&Vec` fills the buffer with the elements at `offset` and returns its length, or fails with `InvalidOffset` exactly when the range runs past the end, leaving the buffer untouched |
| Io.ReadAtOwned | src/io/mod.rs:86-88 | the owned-vector `read_at` has the same outcome as the borrowed one |
| Lru.ReverseKeepsItems | src/collections/lru.rs:63-69 | evicting back to front hands out every held item exactly as often as it is held |
| Lru.Promoted | src/collections/lru.rs:32-35 | after a hit the found item is at the front and the deque holds the same items |
| Lru.PromotedKeepsOrder | src/collections/lru.rs:33-34 | moving an item to the front keeps every other item in its relative order |
| Lru.Victim | src/collections/lru.rs:41-45 | an insert evicts exactly when the deque holds at least `max_size` items and is not empty, and the victim is the back item |
| Lru.Inserted | src/collections/lru.rs:40-47 | after an insert the new item is at the front and the deque stays within its bound (one item for a cache of size 0) |
| Lru.InsertedKeepsItems | src/collections/lru.rs:40-47 | an insert loses nothing: the deque afterwards plus the victim are the old deque plus the new item, as multisets |
| Lru.InsertBelowCapacity | src/collections/lru.rs:41-46 | below capacity nothing is evicted and the new item is pushed in front of the unchanged deque |
| Lru.InsertKeepsDuplicates | src/collections/lru.rs:86-94 | inserting an item already held adds a second copy instead of deduplicating |
| Lru.InsertIntoFull | src/collections/lru.rs:41-46 | an insert into a full deque evicts its back item and shifts the rest back by one |
| Lru.InsertAllFromEmpty | src/collections/lru.rs:108-123 | inserting a run of items into an empty cache keeps the newest `max_size` of them, newest first, and evicts the others oldest first |
| Lru.LruCache.constructor | src/collections/lru.rs:16-26 | a new cache (with or without an eviction handler) is empty and has the given size |
| Lru.LruCache.Len | src/collections/lru.rs:54-56 | the length is the number of items held |
| Lru.LruCache.IsEmpty | src/collections/lru.rs:58-60 | the cache is empty exactly when its length is zero |
| Lru.LruCache.Find | src/collections/lru.rs:28-38 | the first item satisfying the predicate is moved to the front and returned; with no match the deque is unchanged and the result is `None`; every inserted item is still held or was evicted |
| Lru.LruCache.Insert | src/collections/lru.rs:40-47 | the deque becomes `Inserted`'s and the returned victim is `Victim`'s; both are logged, so every inserted item is still held or was evicted |
| Lru.LruCache.Teardown | src/collections/lru.rs:63-69 | dropping evicts every held item, back to front; afterwards the items evicted over the cache's life are, as a multiset, exactly the items inserted |
| Lru.LruCache.EvictBack | src/collections/lru.rs:65-66 | one round of drop removes the back item and evicts it |
| BlockDevice.FlatWindow | src/io/device/block/mod.rs:39-48 | the bytes of blocks `lo..hi` are the device bytes `lo*bs..hi*bs` |
| BlockDevice.Disk.constructor | src/io/device/block/mod.rs:11-16 | a device of equal-size blocks, with no calls counted yet |
| BlockDevice.Disk.BlockSize | src/io/device/block/mod.rs:12 | `block_size` returns the device's block size; the call is counted |
| BlockDevice.Disk.BlockCount | src/io/device/block/mod.rs:13 | `block_count` is the number of blocks |
| BlockDevice.Disk.ReadBlock | src/io/device/block/mod.rs:14 | `read_block` fills the first block-size bytes of the buffer with the block; a short buffer is `BufferTooSmall` and an address past the end `BadAddress`, both leaving the buffer untouched |
| BlockDevice.Disk.WriteBlock | src/io/device/block/mod.rs:15 | `write_block` replaces exactly one block with the first block-size bytes of the buffer, with the same error cases; on error no block changes |
| BlockDevice.StagedBlockCount | src/io/device/block/mod.rs:30-37 | the count `read_at` computes, as written, is at least the distance between its end and start blocks |
| BlockDevice.BlocksToStage | src/io/device/block/mod.rs:30-37 | the corrected count: the staged blocks cover the whole window and the last of them holds at least one byte of it |
| BlockDevice.WindowFitsIff | src/io/device/block/mod.rs:31-48 | the as-written staging buffer holds the window exactly when the start is unaligned, the start and end blocks coincide, or the end is aligned |
| BlockDevice.StagedVersusNeeded | src/io/device/block/mod.rs:33-37 | the as-written count is one short for an aligned start with an unaligned end, one too many for an unaligned start with an aligned end, and right otherwise |
| BlockDevice.StagingTooShort | src/io/device/block/mod.rs:33-48 | 6 bytes from offset 0 on 4-byte blocks stage one block, and the window overruns it |
| BlockDevice.StagingReadsPastWindow | src/io/device/block/mod.rs:33-46 | 3 bytes from offset 277 on 7-byte blocks stage blocks 39 and 40, although the window lies in block 39 of a 40-block device |
| BlockDevice.AlignedBlockWindow | src/io/device/block/mod.rs:25-28 | an aligned one-block read maps to the block `offset / bs`, which exists exactly when the bytes lie on the device, and then holds them |
| BlockDevice.StagedWindow | src/io/device/block/mod.rs:39-48 | the staged blocks all exist exactly when the window lies on the device, and the window starts `offset % bs` bytes into them |
| BlockDevice.FilledDeviceByte | src/io/device/block/mod.rs:123-139 | on the test device whose block `b` holds `b + 1`, each byte of a read holds its block's number plus one |
| BlockDevice.ReadAt | src/io/device/block/mod.rs:22-51 | `read_at`, with the corrected staging count `BlocksToStage`, fills the buffer with the device bytes `offset..offset+len` and returns `len`, or fails with `BadAddress` exactly when they run past the last block, leaving the buffer untouched |
| BlockDevice.ReadStaged | src/io/device/block/mod.rs:30-50 | the staging path alone, with the corrected staging count `BlocksToStage`, gives the same outcome as `ReadAt` |
| BlockDevice.StageBlocks | src/io/device/block/mod.rs:39-47 | the staging loop yields the bytes of the staged blocks, or `BadAddress` exactly when they run past the device |
| Cache.NumsInserted | src/io/device/block/cache.rs:84 | an insert on cached blocks is the same insert on their block numbers, with the same eviction |
| Cache.ConsistentInserted | src/io/device/block/cache.rs:75-86 | a miss keeps the cache consistent: no address twice, each entry a whole block of an existing address |
| Cache.ConsistentPromoted | src/io/device/block/cache.rs:71-74 | a hit keeps the cache consistent and is a recency access on block numbers |
| Cache.HitPath | src/io/device/block/cache.rs:71-74 | on a hit the cached copy is a whole block and is what the read returns, and the device is not touched |
| Cache.MissPath | src/io/device/block/cache.rs:75-86 | on a miss the read returns the device's block, or `BadAddress` past the device, and that block is inserted with one device read |
| Cache.ReadView | src/io/device/block/cache.rs:64-91 | a read through the cache returns the cached copy when the block is cached, otherwise the device's block, and fails only for an uncached address past the device |
| Cache.WrittenBack | src/io/device/block/cache.rs:20-28 | a block leaving the cache overwrites its home address and nothing else |
| Cache.WriteBackAllView | src/io/device/block/cache.rs:20-28 | writing back blocks with distinct numbers leaves the device holding what a read through them returned |
| Cache.Access | src/io/device/block/cache.rs:71-86 | a read misses (touches the device) exactly when the block is not cached |
| Cache.AccessStep | src/io/device/block/cache.rs:71-86 | one read keeps cached numbers distinct; a hit keeps the cached set, and a miss below capacity adds exactly the block read |
| Cache.MissesCountNewBlocks | src/io/device/block/cache.rs:71-86 | while everything fits, the device reads of a run of block reads are exactly the number of distinct blocks not already cached |
| Cache.FourMissesOfSeven | src/io/device/block/cache.rs:107-135 | reading three distinct blocks, the same three again and a fourth (1, 2, 3, 1, 2, 3, 4 in the test) through an empty cache of at least four blocks reads the device four times |
| Cache.BlockCache.constructor | src/io/device/block/cache.rs:43-49 | a new cache is empty, has the given size, and asks the device for its block size once |
| Cache.BlockCache.BlockSize | src/io/device/block/cache.rs:56-58 | the block size is the device's, stored at construction |
| Cache.BlockCache.BlockCount | src/io/device/block/cache.rs:60-62 | the block count is the device's |
| Cache.BlockCache.ReadBlock | src/io/device/block/cache.rs:64-91 | `read_block` returns `ReadView`'s block; a short buffer is `BufferTooSmall` without a device read; a hit moves the cached entry to the front and leaves the device alone; a miss inserts the device's block and writes back the victim, one device read and at most one device write; an error changes nothing |
| Cache.BlockCache.Fetch | src/io/device/block/cache.rs:71-87 | the lookup returns `ReadView`'s block; a hit promotes the matching entry and touches no device; a miss inserts the block read, writes back the victim if there is one, and reads the device once |
| Cache.BlockCache.Load | src/io/device/block/cache.rs:75-86 | a miss reads the device once and caches the block in front; the evicted block, if any, is written back with one device write; on a failed read nothing changes and nothing is written |
| Cache.BlockCache.WriteBlock | src/io/device/block/cache.rs:93-95 | writes go straight to the device, one device write with its error cases; the cache is not consulted or changed |
| Cache.BlockCache.Teardown | src/io/device/block/cache.rs:20-28 | dropping the cache writes every cached block back, one device write each, after which each device block holds what a read through the cache returned |
| Cache.BlockCache.WriteBackEach | src/io/device/block/cache.rs:24-27 | each leaving block is written to the device in turn, one device write per block |
| Cache.ReadEach | src/io/device/block/cache.rs:111-113 | reading a run of blocks that are all on the device succeeds every time, reads the device once per miss of the run and leaves the cached numbers as `AccessAll` says |
| Cache.CacheReadRun | src/io/device/block/cache.rs:107-135 | over a new cache of ten blocks, reading three distinct blocks, the same three again and a fourth succeeds seven times, reads the device four times and asks its block size once |
| Cache.TeardownView | src/io/device/block/cache.rs:20-28 | writing back the entries back to front leaves on the device what a read through the cache returned |
| Cache.StaleReadAfterWrite | src/io/device/block/cache.rs:93-95 | after a direct write to a cached block a read still returns the cached copy, whatever was written |
| Cache.LostUpdateAtTeardown | src/io/device/block/cache.rs:93-95 | a direct write to a cached block is overwritten by the cached copy when the cache is dropped |
| Cow.Materialised | src/io/block/cow.rs:75-80 | a block's private copy is 512 bytes: the inner block followed by zeros, or the inner read's error |
| Cow.Overwritten | src/io/block/cow.rs:65-66 | a write replaces the start of the copy with the data and keeps the rest |
| Cow.ReadCopyAsWritten | src/io/block/cow.rs:46-48 | as written, `read_block` succeeds only when the block size equals the 512-byte copy |
| Cow.ReadCopyPanics | src/io/block/cow.rs:47 | on 256-byte blocks every read of a written block panics |
| Cow.CopyOut | src/io/block/cow.rs:46-48 | the corrected read hands out the first block-size bytes of the copy |
| Cow.ReadAfterWrite | src/io/block/cow.rs:54-68 | with the corrected read a block reads back exactly what was last written to it |
| Cow.FirstWriteImage | src/io/block/cow.rs:61-67 | after the first write of a block its copy holds the written bytes followed by zeros |
| Cow.CowBlockDevice.constructor | src/io/block/cow.rs:19-25 | a device over an inner device, with no private copies yet |
| Cow.CowBlockDevice.BlockSize | src/io/block/cow.rs:31-33 | the block size is the inner device's |
| Cow.CowBlockDevice.BlockCount | src/io/block/cow.rs:35-37 | the block count is the inner device's |
| Cow.CowBlockDevice.ReadBlock | src/io/block/cow.rs:39-52 | a block with a private copy is read from it; any other block is `NoSuchBlock` even when the inner device holds it; a short buffer is `BufferTooSmall`; on error the buffer is untouched; the inner block size is asked once |
| Cow.CowBlockDevice.WriteBlock | src/io/block/cow.rs:54-68 | the first write of a block copies it from the inner device (one read, its error returned); every write then updates only the copy, so the inner device is never written; the inner block size is asked once |
| Cow.CowBlockDevice.LoadBlock | src/io/block/cow.rs:75-80 | loading records the block's private copy, or nothing when the inner read fails |
| One.OneDevice.constructor | src/io/block/one.rs:17-26 | the geometry as given and every call counter at zero |
| One.OneDevice.BlockSize | src/io/block/one.rs:30-34 | returns the stored block size and counts the call |
| One.OneDevice.BlockCount | src/io/block/one.rs:36-40 | returns the stored block count and counts the call |
| One.OneDevice.ReadBlock | src/io/block/one.rs:42-49 | any address succeeds and fills the block-size prefix of the buffer with ones, leaving the rest; the call is counted |
| One.OneDevice.WriteBlock | src/io/block/one.rs:51-55 | any write succeeds and is discarded; the call is counted |
| Streams.ReadExactSpec | src/io/read.rs:15-33 | `read_exact` fills at most the buffer and succeeds exactly when it fills all of it |
| Streams.ReadExactErrors | src/io/read.rs:20-25 | a failed `read_exact` reports a read's own error or `PrematureEndOfInput` |
| Streams.ReadExactRound | src/io/read.rs:18-26 | one round: a failing read stops with its error, an empty read stops with `PrematureEndOfInput`, and otherwise its data comes first and the rest is filled by the following rounds |
| Streams.MidwayAdvance | src/io/read.rs:21-24 | a non-empty read fills that many more elements and leaves that many fewer to fill |
| Streams.MidwayStop | src/io/read.rs:20-25 | a failing or empty read ends the call with what has been filled |
| Streams.MidwayDone | src/io/read.rs:28-32 | with nothing left to fill the call succeeds |
| Streams.FillAt | src/io/read.rs:21 | a read into the unfilled rest changes only the elements it places |
| Streams.ReadExact | src/io/read.rs:15-33 | the loop's final state, result and filled prefix are `ReadExactSpec`'s, and the rest of the buffer keeps its contents |
| Streams.WriteAllSpec | src/io/write.rs:8-26 | `write_all` consumes at most the data and succeeds exactly when it consumes all of it |
| Streams.WriteAll | src/io/write.rs:8-26 | the loop's final state and result are `WriteAllSpec`'s |
| CursorIo.CursorRead | src/io/cursor.rs:98-106 | a cursor read hands out the next `min(remaining, buffer)` bytes and moves past them, leaving the contents alone |
| CursorIo.CursorReadsShort | src/io/cursor.rs:98-106 | a cursor read never hands out more than it was asked for |
| CursorIo.ReadExactCursor | src/io/read.rs:15-33 | `read_exact` on a cursor yields exactly the next `k` bytes when that many remain, and otherwise everything left, the position at the end and `PrematureEndOfInput` |
| CursorIo.CursorWrite | src/io/cursor.rs:113-121 | a cursor write overwrites the next `min(remaining, data)` bytes and moves past them; it never grows the contents |
| CursorIo.CursorWritesShort | src/io/cursor.rs:113-121 | a cursor write never consumes more than it was offered |
| CursorIo.WriteAllCursor | src/io/write.rs:8-26 | `write_all` on a cursor places all the data when it fits, and otherwise places what fits, stops at the end and fails with `WriteError`; the contents' length never changes |
| CursorIo.WriteAllFits | src/io/write.rs:11-22 | data that fits is consumed by the first write |
| CursorIo.WriteAllOverflows | src/io/write.rs:11-24 | data longer than the rest fills the rest, and the next write consumes nothing |
| CursorIo.SeekTarget | src/io/cursor.rs:74-84 | the requested position fails only for `End(n)` reaching before the start |
| CursorIo.SeekResult | src/io/cursor.rs:73-91 | a seek succeeds exactly when the requested position lies strictly before the end, and otherwise fails with `InvalidOffset` |
| CursorIo.SeekToEndFails | src/io/cursor.rs:85-90 | seeking to the end itself fails, from each of the three origins |
| CursorIo.SeekCurrentLands | src/io/cursor.rs:83 | a relative seek to a valid position lands there: the unsigned wrap-around of a negative offset cancels out |
| CursorIo.Rewind | src/io/seek.rs:12-14 | rewinding gives position 0, except on an empty cursor, where it fails |
| CursorIo.StreamPosition | src/io/seek.rs:16-18 | the stream position is the position, except at or past the end, where it fails |
| CursorIo.Cursor.constructor | src/io/cursor.rs:13-15 | a new cursor is at the start of the contents |
| CursorIo.Cursor.Position | src/io/cursor.rs:29-31 | `position` is the cursor's position |
| CursorIo.Cursor.SetPosition | src/io/cursor.rs:33-35 | any position can be set, even past the end |
| CursorIo.Cursor.RemainingSlice | src/io/cursor.rs:42-45 | the remaining slice is the contents from the position to the end, empty at or past the end |
| CursorIo.Cursor.IsEmpty | src/io/cursor.rs:47-49 | a cursor is empty exactly when nothing remains to be read |
| CursorIo.Cursor.Seek | src/io/cursor.rs:73-91 | the cursor moves to `SeekResult`'s position and stays put on an error |
| CursorIo.Cursor.Read | src/io/cursor.rs:98-106 | the buffer's start receives `CursorRead`'s bytes, the rest of the buffer and the contents are unchanged, and the position moves past the bytes |
| CursorIo.Cursor.Write | src/io/cursor.rs:113-121 | the contents and position become `CursorWrite`'s |
| CursorIo.Cursor.Flush | src/io/cursor.rs:123-125 | flushing always succeeds |
| Testing.Single | src/io/testing.rs:34-37 | the adapter asks the wrapped reader for one element, whatever the buffer |
| Testing.SingleReadsShort | src/io/testing.rs:34-37 | the adapter keeps the wrapped reader's promise never to over-read |
| Testing.SingleCursorStep | src/io/testing.rs:34-37 | over a cursor, each adapted read hands out the next byte |
| Testing.ReadExactSingleClosed | src/io/read.rs:137-145 | `read_exact` through the adapter over a cursor yields the next `k` bytes when that many remain, else everything left with `PrematureEndOfInput` |
| Testing.ReadExactSingleCursor | src/io/testing.rs:58-76 | `read_exact` through the adapter has the same outcome as on the cursor itself, although every read yields one byte |
| Testing.SingleRead.constructor | src/io/testing.rs:22-27 | the adapter wraps the given reader |
| Testing.SingleRead.Read | src/io/testing.rs:34-37 | `read` moves the cursor by at most one byte and places it in the buffer's first element; the outcome is the wrapped read of one element |
| Testing.SingleReadAt.constructor | src/io/testing.rs:22-27 | the adapter wraps the given vector |
| Testing.SingleReadAt.ReadAt | src/io/testing.rs:44-47 | `read_at` reads the one element at the offset into the buffer's first element, or fails with `InvalidOffset` past the end, leaving the buffer untouched |
| Macros.FromBe | src/io/macros.rs:48-68 | a big-endian decoding of `n` bytes is below `256^n` |
| Macros.FromLe | src/io/macros.rs:72-92 | a little-endian decoding of `n` bytes is below `256^n` |
| Macros.FromBeToBe | src/io/macros.rs:48-68 | decoding the big-endian encoding of a value gives the value back |
| Macros.ToBeFromBe | src/io/macros.rs:48-68 | encoding a big-endian decoding gives the bytes back, so the decoding is one to one |
| Macros.FromLeToLe | src/io/macros.rs:72-92 | decoding the little-endian encoding of a value gives the value back |
| Macros.ToLeFromLe | src/io/macros.rs:72-92 | encoding a little-endian decoding gives the bytes back, so the decoding is one to one |
| Macros.FromBeFirst | src/io/macros.rs:48-52 | in big-endian order the first byte is the most significant |
| Macros.FromLeLast | src/io/macros.rs:72-76 | in little-endian order the last byte is the most significant |
| Macros.ReadBytes | src/io/macros.rs:17-23 | `read_bytes!` yields the next `count` bytes exactly when `read_exact` succeeds, and `read_exact`'s error otherwise |
| Macros.ReadU8 | src/io/macros.rs:40-44 | `read_u8!` yields the next byte, or `read_exact`'s error |
| Macros.ReadBeU16 | src/io/macros.rs:48-52 | `read_be_u16!` yields the next two bytes decoded most significant first, or `read_exact`'s error |
| Macros.ReadBeU32 | src/io/macros.rs:56-60 | `read_be_u32!` yields the next four bytes decoded most significant first, or `read_exact`'s error |
| Macros.ReadBeU64 | src/io/macros.rs:64-68 | `read_be_u64!` yields the next eight bytes decoded most significant first, or `read_exact`'s error |
| Macros.ReadLeU16 | src/io/macros.rs:72-76 | `read_le_u16!` yields the next two bytes decoded least significant first, or `read_exact`'s error |
| Macros.ReadLeU32 | src/io/macros.rs:80-84 | `read_le_u32!` yields the next four bytes decoded least significant first, or `read_exact`'s error |
| Macros.ReadLeU64 | src/io/macros.rs:88-92 | `read_le_u64!` yields the next eight bytes decoded least significant first, or `read_exact`'s error |
| Macros.UntilNul | src/io/macros.rs:30-36 | the string kept is the longest prefix without a zero byte |
| Macros.ReadNullTerminatedString | src/io/macros.rs:30-36 | `read_null_terminated_string!` consumes `count` bytes and keeps those before the first zero, or yields `read_exact`'s error |
| Macros.ReadBytesCursor | src/io/macros.rs:17-23 | `read_bytes!` over a cursor holding enough bytes yields the next ones and moves past them |
| Macros.ReadBytesExample | src/io/macros.rs:1-15 | six bytes read from a cursor over 0..9 are 0..5 |
| DeltaQ.AbsFrom | src/collections/deltaq.rs:11-14 | the absolute keys are running sums of the deltas: the first is the first delta past the base |
| DeltaQ.KeysSorted | src/collections/deltaq.rs:11-14 | absolute keys never decrease along the queue |
| DeltaQ.InsertPosSplits | src/collections/deltaq.rs:44-61 | the insertion point puts every key below `v` before it and the first key at least `v` right after it |
| DeltaQ.Inserted | src/collections/deltaq.rs:41-62 | an insert adds exactly one node |
| DeltaQ.InsertedKeys | src/collections/deltaq.rs:47-61 | an insert keeps the absolute key of every queued element and gives the new one key `v` at the insertion point |
| DeltaQ.InsertedElems | src/collections/deltaq.rs:50-61 | an insert puts the element at the insertion point and keeps the others in order |
| DeltaQ.InsertKeyOrder | src/collections/deltaq.rs:47-50 | the new element's key is `v`; an element with an equal key stays behind it and one with a smaller key stays before it |
| DeltaQ.PopFrontKeys | src/collections/deltaq.rs:72-74 | popping the front lowers every remaining key by the popped delta |
| DeltaQ.InsertInOrder | src/collections/deltaq.rs:115-131 | inserting keys 3, 5 and 9 in order gives deltas 3, 2, 4 |
| DeltaQ.InsertReverseOrder | src/collections/deltaq.rs:133-149 | inserting 9, 5 and 3 gives the same deltas 3, 2, 4 |
| DeltaQ.InsertNoOrder | src/collections/deltaq.rs:151-171 | keys 3, 6, 5, 9, 4 inserted in that order are queued in key order, with deltas 3, 1, 1, 1, 3 |
| DeltaQ.InsertDuplicates | src/collections/deltaq.rs:173-195 | repeated keys sit side by side with delta 0 and the keys after them keep their distances |
| DeltaQ.InsertDuplicatesNewestFirst | src/collections/deltaq.rs:197-213 | among equal keys the newest element comes first |
| DeltaQ.InsertManyReversed | src/collections/deltaq.rs:215-231 | inserting keys `n` down to 1 leaves every node one step after the previous one, so elements pop in key order |
| DeltaQ.DeltaQueue.constructor | src/collections/deltaq.rs:29-33 | a new queue is empty |
| DeltaQ.DeltaQueue.Insert | src/collections/deltaq.rs:41-62 | the walk-and-splice loop leaves the queue `Inserted` describes |
| DeltaQ.DeltaQueue.Front | src/collections/deltaq.rs:64-66 | the front node, whose delta is the smallest absolute key; `None` exactly when empty |
| DeltaQ.DeltaQueue.PopFront | src/collections/deltaq.rs:72-74 | removes the front node and returns its element; `None` on an empty queue |
| DeltaQ.DeltaQueue.Len | src/collections/deltaq.rs:76-78 | the length is the number of queued elements |
| DeltaQ.DeltaQueue.IsEmpty | src/collections/deltaq.rs:80-82 | the queue is empty exactly when its length is zero |
| PathComponents.Split | src/path/components.rs:15 | splitting at separators gives at least one fragment, none containing a separator |
| PathComponents.JoinSplit | src/path/components.rs:15 | splitting loses nothing: the fragments join back into the path |
| PathComponents.SplitJoin | src/path/components.rs:15 | fragments without separators are exactly what splitting their join gives back |
| PathComponents.Classify | src/path/components.rs:51-55 | a fragment is never the root |
| PathComponents.FragmentsText | src/path/components.rs:40-55 | the components after the root spell out exactly the non-empty fragments, in order |
| PathComponents.FragmentsShape | src/path/components.rs:40-55 | no fragment component is the root, and a normal one is a name other than `.` and `..` |
| PathComponents.ComponentsShape | src/path/components.rs:34-56 | the root comes first, once, and only for an absolute path; every normal name is non-empty, separator-free and neither `.` nor `..` |
| PathComponents.RelativeComponents | src/path/components.rs:63-70 | two names joined by a separator tokenise into those two names |
| PathComponents.AbsoluteComponents | src/path/components.rs:72-80 | a rooted join of two names tokenises into the root and the two names |
| PathComponents.EmptyFragmentsSkipped | src/path/components.rs:82-89 | two names joined by repeated separators are still just those two names |
| PathComponents.Components.constructor | src/path/components.rs:12-20 | a new tokeniser has all of the path's components yet to yield |
| PathComponents.Components.Next | src/path/components.rs:34-56 | `next` yields the first component yet to come and consumes it; it yields `None` exactly when nothing is left, and keeps doing so |
| PathComponents.Components.NextFragment | src/path/components.rs:40-49 | the fragment loop skips empty fragments and consumes the first non-empty one, or all of them when there is none |
| Owned.TrimEndSep | src/path/owned.rs:56 | trimming drops exactly the trailing separators |
| Owned.RFind | src/path/owned.rs:57 | the index found is the last separator; `None` means there is none |
| Owned.WithSep | src/path/owned.rs:46-49 | before each component a separator is added unless the path is empty or already ends in one |
| Owned.Names | src/path/owned.rs:90 | each name becomes one normal component |
| Owned.NameComponents | src/path/components.rs:51-55 | a name tokenises into one normal component |
| Owned.NameFromItself | src/path/owned.rs:15-21 | `OwnedPath::from` of a name is the name itself |
| Owned.PushStepNoDoubleSep | src/path/owned.rs:45-69 | no step of `push` creates two separators in a row |
| Owned.PushAllNoDoubleSep | src/path/owned.rs:42-71 | pushing components keeps a path free of doubled separators |
| Owned.PushSegmentNoDoubleSep | src/path/owned.rs:42-71 | pushing any segment keeps a path free of doubled separators |
| Owned.TrailingSeparatorIgnored | src/path/owned.rs:131-137 | a trailing separator on a non-empty segment changes nothing it yields |
| Owned.ResolveNames | src/path/owned.rs:73-95 | `into_components` of names gives the names back |
| Owned.PushNames | src/path/owned.rs:42-71 | pushing names one by one onto an empty path joins them with separators |
| Owned.JoinThenResolve | src/path/owned.rs:73-95 | names joined by separators resolve back into the names |
| Owned.PushThenResolve | src/path/owned.rs:42-95 | pushing names and then resolving the path gives the names back, in order |
| Owned.ResolveGivesNames | src/path/owned.rs:73-95 | every entry `into_components` builds is a name |
| Owned.ResolvedPathNames | src/path/owned.rs:78-87 | as no entry is ever `.`, the loop dropping trailing `.` entries never drops any, and `..` drops exactly the last entry |
| Owned.ParentOfSingleName | src/path/owned.rs:53-62 | `..` after a single name keeps the name and a separator |
| Owned.ParentOfRootedName | src/path/owned.rs:53-62 | `..` after the root and one name drops the root as well |
| Owned.ParentDropsName | src/path/owned.rs:53-62 | `..` after a name cuts the path back to what came before it, with or without a trailing separator |
| Owned.DotComponents | src/path/components.rs:51-55 | `.` alone is the current directory and `..` alone the parent directory |
| Owned.PushTrivial | src/path/owned.rs:123-129 | pushing two names joins them with a separator |
| Owned.PushSeparators | src/path/owned.rs:131-137 | a trailing separator on the second name changes nothing |
| Owned.PushAbsolute | src/path/owned.rs:139-145 | a rooted name and then a name with a trailing separator give the rooted join |
| Owned.RootedNameComponents | src/path/components.rs:34-56 | a rooted name tokenises into the root and the name |
| Owned.PushSpecials | src/path/owned.rs:166-186 | pushing a, b, `..`, c, d, `.`, `..`, e gives a/c/e, which resolves to the names a, c, e |
| Owned.ThreeNamesResolve | src/path/owned.rs:147-164 | a/c/e resolves to the names a, c, e |
| Owned.OwnedPath.constructor | src/path/owned.rs:36-40 | a new path is empty |
| Owned.OwnedPath.From | src/path/owned.rs:15-21 | `from(p)` is `p` pushed onto the empty path, free of doubled separators |
| Owned.OwnedPath.Push | src/path/owned.rs:42-71 | the path becomes every component of the segment applied in order, and a path free of doubled separators stays so |
| Owned.OwnedPath.PushComponent | src/path/owned.rs:46-69 | one loop round: a separator unless the path is empty or already ends in one, then the component's effect |
| Owned.OwnedPath.Components | src/path/owned.rs:105-107 | `components` is a fresh tokeniser with all of the path's components to yield |
| Owned.OwnedPath.IntoComponents | src/path/owned.rs:73-95 | the loop yields the path resolved into names, as `Resolve` describes |
| Owned.OwnedPath.Len | src/path/owned.rs:97-99 | the length is zero exactly when the path is empty |
| Owned.OwnedPath.IsEmpty | src/path/owned.rs:101-103 | the path is empty exactly when its length is zero |

## Left out

- Integer widths:
  - Sizes and indices are unbounded. The `usize` and `u64` overflows the source could hit in offset arithmetic are not modelled.
  - Seek positions are `u64` and offsets `i64`. A `Current` seek adds modulo 2^64, where a debug build of the source would panic on overflow.
- CursorIo.Cursor.constructor: requires contents shorter than 2^63 bytes, so that the source's `len as i64` and `as u64` casts keep the length.
- Owned.OwnedPath.Len: counts characters, not UTF-8 bytes. The model has no text encoding.
- Macros.ReadNullTerminatedString: returns the byte prefix itself. `String::from_utf8_lossy` replacement of invalid sequences is not modelled.
- Synchronisation: `Mutex`, `RwLock`, `Rc` and the atomic counters of `OneDevice` are plain fields, and concurrency is not modelled.
- Generic traits:
  - A generic `BlockDevice` is the single `Disk` class.
  - A generic `Read`/`Write` is a state-passing step function.
  - `SingleRead` is modelled only over a `Cursor` (for `read`) and a vector (for `read_at`).
- Cow.CowBlockDevice.constructor: the source declares no constructor, so this one is the model's own. It requires a block size of at most 512, because a larger block does not fit the fixed copy.
- Cow.CowBlockDevice.WriteBlock: requires a buffer no longer than a block. With a longer one, the source's `copy_from_slice` panics.
- Cache.BlockCache.ReadBlock: requires a buffer no longer than a block. The source's final `copy_from_slice` panics on a longer one.
- One.OneDevice.ReadBlock: requires a buffer of at least a block. The source's fill of `buf[..block_size]` panics on a shorter one.
- Testing.SingleRead.Read: requires a non-empty buffer, because `buf[0..1]` panics on an empty one. Testing.SingleReadAt.ReadAt has the same requirement. It also inherits the cursor's requirement `inner.pos <= |inner.inner|` (see CursorIo.Cursor.Read).
- BlockDevice.ReadAt: follows the corrected staging count `BlocksToStage`, not the source's `end - start` / `end - start + 1` count (modelled as `StagedBlockCount`). With the source's count, block size 4, offset 0 and 6 bytes stage one block and the copy at src/io/device/block/mod.rs:48 panics; block size 7, offset 277 and 3 bytes on a 40-block device read block 40 and the call returns `BadAddress`. BlockDevice.ReadStaged follows the same corrected count.
- BlockDevice.ReadAt: requires a non-empty buffer, because `offset % buffer.len()` at src/io/device/block/mod.rs:25 panics on an empty one. BlockDevice.ReadStaged has the same requirement.
- CursorIo.Cursor.Read: requires `pos <= |inner|`. Past the end, `data.len() - self.pos` at src/io/cursor.rs:101 underflows and the slice at line 103 panics. Such a position is reachable, because `SetPosition` accepts any position.
- CursorIo.Cursor.Write: requires `pos <= |inner|`, for the same underflow and slice panic at src/io/cursor.rs:116-117.
- Accessors and trait plumbing are not modelled:
  - `Cursor::into_inner`, `get_ref`, `get_mut`;
  - `DeltaQueue::with_capacity`, `front_mut`, `Index`, `IndexMut`;
  - `Default`, `Clone`, `Display`, `Borrow`, `Deref` implementations;
  - `Node::new`;
  - the `WriteAt` traits, which declare no default behaviour.
- src/path/mod.rs (the borrowed `Path` type) is not part of this model. Its `components` is `Components::new`.
- The reading macros in src/io/read.rs:51-127 duplicate those of src/io/macros.rs and are not modelled separately.
- The test at src/io/read.rs:137-145 wraps a vector in `SingleRead` and then in a `Cursor`, which does not type-check. It is modelled as `SingleRead` over a `Cursor` (Testing.ReadExactSingleClosed).
- Tests are stated over all inputs of their shape, not their literal strings:
  - the path tests hold for any names in place of "hello" and "world";
  - the 1000-element delta queue test holds for every count (DeltaQ.InsertManyReversed);
  - the LRU eviction tests hold for every cache size and run of inserts (Lru.InsertAllFromEmpty).
- Lru.LruCache.constructor: the eviction handler is not stored. `Insert` returns the evicted item and `Teardown` the drained ones, for the owner to handle; a ghost log records them.

## Findings

| source | as written | input that shows it | evidently intended | confidence | as-written member | corrected member |
|---|---|---|---|---|---|---|
| src/io/device/block/mod.rs:33-37 | an aligned start with a differing end block stages `end - start` blocks; otherwise `end - start + 1` | block size 4, offset 0, 6 bytes: one 4-byte block is staged and the copy at line 48 slices past it; block size 7, offset 277, 3 bytes on a 40-block device: block 40 is read and the whole read fails with `BadAddress` | stage the blocks from `offset / bs` through the one holding the last byte, `offset + len - 1` | not executed | BlockDevice.StagedVersusNeeded | BlockDevice.BlocksToStage |
| src/io/block/cow.rs:47 | the whole 512-byte private copy is copied into the block-size window of the buffer | block size 256: every read of a written block panics in `copy_from_slice` | copy the first block-size bytes of the copy | not executed | Cow.ReadCopyPanics | Cow.CowBlockDevice.ReadBlock |

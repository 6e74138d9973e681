/**
 * The write-back block cache of src/io/device/block/cache.rs: a block device
 * that keeps the most recently read blocks of another device in an LRU cache.
 *
 * A block that leaves the cache (evicted by a later miss, or at teardown) is
 * written back to the device, whatever the device holds by then. Writes go
 * straight to the device and do not touch the cache.
 */
module Cache {
  import opened Io
  import opened Lru
  import opened BlockDevice

  /** A cached copy of block `num`. */
  datatype CachedBlock = CachedBlock(num: nat, data: seq<byte>)

  function HasNum(addr: nat): CachedBlock -> bool
  {
    (b: CachedBlock) => b.num == addr
  }

  function Is(addr: nat): nat -> bool
  {
    (x: nat) => x == addr
  }

  /** The block numbers held, front (most recent) first. */
  function Nums(s: seq<CachedBlock>): (r: seq<nat>)
    ensures |r| == |s| && forall i :: 0 <= i < |s| ==> r[i] == s[i].num
  {
    seq(|s|, i requires 0 <= i < |s| => s[i].num)
  }

  /** No block number appears twice. */
  ghost predicate Distinct(s: seq<nat>)
  {
    forall i, j :: 0 <= i < j < |s| ==> s[i] != s[j]
  }

  /** Looking a block up by number in the entries is looking its number up in `Nums`. */
  lemma {:induction false} FirstMatchNums(s: seq<CachedBlock>, addr: nat)
    ensures FirstMatch(s, HasNum(addr)) == FirstMatch(Nums(s), Is(addr))
  {
    if s != [] {
      assert Nums(s)[1..] == Nums(s[1..]);
      FirstMatchNums(s[1..], addr);
    }
  }

  lemma NumsPromoted(s: seq<CachedBlock>, k: nat)
    requires k < |s|
    ensures Nums(Promoted(s, k)) == Promoted(Nums(s), k)
  {
    var a, b := Nums(Promoted(s, k)), Promoted(Nums(s), k);
    forall i | 0 <= i < |s| ensures a[i] == b[i] {
      if i > 0 {
        PromotedKeepsOrder(s, k, if i <= k then i - 1 else i);
        PromotedKeepsOrder(Nums(s), k, if i <= k then i - 1 else i);
      }
    }
  }

  lemma NumsInserted(s: seq<CachedBlock>, maxSize: nat, item: CachedBlock)
    ensures Nums(Inserted(s, maxSize, item)) == Inserted(Nums(s), maxSize, item.num)
    ensures Victim(Nums(s), maxSize).Some? == Victim(s, maxSize).Some?
  {
    var kept := if |s| >= maxSize && |s| > 0 then s[..|s| - 1] else s;
    assert Inserted(s, maxSize, item) == [item] + kept;
    assert Nums([item] + kept) == [item.num] + Nums(kept);
    assert Nums(kept) == if |s| >= maxSize && |s| > 0 then Nums(s)[..|s| - 1] else Nums(s);
  }

  /** Every entry after an insert was there before or is the new one. */
  lemma InsertedFrom<V>(s: seq<V>, maxSize: nat, item: V)
    ensures forall e :: e in Inserted(s, maxSize, item) ==> e in s || e == item
  {
    forall e | e in Inserted(s, maxSize, item) ensures e in s || e == item {
      assert e in multiset(Inserted(s, maxSize, item));
    }
  }

  /**
   * The cache invariant on its entries: no block number twice, and each entry
   * a whole block of an address on a device of `count` blocks.
   */
  ghost predicate Consistent(entries: seq<CachedBlock>, count: nat, bs: nat)
  {
    && Distinct(Nums(entries))
    && forall e :: e in entries ==> e.num < count && |e.data| == bs
  }

  /** A miss keeps the entries consistent: the new block was not cached, and eviction only removes. */
  lemma ConsistentInserted(entries: seq<CachedBlock>, count: nat, bs: nat, maxSize: nat, item: CachedBlock)
    requires Consistent(entries, count, bs)
    requires item.num !in Nums(entries) && item.num < count && |item.data| == bs
    ensures Consistent(Inserted(entries, maxSize, item), count, bs)
  {
    NumsInserted(entries, maxSize, item);
    FirstMatchNums(entries, item.num);
    AccessStep(Nums(entries), maxSize, item.num);
    InsertedFrom(entries, maxSize, item);
  }

  /** A hit keeps the entries consistent: it only reorders them. */
  lemma ConsistentPromoted(entries: seq<CachedBlock>, count: nat, bs: nat, maxSize: nat, k: nat)
    requires Consistent(entries, count, bs) && k < |entries|
    requires FirstMatch(entries, HasNum(entries[k].num)) == Some(k)
    ensures Consistent(Promoted(entries, k), count, bs)
    ensures Nums(Promoted(entries, k)) == Access(Nums(entries), maxSize, entries[k].num).state
  {
    NumsPromoted(entries, k);
    FirstMatchNums(entries, entries[k].num);
    AccessStep(Nums(entries), maxSize, entries[k].num);
    forall e | e in Promoted(entries, k) ensures e in entries {
      assert e in multiset(Promoted(entries, k));
    }
  }

  /** A hit: the cached copy is a whole block, what a read returns, and moving it to the front is the access on numbers. */
  lemma HitPath(entries: seq<CachedBlock>, blocks: seq<seq<byte>>, bs: nat, maxSize: nat, addr: nat, k: nat)
    requires Consistent(entries, |blocks|, bs)
    requires FirstMatch(entries, HasNum(addr)) == Some(k)
    ensures k < |entries| && entries[k].num == addr && addr in Nums(entries)
    ensures |entries[k].data| == bs && ReadView(entries, blocks, addr) == Ok(entries[k].data)
    ensures Consistent(Promoted(entries, k), |blocks|, bs)
    ensures Nums(Promoted(entries, k)) == Access(Nums(entries), maxSize, addr).state
    ensures Access(Nums(entries), maxSize, addr).misses == 0
  {
    FirstMatchNums(entries, addr);
    ConsistentPromoted(entries, |blocks|, bs, maxSize, k);
    assert entries[k] in entries;
  }

  /** A miss: a read returns the device's block, and the access on numbers inserts it. */
  lemma MissPath(entries: seq<CachedBlock>, blocks: seq<seq<byte>>, maxSize: nat, addr: nat)
    requires FirstMatch(entries, HasNum(addr)) == None
    ensures addr !in Nums(entries)
    ensures ReadView(entries, blocks, addr) == if addr < |blocks| then Ok(blocks[addr]) else Err(BadAddress)
    ensures Access(Nums(entries), maxSize, addr) == Outcome(Inserted(Nums(entries), maxSize, addr), 1)
  {
    FirstMatchNums(entries, addr);
  }

  /**
   * What a read of block `addr` returns: the cached copy when the block is
   * cached, otherwise the device's block, or `BadAddress` past the device.
   */
  function ReadView(entries: seq<CachedBlock>, blocks: seq<seq<byte>>, addr: nat): (r: Result<seq<byte>>)
    ensures r.Err? <==> addr !in Nums(entries) && addr >= |blocks|
    ensures r.Err? ==> r.error == BadAddress
    ensures addr !in Nums(entries) && addr < |blocks| ==> r == Ok(blocks[addr])
    ensures forall e :: e in entries && e.num == addr && Distinct(Nums(entries)) ==> r == Ok(e.data)
  {
    FirstMatchNums(entries, addr);
    match FirstMatch(entries, HasNum(addr))
    case Some(k) => Ok(entries[k].data)
    case None => if addr < |blocks| then Ok(blocks[addr]) else Err(BadAddress)
  }

  /** The device after a block leaving the cache is written back over its home address. */
  function WrittenBack(blocks: seq<seq<byte>>, gone: Option<CachedBlock>): (r: seq<seq<byte>>)
    ensures |r| == |blocks|
    ensures gone.Some? && gone.value.num < |blocks| ==> r[gone.value.num] == gone.value.data
    ensures forall a :: 0 <= a < |blocks| && (gone.None? || gone.value.num != a) ==> r[a] == blocks[a]
  {
    if gone.Some? && gone.value.num < |blocks| then blocks[gone.value.num := gone.value.data] else blocks
  }

  lemma WrittenBackHome(blocks: seq<seq<byte>>, e: CachedBlock)
    requires e.num < |blocks|
    ensures WrittenBack(blocks, Some(e)) == blocks[e.num := e.data]
  {
  }

  /** The device after every block in `gone` is written back, in order. */
  function WriteBackAll(blocks: seq<seq<byte>>, gone: seq<CachedBlock>): (r: seq<seq<byte>>)
    ensures |r| == |blocks|
    decreases |gone|
  {
    if gone == [] then blocks else WriteBackAll(WrittenBack(blocks, Some(gone[0])), gone[1..])
  }

  /**
   * Writing back a set of cached blocks with distinct numbers leaves each of
   * them on the device and every other block as it was: afterwards the device
   * returns what a read through the cache returned.
   */
  lemma {:induction false} WriteBackAllView(blocks: seq<seq<byte>>, gone: seq<CachedBlock>, a: nat)
    requires Distinct(Nums(gone)) && forall e :: e in gone ==> e.num < |blocks|
    requires a < |blocks|
    ensures WriteBackAll(blocks, gone)[a] == ReadView(gone, blocks, a).value
    decreases |gone|
  {
    if gone != [] {
      var blocks' := WrittenBack(blocks, Some(gone[0]));
      assert Nums(gone[1..]) == Nums(gone)[1..];
      WriteBackAllView(blocks', gone[1..], a);
      FirstMatchNums(gone, a);
      FirstMatchNums(gone[1..], a);
      if gone[0].num == a {
        assert a !in Nums(gone[1..]);
      }
    }
  }

  // ---------------------------------------------------------------------------
  // Hits and misses, on block numbers
  // ---------------------------------------------------------------------------

  /** The cache's block numbers after one read, and whether that read missed (touched the device). */
  datatype Outcome = Outcome(state: seq<nat>, misses: nat)

  function Access(s: seq<nat>, maxSize: nat, addr: nat): (r: Outcome)
    ensures r.misses == if addr in s then 0 else 1
  {
    match FirstMatch(s, Is(addr))
    case Some(k) => Outcome(Promoted(s, k), 0)
    case None => Outcome(Inserted(s, maxSize, addr), 1)
  }

  /** A run of successful reads, in order: the final block numbers and the number of misses. */
  function AccessAll(s: seq<nat>, maxSize: nat, addrs: seq<nat>): Outcome
    decreases |addrs|
  {
    if addrs == [] then Outcome(s, 0)
    else
      var o := Access(s, maxSize, addrs[0]);
      var rest := AccessAll(o.state, maxSize, addrs[1..]);
      Outcome(rest.state, o.misses + rest.misses)
  }

  function Seen(s: seq<nat>): set<nat>
  {
    set x | x in s
  }

  lemma {:induction false} DistinctCard(s: seq<nat>)
    requires Distinct(s)
    ensures |Seen(s)| == |s|
  {
    if s != [] {
      DistinctCard(s[1..]);
      assert Seen(s) == {s[0]} + Seen(s[1..]);
      assert s[0] !in Seen(s[1..]);
    }
  }

  /** One read keeps the numbers distinct and adds the block read to them; below capacity nothing leaves. */
  lemma AccessStep(s: seq<nat>, maxSize: nat, addr: nat)
    requires Distinct(s)
    ensures Distinct(Access(s, maxSize, addr).state)
    ensures addr in s ==> Seen(Access(s, maxSize, addr).state) == Seen(s)
    ensures addr !in s && |s| < maxSize ==> Seen(Access(s, maxSize, addr).state) == Seen(s) + {addr}
  {
    match FirstMatch(s, Is(addr))
    case Some(k) =>
      PromotedSeen(s, k);
    case None =>
      InsertedSeen(s, maxSize, addr);
  }

  /** Moving an entry to the front keeps the numbers distinct and the same. */
  lemma PromotedSeen(s: seq<nat>, k: nat)
    requires Distinct(s) && k < |s|
    ensures Distinct(Promoted(s, k)) && Seen(Promoted(s, k)) == Seen(s)
  {
    var p := Promoted(s, k);
    forall i, j | 0 <= i < j < |s| ensures p[i] != p[j] {
      if i > 0 {
        PromotedKeepsOrder(s, k, if i <= k then i - 1 else i);
      }
      PromotedKeepsOrder(s, k, if j <= k then j - 1 else j);
    }
    forall x ensures x in p <==> x in s {
      assert x in multiset(p) <==> x in multiset(s);
    }
  }

  /** Inserting a new number keeps the numbers distinct; below capacity it only adds that number. */
  lemma InsertedSeen(s: seq<nat>, maxSize: nat, addr: nat)
    requires Distinct(s) && addr !in s
    ensures Distinct(Inserted(s, maxSize, addr))
    ensures |s| < maxSize ==> Seen(Inserted(s, maxSize, addr)) == Seen(s) + {addr}
  {
    var t := if |s| >= maxSize && |s| > 0 then s[..|s| - 1] else s;
    assert Inserted(s, maxSize, addr) == [addr] + t;
  }

  lemma SubsetCard<T>(a: set<T>, b: set<T>)
    requires a <= b
    ensures |a| <= |b|
  {
    assert b == a + (b - a);
  }

  lemma Regroup(seen': set<nat>, seen: set<nat>, a: nat, rest: set<nat>, all: set<nat>)
    requires seen' == seen + {a} && all == {a} + rest
    ensures seen' + rest == seen + all
  {
  }

  /** The blocks new to the cache: the first read's block, if new, and the rest's. */
  lemma NewBlocksStep(seen: set<nat>, seen': set<nat>, a: nat, rest: set<nat>)
    requires seen' == seen + {a}
    ensures a in seen ==> ({a} + rest) - seen == rest - seen'
    ensures a !in seen ==> |({a} + rest) - seen| == 1 + |rest - seen'|
  {
    if a !in seen {
      assert ({a} + rest) - seen == {a} + (rest - seen');
    }
  }

  /** While everything read so far fits, a read adds its block and evicts nothing. */
  lemma AccessBelowCapacity(s: seq<nat>, maxSize: nat, a: nat, all: set<nat>)
    requires Distinct(s) && a in all && Seen(s) <= all && |all| <= maxSize
    ensures Distinct(Access(s, maxSize, a).state)
    ensures Seen(Access(s, maxSize, a).state) == Seen(s) + {a}
  {
    DistinctCard(s);
    if a !in s {
      SubsetCard(Seen(s) + {a}, all);
      assert |Seen(s) + {a}| == |Seen(s)| + 1;
    }
    AccessStep(s, maxSize, a);
  }

  /**
   * Starting from distinct cached numbers, while the blocks read and the blocks
   * cached together fit in the cache, every block not yet cached misses
   * exactly once and every other read hits.
   */
  lemma {:induction false} MissesCountNewBlocks(s: seq<nat>, maxSize: nat, addrs: seq<nat>)
    requires Distinct(s) && |Seen(s) + Seen(addrs)| <= maxSize
    ensures AccessAll(s, maxSize, addrs).misses == |Seen(addrs) - Seen(s)|
    decreases |addrs|
  {
    if addrs != [] {
      var a, rest := addrs[0], addrs[1..];
      var o := Access(s, maxSize, a);
      assert Seen(addrs) == {a} + Seen(rest);
      AccessBelowCapacity(s, maxSize, a, Seen(s) + Seen(addrs));
      Regroup(Seen(o.state), Seen(s), a, Seen(rest), Seen(addrs));
      MissesCountNewBlocks(o.state, maxSize, rest);
      NewBlocksStep(Seen(s), Seen(o.state), a, Seen(rest));
      assert a in s <==> a in Seen(s);
    }
  }

  /**
   * Reading three distinct blocks, the same three again and then a fourth
   * (1, 2, 3, 1, 2, 3, 4 in `test_cache_read`) through an empty cache of at
   * least four blocks touches the device four times.
   */
  lemma FourMissesOfSeven(a: nat, b: nat, c: nat, d: nat, maxSize: nat)
    requires a != b && a != c && a != d && b != c && b != d && c != d && maxSize >= 4
    ensures AccessAll([], maxSize, [a, b, c, a, b, c, d]).misses == 4
  {
    var addrs := [a, b, c, a, b, c, d];
    var all := {a, b, c, d};
    forall x
      ensures x in Seen(addrs) <==> x in all
    {
      assert x in addrs <==> x == a || x == b || x == c || x == d;
    }
    assert Seen(addrs) == all;
    assert Seen([]) == {};
    assert |all| == 4;
    assert Seen([]) + Seen(addrs) == all && Seen(addrs) - Seen([]) == all;
    MissesCountNewBlocks([], maxSize, addrs);
  }

  /**
   * `BlockCache<D>`: a cache of up to `size` blocks in front of `device`.
   * `blockSize` is the device's block size, asked for once at construction.
   */
  class BlockCache {
    const blockSize: PosLen
    const lru: LruCache<CachedBlock>
    const device: Disk

    /**
     * The cache and device are consistent: every cached block is a whole block
     * of an address on the device, and no address is cached twice.
     */
    ghost predicate Valid()
      reads this, lru, device
    {
      && lru.Valid()
      && device.Valid()
      && device.blockSize == blockSize
      && Consistent(lru.data, |device.blocks|, blockSize)
    }

    /** `new(device, size)`. */
    constructor (dev: Disk, size: nat)
      requires dev.Valid()
      modifies dev`sizeQueries
      ensures Valid() && device == dev && fresh(lru)
      ensures lru.data == [] && lru.maxSize == size
      ensures dev.sizeQueries == old(dev.sizeQueries) + 1
    {
      var bs := dev.BlockSize();
      lru := new LruCache(size);
      blockSize := bs;
      device := dev;
    }

    /** `block_size()`: the value stored at construction; the device is not asked again. */
    function BlockSize(): (n: PosLen)
      reads this, lru, device
      requires Valid()
      ensures n == device.blockSize
    {
      blockSize
    }

    /** `block_count()`: the device's. */
    function BlockCount(): (n: nat)
      reads this, device
      ensures n == |device.blocks|
    {
      device.BlockCount()
    }

    /**
     * `read_block(addr, buf)`: a buffer shorter than a block is
     * `BufferTooSmall`. A cached block is moved to the front of the cache and
     * copied out without touching the device; any other block is loaded
     * (`Load`). The buffer must not be longer than a block: the final copy
     * requires equal lengths.
     */
    method ReadBlock(addr: nat, buf: array<byte>) returns (r: Result<nat>)
      requires Valid() && buf.Length <= blockSize
      modifies buf, lru, device`blocks, device`readCalls, device`writeCalls
      ensures Valid()
      ensures buf.Length < blockSize ==> r == Err(BufferTooSmall) && device.readCalls == old(device.readCalls)
      ensures r.Err? ==> buf[..] == old(buf[..]) && lru.data == old(lru.data) && device.blocks == old(device.blocks)
      ensures buf.Length == blockSize ==> (r.Ok? <==> ReadView(old(lru.data), old(device.blocks), addr).Ok?)
      ensures buf.Length == blockSize && r.Err? ==> r.error == BadAddress
      ensures r.Ok? ==> r.value == blockSize && buf[..] == ReadView(old(lru.data), old(device.blocks), addr).value
      ensures buf.Length == blockSize ==>
                device.readCalls == old(device.readCalls) + Access(Nums(old(lru.data)), lru.maxSize, addr).misses
      ensures r.Ok? ==> Nums(lru.data) == Access(Nums(old(lru.data)), lru.maxSize, addr).state
      ensures addr in Nums(old(lru.data)) ==> device.blocks == old(device.blocks)
      ensures addr !in Nums(old(lru.data)) && r.Ok? ==>
                && lru.data == Inserted(old(lru.data), lru.maxSize, CachedBlock(addr, old(device.blocks)[addr]))
                && device.blocks == WrittenBack(old(device.blocks), Victim(old(lru.data), lru.maxSize))
      ensures buf.Length == blockSize && addr in Nums(old(lru.data)) ==>
                && FirstMatch(old(lru.data), HasNum(addr)).Some?
                && lru.data == Promoted(old(lru.data), FirstMatch(old(lru.data), HasNum(addr)).value)
      ensures device.writeCalls == old(device.writeCalls) +
                if r.Ok? && addr !in Nums(old(lru.data)) && Victim(old(lru.data), lru.maxSize).Some? then 1 else 0
      ensures |device.blocks| == |old(device.blocks)|
    {
      if buf.Length < blockSize {
        return Err(BufferTooSmall);
      }
      var fetched := Fetch(addr);
      if fetched.Err? {
        return Err(fetched.error);
      }
      CopyFromSlice(buf, fetched.value);
      r := Ok(buf.Length);
    }

    /**
     * The lookup of `read_block`: a cached block is moved to the front of the
     * cache, any other block is loaded. The result is what a read through
     * the cache returns.
     */
    method Fetch(addr: nat) returns (r: Result<seq<byte>>)
      requires Valid()
      modifies lru, device`blocks, device`readCalls, device`writeCalls
      ensures Valid()
      ensures r == ReadView(old(lru.data), old(device.blocks), addr)
      ensures r.Ok? ==> |r.value| == blockSize
      ensures r.Err? ==> lru.data == old(lru.data) && device.blocks == old(device.blocks)
      ensures device.readCalls == old(device.readCalls) + Access(Nums(old(lru.data)), lru.maxSize, addr).misses
      ensures r.Ok? ==> Nums(lru.data) == Access(Nums(old(lru.data)), lru.maxSize, addr).state
      ensures addr in Nums(old(lru.data)) ==> device.blocks == old(device.blocks)
      ensures addr !in Nums(old(lru.data)) && r.Ok? ==>
                && lru.data == Inserted(old(lru.data), lru.maxSize, CachedBlock(addr, old(device.blocks)[addr]))
                && device.blocks == WrittenBack(old(device.blocks), Victim(old(lru.data), lru.maxSize))
      ensures addr in Nums(old(lru.data)) ==>
                && FirstMatch(old(lru.data), HasNum(addr)).Some?
                && lru.data == Promoted(old(lru.data), FirstMatch(old(lru.data), HasNum(addr)).value)
      ensures device.writeCalls == old(device.writeCalls) +
                if r.Ok? && addr !in Nums(old(lru.data)) && Victim(old(lru.data), lru.maxSize).Some? then 1 else 0
    {
      ghost var before := lru.data;
      var found := lru.Find(HasNum(addr));
      if found.Some? {
        HitPath(before, device.blocks, blockSize, lru.maxSize, addr, FirstMatch(before, HasNum(addr)).value);
        r := Ok(found.value.data);
      } else {
        MissPath(before, device.blocks, lru.maxSize, addr);
        var loaded := Load(addr);
        if loaded.Err? {
          return Err(loaded.error);
        }
        NumsInserted(before, lru.maxSize, loaded.value);
        r := Ok(loaded.value.data);
      }
    }

    /**
     * The miss path of `read_block` (cache.rs:75-86): read the block from the
     * device (on error nothing is cached), push it to the front of the cache,
     * and write back the block this evicts, if any, ignoring the outcome of
     * that write.
     */
    method Load(addr: nat) returns (r: Result<CachedBlock>)
      requires Valid() && addr !in Nums(lru.data)
      modifies lru, device`blocks, device`readCalls, device`writeCalls
      ensures Valid()
      ensures device.readCalls == old(device.readCalls) + 1
      ensures r.Ok? <==> addr < |old(device.blocks)|
      ensures r.Err? ==> r.error == BadAddress && lru.data == old(lru.data) && device.blocks == old(device.blocks)
      ensures device.writeCalls == old(device.writeCalls) + if r.Ok? && Victim(old(lru.data), lru.maxSize).Some? then 1 else 0
      ensures r.Ok? ==>
                && r.value == CachedBlock(addr, old(device.blocks)[addr])
                && lru.data == Inserted(old(lru.data), lru.maxSize, r.value)
                && device.blocks == WrittenBack(old(device.blocks), Victim(old(lru.data), lru.maxSize))
    {
      var tmp := new byte[blockSize];
      var rr := device.ReadBlock(addr, tmp);
      if rr.Err? {
        return Err(rr.error);
      }
      var block := CachedBlock(addr, tmp[..]);
      ConsistentInserted(lru.data, |device.blocks|, blockSize, lru.maxSize, block);
      var gone := lru.Insert(block);
      if gone.Some? {
        assert gone.value in old(lru.data);
        assert gone.value.data[..blockSize] == gone.value.data;
        var _ := device.WriteBlock(gone.value.num, gone.value.data);
      }
      r := Ok(block);
    }

    /** `write_block(addr, buf)`: straight to the device; the cache is not consulted or updated. */
    method WriteBlock(addr: nat, buf: seq<byte>) returns (r: Result<nat>)
      requires Valid()
      modifies device`blocks, device`writeCalls
      ensures Valid()
      ensures lru.data == old(lru.data) && |device.blocks| == |old(device.blocks)|
      ensures |buf| < blockSize ==> r == Err(BufferTooSmall)
      ensures |buf| >= blockSize && addr >= |device.blocks| ==> r == Err(BadAddress)
      ensures r.Err? ==> device.blocks == old(device.blocks)
      ensures r.Ok? <==> |buf| >= blockSize && addr < |device.blocks|
      ensures r.Ok? ==> r.value == blockSize && device.blocks == old(device.blocks)[addr := buf[..blockSize]]
      ensures device.writeCalls == old(device.writeCalls) + 1
    {
      r := device.WriteBlock(addr, buf);
    }

    /**
     * `Drop`: the cache evicts every block, back to front, and each is written
     * back. Afterwards the device holds what a read through the cache returned.
     */
    method Teardown()
      requires Valid()
      modifies lru, device`blocks, device`writeCalls
      ensures lru.data == [] && |device.blocks| == |old(device.blocks)|
      ensures device.blocks == WriteBackAll(old(device.blocks), Reverse(old(lru.data)))
      ensures forall a :: 0 <= a < |device.blocks| ==>
                device.blocks[a] == ReadView(old(lru.data), old(device.blocks), a).value
      ensures device.writeCalls == old(device.writeCalls) + |old(lru.data)|
    {
      ghost var entries := lru.data;
      var gone := lru.Teardown();
      ReverseEntries(entries);
      WriteBackEach(gone);
      TeardownView(entries, old(device.blocks));
    }

    /** Every block of `gone`, in order, written to the device. */
    method WriteBackEach(gone: seq<CachedBlock>)
      requires device.Valid() && device.blockSize == blockSize
      requires forall e :: e in gone ==> e.num < |device.blocks| && |e.data| == blockSize
      modifies device`blocks, device`writeCalls
      ensures device.Valid() && device.blocks == WriteBackAll(old(device.blocks), gone)
      ensures device.writeCalls == old(device.writeCalls) + |gone|
    {
      var i := 0;
      assert gone[..0] == [];
      while i < |gone|
        invariant 0 <= i <= |gone| && device.Valid() && device.blockSize == blockSize
        invariant device.blocks == WriteBackAll(old(device.blocks), gone[..i])
        invariant device.writeCalls == old(device.writeCalls) + i
        invariant forall e :: e in gone ==> e.num < |device.blocks| && |e.data| == blockSize
      {
        assert gone[i] in gone && gone[i].data[..blockSize] == gone[i].data;
        ghost var prior := device.blocks;
        var w := device.WriteBlock(gone[i].num, gone[i].data);
        WrittenBackHome(prior, gone[i]);
        WriteBackAllSnoc(old(device.blocks), gone[..i], gone[i]);
        assert gone[..i + 1] == gone[..i] + [gone[i]];
        i := i + 1;
      }
      assert gone[..i] == gone;
    }
  }

  /**
   * The loop of `test_cache_read`: every block of `addrs`, in order, read
   * through `cache` into `buf`. When every address is on the device every
   * read succeeds, and the device is read once per miss of the run.
   */
  method ReadEach(cache: BlockCache, addrs: seq<nat>, buf: array<byte>) returns (oks: nat)
    requires cache.Valid() && buf.Length == cache.blockSize
    requires forall a :: a in addrs ==> a < |cache.device.blocks|
    modifies buf, cache.lru, cache.device`blocks, cache.device`readCalls, cache.device`writeCalls
    ensures cache.Valid() && oks == |addrs|
    ensures |cache.device.blocks| == |old(cache.device.blocks)|
    ensures Nums(cache.lru.data) == AccessAll(Nums(old(cache.lru.data)), cache.lru.maxSize, addrs).state
    ensures cache.device.readCalls == old(cache.device.readCalls) + AccessAll(Nums(old(cache.lru.data)), cache.lru.maxSize, addrs).misses
  {
    ghost var run := AccessAll(Nums(cache.lru.data), cache.lru.maxSize, addrs);
    oks := 0;
    while oks < |addrs|
      invariant oks <= |addrs| && cache.Valid() && buf.Length == cache.blockSize
      invariant |cache.device.blocks| == |old(cache.device.blocks)|
      invariant AccessAll(Nums(cache.lru.data), cache.lru.maxSize, addrs[oks..]).state == run.state
      invariant cache.device.readCalls - old(cache.device.readCalls)
                  + AccessAll(Nums(cache.lru.data), cache.lru.maxSize, addrs[oks..]).misses == run.misses
    {
      assert addrs[oks..][1..] == addrs[oks + 1..];
      assert addrs[oks] in addrs;
      var r := cache.ReadBlock(addrs[oks], buf);
      assert r.Ok?;
      oks := oks + 1;
    }
    assert addrs[oks..] == [];
  }

  /**
   * `test_cache_read`: a cache of ten blocks reads `a`, `b`, `c`, `a`, `b`,
   * `c`, `d` (the test reads 1, 2, 3, 1, 2, 3, 4) from a device that holds
   * them all; every read succeeds, the device is read four times (the first
   * read of each block) and asked for its block size once, at construction.
   */
  method CacheReadRun(dev: Disk, a: nat, b: nat, c: nat, d: nat) returns (cache: BlockCache, oks: nat)
    requires dev.Valid() && a < |dev.blocks| && b < |dev.blocks| && c < |dev.blocks| && d < |dev.blocks|
    requires a != b && a != c && a != d && b != c && b != d && c != d
    modifies dev`sizeQueries, dev`blocks, dev`readCalls, dev`writeCalls
    ensures cache.Valid() && cache.device == dev && oks == 7
    ensures dev.readCalls == old(dev.readCalls) + 4
    ensures dev.sizeQueries == old(dev.sizeQueries) + 1
  {
    cache := new BlockCache(dev, 10);
    var buf := new byte[cache.BlockSize()];
    assert Nums(cache.lru.data) == [];
    oks := ReadEach(cache, [a, b, c, a, b, c, d], buf);
    FourMissesOfSeven(a, b, c, d, 10);
  }

  /** Writing back the reversed entries leaves on the device what a read through the cache returned. */
  lemma TeardownView(entries: seq<CachedBlock>, blocks: seq<seq<byte>>)
    requires Distinct(Nums(entries)) && forall e :: e in entries ==> e.num < |blocks|
    ensures forall a :: 0 <= a < |blocks| ==>
              WriteBackAll(blocks, Reverse(entries))[a] == ReadView(entries, blocks, a).value
  {
    ReverseEntries(entries);
    forall a | 0 <= a < |blocks|
      ensures WriteBackAll(blocks, Reverse(entries))[a] == ReadView(entries, blocks, a).value
    {
      ReverseView(entries, blocks, a);
      WriteBackAllView(blocks, Reverse(entries), a);
    }
  }

  lemma {:induction false} WriteBackAllSnoc(blocks: seq<seq<byte>>, gone: seq<CachedBlock>, e: CachedBlock)
    ensures WriteBackAll(blocks, gone + [e]) == WrittenBack(WriteBackAll(blocks, gone), Some(e))
    decreases |gone|
  {
    if gone == [] {
      assert gone + [e] == [e];
    } else {
      assert (gone + [e])[1..] == gone[1..] + [e];
      WriteBackAllSnoc(WrittenBack(blocks, Some(gone[0])), gone[1..], e);
    }
  }

  /** Reversing keeps the entries and their distinct numbers. */
  lemma ReverseEntries(entries: seq<CachedBlock>)
    requires Distinct(Nums(entries))
    ensures forall e :: e in Reverse(entries) <==> e in entries
    ensures Distinct(Nums(Reverse(entries)))
  {
    var rev := Reverse(entries);
    var n := |entries|;
    forall i | 0 <= i < n ensures rev[i] == entries[n - 1 - i] {
      ReverseAt(entries, i);
    }
    forall e ensures e in rev <==> e in entries {
      if e in rev {
        var i :| 0 <= i < n && rev[i] == e;
        assert entries[n - 1 - i] == e;
      }
      if e in entries {
        var i :| 0 <= i < n && entries[i] == e;
        assert rev[n - 1 - i] == e;
      }
    }
  }

  /** Distinct numbers look up the same block whichever order the entries are in. */
  lemma ReverseView(entries: seq<CachedBlock>, blocks: seq<seq<byte>>, a: nat)
    requires Distinct(Nums(entries))
    ensures ReadView(Reverse(entries), blocks, a) == ReadView(entries, blocks, a)
  {
    ReverseEntries(entries);
    var rev := Reverse(entries);
    assert a in Nums(rev) <==> a in Nums(entries) by {
      if a in Nums(rev) {
        var i :| 0 <= i < |rev| && Nums(rev)[i] == a;
        assert rev[i] in entries;
      }
      if a in Nums(entries) {
        var i :| 0 <= i < |entries| && Nums(entries)[i] == a;
        assert entries[i] in rev;
      }
    }
  }

  /**
   * Writes bypass the cache: after a direct write to a cached block, a read
   * still returns the cached copy, whatever was written.
   */
  lemma StaleReadAfterWrite(entries: seq<CachedBlock>, blocks: seq<seq<byte>>, addr: nat, x: seq<byte>)
    requires addr < |blocks| && addr in Nums(entries)
    ensures ReadView(entries, blocks[addr := x], addr) == ReadView(entries, blocks, addr)
  {
  }

  /**
   * A direct write to a cached block is lost at teardown: the cached copy is
   * written back over it.
   */
  lemma LostUpdateAtTeardown(entries: seq<CachedBlock>, blocks: seq<seq<byte>>, e: CachedBlock, x: seq<byte>)
    requires Distinct(Nums(entries)) && forall f :: f in entries ==> f.num < |blocks|
    requires e in entries
    ensures WriteBackAll(blocks[e.num := x], Reverse(entries))[e.num] == e.data
  {
    ReverseEntries(entries);
    ReverseView(entries, blocks[e.num := x], e.num);
    WriteBackAllView(blocks[e.num := x], Reverse(entries), e.num);
  }
}

/**
 * The block device contract of src/io/device/block/mod.rs and the blanket
 * `ReadAt<u8>` implementation every block device gets from it.
 *
 * The contract is generic (`D: BlockDevice`); here one memory-backed device,
 * `Disk`, stands in for any implementation: a fixed block size, a sequence of
 * blocks of exactly that size, and ghost counters of the calls made to it.
 * The byte-addressed view of a device is `Flat(blocks)`, its blocks laid end
 * to end.
 */
module BlockDevice {
  import opened Io

  /** Every block is exactly `bs` bytes long. */
  ghost predicate Uniform(blocks: seq<seq<byte>>, bs: nat)
  {
    forall k :: 0 <= k < |blocks| ==> |blocks[k]| == bs
  }

  /** The blocks laid end to end: the device as one byte array. */
  function Flat(blocks: seq<seq<byte>>): seq<byte>
  {
    if blocks == [] then [] else Flat(blocks[..|blocks| - 1]) + blocks[|blocks| - 1]
  }

  lemma {:induction false} FlatLength(blocks: seq<seq<byte>>, bs: nat)
    requires Uniform(blocks, bs)
    ensures |Flat(blocks)| == |blocks| * bs
  {
    if blocks != [] {
      var n := |blocks| - 1;
      FlatLength(blocks[..n], bs);
      assert |Flat(blocks)| == n * bs + bs;
    }
  }

  lemma {:induction false} FlatAppend(xs: seq<seq<byte>>, ys: seq<seq<byte>>)
    ensures Flat(xs + ys) == Flat(xs) + Flat(ys)
    decreases |ys|
  {
    if ys == [] {
      assert xs + ys == xs;
    } else {
      var n := |ys| - 1;
      assert (xs + ys)[..|xs + ys| - 1] == xs + ys[..n];
      FlatAppend(xs, ys[..n]);
    }
  }

  /**
   * The bytes of blocks `lo .. hi` are the bytes `lo * bs .. hi * bs` of the
   * device.
   */
  lemma {:induction false} FlatWindow(blocks: seq<seq<byte>>, bs: nat, lo: nat, hi: nat)
    requires Uniform(blocks, bs) && lo <= hi <= |blocks|
    ensures lo * bs <= hi * bs <= |Flat(blocks)|
    ensures Flat(blocks[lo..hi]) == Flat(blocks)[lo * bs..hi * bs]
  {
    var a, b, c := blocks[..lo], blocks[lo..hi], blocks[hi..];
    assert blocks == a + b + c;
    FlatAppend(a + b, c);
    FlatAppend(a, b);
    FlatLength(a, bs);
    FlatLength(b, bs);
    FlatLength(c, bs);
    MulSplit(lo, hi, |blocks|, bs);
    var fa, fb, fc := Flat(a), Flat(b), Flat(c);
    assert (fa + fb + fc)[|fa|..|fa| + |fb|] == fb;
  }

  /** `lo * d + (hi - lo) * d == hi * d`, and the products grow with the factor. */
  lemma MulSplit(lo: nat, hi: nat, n: nat, d: nat)
    requires lo <= hi <= n
    ensures lo * d + (hi - lo) * d == hi * d
    ensures hi * d + (n - hi) * d == n * d
  {
  }

  /** One block is the window of its own `bs` bytes. */
  lemma FlatBlock(blocks: seq<seq<byte>>, bs: nat, k: nat)
    requires Uniform(blocks, bs) && k < |blocks|
    ensures k * bs + bs <= |Flat(blocks)|
    ensures Flat(blocks)[k * bs..k * bs + bs] == blocks[k]
  {
    FlatWindow(blocks, bs, k, k + 1);
    assert blocks[k..k + 1] == [] + [blocks[k]];
    assert Flat(blocks[k..k + 1]) == Flat([]) + blocks[k];
  }

  /** `p == q * d + m` with `0 <= m < d` determines quotient and remainder. */
  lemma DivModUnique(p: nat, d: PosLen, q: nat, m: nat)
    requires p == q * d + m && m < d
    ensures p / d == q && p % d == m
  {
    var q' := p / d;
    assert p == q' * d + p % d;
    if q' < q {
      MulMono(q' + 1, q, d);
    } else if q' > q {
      MulMono(q + 1, q', d);
    }
  }

  /** `a <= b` implies `a * d <= b * d`. */
  lemma MulMono(a: nat, b: nat, d: nat)
    requires a <= b
    ensures a * d <= b * d
  {
    assert b * d == a * d + (b - a) * d;
  }

  /**
   * The `BlockDevice` contract (mod.rs:11-16), for one memory-backed device.
   * `sizeQueries`, `readCalls` and `writeCalls` count the calls to `block_size`,
   * `read_block` and `write_block`.
   */
  class Disk {
    const blockSize: PosLen
    var blocks: seq<seq<byte>>
    ghost var sizeQueries: nat
    ghost var readCalls: nat
    ghost var writeCalls: nat

    ghost predicate Valid()
      reads this
    {
      Uniform(blocks, blockSize)
    }

    constructor (bs: PosLen, contents: seq<seq<byte>>)
      requires Uniform(contents, bs)
      ensures Valid()
      ensures blockSize == bs && blocks == contents
      ensures sizeQueries == 0 && readCalls == 0 && writeCalls == 0
    {
      blockSize := bs;
      blocks := contents;
      sizeQueries, readCalls, writeCalls := 0, 0, 0;
    }

    /** `block_size()`. */
    method BlockSize() returns (n: PosLen)
      modifies this`sizeQueries
      ensures n == blockSize && sizeQueries == old(sizeQueries) + 1
    {
      n := blockSize;
      sizeQueries := sizeQueries + 1;
    }

    /** `block_count()`. */
    function BlockCount(): (n: nat)
      reads this
      ensures n == |blocks|
    {
      |blocks|
    }

    /**
     * `read_block(addr, buf)`: fills the first `blockSize` bytes of `buf` with
     * block `addr` and reports `blockSize`; a buffer shorter than a block is
     * `BufferTooSmall`, an address past the last block `BadAddress`, and then
     * `buf` is left as it was.
     */
    method ReadBlock(addr: nat, buf: array<byte>) returns (r: Result<nat>)
      requires Valid()
      modifies buf, this`readCalls
      ensures readCalls == old(readCalls) + 1
      ensures buf.Length < blockSize ==> r == Err(BufferTooSmall)
      ensures buf.Length >= blockSize && addr >= |blocks| ==> r == Err(BadAddress)
      ensures r.Err? ==> buf[..] == old(buf[..])
      ensures r.Ok? <==> buf.Length >= blockSize && addr < |blocks|
      ensures r.Ok? ==> r.value == blockSize && buf[..blockSize] == blocks[addr]
                        && buf[blockSize..] == old(buf[blockSize..])
    {
      readCalls := readCalls + 1;
      if buf.Length < blockSize {
        return Err(BufferTooSmall);
      }
      if addr >= |blocks| {
        return Err(BadAddress);
      }
      var b := blocks[addr];
      forall j | 0 <= j < blockSize {
        buf[j] := b[j];
      }
      r := Ok(blockSize);
    }

    /**
     * `write_block(addr, buf)`: replaces block `addr` with the first
     * `blockSize` bytes of `buf`, with the same error cases as `ReadBlock`;
     * on error no block changes.
     */
    method WriteBlock(addr: nat, buf: seq<byte>) returns (r: Result<nat>)
      requires Valid()
      modifies this`blocks, this`writeCalls
      ensures Valid()
      ensures writeCalls == old(writeCalls) + 1
      ensures |buf| < blockSize ==> r == Err(BufferTooSmall)
      ensures |buf| >= blockSize && addr >= |blocks| ==> r == Err(BadAddress)
      ensures |blocks| == |old(blocks)|
      ensures r.Err? ==> blocks == old(blocks)
      ensures r.Ok? <==> |buf| >= blockSize && addr < |blocks|
      ensures r.Ok? ==> r.value == blockSize && blocks == old(blocks)[addr := buf[..blockSize]]
    {
      writeCalls := writeCalls + 1;
      if |buf| < blockSize {
        return Err(BufferTooSmall);
      }
      if addr >= |blocks| {
        return Err(BadAddress);
      }
      blocks := blocks[addr := buf[..blockSize]];
      r := Ok(blockSize);
    }
  }

  // ---------------------------------------------------------------------------
  // Staging geometry of the blanket `read_at` (mod.rs:30-37)
  // ---------------------------------------------------------------------------

  /**
   * The number of blocks `read_at` stages, as the source computes it: the
   * blocks from `offset / bs` up to `(offset + len) / bs`, one fewer when the
   * start is aligned and the two differ.
   */
  function StagedBlockCount(offset: nat, len: nat, bs: PosLen): (n: nat)
    ensures n >= (offset + len) / bs - offset / bs
  {
    var start, end, rel := offset / bs, (offset + len) / bs, offset % bs;
    assert start <= end by {
      if start > end {
        MulMono(end + 1, start, bs);
      }
    }
    if rel == 0 && start != end then end - start else end - start + 1
  }

  /**
   * The number of blocks that hold bytes `offset .. offset + len`: the first
   * is `offset / bs`, the staged blocks cover the whole window, and the last
   * of them holds at least one byte of it.
   */
  function BlocksToStage(offset: nat, len: PosLen, bs: PosLen): (n: nat)
    ensures n >= 1
    ensures offset + len <= (offset / bs + n) * bs
    ensures (offset / bs + n - 1) * bs < offset + len
  {
    var start, last := offset / bs, (offset + len - 1) / bs;
    assert offset == start * bs + offset % bs;
    assert offset + len - 1 == last * bs + (offset + len - 1) % bs;
    assert start <= last by {
      if start > last {
        MulMono(last + 1, start, bs);
      }
    }
    last - start + 1
  }

  /**
   * The staged blocks, as written, cover the window `rel .. rel + len` exactly
   * when the start is unaligned, start and end block coincide, or the end is
   * aligned.
   */
  lemma WindowFitsIff(offset: nat, len: PosLen, bs: PosLen)
    ensures var start, end, rel := offset / bs, (offset + len) / bs, offset % bs;
            offset % bs + len <= StagedBlockCount(offset, len, bs) * bs
            <==> rel != 0 || start == end || (offset + len) % bs == 0
  {
    var start, end, rel := offset / bs, (offset + len) / bs, offset % bs;
    var n := StagedBlockCount(offset, len, bs);
    assert offset == start * bs + rel;
    assert offset + len == end * bs + (offset + len) % bs;
    if rel == 0 && start != end {
      assert n * bs == end * bs - start * bs;
    } else {
      assert n * bs == end * bs + bs - start * bs;
    }
  }

  /**
   * The as-written count compared with the blocks actually needed: one short
   * when the start is aligned and the end is not (the window then overruns
   * the staging buffer), one too many when the start is unaligned and the end
   * aligned (a block past the window is read), and right otherwise.
   */
  lemma StagedVersusNeeded(offset: nat, len: PosLen, bs: PosLen)
    ensures var start, end, rel := offset / bs, (offset + len) / bs, offset % bs;
            var staged, needed := StagedBlockCount(offset, len, bs), BlocksToStage(offset, len, bs);
            && (rel == 0 && start != end && (offset + len) % bs != 0 ==> staged + 1 == needed)
            && (rel != 0 && (offset + len) % bs == 0 ==> staged == needed + 1)
            && ((!(rel == 0 && start != end && (offset + len) % bs != 0)
                 && !(rel != 0 && (offset + len) % bs == 0)) ==> staged == needed)
  {
    var start, end, rel, tail := offset / bs, (offset + len) / bs, offset % bs, (offset + len) % bs;
    var last := (offset + len - 1) / bs;
    assert offset == start * bs + rel;
    assert offset + len == end * bs + tail;
    if tail == 0 {
      DivModUnique(offset + len - 1, bs, end - 1, bs - 1);
    } else {
      DivModUnique(offset + len - 1, bs, end, tail - 1);
    }
    if rel == 0 && start == end {
      assert tail != 0;
    }
  }

  /** Aligned start, unaligned end: 6 bytes from offset 0 on 4-byte blocks stage one block, not two. */
  lemma StagingTooShort()
    ensures StagedBlockCount(0, 6, 4) == 1 && BlocksToStage(0, 6, 4) == 2
    ensures 0 % 6 != 0 || 6 != 4
    ensures 0 % 4 + 6 > StagedBlockCount(0, 6, 4) * 4
  {
  }

  /**
   * Unaligned start, aligned end: 3 bytes from offset 277 on 7-byte blocks
   * lie in block 39 alone, but blocks 39 and 40 are staged; on a 40-block
   * device the read of block 40 fails and so does the whole `read_at`.
   */
  lemma StagingReadsPastWindow()
    ensures StagedBlockCount(277, 3, 7) == 2 && BlocksToStage(277, 3, 7) == 1
    ensures 277 / 7 + StagedBlockCount(277, 3, 7) - 1 == 40
    ensures 277 + 3 <= 40 * 7
  {
  }

  /**
   * An aligned one-block read: the block `offset / bs` exists exactly when the
   * `bs` bytes from `offset` lie on the device, and then it holds them.
   */
  lemma AlignedBlockWindow(blocks: seq<seq<byte>>, bs: PosLen, offset: nat)
    requires Uniform(blocks, bs) && offset % bs == 0
    ensures offset / bs < |blocks| <==> offset + bs <= |Flat(blocks)|
    ensures offset / bs < |blocks| ==> Flat(blocks)[offset..offset + bs] == blocks[offset / bs]
  {
    var a := offset / bs;
    assert offset == a * bs;
    FlatLength(blocks, bs);
    if a < |blocks| {
      FlatBlock(blocks, bs, a);
    } else {
      MulMono(|blocks|, a, bs);
    }
  }

  /**
   * The staged blocks `offset / bs .. offset / bs + BlocksToStage` all exist
   * exactly when the window `offset .. offset + len` lies on the device, and
   * then the window starts `offset % bs` bytes into them.
   */
  lemma StagedWindow(blocks: seq<seq<byte>>, bs: PosLen, offset: nat, len: PosLen)
    requires Uniform(blocks, bs)
    ensures var start, count := offset / bs, BlocksToStage(offset, len, bs);
            start + count <= |blocks| <==> offset + len <= |Flat(blocks)|
    ensures var start, count, rel := offset / bs, BlocksToStage(offset, len, bs), offset % bs;
            start + count <= |blocks| ==>
              && |Flat(blocks[start..start + count])| == count * bs
              && rel + len <= count * bs
              && offset + len <= |Flat(blocks)|
              && Flat(blocks[start..start + count])[rel..rel + len] == Flat(blocks)[offset..offset + len]
  {
    var start, count, rel := offset / bs, BlocksToStage(offset, len, bs), offset % bs;
    assert offset == start * bs + rel;
    FlatLength(blocks, bs);
    AddMul(start, count, bs);
    if start + count <= |blocks| {
      MulMono(start + count, |blocks|, bs);
      StagedWindowInside(blocks, bs, start, count, rel, len);
    } else {
      MulMono(|blocks|, start + count - 1, bs);
    }
  }

  lemma StagedWindowInside(blocks: seq<seq<byte>>, bs: PosLen, start: nat, count: nat, rel: nat, len: nat)
    requires Uniform(blocks, bs) && start + count <= |blocks|
    requires rel + len <= count * bs
    ensures |Flat(blocks[start..start + count])| == count * bs
    ensures start * bs + rel + len <= |Flat(blocks)|
    ensures Flat(blocks[start..start + count])[rel..rel + len] == Flat(blocks)[start * bs + rel..start * bs + rel + len]
  {
    FlatWindow(blocks, bs, start, start + count);
    AddMul(start, count, bs);
    SliceOfSlice(Flat(blocks), start * bs, (start + count) * bs, rel, rel + len);
  }

  lemma AddMul(a: nat, c: nat, d: nat)
    ensures (a + c) * d == a * d + c * d
  {
  }

  /** A window of a window is a window of the whole. */
  lemma SliceOfSlice<T>(s: seq<T>, lo: nat, hi: nat, i: nat, j: nat)
    requires lo <= hi <= |s| && i <= j <= hi - lo
    ensures s[lo..hi][i..j] == s[lo + i..lo + j]
  {
    var a, b := s[lo..hi][i..j], s[lo + i..lo + j];
    assert |a| == |b|;
    forall k | 0 <= k < |a| ensures a[k] == b[k] {
      assert a[k] == s[lo..hi][i + k];
    }
  }

  /**
   * A device whose block `b` is filled with the byte `b + 1` (the test device
   * of mod.rs:62-91) reads back, at byte `p`, the number of the block holding
   * `p` plus one; a `read_at(19, 32 bytes)` on 7-byte blocks thus sees 3, 3,
   * seven 4s, seven 5s, seven 6s, seven 7s and 8, 8.
   */
  lemma {:induction false} FilledDeviceByte(blocks: seq<seq<byte>>, bs: PosLen, p: nat)
    requires Uniform(blocks, bs)
    requires forall b, j :: 0 <= b < |blocks| && 0 <= j < bs ==> blocks[b][j] == (b + 1) % 256
    requires p < |Flat(blocks)|
    ensures Flat(blocks)[p] == (p / bs + 1) % 256
  {
    var a, m := p / bs, p % bs;
    assert p == a * bs + m;
    FlatLength(blocks, bs);
    if a >= |blocks| {
      MulMono(|blocks|, a, bs);
    }
    FlatBlock(blocks, bs, a);
    assert Flat(blocks)[p] == Flat(blocks)[a * bs..a * bs + bs][m];
  }

  /**
   * The blanket `read_at(offset, buf)` over block reads: the bytes
   * `offset .. offset + buf.Length` of the device, or `BadAddress` when they
   * run past its last block. An aligned read of exactly one block goes
   * straight to `read_block`; any other read stages the blocks holding the
   * window and copies the window out. The staging count is `BlocksToStage`
   * (see `StagedBlockCount` for the one the source computes). An empty buffer
   * is excluded: the source takes `offset % buf.len()`.
   */
  method ReadAt(dev: Disk, offset: nat, buf: array<byte>) returns (r: Result<nat>)
    requires dev.Valid() && buf.Length > 0
    modifies buf, dev`readCalls, dev`sizeQueries
    ensures r.Ok? <==> offset + buf.Length <= |Flat(dev.blocks)|
    ensures r.Err? ==> r.error == BadAddress && buf[..] == old(buf[..])
    ensures r.Ok? ==> r.value == buf.Length && buf[..] == Flat(dev.blocks)[offset..offset + buf.Length]
  {
    var len := buf.Length;
    var bs := dev.BlockSize();
    if offset % len == 0 && len == bs {
      AlignedBlockWindow(dev.blocks, bs, offset);
      r := dev.ReadBlock(offset / bs, buf);
      return;
    }

    r := ReadStaged(dev, offset, buf);
  }

  /**
   * The general path of `read_at` (mod.rs:30-50): stage the blocks holding
   * the window, then copy the window out of them.
   */
  method ReadStaged(dev: Disk, offset: nat, buf: array<byte>) returns (r: Result<nat>)
    requires dev.Valid() && buf.Length > 0
    modifies buf, dev`readCalls
    ensures r.Ok? <==> offset + buf.Length <= |Flat(dev.blocks)|
    ensures r.Err? ==> r.error == BadAddress && buf[..] == old(buf[..])
    ensures r.Ok? ==> r.value == buf.Length && buf[..] == Flat(dev.blocks)[offset..offset + buf.Length]
  {
    var len, bs := buf.Length, dev.blockSize;
    var start := offset / bs;
    var count := BlocksToStage(offset, len, bs);
    var rel := offset % bs;
    StagedWindow(dev.blocks, bs, offset, len);
    var staged := StageBlocks(dev, start, count);
    if staged.Err? {
      return Err(staged.error);
    }
    var data := staged.value;
    forall j | 0 <= j < len {
      buf[j] := data[rel + j];
    }
    assert buf[..] == data[rel..rel + len];
    r := Ok(len);
  }

  /** One more block on a run of blocks adds its bytes at the end. */
  lemma FlatGrow(blocks: seq<seq<byte>>, lo: nat, i: nat)
    requires lo + i < |blocks|
    ensures Flat(blocks[lo..lo + i + 1]) == (if i == 0 then [] else Flat(blocks[lo..lo + i])) + blocks[lo + i]
  {
    assert blocks[lo..lo + i + 1][..i] == blocks[lo..lo + i];
  }

  /**
   * The staging loop of `read_at` (mod.rs:39-47): blocks `start .. start +
   * count` read one by one into a contiguous buffer; the first failing read
   * ends it with `BadAddress`, which happens exactly when those blocks run past
   * the device.
   */
  method StageBlocks(dev: Disk, start: nat, count: nat) returns (r: Result<seq<byte>>)
    requires dev.Valid() && count > 0
    modifies dev`readCalls
    ensures r.Ok? <==> start + count <= |dev.blocks|
    ensures r.Err? ==> r.error == BadAddress && count > 0 && |dev.blocks| <= start + count - 1
    ensures r.Ok? ==> r.value == Flat(dev.blocks[start..start + count])
  {
    var data: seq<byte> := [];
    var i := 0;
    while i < count
      invariant 0 <= i <= count
      invariant i > 0 ==> start + i <= |dev.blocks|
      invariant data == if i == 0 then [] else Flat(dev.blocks[start..start + i])
    {
      var tmp := new byte[dev.blockSize];
      var rr := dev.ReadBlock(start + i, tmp);
      if rr.Err? {
        return Err(rr.error);
      }
      assert tmp[..] == dev.blocks[start + i] by {
        assert tmp[..] == tmp[..dev.blockSize];
      }
      FlatGrow(dev.blocks, start, i);
      data := data + tmp[..];
      i := i + 1;
    }
    r := Ok(data);
  }
}

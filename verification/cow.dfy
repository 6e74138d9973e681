/**
 * The copy-on-write block device of src/io/block/cow.rs: a device that never
 * writes to the device it wraps. The first write to a block copies that block
 * out of the inner device into a private 512-byte buffer; every later write
 * and every read of that block is served from the copy. A block that was
 * never written cannot be read (`NoSuchBlock`).
 */
module Cow {
  import opened Io
  import opened BlockDevice

  /** The size of the private copy of a block (`[u8; 512]`). */
  const CopyLen: nat := 512

  function Zeros(n: nat): (r: seq<byte>)
    ensures |r| == n && forall j :: 0 <= j < n ==> r[j] == 0
  {
    seq(n, _ => 0)
  }

  /**
   * The private copy `load_block` makes of inner block `addr`: a zeroed
   * 512-byte buffer whose first `bs` bytes the inner device's `read_block`
   * fills, or that read's error.
   */
  function Materialised(inner: seq<seq<byte>>, bs: nat, addr: nat): (r: Result<seq<byte>>)
    requires bs <= CopyLen && Uniform(inner, bs)
    ensures r.Ok? <==> addr < |inner|
    ensures r.Err? ==> r.error == BadAddress
    ensures r.Ok? ==> |r.value| == CopyLen && r.value[..bs] == inner[addr]
                      && forall j :: bs <= j < CopyLen ==> r.value[j] == 0
  {
    if addr < |inner| then Ok(inner[addr] + Zeros(CopyLen - bs)) else Err(BadAddress)
  }

  /** A copy after a write of `data`: its first `|data|` bytes replaced, the rest kept. */
  function Overwritten(copy: seq<byte>, data: seq<byte>): (r: seq<byte>)
    requires |data| <= |copy|
    ensures |r| == |copy| && r[..|data|] == data && r[|data|..] == copy[|data|..]
  {
    data + copy[|data|..]
  }

  /**
   * What `read_block` hands out of a copy, as the source writes it: the whole
   * 512-byte copy into a `bs`-byte window, which `copy_from_slice` allows only
   * when the lengths agree (`None` is the panic).
   */
  function ReadCopyAsWritten(copy: seq<byte>, bs: nat): (r: Option<seq<byte>>)
    ensures r.Some? <==> |copy| == bs
    ensures r.Some? ==> r.value == copy
  {
    if |copy| == bs then Some(copy) else None
  }

  /** On 256-byte blocks every read of a written block panics. */
  lemma ReadCopyPanics()
    ensures ReadCopyAsWritten(Zeros(CopyLen), 256) == None
  {
  }

  /** What `read_block` evidently means to hand out: the first `bs` bytes of the copy. */
  function CopyOut(copy: seq<byte>, bs: nat): (r: seq<byte>)
    requires bs <= |copy|
    ensures |r| == bs && forall j :: 0 <= j < bs ==> r[j] == copy[j]
  {
    copy[..bs]
  }

  /** With the corrected read, a block reads back exactly what was last written to it. */
  lemma ReadAfterWrite(copy: seq<byte>, data: seq<byte>)
    requires |data| <= |copy|
    ensures CopyOut(Overwritten(copy, data), |data|) == data
  {
  }

  /** The first write of a block leaves the written bytes followed by zeros in its copy. */
  lemma FirstWriteImage(inner: seq<seq<byte>>, bs: nat, addr: nat, data: seq<byte>)
    requires bs <= CopyLen && Uniform(inner, bs) && addr < |inner| && |data| == bs
    ensures Overwritten(Materialised(inner, bs, addr).value, data) == data + Zeros(CopyLen - bs)
  {
  }

  /**
   * `CowBlockDevice<D>`: the inner device and the private copies, by block
   * number. The block size is the inner device's and at most 512.
   */
  class CowBlockDevice {
    const inner: Disk
    var blocks: map<nat, seq<byte>>

    ghost predicate Valid()
      reads this, inner
    {
      && inner.Valid()
      && inner.blockSize <= CopyLen
      && forall a :: a in blocks ==> |blocks[a]| == CopyLen
    }

    /** A device with no private copies yet. */
    constructor (dev: Disk)
      requires dev.Valid() && dev.blockSize <= CopyLen
      ensures Valid() && inner == dev && blocks == map[]
    {
      inner := dev;
      blocks := map[];
    }

    /** `block_size()`: the inner device's. */
    method BlockSize() returns (n: PosLen)
      modifies inner`sizeQueries
      ensures n == inner.blockSize && inner.sizeQueries == old(inner.sizeQueries) + 1
    {
      n := inner.BlockSize();
    }

    /** `block_count()`: the inner device's. */
    function BlockCount(): (n: nat)
      reads this, inner
      ensures n == |inner.blocks|
    {
      inner.BlockCount()
    }

    /**
     * `read_block(addr, buf)`: a buffer shorter than a block is
     * `BufferTooSmall`; a block with a private copy fills the first `bs` bytes
     * of `buf` from it; any other block is `NoSuchBlock`, even one the inner
     * device holds. The copy is the corrected one (`CopyOut`).
     */
    method ReadBlock(addr: nat, buf: array<byte>) returns (r: Result<nat>)
      requires Valid()
      modifies buf, inner`sizeQueries
      ensures buf.Length < inner.blockSize ==> r == Err(BufferTooSmall)
      ensures buf.Length >= inner.blockSize && addr !in blocks ==> r == Err(NoSuchBlock)
      ensures r.Err? ==> buf[..] == old(buf[..])
      ensures r.Ok? <==> buf.Length >= inner.blockSize && addr in blocks
      ensures r.Ok? ==> r.value == inner.blockSize && buf[..inner.blockSize] == CopyOut(blocks[addr], inner.blockSize)
                        && buf[inner.blockSize..] == old(buf[inner.blockSize..])
      ensures inner.sizeQueries == old(inner.sizeQueries) + 1
    {
      var bs := BlockSize();
      if buf.Length < bs {
        return Err(BufferTooSmall);
      }
      if addr in blocks {
        var copy := CopyOut(blocks[addr], bs);
        forall j | 0 <= j < bs {
          buf[j] := copy[j];
        }
        return Ok(bs);
      }
      r := Err(NoSuchBlock);
    }

    /**
     * `write_block(addr, buf)`: a buffer shorter than a block is
     * `BufferTooSmall`; a block without a private copy first gets one
     * (`LoadBlock`, whose error is returned); then the first `bs` bytes of the
     * copy are replaced by `buf`. The inner device is never written. The
     * buffer must not be longer than a block: the copy requires equal lengths.
     */
    method WriteBlock(addr: nat, buf: seq<byte>) returns (r: Result<nat>)
      requires Valid() && |buf| <= inner.blockSize
      modifies this`blocks, inner`sizeQueries, inner`readCalls
      ensures Valid()
      ensures |buf| < inner.blockSize ==> r == Err(BufferTooSmall)
      ensures |buf| == inner.blockSize && addr !in old(blocks) ==>
                var m := Materialised(inner.blocks, inner.blockSize, addr);
                && (r.Ok? <==> m.Ok?)
                && (r.Err? ==> r.error == m.error)
                && (r.Ok? ==> blocks == old(blocks)[addr := Overwritten(m.value, buf)])
      ensures |buf| == inner.blockSize && addr in old(blocks) ==>
                r == Ok(inner.blockSize) && blocks == old(blocks)[addr := Overwritten(old(blocks)[addr], buf)]
      ensures r.Err? ==> blocks == old(blocks)
      ensures inner.readCalls == old(inner.readCalls) + if |buf| == inner.blockSize && addr !in old(blocks) then 1 else 0
      ensures inner.sizeQueries == old(inner.sizeQueries) + 1
    {
      var bs := BlockSize();
      if |buf| < bs {
        return Err(BufferTooSmall);
      }
      if addr !in blocks {
        var loaded := LoadBlock(addr);
        if loaded.Err? {
          return Err(loaded.error);
        }
      }
      blocks := blocks[addr := Overwritten(blocks[addr], buf)];
      r := Ok(bs);
    }

    /**
     * `load_block(addr)`: reads inner block `addr` into a fresh zeroed
     * 512-byte copy and records it; on a failed read nothing is recorded.
     */
    method LoadBlock(addr: nat) returns (r: Result<nat>)
      requires Valid()
      modifies this`blocks, inner`readCalls
      ensures Valid()
      ensures inner.readCalls == old(inner.readCalls) + 1
      ensures var m := Materialised(inner.blocks, inner.blockSize, addr);
              && (r.Ok? <==> m.Ok?)
              && (r.Err? ==> r.error == m.error && blocks == old(blocks))
              && (r.Ok? ==> r.value == 0 && blocks == old(blocks)[addr := m.value])
    {
      var copy := new byte[CopyLen](_ => 0);
      var rr := inner.ReadBlock(addr, copy);
      if rr.Err? {
        return Err(rr.error);
      }
      assert copy[..] == copy[..inner.blockSize] + copy[inner.blockSize..];
      assert copy[inner.blockSize..] == Zeros(CopyLen - inner.blockSize);
      blocks := blocks[addr := copy[..]];
      r := Ok(0);
    }
  }
}

/**
 * `OneDevice` of src/io/block/one.rs: a stub block device of fixed geometry
 * that counts how often each of its four operations is called. Every read
 * fills the block with ones; every write is accepted and discarded.
 */
module One {
  import opened Io

  class OneDevice {
    var blockSizeCount: nat
    var readBlockCount: nat
    var writeBlockCount: nat
    var blockCountCount: nat
    const blockSize: nat
    const blockCount: nat

    /** `OneDevice::new(block_size, block_count)`: the geometry, and every counter at zero. */
    constructor (bs: nat, count: nat)
      ensures blockSize == bs && blockCount == count
      ensures blockSizeCount == 0 && readBlockCount == 0 && writeBlockCount == 0 && blockCountCount == 0
    {
      blockSize := bs;
      blockCount := count;
      blockSizeCount := 0;
      readBlockCount := 0;
      writeBlockCount := 0;
      blockCountCount := 0;
    }

    /** `block_size()`: the stored size; counts the call. */
    method BlockSize() returns (n: nat)
      modifies this`blockSizeCount
      ensures n == blockSize && blockSizeCount == old(blockSizeCount) + 1
    {
      blockSizeCount := blockSizeCount + 1;
      n := blockSize;
    }

    /** `block_count()`: the stored count; counts the call. */
    method BlockCount() returns (n: nat)
      modifies this`blockCountCount
      ensures n == blockCount && blockCountCount == old(blockCountCount) + 1
    {
      blockCountCount := blockCountCount + 1;
      n := blockCount;
    }

    /**
     * `read_block(_, buf)`: any address succeeds; the first `block_size`
     * bytes of `buf` become 1 and the rest are left alone. A buffer shorter
     * than a block is refused (the fill panics on it).
     */
    method ReadBlock(addr: nat, buf: array<byte>) returns (r: Result<nat>)
      requires buf.Length >= blockSize
      modifies this`readBlockCount, buf
      ensures r == Ok(blockSize) && readBlockCount == old(readBlockCount) + 1
      ensures forall j :: 0 <= j < blockSize ==> buf[j] == 1
      ensures buf[blockSize..] == old(buf[blockSize..])
    {
      readBlockCount := readBlockCount + 1;
      forall j | 0 <= j < blockSize {
        buf[j] := 1;
      }
      r := Ok(blockSize);
    }

    /** `write_block(_, _)`: any address and data succeed and are discarded; counts the call. */
    method WriteBlock(addr: nat, buf: seq<byte>) returns (r: Result<nat>)
      modifies this`writeBlockCount
      ensures r == Ok(blockSize) && writeBlockCount == old(writeBlockCount) + 1
    {
      writeBlockCount := writeBlockCount + 1;
      r := Ok(blockSize);
    }
  }
}

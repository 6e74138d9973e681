/**
 * `Cursor<T>` of src/io/cursor.rs: an in-memory byte buffer with a read/write
 * position. Reads and writes move the position forward and never go past the
 * end of the buffer; writes never grow it. Also the `Seek` trait of
 * src/io/seek.rs with its `rewind` and `stream_position` defaults.
 */
module CursorIo {
  import opened Io
  import opened Streams

  /** The contents and position of a cursor, as a value. */
  datatype CursorState = CursorState(inner: seq<byte>, pos: nat)

  /**
   * A cursor whose position is at most the length of its contents: `read`
   * and `write` compute `len - pos`, which underflows (a panic) otherwise.
   */
  type InBounds = c: CursorState | c.pos <= |c.inner| witness CursorState([], 0)

  /**
   * One `read` of a `k`-element buffer: the next `min(len - pos, k)` bytes,
   * with the position moved past them.
   */
  function CursorRead(c: InBounds, k: PosLen): (st: ReadStep<InBounds, byte>)
    ensures st.result.Ok? && st.state.inner == c.inner
    ensures var n := |st.result.value|;
            && n == Min(|c.inner| - c.pos, k)
            && st.state.pos == c.pos + n
            && st.result.value == c.inner[c.pos..c.pos + n]
  {
    var n := Min(|c.inner| - c.pos, k);
    ReadStep(CursorState(c.inner, c.pos + n), Ok(c.inner[c.pos..c.pos + n]))
  }

  /** A cursor read never hands out more than it was asked for. */
  lemma CursorReadsShort()
    ensures ShortReads<InBounds, byte>(CursorRead)
  {
  }

  /**
   * `read_exact` on a cursor: when `k` bytes remain it yields exactly the
   * next `k` bytes; otherwise it yields everything that remains, leaves the
   * position at the end and fails with `PrematureEndOfInput`.
   */
  lemma {:induction false} ReadExactCursor(c: InBounds, k: nat)
    ensures ShortReads<InBounds, byte>(CursorRead)
    ensures var o := ReadExactSpec<InBounds, byte>(CursorRead, c, k);
            if k <= |c.inner| - c.pos then
              o == Exact(CursorState(c.inner, c.pos + k), c.inner[c.pos..c.pos + k], Ok(()))
            else
              o == Exact(CursorState(c.inner, |c.inner|), c.inner[c.pos..], Err(PrematureEndOfInput))
    decreases k
  {
    CursorReadsShort();
    if k > 0 {
      var st := CursorRead(c, k);
      var d := st.result.value;
      var o := ReadExactSpec<InBounds, byte>(CursorRead, c, k);
      if |d| == 0 {
        assert o == Exact(st.state, [], Err(PrematureEndOfInput));
      } else {
        var rest := ReadExactSpec<InBounds, byte>(CursorRead, st.state, k - |d|);
        assert o == Exact(rest.state, d + rest.data, rest.result);
        ReadExactCursor(st.state, k - |d|);
        if k <= |c.inner| - c.pos {
          assert |d| == k;
          assert c.inner[c.pos..c.pos + k] == d + [];
        } else {
          assert c.inner[c.pos..] == d + c.inner[c.pos + |d|..];
        }
      }
    }
  }

  /**
   * One `write` of `data`: the first `min(len - pos, |data|)` bytes of `data`
   * replace the bytes at the position, which moves past them.
   */
  function CursorWrite(c: InBounds, data: seq<byte>): (st: WriteStep<InBounds>)
    ensures st.result.Ok? && st.result.value == Min(|c.inner| - c.pos, |data|)
    ensures var n := st.result.value;
            && st.state.pos == c.pos + n
            && |st.state.inner| == |c.inner|
            && st.state.inner[..c.pos] == c.inner[..c.pos]
            && st.state.inner[c.pos..c.pos + n] == data[..n]
            && st.state.inner[c.pos + n..] == c.inner[c.pos + n..]
  {
    var n := Min(|c.inner| - c.pos, |data|);
    WriteStep(CursorState(c.inner[..c.pos] + data[..n] + c.inner[c.pos + n..], c.pos + n), Ok(n))
  }

  /** A cursor write never consumes more than it was offered. */
  lemma CursorWritesShort()
    ensures ShortWrites<InBounds, byte>(CursorWrite)
  {
  }

  /**
   * `write_all` on a cursor: when `data` fits before the end it lands at the
   * position and the position moves past it; otherwise the part that fits
   * lands, the position is left at the end and the result is `WriteError`.
   * Either way the length of the contents is unchanged.
   */
  lemma WriteAllCursor(c: InBounds, data: seq<byte>)
    ensures ShortWrites<InBounds, byte>(CursorWrite)
    ensures var o := WriteAllSpec<InBounds, byte>(CursorWrite, c, data);
            if |data| <= |c.inner| - c.pos then
              o == Written(CursorState(c.inner[..c.pos] + data + c.inner[c.pos + |data|..], c.pos + |data|), |data|, Ok(()))
            else
              var n := |c.inner| - c.pos;
              o == Written(CursorState(c.inner[..c.pos] + data[..n], |c.inner|), n, Err(WriteError))
  {
    CursorWritesShort();
    if data == [] {
      assert c.inner[..c.pos] + data + c.inner[c.pos..] == c.inner;
    } else if |data| <= |c.inner| - c.pos {
      WriteAllFits(c, data);
    } else if c.pos == |c.inner| {
      assert c.inner[..c.pos] + data[..0] + c.inner[c.pos..] == c.inner[..c.pos] + data[..0];
    } else {
      WriteAllOverflows(c, data);
    }
  }

  /** A non-empty `data` that fits is consumed by the first write. */
  lemma WriteAllFits(c: InBounds, data: seq<byte>)
    requires 0 < |data| <= |c.inner| - c.pos
    requires ShortWrites<InBounds, byte>(CursorWrite)
    ensures WriteAllSpec<InBounds, byte>(CursorWrite, c, data)
            == Written(CursorState(c.inner[..c.pos] + data + c.inner[c.pos + |data|..], c.pos + |data|), |data|, Ok(()))
  {
    var st := CursorWrite(c, data);
    assert st.result == Ok(|data|);
    assert st.state == CursorState(c.inner[..c.pos] + data + c.inner[c.pos + |data|..], c.pos + |data|) by {
      assert data[..|data|] == data;
    }
    assert data[|data|..] == [];
    assert WriteAllSpec<InBounds, byte>(CursorWrite, st.state, []) == Written(st.state, 0, Ok(()));
  }

  /**
   * A `data` longer than the rest of a cursor that is not at its end: the
   * first write fills the rest, the second consumes nothing.
   */
  lemma WriteAllOverflows(c: InBounds, data: seq<byte>)
    requires 0 < |c.inner| - c.pos < |data|
    requires ShortWrites<InBounds, byte>(CursorWrite)
    ensures var n := |c.inner| - c.pos;
            WriteAllSpec<InBounds, byte>(CursorWrite, c, data)
            == Written(CursorState(c.inner[..c.pos] + data[..n], |c.inner|), n, Err(WriteError))
  {
    var n := |c.inner| - c.pos;
    var st := CursorWrite(c, data);
    assert st.result.value == n;
    var c' := st.state;
    assert c'.pos == |c.inner| && c'.inner == c.inner[..c.pos] + data[..n];
    var st' := CursorWrite(c', data[n..]);
    assert st'.result.value == 0;
    assert st'.state.inner == c'.inner[..c'.pos] + data[n..][..0];
    assert st'.state == c';
  }

  /**
   * Contents are shorter than 2^63 bytes, so that the source's `len as i64`
   * and `len as u64` conversions keep the length.
   */
  const LenLimit: nat := 0x8000_0000_0000_0000

  /** `SeekFrom`: a target relative to the start, the end or the current position. */
  datatype SeekFrom = Start(offset: u64) | End(back: i64) | Current(delta: i64)

  /**
   * The position `seek(from)` asks for, before the bounds check: `End(n)`
   * counts back from the end and is `InvalidOffset` below zero; `Current(n)`
   * adds `n` reinterpreted as unsigned, wrapping modulo 2^64.
   */
  function SeekTarget(len: nat, pos: u64, from: SeekFrom): (r: Result<u64>)
    requires len < LenLimit
    ensures r.Err? ==> from.End? && len < from.back && r.error == InvalidOffset
  {
    match from
    case Start(n) => Ok(n)
    case End(n) => if len - n < 0 then Err(InvalidOffset) else Ok(len - n)
    case Current(n) => Ok((pos + n) % 0x1_0000_0000_0000_0000)
  }

  /**
   * The result of `seek(from)` on a cursor over `len` bytes at `pos`: the
   * target when it lies strictly before the end, `InvalidOffset` otherwise.
   */
  function SeekResult(len: nat, pos: u64, from: SeekFrom): (r: Result<u64>)
    requires len < LenLimit
    ensures r.Ok? <==> SeekTarget(len, pos, from).Ok? && SeekTarget(len, pos, from).value < len
    ensures r.Ok? ==> r.value == SeekTarget(len, pos, from).value && r.value < len
    ensures r.Err? ==> r.error == InvalidOffset
  {
    match SeekTarget(len, pos, from)
    case Err(e) => Err(e)
    case Ok(t) => if t >= len then Err(InvalidOffset) else Ok(t)
  }

  /** Seeking to the end itself fails, from any of the three origins. */
  lemma SeekToEndFails(len: nat, pos: u64)
    requires len < LenLimit
    ensures SeekResult(len, pos, Start(len)) == Err(InvalidOffset)
    ensures SeekResult(len, pos, End(0)) == Err(InvalidOffset)
    ensures pos <= len ==> SeekResult(len, pos, Current(len - pos)) == Err(InvalidOffset)
  {
  }

  /**
   * A relative seek whose target `pos + n` is a valid `u64` lands there: the
   * unsigned wrap-around of a negative `n` cancels out.
   */
  lemma SeekCurrentLands(len: nat, pos: u64, n: i64)
    requires len < LenLimit && 0 <= pos + n < 0x1_0000_0000_0000_0000
    ensures SeekResult(len, pos, Current(n)) == if pos + n < len then Ok(pos + n) else Err(InvalidOffset)
  {
  }

  /** `Seek::rewind` (`seek(Start(0))`): position 0, unless the cursor is empty. */
  function Rewind(len: nat, pos: u64): (r: Result<u64>)
    requires len < LenLimit
    ensures r.Ok? <==> len > 0
    ensures r.Ok? ==> r.value == 0
  {
    SeekResult(len, pos, Start(0))
  }

  /**
   * `Seek::stream_position` (`seek(Current(0))`): the position, unless it is
   * at or past the end, where it is `InvalidOffset`.
   */
  function StreamPosition(len: nat, pos: u64): (r: Result<u64>)
    requires len < LenLimit
    ensures r.Ok? <==> pos < len
    ensures r.Ok? ==> r.value == pos
  {
    SeekResult(len, pos, Current(0))
  }

  /** `Cursor<T>`: the contents and the position, both updated in place. */
  class Cursor {
    var inner: seq<byte>
    var pos: u64

    /** The contents, as a value. */
    ghost function State(): CursorState
      reads this
    {
      CursorState(inner, pos)
    }

    ghost predicate Valid()
      reads this
    {
      |inner| < LenLimit
    }

    /** `Cursor::new(inner)`: positioned at the start. */
    constructor (contents: seq<byte>)
      requires |contents| < LenLimit
      ensures Valid() && inner == contents && pos == 0
    {
      inner := contents;
      pos := 0;
    }

    /** `position()`. */
    function Position(): (p: u64)
      reads this
      ensures p == State().pos
    {
      pos
    }

    /** `set_position(p)`: any position, even past the end. */
    method SetPosition(p: u64)
      modifies this`pos
      ensures pos == p
    {
      pos := p;
    }

    /**
     * `remaining_slice()`: the bytes from the position to the end, or nothing
     * when the position is at or past the end.
     */
    function RemainingSlice(): (r: seq<byte>)
      reads this
      ensures |r| == if pos < |inner| then |inner| - pos else 0
      ensures r == inner[|inner| - |r|..]
    {
      inner[Min(pos, |inner|)..]
    }

    /** `is_empty()`: exactly when nothing remains to be read. */
    predicate IsEmpty()
      reads this
      ensures IsEmpty() <==> RemainingSlice() == []
    {
      pos >= |inner|
    }

    /** `seek(from)`: moves to `SeekResult`'s position, or stays put on an error. */
    method Seek(from: SeekFrom) returns (r: Result<u64>)
      requires Valid()
      modifies this`pos
      ensures r == SeekResult(|inner|, old(pos), from)
      ensures pos == if r.Ok? then r.value else old(pos)
    {
      var len := |inner|;
      var target: u64;
      match from {
        case Start(n) =>
          target := n;
        case End(n) =>
          var p := len - n;
          if p < 0 {
            return Err(InvalidOffset);
          }
          target := p;
        case Current(n) =>
          target := (pos + n) % 0x1_0000_0000_0000_0000;
      }
      if target >= len {
        r := Err(InvalidOffset);
      } else {
        pos := target;
        r := Ok(pos);
      }
    }

    /**
     * `read(buf)`: copies `CursorRead`'s bytes to the front of `buf`, leaves
     * the rest of `buf` alone, and moves the position past them.
     */
    method Read(buf: array<byte>) returns (r: Result<nat>)
      requires Valid() && pos <= |inner|
      modifies this`pos, buf
      ensures var n := Min(|old(inner)| - old(pos), buf.Length);
              && r == Ok(n) && inner == old(inner) && pos == old(pos) + n
              && buf[..n] == inner[old(pos)..old(pos) + n]
              && buf[n..] == old(buf[n..])
      ensures buf.Length > 0 ==> CursorRead(old(State()), buf.Length) == ReadStep(State(), Ok(buf[..r.value]))
    {
      var len := Min(|inner| - pos, buf.Length);
      forall j | 0 <= j < len {
        buf[j] := inner[pos + j];
      }
      pos := pos + len;
      r := Ok(len);
    }

    /**
     * `write(buf)`: copies `CursorWrite`'s bytes of `buf` over the contents
     * at the position and moves the position past them.
     */
    method Write(buf: seq<byte>) returns (r: Result<nat>)
      requires Valid() && pos <= |inner|
      modifies this`inner, this`pos
      ensures Valid()
      ensures var st := CursorWrite(old(State()), buf);
              r == st.result && State() == st.state
    {
      var len := Min(|inner| - pos, |buf|);
      inner := inner[..pos] + buf[..len] + inner[pos + len..];
      pos := pos + len;
      r := Ok(len);
    }

    /** `flush()`: nothing to do. */
    method Flush() returns (r: Result<()>)
      ensures r == Ok(())
    {
      r := Ok(());
    }
  }
}

/**
 * `SingleRead` of src/io/testing.rs: an adapter that forwards every `read`
 * and `read_at` to the wrapped reader with a one-element buffer, so that code
 * built on `Read` or `ReadAt` can be shown not to depend on full reads.
 */
module Testing {
  import opened Io
  import opened Streams
  import opened CursorIo

  /** The adapter as a reader: whatever the buffer, the wrapped reader is asked for one element. */
  function Single<S(!new), T>(read: (S, PosLen) -> ReadStep<S, T>): (r: (S, PosLen) -> ReadStep<S, T>)
    ensures forall s, k: PosLen :: r(s, k) == read(s, 1)
  {
    (s, k: PosLen) => read(s, 1)
  }

  /** The adapter keeps the promise of the reader it wraps. */
  lemma SingleReadsShort<S(!new), T>(read: (S, PosLen) -> ReadStep<S, T>)
    requires ShortReads(read)
    ensures ShortReads(Single(read))
  {
    forall s, k: PosLen | Single(read)(s, k).result.Ok?
      ensures |Single(read)(s, k).result.value| <= k
    {
      assert Single(read)(s, k) == read(s, 1);
    }
  }

  /** Over a cursor, each adapted read hands out the next byte. */
  lemma SingleCursorStep(c: InBounds, k: PosLen)
    requires c.pos < |c.inner|
    ensures Single<InBounds, byte>(CursorRead)(c, k) == ReadStep(CursorState(c.inner, c.pos + 1), Ok([c.inner[c.pos]]))
  {
    var single := Single<InBounds, byte>(CursorRead);
    assert single(c, k) == CursorRead(c, 1);
    assert CursorRead(c, 1).result.value == c.inner[c.pos..c.pos + 1] == [c.inner[c.pos]];
  }

  /** One round of `read_exact` through the adapter over a cursor that is not at its end. */
  lemma SingleExactStep(c: InBounds, k: PosLen)
    requires c.pos < |c.inner|
    requires ShortReads(Single<InBounds, byte>(CursorRead))
    ensures var c': InBounds := CursorState(c.inner, c.pos + 1);
            var rest := ReadExactSpec<InBounds, byte>(Single<InBounds, byte>(CursorRead), c', k - 1);
            ReadExactSpec<InBounds, byte>(Single<InBounds, byte>(CursorRead), c, k)
            == Exact(rest.state, [c.inner[c.pos]] + rest.data, rest.result)
  {
    SingleCursorStep(c, k);
  }

  /**
   * `read_exact` of `k` bytes from a cursor, in closed form: the next `k`
   * bytes when that many remain; otherwise everything that remains, the
   * position at the end and `PrematureEndOfInput`.
   */
  function CursorExact(c: InBounds, k: nat): Exact<InBounds, byte>
  {
    if k <= |c.inner| - c.pos then
      Exact(CursorState(c.inner, c.pos + k), c.inner[c.pos..c.pos + k], Ok(()))
    else
      Exact(CursorState(c.inner, |c.inner|), c.inner[c.pos..], Err(PrematureEndOfInput))
  }

  /**
   * `read_exact` through the adapter over a cursor, by induction on the
   * buffer length: one byte per round.
   */
  lemma {:induction false} ReadExactSingleClosed(c: InBounds, k: nat)
    ensures ShortReads(Single<InBounds, byte>(CursorRead))
    ensures ReadExactSpec<InBounds, byte>(Single<InBounds, byte>(CursorRead), c, k) == CursorExact(c, k)
    decreases k
  {
    CursorReadsShort();
    SingleReadsShort<InBounds, byte>(CursorRead);
    var single := Single<InBounds, byte>(CursorRead);
    if k > 0 {
      if c.pos == |c.inner| {
        assert single(c, k) == CursorRead(c, 1);
        assert c.inner[c.pos..] == [];
      } else {
        var c': InBounds := CursorState(c.inner, c.pos + 1);
        SingleExactStep(c, k);
        ReadExactSingleClosed(c', k - 1);
        ConsByte(c, c', k, ReadExactSpec<InBounds, byte>(single, c, k), ReadExactSpec<InBounds, byte>(single, c', k - 1));
      }
    }
  }

  /** The closed form of a `read_exact` from the closed form of its rounds after the first. */
  lemma ConsByte(c: InBounds, c': InBounds, k: nat, o: Exact<InBounds, byte>, rest: Exact<InBounds, byte>)
    requires c.pos < |c.inner| && k > 0 && c' == CursorState(c.inner, c.pos + 1)
    requires o == Exact(rest.state, [c.inner[c.pos]] + rest.data, rest.result)
    requires rest == CursorExact(c', k - 1)
    ensures o == CursorExact(c, k)
  {
    if k <= |c.inner| - c.pos {
      assert c.inner[c.pos..c.pos + k] == [c.inner[c.pos]] + c.inner[c.pos + 1..c.pos + k];
    } else {
      assert c.inner[c.pos..] == [c.inner[c.pos]] + c.inner[c.pos + 1..];
    }
  }

  /**
   * `read_exact` through the adapter gives the same outcome as on the cursor
   * itself, although every read hands out a single byte.
   */
  lemma ReadExactSingleCursor(c: InBounds, k: nat)
    ensures ShortReads(Single<InBounds, byte>(CursorRead))
    ensures ReadExactSpec<InBounds, byte>(Single<InBounds, byte>(CursorRead), c, k) == ReadExactSpec<InBounds, byte>(CursorRead, c, k)
  {
    ReadExactSingleClosed(c, k);
    ReadExactCursor(c, k);
  }

  /** `SingleRead<Cursor, u8>`: the adapter around a cursor. */
  class SingleRead {
    const inner: Cursor

    /** `SingleRead::new(inner)`. */
    constructor (c: Cursor)
      ensures inner == c
    {
      inner := c;
    }

    /**
     * `read(buf)`: the cursor reads into `buf[0..1]` only. At most the first
     * element of `buf` changes; the result is the wrapped reader's. An empty
     * buffer is refused (`b[0..1]` panics on it).
     */
    method Read(buf: array<byte>) returns (r: Result<nat>)
      requires buf.Length >= 1 && inner.Valid() && inner.pos <= |inner.inner|
      modifies buf, inner`pos
      ensures var n := Min(|inner.inner| - old(inner.pos), 1);
              && r == Ok(n) && inner.pos == old(inner.pos) + n
              && (n == 1 ==> buf[0] == inner.inner[old(inner.pos)])
              && buf[n..] == old(buf[n..])
      ensures Single<InBounds, byte>(CursorRead)(old(inner.State()), buf.Length) == ReadStep(inner.State(), Ok(buf[..r.value]))
    {
      ghost var before: InBounds := inner.State();
      var window := new byte[1](_ => 0);
      window[0] := buf[0];
      r := inner.Read(window);
      buf[0] := window[0];
      assert buf[1..] == old(buf[1..]);
      assert Single<InBounds, byte>(CursorRead)(before, buf.Length) == CursorRead(before, 1);
      assert buf[..r.value] == window[..r.value];
    }
  }

  /** `SingleRead<Vec<T>, T>`: the adapter around an in-memory vector. */
  class SingleReadAt<T> {
    const inner: seq<T>

    /** `SingleRead::new(inner)`. */
    constructor (v: seq<T>)
      ensures inner == v
    {
      inner := v;
    }

    /**
     * `read_at(offset, buf)`: the vector reads one element at `offset` into
     * `buf[0..1]`: `Ok(1)` with `buf[0]` that element, or `InvalidOffset`
     * past the end with `buf` unchanged. An empty buffer is refused.
     */
    method ReadAt(offset: nat, buf: array<T>) returns (r: Result<nat>)
      requires buf.Length >= 1
      modifies buf
      ensures r == if offset < |inner| then Ok(1) else Err(InvalidOffset)
      ensures r.Ok? ==> buf[..1] == VecReadAt(inner, offset, 1).value && buf[1..] == old(buf[1..])
      ensures r.Err? ==> buf[..] == old(buf[..])
    {
      var first := buf[0];
      var window := new T[1](_ => first);
      r := ReadAtRef(inner, offset, window);
      if r.Ok? {
        buf[0] := window[0];
        assert buf[1..] == old(buf[1..]);
      } else {
        assert buf[..] == old(buf[..]);
      }
    }
  }
}

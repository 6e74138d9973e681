/**
 * The reading macros of src/io/macros.rs: `read_bytes!` reads a fixed
 * number of bytes with `read_exact`, the integer macros decode them as big-
 * or little-endian unsigned integers, and `read_null_terminated_string!`
 * keeps the bytes before the first zero. A macro's `?` becomes an early
 * `Err` return.
 */
module Macros {
  import opened Io
  import opened Streams
  import opened CursorIo

  function Pow256(n: nat): (r: nat)
    ensures r >= 1
  {
    if n == 0 then 1 else 256 * Pow256(n - 1)
  }

  /** `uN::from_be_bytes`: the first byte is the most significant. */
  function FromBe(b: seq<byte>): (r: nat)
    ensures r < Pow256(|b|)
  {
    if b == [] then 0 else FromBe(b[..|b| - 1]) * 256 + b[|b| - 1]
  }

  /** `uN::from_le_bytes`: the first byte is the least significant. */
  function FromLe(b: seq<byte>): (r: nat)
    ensures r < Pow256(|b|)
  {
    if b == [] then 0 else b[0] + 256 * FromLe(b[1..])
  }

  /** The `n` big-endian bytes of `x`, the inverse of `FromBe`. */
  function ToBe(x: nat, n: nat): (b: seq<byte>)
    requires x < Pow256(n)
    ensures |b| == n
  {
    if n == 0 then [] else ToBe(x / 256, n - 1) + [x % 256]
  }

  /** The `n` little-endian bytes of `x`, the inverse of `FromLe`. */
  function ToLe(x: nat, n: nat): (b: seq<byte>)
    requires x < Pow256(n)
    ensures |b| == n
  {
    if n == 0 then [] else [x % 256] + ToLe(x / 256, n - 1)
  }

  lemma {:induction false} FromBeToBe(x: nat, n: nat)
    requires x < Pow256(n)
    ensures FromBe(ToBe(x, n)) == x
    decreases n
  {
    if n > 0 {
      var b := ToBe(x, n);
      assert b[..n - 1] == ToBe(x / 256, n - 1);
      FromBeToBe(x / 256, n - 1);
    }
  }

  lemma {:induction false} ToBeFromBe(b: seq<byte>)
    ensures ToBe(FromBe(b), |b|) == b
    decreases |b|
  {
    if b != [] {
      var p := b[..|b| - 1];
      var x := FromBe(b);
      assert x / 256 == FromBe(p) && x % 256 == b[|b| - 1];
      ToBeFromBe(p);
    }
  }

  lemma {:induction false} FromLeToLe(x: nat, n: nat)
    requires x < Pow256(n)
    ensures FromLe(ToLe(x, n)) == x
    decreases n
  {
    if n > 0 {
      var b := ToLe(x, n);
      assert b[1..] == ToLe(x / 256, n - 1);
      FromLeToLe(x / 256, n - 1);
    }
  }

  lemma {:induction false} ToLeFromLe(b: seq<byte>)
    ensures ToLe(FromLe(b), |b|) == b
    decreases |b|
  {
    if b != [] {
      var x := FromLe(b);
      assert x / 256 == FromLe(b[1..]) && x % 256 == b[0];
      ToLeFromLe(b[1..]);
    }
  }

  /** Moving a digit `x` of weight `w` one byte up. */
  lemma ShiftByte(x: int, w: int, f: int, l: int)
    ensures (x * w + f) * 256 + l == x * (256 * w) + (f * 256 + l)
    ensures l + 256 * (f + x * w) == (l + 256 * f) + x * (256 * w)
  {
  }

  /** In big-endian order the first of `n + 1` bytes weighs `256^n`. */
  lemma {:induction false} FromBeFirst(x: byte, b: seq<byte>)
    ensures FromBe([x] + b) == x * Pow256(|b|) + FromBe(b)
    decreases |b|
  {
    if b != [] {
      var p, last := b[..|b| - 1], b[|b| - 1];
      assert ([x] + b)[..|b|] == [x] + p;
      FromBeFirst(x, p);
      var w := Pow256(|p|);
      calc {
        FromBe([x] + b);
        FromBe([x] + p) * 256 + last;
        (x * w + FromBe(p)) * 256 + last;
        { ShiftByte(x, w, FromBe(p), last); }
        x * (256 * w) + (FromBe(p) * 256 + last);
        x * Pow256(|b|) + FromBe(b);
      }
    } else {
      assert [x] + b == [x];
      assert [x][..0] == [];
    }
  }

  /** In little-endian order the last of `n + 1` bytes weighs `256^n`. */
  lemma {:induction false} FromLeLast(b: seq<byte>, x: byte)
    ensures FromLe(b + [x]) == FromLe(b) + x * Pow256(|b|)
    decreases |b|
  {
    if b != [] {
      var rest := b[1..];
      assert (b + [x])[1..] == rest + [x];
      FromLeLast(rest, x);
      var w := Pow256(|rest|);
      calc {
        FromLe(b + [x]);
        b[0] + 256 * FromLe(rest + [x]);
        b[0] + 256 * (FromLe(rest) + x * w);
        { ShiftByte(x, w, FromLe(rest), b[0]); }
        (b[0] + 256 * FromLe(rest)) + x * (256 * w);
        FromLe(b) + x * Pow256(|b|);
      }
    } else {
      assert b + [x] == [x];
      assert [x][1..] == [];
    }
  }

  /** `read_bytes!(source, count)`: the next `count` bytes, or `read_exact`'s error. */
  method ReadBytes<S(!new)>(read: (S, PosLen) -> ReadStep<S, byte>, s0: S, count: nat) returns (s: S, r: Result<seq<byte>>)
    requires ShortReads(read)
    ensures var o := ReadExactSpec(read, s0, count);
            && s == o.state
            && (r.Ok? <==> o.result.Ok?)
            && (r.Ok? ==> r.value == o.data && |r.value| == count)
            && (r.Err? ==> r.error == o.result.error)
  {
    var buf := new byte[count](_ => 0);
    var e;
    s, e := ReadExact(read, s0, buf);
    if e.Err? {
      return s, Err(e.error);
    }
    r := Ok(buf[..]);
  }

  /** `read_u8!(source)`: the next byte. */
  method ReadU8<S(!new)>(read: (S, PosLen) -> ReadStep<S, byte>, s0: S) returns (s: S, r: Result<byte>)
    requires ShortReads(read)
    ensures var o := ReadExactSpec(read, s0, 1);
            && s == o.state && (r.Ok? <==> o.result.Ok?)
            && (r.Ok? ==> o.data == [r.value])
            && (r.Err? ==> r.error == o.result.error)
  {
    var bytes;
    s, bytes := ReadBytes(read, s0, 1);
    if bytes.Err? {
      return s, Err(bytes.error);
    }
    r := Ok(bytes.value[0]);
  }

  /** `read_be_u16!(source)`: the next two bytes, most significant first. */
  method ReadBeU16<S(!new)>(read: (S, PosLen) -> ReadStep<S, byte>, s0: S) returns (s: S, r: Result<nat>)
    requires ShortReads(read)
    ensures var o := ReadExactSpec(read, s0, 2);
            && s == o.state && (r.Ok? <==> o.result.Ok?)
            && (r.Ok? ==> r.value < 0x1_0000 && ToBe(r.value, 2) == o.data)
            && (r.Err? ==> r.error == o.result.error)
  {
    var bytes;
    s, bytes := ReadBytes(read, s0, 2);
    if bytes.Err? {
      return s, Err(bytes.error);
    }
    r := Ok(FromBe(bytes.value));
    ToBeFromBe(bytes.value);
  }

  /** `read_be_u32!(source)`: the next four bytes, most significant first. */
  method ReadBeU32<S(!new)>(read: (S, PosLen) -> ReadStep<S, byte>, s0: S) returns (s: S, r: Result<nat>)
    requires ShortReads(read)
    ensures var o := ReadExactSpec(read, s0, 4);
            && s == o.state && (r.Ok? <==> o.result.Ok?)
            && (r.Ok? ==> r.value < 0x1_0000_0000 && ToBe(r.value, 4) == o.data)
            && (r.Err? ==> r.error == o.result.error)
  {
    var bytes;
    s, bytes := ReadBytes(read, s0, 4);
    if bytes.Err? {
      return s, Err(bytes.error);
    }
    r := Ok(FromBe(bytes.value));
    ToBeFromBe(bytes.value);
  }

  /** `read_be_u64!(source)`: the next eight bytes, most significant first. */
  method ReadBeU64<S(!new)>(read: (S, PosLen) -> ReadStep<S, byte>, s0: S) returns (s: S, r: Result<nat>)
    requires ShortReads(read)
    ensures var o := ReadExactSpec(read, s0, 8);
            && s == o.state && (r.Ok? <==> o.result.Ok?)
            && (r.Ok? ==> r.value < 0x1_0000_0000_0000_0000 && ToBe(r.value, 8) == o.data)
            && (r.Err? ==> r.error == o.result.error)
  {
    var bytes;
    s, bytes := ReadBytes(read, s0, 8);
    if bytes.Err? {
      return s, Err(bytes.error);
    }
    r := Ok(FromBe(bytes.value));
    ToBeFromBe(bytes.value);
  }

  /** `read_le_u16!(source)`: the next two bytes, least significant first. */
  method ReadLeU16<S(!new)>(read: (S, PosLen) -> ReadStep<S, byte>, s0: S) returns (s: S, r: Result<nat>)
    requires ShortReads(read)
    ensures var o := ReadExactSpec(read, s0, 2);
            && s == o.state && (r.Ok? <==> o.result.Ok?)
            && (r.Ok? ==> r.value < 0x1_0000 && ToLe(r.value, 2) == o.data)
            && (r.Err? ==> r.error == o.result.error)
  {
    var bytes;
    s, bytes := ReadBytes(read, s0, 2);
    if bytes.Err? {
      return s, Err(bytes.error);
    }
    r := Ok(FromLe(bytes.value));
    ToLeFromLe(bytes.value);
  }

  /** `read_le_u32!(source)`: the next four bytes, least significant first. */
  method ReadLeU32<S(!new)>(read: (S, PosLen) -> ReadStep<S, byte>, s0: S) returns (s: S, r: Result<nat>)
    requires ShortReads(read)
    ensures var o := ReadExactSpec(read, s0, 4);
            && s == o.state && (r.Ok? <==> o.result.Ok?)
            && (r.Ok? ==> r.value < 0x1_0000_0000 && ToLe(r.value, 4) == o.data)
            && (r.Err? ==> r.error == o.result.error)
  {
    var bytes;
    s, bytes := ReadBytes(read, s0, 4);
    if bytes.Err? {
      return s, Err(bytes.error);
    }
    r := Ok(FromLe(bytes.value));
    ToLeFromLe(bytes.value);
  }

  /** `read_le_u64!(source)`: the next eight bytes, least significant first. */
  method ReadLeU64<S(!new)>(read: (S, PosLen) -> ReadStep<S, byte>, s0: S) returns (s: S, r: Result<nat>)
    requires ShortReads(read)
    ensures var o := ReadExactSpec(read, s0, 8);
            && s == o.state && (r.Ok? <==> o.result.Ok?)
            && (r.Ok? ==> r.value < 0x1_0000_0000_0000_0000 && ToLe(r.value, 8) == o.data)
            && (r.Err? ==> r.error == o.result.error)
  {
    var bytes;
    s, bytes := ReadBytes(read, s0, 8);
    if bytes.Err? {
      return s, Err(bytes.error);
    }
    r := Ok(FromLe(bytes.value));
    ToLeFromLe(bytes.value);
  }

  /**
   * The bytes before the first zero, or all of them when there is none: the
   * longest prefix without a zero.
   */
  function UntilNul(data: seq<byte>): (r: seq<byte>)
    ensures |r| <= |data| && r == data[..|r|]
    ensures forall j :: 0 <= j < |r| ==> r[j] != 0
    ensures |r| < |data| ==> data[|r|] == 0
  {
    match FirstMatch(data, (b: byte) => b == 0)
    case None => data
    case Some(p) => data[..p]
  }

  /**
   * `read_null_terminated_string!(source, count)`: consumes `count` bytes and
   * keeps those before the first zero. The text is the byte string itself.
   */
  method ReadNullTerminatedString<S(!new)>(read: (S, PosLen) -> ReadStep<S, byte>, s0: S, count: nat)
    returns (s: S, r: Result<seq<byte>>)
    requires ShortReads(read)
    ensures var o := ReadExactSpec(read, s0, count);
            && s == o.state && (r.Ok? <==> o.result.Ok?)
            && (r.Ok? ==> r.value == UntilNul(o.data))
            && (r.Err? ==> r.error == o.result.error)
  {
    var data;
    s, data := ReadBytes(read, s0, count);
    if data.Err? {
      return s, Err(data.error);
    }
    r := Ok(UntilNul(data.value));
  }

  /** `read_bytes!` over a cursor holding enough bytes yields the next ones and moves past them. */
  lemma ReadBytesCursor(c: InBounds, count: nat)
    requires count <= |c.inner| - c.pos
    ensures ShortReads<InBounds, byte>(CursorRead)
    ensures ReadExactSpec<InBounds, byte>(CursorRead, c, count)
            == Exact(CursorState(c.inner, c.pos + count), c.inner[c.pos..c.pos + count], Ok(()))
  {
    ReadExactCursor(c, count);
  }

  /** Six bytes read from a cursor over 0..9 are 0..5. */
  lemma ReadBytesExample()
    ensures ShortReads<InBounds, byte>(CursorRead)
    ensures ReadExactSpec<InBounds, byte>(CursorRead, CursorState([0, 1, 2, 3, 4, 5, 6, 7, 8, 9], 0), 6).data
            == [0, 1, 2, 3, 4, 5]
  {
    ReadBytesCursor(CursorState([0, 1, 2, 3, 4, 5, 6, 7, 8, 9], 0), 6);
  }
}

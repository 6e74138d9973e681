/**
 * The shared vocabulary of the IO kit (src/io/mod.rs): the closed error
 * enumeration, the result type every operation returns, bytes, and the
 * `ReadAt` implementation for an in-memory vector.
 */
module Io {

  /** An unsigned 8-bit value. */
  type byte = x: int | 0 <= x < 256

  /** A buffer length the generic `read`/`write` loops pass on: never empty. */
  type PosLen = k: nat | 0 < k witness 1

  datatype Option<+T> = None | Some(value: T)

  /**
   * The library's error enumeration. `WriteError` is raised by `write_all`
   * but missing from the enumeration in the source; it is added here.
   */
  datatype Error =
    | InvalidOffset
    | BufferTooSmall
    | PrematureEndOfInput
    | NoSuchBlock
    | NotImplemented
    | NotFound
    | ExistsButShouldNot
    | BadAddress
    | DecodeError
    | InvalidMagicNumber
    | IncoherentData
    | InvalidArgument
    | IsFile
    | IsDir
    | WriteError

  datatype Result<+T> = Ok(value: T) | Err(error: Error)

  /** An unsigned 64-bit value, the width of offsets and positions. */
  type u64 = x: int | 0 <= x < 0x1_0000_0000_0000_0000

  /** A signed 64-bit value. */
  type i64 = x: int | -0x8000_0000_0000_0000 <= x < 0x8000_0000_0000_0000

  function Min(a: int, b: int): int { if a <= b then a else b }

  /** The index `Iterator::position` finds: the first element satisfying `p`. */
  function FirstMatch<V>(s: seq<V>, p: V -> bool): (r: Option<nat>)
    ensures r.Some? ==> r.value < |s| && p(s[r.value])
    ensures r.Some? ==> forall j :: 0 <= j < r.value ==> !p(s[j])
    ensures r.None? ==> forall j :: 0 <= j < |s| ==> !p(s[j])
  {
    if s == [] then None
    else if p(s[0]) then Some(0)
    else match FirstMatch(s[1..], p)
      case None => None
      case Some(k) => Some(k + 1)
  }

  /** `slice::copy_from_slice`: the lengths must agree; `buf` then holds `src`. */
  method CopyFromSlice<T>(buf: array<T>, src: seq<T>)
    requires buf.Length == |src|
    modifies buf
    ensures buf[..] == src
  {
    forall j | 0 <= j < buf.Length {
      buf[j] := src[j];
    }
  }

  /**
   * `ReadAt` for `&Vec<T>`: the elements `offset .. offset + len` of `v`,
   * or `InvalidOffset` when that range does not lie inside `v`. All or
   * nothing: never a partial read.
   */
  function VecReadAt<T>(v: seq<T>, offset: nat, len: nat): (r: Result<seq<T>>)
    ensures r.Err? <==> offset + len > |v|
    ensures r.Err? ==> r.error == InvalidOffset
    ensures r.Ok? ==> |r.value| == len && forall j :: 0 <= j < len ==> r.value[j] == v[offset + j]
  {
    if offset + len > |v| then Err(InvalidOffset) else Ok(v[offset..offset + len])
  }

  /** An empty buffer at any offset inside the vector reads nothing, successfully. */
  lemma VecReadAtEmpty<T>(v: seq<T>, offset: nat)
    requires offset <= |v|
    ensures VecReadAt(v, offset, 0) == Ok([])
  {
  }

  /**
   * `ReadAt::read_at` for `&Vec<T>`: copies `v[offset .. offset + buf.Length]`
   * into `buf` and returns its length, or fails with `InvalidOffset` and leaves
   * `buf` as it was.
   */
  method ReadAtRef<T>(v: seq<T>, offset: nat, buf: array<T>) returns (r: Result<nat>)
    modifies buf
    ensures r.Err? <==> offset + buf.Length > |v|
    ensures r.Err? ==> r.error == InvalidOffset && buf[..] == old(buf[..])
    ensures r.Ok? ==> r.value == buf.Length && buf[..] == VecReadAt(v, offset, buf.Length).value
  {
    var end := offset + buf.Length;
    if end > |v| {
      return Err(InvalidOffset);
    }
    forall j | 0 <= j < buf.Length {
      buf[j] := v[offset + j];
    }
    r := Ok(buf.Length);
  }

  /** `ReadAt::read_at` for an owned `Vec<T>`: delegates to the `&Vec<T>` version. */
  method ReadAtOwned<T>(v: seq<T>, offset: nat, buf: array<T>) returns (r: Result<nat>)
    modifies buf
    ensures r.Err? <==> offset + buf.Length > |v|
    ensures r.Err? ==> r.error == InvalidOffset && buf[..] == old(buf[..])
    ensures r.Ok? ==> r.value == buf.Length && buf[..] == VecReadAt(v, offset, buf.Length).value
  {
    r := ReadAtRef(v, offset, buf);
  }
}

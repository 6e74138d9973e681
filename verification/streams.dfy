/**
 * The byte-stream traits of src/io/read.rs and src/io/write.rs and their
 * default loops `read_exact` and `write_all`.
 *
 * A `Read` or `Write` implementation is a state `S` together with a function
 * giving the outcome of one `read`/`write` call from that state: the new state
 * and either the elements produced (consumed) or an error. The loops are
 * methods over such a function; `ReadExactSpec` and `WriteAllSpec` say what
 * they compute.
 */
module Streams {
  import opened Io

  /** One `read` call: the state afterwards, and the elements it placed at the front of the buffer. */
  datatype ReadStep<+S, +T> = ReadStep(state: S, result: Result<seq<T>>)

  /**
   * What `Read::read` promises its callers: never more elements than the
   * buffer holds. `read_exact` relies on it to reslice its window.
   */
  ghost predicate ShortReads<S(!new), T>(read: (S, PosLen) -> ReadStep<S, T>)
  {
    forall s, k: PosLen :: read(s, k).result.Ok? ==> |read(s, k).result.value| <= k
  }

  /** The outcome of `read_exact`: the state, what is in the buffer's filled prefix, and the result. */
  datatype Exact<+S, +T> = Exact(state: S, data: seq<T>, result: Result<()>)

  /**
   * `read_exact` into a buffer of `k` elements: read into the unfilled rest
   * until it is full; a read of nothing stops with `PrematureEndOfInput`, a
   * failing read stops with its error. The buffer ends up holding the
   * concatenation of the successful reads, which is the whole buffer exactly
   * when the result is `Ok`.
   */
  function ReadExactSpec<S(!new), T>(read: (S, PosLen) -> ReadStep<S, T>, s: S, k: nat): (o: Exact<S, T>)
    requires ShortReads(read)
    ensures |o.data| <= k
    ensures o.result.Ok? <==> |o.data| == k
    ensures k == 0 ==> o.state == s
    decreases k
  {
    if k == 0 then Exact(s, [], Ok(()))
    else
      var st := read(s, k);
      match st.result
      case Err(e) => Exact(st.state, [], Err(e))
      case Ok(d) =>
        if |d| == 0 then Exact(st.state, [], Err(PrematureEndOfInput))
        else
          var rest := ReadExactSpec(read, st.state, k - |d|);
          Exact(rest.state, d + rest.data, rest.result)
  }

  /** A failed `read_exact` reports either a read's own error or `PrematureEndOfInput`. */
  lemma {:induction false} ReadExactErrors<S(!new), T>(read: (S, PosLen) -> ReadStep<S, T>, s: S, k: nat)
    requires ShortReads(read)
    ensures var o := ReadExactSpec(read, s, k);
            o.result.Err? ==>
              o.result.error == PrematureEndOfInput
              || exists s', k': PosLen :: read(s', k').result == Err(o.result.error)
    decreases k
  {
    if k > 0 {
      var st := read(s, k);
      if st.result.Ok? && |st.result.value| > 0 {
        ReadExactErrors(read, st.state, k - |st.result.value|);
      }
    }
  }

  /** One round of `read_exact`: what the first read's outcome leaves to do. */
  lemma ReadExactRound<S(!new), T>(read: (S, PosLen) -> ReadStep<S, T>, s: S, k: PosLen)
    requires ShortReads(read)
    ensures var st := read(s, k);
            var o := ReadExactSpec(read, s, k);
            match st.result
            case Err(e) => o == Exact(st.state, [], Err(e))
            case Ok(d) =>
              if |d| == 0 then o == Exact(st.state, [], Err(PrematureEndOfInput))
              else
                var rest := ReadExactSpec(read, st.state, k - |d|);
                o == Exact(rest.state, d + rest.data, rest.result)
  {
  }

  /**
   * Midway through `read_exact` of a buffer, from state `s` with `left`
   * elements still to fill: the whole call's outcome `whole` is what has been
   * filled so far followed by what `read_exact` of the rest does.
   */
  ghost predicate Midway<S(!new), T>(read: (S, PosLen) -> ReadStep<S, T>, whole: Exact<S, T>, s: S, left: nat, filled: seq<T>)
    requires ShortReads(read)
  {
    var o := ReadExactSpec(read, s, left);
    whole.state == o.state && whole.result == o.result && whole.data == filled + o.data
  }

  /** A read of `d`, not empty, moves on: `d` is filled and `|d|` fewer are left. */
  lemma MidwayAdvance<S(!new), T>(read: (S, PosLen) -> ReadStep<S, T>, whole: Exact<S, T>, s: S, left: PosLen, filled: seq<T>, d: seq<T>)
    requires ShortReads(read) && Midway(read, whole, s, left, filled)
    requires read(s, left).result == Ok(d) && |d| > 0
    ensures |d| <= left && Midway(read, whole, read(s, left).state, left - |d|, filled + d)
  {
    ReadExactRound(read, s, left);
    var rest := ReadExactSpec(read, read(s, left).state, left - |d|);
    assert filled + (d + rest.data) == (filled + d) + rest.data;
  }

  /** A failing read, or a read of nothing, ends the call with what has been filled. */
  lemma MidwayStop<S(!new), T>(read: (S, PosLen) -> ReadStep<S, T>, whole: Exact<S, T>, s: S, left: PosLen, filled: seq<T>)
    requires ShortReads(read) && Midway(read, whole, s, left, filled)
    requires read(s, left).result.Err? || |read(s, left).result.value| == 0
    ensures whole.state == read(s, left).state && whole.data == filled
    ensures whole.result == if read(s, left).result.Err? then Err(read(s, left).result.error) else Err(PrematureEndOfInput)
  {
    ReadExactRound(read, s, left);
    assert filled + [] == filled;
  }

  /** Nothing left: the call succeeds with what has been filled. */
  lemma MidwayDone<S(!new), T>(read: (S, PosLen) -> ReadStep<S, T>, whole: Exact<S, T>, s: S, filled: seq<T>)
    requires ShortReads(read) && Midway(read, whole, s, 0, filled)
    ensures whole == Exact(s, filled, Ok(()))
  {
    assert filled + [] == filled;
  }

  /** `now` holds `data` at its start and otherwise what `before` held. */
  ghost predicate FilledWith<T>(now: seq<T>, before: seq<T>, data: seq<T>)
  {
    |data| <= |now| == |before| && now[..|data|] == data && now[|data|..] == before[|data|..]
  }

  /** Writing `d` right after the filled start extends it. */
  lemma FilledMore<T>(now: seq<T>, next: seq<T>, before: seq<T>, filled: seq<T>, d: seq<T>)
    requires FilledWith(now, before, filled) && |filled| + |d| <= |now|
    requires next == now[..|filled|] + d + now[|filled| + |d|..]
    ensures FilledWith(next, before, filled + d)
  {
    var k := |filled| + |d|;
    assert next[..k] == filled + d;
    assert next[k..] == now[|filled|..][|d|..];
  }

  /** A read into the unfilled rest `buf[off..]`: `src` lands at `off`, everything else stays. */
  method FillAt<T>(buf: array<T>, off: nat, src: seq<T>)
    requires off + |src| <= buf.Length
    modifies buf
    ensures buf[..] == old(buf[..])[..off] + src + old(buf[..])[off + |src|..]
  {
    forall j | 0 <= j < |src| {
      buf[off + j] := src[j];
    }
    assert buf[..] == old(buf[..])[..off] + src + old(buf[..])[off + |src|..];
  }

  /**
   * `Read::read_exact`: fills `buf` by repeated reads into its unfilled
   * rest. The filled start and the result are `ReadExactSpec`'s; the rest of
   * the buffer keeps its contents.
   */
  method ReadExact<S(!new), T>(read: (S, PosLen) -> ReadStep<S, T>, s0: S, buf: array<T>) returns (s: S, r: Result<()>)
    requires ShortReads(read)
    modifies buf
    ensures var o := ReadExactSpec(read, s0, buf.Length);
            s == o.state && r == o.result && FilledWith(buf[..], old(buf[..]), o.data)
  {
    s := s0;
    var off := 0;
    ghost var left := buf.Length;
    ghost var filled: seq<T> := [];
    ghost var whole := ReadExactSpec(read, s0, buf.Length);
    ghost var orig := buf[..];
    assert filled + whole.data == whole.data;
    while off < buf.Length
      invariant 0 <= off <= buf.Length && left == buf.Length - off && |filled| == off
      invariant FilledWith(buf[..], orig, filled)
      invariant Midway(read, whole, s, left, filled)
      decreases left
    {
      var step := read(s, buf.Length - off);
      match step.result {
        case Err(e) =>
          MidwayStop(read, whole, s, left, filled);
          return step.state, Err(e);
        case Ok(d) =>
          if |d| == 0 {
            MidwayStop(read, whole, s, left, filled);
            s := step.state;
            break;
          }
          MidwayAdvance(read, whole, s, left, filled, d);
          ghost var now := buf[..];
          FillAt(buf, off, d);
          FilledMore(now, buf[..], orig, filled, d);
          filled := filled + d;
          off := off + |d|;
          left := left - |d|;
          s := step.state;
      }
    }
    if off == buf.Length {
      MidwayDone(read, whole, s, filled);
      r := Ok(());
    } else {
      r := Err(PrematureEndOfInput);
    }
  }

  /** One `write` call: the state afterwards and how many elements it consumed. */
  datatype WriteStep<+S> = WriteStep(state: S, result: Result<nat>)

  /** What `Write::write` promises its callers: never more consumed than offered. */
  ghost predicate ShortWrites<S(!new), T(!new)>(write: (S, seq<T>) -> WriteStep<S>)
  {
    forall s, d: seq<T> :: write(s, d).result.Ok? ==> write(s, d).result.value <= |d|
  }

  /** The outcome of `write_all`: the state, how many elements were consumed, and the result. */
  datatype Written<+S> = Written(state: S, count: nat, result: Result<()>)

  /**
   * `write_all` of `data`: write the rest until nothing is left; a write of
   * nothing stops with `WriteError`, a failing write stops with its error.
   * The result is `Ok` exactly when every element was consumed.
   */
  function WriteAllSpec<S(!new), T(!new)>(write: (S, seq<T>) -> WriteStep<S>, s: S, data: seq<T>): (o: Written<S>)
    requires ShortWrites(write)
    ensures o.count <= |data|
    ensures o.result.Ok? <==> o.count == |data|
    ensures data == [] ==> o.state == s
    decreases |data|
  {
    if data == [] then Written(s, 0, Ok(()))
    else
      var st := write(s, data);
      match st.result
      case Err(e) => Written(st.state, 0, Err(e))
      case Ok(n) =>
        if n == 0 then Written(st.state, 0, Err(WriteError))
        else
          var rest := WriteAllSpec(write, st.state, data[n..]);
          Written(rest.state, n + rest.count, rest.result)
  }

  /**
   * `Write::write_all`: offers the not yet consumed rest of `data` to
   * `write` until nothing is left; its outcome is `WriteAllSpec`'s.
   */
  method WriteAll<S(!new), T(!new)>(write: (S, seq<T>) -> WriteStep<S>, s0: S, data: seq<T>) returns (s: S, r: Result<()>)
    requires ShortWrites(write)
    ensures var o := WriteAllSpec(write, s0, data);
            s == o.state && r == o.result
  {
    s := s0;
    var buffer := data;
    while buffer != []
      invariant |buffer| <= |data|
      invariant var o0 := WriteAllSpec(write, s0, data);
                var o := WriteAllSpec(write, s, buffer);
                o0.state == o.state && o0.result == o.result && o0.count == |data| - |buffer| + o.count
      decreases |buffer|
    {
      var step := write(s, buffer);
      match step.result {
        case Err(e) =>
          return step.state, Err(e);
        case Ok(n) =>
          if n == 0 {
            s := step.state;
            break;
          }
          buffer := buffer[n..];
          s := step.state;
      }
    }
    if buffer == [] {
      r := Ok(());
    } else {
      r := Err(WriteError);
    }
  }
}

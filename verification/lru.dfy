/**
 * The bounded recency cache of src/collections/lru.rs.
 *
 * The deque is a sequence whose index 0 is the front: `insert` and `find`
 * push to the front and eviction pops from the back, so the back holds the
 * least recently used item (the type's doc comment says "first"; the code
 * evicts the last). The injected eviction handler is modelled by handing the
 * evicted item back to the owner, which runs its own handler on it, and by a
 * ghost log of everything evicted so far.
 */
module Lru {
  import opened Io

  /** The most items the deque can hold: `max_size`, except that a cache of size 0 still keeps the newest item. */
  function Bound(maxSize: nat): nat { if maxSize == 0 then 1 else maxSize }

  function AsSeq<V>(o: Option<V>): seq<V> { if o.Some? then [o.value] else [] }

  /** `s` back to front. */
  function Reverse<V>(s: seq<V>): (r: seq<V>)
    ensures |r| == |s|
  {
    if s == [] then [] else Reverse(s[1..]) + [s[0]]
  }

  /** Reversing keeps every item, as often as it occurs. */
  lemma {:induction false} ReverseKeepsItems<V>(s: seq<V>)
    ensures multiset(Reverse(s)) == multiset(s)
  {
    if s != [] {
      ReverseKeepsItems(s[1..]);
      assert s == [s[0]] + s[1..];
    }
  }

  lemma {:induction false} ReverseAt<V>(s: seq<V>, i: nat)
    requires i < |s|
    ensures Reverse(s)[i] == s[|s| - 1 - i]
  {
    if i < |s| - 1 {
      ReverseAt(s[1..], i);
    }
  }

  /** The deque after the item at `k` is moved to the front. */
  function Promoted<V>(s: seq<V>, k: nat): (r: seq<V>)
    requires k < |s|
    ensures |r| == |s| && r[0] == s[k]
    ensures multiset(r) == multiset(s)
  {
    assert s == s[..k] + [s[k]] + s[k + 1..];
    [s[k]] + s[..k] + s[k + 1..]
  }

  /** Promotion keeps every other item in its relative order. */
  lemma {:induction false} PromotedKeepsOrder<V>(s: seq<V>, k: nat, j: nat)
    requires k < |s| && j < |s| && j != k
    ensures Promoted(s, k)[if j < k then j + 1 else j] == s[j]
  {
  }

  /** The item an insert into `s` evicts, if any: the back item, once `s` holds `maxSize` items. */
  function Victim<V>(s: seq<V>, maxSize: nat): (r: Option<V>)
    ensures r.Some? <==> |s| >= maxSize && |s| > 0
    ensures r.Some? ==> r.value == s[|s| - 1]
  {
    if |s| >= maxSize && |s| > 0 then Some(s[|s| - 1]) else None
  }

  /** The deque after `insert(item)`: the victim, if any, is gone and `item` is at the front. */
  function Inserted<V>(s: seq<V>, maxSize: nat, item: V): (r: seq<V>)
    ensures |r| >= 1 && r[0] == item
    ensures |s| <= Bound(maxSize) ==> |r| <= Bound(maxSize)
  {
    if |s| >= maxSize && |s| > 0 then [item] + s[..|s| - 1] else [item] + s
  }

  /** An insert loses nothing: the deque afterwards and the victim hold the old deque and the new item. */
  lemma InsertedKeepsItems<V>(s: seq<V>, maxSize: nat, item: V)
    ensures multiset(Inserted(s, maxSize, item)) + multiset(AsSeq(Victim(s, maxSize))) == multiset(s) + multiset{item}
  {
    if |s| >= maxSize && |s| > 0 {
      assert s == s[..|s| - 1] + [s[|s| - 1]];
    }
  }

  /** Below capacity nothing is evicted and the rest of the deque is untouched. */
  lemma {:induction false} InsertBelowCapacity<V>(s: seq<V>, maxSize: nat, item: V)
    requires |s| < maxSize
    ensures Victim(s, maxSize) == None && Inserted(s, maxSize, item) == [item] + s
  {
  }

  /** Insert does not deduplicate: an item already present gets a second entry. */
  lemma {:induction false} InsertKeepsDuplicates<V>(s: seq<V>, maxSize: nat, item: V)
    requires |s| < maxSize && item in s
    ensures multiset(Inserted(s, maxSize, item))[item] == multiset(s)[item] + 1
  {
  }

  /** What a sequence of inserts leaves behind: the deque and the items evicted, in order. */
  datatype History<V> = History(data: seq<V>, evicted: seq<V>)

  function InsertAll<V>(s: seq<V>, maxSize: nat, xs: seq<V>): History<V>
    decreases |xs|
  {
    if xs == [] then History(s, [])
    else
      var h := InsertAll(s, maxSize, xs[..|xs| - 1]);
      History(Inserted(h.data, maxSize, xs[|xs| - 1]), h.evicted + AsSeq(Victim(h.data, maxSize)))
  }

  /** Reversing puts the last item first. */
  lemma {:induction false} ReverseLast<V>(s: seq<V>)
    requires s != []
    ensures Reverse(s) == [s[|s| - 1]] + Reverse(s[..|s| - 1])
  {
    var n := |s| - 1;
    var a, b := Reverse(s), [s[n]] + Reverse(s[..n]);
    assert |a| == |b|;
    forall i | 0 <= i < |a| ensures a[i] == b[i] {
      ReverseAt(s, i);
      if i > 0 {
        ReverseAt(s[..n], i - 1);
      }
    }
  }

  /** One insert into a full deque of the last `m` items drops the oldest and adds the newest. */
  lemma {:induction false} SlideWindow<V>(xs: seq<V>, m: nat)
    requires 1 <= m < |xs|
    ensures var n := |xs| - 1;
            [xs[n]] + Reverse(xs[n - m..n])[..m - 1] == Reverse(xs[n + 1 - m..])
  {
    var n := |xs| - 1;
    var a, b := [xs[n]] + Reverse(xs[n - m..n])[..m - 1], Reverse(xs[n + 1 - m..]);
    assert |a| == m == |b|;
    forall i | 0 <= i < m ensures a[i] == b[i] {
      ReverseAt(xs[n + 1 - m..], i);
      if i > 0 {
        ReverseAt(xs[n - m..n], i - 1);
        assert a[i] == Reverse(xs[n - m..n])[i - 1] == xs[n - i];
      }
    }
  }

  /**
   * Inserting `xs` into an empty cache of size `maxSize >= 1` keeps the last
   * `min(|xs|, maxSize)` items, newest first, and evicts the others oldest
   * first (100 inserts at size 10: 90 evictions, and 99 down to 90 kept).
   */
  lemma {:induction false} InsertAllFromEmpty<V>(maxSize: nat, xs: seq<V>)
    requires maxSize >= 1
    ensures |xs| <= maxSize ==> InsertAll([], maxSize, xs) == History(Reverse(xs), [])
    ensures |xs| > maxSize ==>
              InsertAll([], maxSize, xs) == History(Reverse(xs[|xs| - maxSize..]), xs[..|xs| - maxSize])
  {
    if xs != [] {
      var n := |xs| - 1;
      InsertAllFromEmpty(maxSize, xs[..n]);
      if n < maxSize {
        InsertAllShort(maxSize, xs);
      } else {
        var m := maxSize;
        if n == m {
          assert xs[n - m..n] == xs[..n];
          assert xs[..n - m] == [];
        } else {
          assert xs[..n][n - m..] == xs[n - m..n];
          assert xs[..n][..n - m] == xs[..n - m];
        }
        InsertAllFull(maxSize, xs);
      }
    }
  }

  /** Below capacity the newest item goes in front and nothing is evicted. */
  lemma {:induction false} InsertAllShort<V>(maxSize: nat, xs: seq<V>)
    requires 1 <= |xs| <= maxSize
    requires InsertAll([], maxSize, xs[..|xs| - 1]) == History(Reverse(xs[..|xs| - 1]), [])
    ensures InsertAll([], maxSize, xs) == History(Reverse(xs), [])
  {
    var n := |xs| - 1;
    var h := InsertAll([], maxSize, xs[..n]);
    assert |h.data| == n < maxSize;
    assert Inserted(h.data, maxSize, xs[n]) == [xs[n]] + h.data;
    ReverseLast(xs);
  }

  /** At capacity the window of kept items slides by one and its oldest item is evicted. */
  lemma {:induction false} InsertAllFull<V>(maxSize: nat, xs: seq<V>)
    requires 1 <= maxSize < |xs|
    requires InsertAll([], maxSize, xs[..|xs| - 1]) == History(Reverse(xs[|xs| - 1 - maxSize..|xs| - 1]), xs[..|xs| - 1 - maxSize])
    ensures InsertAll([], maxSize, xs) == History(Reverse(xs[|xs| - maxSize..]), xs[..|xs| - maxSize])
  {
    SlideStep(xs, maxSize);
    HistoryAfter(maxSize, xs, Reverse(xs[|xs| - 1 - maxSize..|xs| - 1]), xs[..|xs| - 1 - maxSize],
                 Reverse(xs[|xs| - maxSize..]), xs[..|xs| - maxSize]);
  }

  /** The insert of the newest item into the full window of the `m` items before it. */
  lemma SlideStep<V>(xs: seq<V>, m: nat)
    requires 1 <= m < |xs|
    ensures Inserted(Reverse(xs[|xs| - 1 - m..|xs| - 1]), m, xs[|xs| - 1]) == Reverse(xs[|xs| - m..])
    ensures xs[..|xs| - 1 - m] + AsSeq(Victim(Reverse(xs[|xs| - 1 - m..|xs| - 1]), m)) == xs[..|xs| - m]
  {
    var n := |xs| - 1;
    var w := xs[n - m..n];
    InsertIntoFull(Reverse(w), m, xs[n]);
    ReverseAt(w, m - 1);
    SlideWindow(xs, m);
    TakeOneMore(xs, n - m, |xs| - m);
  }

  lemma TakeOneMore<V>(xs: seq<V>, k: nat, next: nat)
    requires k < |xs| && next == k + 1
    ensures xs[..k] + [xs[k]] == xs[..next]
  {
  }

  /** The last of a run of inserts, given what the ones before it left behind. */
  lemma HistoryAfter<V>(maxSize: nat, xs: seq<V>, d: seq<V>, e: seq<V>, d': seq<V>, e': seq<V>)
    requires xs != [] && InsertAll([], maxSize, xs[..|xs| - 1]) == History(d, e)
    requires Inserted(d, maxSize, xs[|xs| - 1]) == d' && e + AsSeq(Victim(d, maxSize)) == e'
    ensures InsertAll([], maxSize, xs) == History(d', e')
  {
  }

  /** An insert into a full deque evicts its back item and shifts the rest back by one. */
  lemma InsertIntoFull<V>(d: seq<V>, maxSize: nat, item: V)
    requires |d| == maxSize >= 1
    ensures Inserted(d, maxSize, item) == [item] + d[..maxSize - 1]
    ensures AsSeq(Victim(d, maxSize)) == [d[maxSize - 1]]
  {
  }

  /** Taking the back item off the first `k` items of `s`. */
  lemma PopBack<V>(s: seq<V>, k: nat)
    requires 0 < k <= |s|
    ensures s[..k] == s[..k - 1] + [s[k - 1]]
    ensures multiset(s[..k]) == multiset(s[..k - 1]) + multiset{s[k - 1]}
    ensures Reverse(s[k - 1..]) == Reverse(s[k..]) + [s[k - 1]]
  {
    assert s[k - 1..][1..] == s[k..];
  }

  /**
   * `LruCache<V>`: the deque `data`, its size, and ghost logs of every item
   * inserted and evicted over the cache's lifetime.
   */
  class LruCache<V> {
    const maxSize: nat
    var data: seq<V>
    ghost var inserted: seq<V>
    ghost var evicted: seq<V>

    /** The deque stays within its bound and every item inserted is either still held or was evicted. */
    ghost predicate Valid()
      reads this
    {
      && |data| <= Bound(maxSize)
      && multiset(inserted) == multiset(evicted) + multiset(data)
    }

    /**
     * `new(size)` and `with_evict(size, on_evict)`: an empty cache. The
     * handler is the owner's; `new`'s drop-only handler is an owner that
     * discards what `Insert` and `Teardown` hand back.
     */
    constructor (size: nat)
      ensures Valid()
      ensures maxSize == size && data == [] && inserted == [] && evicted == []
    {
      maxSize := size;
      data := [];
      inserted := [];
      evicted := [];
    }

    function Len(): (n: nat)
      reads this
      ensures n == |data|
    {
      |data|
    }

    function IsEmpty(): (b: bool)
      reads this
      ensures b <==> Len() == 0
    {
      |data| == 0
    }

    /**
     * `find(predicate)`: moves the front-most item satisfying `p` to the front
     * and returns it; with no match, returns `None` and leaves the order alone.
     */
    method Find(p: V -> bool) returns (r: Option<V>)
      requires Valid()
      modifies this`data
      ensures Valid()
      ensures FirstMatch(old(data), p).None? ==> r == None && data == old(data)
      ensures FirstMatch(old(data), p).Some? ==>
                var k := FirstMatch(old(data), p).value;
                r == Some(old(data)[k]) && data == Promoted(old(data), k)
    {
      var i := 0;
      while i < |data| && !p(data[i])
        invariant 0 <= i <= |data|
        invariant forall j :: 0 <= j < i ==> !p(data[j])
      {
        i := i + 1;
      }
      if i < |data| {
        var item := data[i];
        data := [item] + data[..i] + data[i + 1..];
        assert data == Promoted(old(data), i);
        return Some(item);
      }
      return None;
    }

    /**
     * `insert(item)`: when the deque already holds `maxSize` items the back
     * item is evicted (handed back as `gone` and logged) before `item` is
     * pushed to the front.
     */
    method Insert(item: V) returns (gone: Option<V>)
      requires Valid()
      modifies this
      ensures Valid()
      ensures data == Inserted(old(data), maxSize, item)
      ensures gone == Victim(old(data), maxSize)
      ensures evicted == old(evicted) + AsSeq(gone)
      ensures inserted == old(inserted) + [item]
    {
      gone := None;
      if |data| >= maxSize {
        if |data| > 0 {
          var e := data[|data| - 1];
          assert data == data[..|data| - 1] + [e];
          data := data[..|data| - 1];
          evicted := evicted + [e];
          gone := Some(e);
        }
      }
      data := [item] + data;
      inserted := inserted + [item];
    }

    /**
     * `Drop`: evicts every remaining item, back to front, each exactly once.
     * Afterwards every item ever inserted has been evicted.
     */
    method Teardown() returns (gone: seq<V>)
      requires Valid()
      modifies this`data, this`evicted
      ensures Valid()
      ensures gone == Reverse(old(data))
      ensures data == [] && evicted == old(evicted) + gone && inserted == old(inserted)
      ensures multiset(inserted) == multiset(evicted)
    {
      gone := [];
      while data != []
        invariant |data| <= |old(data)|
        invariant data == old(data)[..|data|]
        invariant gone == Reverse(old(data)[|data|..])
        invariant evicted == old(evicted) + gone && inserted == old(inserted)
        invariant Valid()
        decreases |data|
      {
        PopBack(old(data), |data|);
        var e := EvictBack();
        gone := gone + [e];
      }
      assert old(data)[0..] == old(data);
    }

    /** One round of `Drop`: the back item leaves the deque and is evicted. */
    method EvictBack() returns (e: V)
      requires Valid() && data != []
      modifies this`data, this`evicted
      ensures Valid()
      ensures data == old(data)[..|old(data)| - 1] && e == old(data)[|old(data)| - 1]
      ensures evicted == old(evicted) + [e] && inserted == old(inserted)
    {
      var n := |data| - 1;
      e := data[n];
      assert data == data[..n] + [e];
      data := data[..n];
      evicted := evicted + [e];
    }
  }
}

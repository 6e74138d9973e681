/**
 * `DeltaQueue<T>` of src/collections/deltaq.rs: a timer-style queue that
 * stores each element with the difference between its key and the key of
 * the element before it. The running sums of the deltas are the absolute
 * keys; they never decrease along the queue.
 */
module DeltaQ {
  import opened Io

  /** `Node<T>`: a delta and an element. */
  datatype Node<T> = Node(value: nat, elem: T)

  /** The absolute keys of `d` when the deltas start counting from `base`: running sums. */
  function AbsFrom<T>(d: seq<Node<T>>, base: nat): (r: seq<nat>)
    ensures |r| == |d|
    ensures d != [] ==> r[0] == base + d[0].value
  {
    if d == [] then [] else [base + d[0].value] + AbsFrom(d[1..], base + d[0].value)
  }

  /** No key is below where the count starts. */
  lemma {:induction false} AbsFromAbove<T>(d: seq<Node<T>>, base: nat, i: nat)
    requires i < |d|
    ensures base <= AbsFrom(d, base)[i]
    decreases i
  {
    if i > 0 {
      AbsFromAbove(d[1..], base + d[0].value, i - 1);
    }
  }

  /** The absolute keys of a queue. */
  function Keys<T>(d: seq<Node<T>>): (r: seq<nat>)
    ensures |r| == |d|
  {
    AbsFrom(d, 0)
  }

  /** The elements of a queue, front first. */
  function Elems<T>(d: seq<Node<T>>): (r: seq<T>)
    ensures |r| == |d| && forall i :: 0 <= i < |d| ==> r[i] == d[i].elem
  {
    seq(|d|, i requires 0 <= i < |d| => d[i].elem)
  }

  /** Absolute keys never decrease along the queue. */
  lemma {:induction false} KeysSorted<T>(d: seq<Node<T>>, base: nat, i: nat, j: nat)
    requires i <= j < |d|
    ensures AbsFrom(d, base)[i] <= AbsFrom(d, base)[j]
    decreases i
  {
    if i > 0 {
      KeysSorted(d[1..], base + d[0].value, i - 1, j - 1);
    } else if j > 0 {
      AbsFromAbove(d[1..], base + d[0].value, j - 1);
    }
  }

  /**
   * Where `insert(v, _)` puts the new node: before the first element whose
   * absolute key (counted from the start of `d`) is at least `v`, else at
   * the back.
   */
  function InsertPos<T>(d: seq<Node<T>>, v: nat): (p: nat)
    ensures p <= |d|
  {
    if d == [] then 0
    else if d[0].value >= v then 0
    else 1 + InsertPos(d[1..], v - d[0].value)
  }

  /**
   * The queue after `insert(v, e)`: the new node takes the delta that
   * brings the running sum to `v`, and the node after it gives up that much
   * of its own delta.
   */
  function Inserted<T>(d: seq<Node<T>>, v: nat, e: T): (r: seq<Node<T>>)
    ensures |r| == |d| + 1
  {
    if d == [] then [Node(v, e)]
    else if d[0].value >= v then [Node(v, e), Node(d[0].value - v, d[0].elem)] + d[1..]
    else [d[0]] + Inserted(d[1..], v - d[0].value, e)
  }

  /** The insertion point splits the queue into keys below `v` and keys at least `v`. */
  lemma {:induction false} InsertPosSplits<T>(d: seq<Node<T>>, v: nat, base: nat)
    ensures var p := InsertPos(d, v);
            && (forall i :: 0 <= i < p ==> AbsFrom(d, base)[i] < base + v)
            && (forall i :: p <= i < |d| ==> base + v <= AbsFrom(d, base)[i])
    decreases |d|
  {
    if d != [] {
      if d[0].value >= v {
        forall i | 0 <= i < |d|
          ensures base + v <= AbsFrom(d, base)[i]
        {
          KeysSorted(d, base, 0, i);
        }
      } else {
        InsertPosSplits(d[1..], v - d[0].value, base + d[0].value);
      }
    }
  }

  /** The keys of a queue with a node in front: that node's key, then the rest counted from it. */
  lemma AbsFromCons<T>(n: Node<T>, rest: seq<Node<T>>, base: nat)
    ensures AbsFrom([n] + rest, base) == [base + n.value] + AbsFrom(rest, base + n.value)
  {
    assert ([n] + rest)[1..] == rest;
  }

  /**
   * `insert(v, e)` keeps the absolute key of every element already queued
   * and gives the new one the key `v`, at the insertion point.
   */
  lemma {:induction false} InsertedKeys<T>(d: seq<Node<T>>, v: nat, e: T, base: nat)
    ensures var p := InsertPos(d, v);
            var k := AbsFrom(d, base);
            AbsFrom(Inserted(d, v, e), base) == k[..p] + [base + v] + k[p..]
    decreases |d|
  {
    if d == [] {
    } else if d[0].value >= v {
      InsertedKeysHere(d, v, e, base);
    } else {
      InsertedKeys(d[1..], v - d[0].value, e, base + d[0].value);
      InsertedKeysLater(d, v, e, base);
    }
  }

  /** The case where the new node goes in front of `d[0]`. */
  lemma InsertedKeysHere<T>(d: seq<Node<T>>, v: nat, e: T, base: nat)
    requires d != [] && d[0].value >= v
    ensures AbsFrom(Inserted(d, v, e), base) == [base + v] + AbsFrom(d, base)
  {
    var second := Node(d[0].value - v, d[0].elem);
    assert Inserted(d, v, e) == [Node(v, e)] + ([second] + d[1..]);
    AbsFromCons(Node(v, e), [second] + d[1..], base);
    AbsFromCons(second, d[1..], base + v);
    AbsFromCons(d[0], d[1..], base);
    assert [d[0]] + d[1..] == d;
  }

  /** The case where the new node goes after `d[0]`, given the keys of the insertion into the rest. */
  lemma InsertedKeysLater<T>(d: seq<Node<T>>, v: nat, e: T, base: nat)
    requires d != [] && d[0].value < v
    requires var p' := InsertPos(d[1..], v - d[0].value);
             var k' := AbsFrom(d[1..], base + d[0].value);
             AbsFrom(Inserted(d[1..], v - d[0].value, e), base + d[0].value) == k'[..p'] + [base + v] + k'[p'..]
    ensures var p := InsertPos(d, v);
            var k := AbsFrom(d, base);
            AbsFrom(Inserted(d, v, e), base) == k[..p] + [base + v] + k[p..]
  {
    assert Inserted(d, v, e) == [d[0]] + Inserted(d[1..], v - d[0].value, e);
    AbsFromCons(d[0], Inserted(d[1..], v - d[0].value, e), base);
    AbsFromCons(d[0], d[1..], base);
    assert [d[0]] + d[1..] == d;
    ConsSplice(base + d[0].value, AbsFrom(d[1..], base + d[0].value), AbsFrom(d, base),
               InsertPos(d[1..], v - d[0].value), InsertPos(d, v), base + v);
  }

  /** Putting `x` in front of a sequence with `y` spliced in at `p'` is splicing `y` in at `p' + 1`. */
  lemma ConsSplice<X>(x: X, k': seq<X>, k: seq<X>, p': nat, p: nat, y: X)
    requires p' <= |k'| && k == [x] + k' && p == p' + 1
    ensures [x] + (k'[..p'] + [y] + k'[p'..]) == k[..p] + [y] + k[p..]
  {
    assert k[..p] == [x] + k'[..p'];
    assert k[p..] == k'[p'..];
  }

  /** `insert(v, e)` puts `e` at the insertion point and keeps the others in their order. */
  lemma {:induction false} InsertedElems<T>(d: seq<Node<T>>, v: nat, e: T)
    ensures var p := InsertPos(d, v);
            Elems(Inserted(d, v, e)) == Elems(d)[..p] + [e] + Elems(d)[p..]
    decreases |d|
  {
    if d != [] && d[0].value < v {
      InsertedElems(d[1..], v - d[0].value, e);
      assert Inserted(d, v, e) == [d[0]] + Inserted(d[1..], v - d[0].value, e);
      ElemsCons(d[0], Inserted(d[1..], v - d[0].value, e));
      ElemsCons(d[0], d[1..]);
      assert [d[0]] + d[1..] == d;
      ConsSplice(d[0].elem, Elems(d[1..]), Elems(d), InsertPos(d[1..], v - d[0].value), InsertPos(d, v), e);
    }
  }

  lemma ElemsCons<T>(n: Node<T>, rest: seq<Node<T>>)
    ensures Elems([n] + rest) == [n.elem] + Elems(rest)
  {
    assert Elems([n] + rest)[1..] == Elems(rest);
  }

  /**
   * The prefix sum through the new node is `v`, an element queued with an
   * equal key stays behind it, and one with a smaller key stays before it.
   */
  lemma InsertKeyOrder<T>(d: seq<Node<T>>, v: nat, e: T)
    ensures var p := InsertPos(d, v);
            && Keys(Inserted(d, v, e))[p] == v
            && Elems(Inserted(d, v, e))[p] == e
            && (forall i :: 0 <= i < p ==> Keys(d)[i] < v)
            && (forall i :: p <= i < |d| ==> v <= Keys(d)[i])
  {
    InsertedKeys(d, v, e, 0);
    InsertedElems(d, v, e);
    InsertPosSplits(d, v, 0);
  }

  /** Counting the rest of a queue from the front's key gives the same keys as counting it within the queue. */
  lemma AbsFromTail<T>(d: seq<Node<T>>, base: nat)
    requires d != []
    ensures AbsFrom(d[1..], base + d[0].value) == AbsFrom(d, base)[1..]
  {
  }

  /** Shifting where the count starts shifts every key by the same amount. */
  lemma {:induction false} AbsFromShift<T>(d: seq<Node<T>>, base: nat, i: nat)
    requires i < |d|
    ensures AbsFrom(d, base)[i] == base + AbsFrom(d, 0)[i]
    decreases i
  {
    if i > 0 {
      AbsFromShift(d[1..], base + d[0].value, i - 1);
      AbsFromShift(d[1..], d[0].value, i - 1);
      AbsFromTail(d, base);
      AbsFromTail(d, 0);
    }
  }

  /**
   * `pop_front` leaves the remaining deltas as they are: every remaining
   * element's key drops by the popped element's delta, the time that has
   * passed.
   */
  lemma PopFrontKeys<T>(d: seq<Node<T>>)
    requires d != []
    ensures forall i :: 0 <= i < |d| - 1 ==> Keys(d[1..])[i] + d[0].value == Keys(d)[i + 1]
  {
    forall i | 0 <= i < |d| - 1
      ensures Keys(d[1..])[i] + d[0].value == Keys(d)[i + 1]
    {
      AbsFromShift(d[1..], d[0].value, i);
      AbsFromTail(d, 0);
    }
  }

  /** `test_insert_in_order`: 3, 5 and 9 give deltas 3, 2, 4. */
  lemma InsertInOrder()
    ensures Inserted(Inserted(Inserted([], 3, "three"), 5, "five"), 9, "nine")
            == [Node(3, "three"), Node(2, "five"), Node(4, "nine")]
  {
  }

  /** `test_insert_reverse_order`: 9, 5 and 3 give the same deltas 3, 2, 4. */
  lemma InsertReverseOrder()
    ensures Inserted(Inserted(Inserted([], 9, "nine"), 5, "five"), 3, "three")
            == [Node(3, "three"), Node(2, "five"), Node(4, "nine")]
  {
  }

  /** `test_insert_no_order`: keys inserted out of order land sorted by key. */
  lemma InsertNoOrder()
    ensures Inserted(Inserted(Inserted(Inserted(Inserted([], 3, "three"), 6, "six"), 5, "five"), 9, "nine"), 4, "four")
            == [Node(3, "three"), Node(1, "four"), Node(1, "five"), Node(1, "six"), Node(3, "nine")]
  {
  }

  /** `test_insert_duplicates`: equal keys sit side by side with delta 0. */
  lemma InsertDuplicates()
    ensures Inserted(Inserted(Inserted(Inserted(Inserted(Inserted([], 3, "three"), 5, "five"), 5, "five"), 5, "five"), 6, "six"), 9, "nine")
            == [Node(3, "three"), Node(2, "five"), Node(0, "five"), Node(0, "five"), Node(1, "six"), Node(3, "nine")]
  {
    var three, five, zero := Node(3, "three"), Node(2, "five"), Node(0, "five");
    assert Inserted([], 3, "three") == [three];
    assert Inserted([three], 5, "five") == [three, five];
    assert Inserted([three, five], 5, "five") == [three, five, zero];
    assert Inserted([five, zero], 2, "five") == [five, zero, zero];
    assert Inserted([three, five, zero], 5, "five") == [three, five, zero, zero];
    assert Inserted([zero], 1, "six") == [zero, Node(1, "six")];
    assert Inserted([zero, zero], 1, "six") == [zero, zero, Node(1, "six")];
    assert Inserted([five, zero, zero], 3, "six") == [five, zero, zero, Node(1, "six")];
    var q5 := [three, five, zero, zero, Node(1, "six")];
    assert Inserted([three, five, zero, zero], 6, "six") == q5;
    assert Inserted([Node(1, "six")], 4, "nine") == [Node(1, "six"), Node(3, "nine")];
    assert Inserted([zero, Node(1, "six")], 4, "nine") == [zero, Node(1, "six"), Node(3, "nine")];
    assert Inserted([zero, zero, Node(1, "six")], 4, "nine") == [zero, zero, Node(1, "six"), Node(3, "nine")];
    assert Inserted([five, zero, zero, Node(1, "six")], 6, "nine") == [five, zero, zero, Node(1, "six"), Node(3, "nine")];
  }

  /** `test_insert_duplicates_different_values`: among equal keys the newest comes first. */
  lemma InsertDuplicatesNewestFirst()
    ensures Inserted(Inserted(Inserted([], 5, "five1"), 5, "five2"), 5, "five3")
            == [Node(5, "five3"), Node(0, "five2"), Node(0, "five1")]
  {
  }

  /** The queue after `insert(i + 1, i)` for `i` from `n - 1` down to `k`. */
  function InsertedDown(n: nat, k: nat): seq<Node<nat>>
    requires k <= n
    decreases n - k
  {
    if k == n then [] else Inserted(InsertedDown(n, k + 1), k + 1, k)
  }

  /**
   * After those insertions element `k` is in front at its own key `k + 1`
   * and every later element `j` sits one step behind its predecessor.
   */
  lemma {:induction false} InsertedDownShape(n: nat, k: nat)
    requires k < n
    ensures var d := InsertedDown(n, k);
            |d| == n - k && d[0] == Node(k + 1, k)
            && forall j :: 0 < j < |d| ==> d[j] == Node(1, k + j)
    decreases n - k
  {
    if k + 1 < n {
      InsertedDownShape(n, k + 1);
      var d := InsertedDown(n, k + 1);
      InsertedAt(d, 0, k + 1, k);
      assert d[0..] == d;
    }
  }

  /**
   * Inserting `i + 1` with element `i` for `i` from `n - 1` down to 0 leaves
   * `n` nodes, node `i` holding element `i` one step after the previous one,
   * so popping the front hands out `0, 1, ..., n - 1` in order.
   */
  lemma InsertManyReversed(n: nat)
    requires n > 0
    ensures |InsertedDown(n, 0)| == n
    ensures forall i :: 0 <= i < n ==> InsertedDown(n, 0)[i] == Node(1, i)
  {
    InsertedDownShape(n, 0);
  }

  /** Inserting into `d[i..]` in front of `d[i]`. */
  lemma InsertedAt<T>(d: seq<Node<T>>, i: nat, v: nat, e: T)
    requires i < |d| && d[i].value >= v
    ensures Inserted(d[i..], v, e) == [Node(v, e), Node(d[i].value - v, d[i].elem)] + d[i + 1..]
  {
    assert d[i..][1..] == d[i + 1..];
  }

  /** Inserting into `d[i..]` behind `d[i]`, seen from the whole queue. */
  lemma InsertedPast<T>(d: seq<Node<T>>, i: nat, v: nat, e: T)
    requires i < |d| && d[i].value < v
    ensures d[..i] + Inserted(d[i..], v, e) == d[..i + 1] + Inserted(d[i + 1..], v - d[i].value, e)
  {
    assert d[i..][1..] == d[i + 1..];
    var tail := Inserted(d[i + 1..], v - d[i].value, e);
    assert Inserted(d[i..], v, e) == [d[i]] + tail;
    assert d[..i + 1] == d[..i] + [d[i]];
  }

  /** Inserting `n` before `d[i]` and then replacing that element by `m`. */
  lemma SpliceThenUpdate<T>(d: seq<T>, i: nat, n: T, m: T)
    requires i < |d|
    ensures (d[..i] + [n] + d[i..])[i + 1 := m] == d[..i] + ([n, m] + d[i + 1..])
  {
    var a := (d[..i] + [n] + d[i..])[i + 1 := m];
    var b := d[..i] + ([n, m] + d[i + 1..]);
    assert |a| == |b|;
    forall j | 0 <= j < |a|
      ensures a[j] == b[j]
    {
      if j > i + 1 {
        assert a[j] == d[j - 1];
      }
    }
  }

  /** `DeltaQueue<T>`: the nodes, front first. */
  class DeltaQueue<T> {
    var data: seq<Node<T>>

    /** `DeltaQueue::new()`: empty. */
    constructor ()
      ensures data == []
    {
      data := [];
    }

    /**
     * `insert(v, e)`: walks the queue summing deltas until the sum with the
     * current node reaches `v`, inserts there and takes the new delta off
     * the next node; otherwise appends at the back.
     */
    method Insert(v: nat, e: T)
      modifies this
      ensures data == Inserted(old(data), v, e)
    {
      ghost var d := data;
      var total := 0;
      for i := 0 to |data|
        invariant data == d
        invariant total <= v
        invariant Inserted(d, v, e) == d[..i] + Inserted(d[i..], v - total, e)
      {
        var found := data[i];
        if total + found.value >= v {
          var nodeValue := v - total;
          data := data[..i] + [Node(nodeValue, e)] + data[i..];
          if |data| > i + 1 {
            // cannot go below zero: the guard gives nodeValue <= found.value
            data := data[i + 1 := Node(data[i + 1].value - nodeValue, data[i + 1].elem)];
          }
          InsertedAt(d, i, v - total, e);
          SpliceThenUpdate(d, i, Node(nodeValue, e), Node(d[i].value - nodeValue, d[i].elem));
          return;
        }
        InsertedPast(d, i, v - total, e);
        total := total + found.value;
      }
      data := data + [Node(v - total, e)];
      assert d[..|d|] == d && d[|d|..] == [];
    }

    /** `front()`: the front node, if any. */
    function Front(): (r: Option<Node<T>>)
      reads this
      ensures r.Some? <==> data != []
      ensures r.Some? ==> r.value == data[0] && Keys(data)[0] == r.value.value
    {
      if data == [] then None else Some(data[0])
    }

    /** `pop_front()`: removes the front node and returns its element. */
    method PopFront() returns (r: Option<T>)
      modifies this
      ensures old(data) == [] ==> r == None && data == []
      ensures old(data) != [] ==> r == Some(old(data)[0].elem) && data == old(data)[1..]
    {
      if data == [] {
        return None;
      }
      r := Some(data[0].elem);
      data := data[1..];
    }

    /** `len()`. */
    function Len(): (n: nat)
      reads this
      ensures n == |Elems(data)|
    {
      |data|
    }

    /** `is_empty()`. */
    predicate IsEmpty()
      reads this
      ensures IsEmpty() <==> Len() == 0
    {
      data == []
    }
  }
}

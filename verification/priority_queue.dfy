/**
 The part of BlueRaja's `SimplePriorityQueue<TItem, float>` the pathfinder
 uses. The queue is a sequence of entries in insertion order; the same item
 may be enqueued more than once. `Dequeue` removes an entry of least
 priority; which one among equal priorities is left open. `TryGetPriority`
 and `UpdatePriority` address the earliest entry still holding the item.
 */
module PriorityQueue {
  import opened Wrappers

  datatype Entry<T> = Entry(item: T, priority: real)

  predicate Contains<T(==,!new)>(q: seq<Entry<T>>, item: T) {
    exists i | 0 <= i < |q| :: q[i].item == item
  }

  /** The earliest entry holding `item`. */
  function FirstIndex<T(==,!new)>(q: seq<Entry<T>>, item: T): (i: nat)
    requires Contains(q, item)
    ensures i < |q| && q[i].item == item
    ensures forall j | 0 <= j < i :: q[j].item != item
  {
    if q[0].item == item then 0 else 1 + FirstIndex(q[1..], item)
  }

  /** `Enqueue(item, priority)`: a new entry at the back. */
  function Enqueue<T(==,!new)>(q: seq<Entry<T>>, item: T, priority: real): (r: seq<Entry<T>>)
    ensures |r| == |q| + 1 && Contains(r, item)
    ensures r[..|q|] == q && r[|q|] == Entry(item, priority)
    ensures forall x | Contains(q, x) :: Contains(r, x)
    ensures forall x | Contains(r, x) :: x == item || Contains(q, x)
  {
    var r := q + [Entry(item, priority)];
    assert r[|q|].item == item;
    forall x | Contains(q, x) ensures Contains(r, x) {
      var i :| 0 <= i < |q| && q[i].item == x;
      assert r[i].item == x;
    }
    forall x | Contains(r, x) ensures x == item || Contains(q, x) {
      var i :| 0 <= i < |r| && r[i].item == x;
      if i < |q| {
        assert q[i].item == x;
      }
    }
    r
  }

  /** Enqueueing adds exactly one entry, the new one, to the multiset of entries. */
  lemma EnqueueMultiset<T(!new)>(q: seq<Entry<T>>, item: T, priority: real)
    ensures multiset(Enqueue(q, item, priority)) == multiset(q) + multiset{Entry(item, priority)}
  {
    assert Enqueue(q, item, priority) == q + [Entry(item, priority)];
  }

  /** Entry `i` is the earliest entry holding `item`. */
  predicate EarliestAt<T(==)>(q: seq<Entry<T>>, item: T, i: int) {
    0 <= i < |q| && q[i].item == item && forall j | 0 <= j < i :: q[j].item != item
  }

  /** `TryGetPriority(item, out priority)`: the priority of the earliest entry holding `item`, if any. */
  function TryGetPriority<T(==,!new)>(q: seq<Entry<T>>, item: T): (r: Option<real>)
    ensures r.Some? <==> Contains(q, item)
    ensures r.Some? ==> exists i | 0 <= i < |q| :: q[i] == Entry(item, r.value)
  {
    if Contains(q, item) then Some(q[FirstIndex(q, item)].priority) else None
  }

  /** `UpdatePriority(item, priority)`: re-prioritise the earliest entry holding `item`; the items stay put. */
  function UpdatePriority<T(==,!new)>(q: seq<Entry<T>>, item: T, priority: real): (r: seq<Entry<T>>)
    requires Contains(q, item)
    ensures |r| == |q|
    ensures exists i | 0 <= i < |q| && q[i].item == item :: r == q[i := Entry(item, priority)]
    ensures forall i | 0 <= i < |q| :: r[i].item == q[i].item
    ensures forall x :: Contains(r, x) <==> Contains(q, x)
  {
    var i := FirstIndex(q, item);
    var r := q[i := Entry(item, priority)];
    forall x ensures Contains(r, x) <==> Contains(q, x) {
      if Contains(q, x) {
        var j :| 0 <= j < |q| && q[j].item == x;
        assert r[j].item == x;
      }
      if Contains(r, x) {
        var j :| 0 <= j < |r| && r[j].item == x;
        assert q[j].item == x;
      }
    }
    r
  }

  /** `TryGetPriority` reads the earliest entry holding the item. */
  lemma TryGetPriorityEarliest<T(!new)>(q: seq<Entry<T>>, item: T)
    requires Contains(q, item)
    ensures exists i | EarliestAt(q, item, i) :: TryGetPriority(q, item) == Some(q[i].priority)
  {
    assert EarliestAt(q, item, FirstIndex(q, item));
  }

  /** `UpdatePriority` re-prioritises the earliest entry holding the item, and no other entry. */
  lemma UpdatePriorityEarliest<T(!new)>(q: seq<Entry<T>>, item: T, priority: real)
    requires Contains(q, item)
    ensures exists i | EarliestAt(q, item, i) :: UpdatePriority(q, item, priority) == q[i := Entry(item, priority)]
  {
    assert EarliestAt(q, item, FirstIndex(q, item));
  }

  /** Entry `i` has the least priority in the queue. */
  predicate IsMin<T>(q: seq<Entry<T>>, i: int) {
    0 <= i < |q| && forall j | 0 <= j < |q| :: q[i].priority <= q[j].priority
  }

  /** A non-empty queue has an entry of least priority. */
  lemma {:induction false} MinExists<T>(q: seq<Entry<T>>) returns (i: nat)
    requires |q| > 0
    ensures IsMin(q, i)
  {
    if |q| == 1 {
      i := 0;
    } else {
      var k := MinExists(q[..|q| - 1]);
      assert forall j | 0 <= j < |q| - 1 :: q[..|q| - 1][j] == q[j];
      i := if q[|q| - 1].priority < q[k].priority then |q| - 1 else k;
    }
  }

  /** `Dequeue` removes entry `i`; every other entry keeps its item and its order. */
  function RemoveAt<T(==,!new)>(q: seq<Entry<T>>, i: nat): (r: seq<Entry<T>>)
    requires i < |q|
    ensures |r| == |q| - 1
    ensures r[..i] == q[..i] && r[i..] == q[i + 1..]
    ensures forall x | x != q[i].item :: Contains(r, x) <==> Contains(q, x)
    ensures forall x | Contains(r, x) :: Contains(q, x)
  {
    var r := q[..i] + q[i + 1..];
    forall x | Contains(r, x) ensures Contains(q, x) {
      var j :| 0 <= j < |r| && r[j].item == x;
      if j < i {
        assert q[j].item == x;
      } else {
        assert q[j + 1].item == x;
      }
    }
    forall x | x != q[i].item && Contains(q, x) ensures Contains(r, x) {
      var j :| 0 <= j < |q| && q[j].item == x;
      if j < i {
        assert r[j].item == x;
      } else {
        assert r[j - 1].item == x;
      }
    }
    r
  }

  /** Removing entry `i` takes exactly that entry out of the multiset of entries. */
  lemma RemoveAtMultiset<T(!new)>(q: seq<Entry<T>>, i: nat)
    requires i < |q|
    ensures multiset(RemoveAt(q, i)) == multiset(q) - multiset{q[i]}
  {
    assert q == q[..i] + [q[i]] + q[i + 1..];
    assert RemoveAt(q, i) == q[..i] + q[i + 1..];
  }
}

/** The work queue of thread_pool.c: a ring buffer, and the FIFO queue it stands for. */
module WorkQueue {

  /** An index below twice the size of an array, brought back into it. */
  function Around(i: nat, n: nat): nat {
    if i < n then i else i - n
  }

  lemma AroundIsModulo(i: nat, n: nat)
    requires i < 2 * n
    ensures Around(i, n) == i % n
  {
  }

  /** The fields of the WorkQueue struct. */
  datatype Ring<T> = Ring(items: seq<T>, head: nat, tail: nat, count: nat) {

    predicate Valid() {
      head < |items| && count <= |items| && tail == Around(head + count, |items|)
    }

    predicate Empty() {
      count == 0
    }

    predicate Full() {
      count == |items|
    }

    /** The item `k` places behind the head, around the end of the array. */
    function Item(k: nat): T
      requires head < |items| && k < |items|
    {
      items[Around(head + k, |items|)]
    }

    /** The queue: the occupied slots from the head on. */
    function Contents(): (r: seq<T>)
      requires Valid()
      ensures |r| == count
    {
      seq(count, k requires 0 <= k < count => Item(k))
    }

    function Push(x: T): Ring<T>
      requires Valid() && !Full()
    {
      Ring(items[tail := x], head, Around(tail + 1, |items|), count + 1)
    }

    function Pop(): Ring<T>
      requires Valid() && !Empty()
    {
      Ring(items, Around(head + 1, |items|), tail, count - 1)
    }
  }

  /** Pushing into the slot at `tail`, which is `(head + count) % capacity`, appends to the queue: it
      overwrites no queued item, wrapped or not. */
  lemma PushAppends<T>(q: Ring<T>, x: T)
    requires q.Valid() && !q.Full()
    ensures q.tail == (q.head + q.count) % |q.items|
    ensures q.Push(x).Valid() && q.Push(x).Contents() == q.Contents() + [x]
  {
    AroundIsModulo(q.head + q.count, |q.items|);
    assert q.Push(x).Item(q.count) == x;
    assert forall k :: 0 <= k < q.count ==> q.Push(x).Item(k) == q.Item(k);
  }

  /** Popping takes the oldest item and leaves the others in order. */
  lemma PopRemoves<T>(q: Ring<T>)
    requires q.Valid() && !q.Empty()
    ensures q.Pop().Valid() && q.Contents() == [q.Item(0)] + q.Pop().Contents()
  {
    assert forall k :: 0 <= k < q.count - 1 ==> q.Pop().Item(k) == q.Item(k + 1);
  }

  /** The queue itself, updated in place by `queue_push` and `queue_pop`. */
  class WorkQueue<T> {
    const items: array<T>
    var head: nat
    var tail: nat
    var count: nat

    ghost function View(): Ring<T>
      reads this, items
    {
      Ring(items[..], head, tail, count)
    }

    ghost predicate Valid()
      reads this, items
    {
      View().Valid()
    }

    /** A zeroed queue. */
    constructor (capacity: nat, zero: T)
      requires capacity > 0
      ensures Valid() && items.Length == capacity && fresh(items) && View().Contents() == []
      ensures View() == Ring(seq(capacity, _ => zero), 0, 0, 0)
    {
      items := new T[capacity](_ => zero);
      head, tail, count := 0, 0, 0;
    }

    /** `queue_push`, under the caller's check that the queue is not full. */
    method Push(x: T)
      requires Valid() && count < items.Length
      modifies this`tail, this`count, items
      ensures View() == old(View()).Push(x)
      ensures Valid() && View().Contents() == old(View().Contents()) + [x]
    {
      ghost var q := View();
      PushAppends(q, x);
      hide Ring.Contents, Ring.Item;
      items[tail] := x;
      AroundIsModulo(tail + 1, items.Length);
      tail := (tail + 1) % items.Length;
      count := count + 1;
      assert View() == q.Push(x);
    }

    /** `queue_pop`, under the caller's check that the queue is not empty. */
    method Pop() returns (x: T)
      requires Valid() && count > 0
      modifies this`head, this`count
      ensures View() == old(View()).Pop() && x == old(View()).Item(0)
      ensures Valid() && old(View().Contents()) == [x] + View().Contents()
    {
      ghost var q := View();
      PopRemoves(q);
      hide Ring.Contents;
      x := items[head];
      AroundIsModulo(head + 1, items.Length);
      head := (head + 1) % items.Length;
      count := count - 1;
      assert View() == q.Pop();
    }
  }
}

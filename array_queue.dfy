/**
 * The array representation of the bounded FIFO queue: `size` slots in one
 * array, a write position `head`, a read position `tail` and an occupancy
 * `count`. The queued values are the `count` slots starting at `tail`.
 */
module ArrayQueue {
  import opened Outcomes
  import opened Ring

  class CyclicQueue<T(0)> {
    const size: nat
    const elems: array<T>
    var head: nat
    var tail: nat
    var count: nat

    /** Positions stay in range and `head` is `count` advances past `tail`. */
    ghost predicate Valid()
      reads this
    {
      1 <= size && elems.Length == size &&
      tail < size && count <= size &&
      head == Offset(tail, count, size)
    }

    /** The queued values, oldest first. */
    ghost function Contents(): seq<T>
      reads this, elems
      requires Valid()
    {
      Window(elems[..], tail, count)
    }

    /** `head` and `tail` are the same slot exactly when the queue is empty or full. */
    lemma HeadMeetsTail()
      requires Valid()
      ensures head == tail <==> count == 0 || count == size
    {
    }

    /** A fresh queue: both positions at slot 0 and nothing queued. */
    constructor (size: nat)
      requires 1 <= size
      ensures Valid() && fresh(elems) && this.size == size
      ensures head == 0 && tail == 0 && count == 0
      ensures Contents() == [] && Empty() && !Full()
    {
      this.size := size;
      elems := new T[size];
      head, tail, count := 0, 0, 0;
    }

    /** The number of queued values. */
    function Count(): (r: nat)
      reads this, elems
      ensures Valid() ==> r == |Contents()|
    {
      count
    }

    /** The capacity. */
    function Size(): (r: nat)
      reads this
      ensures Valid() ==> r == elems.Length && r >= 1
    {
      size
    }

    /** Whether no further value fits. */
    function Full(): (r: bool)
      reads this, elems
      ensures Valid() ==> (r <==> |Contents()| == elems.Length)
    {
      count == size
    }

    /** Whether nothing is queued. */
    function Empty(): (r: bool)
      reads this, elems
      ensures Valid() ==> (r <==> Contents() == [])
    {
      count == 0
    }

    /**
     * Appends `x`: writes slot `head` and advances `head`. On a full queue
     * fails with `QueueIsFull` and changes nothing.
     */
    method Push(x: T) returns (result: Outcome)
      requires Valid()
      modifies this, elems
      ensures Valid()
      ensures old(count) == size ==>
        result == Fail(QueueIsFull) && unchanged(this) && unchanged(elems)
      ensures old(count) < size ==>
        result == Pass &&
        elems[..] == old(elems[..])[old(head) := x] &&
        head == NextIndex(old(head), size) && tail == old(tail) && count == old(count) + 1
      ensures Contents() == if old(count) == size then old(Contents()) else old(Contents()) + [x]
    {
      if Full() {
        return Fail(QueueIsFull);
      }
      WindowPush(elems[..], tail, count, x);
      OffsetStep(tail, count, size);
      elems[head] := x;
      count := count + 1;
      head := NextIndex(head, size);
      result := Pass;
    }

    /**
     * Removes and returns the oldest value, read at slot `tail`, and advances
     * `tail`. On an empty queue fails with `QueueIsEmpty` and changes nothing.
     */
    method Pop() returns (result: Result<T>)
      requires Valid()
      modifies this
      ensures Valid()
      ensures old(count) == 0 ==> result == Failure(QueueIsEmpty) && unchanged(this)
      ensures old(count) > 0 ==>
        result == Success(elems[old(tail)]) && result.value == old(Contents())[0] &&
        Contents() == old(Contents())[1..] &&
        tail == NextIndex(old(tail), size) && head == old(head) && count == old(count) - 1
    {
      if Empty() {
        return Failure(QueueIsEmpty);
      }
      WindowPop(elems[..], tail, count);
      OffsetFromNext(tail, count - 1, size);
      result := Success(elems[tail]);
      count := count - 1;
      tail := NextIndex(tail, size);
    }

    /**
     * Resets both positions and the occupancy. The code also destroys the
     * value in slot 0 only (not the queued values); object lifetime is not
     * part of this model.
     */
    method Clear()
      requires Valid()
      modifies this
      ensures Valid() && head == 0 && tail == 0 && count == 0
      ensures Contents() == []
    {
      head, tail, count := 0, 0, 0;
    }

    /**
     * Copy assignment: copies the positions and the occupancy verbatim and
     * every slot in storage order. Assigning a queue to itself does nothing.
     */
    method Assign(right: CyclicQueue<T>)
      requires Valid() && right.Valid() && right.size == size
      requires this != right ==> elems != right.elems
      modifies this, elems
      ensures Valid() && unchanged(right) && unchanged(right.elems)
      ensures head == old(right.head) && tail == old(right.tail) && count == old(right.count)
      ensures elems[..] == old(right.elems[..])
      ensures Contents() == old(right.Contents())
    {
      if this == right {
        return;
      }
      head, tail, count := right.head, right.tail, right.count;
      for i := 0 to size
        modifies elems
        invariant elems[..i] == right.elems[..i]
      {
        elems[i] := right.elems[i];
      }
    }

    /**
     * Move assignment: as copy assignment, and `right` is reset to the
     * empty state with both positions at slot 0. The moved-from slots are
     * modelled as keeping their values. Assigning a queue to itself does
     * nothing.
     */
    method AssignMove(right: CyclicQueue<T>)
      requires Valid() && right.Valid() && right.size == size
      requires this != right ==> elems != right.elems
      modifies this, elems, right
      ensures Valid() && right.Valid()
      ensures this == right ==> unchanged(this) && unchanged(elems)
      ensures this != right ==>
        head == old(right.head) && tail == old(right.tail) && count == old(right.count) &&
        elems[..] == old(right.elems[..]) && Contents() == old(right.Contents()) &&
        right.head == 0 && right.tail == 0 && right.count == 0 && right.Contents() == []
    {
      if this == right {
        return;
      }
      head, tail, count := right.head, right.tail, right.count;
      right.head, right.tail, right.count := 0, 0, 0;
      for i := 0 to size
        modifies elems
        invariant elems[..i] == right.elems[..i]
      {
        elems[i] := right.elems[i];
      }
    }
  }

  /**
   * Capacity 3: three pushes fill the queue and a fourth fails; then pop,
   * push, and pops wrap both positions around the end of the array.
   */
  method WrapAround<T(0)>(a: T, b: T, c: T, d: T) returns (overflow: Outcome, popped: seq<Result<T>>)
    ensures overflow == Fail(QueueIsFull)
    ensures popped == [Success(a), Success(b), Success(c), Success(d), Failure(QueueIsEmpty)]
  {
    var q := new CyclicQueue<T>(3);
    var ok := q.Push(a);
    ok := q.Push(b);
    ok := q.Push(c);
    overflow := q.Push(d);
    var r1 := q.Pop();
    ok := q.Push(d);
    var r2 := q.Pop();
    var r3 := q.Pop();
    var r4 := q.Pop();
    var r5 := q.Pop();
    popped := [r1, r2, r3, r4, r5];
  }

  /**
   * A copy is independent of its original: draining the copy leaves the
   * original's values in place; a moved-into queue then pops what was left in
   * the original, and the moved-from queue is empty.
   */
  method CopyIsIndependent<T(0)>(a: T, b: T) returns (fromCopy: seq<Result<T>>, fromOriginal: seq<Result<T>>, fromMoved: seq<Result<T>>, movedFromEmpty: bool)
    ensures fromCopy == [Success(a), Success(b), Failure(QueueIsEmpty)]
    ensures fromOriginal == [Success(a)]
    ensures fromMoved == [Success(b), Failure(QueueIsEmpty)]
    ensures movedFromEmpty
  {
    var q1 := new CyclicQueue<T>(4);
    var ok := q1.Push(a);
    ok := q1.Push(b);
    var q2 := new CyclicQueue<T>(4);
    q2.Assign(q1);
    var c1 := q2.Pop();
    var c2 := q2.Pop();
    var c3 := q2.Pop();
    fromCopy := [c1, c2, c3];
    var o1 := q1.Pop();
    var q3 := new CyclicQueue<T>(4);
    q3.AssignMove(q1);
    fromOriginal := [o1];
    var m1 := q3.Pop();
    var m2 := q3.Pop();
    fromMoved := [m1, m2];
    movedFromEmpty := q1.Empty();
  }
}

/**
 * The linked representation of the bounded FIFO queue: `size` nodes in one
 * array, each holding a value and a link to another node, wired once into the
 * ring 0 -> 1 -> ... -> size-1 -> 0. `head` and `tail` point at nodes; pointers
 * are modelled as slot indices and a null pointer as `None`.
 */
module ListQueue {
  import opened Outcomes
  import opened Ring

  /** A ring node: its value and the slot of the node it links to. */
  datatype Item<T> = Item(value: T, next: Option<nat>)

  /** Copy assignment of a node: the value is copied and the link is cleared. */
  function CopyItem<T>(right: Item<T>): (r: Item<T>)
    ensures r.value == right.value && r.next.None?
  {
    Item(right.value, None)
  }

  /**
   * Move assignment of a node: the first component is the assigned node, the
   * second the moved-from one. Both links are cleared; a moved-from value is
   * unspecified in C++ and is modelled as kept.
   */
  function MoveItem<T>(right: Item<T>): (r: (Item<T>, Item<T>))
    ensures r.0 == CopyItem(right)
    ensures r.1.value == right.value && r.1.next.None?
  {
    (Item(right.value, None), right.(next := None))
  }

  /** The values of the nodes, in storage order. */
  function Values<T>(nodes: seq<Item<T>>): (vs: seq<T>)
    ensures |vs| == |nodes|
    ensures forall i :: 0 <= i < |nodes| ==> vs[i] == nodes[i].value
  {
    seq(|nodes|, i requires 0 <= i < |nodes| => nodes[i].value)
  }

  /** Every node links to a node of the array. */
  predicate Linked<T>(nodes: seq<Item<T>>)
  {
    forall i :: 0 <= i < |nodes| ==> nodes[i].next.Some? && nodes[i].next.value < |nodes|
  }

  /** Every node links to its successor slot, the last one back to slot 0. */
  predicate CanonicalRing<T>(nodes: seq<Item<T>>)
  {
    forall i :: 0 <= i < |nodes| ==> nodes[i].next == Some(NextIndex(i, |nodes|))
  }

  lemma CanonicalIsLinked<T>(nodes: seq<Item<T>>)
    requires CanonicalRing(nodes)
    ensures Linked(nodes)
  {
  }

  /** The `n` values met by following links from node `start`. */
  function Walk<T>(nodes: seq<Item<T>>, start: nat, n: nat): (w: seq<T>)
    requires Linked(nodes) && start < |nodes|
    ensures |w| == n
    decreases n
  {
    if n == 0 then [] else [nodes[start].value] + Walk(nodes, nodes[start].next.value, n - 1)
  }

  /**
   * On the canonical ring, following links is advancing by slot arithmetic:
   * the linked queue holds the same values as an array queue over its node
   * values with the same `tail` and `count`.
   */
  lemma {:induction false} WalkIsWindow<T>(nodes: seq<Item<T>>, start: nat, n: nat)
    requires CanonicalRing(nodes) && start < |nodes| && n <= |nodes|
    ensures Linked(nodes) && Walk(nodes, start, n) == Window(Values(nodes), start, n)
    decreases n
  {
    CanonicalIsLinked(nodes);
    if n > 0 {
      WalkIsWindow(nodes, NextIndex(start, |nodes|), n - 1);
      WindowPop(Values(nodes), start, n);
    }
  }

  /** Two canonical rings with equal values hold equal walks. */
  lemma SameValuesSameWalk<T>(nodes: seq<Item<T>>, others: seq<Item<T>>, start: nat, n: nat)
    requires CanonicalRing(nodes) && CanonicalRing(others) && Values(nodes) == Values(others)
    requires start < |nodes| && n <= |nodes|
    ensures Linked(nodes) && Linked(others) && Walk(nodes, start, n) == Walk(others, start, n)
  {
    WalkIsWindow(nodes, start, n);
    WalkIsWindow(others, start, n);
  }

  /** `sizeof(list_item*)` on a 64-bit target. */
  const PtrSize: nat := 8

  /**
   * The slot recovered from a pointer `distance` nodes past the array start,
   * as written: the distance, already counted in nodes, is divided once more
   * by `ptrSize`, the size of a pointer.
   */
  function IndexForPointer(distance: nat, ptrSize: nat): (r: nat)
    requires 1 <= ptrSize
    ensures r <= distance
  {
    DivisionShrinks(distance, ptrSize);
    distance / ptrSize
  }

  lemma DivisionShrinks(d: nat, p: nat)
    requires 1 <= p
    ensures d / p <= d
  {
    var q := d / p;
    assert q * p >= q * 1;
  }

  /** The recovered slot is the pointer's own slot exactly for slot 0 or a unit pointer size. */
  lemma IndexForPointerPreserves(distance: nat, ptrSize: nat)
    requires 1 <= ptrSize
    ensures IndexForPointer(distance, ptrSize) == distance <==> distance == 0 || ptrSize == 1
  {
  }

  /** Every position survives index recovery only when the pointer size is 1. */
  lemma OnlyUnitPointerPreservesPositions(ptrSize: nat)
    requires 1 <= ptrSize
    ensures (forall d: nat :: IndexForPointer(d, ptrSize) == d) <==> ptrSize == 1
  {
    if ptrSize != 1 {
      IndexForPointerPreserves(1, ptrSize);
    } else {
      forall d: nat ensures IndexForPointer(d, ptrSize) == d {
        IndexForPointerPreserves(d, ptrSize);
      }
    }
  }

  /** With 8-byte pointers, a pointer to slot 3 is mapped to slot 0. */
  lemma SlotThreeBecomesZero()
    ensures IndexForPointer(3, PtrSize) == 0
  {
  }

  /** Wires the nodes of `a` into the canonical ring, keeping their values. */
  method Wire<T>(a: array<Item<T>>)
    requires 1 <= a.Length
    modifies a
    ensures forall i :: 0 <= i < a.Length - 1 ==> a[i].next == Some(i + 1)
    ensures a[a.Length - 1].next == Some(0)
    ensures CanonicalRing(a[..])
    ensures Values(a[..]) == old(Values(a[..]))
  {
    for i := 0 to a.Length - 1
      invariant forall j :: 0 <= j < i ==> a[j].next == Some(j + 1)
      invariant forall j :: 0 <= j < a.Length ==> a[j].value == old(a[j].value)
    {
      a[i] := a[i].(next := Some(i + 1));
    }
    a[a.Length - 1] := a[a.Length - 1].(next := Some(0));
  }

  class CyclicQueue<T(0)> {
    const size: nat
    const elems: array<Item<T>>
    var head: Option<nat>
    var tail: Option<nat>
    var count: nat

    /** The nodes form the canonical ring. */
    ghost predicate Wired()
      reads this, elems
    {
      1 <= size && elems.Length == size && CanonicalRing(elems[..])
    }

    /** A usable queue: wired, non-null positions, `head` `count` nodes past `tail`. */
    ghost predicate Valid()
      reads this, elems
    {
      Wired() && tail.Some? && tail.value < size && count <= size &&
      head == Some(Offset(tail.value, count, size))
    }

    /** The queued values, oldest first, following links from `tail`. */
    ghost function Contents(): seq<T>
      reads this, elems
      requires Valid()
    {
      CanonicalIsLinked(elems[..]);
      Walk(elems[..], tail.value, count)
    }

    /** `head` and `tail` are the same node exactly when the queue is empty or full. */
    lemma HeadMeetsTail()
      requires Valid()
      ensures head == tail <==> count == 0 || count == size
    {
    }

    /** A fresh queue: the ring is wired, both positions at node 0, nothing queued. */
    constructor (size: nat)
      requires 1 <= size
      ensures Valid() && fresh(elems) && this.size == size
      ensures head == Some(0) && tail == Some(0) && count == 0
      ensures forall i :: 0 <= i < size - 1 ==> elems[i].next == Some(i + 1)
      ensures elems[size - 1].next == Some(0)
      ensures Contents() == [] && Empty() && !Full()
    {
      var a := new Item<T>[size];
      Wire(a);
      this.size := size;
      elems := a;
      head, tail, count := Some(0), Some(0), 0;
    }

    /** The number of queued values. */
    function Count(): (r: nat)
      reads this, elems
      ensures Valid() ==> r == |Contents()|
    {
      count
    }

    /** The capacity. */
    function Size(): (r: nat)
      reads this
      ensures Valid() ==> r == elems.Length && r >= 1
    {
      size
    }

    /** Whether no further value fits. */
    function Full(): (r: bool)
      reads this, elems
      ensures Valid() ==> (r <==> |Contents()| == elems.Length)
    {
      count == size
    }

    /** Whether nothing is queued. */
    function Empty(): (r: bool)
      reads this, elems
      ensures Valid() ==> (r <==> Contents() == [])
    {
      count == 0
    }

    /**
     * Appends `x`: overwrites the value of node `head` and moves `head` along
     * its link. On a full queue fails with `QueueIsFull` and changes nothing.
     * Otherwise the code dereferences `head`, so it must not be null.
     */
    method Push(x: T) returns (result: Outcome)
      requires 1 <= size && elems.Length == size
      requires count != size ==> Wired() && head.Some? && head.value < size
      modifies this, elems
      ensures Wired() == old(Wired()) && tail == old(tail)
      ensures forall i :: 0 <= i < size ==> elems[i].next == old(elems[i].next)
      ensures old(count) == size ==>
        result == Fail(QueueIsFull) && unchanged(this) && unchanged(elems)
      ensures old(count) != size ==>
        result == Pass &&
        Values(elems[..]) == old(Values(elems[..]))[old(head).value := x] &&
        head == Some(NextIndex(old(head).value, size)) && count == old(count) + 1
      ensures old(Valid()) ==>
        Valid() && Contents() == if old(count) == size then old(Contents()) else old(Contents()) + [x]
    {
      if Full() {
        return Fail(QueueIsFull);
      }
      ghost var before := elems[..];
      var h := head.value;
      elems[h] := elems[h].(value := x);
      count := count + 1;
      head := elems[h].next;
      result := Pass;
      assert elems[..] == before[h := Item(x, before[h].next)];
      assert Values(elems[..]) == Values(before)[h := x];
      if old(Valid()) {
        var t, n := tail.value, count - 1;
        WalkIsWindow(before, t, n);
        WalkIsWindow(elems[..], t, n + 1);
        WindowPush(Values(before), t, n, x);
        OffsetStep(t, n, size);
      }
    }

    /**
     * Removes and returns the oldest value, read at node `tail`, and moves
     * `tail` along its link. On an empty queue fails with `QueueIsEmpty` and
     * changes nothing. Otherwise the code dereferences `tail`.
     */
    method Pop() returns (result: Result<T>)
      requires 1 <= size && elems.Length == size
      requires count != 0 ==> Wired() && tail.Some? && tail.value < size
      modifies this
      ensures head == old(head)
      ensures old(count) == 0 ==> result == Failure(QueueIsEmpty) && unchanged(this)
      ensures old(count) != 0 ==>
        result == Success(elems[old(tail).value].value) &&
        tail == Some(NextIndex(old(tail).value, size)) && count == old(count) - 1
      ensures old(Valid()) ==>
        Valid() &&
        (old(count) != 0 ==> result.value == old(Contents())[0] && Contents() == old(Contents())[1..])
    {
      if Empty() {
        return Failure(QueueIsEmpty);
      }
      var t := tail.value;
      result := Success(elems[t].value);
      count := count - 1;
      tail := elems[t].next;
      if old(Valid()) {
        WalkIsWindow(elems[..], t, count + 1);
        WalkIsWindow(elems[..], tail.value, count);
        WindowPop(Values(elems[..]), t, count + 1);
        OffsetFromNext(t, count, size);
      }
    }

    /**
     * Clears the queue as written: the occupancy becomes 0 and both positions
     * become null. The code also destroys the value in node 0 only (not the
     * queued values); object lifetime is not part of this model.
     */
    method Clear()
      modifies this
      ensures head.None? && tail.None? && count == 0
      ensures Empty() && (1 <= size ==> !Full())
    {
      head, tail, count := None, None, 0;
    }

    /** Clearing as intended: both positions back at node 0. */
    method ClearCorrected()
      requires Wired()
      modifies this
      ensures Valid() && head == Some(0) && tail == Some(0) && count == 0
      ensures Contents() == []
    {
      head, tail, count := Some(0), Some(0), 0;
    }

    /** Copies every node of `right` into the node at the same slot. */
    method CopyItems(right: CyclicQueue<T>)
      requires elems.Length == size && right.elems.Length == size && elems != right.elems
      modifies elems
      ensures forall i :: 0 <= i < size ==> elems[i] == CopyItem(right.elems[i])
      ensures Values(elems[..]) == Values(right.elems[..])
    {
      for i := 0 to size
        invariant forall j :: 0 <= j < i ==> elems[j] == CopyItem(right.elems[j])
      {
        elems[i] := CopyItem(right.elems[i]);
      }
    }

    /** Moves every node of `right` into the node at the same slot. */
    method MoveItems(right: CyclicQueue<T>)
      requires elems.Length == size && right.elems.Length == size && elems != right.elems
      modifies elems, right.elems
      ensures forall i :: 0 <= i < size ==>
        elems[i] == MoveItem(old(right.elems[i])).0 && right.elems[i] == MoveItem(old(right.elems[i])).1
      ensures Values(elems[..]) == old(Values(right.elems[..]))
      ensures Values(right.elems[..]) == old(Values(right.elems[..]))
    {
      for i := 0 to size
        invariant forall j :: 0 <= j < i ==>
          elems[j] == MoveItem(old(right.elems[j])).0 && right.elems[j] == MoveItem(old(right.elems[j])).1
        invariant forall j :: i <= j < size ==> right.elems[j] == old(right.elems[j])
      {
        var moved := MoveItem(right.elems[i]);
        elems[i] := moved.0;
        right.elems[i] := moved.1;
      }
    }

    /**
     * Rewires this ring and takes the positions and occupancy of `right`,
     * recovering each position of `right` with `IndexForPointer` and divisor
     * `ptrSize` (`PtrSize` as written). The code subtracts the array start
     * from each position, so neither may be null.
     */
    method AssignSetup(right: CyclicQueue<T>, ptrSize: nat)
      requires 1 <= size && elems.Length == size && right.size == size && 1 <= ptrSize
      requires right.head.Some? && right.head.value < size
      requires right.tail.Some? && right.tail.value < size
      modifies this, elems
      ensures Wired() && Values(elems[..]) == old(Values(elems[..]))
      ensures head == Some(IndexForPointer(old(right.head.value), ptrSize))
      ensures tail == Some(IndexForPointer(old(right.tail.value), ptrSize))
      ensures count == old(right.count)
    {
      Wire(elems);
      var headIndex := IndexForPointer(right.head.value, ptrSize);
      var tailIndex := IndexForPointer(right.tail.value, ptrSize);
      head, tail := Some(headIndex), Some(tailIndex);
      count := right.count;
    }

    /**
     * Copy assignment as written: node values are copied slot by slot, the
     * ring is rewired, `count` is copied and the positions are recovered with
     * pointer-size division. When both positions of `right` survive that
     * division, the copy is valid and holds the same values in the same
     * order. Assigning a queue to itself does nothing.
     */
    method Assign(right: CyclicQueue<T>)
      requires 1 <= size && elems.Length == size && right.size == size && right.elems.Length == size
      requires this != right ==> elems != right.elems
      requires this != right ==> right.head.Some? && right.head.value < size
      requires this != right ==> right.tail.Some? && right.tail.value < size
      modifies this, elems
      ensures unchanged(right) && unchanged(right.elems)
      ensures this == right ==> unchanged(elems)
      ensures this != right ==>
        Wired() && Values(elems[..]) == Values(right.elems[..]) &&
        head == Some(IndexForPointer(right.head.value, PtrSize)) &&
        tail == Some(IndexForPointer(right.tail.value, PtrSize)) &&
        count == right.count
      ensures (this != right && old(right.Valid()) &&
               IndexForPointer(right.head.value, PtrSize) == right.head.value &&
               IndexForPointer(right.tail.value, PtrSize) == right.tail.value) ==>
        Valid() && Contents() == right.Contents()
    {
      if this == right {
        return;
      }
      CopyItems(right);
      AssignSetup(right, PtrSize);
      if right.Valid() && tail == right.tail && head == right.head {
        SameValuesSameWalk(elems[..], right.elems[..], tail.value, count);
      }
    }

    /**
     * Copy assignment with positions recovered as slot distances: the copy
     * holds the same values in the same order as `right`.
     */
    method AssignCorrected(right: CyclicQueue<T>)
      requires 1 <= size && elems.Length == size && right.size == size && right.elems.Length == size
      requires this != right ==> elems != right.elems
      requires this != right ==> right.head.Some? && right.head.value < size
      requires this != right ==> right.tail.Some? && right.tail.value < size
      modifies this, elems
      ensures unchanged(right) && unchanged(right.elems)
      ensures this == right ==> unchanged(elems)
      ensures this != right ==>
        Wired() && Values(elems[..]) == Values(right.elems[..]) &&
        head == right.head && tail == right.tail && count == right.count
      ensures old(right.Valid()) ==> Valid() && Contents() == right.Contents()
    {
      if this == right {
        return;
      }
      CopyItems(right);
      AssignSetup(right, 1);
      IndexForPointerPreserves(right.head.value, 1);
      IndexForPointerPreserves(right.tail.value, 1);
      if right.Valid() {
        SameValuesSameWalk(elems[..], right.elems[..], tail.value, count);
      }
    }

    /**
     * Move assignment as written: node values are moved slot by slot, which
     * also clears every link of `right`; the ring is rewired and the
     * positions recovered as in `Assign`; then `right` is left with null
     * positions and occupancy 0. When both positions of `right` survive the
     * recovery, the moved-into queue is valid and holds the values of `right`
     * in the same order. Assigning a queue to itself does nothing.
     */
    method AssignMove(right: CyclicQueue<T>)
      requires 1 <= size && elems.Length == size && right.size == size && right.elems.Length == size
      requires this != right ==> elems != right.elems
      requires this != right ==> right.head.Some? && right.head.value < size
      requires this != right ==> right.tail.Some? && right.tail.value < size
      modifies this, elems, right, right.elems
      ensures this == right ==> unchanged(this) && unchanged(elems)
      ensures this != right ==>
        Wired() && Values(elems[..]) == old(Values(right.elems[..])) &&
        head == Some(IndexForPointer(old(right.head.value), PtrSize)) &&
        tail == Some(IndexForPointer(old(right.tail.value), PtrSize)) &&
        count == old(right.count)
      ensures this != right ==>
        right.head.None? && right.tail.None? && right.count == 0 &&
        Values(right.elems[..]) == old(Values(right.elems[..])) &&
        forall i :: 0 <= i < size ==> right.elems[i].next.None?
      ensures (this != right && old(right.Valid()) &&
               IndexForPointer(old(right.head.value), PtrSize) == old(right.head.value) &&
               IndexForPointer(old(right.tail.value), PtrSize) == old(right.tail.value)) ==>
        Valid() && Contents() == old(right.Contents())
    {
      if this == right {
        return;
      }
      ghost var source := right.elems[..];
      MoveItems(right);
      AssignSetup(right, PtrSize);
      if old(right.Valid()) && tail == old(right.tail) && head == old(right.head) {
        SameValuesSameWalk(elems[..], source, tail.value, count);
      }
      right.head, right.tail, right.count := None, None, 0;
    }

    /**
     * Move assignment as intended: the moved-into queue holds the values of
     * `right` in the same order, and `right` is rewired and left empty and
     * usable.
     */
    method AssignMoveCorrected(right: CyclicQueue<T>)
      requires 1 <= size && elems.Length == size && right.size == size && right.elems.Length == size
      requires this != right ==> elems != right.elems
      requires this != right ==> right.head.Some? && right.head.value < size
      requires this != right ==> right.tail.Some? && right.tail.value < size
      modifies this, elems, right, right.elems
      ensures this == right ==> unchanged(this) && unchanged(elems)
      ensures this != right ==>
        Wired() && Values(elems[..]) == old(Values(right.elems[..])) &&
        head == old(right.head) && tail == old(right.tail) && count == old(right.count)
      ensures this != right ==>
        right.Valid() && right.Contents() == [] &&
        Values(right.elems[..]) == old(Values(right.elems[..]))
      ensures old(right.Valid()) && this != right ==> Valid() && Contents() == old(right.Contents())
    {
      if this == right {
        return;
      }
      ghost var source := right.elems[..];
      MoveItems(right);
      AssignSetup(right, 1);
      IndexForPointerPreserves(old(right.head.value), 1);
      IndexForPointerPreserves(old(right.tail.value), 1);
      Wire(right.elems);
      right.head, right.tail, right.count := Some(0), Some(0), 0;
      if old(right.Valid()) {
        SameValuesSameWalk(elems[..], source, tail.value, count);
      }
    }
  }

  /**
   * Capacity 3: three pushes fill the queue and a fourth fails; then pop,
   * push, and pops carry both positions once around the ring.
   */
  method WrapAround<T(0)>(a: T, b: T, c: T, d: T) returns (overflow: Outcome, popped: seq<Result<T>>)
    ensures overflow == Fail(QueueIsFull)
    ensures popped == [Success(a), Success(b), Success(c), Success(d), Failure(QueueIsEmpty)]
  {
    var q := new CyclicQueue<T>(3);
    var ok := q.Push(a);
    ok := q.Push(b);
    ok := q.Push(c);
    overflow := q.Push(d);
    var r1 := q.Pop();
    ok := q.Push(d);
    var r2 := q.Pop();
    var r3 := q.Pop();
    var r4 := q.Pop();
    var r5 := q.Pop();
    popped := [r1, r2, r3, r4, r5];
  }

  /**
   * Capacity 4 after pushing `a`, `b`, `c` and popping once: `tail` is at
   * node 1, `head` at node 3, and nodes 0 to 2 hold `a`, `b`, `c`.
   */
  method PoppedOnce<T(0)>(a: T, b: T, c: T) returns (q: CyclicQueue<T>)
    ensures fresh(q) && fresh(q.elems) && q.Valid() && q.size == 4
    ensures q.tail == Some(1) && q.head == Some(3) && q.count == 2
    ensures q.elems[0].value == a && q.elems[1].value == b && q.elems[2].value == c
    ensures q.Contents() == [b, c]
  {
    q := new CyclicQueue<T>(4);
    var ok := q.Push(a);
    ok := q.Push(b);
    ok := q.Push(c);
    assert q.Contents() == [a, b, c];
    var r := q.Pop();
  }

  /**
   * Capacity 4 holding `a`, `b`, `c` after one pop: `tail` is at node 1 and
   * `head` at node 3, and the copy made by `Assign` has both at node 0 with
   * occupancy 2, which breaks the queue invariant.
   */
  method CopyAfterPopBreaksValid<T(0)>(a: T, b: T, c: T) returns (original: CyclicQueue<T>, copy: CyclicQueue<T>)
    ensures original.Valid() && original.tail == Some(1) && original.head == Some(3) && original.count == 2
    ensures copy.tail == Some(0) && copy.head == Some(0) && copy.count == 2 && !copy.Valid()
  {
    original := PoppedOnce(a, b, c);
    copy := new CyclicQueue<T>(4);
    copy.Assign(original);
  }

  /**
   * The same queue: the original pops `b` then `c`, but the copy made by
   * `Assign` pops the already-removed `a` and then `b`.
   */
  method CopyAfterPopPopsStaleValue<T(0)>(a: T, b: T, c: T) returns (fromOriginal: seq<Result<T>>, fromCopy: seq<Result<T>>)
    ensures fromOriginal == [Success(b), Success(c)]
    ensures fromCopy == [Success(a), Success(b)]
  {
    var q1 := PoppedOnce(a, b, c);
    var q2 := new CyclicQueue<T>(4);
    q2.Assign(q1);
    var c1 := q2.Pop();
    var c2 := q2.Pop();
    fromCopy := [c1, c2];
    var o1 := q1.Pop();
    var o2 := q1.Pop();
    fromOriginal := [o1, o2];
  }

  /** The same queue copied with `AssignCorrected`: both pop `b` then `c`. */
  method CopyAfterPopKeepsOrder<T(0)>(a: T, b: T, c: T) returns (fromOriginal: seq<Result<T>>, fromCopy: seq<Result<T>>)
    ensures fromOriginal == [Success(b), Success(c)]
    ensures fromCopy == fromOriginal
  {
    var q1 := PoppedOnce(a, b, c);
    var q2 := new CyclicQueue<T>(4);
    q2.AssignCorrected(q1);
    assert q2.Valid() && q2.Contents() == [b, c];
    var c1 := q2.Pop();
    var c2 := q2.Pop();
    fromCopy := [c1, c2];
    var o1 := q1.Pop();
    var o2 := q1.Pop();
    fromOriginal := [o1, o2];
  }

  /**
   * After `Clear` the queue reports not full, so a push passes its check and
   * then writes through `head`, which is null.
   */
  method PushAfterClearReachesNull<T(0)>(a: T) returns (reachesNull: bool)
    ensures reachesNull
  {
    var q := new CyclicQueue<T>(2);
    var ok := q.Push(a);
    q.Clear();
    reachesNull := !q.Full() && q.head.None?;
  }

  /** After `ClearCorrected` the queue is usable again. */
  method PushAfterCorrectedClear<T(0)>(a: T, b: T) returns (popped: seq<Result<T>>)
    ensures popped == [Success(b), Failure(QueueIsEmpty)]
  {
    var q := new CyclicQueue<T>(2);
    var ok := q.Push(a);
    q.ClearCorrected();
    ok := q.Push(b);
    var r1 := q.Pop();
    var r2 := q.Pop();
    popped := [r1, r2];
  }

  /**
   * After `AssignMove` the moved-from queue reports not full, so a push
   * passes its check and then writes through `head`, which is null; its ring
   * links are all null as well.
   */
  method PushAfterMoveReachesNull<T(0)>(a: T) returns (reachesNull: bool)
    ensures reachesNull
  {
    var q1 := new CyclicQueue<T>(2);
    var ok := q1.Push(a);
    var q2 := new CyclicQueue<T>(2);
    q2.AssignMove(q1);
    reachesNull := !q1.Full() && q1.head.None? && q1.elems[0].next.None?;
  }

  /**
   * With `AssignMoveCorrected` after a pop, the moved-into queue pops the
   * remaining values in order.
   */
  method MoveAfterPopKeepsOrder<T(0)>(a: T, b: T, c: T) returns (fromMoved: seq<Result<T>>)
    ensures fromMoved == [Success(b), Success(c), Failure(QueueIsEmpty)]
  {
    var q1 := PoppedOnce(a, b, c);
    var q2 := new CyclicQueue<T>(4);
    q2.AssignMoveCorrected(q1);
    assert q2.Valid() && q2.Contents() == [b, c];
    var m1 := q2.Pop();
    var m2 := q2.Pop();
    var m3 := q2.Pop();
    fromMoved := [m1, m2, m3];
  }

  /** With `AssignMoveCorrected` the moved-from queue is empty and usable again. */
  method MovedFromIsUsable<T(0)>(a: T, b: T, c: T, d: T) returns (fromSource: seq<Result<T>>)
    ensures fromSource == [Failure(QueueIsEmpty), Success(d), Failure(QueueIsEmpty)]
  {
    var q1 := PoppedOnce(a, b, c);
    var q2 := new CyclicQueue<T>(4);
    q2.AssignMoveCorrected(q1);
    assert q1.Valid() && q1.Contents() == [];
    var s1 := q1.Pop();
    var ok := q1.Push(d);
    var s2 := q1.Pop();
    var s3 := q1.Pop();
    fromSource := [s1, s2, s3];
  }

  /**
   * The moved-from queue of `AssignMove` has null links and positions, but
   * `count` is 0, so a pop fails as empty before touching them.
   */
  method PopAfterMoveFailsEmpty<T(0)>(a: T) returns (popped: Result<T>)
    ensures popped == Failure(QueueIsEmpty)
  {
    var q1 := new CyclicQueue<T>(2);
    var ok := q1.Push(a);
    var q2 := new CyclicQueue<T>(2);
    q2.AssignMove(q1);
    popped := q1.Pop();
  }
}

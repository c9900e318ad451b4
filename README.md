# Bounded cyclic queue: array and linked-ring representations

This project models `cyclic_queue<T, Size>`, a fixed-capacity FIFO ring
buffer written twice: once over a plain array with integer `head`/`tail`
indices (`array_impl.h`), once over an array of nodes wired into a ring with
`head`/`tail` pointers (`cyclic_queue_list.h`). Both keep an occupancy
`count`; `push` writes at `head` and advances it, `pop` reads at `tail` and
advances it, and a full `push` or an empty `pop` throws `std::logic_error`.
The queued values are the `count` slots met by starting at `tail` and
advancing.

- `outcomes.dfy` (`Outcomes`): `Option` (a null pointer is `None`), the two
  `logic_error` conditions, and `Outcome`/`Result` for operations that may
  throw. A throw is a failure result with the state unchanged.
- `ring.dfy` (`Ring`): `next_index`, the closed form `Offset` of `k`
  advances, and `Window`, the values met from a start slot. Both variants
  are given their meaning through `Window`.
- `array_queue.dfy` (`ArrayQueue`): the array variant as a class with an
  `array<T>` and integer positions. `Valid()` says `head` is `count`
  advances past `tail`; `Contents()` is the window at `tail`.
- `list_queue.dfy` (`ListQueue`): the linked variant. A node is
  `Item(value, next)`, where `next` is a slot index or `None` for null; the
  class holds an `array<Item<T>>` and `Option<nat>` positions. `Contents()`
  follows the links from `tail`. `WalkIsWindow` proves that, on the ring
  the constructor wires, following links gives the same values as the array
  variant's slot arithmetic.

The model follows the code as written:

- the linked `clear()` sets `head`/`tail` to null;
- both `clear()`s destroy the value in slot 0 only;
- the linked copy and move assignment recover each position by dividing its
  slot distance by the pointer size;
- the linked move assignment leaves `right` with null links and positions.

Beside the null positions and the position recovery the model has a
corrected version, listed under Findings; destroying slot 0 concerns object
lifetime, which is not modelled (see Left out).

## Model

| member | source | states |
|---|---|---|
| `Ring.NextIndex` | array_impl.h:155-159 | for a slot below the capacity, the next slot is `(i + 1) % Size` and stays below the capacity |
| `Ring.OffsetIsMod` | array_impl.h:155-159 | `k` advances from `tail`, as used by the queue invariant, land on `(tail + k) % Size` |
| `Ring.OffsetStep` | array_impl.h:62-63 | one more advance of `head` after a push keeps `head` equal to `tail` advanced `count` times |
| `Ring.OffsetFromNext` | array_impl.h:73-74 | advancing `tail` and decrementing `count` on pop leaves `head` unchanged as the same position |
| `Ring.Window` | array_impl.h:71-74 | the values met from `tail` by repeated advancing: element `i` is the slot `i` advances past `tail` |
| `Ring.WindowPush` | array_impl.h:60-63 | writing the slot just past the queued values appends exactly that value to them |
| `Ring.WindowPop` | array_impl.h:71-74 | the value at `tail` is the oldest, and advancing `tail` leaves the rest in order |
| `ArrayQueue.CyclicQueue.HeadMeetsTail` | array_impl.h:57-75 | in a valid queue `head` equals `tail` exactly when it is empty or full, which is why `count` is kept |
| `ArrayQueue.CyclicQueue.constructor` | array_impl.h:13-18 | a fresh queue has `head == tail == count == 0`, is valid, holds nothing, is empty and not full |
| `ArrayQueue.CyclicQueue.Count` | array_impl.h:78-81 | the occupancy is the number of queued values |
| `ArrayQueue.CyclicQueue.Size` | array_impl.h:83-86 | the capacity is the array length, at least 1 |
| `ArrayQueue.CyclicQueue.Full` | array_impl.h:88-91 | full exactly when the number of queued values equals the capacity |
| `ArrayQueue.CyclicQueue.Empty` | array_impl.h:93-96 | empty exactly when nothing is queued |
| `ArrayQueue.CyclicQueue.Push` | array_impl.h:54-64 | on a full queue fails with nothing changed; otherwise writes only slot `head`, advances `head`, increments `count`, appends the value to the contents and keeps the invariant |
| `ArrayQueue.CyclicQueue.Pop` | array_impl.h:66-76 | on an empty queue fails with nothing changed; otherwise returns slot `tail`, which is the oldest value, advances `tail`, decrements `count` and drops exactly the oldest value |
| `ArrayQueue.CyclicQueue.Clear` | array_impl.h:98-107 | positions and occupancy become 0 and the queue is valid and empty |
| `ArrayQueue.CyclicQueue.Assign` | array_impl.h:121-134 | positions, occupancy and every slot are copied, so the copy holds the same values in the same order and `right` is unchanged; self-assignment changes nothing |
| `ArrayQueue.CyclicQueue.AssignMove` | array_impl.h:136-153 | as copy assignment, and `right` is reset to positions 0 and occupancy 0, valid and empty; self-assignment changes nothing |
| `ArrayQueue.WrapAround` | array_impl.h:54-76 | capacity 3: a fourth push fails; pops after wrapping return the pushed values in FIFO order, then an empty pop fails |
| `ArrayQueue.CopyIsIndependent` | array_impl.h:121-153 | draining a copy leaves the original's values; a moved-into queue pops what the original held and the moved-from queue is empty |
| `ListQueue.CopyItem` | cyclic_queue_list.h:45-49 | node copy assignment copies the value and makes the link null |
| `ListQueue.MoveItem` | cyclic_queue_list.h:51-56 | node move assignment gives the assigned node the value with a null link, and also makes the moved-from node's link null |
| `ListQueue.Walk` | cyclic_queue_list.h:137-140 | following links `count` times from `tail` meets exactly `count` values |
| `ListQueue.WalkIsWindow` | cyclic_queue_list.h:80-83 | on the wired ring, following links from a node is the same as advancing slot indices |
| `ListQueue.IndexForPointer` | cyclic_queue_list.h:233-237 | the recovered slot is the slot distance divided by the pointer size, never past the pointer's own slot |
| `ListQueue.IndexForPointerPreserves` | cyclic_queue_list.h:233-237 | the recovered slot equals the pointer's slot exactly when that slot is 0 or the pointer size is 1 |
| `ListQueue.OnlyUnitPointerPreservesPositions` | cyclic_queue_list.h:233-237 | every position is recovered correctly if and only if the pointer size is 1 |
| `ListQueue.SlotThreeBecomesZero` | cyclic_queue_list.h:236 | with 8-byte pointers a pointer to slot 3 is recovered as slot 0 |
| `ListQueue.Wire` | cyclic_queue_list.h:80-83 | node `i` links to `i + 1` and the last node to node 0, forming the canonical ring; values are untouched |
| `ListQueue.CyclicQueue.HeadMeetsTail` | cyclic_queue_list.h:123-141 | in a valid queue `head` and `tail` point at the same node exactly when it is empty or full |
| `ListQueue.CyclicQueue.constructor` | cyclic_queue_list.h:74-84 | the ring is wired, `head` and `tail` are node 0, `count` is 0; the queue is valid, empty and not full |
| `ListQueue.CyclicQueue.Count` | cyclic_queue_list.h:144-147 | the occupancy is the number of queued values |
| `ListQueue.CyclicQueue.Size` | cyclic_queue_list.h:149-152 | the capacity is the node count, at least 1 |
| `ListQueue.CyclicQueue.Full` | cyclic_queue_list.h:154-157 | full exactly when the number of queued values equals the capacity |
| `ListQueue.CyclicQueue.Empty` | cyclic_queue_list.h:159-162 | empty exactly when nothing is queued |
| `ListQueue.CyclicQueue.Push` | cyclic_queue_list.h:120-130 | on a full queue fails with nothing changed; otherwise overwrites only `head`'s value, follows `head`'s link, increments `count`, never changes a link, and appends the value to the contents |
| `ListQueue.CyclicQueue.Pop` | cyclic_queue_list.h:132-142 | on an empty queue fails with nothing changed; otherwise returns `tail`'s value, which is the oldest, follows `tail`'s link, decrements `count` and drops exactly the oldest value |
| `ListQueue.CyclicQueue.Clear` | cyclic_queue_list.h:164-173 | occupancy 0 and null `head`/`tail`, while the queue reports not full |
| `ListQueue.CyclicQueue.ClearCorrected` | cyclic_queue_list.h:164-173 | clearing to node 0 leaves a valid empty queue |
| `ListQueue.CyclicQueue.CopyItems` | cyclic_queue_list.h:191-194 | every node is copy-assigned from the node at the same slot of `right` |
| `ListQueue.CyclicQueue.MoveItems` | cyclic_queue_list.h:204-207 | every node is move-assigned from the node at the same slot of `right`, clearing the links of `right` |
| `ListQueue.CyclicQueue.AssignSetup` | cyclic_queue_list.h:216-230 | the ring is rewired as the constructor does, values are kept, positions are the recovered slots of the positions of `right` and `count` is copied |
| `ListQueue.CyclicQueue.Assign` | cyclic_queue_list.h:186-197 | values are copied by slot, the ring rewired, `count` copied, positions recovered with the pointer-size division; when both positions survive that division, the copy is valid and holds the same values in the same order; self-assignment changes nothing |
| `ListQueue.CyclicQueue.AssignCorrected` | cyclic_queue_list.h:186-197 | with positions recovered as slot distances, a copy of a valid queue is valid and holds the same values in the same order |
| `ListQueue.CyclicQueue.AssignMove` | cyclic_queue_list.h:199-214 | the destination gets the same wiring, values, positions and occupancy as with `Assign`, and when both positions survive the division it is valid and holds the values of `right` in the same order; `right` keeps its values but every link, `head` and `tail` become null and `count` 0 |
| `ListQueue.CyclicQueue.AssignMoveCorrected` | cyclic_queue_list.h:199-214 | the destination holds the values of `right` in order, and `right` is rewired, valid and empty |
| `ListQueue.WrapAround` | cyclic_queue_list.h:120-142 | capacity 3: a fourth push fails; pops after wrapping return the pushed values in FIFO order, then an empty pop fails |
| `ListQueue.CopyAfterPopBreaksValid` | cyclic_queue_list.h:224-228 | capacity 4 with `tail` 1 and `head` 3: the copy has both positions at 0 with occupancy 2, which is not a valid queue |
| `ListQueue.CopyAfterPopPopsStaleValue` | cyclic_queue_list.h:224-228 | after one pop, the original pops `b`, `c` but the copy pops the removed `a`, then `b` |
| `ListQueue.CopyAfterPopKeepsOrder` | cyclic_queue_list.h:186-197 | with the corrected copy both queues pop `b`, `c` |
| `ListQueue.PushAfterClearReachesNull` | cyclic_queue_list.h:164-173 | after clear the queue is not full and `head` is null, so a push dereferences null |
| `ListQueue.PushAfterCorrectedClear` | cyclic_queue_list.h:164-173 | after the corrected clear a push and a pop work, and a second pop fails as empty |
| `ListQueue.PushAfterMoveReachesNull` | cyclic_queue_list.h:211-213 | after a move the moved-from queue is not full, its `head` and links are null, so a push dereferences null |
| `ListQueue.PopAfterMoveFailsEmpty` | cyclic_queue_list.h:134-135 | a pop on the moved-from queue fails as empty without touching its null links or positions |
| `ListQueue.MoveAfterPopKeepsOrder` | cyclic_queue_list.h:199-214 | with the corrected move the destination pops the values left after a pop, in order |
| `ListQueue.MovedFromIsUsable` | cyclic_queue_list.h:211-213 | with the corrected move the moved-from queue is empty, then accepts a push and pops it |

## Left out

- Allocator `construct`/`destroy` and object lifetime are not modelled. `construct` is a plain slot write. Each `clear()` is modelled as its position and occupancy reset. Both `clear()`s also destroy only the value in slot 0, not the queued values; the model has no notion of a destroyed value, so this defect is only noted.
- The `_elems == nullptr` guards in both `clear()`s are not modelled. A member array is never null, so these branches are dead.
- Exception types and messages are reduced to `QueueIsFull` and `QueueIsEmpty`.
- The `const&`/`&&` `push` overloads and variadic `emplace` are one `Push` of a value.
- Moved-from element values are unspecified in C++. The model treats a move of a value as a copy, so popped and moved-from slots keep their values.
- The copy and move constructors only call `assign` on a fresh object. They are modelled by `Assign`/`AssignMove` on a constructed queue.
- The template parameter `Size` is a constructor argument of at least 1.
- `size_t` positions and counts are unbounded naturals. The `int` loop counters and the `static_cast<int>` in `get_index_for_pointer` are not modelled; they could only overflow for capacities beyond `INT_MAX`.
- `ListQueue.CyclicQueue.Push`, `ListQueue.CyclicQueue.Pop`: dereferencing a null `head`/`tail` is undefined behaviour in C++, so the model makes the ring wired and the position non-null a precondition whenever the operation gets past its full/empty check.
- `ListQueue.CyclicQueue.Assign`, `ListQueue.CyclicQueue.AssignMove`, `ListQueue.CyclicQueue.AssignSetup`: subtracting the array start from a null position of `right` is undefined behaviour, so copying from a cleared or moved-from linked queue is excluded by precondition.
- Each queue owns its storage as a member array. The assignment methods require that two distinct queues do not share their array.
- `ArrayQueue.CyclicQueue.Push`, `ArrayQueue.CyclicQueue.Pop`, `ArrayQueue.CyclicQueue.Clear`, `ArrayQueue.CyclicQueue.Assign`, `ArrayQueue.CyclicQueue.AssignMove`: these require the queue invariant (every array-queue state reachable through the API satisfies it); the code states no precondition.

## Findings

| source | as written | input that shows it | evidently intended | confidence | as-written member | corrected member |
|---|---|---|---|---|---|---|
| cyclic_queue_list.h:236 | the slot distance `ptr - rel_list`, already counted in nodes, is divided by `sizeof(ptr)` | capacity 4, push `a`, `b`, `c`, pop, copy: `tail` 1 and `head` 3 both become 0; the copy pops the removed `a`, then `b` | the recovered slot is the distance itself, so the copy pops `b`, `c` | high, not executed | `ListQueue.IndexForPointer`, shown by `ListQueue.CopyAfterPopPopsStaleValue` and `ListQueue.CopyAfterPopBreaksValid` | `ListQueue.CyclicQueue.AssignCorrected`, used by `ListQueue.CopyAfterPopKeepsOrder` |
| cyclic_queue_list.h:170-171 | `clear()` sets `head` and `tail` to null | push `a`, clear, push: the queue is not full, so the push writes through a null `head` | `head` and `tail` return to node 0 | high, not executed | `ListQueue.CyclicQueue.Clear`, shown by `ListQueue.PushAfterClearReachesNull` | `ListQueue.CyclicQueue.ClearCorrected`, used by `ListQueue.PushAfterCorrectedClear` |
| cyclic_queue_list.h:211-212 | move assignment leaves `right` with null `head`/`tail`, and node moves (line 55) null all its links | push `a`, move into another queue, push on the moved-from queue: not full, so the push writes through a null `head` | `right` is left as a freshly constructed queue: ring wired, positions at node 0, empty | high, not executed | `ListQueue.CyclicQueue.AssignMove`, shown by `ListQueue.PushAfterMoveReachesNull` | `ListQueue.CyclicQueue.AssignMoveCorrected`, used by `ListQueue.MoveAfterPopKeepsOrder` and `ListQueue.MovedFromIsUsable` |

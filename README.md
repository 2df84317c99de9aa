# Verified model of XArrayList and DLinkedList

This project models two generic list containers in Dafny. Both share one list contract.

- **XArrayList** is a growable contiguous buffer. Elements sit in positions `[0, count)` of `data`. When an insertion finds the buffer full, the buffer is replaced by a copy of twice the capacity.
- **DLinkedList** is a doubly linked list with two sentinel nodes, `head` and `tail`. Every insertion and removal rewires `next`/`prev` pointers.

Each container carries a ghost `elems: seq<T>` holding its abstract contents. Every operation is proved to perform the matching sequence edit on `elems`: append, insert at an index, remove at an index, remove the first match, or nothing.

Three modules:

- `ListSpec` (`list_spec.dfy`) holds the shared contract:
  - the out-of-range error as a return value (`Outcome`, `Result`);
  - the configurable equality `Equals`, where `None` means the element type's own `==`;
  - the sequence edits `Inserted`, `Removed` and `RemovedFirst`, with their round trips;
  - the reference for `indexOf` (`FirstMatch`);
  - the text `toString` builds (`Render`), with a second, front-to-back definition proved equal to it.
- `ArrayList` (`xarray_list.dfy`) models the class `XArrayList` over an `array<T>`, plus its index-cursor `Iterator`. The invariant is `count <= capacity == data.Length` and `elems == data[..count]`.
- `LinkedList` (`dlinked_list.dfy`) models `DLinkedList` as an arena of nodes:
  - `next`, `prev` and `data` are maps keyed by node id;
  - the sentinels have the fixed ids `HEAD = 0` and `TAIL = 1`;
  - a new node takes the id `freeId`;
  - the ghost `nodes` lists the real nodes front to back.

  The invariant `WellFormed` says three things about the chain `[HEAD] + nodes + [TAIL]`:
  - its ids are distinct and all below `freeId`;
  - each consecutive pair is linked both ways;
  - node `nodes[i]` holds `elems[i]`.

  The module also has the forward `Iterator` and the backward `BWDIterator`, each standing on a node of the chain.

Modelling choices:

- A thrown `out_of_range` becomes a `Fail`/`Err` result, and a failing call changes nothing.
- The optional equality function pointer becomes `itemEqual: Option<(T, T) -> bool>`.
- Rendering an element (`item2str`, or `operator<<` when none is given) becomes a parameter `render: T -> string`.
- `DLinkedList::add(index, e)` and `removeAt(index)` are split in two:
  - their pointer-rewiring branches (front, end, and the middle `for` loop) are the methods `Link` and `Detach`;
  - `Insert` and `RemoveAt` allocate or read the node around those calls and update the count.
- The unlinking that `removeItem` and both iterators' `remove` share is the method `Unlink`.

## Model

| member | source | states |
|---|---|---|
| ListSpec.Inserted | include/list/XArrayList.h:280-285 | inserting at `i` keeps the elements before `i`, puts `e` at `i` and moves each later element up one place |
| ListSpec.Removed | include/list/XArrayList.h:295-300 | removing position `i` keeps the elements before `i` and moves each later element down one place |
| ListSpec.RemovedInserted | include/list/XArrayList.h:263-302 | `removeAt(i)` undoes `add(i, e)` |
| ListSpec.InsertedRemoved | include/list/XArrayList.h:263-302 | putting the removed element back with `add(i, x)` restores the contents |
| ListSpec.Equals | include/list/XArrayList.h:82-88 | the configured predicate when one is set, the element type's own `==` otherwise |
| ListSpec.FirstMatch | include/list/XArrayList.h:368-381 | the result is -1 exactly when no element matches; otherwise the element at the result matches and none before it does |
| ListSpec.NativeFirstMatch | include/list/XArrayList.h:368-381 | with no configured predicate, `indexOf` is -1 exactly when `item` does not occur, and otherwise is its first occurrence |
| ListSpec.RemovedFirstSize | include/list/XArrayList.h:305-327 | `removeItem` leaves the list unchanged when nothing matches; otherwise it shortens the list by one and keeps every element before the first match |
| ListSpec.PartsAppend | include/list/XArrayList.h:406-413 | each element is rendered on its own: the rendered parts of `s + t` are those of `s` followed by those of `t` |
| ListSpec.RenderEmpty | include/list/XArrayList.h:396-417 | an empty list renders as `[]` |
| ListSpec.SeparatedSnoc | include/list/DLinkedList.h:663-679 | appending a part to the separated tail adds `, ` and that part at the end |
| ListSpec.JoinAgrees | include/list/XArrayList.h:400-414 | the join built by appending at the end equals the front-to-back reference: the first part, then `, ` before each later part |
| ListSpec.RenderFrontToBack | include/list/XArrayList.h:396-417 | `toString` is `[`, the rendered elements read front to back with `, ` between them, then `]` |
| ListSpec.RenderSnoc | include/list/DLinkedList.h:663-679 | rendering one more element appends `, ` and its text, with no separator before the first element |
| ListSpec.RenderStep | include/list/XArrayList.h:400-414 | one loop step: given the text for the first `i` elements (plus `, ` once one is written), appending the next rendered element gives the text for `i + 1` |
| ArrayList.GrownCapacity | include/list/XArrayList.h:437-443 | the doubling loop stops at a capacity above `index`; it is the starting capacity when that is already enough, and otherwise at most twice the index |
| ArrayList.ZeroCapacityNeverGrows | include/list/XArrayList.h:247-258 | from capacity 0, after any number of rounds of the doubling loop the capacity still does not exceed any accepted index, so the loop never exits; and `add`'s growth step leaves no slot for the write at `data[count]` |
| ArrayList.PositiveCapacityGrows | include/list/XArrayList.h:439-443 | from a positive capacity, finitely many doublings reach the capacity `ensureCapacity` settles on |
| ArrayList.XArrayList.constructor | include/list/XArrayList.h:155-165 | an empty list with the given equality and a buffer of exactly `capacity` slots |
| ArrayList.XArrayList.Copy | include/list/XArrayList.h:201-213 | a fresh buffer with the same elements, capacity and equality |
| ArrayList.XArrayList.Assign | include/list/XArrayList.h:216-232 | afterwards the list holds the other list's elements, capacity and equality; self-assignment keeps the buffer |
| ArrayList.XArrayList.Reallocate | include/list/XArrayList.h:249-256 | a fresh buffer of the new capacity holding the same elements |
| ArrayList.XArrayList.Add | include/list/XArrayList.h:245-260 | the contents become `old + [e]`; the capacity doubles exactly when the buffer was full; the buffer is the old one or a fresh one |
| ArrayList.XArrayList.Insert | include/list/XArrayList.h:263-286 | fails exactly when `index < 0 or index > count`, and then nothing changes; otherwise `e` is inserted at `index` and the capacity doubles exactly when the buffer was full; the buffer is the old one or a fresh one |
| ArrayList.XArrayList.RemoveAt | include/list/XArrayList.h:289-302 | fails exactly outside `[0, count)`, and then nothing changes; otherwise returns `old[index]` and removes it; capacity and buffer are unchanged |
| ArrayList.XArrayList.RemoveItem | include/list/XArrayList.h:305-327 | returns true exactly when some element matches; the contents lose the first match only |
| ArrayList.XArrayList.Empty | include/list/XArrayList.h:330-340 | true exactly when the contents are empty |
| ArrayList.XArrayList.Size | include/list/XArrayList.h:343-346 | the number of elements |
| ArrayList.XArrayList.Clear | include/list/XArrayList.h:349-355 | no elements and a fresh buffer of capacity 10 |
| ArrayList.XArrayList.Get | include/list/XArrayList.h:358-365 | fails exactly outside `[0, count)`; otherwise the element at `index`; nothing changes |
| ArrayList.XArrayList.IndexOf | include/list/XArrayList.h:368-381 | the first matching position, or -1 (`FirstMatch`) |
| ArrayList.XArrayList.Contains | include/list/XArrayList.h:383-393 | true exactly when some element matches, which is exactly when `indexOf` is not -1 |
| ArrayList.XArrayList.ToString | include/list/XArrayList.h:396-417 | the text `Render(elems)` |
| ArrayList.XArrayList.CheckIndex | include/list/XArrayList.h:423-429 | fails exactly outside `[0, count)` |
| ArrayList.XArrayList.EnsureCapacity | include/list/XArrayList.h:431-456 | fails exactly for a negative index, and then nothing changes; otherwise the capacity becomes `GrownCapacity(old capacity, index)`, which exceeds `index`; the elements are kept, the buffer is untouched when it was already large enough and is otherwise a fresh one |
| ArrayList.XArrayList.Begin | include/list/XArrayList.h:59-62 | an iterator on this list at position 0 |
| ArrayList.XArrayList.End | include/list/XArrayList.h:63-66 | an iterator on this list at position `count` |
| ArrayList.Iterator.constructor | include/list/XArrayList.h:106-110 | the iterator stands at `index` of the given list |
| ArrayList.Iterator.Remove | include/list/XArrayList.h:117-123 | removes the element under the cursor and steps the cursor back one, so the next `++` reaches the element that followed the removed one; the list keeps its buffer, capacity and equality, so further calls and removals can follow; an out-of-range cursor fails and changes nothing |
| ArrayList.Iterator.Current | include/list/XArrayList.h:125-128 | the element under the cursor |
| ArrayList.Iterator.NotEqual | include/list/XArrayList.h:129-132 | true exactly when the cursors differ |
| ArrayList.Iterator.Next | include/list/XArrayList.h:134-145 | the cursor advances by one |
| LinkedList.SpliceIn | include/list/DLinkedList.h:379-390 | the four pointer updates that place a fresh node between two neighbours yield a well-formed chain with the node at that place |
| LinkedList.SpliceOut | include/list/DLinkedList.h:631-634 | pointing a node's two neighbours at each other yields a well-formed chain without that node |
| LinkedList.ListInsert | include/list/DLinkedList.h:392-451 | inserting a fresh node at list position `k` keeps the chain well formed and each node aligned with its element |
| LinkedList.ListRemove | include/list/DLinkedList.h:481-532 | unlinking list position `k` keeps the chain well formed and each remaining node aligned with its element |
| LinkedList.WalkForward | include/list/DLinkedList.h:569-573 | following `next` `steps` times from chain position `i` reaches position `i + steps` |
| LinkedList.WalkBackward | include/list/DLinkedList.h:265-281 | following `prev` `steps` times from chain position `i` reaches position `i - steps` |
| LinkedList.ForwardOrder | include/list/DLinkedList.h:592-603 | the `k`-th node reached from the first node holds the `k`-th element |
| LinkedList.BackwardOrder | include/list/DLinkedList.h:277-287 | the `k`-th node reached backwards from the last node holds the `k`-th element from the end |
| LinkedList.ReachesTail | include/list/DLinkedList.h:662-679 | walking `next` from the head reaches the tail after exactly `count` real nodes and not before |
| LinkedList.LinksAgree | include/list/DLinkedList.h:311-312 | on the chain, `prev[next[n]] == n` and `next[prev[n]] == n` |
| LinkedList.DLinkedList.constructor | include/list/DLinkedList.h:301-313 | an empty list with `head.next == tail` and `tail.prev == head` |
| LinkedList.DLinkedList.Copy | include/list/DLinkedList.h:316-338 | a well-formed list with the same elements and equality |
| LinkedList.DLinkedList.Assign | include/list/DLinkedList.h:341-360 | afterwards the list holds the other list's elements and equality; self-assignment leaves every field, nodes and links included, unchanged |
| LinkedList.DLinkedList.Add | include/list/DLinkedList.h:379-390 | the contents become `old + [e]`, the new node is last, and the chain stays well formed |
| LinkedList.DLinkedList.Link | include/list/DLinkedList.h:401-449 | in each of the three branches, `next` and `prev` change exactly at the new node and its two neighbours at `index` |
| LinkedList.DLinkedList.Insert | include/list/DLinkedList.h:392-451 | fails exactly when `index < 0 or index > count`, and then nothing changes; otherwise inserts `e` at `index` and keeps the list well formed |
| LinkedList.DLinkedList.Unlink | include/list/DLinkedList.h:631-634 | removes that node from the contents and from the chain, changing only its neighbours' links |
| LinkedList.DLinkedList.Detach | include/list/DLinkedList.h:489-525 | in each of the three branches, returns the node at `index` and changes only its neighbours' links |
| LinkedList.DLinkedList.RemoveAt | include/list/DLinkedList.h:482-532 | fails exactly outside `[0, count)`, and then nothing changes; otherwise returns `old[index]`, removes exactly that node and keeps the others in order |
| LinkedList.DLinkedList.Empty | include/list/DLinkedList.h:535-545 | true exactly when the contents are empty |
| LinkedList.DLinkedList.Size | include/list/DLinkedList.h:548-551 | the number of elements |
| LinkedList.DLinkedList.Clear | include/list/DLinkedList.h:554-560 | no elements, with `head.next == tail` and `tail.prev == head` |
| LinkedList.DLinkedList.Get | include/list/DLinkedList.h:563-576 | fails exactly outside `[0, count)`; otherwise the element at `index`; nothing changes |
| LinkedList.DLinkedList.IndexOf | include/list/DLinkedList.h:579-605 | the first matching position, or -1 (`FirstMatch`) |
| LinkedList.DLinkedList.Contains | include/list/DLinkedList.h:644-654 | true exactly when some element matches, which is exactly when `indexOf` is not -1 |
| LinkedList.DLinkedList.RemoveItem | include/list/DLinkedList.h:608-641 | returns true exactly when some element matches and then unlinks the first matching node only; otherwise nothing changes |
| LinkedList.DLinkedList.ToString | include/list/DLinkedList.h:657-682 | the text `Render(elems)`, the same text `XArrayList` produces |
| LinkedList.DLinkedList.ContainsArray | include/list/DLinkedList.h:58-67 | true exactly when the array has an entry for every element and each element equals the entry at its position; the walk stops at the first mismatch |
| LinkedList.DLinkedList.Begin | include/list/DLinkedList.h:79-82 | a forward iterator at the first chain position after the head |
| LinkedList.DLinkedList.End | include/list/DLinkedList.h:83-86 | a forward iterator at the tail |
| LinkedList.DLinkedList.BBegin | include/list/DLinkedList.h:88-91 | a backward iterator at the last real node's position (the head when empty) |
| LinkedList.DLinkedList.BEnd | include/list/DLinkedList.h:92-95 | a backward iterator at the head |
| LinkedList.Iterator.constructor | include/list/DLinkedList.h:143-160 | stands on `head.next` for `begin`, else on the tail |
| LinkedList.Iterator.Remove | include/list/DLinkedList.h:168-178 | removes the current node from the contents and the chain, then stands on its predecessor, whose `next` is now the removed node's successor; the list keeps its equality |
| LinkedList.Iterator.Current | include/list/DLinkedList.h:180-183 | the element of the current node |
| LinkedList.Iterator.NotEqual | include/list/DLinkedList.h:184-187 | true exactly when the iterators stand on different nodes: always for two different lists, and for one list exactly when their chain positions differ |
| LinkedList.Iterator.Next | include/list/DLinkedList.h:189-200 | moves to the successor, one chain position on |
| LinkedList.BWDIterator.constructor | include/list/DLinkedList.h:210-235 | stands on `tail.prev` for `begin`, else on the head |
| LinkedList.BWDIterator.Remove | include/list/DLinkedList.h:242-254 | removes the current node from the contents and the chain, then stands on its successor, whose `prev` is now the removed node's predecessor; the list keeps its equality |
| LinkedList.BWDIterator.Current | include/list/DLinkedList.h:255-258 | the element of the current node |
| LinkedList.BWDIterator.NotEqual | include/list/DLinkedList.h:260-263 | true exactly when the iterators stand on different nodes: always for two different lists, and for one list exactly when their chain positions differ |
| LinkedList.BWDIterator.Next | include/list/DLinkedList.h:277-287 | `++` moves to the predecessor, one chain position back |
| LinkedList.BWDIterator.Prev | include/list/DLinkedList.h:265-276 | `--` also moves to the predecessor, exactly as `++` does |

## Left out

- Memory management is not modelled: `new`/`delete`, the destructors and the static `free` helpers. A fresh buffer is a new Dafny array. A freed linked node drops out of the chain, keeps its arena entries and is never read again.
- The `deleteUserData` callback and `setDeleteUserDataPtr` are omitted in both classes, including where the copy operations copy that pointer. The callback's effect on user data cannot be specified.
- The `removeItemData` argument is omitted everywhere. `removeItem` never calls it, and the iterators' `remove` passes the removed element to a user callback whose effect cannot be specified.
- `println` is omitted because it only writes `toString` to the console.
- The default `operator<<` rendering of `T` is folded into the `render` parameter.
- `XArrayList::copyFrom` and `removeInternalData` are omitted. `copyFrom` calls `removeInternalData`, nothing else in the class calls either of them, and both depend on the delete callback.
- `DLinkedList::copyFrom` is never called, and its loop tests its own `tail` instead of the source list's, so it has no contract to state. `getPreviousNodeOf` and `removeInternalData` are also never called.
- The iterators' `operator=` is not modelled. The postfix `++`/`--` behave like the prefix forms and are modelled by `Next`/`Prev`.
- Iterators built over a null list pointer are not modelled.
- `get` returns the element's value. Writing through the returned `T&` reference is not modelled.
- 32-bit `int` overflow of `count`, `capacity` or doubling is not modelled, because Dafny integers are unbounded.
- ArrayList.Iterator.Current: requires a cursor in `[0, count)`. The source reads `data[cursor]` unchecked.
- LinkedList.DLinkedList.ContainsArray: requires that the array is at least as long as the list or has a mismatching entry within its length. The source never consults `size`, so an array shorter than the list whose every entry matches the list's prefix is read past its end.
- LinkedList.Iterator.Remove: requires the iterator to stand on a real node. On the head or the tail the source follows a null pointer.
- LinkedList.Iterator.Current: requires a real node. On the head or the tail the source returns the sentinel's own `data`, which holds no user element, only a default-constructed or uninitialised value.
- LinkedList.BWDIterator.Remove: requires a real node. On the head or the tail the source follows a null pointer, as the forward `remove` does.
- LinkedList.BWDIterator.Current: requires a real node, because a sentinel's `data` holds no user element either.
- LinkedList.Iterator.Next: requires the iterator not to be at the tail, whose `next` is null.
- LinkedList.BWDIterator.Next: requires the iterator not to be at the head, whose `prev` is null.
- LinkedList.BWDIterator.Prev: requires the iterator not to be at the head, for the same reason.
- ArrayList.XArrayList.constructor: requires a positive capacity; see Findings.

## Findings

| source | as written | input that shows it | evidently intended | confidence | as-written member | corrected member |
|---|---|---|---|---|---|---|
| include/list/XArrayList.h:155-165 | the constructor accepts any `capacity`, and growth only ever doubles it (lines 249, 271, 442) | `XArrayList<int> l(0, 0, 0); l.add(1);`: `count == capacity == 0`, doubling leaves the capacity at 0, and `data[0] = e` writes past a zero-length buffer; `ensureCapacity(0)` on that list never leaves its loop | a positive capacity, so that doubling always makes room | not executed | ArrayList.ZeroCapacityNeverGrows | ArrayList.PositiveCapacityGrows |

# custom::list in Dafny

A model of `custom::list<T>` from `list.h`: a doubly-linked list. Each
element lives in a heap `Node` holding `data` and the links `pNext` and
`pPrev`. The list object holds `pHead`, `pTail` and `numElements`. An
`iterator` wraps one node pointer, and `end()` is the null pointer.

The model lives in module `CustomList` (`list.dfy`):

- `Node<T>` is a class with fields `data`, `next` and `prev`.
- `List<T>` is a class with fields `numElements`, `head` and `tail`, and the
  ghost view `Nodes` (the chain from head to tail) and `Contents` (the
  elements it holds).
- `Valid()` is the object invariant:
  - no node occurs twice in the chain;
  - each node holds its element;
  - `next` and `prev` link consecutive nodes both ways;
  - the chain ends in null at both ends;
  - head, tail and the count agree with the chain.
- `Iterator<T>` is a datatype around a `Node?<T>`.
- `Pos(it)` is the index an iterator denotes, and `|Nodes|` for `end()`.

Every operation that changes the list is a method whose `modifies` clause
names at most the list objects involved and the nodes they own. `Clear`
writes only the list object. `Move`, `MoveAssign` and `Swap` write only the
list objects and touch no node. The others name `this` and its `Nodes`. Each
contract states the new `Contents` and `Nodes` in terms of the old ones, and
that `Valid()` still holds.

The header declares every operation, but most of its bodies are stubs. Some
are empty. Others return `end()` or `*(new T)`, or store placeholder values.
For those operations the model follows the algorithm written in the
source's comments, or the header comment where there is no algorithm. Each
such deviation is noted in a comment beside the Dafny member.

Module `ListScenarios` (`scenarios.dfy`) applies the operations to lists
it builds itself. It covers ordering, copy independence, a move draining
its source, the insert/erase round trip, popping to empty, swap, clearing
twice, and the three cases of assignment.

## Model

| member | source | states |
|---|---|---|
| CustomList.Inserted | list.h:535-555 | the sequence after inserting `x` before index `k`: `x` at `k`, elements before `k` kept, elements from `k` shifted up by one |
| CustomList.Removed | list.h:522-533 | the sequence after erasing index `k`: elements before `k` kept, elements after `k` shifted down by one |
| CustomList.RemovedInserted | list.h:522-555 | erasing the element just inserted at `k` gives back the original sequence |
| CustomList.InsertedRemoved | list.h:522-555 | re-inserting an erased element at its old index gives back the original sequence |
| CustomList.Node.constructor | list.h:138-145 | a new node holds the given data and has no neighbours |
| CustomList.Iterator.Equals | list.h:175 | `operator==` holds exactly when the two iterators are the same value, that is, hold the same node pointer |
| CustomList.Iterator.NotEquals | list.h:174 | `operator!=` holds exactly when `operator==` does not |
| CustomList.List.IsChain | list.h:151-153 | the chain invariant on the nodes' `data`, `pNext` and `pPrev`; an empty chain holds exactly the empty contents, and a one-node chain is exactly one node holding the one element with both links null |
| CustomList.List.Valid | list.h:114-117 | the object invariant tying `numElements`, `pHead` and `pTail` to the chain; on a valid list the count is the number of elements, head and tail are null exactly when it is empty, and head and tail hold the first and last elements |
| CustomList.List.Repr | list.h:114-117 | every node of the chain belongs to the set of nodes the list owns |
| CustomList.List.Pos | list.h:67-69 | an iterator's position is the index of its node in the chain, or the length for the null `end()` |
| CustomList.List.LinkInvariants | list.h:114-117 | on a valid list: count 0 iff head null iff tail null; count 1 iff head == tail, which then has no neighbours; head has no prev and tail no next; every owned node's next and prev are owned nodes linking back to it |
| CustomList.List.IteratorEquality | list.h:174-175 | two iterators are `==` exactly when they denote the same position, and `!=` exactly when they do not |
| CustomList.List.constructor | list.h:303-308 | a new list has count 0, null head and tail, and no elements |
| CustomList.List.Fill | list.h:237-248 | `num` fresh nodes, every element equal to `t`, count `num`, chain linked both ways with null ends |
| CustomList.List.LinkAfter | list.h:241-244 | one step of the fill loop: a fresh node holding `t` is linked after the last node of a chain, which stays a chain one longer |
| CustomList.List.Range | list.h:257-287 | pushing back each source element in order gives contents equal to the source and count equal to its length, all nodes fresh |
| CustomList.List.Copy | list.h:313-319 | a new list owning fresh nodes, with the same contents as `rhs` |
| CustomList.List.Move | list.h:325-335 | the new list adopts `rhs`'s head, tail, count, nodes and contents unchanged, and `rhs` ends with null head and tail, count 0 and no nodes |
| CustomList.List.MoveAssign | list.h:344-349 | after clear-then-swap the list holds `rhs`'s former chain and `rhs` is empty; a self-move leaves the list empty |
| CustomList.List.Assign | list.h:358-362 | contents become `rhs`'s; `rhs` stays valid and unchanged; any new nodes are fresh |
| CustomList.List.AssignSeq | list.h:374-396 | contents become `rhs` with count `|rhs|`; the first nodes are reused in place, and the chain is truncated when `rhs` is shorter and extended with fresh nodes when it is longer |
| CustomList.List.SetData | list.h:378 | `*itLHS <- *itRHS`: overwriting the data of the node at index `k` keeps the chain, with element `k` replaced |
| CustomList.List.FillExisting | list.h:375-380 | the first `min(|rhs|, count)` elements are overwritten in place, the rest and every link unchanged; returns that count and the first node not overwritten |
| CustomList.List.AddNew | list.h:381-384 | the remaining values are appended after the existing nodes, which stay in place |
| CustomList.List.RemoveExtra | list.h:387-396 | the nodes from index `i` on are dropped, and the node before them becomes the tail with a null next |
| CustomList.List.Clear | list.h:409-429 | afterwards head and tail are null, count 0, no nodes; the final state does not depend on the initial one, so a second clear changes nothing |
| CustomList.List.PushBack | list.h:431-448 | contents gain `data` at the end; the chain gains one fresh node as the new tail, with the old nodes in order |
| CustomList.List.PushFront | list.h:450-467 | contents gain `data` at the front; the chain gains one fresh node as the new head, with the old nodes in order |
| CustomList.List.PopBack | list.h:470-481 | on a non-empty list, exactly the last element and node are removed |
| CustomList.List.PopFront | list.h:483-494 | on a non-empty list, exactly the first element and node are removed |
| CustomList.List.Front | list.h:496-507 | on a non-empty list, returns the first element |
| CustomList.List.Back | list.h:509-520 | on a non-empty list, returns the last element |
| CustomList.List.Insert | list.h:535-555 | contents become `Inserted(old, Pos(it), data)`; the result points to a fresh node at that position; the other nodes keep their order |
| CustomList.List.LinkBefore | list.h:535-555 | the interior case of insert: a fresh node is spliced into the chain at index `k` |
| CustomList.List.Splice | list.h:535-555 | the relinking of an interior insert: after it, the chain with a fresh node holding `data` at index `k` is again a chain |
| CustomList.List.Erase | list.h:522-533 | contents and chain become `Removed(old, Pos(it))`; the result is the erased node's old next, which denotes the same position, and is `end()` when the tail was erased |
| CustomList.List.Unlink | list.h:522-533 | the relinking of erase: after the node at index `k` is bypassed, the chain without it is again a chain |
| CustomList.List.Begin | list.h:67 | `begin()` denotes position 0 |
| CustomList.List.End | list.h:69 | `end()` denotes the position after the last element |
| CustomList.List.Get | list.h:177-181 | dereferencing a non-end iterator yields the element at its position |
| CustomList.List.Next | list.h:191-196 | stepping forward from a non-end iterator moves one position on, to `end()` after the tail |
| CustomList.List.Prev | list.h:207-213 | stepping backward from a non-first node moves one position back, to a node |
| CustomList.List.Size | list.h:103 | `size()` is the number of elements |
| CustomList.List.Empty | list.h:102 | `empty()` holds exactly when there are no elements |
| CustomList.List.EmptyAsWritten | list.h:102 | `empty()` as written, `return numElements;` converted to `bool`; on a list with count 0 it answers false |
| CustomList.List.EmptyAsWrittenInverted | list.h:102 | the `empty()` as written is true exactly when the intended `empty()` is false |
| CustomList.List.Values | list.h:115-117 | a forward traversal along `next` visits exactly the elements in order, and as many as the count |
| CustomList.List.ReverseValues | list.h:68 | a backward traversal from the tail along `prev` visits exactly the elements in reverse order |
| CustomList.Swap | list.h:564-580 | the lists exchange head, tail, count, nodes and contents, both stay valid, and no node is created or relinked |
| ListScenarios.PushBackOrder | list.h:431-448 | push_back of a, b, c, then a forward traversal, yields a, b, c |
| ListScenarios.PushFrontOrder | list.h:450-467 | push_front of a, b, c, then a forward traversal, yields c, b, a |
| ListScenarios.CopyIndependence | list.h:313-319 | pushing 4 onto a copy of [1, 2, 3] leaves the original [1, 2, 3] |
| ListScenarios.MoveDrainsSource | list.h:325-335 | moving [1, 2, 3] gives [1, 2, 3] and leaves the source empty with size 0 |
| ListScenarios.InsertEraseRoundTrip | list.h:522-555 | inserting 99 before 2 in [1, 2, 3] gives [1, 99, 2, 3]; erasing it gives [1, 2, 3] and returns an iterator to 2 |
| ListScenarios.PopBackToEmpty | list.h:470-481 | popping [1, 2] twice leaves `begin() == end()` and null head and tail |
| ListScenarios.SwapExchanges | list.h:564-580 | swapping [1, 2] and [9] gives [9] and [1, 2], each list holding the other's former head and tail |
| ListScenarios.ClearTwice | list.h:409-429 | clear, and clear again, both leave the list empty with null head and tail |
| ListScenarios.AssignShorter | list.h:385-396 | assigning [7, 8] to [1, 2, 3] keeps the first two nodes and makes the second the tail |
| ListScenarios.AssignLonger | list.h:374-384 | assigning [7, 8, 9] to [1] keeps the old node as head, followed by two further distinct nodes |
| ListScenarios.AssignEmpty | list.h:385-386 | assigning the empty sequence leaves an empty list |

## Left out

- Memory reclamation: `new`/`delete` as memory events, the destructor's release of every node, `std::allocator`, and `bad_alloc` with its all-or-nothing guarantee. The model is garbage-collected, and a node leaves the list by dropping out of `Nodes`.
- `list(size_t num)`, the value-initialising constructor: Dafny has no default value for an arbitrary `T`. `Fill` with an explicit value covers the same linking.
- Return by reference: `front`, `back` and `operator*` return the element by value. Writing through the returned reference is not modelled.
- The `#ifdef DEBUG` visibility switch and `iostream`.
- The template range source and `std::initializer_list` are modelled as a `seq<T>`. Lazy consumption of a range is not modelled.
- `rbegin()`: it only wraps the tail. `ReverseValues` covers the backward traversal that starts there.
- Postfix `++` and `--`: they differ from the prefix forms only in the iterator value they return. Iterators here are values, so `Next` and `Prev` cover both.
- CustomList.List.Next: follows `next` rather than the pointer arithmetic `p++` the source writes, which does not reach the next node of a linked chain.
- CustomList.List.Prev: follows `prev` rather than the source's `if (p > 0) p--`. Stepping back from `end()` is outside its precondition, because the null `end()` holds no node to step from.
- CustomList.List.Range: the source's range constructor also does `numElements++` after each `push_back` (list.h:267-268). With a working `push_back` that would leave the count at twice the number of elements. The initializer-list constructor presets the count to the list's length and starts from one dummy node (list.h:281-282), which would leave an extra element and a doubled count. Neither is modelled: `Range` keeps the count equal to the number of elements, as the header comment intends.
- Size: `numElements` is an unbounded `nat`. The width of `size_t` is not modelled, since no operation comes near it.
- The copy-taking and move-taking overloads of `push_back`, `push_front` and `insert` link identically and are modelled once.
- Iterator invalidation: an iterator to an erased or popped node is not tracked after the operation.
- CustomList.List.PopBack, CustomList.List.PopFront, CustomList.List.Front, CustomList.List.Back: calling these on an empty list is a contract violation that must fail fast, so it is a precondition rather than a modelled error path.

## Findings

| source | as written | input that shows it | evidently intended | confidence | as-written member | corrected member |
|---|---|---|---|---|---|---|
| list.h:102 | `empty()` returns `numElements` converted to `bool`, which is true exactly when the list has elements | an empty list: `empty()` yields false; a list holding one element: it yields true | true exactly when the count is 0 | high; not executed | CustomList.List.EmptyAsWritten (with CustomList.List.EmptyAsWrittenInverted) | CustomList.List.Empty |

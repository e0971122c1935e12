# collections-plus linked lists in Dafny

A verified model of the two sentinel-based linked lists of the Python package
`collections_plus`:

- `LinkedList` (`src/collections_plus/linked_list.py`) is singly linked. It has
  one head sentinel, a cached `_tail` and a `_length` that every operation
  keeps up to date.
- `DoublyLinkedList` (`src/collections_plus/doubly_linked_list.py`) has a head
  sentinel and a tail sentinel. They are linked to each other when the list is
  empty, and the real nodes between them are linked both ways.

Nodes are Dafny objects whose `value`, `next` and `prev` fields the methods
update in place. Each list class carries three ghost fields:

- `Contents`, the elements in order;
- `Nodes`, the chain of node objects, sentinels included;
- `Repr`, the objects the list owns.

`Valid()` ties these ghost fields to the real fields. The chain from the head
sentinel is unbroken and ends properly: in `null` for the singly-linked list,
at the tail sentinel for the doubly-linked one. Every `prev` link mirrors a
`next` link. No node occurs twice. `length == |Contents|`. Each operation
takes `Valid()` as its precondition and keeps it. Each operation also states
its new `Contents` in terms of the old one, through the specification
functions `RemoveAt`, `InsertAt` and `Reversed` of module `Sequences`. The
laws relating those functions are proved as lemmas.

The modules are:

- `Results`: `Option`, `Result`, `Outcome` and the `IndexError` raised by the
  lists.
- `IndexValidation`: the bounds check and normalisation of `index_into`.
- `Sequences`: the specification functions and their laws.
- `SinglyLinked`: the `LinkedList` class.
- `DoublyLinked`: the `DoublyLinkedList` class.

A raised `IndexError` is modelled as an `Err`/`Failed` result. Its message is
the one the source uses. When an operation fails, the contract says that no
object of the list changed.

Where the code and its evident intent disagree, the model follows the intent:

- `LinkedList.__init__` is declared as
  `def __init__(self, *values: ... = tuple())`
  (`src/collections_plus/linked_list.py:42`). A var-positional parameter
  cannot have a default value in Python, so the module does not compile as
  written. Neither does `doubly_linked_list.py`, which imports it
  (`src/collections_plus/doubly_linked_list.py:20`). The model leaves out
  the invalid default and takes the argument tuple as the sequence
  `values`.
- The `index_into` wrapper calls the decorated method as
  `func(prev_node, node, ...)`, without `self`
  (`src/collections_plus/linked_list.py:74`). Yet the decorated methods take
  `self` first (`src/collections_plus/linked_list.py:88,95,102`). The model
  passes the located pair of nodes to the operation, as intended.
- The doubly-linked list decorates its methods with `index_into()` and
  `index_into(max_index_offset=1)`
  (`src/collections_plus/doubly_linked_list.py:83,92,101,113,132`). The
  decorator at `src/collections_plus/linked_list.py:56` takes only the
  function, and it hands on the two nodes, not an index. The model follows
  the intent: the doubly-linked operations receive the normalised index.
  `Normalise(index, length, offset)` serves both lists. Offset 0 gives the
  access range `[-length, length)`; offset 1 gives the insertion range
  `[-length, length]` used by `insert`.
- `DoublyLinkedList` inherits `__len__`, `__iter__` and `__eq__` from
  `LinkedList` (`src/collections_plus/linked_list.py:108-135`). The model
  gives each class its own `Length`, `Iterate` and `Equals`, with the same
  loop.
- `rpop` and `append` are `pop` and `insert` at the end positions: they
  write the same two links in the same order
  (`src/collections_plus/doubly_linked_list.py:167-168,179-180`). `lpop` and
  `lappend` write the `prev` link first and the `next` link second
  (`src/collections_plus/doubly_linked_list.py:153-154,186-187`). The two
  writes touch different fields, so the resulting links are the same in
  every order. The model routes all four through one splice primitive
  (`LinkBefore`) and one unlink primitive (`Unlink`).
- `LinkedList.__delitem__` does not update `_tail`
  (`src/collections_plus/linked_list.py:101-106`). `Valid()` therefore says
  nothing about the cached tail. Instead:
  - the constructor promises that the tail is the last node (`TailIsLast`);
  - `Set` keeps that promise;
  - `Delete` keeps it only when the deleted node is not the last one.

## Model

| member | source | states |
|---|---|---|
| IndexValidation.Normalise | src/collections_plus/linked_list.py:62-67 | accepts exactly the indices in `[-length, length + offset)` and rejects every other one with `IndexError("LinkedList index out of range.")`; an accepted non-negative index is kept, a negative one becomes `index + length`; the result is below `length + offset` |
| IndexValidation.NormaliseReachesEveryPosition | src/collections_plus/linked_list.py:63-67 | every position is the image of its own index, and every element position (below `length`) is also the image of that index minus `length`, so normalisation is onto the positions |
| IndexValidation.InsertionModeExtendsAccessMode | src/collections_plus/doubly_linked_list.py:113 | an index valid for access is valid for insertion and normalises to the same position |
| IndexValidation.InsertionModeAddsOnlyLength | src/collections_plus/doubly_linked_list.py:113 | the only index insertion accepts beyond the access range is `length`, which normalises to `length` (append) |
| Sequences.RemoveAt | src/collections_plus/linked_list.py:101-106 | the result is one shorter, keeps the elements before `i` and shifts those after it down by one |
| Sequences.InsertAt | src/collections_plus/doubly_linked_list.py:113-124 | the result is one longer, holds `v` at `i`, keeps the elements before `i` and shifts the others up by one |
| Sequences.ReversedIndex | src/collections_plus/doubly_linked_list.py:126-130 | position `k` of the reversal holds the `k`-th element from the end |
| Sequences.ReversedReversed | src/collections_plus/doubly_linked_list.py:126-130 | reversing twice gives the sequence back |
| Sequences.ReversedConcat | src/collections_plus/doubly_linked_list.py:126-130 | reversal turns a concatenation around |
| Sequences.RemoveAfterInsert | src/collections_plus/doubly_linked_list.py:113-143 | removing the element just inserted at `i` restores the sequence |
| Sequences.InsertAfterRemove | src/collections_plus/doubly_linked_list.py:101-124 | putting a removed element back at its position restores the sequence |
| Sequences.EndsAreInsertions | src/collections_plus/doubly_linked_list.py:173-188 | appending and prepending are insertions at `|s|` and at 0 |
| Sequences.EndsAreRemovals | src/collections_plus/doubly_linked_list.py:145-171 | dropping the first or the last element is removal at 0 or at `|s| - 1` |
| Sequences.DistinctRemoveAt | src/collections_plus/linked_list.py:101-106 | removing a node from a repetition-free chain leaves it repetition-free |
| Sequences.DistinctInsertAt | src/collections_plus/doubly_linked_list.py:113-124 | inserting a node not yet in a repetition-free chain leaves it repetition-free |
| SinglyLinked.BypassedChain | src/collections_plus/linked_list.py:101-106 | once the node before position `i` is linked to the successor of the node at `i`, what remains is a valid chain of the contents without element `i`, including when the last element or the only element goes |
| SinglyLinked.Bypass | src/collections_plus/linked_list.py:102-104 | `prev_node.next = node.next` turns a chain into the chain without that node |
| SinglyLinked.Overwrite | src/collections_plus/linked_list.py:94-99 | writing one node's value changes that element of the chain only |
| SinglyLinked.LinkedListNode.constructor | src/collections_plus/linked_list.py:28-30 | the node's `value` and `next` are the arguments; the source's default `next=None` is passed explicitly as `null` |
| DoublyLinked.DoublyLinkedListNode.constructor | src/collections_plus/doubly_linked_list.py:33-39 | the node's `value`, `next` and `prev` are the arguments; the source's defaults `next=None` and `prev=None` are passed explicitly as `null` |
| SinglyLinked.LinkedList.constructor | src/collections_plus/linked_list.py:42-53 | builds the chain in argument order; the length is the argument count, and the cached tail is the last node (the head sentinel when there are no arguments) |
| SinglyLinked.LinkedList.IndexInto | src/collections_plus/linked_list.py:56-76 | succeeds exactly for indices in `[-length, length)` and fails with the out-of-range `IndexError` otherwise; on success it returns the node at the normalised position and its predecessor (the head sentinel for position 0) |
| SinglyLinked.LinkedList.Get | src/collections_plus/linked_list.py:87-92 | returns `Contents[i]` at the normalised position, or the `IndexError` |
| SinglyLinked.LinkedList.Set | src/collections_plus/linked_list.py:94-99 | replaces element `i` only; nodes, links, length and tail stay as they were; out of range nothing changes |
| SinglyLinked.LinkedList.Delete | src/collections_plus/linked_list.py:101-106 | the new contents are the old without element `i`, and the length drops by one; the chain stays valid; the cached tail stays the last node unless the last node was deleted; out of range nothing changes |
| SinglyLinked.LinkedList.UnlinkAfter | src/collections_plus/linked_list.py:102-105 | bypasses the node at position `i` and decrements the length: contents and nodes lose position `i` |
| SinglyLinked.LinkedList.Length | src/collections_plus/linked_list.py:108-109 | returns the number of elements |
| SinglyLinked.LinkedList.Iterate | src/collections_plus/linked_list.py:114-121 | yields exactly `length` values, from `_head.next` onward in order: the contents |
| SinglyLinked.LinkedList.Equals | src/collections_plus/linked_list.py:123-135 | true exactly when both lists hold the same elements in the same order |
| SinglyLinked.IterateTwice | src/collections_plus/linked_list.py:114-121 | iterating an unmodified list twice gives the same values both times |
| DoublyLinked.BypassedChain | src/collections_plus/doubly_linked_list.py:101-111 | once the neighbours of position `i` are joined both ways, the rest is a valid two-sentinel chain of the contents without element `i` |
| DoublyLinked.SplicedChain | src/collections_plus/doubly_linked_list.py:113-124 | once a new node is linked both ways between positions `i` and `i + 1`, the result is a valid chain of the contents with the value inserted at `i` |
| DoublyLinked.ClosedChain | src/collections_plus/doubly_linked_list.py:63-65 | linking the last node and the tail sentinel to each other completes the chain |
| DoublyLinked.BuildChain | src/collections_plus/doubly_linked_list.py:54-65 | builds head, the values in argument order, tail, each node linked both ways to its neighbours |
| DoublyLinked.Splice | src/collections_plus/doubly_linked_list.py:119-122 | the new node, pointing to `node` and to its predecessor, becomes the successor of one and the predecessor of the other, giving the chain with the value inserted |
| DoublyLinked.Bypass | src/collections_plus/doubly_linked_list.py:107-109 | `node.prev.next = node.next; node.next.prev = node.prev` gives the chain without that node |
| DoublyLinked.Overwrite | src/collections_plus/doubly_linked_list.py:92-99 | writing one node's value changes that element of the chain only |
| DoublyLinked.DoublyLinkedList.constructor | src/collections_plus/doubly_linked_list.py:54-65 | builds head, the values in order, tail, with `prev` mirroring `next` throughout; the length is the argument count |
| DoublyLinked.DoublyLinkedList.RetrieveNode | src/collections_plus/doubly_linked_list.py:67-81 | for `0 <= i <= length` returns the node at position `i`, the tail sentinel when `i == length`, whichever branch the walk takes |
| DoublyLinked.DoublyLinkedList.LinkBefore | src/collections_plus/doubly_linked_list.py:119-123 | the splice: a fresh node with the value goes before position `i`; contents and nodes gain it at `i`; sentinels stay put; the chain stays valid |
| DoublyLinked.DoublyLinkedList.Unlink | src/collections_plus/doubly_linked_list.py:107-110 | the unlink: contents and nodes lose position `i`, sentinels stay put, and the chain stays valid |
| DoublyLinked.DoublyLinkedList.Get | src/collections_plus/doubly_linked_list.py:83-90 | returns `Contents[i]` at the normalised position, or the out-of-range `IndexError` |
| DoublyLinked.DoublyLinkedList.Set | src/collections_plus/doubly_linked_list.py:92-99 | replaces element `i` only; nodes, links and length stay as they were; out of range nothing changes |
| DoublyLinked.DoublyLinkedList.Delete | src/collections_plus/doubly_linked_list.py:101-111 | removes exactly element `i` and node `i`; the length drops by one; out of range nothing changes |
| DoublyLinked.DoublyLinkedList.Insert | src/collections_plus/doubly_linked_list.py:113-124 | accepts exactly `[-length, length]`; inserts the value before the element at the normalised position, so `insert(length, v)` appends; the length grows by one; any other index is rejected and nothing changes |
| DoublyLinked.DoublyLinkedList.Pop | src/collections_plus/doubly_linked_list.py:132-143 | returns element `i` and removes exactly it; out of range returns the `IndexError` and nothing changes |
| DoublyLinked.DoublyLinkedList.LPop | src/collections_plus/doubly_linked_list.py:145-157 | on an empty list returns `IndexError("Cannot pop from empty DoubleLinkedList.")` and changes nothing; otherwise returns the first element and leaves the rest |
| DoublyLinked.DoublyLinkedList.RPop | src/collections_plus/doubly_linked_list.py:159-171 | on an empty list returns the same `IndexError` and changes nothing; otherwise returns the last element and leaves the rest |
| DoublyLinked.DoublyLinkedList.Append | src/collections_plus/doubly_linked_list.py:173-181 | the new contents are `Contents + [v]`; the chain, sentinels included, stays valid |
| DoublyLinked.DoublyLinkedList.LAppend | src/collections_plus/doubly_linked_list.py:183-188 | the new contents are `[v] + Contents`; the chain, sentinels included, stays valid |
| DoublyLinked.DoublyLinkedList.Length | src/collections_plus/linked_list.py:108-109 | returns the number of elements |
| DoublyLinked.DoublyLinkedList.Iterate | src/collections_plus/linked_list.py:114-121 | yields exactly `length` values from the head onward: the contents |
| DoublyLinked.DoublyLinkedList.Reverse | src/collections_plus/doubly_linked_list.py:126-130 | yields exactly `length` values from `_tail.prev` backward: the contents reversed |
| DoublyLinked.DoublyLinkedList.Equals | src/collections_plus/linked_list.py:123-135 | true exactly when both lists hold the same elements in the same order |

## Left out

- The `TypeError` for a non-integer index (`src/collections_plus/linked_list.py:63-64`) is not modelled: Dafny's `int` parameter type rules such an index out.
- The `TypeError` that `__eq__` raises when `other` is not of the same class (`src/collections_plus/linked_list.py:128-129`) is not modelled: the static type of `other` rules it out. The asymmetry between a class and its subclass is not modelled either.
- Python `!=` on elements is modelled as Dafny equality. A user-defined `__eq__` on the stored values is not modelled.
- `__repr__` and `__str__` (`src/collections_plus/linked_list.py:78-85`, `src/collections_plus/doubly_linked_list.py:41-42`) are left out: they only format text.
- The methods that only raise `NotImplementedError` are left out: `__lt__`, `__le__`, `__hash__`, and `LinkedList`'s `pop`, `append`, `extend`, `count`, `index`, `insert`, `remove`, `copy`, `__add__`, `__mul__` (`src/collections_plus/linked_list.py:139-178`). `__length_hint__` is also left out (`src/collections_plus/linked_list.py:111-112`). None of them has behaviour to model.
- Generators are modelled as methods that return the whole sequence. Laziness, and mutation during iteration, are not modelled.
- `del node`, the `functools.wraps` import and the decorator mechanics are left out. They are name handling with no effect on the lists.
- Running time is left out, including the advantage of walking from the nearer end in `_retrieve_node`. Only the node that the walk reaches is modelled.
- The count kept in the constructors is a local that is stored into `length` at the end. In the source, `self._length` is incremented directly; the two are the same once the constructor returns.
- SinglyLinked.LinkedList.Delete: does not promise that the cached tail is the last node after the last node is deleted, because the source leaves `_tail` pointing at the removed node.

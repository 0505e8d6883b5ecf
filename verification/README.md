# LinkedList of memory blocks, in Dafny

This project models `LinkedList`, the singly-linked list of `MemoryBlock`
references that a memory-allocator simulator uses for its free and allocated
lists. The list keeps a `first` pointer, a `last` pointer and a `size`
counter. It offers head and tail insertion, and insertion, lookup and removal
by index or by block identity.

## How the model is built

- `MemoryBlock` (module `MemoryBlocks`) is an empty class. The list only
  stores, returns and compares block references, so `==` on `MemoryBlock?` is
  Java's reference comparison, and `null` is allowed where Java allows it.
- Nodes live in an arena (module `Nodes`). A Java `Node` reference is a
  `NodeRef`: either `Null` or `Ref(addr)`, an address into `nodes: seq<Node>`.
  `new Node(block)` appends to the arena (`Alloc`). An assignment `p.next = q`
  rewrites one arena entry (`SetNext`). An unlinked node stays in the arena,
  unreachable, as a Java node does until it is collected.
- A list is the value `LinkedList(first, last, size, nodes)` (module
  `LinkedLists`). Every Java method is a function from the list before the
  call. A query returns the method's result. A mutator returns the list after
  the call. Queries (`getSize`, `getFirst`, `getLast`, `getNode`,
  `getBlock`, `indexOf`, `iterator`, `toString`) return no list, so they
  cannot change the one they read. A thrown exception is
  `Failure(IllegalArgument)` or `Failure(NullPointer)`; since lists are
  values, a failing call leaves the caller's list unchanged.
- The list invariant `Valid` follows `next` from `first` for `size` steps
  (`Spine`). This must visit `size` distinct allocated nodes. Each node links
  to the next one, and the last links to null. `first` and `last` are the two
  ends, and both are null exactly when `size == 0`. `Contents` is the sequence
  of blocks along the spine. Every operation's contract is stated against
  `Contents`, using the reference definitions `Sequences.Insert`,
  `Sequences.Delete` and `Sequences.FirstIndex`.
- The loops of `getNode`, `indexOf` and `toString`, and the walk of the
  iterator, are modelled as tail-recursive walks (`WalkFrom`, `Scan`,
  `ToStringFrom`, `ElementsFrom`). Each one states what it has computed from
  the position it starts at.
- `toString` calls `MemoryBlock.toString`, which is not part of this model.
  It is passed in as the parameter `render`.

Where the code and the documented behaviour differ, the model follows the
code:
- `add(0, null)` fails with IllegalArgumentException, because index 0 goes
  through `addFirst`, which rejects null (lines 86-87, 130-131).
  `add(i, null)` for any other valid index succeeds, and so does
  `addLast(null)`.
- `remove(int)` accepts `index == size` (line 211). This is reported under
  Findings. The rest of the model uses the documented bound.

## Model

| member | source | states |
|---|---|---|
| LinkedLists.Empty | LinkedList.java:13-17 | the new list satisfies the list invariant and holds no blocks |
| LinkedLists.GetSize | LinkedList.java:19-21 | the size counter equals the number of blocks reachable from `first` |
| LinkedLists.GetFirst | LinkedList.java:23-28 | the result is null exactly for an empty list; otherwise it is the head of the chain and holds the first block |
| LinkedLists.GetLast | LinkedList.java:30-35 | the result is null exactly for an empty list; otherwise it is the chain's last node, holds the last block and links to null |
| LinkedLists.WalkFrom | LinkedList.java:52-55 | stepping along `next` from the node at position `i` up to `index` reaches the node at `index`, or null at `index == size` |
| LinkedLists.GetNode | LinkedList.java:47-58 | fails iff `index < 0` or `index > size`; for `index < size` returns the index-th node of the chain; for `index == size` returns null |
| LinkedLists.AddLast | LinkedList.java:108-119 | contents become old contents plus `[block]` (null accepted); size + 1; `last` is the new node; `first` is the new node too when the list was empty and is unchanged otherwise; the invariant is kept |
| LinkedLists.AppendBehindLast | LinkedList.java:113-116 | linking the new node behind `last` of a non-empty list keeps the invariant and appends the block |
| LinkedLists.AddFirst | LinkedList.java:129-145 | fails iff the block is null; otherwise contents become `[block]` plus old contents; size + 1; `first` is the new node; `last` is the new node too when the list was empty and is unchanged otherwise |
| LinkedLists.InsertBehind | LinkedList.java:93-96 | relinking a new node behind position `index - 1` (strictly inside the list) keeps the invariant and puts the block at `index` |
| LinkedLists.Add | LinkedList.java:80-99 | fails iff `index < 0`, `index > size`, or `index == 0` with a null block; otherwise contents become `old[..index] + [block] + old[index..]` and size grows by exactly one on every path; at index 0 the new node becomes `first`, at index `size` it becomes `last`; `first` is unchanged for `index > 0` and `last` is unchanged for `index < size` |
| LinkedLists.GetBlock | LinkedList.java:157-164 | fails iff `index < 0` or `index >= size`; otherwise returns the block at `index` |
| LinkedLists.Scan | LinkedList.java:176-186 | walking from position `index`, returns the first later position holding the block, by reference, or -1 when none does |
| LinkedLists.IndexOf | LinkedList.java:173-187 | the result lies in `[-1, size)` and is the first position holding the block, or -1 when the block is absent |
| LinkedLists.RemoveAt | LinkedList.java:201-229 | under the documented bound: fails iff `index < 0` or `index >= size`; otherwise contents lose position `index` and size drops by one; removing the tail moves `last` to its predecessor, removing another position keeps `last`; removing the only element leaves `first` and `last` null; removing position 0 moves `first` to its successor, removing any other position keeps `first` |
| LinkedLists.RemoveHead | LinkedList.java:215-219 | moving `first` to its successor, and clearing `last` when the list had one node, keeps the invariant and removes position 0 |
| LinkedLists.RemoveBehind | LinkedList.java:220-227 | bypassing position `index` from its predecessor keeps the invariant and removes that position; the removed node is `last` exactly when it was the last position |
| LinkedLists.RemoveAtAsWritten | LinkedList.java:209-229 | the code as written agrees with the documented removal on every index except `index == size`, where it dereferences null |
| LinkedLists.RemoveNode | LinkedList.java:195-199 | a null node fails with NullPointer; otherwise it fails iff the node's block is not in the list, and else removes the first position holding that block, with the same outcome as `remove(index)` at that position |
| LinkedLists.RemoveBlock | LinkedList.java:239-252 | fails iff the block is null or not in the list; otherwise removes its first occurrence and size drops by one, with the same outcome as `remove(index)` at that position |
| LinkedLists.Iterator | LinkedList.java:257-259 | walking from `first` until null yields exactly the list's contents |
| LinkedLists.ToStringFrom | LinkedList.java:266-272 | the loop appends, for each remaining block in order, its text followed by one space |
| LinkedLists.ToString | LinkedList.java:264-273 | the text is each block's text followed by one space, in list order, and empty for an empty list |
| Nodes.TraceOfChain | LinkedList.java:6-8 | for a well-formed chain, following `next` from its head as many times as it is long visits exactly that chain |
| Nodes.InsertAfter | LinkedList.java:94-95 | the relink `new.next = prev.next; prev.next = new` yields a chain with the new node right after `prev`, holding its block there |
| Nodes.Prepend | LinkedList.java:134-141 | a new node linking to the old head yields a chain with the new node first |
| Nodes.DropFirst | LinkedList.java:216 | `first = first.next` leaves a chain of the remaining nodes, starting at the old head's successor |
| Nodes.UnlinkAfter | LinkedList.java:221-223 | `prev.next = toRemove.next` yields the chain without the removed node |
| LinkedListFacts.GetNodeBoundaries | LinkedList.java:47-58 | `getNode(size)` returns null while `getBlock(size)` fails; on a non-empty list `getNode(0)` is `getFirst()` and `getNode(size - 1)` is `getLast()` |
| LinkedListFacts.AddThenGetBlock | LinkedList.java:80-99 | after a successful `add(index, block)`, `getBlock(index)` returns that block |
| LinkedListFacts.AddThenRemoveAt | LinkedList.java:80-99 | after a successful `add(index, block)`, `remove(index)` succeeds and restores the contents and size |
| LinkedListFacts.AddFirstThenRemoveBlock | LinkedList.java:239-252 | `addFirst(block)` followed by `remove(block)` restores the contents |
| LinkedListFacts.IndexOfThenGetBlock | LinkedList.java:173-187 | `indexOf` is -1 exactly when the block is absent, and otherwise `getBlock` at that index returns the same block |
| LinkedListFacts.RemoveOnlyElement | LinkedList.java:215-219 | removing position 0 of a one-element list leaves `first` and `last` null, size 0 and no contents |
| LinkedListFacts.Apply | LinkedList.java:80-252 | any successful call keeps the invariant, and moves size up by one for an insertion and down by one for a removal |
| LinkedListFacts.Run | LinkedList.java:8 | over any sequence of calls, the trace of lists starts at the initial list, each call's successor is that call's result when it succeeds and the unchanged list when it throws, every list in the trace keeps the invariant, the two counts are the numbers of successful insertion and removal calls, and the final size is the initial size plus the insertions minus the removals |
| LinkedListFacts.ScenarioBuild | LinkedList.java:108-187 | from empty, `addLast(A)`, `addLast(B)`, `addFirst(C)` give `[C, A, B]`, size 3 and `indexOf(B) == 2` |
| LinkedListFacts.ScenarioRemove | LinkedList.java:209-229 | from `[C, A, B]`, `remove(1)` gives `[C, B]`, size 2, and `last` is still the node holding B |
| LinkedListFacts.RemovePastEndDiscrepancy | LinkedList.java:211-223 | `remove(size)` as written fails with a null dereference (for example `remove(0)` on an empty list), where the documented bound fails with IllegalArgument |

## Left out

- Integer width: `size` and indices are unbounded. A Java `int` size would wrap
  after 2^31 - 1 insertions; that overflow is not modelled.
- The unused `new Node(block)` at line 85 is not modelled. It has no
  observable effect on the index-0 and index-`size` paths, and in the arena
  it would only add an unreachable node.
- `ListIterator` is not part of this model. `Iterator` assumes an iterator
  started at `first` yields each node's block until it reaches null.
- `Node` and `MemoryBlock` are not part of this model beyond a
  `(block, next)` record and reference identity. The `Node` constructor is
  assumed not to reject a null block, so `addLast(null)` succeeds.
- `MemoryBlock.toString` is the `render` parameter of `ToString`.
- The exception messages are not modelled, only the exception kinds.
- Aliasing by callers is not modelled: a caller that keeps a `Node` from
  `getNode`/`getFirst`/`getLast` and changes its `next` field is outside the
  model. `remove(Node)` receives the node's `(block, next)` record, so a node
  from any list can be passed.
- The O(1)/O(n) cost claims in the comments are not functional behaviour and
  are not modelled.

## Findings

| source | as written | input that shows it | evidently intended | confidence | as-written member | corrected member |
|---|---|---|---|---|---|---|
| LinkedList.java:211 | `remove(int)` rejects only `index < 0 \|\| index > size`, so `index == size` passes the guard and then dereferences null: `first.next` at line 216 on an empty list, `toRemove.next` at line 223 otherwise | `remove(0)` on an empty list, or `remove(size)` on any list | reject `index >= size` with IllegalArgumentException, as the comment at lines 205-207 states | high (not executed) | LinkedLists.RemoveAtAsWritten | LinkedLists.RemoveAt |

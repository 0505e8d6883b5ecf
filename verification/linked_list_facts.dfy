/** Properties that relate several list operations: the boundary behaviour of
    the positional accessors, round trips between insertion, lookup and
    removal, the size bookkeeping over any sequence of calls, and the usage
    scenario of the allocator. */
module LinkedListFacts {
  import opened Wrappers
  import opened MemoryBlocks
  import opened Nodes
  import opened LinkedLists
  import Sequences

  /** `getNode` accepts `index == size` and yields null there, while
      `getBlock` rejects that index; on a non-empty list `getNode(0)` is
      `first` and `getNode(size - 1)` is `last`. */
  lemma GetNodeBoundaries(l: LinkedList)
    requires Valid(l)
    ensures GetNode(l, l.size) == Success(Null)
    ensures GetBlock(l, l.size) == Failure(IllegalArgument)
    ensures l.size > 0 ==> GetNode(l, 0) == Success(GetFirst(l))
    ensures l.size > 0 ==> GetNode(l, l.size - 1) == Success(GetLast(l))
  {
  }

  /** A block added at a valid position is found there by `getBlock`. */
  lemma AddThenGetBlock(l: LinkedList, index: int, block: MemoryBlock?)
    requires Valid(l)
    requires Add(l, index, block).Success?
    ensures GetBlock(Add(l, index, block).value, index) == Success(block)
  {
  }

  /** Removing the position just added restores the contents. */
  lemma AddThenRemoveAt(l: LinkedList, index: int, block: MemoryBlock?)
    requires Valid(l)
    requires Add(l, index, block).Success?
    ensures var r := RemoveAt(Add(l, index, block).value, index);
            && r.Success?
            && Contents(r.value) == Contents(l)
            && r.value.size == l.size
  {
    Sequences.DeleteInsert(Contents(l), index, block);
  }

  /** `addFirst` followed by `remove(block)` of the same block restores the
      contents: the new first position is the first occurrence. */
  lemma AddFirstThenRemoveBlock(l: LinkedList, block: MemoryBlock)
    requires Valid(l)
    ensures var r := AddFirst(l, block);
            && r.Success?
            && RemoveBlock(r.value, block).Success?
            && Contents(RemoveBlock(r.value, block).value) == Contents(l)
  {
    var r := AddFirst(l, block).value;
    assert Contents(r)[0] == block;
    Sequences.FirstIndexUnique(Contents(r), block, 0);
    assert Sequences.Delete(Contents(r), 0) == Contents(l);
  }

  /** `indexOf` finds a block exactly when it is stored, and `getBlock` at the
      index found returns that very block. */
  lemma IndexOfThenGetBlock(l: LinkedList, block: MemoryBlock?)
    requires Valid(l)
    ensures IndexOf(l, block) == -1 <==> block !in Contents(l)
    ensures IndexOf(l, block) != -1 ==> GetBlock(l, IndexOf(l, block)) == Success(block)
  {
  }

  /** Removing the only element empties the list: `first`, `last` null and
      size 0. */
  lemma RemoveOnlyElement(l: LinkedList)
    requires Valid(l)
    requires l.size == 1
    ensures var r := RemoveAt(l, 0);
            && r.Success?
            && r.value.first == Null
            && r.value.last == Null
            && r.value.size == 0
            && Contents(r.value) == []
  {
  }

  /** One call of a list method, as the allocator issues it. */
  datatype Call =
    | AddCall(index: int, block: MemoryBlock?)
    | AddFirstCall(block: MemoryBlock?)
    | AddLastCall(block: MemoryBlock?)
    | RemoveAtCall(index: int)
    | RemoveNodeCall(node: Option<Node>)
    | RemoveBlockCall(block: MemoryBlock?)
  {
    predicate IsInsertion()
    {
      AddCall? || AddFirstCall? || AddLastCall?
    }
  }

  /** The outcome of one call on a valid list. */
  function Apply(l: LinkedList, call: Call): (r: Result<LinkedList>)
    requires Valid(l)
    ensures r.Success? ==> Valid(r.value)
    ensures r.Success? ==> r.value.size == if call.IsInsertion() then l.size + 1 else l.size - 1
  {
    match call
    case AddCall(index, block) => Add(l, index, block)
    case AddFirstCall(block) => AddFirst(l, block)
    case AddLastCall(block) => Success(AddLast(l, block))
    case RemoveAtCall(index) => RemoveAt(l, index)
    case RemoveNodeCall(node) => RemoveNode(l, node)
    case RemoveBlockCall(block) => RemoveBlock(l, block)
  }

  /** The list after one call: the call's result when it succeeds, the list
      as it was when the call throws. */
  function After(l: LinkedList, call: Call): (r: LinkedList)
    requires Valid(l)
    ensures Valid(r)
  {
    match Apply(l, call)
    case Success(l') => l'
    case Failure(_) => l
  }

  /** The number of steps `ls[i]` to `ls[i + 1]` at which `calls[i]` succeeds
      and is an insertion (`insertion`) or a removal (`!insertion`). */
  ghost function Count(ls: seq<LinkedList>, calls: seq<Call>, insertion: bool): (n: nat)
    requires |ls| == |calls| + 1
    requires forall i :: 0 <= i < |ls| ==> Valid(ls[i])
    ensures n <= |calls|
    decreases |calls|
  {
    if |calls| == 0 then 0
    else
      (if Apply(ls[0], calls[0]).Success? && calls[0].IsInsertion() == insertion then 1 else 0)
      + Count(ls[1..], calls[1..], insertion)
  }

  /** Issuing `calls` in order: the list before each call and after the last
      one (a throwing call leaves the list as it was), and the numbers of
      successful insertions and removals. The final size is the initial size
      plus the successful insertions minus the successful removals. */
  function Run(l: LinkedList, calls: seq<Call>): (r: (seq<LinkedList>, nat, nat))
    requires Valid(l)
    ensures |r.0| == |calls| + 1 && r.0[0] == l
    ensures forall i :: 0 <= i < |r.0| ==> Valid(r.0[i])
    ensures forall i {:trigger After(r.0[i], calls[i])} :: 0 <= i < |calls| ==> r.0[i + 1] == After(r.0[i], calls[i])
    ensures r.1 == Count(r.0, calls, true)
    ensures r.2 == Count(r.0, calls, false)
    ensures r.0[|calls|].size + r.2 == l.size + r.1
    decreases |calls|
  {
    if |calls| == 0 then ([l], 0, 0)
    else
      var next := After(l, calls[0]);
      var (rest, inserted, removed) := Run(next, calls[1..]);
      var ls := [l] + rest;
      assert ls[1..] == rest;
            if Apply(l, calls[0]).Success? then
        if calls[0].IsInsertion() then (ls, inserted + 1, removed)
        else (ls, inserted, removed + 1)
      else (ls, inserted, removed)
  }

  /** The usage scenario, first half: starting empty, `addLast(A)`,
      `addLast(B)`, `addFirst(C)` give `[C, A, B]`, size 3, `indexOf(B) == 2`. */
  lemma ScenarioBuild(a: MemoryBlock, b: MemoryBlock, c: MemoryBlock)
    requires a != b && b != c && a != c
    ensures var r := AddFirst(AddLast(AddLast(Empty(), a), b), c);
            && r.Success?
            && Contents(r.value) == [c, a, b]
            && GetSize(r.value) == 3
            && IndexOf(r.value, b) == 2
  {
    var l1 := AddLast(Empty(), a);
    assert Contents(l1) == [a];
    var l2 := AddLast(l1, b);
    assert Contents(l2) == [a, b];
    var l3 := AddFirst(l2, c).value;
    assert Contents(l3) == [c, a, b];
    Sequences.FirstIndexUnique(Contents(l3), b, 2);
  }

  /** The usage scenario, second half: from `[C, A, B]`, `remove(1)` gives
      `[C, B]` with size 2, and `last` is still the node holding B. */
  lemma ScenarioRemove(l: LinkedList, a: MemoryBlock, b: MemoryBlock, c: MemoryBlock)
    requires Valid(l)
    requires Contents(l) == [c, a, b]
    ensures var r := RemoveAt(l, 1);
            && r.Success?
            && Contents(r.value) == [c, b]
            && GetSize(r.value) == 2
            && r.value.last == l.last
            && GetLast(r.value) != Null
            && r.value.nodes[GetLast(r.value).addr].block == b
  {
    var r := RemoveAt(l, 1).value;
    assert Contents(r) == Sequences.Delete([c, a, b], 1) == [c, b];
  }

  /** `remove(size)`: the guard as written lets the index through and the
      removal dereferences null, where the documented bound rejects it with
      an IllegalArgumentException. The empty list is a concrete instance. */
  lemma RemovePastEndDiscrepancy(l: LinkedList)
    requires Valid(l)
    ensures RemoveAtAsWritten(l, l.size) == Failure(NullPointer)
    ensures RemoveAt(l, l.size) == Failure(IllegalArgument)
    ensures RemoveAtAsWritten(Empty(), 0) == Failure(NullPointer)
  {
  }
}

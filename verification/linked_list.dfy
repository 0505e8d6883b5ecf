/** The list of memory blocks of LinkedList.java. A list is a value holding the
    three fields of the Java object (`first`, `last`, `size`) together with the
    arena of nodes it owns. Every public method of the Java class is a function
    from the list before the call to its result: a query returns what the method
    returns, a mutator returns the list after the call, and an exception is a
    `Failure` (the caller keeps the unchanged list). */
module LinkedLists {
  import opened Wrappers
  import opened MemoryBlocks
  import opened Nodes
  import Sequences

  datatype LinkedList = LinkedList(first: NodeRef, last: NodeRef, size: nat, nodes: seq<Node>)

  /** The node addresses reached from `first` by following `next`, at most
      `size` of them. */
  ghost function Spine(l: LinkedList): seq<nat>
  {
    Trace(l.nodes, l.first, l.size)
  }

  /** The list invariant: following `next` from `first` visits exactly `size`
      distinct nodes, the last of which is `last` and links to null; an empty
      list has `first == last == null`. */
  ghost predicate Valid(l: LinkedList)
  {
    var chain := Spine(l);
    && |chain| == l.size
    && Chain(l.nodes, chain)
    && l.first == At(chain, 0)
    && l.last == LastOf(chain)
  }

  /** The memory blocks of the list, from `first` to `last`. */
  ghost function Contents(l: LinkedList): seq<MemoryBlock?>
  {
    Blocks(l.nodes, Spine(l))
  }

  /** A list whose fields describe a chain of nodes is valid, and that chain
      is its spine. */
  lemma ValidFromChain(l: LinkedList, chain: seq<nat>)
    requires Chain(l.nodes, chain)
    requires |chain| == l.size
    requires l.first == At(chain, 0)
    requires l.last == LastOf(chain)
    ensures Valid(l)
    ensures Spine(l) == chain
  {
    TraceOfChain(l.nodes, chain);
  }

  /** One step of a walk: the node at position `i` holds the `i`-th block and
      links to position `i + 1` (null after the last node). */
  lemma Step(l: LinkedList, i: nat)
    requires Valid(l)
    requires i < l.size
    ensures Spine(l)[i] < |l.nodes|
    ensures l.nodes[Spine(l)[i]].next == At(Spine(l), i + 1)
    ensures l.nodes[Spine(l)[i]].block == Contents(l)[i]
    ensures Contents(l)[i..] == [Contents(l)[i]] + Contents(l)[i + 1..]
  {
    var chain := Spine(l);
    assert LinkOk(l.nodes, chain, i);
  }

  /** `new LinkedList()`: no nodes, `first` and `last` null, size 0. */
  function Empty(): (l: LinkedList)
    ensures Valid(l)
    ensures Contents(l) == []
  {
    LinkedList(Null, Null, 0, [])
  }

  /** `getSize()`. */
  function GetSize(l: LinkedList): (n: nat)
    requires Valid(l)
    ensures n == |Contents(l)|
  {
    l.size
  }

  /** `getFirst()`: the node holding the first block, null for an empty list. */
  function GetFirst(l: LinkedList): (r: NodeRef)
    requires Valid(l)
    ensures r == Null <==> Contents(l) == []
    ensures r != Null ==> r.addr < |l.nodes| && l.nodes[r.addr].block == Contents(l)[0]
    ensures r == At(Spine(l), 0)
  {
    if l.first == Null then Null else l.first
  }

  /** `getLast()`: the node holding the last block, which links to null; null
      for an empty list. */
  function GetLast(l: LinkedList): (r: NodeRef)
    requires Valid(l)
    ensures r == Null <==> Contents(l) == []
    ensures r != Null ==> && r.addr < |l.nodes|
                          && l.nodes[r.addr].block == Contents(l)[|Contents(l)| - 1]
                          && l.nodes[r.addr].next == Null
    ensures r == LastOf(Spine(l))
  {
    if l.last == Null then Null
    else
      Step(l, l.size - 1);
      l.last
  }

  /** The `for` loop of `getNode`: from the node at position `i`, step along
      `next` until position `index`. */
  function WalkFrom(l: LinkedList, current: NodeRef, i: nat, index: nat): (r: NodeRef)
    requires Valid(l)
    requires i <= index <= l.size
    requires current == At(Spine(l), i)
    ensures r == At(Spine(l), index)
    decreases index - i
  {
    if i < index then
      Step(l, i);
      WalkFrom(l, l.nodes[current.addr].next, i + 1, index)
    else current
  }

  /** `getNode(index)`: accepts `0 <= index <= size`; the node at `index`, or
      null when `index == size` (the walk runs off the end). */
  function GetNode(l: LinkedList, index: int): (r: Result<NodeRef>)
    requires Valid(l)
    ensures r.Failure? <==> index < 0 || index > l.size
    ensures r.Failure? ==> r.error == IllegalArgument
    ensures 0 <= index < l.size ==> r == Success(Ref(Spine(l)[index]))
    ensures index == l.size ==> r == Success(Null)
  {
    if index < 0 || index > l.size then Failure(IllegalArgument)
    else Success(WalkFrom(l, l.first, 0, index))
  }

  /** `addLast(block)`: a new node holding `block` becomes `last` (and also
      `first` if the list was empty). A null block is accepted. */
  function AddLast(l: LinkedList, block: MemoryBlock?): (r: LinkedList)
    requires Valid(l)
    ensures Valid(r)
    ensures Contents(r) == Contents(l) + [block]
    ensures r.size == l.size + 1
    ensures r.last == Ref(|l.nodes|)
    ensures l.size == 0 ==> r.first == r.last
    ensures l.size > 0 ==> r.first == l.first
  {
    var newN := |l.nodes|;
    if l.first == Null then
      var r := LinkedList(Ref(newN), Ref(newN), l.size + 1, Alloc(l.nodes, block, Null));
      ValidFromChain(r, [newN]);
      r
    else
      AppendBehindLast(l, block);
      LinkedList(l.first, Ref(newN), l.size + 1,
                 SetNext(Alloc(l.nodes, block, Null), l.last.addr, Ref(newN)))
  }

  /** Linking a new node, whose `next` is null, behind `last` of a non-empty
      list appends its block. */
  lemma AppendBehindLast(l: LinkedList, block: MemoryBlock?)
    requires Valid(l)
    requires l.size > 0
    ensures l.last.Ref? && l.last.addr < |l.nodes|
    ensures var r := LinkedList(l.first, Ref(|l.nodes|), l.size + 1,
                                SetNext(Alloc(l.nodes, block, Null), l.last.addr, Ref(|l.nodes|)));
            && Valid(r)
            && Contents(r) == Contents(l) + [block]
  {
    var chain := Spine(l);
    var p := chain[l.size - 1];
    Step(l, l.size - 1);
    var nodes' := SetNext(Alloc(l.nodes, block, Null), p, Ref(|l.nodes|));
    assert nodes' == Inserted(l.nodes, p, block);
    var r := LinkedList(l.first, Ref(|l.nodes|), l.size + 1, nodes');
    var chain' := Sequences.Insert(chain, l.size, |l.nodes|);
    InsertAfter(l.nodes, chain, l.size, block);
    InsertEnds(chain, l.size, |l.nodes|);
    ValidFromChain(r, chain');
    assert Sequences.Insert(Contents(l), l.size, block) == Contents(l) + [block];
  }

  /** `addFirst(block)`: rejects a null block; otherwise a new node holding
      `block` and linking to the old `first` becomes `first` (and also `last`
      if the list was empty). */
  function AddFirst(l: LinkedList, block: MemoryBlock?): (r: Result<LinkedList>)
    requires Valid(l)
    ensures r.Failure? <==> block == null
    ensures r.Failure? ==> r.error == IllegalArgument
    ensures r.Success? ==> && Valid(r.value)
                           && Contents(r.value) == [block] + Contents(l)
                           && r.value.size == l.size + 1
                           && r.value.first == Ref(|l.nodes|)
                           && (l.size == 0 ==> r.value.last == r.value.first)
                           && (l.size > 0 ==> r.value.last == l.last)
  {
    if block == null then Failure(IllegalArgument)
    else
      var newNode := |l.nodes|;
      var nodes := Alloc(l.nodes, block, l.first);
      var r := if l.first == Null then LinkedList(Ref(newNode), Ref(newNode), l.size + 1, nodes)
               else LinkedList(Ref(newNode), l.last, l.size + 1, nodes);
      Prepend(l.nodes, Spine(l), block);
      ValidFromChain(r, [newNode] + Spine(l));
      Success(r)
  }

  /** Relinking a new node behind position `index - 1`, strictly inside the
      list, keeps `first` and `last` and puts `block` at `index`. */
  lemma InsertBehind(l: LinkedList, index: nat, block: MemoryBlock?)
    requires Valid(l)
    requires 0 < index < l.size
    ensures var r := LinkedList(l.first, l.last, l.size + 1, Inserted(l.nodes, Spine(l)[index - 1], block));
            && Valid(r)
            && Contents(r) == Sequences.Insert(Contents(l), index, block)
  {
    var chain := Spine(l);
    var r := LinkedList(l.first, l.last, l.size + 1, Inserted(l.nodes, chain[index - 1], block));
    var chain' := Sequences.Insert(chain, index, |l.nodes|);
    InsertAfter(l.nodes, chain, index, block);
    InsertEnds(chain, index, |l.nodes|);
    ValidFromChain(r, chain');
  }

  /** `add(index, block)`: accepts `0 <= index <= size`; `block` becomes the
      element at `index`. Index 0 goes through `addFirst`, so a null block is
      rejected there; index `size` goes through `addLast`; any other index
      relinks behind the node at `index - 1`. Every success adds exactly one
      to `size`. */
  function Add(l: LinkedList, index: int, block: MemoryBlock?): (r: Result<LinkedList>)
    requires Valid(l)
    ensures r.Failure? <==> index < 0 || index > l.size || (index == 0 && block == null)
    ensures r.Failure? ==> r.error == IllegalArgument
    ensures r.Success? ==> && Valid(r.value)
                           && Contents(r.value) == Sequences.Insert(Contents(l), index, block)
                           && r.value.size == l.size + 1
    ensures r.Success? && index == 0 ==> r.value.first == Ref(|l.nodes|)
    ensures r.Success? && index == l.size ==> r.value.last == Ref(|l.nodes|)
    ensures r.Success? && 0 < index ==> r.value.first == l.first
    ensures r.Success? && index < l.size ==> r.value.last == l.last
  {
    if index < 0 || index > l.size then Failure(IllegalArgument)
    else if index == 0 then
      assert Sequences.Insert(Contents(l), 0, block) == [block] + Contents(l);
      AddFirst(l, block)
    else if index == l.size then
      assert Sequences.Insert(Contents(l), index, block) == Contents(l) + [block];
      Success(AddLast(l, block))
    else
      var prev := GetNode(l, index - 1).value;
      InsertBehind(l, index, block);
      Success(LinkedList(l.first, l.last, l.size + 1, Inserted(l.nodes, prev.addr, block)))
  }

  /** `getBlock(index)`: accepts only `0 <= index < size` and returns the
      block stored there. */
  function GetBlock(l: LinkedList, index: int): (r: Result<MemoryBlock?>)
    requires Valid(l)
    ensures r.Failure? <==> index < 0 || index >= l.size
    ensures r.Failure? ==> r.error == IllegalArgument
    ensures r.Success? ==> r.value == Contents(l)[index]
  {
    if index < 0 || index >= l.size then Failure(IllegalArgument)
    else Success(l.nodes[GetNode(l, index).value.addr].block)
  }

  /** The `while` loop of `indexOf`: from the node at position `index`, the
      first position holding `block` (by reference), or -1 when the walk
      reaches null without finding it. */
  function Scan(l: LinkedList, temp: NodeRef, index: nat, block: MemoryBlock?): (r: int)
    requires Valid(l)
    requires index <= l.size
    requires temp == At(Spine(l), index)
    ensures r == -1 || index <= r < l.size
    ensures r == -1 ==> forall k :: index <= k < l.size ==> Contents(l)[k] != block
    ensures r != -1 ==> && Contents(l)[r] == block
                        && forall k :: index <= k < r ==> Contents(l)[k] != block
    decreases l.size - index
  {
    if temp == Null then -1
    else
      Step(l, index);
      if l.nodes[temp.addr].block == block then index
      else Scan(l, l.nodes[temp.addr].next, index + 1, block)
  }

  /** `indexOf(block)`: the first position holding `block`, compared by
      reference, or -1 when the block is not in the list. */
  function IndexOf(l: LinkedList, block: MemoryBlock?): (r: int)
    requires Valid(l)
    ensures -1 <= r < l.size
    ensures r == Sequences.FirstIndex(Contents(l), block)
  {
    var r := Scan(l, l.first, 0, block);
    if r == -1 then
      assert block !in Contents(l);
      r
    else
      Sequences.FirstIndexUnique(Contents(l), block, r);
      r
  }

  /** `remove(index)` with the bound its documentation states: accepts only
      `0 <= index < size`. Removing position 0 moves `first` to its successor
      (and clears `last` when the list becomes empty); any other position is
      bypassed from its predecessor, and `last` moves back to the predecessor
      when the tail is removed. */
  function RemoveAt(l: LinkedList, index: int): (r: Result<LinkedList>)
    requires Valid(l)
    ensures r.Failure? <==> index < 0 || index >= l.size
    ensures r.Failure? ==> r.error == IllegalArgument
    ensures r.Success? ==> && Valid(r.value)
                           && Contents(r.value) == Sequences.Delete(Contents(l), index)
                           && r.value.size == l.size - 1
    ensures r.Success? && 0 < index == l.size - 1 ==> r.value.last == At(Spine(l), index - 1)
    ensures r.Success? && index < l.size - 1 ==> r.value.last == l.last
    ensures r.Success? && l.size == 1 ==> r.value.first == Null && r.value.last == Null
    ensures r.Success? && index == 0 ==> r.value.first == At(Spine(l), 1)
    ensures r.Success? && 0 < index ==> r.value.first == l.first
  {
    if index < 0 || index >= l.size then Failure(IllegalArgument)
    else if index == 0 then
      RemoveHead(l);
      Success(LinkedList(l.nodes[l.first.addr].next, if l.size == 1 then Null else l.last,
                         l.size - 1, l.nodes))
    else
      var prev := GetNode(l, index - 1).value;
      var toRemove := l.nodes[prev.addr].next;
      RemoveBehind(l, index);
      Success(LinkedList(l.first, if toRemove == l.last then prev else l.last,
                         l.size - 1, Bypassed(l.nodes, prev.addr)))
  }

  /** Moving `first` to its successor, and clearing `last` when the only node
      goes, removes position 0. */
  lemma RemoveHead(l: LinkedList)
    requires Valid(l)
    requires l.size > 0
    ensures l.first.Ref? && l.first.addr < |l.nodes|
    ensures var r := LinkedList(l.nodes[l.first.addr].next, if l.size == 1 then Null else l.last,
                                l.size - 1, l.nodes);
            && Valid(r)
            && Contents(r) == Sequences.Delete(Contents(l), 0)
  {
    var chain := Spine(l);
    var r := LinkedList(l.nodes[l.first.addr].next, if l.size == 1 then Null else l.last,
                        l.size - 1, l.nodes);
    DropFirst(l.nodes, chain);
    assert LastOf(chain[1..]) == r.last;
    ValidFromChain(r, chain[1..]);
  }

  /** Making the node at position `index - 1` bypass position `index`, and
      moving `last` back to it when `index` was the last position, removes
      position `index`. */
  lemma RemoveBehind(l: LinkedList, index: nat)
    requires Valid(l)
    requires 0 < index < l.size
    ensures l.nodes[Spine(l)[index - 1]].next == Ref(Spine(l)[index])
    ensures Ref(Spine(l)[index]) == l.last <==> index == l.size - 1
    ensures var prev := Spine(l)[index - 1];
            var r := LinkedList(l.first, if index == l.size - 1 then Ref(prev) else l.last,
                                l.size - 1, Bypassed(l.nodes, prev));
            && Valid(r)
            && Contents(r) == Sequences.Delete(Contents(l), index)
  {
    var chain := Spine(l);
    var prev := chain[index - 1];
    UnlinkAfter(l.nodes, chain, index);
    var r := LinkedList(l.first, if index == l.size - 1 then Ref(prev) else l.last,
                        l.size - 1, Bypassed(l.nodes, prev));
    DeleteEnds(chain, index);
    ValidFromChain(r, Sequences.Delete(chain, index));
  }

  /** `remove(index)` exactly as written: the guard accepts `index == size`
      as well, and the removal then dereferences null (`first.next` on an
      empty list, `toRemove.next` past the last node). */
  function RemoveAtAsWritten(l: LinkedList, index: int): (r: Result<LinkedList>)
    requires Valid(l)
    ensures index != l.size ==> r == RemoveAt(l, index)
    ensures index == l.size ==> r == Failure(NullPointer)
  {
    if index < 0 || index > l.size then Failure(IllegalArgument)
    else if index == 0 then
      if l.first == Null then Failure(NullPointer)
      else Success(LinkedList(l.nodes[l.first.addr].next, if l.size == 1 then Null else l.last,
                              l.size - 1, l.nodes))
    else
      var prev := GetNode(l, index - 1).value;
      Step(l, index - 1);
      var toRemove := l.nodes[prev.addr].next;
      if toRemove == Null then Failure(NullPointer)
      else
        Success(LinkedList(l.first, if toRemove == l.last then prev else l.last,
                           l.size - 1, Bypassed(l.nodes, prev.addr)))
  }

  /** `remove(node)`: removes the first position holding `node`'s block. A
      block that is not in the list gives index -1, which `remove(index)`
      rejects; a null node is dereferenced. */
  function RemoveNode(l: LinkedList, node: Option<Node>): (r: Result<LinkedList>)
    requires Valid(l)
    ensures node == None ==> r == Failure(NullPointer)
    ensures node.Some? ==> (r.Failure? <==> node.value.block !in Contents(l))
    ensures node.Some? && r.Failure? ==> r.error == IllegalArgument
    ensures r.Success? ==> && Valid(r.value)
                           && Contents(r.value)
                              == Sequences.Delete(Contents(l), Sequences.FirstIndex(Contents(l), node.value.block))
                           && r.value.size == l.size - 1
    ensures r.Success? ==> r == RemoveAt(l, Sequences.FirstIndex(Contents(l), node.value.block))
  {
    match node
    case None => Failure(NullPointer)
    case Some(n) => RemoveAt(l, IndexOf(l, n.block))
  }

  /** `remove(block)`: rejects a null block and a block that is not in the
      list; otherwise removes the first position holding it. */
  function RemoveBlock(l: LinkedList, block: MemoryBlock?): (r: Result<LinkedList>)
    requires Valid(l)
    ensures r.Failure? <==> block == null || block !in Contents(l)
    ensures r.Failure? ==> r.error == IllegalArgument
    ensures r.Success? ==> && Valid(r.value)
                           && Contents(r.value)
                              == Sequences.Delete(Contents(l), Sequences.FirstIndex(Contents(l), block))
                           && r.value.size == l.size - 1
    ensures r.Success? ==> r == RemoveAt(l, Sequences.FirstIndex(Contents(l), block))
  {
    if block == null then Failure(IllegalArgument)
    else
      var index := IndexOf(l, block);
      if index == -1 then Failure(IllegalArgument)
      else RemoveAt(l, index)
  }

  /** A walk from the node at position `i` to null, collecting blocks. */
  function ElementsFrom(l: LinkedList, current: NodeRef, i: nat): (r: seq<MemoryBlock?>)
    requires Valid(l)
    requires i <= l.size
    requires current == At(Spine(l), i)
    ensures r == Contents(l)[i..]
    decreases l.size - i
  {
    if current == Null then []
    else
      Step(l, i);
      [l.nodes[current.addr].block] + ElementsFrom(l, l.nodes[current.addr].next, i + 1)
  }

  /** `iterator()`: the blocks a forward iterator started at `first` yields,
      stopping at null. */
  function Iterator(l: LinkedList): (r: seq<MemoryBlock?>)
    requires Valid(l)
    ensures r == Contents(l)
  {
    ElementsFrom(l, l.first, 0)
  }

  /** The text of a sequence of blocks: each block's text followed by one
      space. */
  function Rendered(bs: seq<MemoryBlock?>, render: MemoryBlock? -> string): string
  {
    if |bs| == 0 then "" else render(bs[0]) + " " + Rendered(bs[1..], render)
  }

  /** Rendering from position `i` is the text of block `i` and a space,
      followed by the rendering from position `i + 1`. */
  lemma RenderedSuffix(bs: seq<MemoryBlock?>, i: nat, render: MemoryBlock? -> string)
    requires i < |bs|
    ensures Rendered(bs[i..], render) == render(bs[i]) + " " + Rendered(bs[i + 1..], render)
  {
    assert bs[i..][1..] == bs[i + 1..];
  }

  /** The `while` loop of `toString`, accumulating into `result`. */
  function ToStringFrom(l: LinkedList, temp: NodeRef, i: nat, result: string,
                        render: MemoryBlock? -> string): (r: string)
    requires Valid(l)
    requires i <= l.size
    requires temp == At(Spine(l), i)
    ensures r == result + Rendered(Contents(l)[i..], render)
    decreases l.size - i
  {
    if temp == Null then result
    else
      Step(l, i);
      var text := render(l.nodes[temp.addr].block) + " ";
      RenderedSuffix(Contents(l), i, render);
      ToStringFrom(l, l.nodes[temp.addr].next, i + 1, result + text, render)
  }

  /** `toString()`, with the text of one block (`MemoryBlock.toString`, or
      "null") given as `render`. */
  function ToString(l: LinkedList, render: MemoryBlock? -> string): (r: string)
    requires Valid(l)
    ensures r == Rendered(Contents(l), render)
  {
    ToStringFrom(l, l.first, 0, "", render)
  }
}

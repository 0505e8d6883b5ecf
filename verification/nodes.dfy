/** Nodes of the singly-linked list, kept in an arena. A Java `Node` reference
    is a `NodeRef`: `Null` or the address of a node in the arena `nodes`.
    `new Node(block)` appends to the arena, and assigning `x.next` rewrites the
    node at `x`'s address. A node that is unlinked stays in the arena,
    unreachable, as a Java node does until it is garbage-collected. */
module Nodes {
  import opened MemoryBlocks
  import Sequences

  datatype NodeRef = Null | Ref(addr: nat)

  /** A node: the memory block it points to and the link to its successor. */
  datatype Node = Node(block: MemoryBlock?, next: NodeRef)

  /** `new Node(block)` with its `next` already set: the new node's address is
      the arena's old length. */
  function Alloc(nodes: seq<Node>, block: MemoryBlock?, next: NodeRef): (r: seq<Node>)
    ensures |r| == |nodes| + 1
    ensures r[|nodes|] == Node(block, next)
    ensures forall a :: 0 <= a < |nodes| ==> r[a] == nodes[a]
  {
    nodes + [Node(block, next)]
  }

  /** The assignment `p.next = q` for the node at address `p`. */
  function SetNext(nodes: seq<Node>, p: nat, q: NodeRef): (r: seq<Node>)
    requires p < |nodes|
    ensures |r| == |nodes|
    ensures r[p] == Node(nodes[p].block, q)
    ensures forall a :: 0 <= a < |nodes| && a != p ==> r[a] == nodes[a]
  {
    nodes[p := nodes[p].(next := q)]
  }

  /** The arena after `add` links a fresh node holding `block` behind the node
      at address `p`: the fresh node takes over `p`'s successor, and `p` links
      to the fresh node. */
  function Inserted(nodes: seq<Node>, p: nat, block: MemoryBlock?): seq<Node>
    requires p < |nodes|
  {
    SetNext(Alloc(nodes, block, nodes[p].next), p, Ref(|nodes|))
  }

  /** The arena after `remove` makes the node at address `p` bypass its
      successor. */
  function Bypassed(nodes: seq<Node>, p: nat): seq<Node>
    requires p < |nodes|
    requires nodes[p].next.Ref? && nodes[p].next.addr < |nodes|
  {
    SetNext(nodes, p, nodes[nodes[p].next.addr].next)
  }

  /** The reference to position `i` of a chain of addresses, or `Null` once
      the walk has gone past its last node. */
  function At(chain: seq<nat>, i: nat): NodeRef
  {
    if i < |chain| then Ref(chain[i]) else Null
  }

  /** The reference to the last node of a chain, `Null` for the empty chain. */
  function LastOf(chain: seq<nat>): NodeRef
  {
    if |chain| == 0 then Null else Ref(chain[|chain| - 1])
  }

  ghost predicate Distinct(chain: seq<nat>)
  {
    forall i, j :: 0 <= i < j < |chain| ==> chain[i] != chain[j]
  }

  ghost predicate InArena(nodes: seq<Node>, chain: seq<nat>)
  {
    forall i :: 0 <= i < |chain| ==> chain[i] < |nodes|
  }

  /** The node at position `i` of `chain` links to position `i + 1`, or to
      null when it is the last one. */
  ghost predicate LinkOk(nodes: seq<Node>, chain: seq<nat>, i: nat)
    requires i < |chain|
  {
    chain[i] < |nodes| && nodes[chain[i]].next == At(chain, i + 1)
  }

  /** `chain` is a well-formed null-terminated list in `nodes`: every address is
      allocated, each node links to the one after it (the last one to `Null`),
      and no node occurs twice. */
  ghost predicate Chain(nodes: seq<Node>, chain: seq<nat>)
  {
    && InArena(nodes, chain)
    && (forall i :: 0 <= i < |chain| ==> LinkOk(nodes, chain, i))
    && Distinct(chain)
  }

  /** The addresses met by following `next` from `p` for at most `n` nodes,
      stopping early at `Null` or at an address outside the arena. */
  ghost function Trace(nodes: seq<Node>, p: NodeRef, n: nat): (chain: seq<nat>)
    ensures |chain| <= n
    ensures InArena(nodes, chain)
    ensures |chain| > 0 ==> p == Ref(chain[0])
    decreases n
  {
    if n == 0 || p == Null || p.addr >= |nodes| then []
    else [p.addr] + Trace(nodes, nodes[p.addr].next, n - 1)
  }

  /** The memory blocks held by the nodes of `chain`, in order. */
  ghost function Blocks(nodes: seq<Node>, chain: seq<nat>): (bs: seq<MemoryBlock?>)
    requires InArena(nodes, chain)
    ensures |bs| == |chain|
    ensures forall i :: 0 <= i < |chain| ==> bs[i] == nodes[chain[i]].block
  {
    seq(|chain|, i requires 0 <= i < |chain| && InArena(nodes, chain) => nodes[chain[i]].block)
  }

  /** The nodes after the head of a chain form a chain that starts at the
      head's successor. */
  lemma ChainRest(nodes: seq<Node>, chain: seq<nat>)
    requires Chain(nodes, chain)
    requires 0 < |chain|
    ensures Chain(nodes, chain[1..])
    ensures At(chain[1..], 0) == nodes[chain[0]].next
  {
    var rest := chain[1..];
    forall i | 0 <= i < |rest|
      ensures LinkOk(nodes, rest, i)
    {
      assert LinkOk(nodes, chain, i + 1);
      assert At(rest, i + 1) == At(chain, i + 2);
    }
    assert LinkOk(nodes, chain, 0);
  }

  /** Following `next` from the head of a chain, as many times as it is long,
      visits exactly that chain. */
  lemma {:induction false} TraceOfChain(nodes: seq<Node>, chain: seq<nat>)
    requires Chain(nodes, chain)
    ensures Trace(nodes, At(chain, 0), |chain|) == chain
  {
    if |chain| > 0 {
      ChainRest(nodes, chain);
      TraceOfChain(nodes, chain[1..]);
    }
  }

  /** Inserting behind the head keeps the head; the last node changes only
      when inserting at the end. */
  lemma InsertEnds(chain: seq<nat>, k: nat, a: nat)
    requires 1 <= k <= |chain|
    ensures At(Sequences.Insert(chain, k, a), 0) == At(chain, 0)
    ensures LastOf(Sequences.Insert(chain, k, a)) == if k == |chain| then Ref(a) else LastOf(chain)
  {
    var chain' := Sequences.Insert(chain, k, a);
    assert chain'[0] == chain[0];
    assert chain'[|chain|] == if k == |chain| then a else chain[|chain| - 1];
  }

  /** Deleting behind the head keeps the head; the last node moves back to
      the predecessor only when deleting the last position. */
  lemma DeleteEnds(chain: seq<nat>, k: nat)
    requires 1 <= k < |chain|
    ensures At(Sequences.Delete(chain, k), 0) == At(chain, 0)
    ensures LastOf(Sequences.Delete(chain, k)) == if k == |chain| - 1 then Ref(chain[k - 1]) else LastOf(chain)
  {
    var chain' := Sequences.Delete(chain, k);
    assert chain'[0] == chain[0];
    assert chain'[|chain| - 2] == if k == |chain| - 1 then chain[k - 1] else chain[|chain| - 1];
  }

  /** Inserting an address that does not occur keeps a chain free of repeats. */
  lemma InsertDistinct(chain: seq<nat>, k: nat, a: nat)
    requires Distinct(chain)
    requires k <= |chain|
    requires a !in chain
    ensures Distinct(Sequences.Insert(chain, k, a))
  {
    var chain' := Sequences.Insert(chain, k, a);
    forall i, j | 0 <= i < j < |chain'|
      ensures chain'[i] != chain'[j]
    {
      if i == k {
        assert chain'[j] == chain[j - 1];
      } else if j == k {
        assert chain'[i] == chain[i];
      }
    }
  }

  /** Deleting a position keeps a chain free of repeats. */
  lemma DeleteDistinct(chain: seq<nat>, k: nat)
    requires Distinct(chain)
    requires k < |chain|
    ensures Distinct(Sequences.Delete(chain, k))
  {
  }

  /** After an insertion behind position `k - 1`, a node before position
      `k - 1` keeps its link. */
  lemma InsertAfterLinkBefore(nodes: seq<Node>, chain: seq<nat>, k: nat, block: MemoryBlock?, i: nat)
    requires Chain(nodes, chain)
    requires 1 <= k <= |chain| && i < k - 1
    ensures LinkOk(Inserted(nodes, chain[k - 1], block), Sequences.Insert(chain, k, |nodes|), i)
  {
    var nodes' := Inserted(nodes, chain[k - 1], block);
    assert LinkOk(nodes, chain, i);
    assert nodes'[chain[i]] == nodes[chain[i]];
  }

  /** After an insertion behind position `k - 1`, a node after the fresh one
      keeps its link. */
  lemma InsertAfterLinkAfter(nodes: seq<Node>, chain: seq<nat>, k: nat, block: MemoryBlock?, i: nat)
    requires Chain(nodes, chain)
    requires 1 <= k < i <= |chain|
    ensures LinkOk(Inserted(nodes, chain[k - 1], block), Sequences.Insert(chain, k, |nodes|), i)
  {
    var nodes' := Inserted(nodes, chain[k - 1], block);
    assert LinkOk(nodes, chain, i - 1);
    assert nodes'[chain[i - 1]] == nodes[chain[i - 1]];
  }

  /** After an insertion behind position `k - 1`, the relinked node points at
      the fresh node, which points where the relinked node used to. */
  lemma InsertAfterLinkNew(nodes: seq<Node>, chain: seq<nat>, k: nat, block: MemoryBlock?)
    requires Chain(nodes, chain)
    requires 1 <= k <= |chain|
    ensures LinkOk(Inserted(nodes, chain[k - 1], block), Sequences.Insert(chain, k, |nodes|), k - 1)
    ensures LinkOk(Inserted(nodes, chain[k - 1], block), Sequences.Insert(chain, k, |nodes|), k)
  {
    assert LinkOk(nodes, chain, k - 1);
  }

  lemma InsertAfterBlocks(nodes: seq<Node>, chain: seq<nat>, k: nat, block: MemoryBlock?)
    requires Chain(nodes, chain)
    requires 1 <= k <= |chain|
    ensures var nodes' := Inserted(nodes, chain[k - 1], block);
            var chain' := Sequences.Insert(chain, k, |nodes|);
            && InArena(nodes', chain')
            && Blocks(nodes', chain') == Sequences.Insert(Blocks(nodes, chain), k, block)
  {
    var p := chain[k - 1];
    var nodes' := Inserted(nodes, p, block);
    var chain' := Sequences.Insert(chain, k, |nodes|);
    var bs := Blocks(nodes, chain);
    var bs' := Blocks(nodes', chain');
    forall i | 0 <= i < |bs'|
      ensures bs'[i] == Sequences.Insert(bs, k, block)[i]
    {
      if i < k {
        assert nodes'[chain[i]].block == nodes[chain[i]].block;
      } else if i > k {
        assert nodes'[chain[i - 1]] == nodes[chain[i - 1]];
      }
    }
  }

  /** Linking a fresh node behind position `k - 1` of a chain (the relinking
      in `add`, and in `addLast` when `k` is the chain's length) yields the
      chain with the fresh address at position `k`, holding `block` there. */
  lemma InsertAfter(nodes: seq<Node>, chain: seq<nat>, k: nat, block: MemoryBlock?)
    requires Chain(nodes, chain)
    requires 1 <= k <= |chain|
    ensures var nodes' := Inserted(nodes, chain[k - 1], block);
            var chain' := Sequences.Insert(chain, k, |nodes|);
            && Chain(nodes', chain')
            && Blocks(nodes', chain') == Sequences.Insert(Blocks(nodes, chain), k, block)
  {
    var nodes' := Inserted(nodes, chain[k - 1], block);
    var chain' := Sequences.Insert(chain, k, |nodes|);
    InsertAfterBlocks(nodes, chain, k, block);
    InsertAfterLinkNew(nodes, chain, k, block);
    forall i | 0 <= i < |chain'|
      ensures LinkOk(nodes', chain', i)
    {
      if i < k - 1 {
        InsertAfterLinkBefore(nodes, chain, k, block, i);
      } else if k < i {
        InsertAfterLinkAfter(nodes, chain, k, block, i);
      }
    }
    InsertDistinct(chain, k, |nodes|);
  }

  /** Linking a fresh node in front of a chain's head (`addFirst`) yields the
      chain with the fresh address first. */
  lemma Prepend(nodes: seq<Node>, chain: seq<nat>, block: MemoryBlock?)
    requires Chain(nodes, chain)
    ensures var nodes' := Alloc(nodes, block, At(chain, 0));
            var chain' := [|nodes|] + chain;
            && Chain(nodes', chain')
            && Blocks(nodes', chain') == [block] + Blocks(nodes, chain)
  {
    var nodes' := Alloc(nodes, block, At(chain, 0));
    var chain' := [|nodes|] + chain;
    forall i | 0 <= i < |chain'|
      ensures LinkOk(nodes', chain', i)
    {
      if i > 0 {
        assert LinkOk(nodes, chain, i - 1);
        assert At(chain', i + 1) == At(chain, i);
      }
    }
    assert Blocks(nodes', chain') == [block] + Blocks(nodes, chain);
  }

  /** Dropping the head of a chain (`first = first.next`) leaves a chain that
      starts at the old head's successor and holds the remaining blocks. */
  lemma DropFirst(nodes: seq<Node>, chain: seq<nat>)
    requires Chain(nodes, chain)
    requires 0 < |chain|
    ensures Chain(nodes, chain[1..])
    ensures At(chain[1..], 0) == nodes[chain[0]].next
    ensures Blocks(nodes, chain[1..]) == Sequences.Delete(Blocks(nodes, chain), 0)
  {
    ChainRest(nodes, chain);
  }

  /** After the node at position `k - 1` bypasses position `k`, a node at
      another position keeps its link. */
  lemma UnlinkAfterLinkOther(nodes: seq<Node>, chain: seq<nat>, k: nat, i: nat)
    requires Chain(nodes, chain)
    requires 1 <= k < |chain|
    requires i < |chain| - 1 && i != k - 1
    requires nodes[chain[k - 1]].next == Ref(chain[k])
    ensures LinkOk(Bypassed(nodes, chain[k - 1]), Sequences.Delete(chain, k), i)
  {
    var nodes' := Bypassed(nodes, chain[k - 1]);
    var j := if i < k then i else i + 1;
    assert LinkOk(nodes, chain, j);
    assert nodes'[chain[j]] == nodes[chain[j]];
  }

  /** After the node at position `k - 1` bypasses position `k`, it links to
      what position `k` linked to. */
  lemma UnlinkAfterLinkPrev(nodes: seq<Node>, chain: seq<nat>, k: nat)
    requires Chain(nodes, chain)
    requires 1 <= k < |chain|
    requires nodes[chain[k - 1]].next == Ref(chain[k])
    ensures LinkOk(Bypassed(nodes, chain[k - 1]), Sequences.Delete(chain, k), k - 1)
  {
    assert LinkOk(nodes, chain, k);
  }

  lemma UnlinkAfterBlocks(nodes: seq<Node>, chain: seq<nat>, k: nat)
    requires Chain(nodes, chain)
    requires 1 <= k < |chain|
    requires nodes[chain[k - 1]].next == Ref(chain[k])
    ensures var nodes' := Bypassed(nodes, chain[k - 1]);
            var chain' := Sequences.Delete(chain, k);
            && InArena(nodes', chain')
            && Blocks(nodes', chain') == Sequences.Delete(Blocks(nodes, chain), k)
  {
    var nodes' := Bypassed(nodes, chain[k - 1]);
    var chain' := Sequences.Delete(chain, k);
    var bs := Blocks(nodes, chain);
    var bs' := Blocks(nodes', chain');
    forall i | 0 <= i < |bs'|
      ensures bs'[i] == Sequences.Delete(bs, k)[i]
    {
      if i < k {
        assert nodes'[chain[i]].block == nodes[chain[i]].block;
      } else {
        assert nodes'[chain[i + 1]] == nodes[chain[i + 1]];
      }
    }
  }

  /** Bypassing the node at position `k` (`prev.next = toRemove.next`, with
      `prev` at position `k - 1`) yields the chain without position `k`. */
  lemma UnlinkAfter(nodes: seq<Node>, chain: seq<nat>, k: nat)
    requires Chain(nodes, chain)
    requires 1 <= k < |chain|
    ensures nodes[chain[k - 1]].next == Ref(chain[k])
    ensures var nodes' := Bypassed(nodes, chain[k - 1]);
            var chain' := Sequences.Delete(chain, k);
            && Chain(nodes', chain')
            && Blocks(nodes', chain') == Sequences.Delete(Blocks(nodes, chain), k)
  {
    assert LinkOk(nodes, chain, k - 1);
    var nodes' := Bypassed(nodes, chain[k - 1]);
    var chain' := Sequences.Delete(chain, k);
    UnlinkAfterBlocks(nodes, chain, k);
    UnlinkAfterLinkPrev(nodes, chain, k);
    forall i | 0 <= i < |chain'| && i != k - 1
      ensures LinkOk(nodes', chain', i)
    {
      UnlinkAfterLinkOther(nodes, chain, k, i);
    }
    DeleteDistinct(chain, k);
  }
}

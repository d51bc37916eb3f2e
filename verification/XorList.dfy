/**
 `hxlist`: an intrusive doubly linked list over XOR-linked nodes with a
 sentinel, a tail pointer and a size. Every method updates the links in place,
 in the order the source does, and is proved against a sequence of nodes.
 */
module XorLists {
  import opened Order
  import opened XorRing

  // ---- A list as a ring that starts at its sentinel ----

  /** Node `i`, where the one past the last is the sentinel. */
  function NodeAt(sentinel: Address, nodes: seq<Address>, i: nat): Address
    requires i <= |nodes|
  {
    if i < |nodes| then nodes[i] else sentinel
  }

  function NodeBefore(sentinel: Address, nodes: seq<Address>, i: nat): Address
    requires i <= |nodes|
  {
    if i == 0 then sentinel else nodes[i - 1]
  }

  function Tail(sentinel: Address, nodes: seq<Address>): Address { NodeBefore(sentinel, nodes, |nodes|) }

  function First(sentinel: Address, nodes: seq<Address>): Address { NodeAt(sentinel, nodes, 0) }

  ghost predicate Linked(mem: Memory, sentinel: Address, nodes: seq<Address>) {
    Ring(mem, [sentinel] + nodes)
  }

  /** No address outside `nodes` and `sentinel` has come, gone or changed its link. */
  ghost predicate OthersKept(before: Memory, after: Memory, sentinel: Address, nodes: seq<Address>) {
    forall x :: x != sentinel && x !in nodes ==>
      (x in after <==> x in before) && (x in before ==> after[x] == before[x])
  }

  /** What `operator++` reads: the node after `i`, from the node before it and its link. */
  lemma StepForward(mem: Memory, sentinel: Address, nodes: seq<Address>, i: nat)
    requires Linked(mem, sentinel, nodes) && i <= |nodes|
    ensures NodeAt(sentinel, nodes, i) in mem && NodeBefore(sentinel, nodes, i) in mem
    ensures Xor(NodeBefore(sentinel, nodes, i), mem[NodeAt(sentinel, nodes, i)]) ==
      if i < |nodes| then NodeAt(sentinel, nodes, i + 1) else First(sentinel, nodes)
  {
    hide Xor, Distinct;
    var ring := [sentinel] + nodes;
    var k := if i < |nodes| then i + 1 else 0;
    Follow(mem, ring, k);
    Follow(mem, ring, i);
  }

  /** What `operator--` reads. */
  lemma StepBackward(mem: Memory, sentinel: Address, nodes: seq<Address>, i: nat)
    requires Linked(mem, sentinel, nodes) && i <= |nodes|
    ensures NodeBefore(sentinel, nodes, i) in mem
    ensures Xor(NodeAt(sentinel, nodes, i), mem[NodeBefore(sentinel, nodes, i)]) ==
      if 0 < i then NodeBefore(sentinel, nodes, i - 1) else Tail(sentinel, nodes)
  {
    hide Xor, Distinct;
    Follow(mem, [sentinel] + nodes, i);
  }

  lemma NodesDistinct(mem: Memory, sentinel: Address, nodes: seq<Address>, i: nat)
    requires Linked(mem, sentinel, nodes) && i <= |nodes|
    ensures sentinel !in nodes
    ensures NodeAt(sentinel, nodes, i) == sentinel <==> i == |nodes|
    ensures NodeBefore(sentinel, nodes, i) == sentinel <==> i == 0
    ensures i < |nodes| ==> nodes[i] !in nodes[..i] && nodes[i] !in nodes[i + 1..]
  {
    var ring := [sentinel] + nodes;
    forall k | 0 <= k < |nodes| ensures nodes[k] != sentinel {
      assert ring[k + 1] == nodes[k] && ring[0] == sentinel;
    }
    forall k, j | 0 <= k < j < |nodes| ensures nodes[k] != nodes[j] {
      assert ring[k + 1] == nodes[k] && ring[j + 1] == nodes[j];
    }
  }

  lemma Emptied(mem: Memory, sentinel: Address)
    ensures Linked(mem[sentinel := NULL], sentinel, [])
  {
    hide Xor;
    XorSelf(sentinel);
    var ring := [sentinel] + [];
    assert LinkedAt(mem[sentinel := NULL], ring, 0);
  }

  /** A ring depends on the links of its own nodes alone. */
  lemma OtherListKept(before: Memory, after: Memory, sentinel: Address, nodes: seq<Address>, s: Address, others: seq<Address>)
    requires Linked(before, s, others) && OthersKept(before, after, sentinel, nodes)
    requires s != sentinel && s !in nodes && forall x :: x in others ==> x != sentinel && x !in nodes
    ensures Linked(after, s, others)
  {
    hide Xor, Distinct;
    var ring := [s] + others;
    forall i: nat | i < |ring| ensures LinkedAt(after, ring, i) {
      assert LinkedAt(before, ring, i);
      assert i > 0 ==> ring[i] == others[i - 1] && others[i - 1] in others;
    }
  }

  function Inserted(nodes: seq<Address>, i: nat, more: seq<Address>): seq<Address>
    requires i <= |nodes|
  {
    nodes[..i] + more + nodes[i..]
  }

  lemma Unlinking(mem: Memory, sentinel: Address, nodes: seq<Address>, i: nat)
    requires Linked(mem, sentinel, nodes) && i < |nodes|
    ensures var prev, next := NodeBefore(sentinel, nodes, i), NodeAt(sentinel, nodes, i + 1);
      && prev in mem && next in mem
      && Linked(Unlink(mem, prev, nodes[i], next), sentinel, Without(nodes, i))
      && OthersKept(mem, Unlink(mem, prev, nodes[i], next), sentinel, nodes)
      && Tail(sentinel, Without(nodes, i)) == if next == sentinel then prev else Tail(sentinel, nodes)
  {
    hide Xor, Ring, Unlink, Without, Prev, Next, NodeAt, NodeBefore, OthersKept;
    RingPosition(mem, sentinel, nodes, i);
    UnlinkRing(mem, [sentinel] + nodes, i + 1);
    UnlinkFrame(mem, sentinel, nodes, i);
  }

  /** Node `i` in the ring, its neighbours and the ring without it. */
  lemma RingPosition(mem: Memory, sentinel: Address, nodes: seq<Address>, i: nat)
    requires Linked(mem, sentinel, nodes) && i < |nodes|
    ensures var ring, next := [sentinel] + nodes, NodeAt(sentinel, nodes, i + 1);
      && ring[i + 1] == nodes[i] && Prev(ring, i + 1) == NodeBefore(sentinel, nodes, i) && Next(ring, i + 1) == next
      && Without(ring, i + 1) == [sentinel] + Without(nodes, i)
      && Tail(sentinel, Without(nodes, i)) == if next == sentinel then NodeBefore(sentinel, nodes, i) else Tail(sentinel, nodes)
  {
    hide Ring, Xor;
    NodesDistinct(mem, sentinel, nodes, i + 1);
    assert Without([sentinel] + nodes, i + 1) == [sentinel] + Without(nodes, i);
  }

  lemma UnlinkFrame(mem: Memory, sentinel: Address, nodes: seq<Address>, i: nat)
    requires i < |nodes| && NodeBefore(sentinel, nodes, i) in mem && NodeAt(sentinel, nodes, i + 1) in mem
    ensures OthersKept(mem, Unlink(mem, NodeBefore(sentinel, nodes, i), nodes[i], NodeAt(sentinel, nodes, i + 1)), sentinel, nodes)
  {
    hide Xor;
  }

  lemma Linking(mem: Memory, sentinel: Address, nodes: seq<Address>, i: nat, node: Address)
    requires Linked(mem, sentinel, nodes) && i <= |nodes| && node != sentinel && node !in nodes
    ensures var prev, next := NodeBefore(sentinel, nodes, i), NodeAt(sentinel, nodes, i);
      && prev in mem && next in mem
      && Linked(Link(mem, prev, node, next), sentinel, Inserted(nodes, i, [node]))
      && OthersKept(mem, Link(mem, prev, node, next), sentinel, nodes + [node])
      && Tail(sentinel, Inserted(nodes, i, [node])) == if next == sentinel then node else Tail(sentinel, nodes)
  {
    hide Xor, Ring, Link, With, Next, NodeAt, NodeBefore, Inserted, OthersKept;
    NodesDistinct(mem, sentinel, nodes, i);
    GapPosition(sentinel, nodes, i, [node]);
    LinkRing(mem, [sentinel] + nodes, i + 1, node);
    LinkFrame(mem, sentinel, nodes, i, node);
  }

  /** Gap `i` in the ring, its neighbours and the ring with nodes in it. */
  lemma GapPosition(sentinel: Address, nodes: seq<Address>, i: nat, more: seq<Address>)
    requires i <= |nodes| && more != []
    requires NodeAt(sentinel, nodes, i) == sentinel <==> i == |nodes|
    ensures var ring, next := [sentinel] + nodes, NodeAt(sentinel, nodes, i);
      && ring[i] == NodeBefore(sentinel, nodes, i) && Next(ring, i) == next
      && Spliced(ring, i + 1, more) == [sentinel] + Inserted(nodes, i, more)
      && (|more| == 1 ==> With(ring, i + 1, more[0]) == [sentinel] + Inserted(nodes, i, more))
      && Tail(sentinel, Inserted(nodes, i, more)) == if next == sentinel then more[|more| - 1] else Tail(sentinel, nodes)
  {
    var ring := [sentinel] + nodes;
    assert Spliced(ring, i + 1, more) == [sentinel] + Inserted(nodes, i, more);
    assert |more| == 1 ==> With(ring, i + 1, more[0]) == [sentinel] + Inserted(nodes, i, more);
  }

  lemma LinkFrame(mem: Memory, sentinel: Address, nodes: seq<Address>, i: nat, node: Address)
    requires i <= |nodes| && NodeBefore(sentinel, nodes, i) in mem && NodeAt(sentinel, nodes, i) in mem
    ensures OthersKept(mem, Link(mem, NodeBefore(sentinel, nodes, i), node, NodeAt(sentinel, nodes, i)), sentinel, nodes + [node])
  {
    hide Xor;
  }

  lemma JoinFrame(mem: Memory, sentinel: Address, nodes: seq<Address>, i: nat, other: Address, more: seq<Address>)
    requires i <= |nodes| && NodeBefore(sentinel, nodes, i) in mem && NodeAt(sentinel, nodes, i) in mem
    requires more != [] && more[0] in mem && more[|more| - 1] in mem
    ensures var joined := Join(mem, NodeBefore(sentinel, nodes, i), NodeAt(sentinel, nodes, i), other, more[0], more[|more| - 1]);
      OthersKept(mem, joined, sentinel, nodes + more)
  {
    hide Xor;
  }

  ghost predicate Apart(sentinel: Address, nodes: seq<Address>, other: Address, more: seq<Address>) {
    && other != sentinel && other !in nodes && sentinel !in more
    && forall x :: x in more ==> x !in nodes
  }

  lemma Joining(mem: Memory, sentinel: Address, nodes: seq<Address>, i: nat, other: Address, more: seq<Address>)
    requires Linked(mem, sentinel, nodes) && Linked(mem, other, more) && more != []
    requires Apart(sentinel, nodes, other, more) && i <= |nodes|
    ensures var prev, next, first, last := NodeBefore(sentinel, nodes, i), NodeAt(sentinel, nodes, i), more[0], more[|more| - 1];
      && prev in mem && next in mem && first in mem && last in mem
      && var joined := Join(mem, prev, next, other, first, last);
      && Linked(joined, sentinel, Inserted(nodes, i, more))
      && OthersKept(mem, joined, sentinel, nodes + more)
      && Tail(sentinel, Inserted(nodes, i, more)) == if next == sentinel then last else Tail(sentinel, nodes)
  {
    hide Xor, Ring, Join, Spliced, Next, NodeAt, NodeBefore, Inserted, OthersKept;
    NodesDistinct(mem, sentinel, nodes, i);
    GapPosition(sentinel, nodes, i, more);
    JoinRing(mem, [sentinel] + nodes, i + 1, other, more);
    JoinFrame(mem, sentinel, nodes, i, other, more);
  }

  lemma Reversing(mem: Memory, sentinel: Address, nodes: seq<Address>)
    requires Linked(mem, sentinel, nodes)
    ensures Linked(mem, sentinel, Reversed(nodes))
    ensures Tail(sentinel, Reversed(nodes)) == First(sentinel, nodes)
  {
    hide Xor, Ring;
    ReverseRing(mem, sentinel, nodes);
  }

  // ---- The updates of one method, in order ----

  lemma UnlinkSteps(mem: Memory, prev: Address, node: Address, next: Address)
    requires prev in mem && next in mem
    ensures next in Toggle(mem, prev, node, next)
    ensures Toggle(Toggle(mem, prev, node, next), next, node, prev) == Unlink(mem, prev, node, next)
  {
  }

  lemma LinkSteps(mem: Memory, prev: Address, node: Address, next: Address)
    requires prev in mem && next in mem
    ensures next in Toggle(mem[node := Xor(prev, next)], prev, next, node)
    ensures Toggle(Toggle(mem[node := Xor(prev, next)], prev, next, node), next, prev, node) == Link(mem, prev, node, next)
  {
  }

  lemma JoinSteps(mem: Memory, prev: Address, next: Address, other: Address, first: Address, last: Address)
    requires prev in mem && next in mem && first in mem && last in mem
    ensures var m1 := Toggle(mem, prev, next, first);
      && first in m1 && var m2 := Toggle(m1, first, other, prev);
      && last in m2 && var m3 := Toggle(m2, last, other, next);
      && next in m3 && Toggle(m3, next, prev, last) == Join(mem, prev, next, other, first, last)
  {
    hide Xor;
  }

  // ---- Frames ----

  lemma OthersKeptRefl(mem: Memory, sentinel: Address, nodes: seq<Address>)
    ensures OthersKept(mem, mem, sentinel, nodes)
  {
  }

  lemma OthersKeptTwice(a: Memory, b: Memory, c: Memory, sentinel: Address, s: seq<Address>, t: seq<Address>)
    requires OthersKept(a, b, sentinel, s) && OthersKept(b, c, sentinel, t)
    requires forall x :: x in t ==> x in s
    ensures OthersKept(a, c, sentinel, s)
  {
  }

  lemma SplicedFrame(mem: Memory, joined: Memory, sentinel: Address, nodes: seq<Address>, other: Address, more: seq<Address>, i: nat)
    requires Apart(sentinel, nodes, other, more) && Linked(mem, other, more) && i <= |nodes|
    requires OthersKept(mem, joined, sentinel, nodes + more) && Linked(joined, sentinel, Inserted(nodes, i, more))
    ensures Linked(joined[other := NULL], sentinel, Inserted(nodes, i, more))
    ensures OthersKept(mem, joined[other := NULL], sentinel, nodes + more + [other])
  {
    hide Linked;
    NodesDistinct(mem, other, more, 0);
    OtherListKept(joined, joined[other := NULL], other, [], sentinel, Inserted(nodes, i, more));
  }

  /** Freeing a node that has been taken out. */
  lemma FreedNode(mem: Memory, sentinel: Address, nodes: seq<Address>, node: Address)
    requires Linked(mem, sentinel, nodes) && node != sentinel && node !in nodes
    ensures Linked(mem - {node}, sentinel, nodes)
    ensures OthersKept(mem, mem - {node}, sentinel, [node])
  {
    hide Linked;
    OtherListKept(mem, mem - {node}, node, [], sentinel, nodes);
  }

  /** `now` is `mem` with an emptied sentinel and without the first `j` nodes. */
  ghost predicate Freed(mem: Memory, now: Memory, sentinel: Address, nodes: seq<Address>, j: nat)
    requires j <= |nodes|
  {
    && sentinel in now && now[sentinel] == NULL
    && forall x :: x != sentinel ==>
      (x in now <==> x in mem && x !in nodes[..j]) && (x in now ==> now[x] == mem[x])
  }

  lemma FreeStep(mem: Memory, now: Memory, sentinel: Address, nodes: seq<Address>, j: nat)
    requires j < |nodes| && Freed(mem, now, sentinel, nodes, j) && Linked(mem, sentinel, nodes)
    ensures nodes[j] in now && nodes[j] in mem && now[nodes[j]] == mem[nodes[j]]
    ensures Freed(mem, now - {nodes[j]}, sentinel, nodes, j + 1)
    ensures Linked(now - {nodes[j]}, sentinel, [])
  {
    hide Linked, Xor;
    StepForward(mem, sentinel, nodes, j);
    NodesDistinct(mem, sentinel, nodes, j);
    assert nodes[..j + 1] == nodes[..j] + [nodes[j]];
    var freed := now - {nodes[j]};
    Emptied(freed, sentinel);
    assert freed == freed[sentinel := NULL];
  }

  lemma FreedKept(mem: Memory, now: Memory, sentinel: Address, nodes: seq<Address>, j: nat)
    requires j <= |nodes| && Freed(mem, now, sentinel, nodes, j) && sentinel !in nodes
    ensures OthersKept(mem, now, sentinel, nodes)
    ensures forall x :: x in nodes[..j] ==> x !in now
  {
  }

  // ---- Filtering ----

  lemma GoneNone(deletes: bool, mem: Memory)
    ensures Gone(deletes, mem, [])
  {
  }

  lemma BeforeFirst(sentinel: Address, nodes: seq<Address>)
    ensures NodeBefore(sentinel, nodes, 0) == sentinel
  {
  }

  lemma RemovedPosition(sentinel: Address, nodes: seq<Address>, i: nat)
    requires i < |nodes|
    ensures |Without(nodes, i)| == |nodes| - 1
    ensures NodeBefore(sentinel, Without(nodes, i), i) == NodeBefore(sentinel, nodes, i)
    ensures NodeAt(sentinel, Without(nodes, i), i) == NodeAt(sentinel, nodes, i + 1)
    ensures NodeBefore(sentinel, nodes, i + 1) == NodeAt(sentinel, nodes, i) == nodes[i]
  {
  }

  lemma RemovedMember(nodes: seq<Address>, i: nat)
    requires i < |nodes| && nodes[i] !in nodes[..i] && nodes[i] !in nodes[i + 1..]
    ensures nodes[i] !in Without(nodes, i) && nodes[i] in nodes
  {
  }

  lemma RemainingNode(mem: Memory, sentinel: Address, matches: Address -> bool, nodes: seq<Address>, j: nat, x: Address)
    requires j <= |nodes| && Linked(mem, sentinel, nodes)
    ensures x in Remaining(matches, nodes, j) ==> x in nodes
    ensures x in Filter(matches, nodes[..j]) ==> x in nodes && x != sentinel && x !in Remaining(matches, nodes, j)
  {
    hide Filter, Remaining, Linked;
    forall a, b | 0 <= a < b < |nodes| ensures nodes[a] != nodes[b] {
      NodesDistinct(mem, sentinel, nodes, a);
      assert nodes[b] in nodes[a + 1..];
    }
    RemainingApart(matches, nodes, j, x);
    NodesDistinct(mem, sentinel, nodes, 0);
  }

  ghost predicate Gone(deletes: bool, mem: Memory, deleted: seq<Address>) {
    deletes ==> forall x :: x in deleted ==> x !in mem
  }

  lemma RemovedPlain(matches: Address -> bool, nodes: seq<Address>, mem: Memory, deletes: bool)
    requires Gone(deletes, mem, Filter(matches, nodes))
    ensures deletes ==> forall i :: 0 <= i < |nodes| && matches(nodes[i]) ==> nodes[i] !in mem
    ensures forall i :: 0 <= i < |nodes| ==> (nodes[i] in Filter(Negation(matches), nodes) <==> !matches(nodes[i]))
  {
    hide Filter;
    forall i | 0 <= i < |nodes|
      ensures nodes[i] in Filter(matches, nodes) <==> matches(nodes[i])
      ensures nodes[i] in Filter(Negation(matches), nodes) <==> !matches(nodes[i])
    {
      FilterMember(matches, nodes, nodes[i]);
      FilterMember(Negation(matches), nodes, nodes[i]);
    }
  }

  lemma RemovalKept(mem: Memory, before: Memory, after: Memory, sentinel: Address,
      matches: Address -> bool, nodes: seq<Address>, j: nat, deletes: bool)
    requires Linked(mem, sentinel, nodes) && j < |nodes|
    requires OthersKept(mem, before, sentinel, nodes)
    requires OthersKept(before, after, sentinel, Remaining(matches, nodes, j))
    requires Gone(deletes, before, Filter(matches, nodes[..j])) && (deletes ==> nodes[j] !in after)
    ensures OthersKept(mem, after, sentinel, nodes)
    ensures Gone(deletes, after, Filter(matches, nodes[..j]) + [nodes[j]])
  {
    hide Linked, Filter, Remaining;
    forall x
      ensures x in Remaining(matches, nodes, j) ==> x in nodes
      ensures x in Filter(matches, nodes[..j]) ==> x in nodes && x != sentinel && x !in Remaining(matches, nodes, j)
    {
      RemainingNode(mem, sentinel, matches, nodes, j, x);
    }
  }

  // ---- The memory the nodes live in, and the list ----

  class NodeMemory {
    var link: Memory

    constructor (link: Memory)
      ensures this.link == link
    {
      this.link := link;
    }
  }

  class List {
    const heap: NodeMemory
    const sentinel: Address
    var size: nat
    var tail: Address
    ghost var nodes: seq<Address>

    ghost predicate Valid()
      reads this, heap
    {
      && Linked(heap.link, sentinel, nodes)
      && tail == Tail(sentinel, nodes)
      && size == |nodes|
    }

    /** An iterator `(prev, current)` at position `i`, where `|nodes|` is `end()`. */
    ghost predicate At(prev: Address, current: Address, i: nat)
      reads this
    {
      i <= |nodes| && prev == NodeBefore(sentinel, nodes, i) && current == NodeAt(sentinel, nodes, i)
    }

    constructor (heap: NodeMemory, sentinel: Address)
      modifies heap
      ensures Valid() && nodes == [] && this.heap == heap && this.sentinel == sentinel
      ensures heap.link == old(heap.link)[sentinel := NULL]
    {
      this.heap, this.sentinel, size, tail, nodes := heap, sentinel, 0, sentinel, [];
      new;
      hide Linked;
      Emptied(heap.link, sentinel);
      heap.link := heap.link[sentinel := NULL];
    }

    method Front() returns (node: Address)
      requires Valid()
      ensures At(sentinel, node, 0)
    {
      hide Linked, Xor;
      StepForward(heap.link, sentinel, nodes, |nodes|);
      node := Xor(tail, heap.link[sentinel]);
    }

    /** `operator++`; past `end()` it comes round to the front. */
    method Next(prev: Address, current: Address, ghost i: nat) returns (prev': Address, current': Address)
      requires Valid() && At(prev, current, i)
      ensures At(prev', current', if i < |nodes| then i + 1 else 0)
    {
      hide Linked, Xor;
      StepForward(heap.link, sentinel, nodes, i);
      prev', current' := current, Xor(prev, heap.link[current]);
    }

    /** `operator--`; before the front it comes round to `end()`. */
    method Previous(prev: Address, current: Address, ghost i: nat) returns (prev': Address, current': Address)
      requires Valid() && At(prev, current, i)
      ensures At(prev', current', if 0 < i then i - 1 else |nodes|)
    {
      hide Linked, Xor;
      StepBackward(heap.link, sentinel, nodes, i);
      prev', current' := Xor(current, heap.link[prev]), prev;
    }

    method Extract(prev: Address, current: Address, ghost i: nat)
      requires Valid() && At(prev, current, i) && i < |nodes|
      modifies this, heap
      ensures Valid() && nodes == Without(old(nodes), i)
      ensures OthersKept(old(heap.link), heap.link, sentinel, old(nodes))
    {
      hide Linked, Xor, Toggle, OthersKept;
      StepForward(heap.link, sentinel, nodes, i);
      Unlinking(heap.link, sentinel, nodes, i);
      var next := Xor(prev, heap.link[current]);
      UnlinkSteps(heap.link, prev, current, next);
      heap.link := Toggle(heap.link, prev, current, next);
      heap.link := Toggle(heap.link, next, current, prev);
      if next == sentinel {
        tail := prev;
      }
      size := size - 1;
      nodes := Without(nodes, i);
    }

    method InsertAfter(prev: Address, current: Address, node: Address, ghost i: nat)
      requires Valid() && At(prev, current, i) && node != NULL && node != sentinel && node !in nodes
      modifies this, heap
      ensures Valid() && nodes == Inserted(old(nodes), if i < |old(nodes)| then i + 1 else 0, [node])
      ensures OthersKept(old(heap.link), heap.link, sentinel, old(nodes) + [node])
    {
      hide Linked, Xor, Toggle, OthersKept;
      StepForward(heap.link, sentinel, nodes, i);
      ghost var j := if i < |nodes| then i + 1 else 0;
      Linking(heap.link, sentinel, nodes, j, node);
      var newPrev := current;
      var newNext := Xor(prev, heap.link[newPrev]);
      LinkSteps(heap.link, newPrev, node, newNext);
      heap.link := heap.link[node := Xor(newPrev, newNext)];
      heap.link := Toggle(heap.link, newPrev, newNext, node);
      heap.link := Toggle(heap.link, newNext, newPrev, node);
      if newNext == sentinel {
        tail := node;
      }
      size := size + 1;
      nodes := Inserted(nodes, j, [node]);
    }

    method InsertBefore(prev: Address, current: Address, node: Address, ghost i: nat)
      requires Valid() && At(prev, current, i) && node != NULL && node != sentinel && node !in nodes
      modifies this, heap
      ensures Valid() && nodes == Inserted(old(nodes), i, [node])
      ensures OthersKept(old(heap.link), heap.link, sentinel, old(nodes) + [node])
    {
      hide Linked, Xor, Toggle, OthersKept;
      Linking(heap.link, sentinel, nodes, i, node);
      LinkSteps(heap.link, prev, node, current);
      heap.link := heap.link[node := Xor(prev, current)];
      heap.link := Toggle(heap.link, prev, current, node);
      heap.link := Toggle(heap.link, current, prev, node);
      if current == sentinel {
        tail := node;
      }
      size := size + 1;
      nodes := Inserted(nodes, i, [node]);
    }

    method PopBack() returns (node: Address)
      requires Valid() && nodes != []
      modifies this, heap
      ensures Valid() && old(nodes) == nodes + [node]
      ensures OthersKept(old(heap.link), heap.link, sentinel, old(nodes))
    {
      hide Linked, Xor, Toggle, OthersKept;
      ghost var i := |nodes| - 1;
      StepBackward(heap.link, sentinel, nodes, |nodes|);
      Unlinking(heap.link, sentinel, nodes, i);
      node := tail;
      var prev := Xor(sentinel, heap.link[node]);
      UnlinkSteps(heap.link, prev, node, sentinel);
      heap.link := Toggle(heap.link, prev, node, sentinel);
      heap.link := Toggle(heap.link, sentinel, node, prev);
      tail := prev;
      size := size - 1;
      nodes := Without(nodes, i);
    }

    method PopFront() returns (node: Address)
      requires Valid() && nodes != []
      modifies this, heap
      ensures Valid() && old(nodes) == [node] + nodes
      ensures OthersKept(old(heap.link), heap.link, sentinel, old(nodes))
    {
      hide Linked, Xor, Toggle, OthersKept;
      StepForward(heap.link, sentinel, nodes, |nodes|);
      StepForward(heap.link, sentinel, nodes, 0);
      Unlinking(heap.link, sentinel, nodes, 0);
      node := Xor(tail, heap.link[sentinel]);
      var next := Xor(sentinel, heap.link[node]);
      UnlinkSteps(heap.link, sentinel, node, next);
      heap.link := Toggle(heap.link, sentinel, node, next);
      heap.link := Toggle(heap.link, next, node, sentinel);
      if next == sentinel {
        tail := sentinel;
      }
      size := size - 1;
      nodes := Without(nodes, 0);
    }

    method PushBack(node: Address)
      requires Valid() && node != NULL && node != sentinel && node !in nodes
      modifies this, heap
      ensures Valid() && nodes == old(nodes) + [node]
      ensures OthersKept(old(heap.link), heap.link, sentinel, old(nodes) + [node])
    {
      hide Linked, Xor, Toggle, OthersKept;
      Linking(heap.link, sentinel, nodes, |nodes|, node);
      var prev := tail;
      LinkSteps(heap.link, prev, node, sentinel);
      heap.link := heap.link[node := Xor(prev, sentinel)];
      heap.link := Toggle(heap.link, prev, sentinel, node);
      heap.link := Toggle(heap.link, sentinel, prev, node);
      tail := node;
      size := size + 1;
      nodes := Inserted(nodes, |nodes|, [node]);
    }

    method PushFront(node: Address)
      requires Valid() && node != NULL && node != sentinel && node !in nodes
      modifies this, heap
      ensures Valid() && nodes == [node] + old(nodes)
      ensures OthersKept(old(heap.link), heap.link, sentinel, old(nodes) + [node])
    {
      hide Linked, Xor, Toggle, OthersKept;
      StepForward(heap.link, sentinel, nodes, |nodes|);
      Linking(heap.link, sentinel, nodes, 0, node);
      var first := Xor(tail, heap.link[sentinel]);
      LinkSteps(heap.link, sentinel, node, first);
      heap.link := heap.link[node := Xor(sentinel, first)];
      heap.link := Toggle(heap.link, sentinel, first, node);
      heap.link := Toggle(heap.link, first, sentinel, node);
      if first == sentinel {
        tail := node;
      }
      size := size + 1;
      nodes := Inserted(nodes, 0, [node]);
    }

    method ReleaseAll()
      modifies this, heap
      ensures Valid() && nodes == []
      ensures heap.link == old(heap.link)[sentinel := NULL]
    {
      hide Linked;
      Emptied(heap.link, sentinel);
      heap.link := heap.link[sentinel := NULL];
      tail := sentinel;
      size := 0;
      nodes := [];
    }

    /** No node is written: the memory is not in the frame. */
    method Reverse()
      requires Valid()
      modifies this
      ensures Valid() && nodes == Reversed(old(nodes))
    {
      hide Linked, Xor;
      StepForward(heap.link, sentinel, nodes, |nodes|);
      Reversing(heap.link, sentinel, nodes);
      tail := Xor(tail, heap.link[sentinel]);
      nodes := Reversed(nodes);
    }

    method Splice(prev: Address, current: Address, x: List, ghost i: nat)
      requires Valid() && At(prev, current, i)
      requires x != this && x.heap == heap && x.Valid() && Apart(sentinel, nodes, x.sentinel, x.nodes)
      modifies this, x, heap
      ensures Valid() && nodes == Inserted(old(nodes), i, old(x.nodes))
      ensures x.Valid() && x.nodes == []
      ensures OthersKept(old(heap.link), heap.link, sentinel, old(nodes) + old(x.nodes) + [x.sentinel])
    {
      hide Linked, Xor, Toggle, OthersKept, Apart;
      ghost var mem, was, more := heap.link, nodes, x.nodes;
      if x.size == 0 {
        assert Inserted(was, i, more) == was;
        OthersKeptRefl(mem, sentinel, was + more + [x.sentinel]);
        return;
      }
      StepForward(mem, x.sentinel, more, |more|);
      Joining(mem, sentinel, was, i, x.sentinel, more);
      var otherFirst := Xor(x.tail, heap.link[x.sentinel]);
      var otherLast := x.tail;
      JoinSteps(mem, prev, current, x.sentinel, otherFirst, otherLast);
      heap.link := Toggle(heap.link, prev, current, otherFirst);
      heap.link := Toggle(heap.link, otherFirst, x.sentinel, prev);
      heap.link := Toggle(heap.link, otherLast, x.sentinel, current);
      heap.link := Toggle(heap.link, current, prev, otherLast);
      if current == sentinel {
        tail := otherLast;
      }
      size := size + x.size;
      nodes := Inserted(was, i, more);
      SplicedFrame(mem, heap.link, sentinel, was, x.sentinel, more, i);
      x.ReleaseAll();
    }

    /** `for_each`: the nodes in order, after which the iterator is back at the sentinel. */
    method ForEach() returns (seen: seq<Address>)
      requires Valid()
      ensures seen == nodes
    {
      hide Linked, Xor;
      var prev := sentinel;
      var current := Front();
      seen := [];
      while current != sentinel
        invariant |seen| <= |nodes| && seen == nodes[..|seen|] && At(prev, current, |seen|)
        decreases |nodes| - |seen|
      {
        NodesDistinct(heap.link, sentinel, nodes, |seen|);
        seen := seen + [current];
        prev, current := Next(prev, current, |seen| - 1);
      }
      NodesDistinct(heap.link, sentinel, nodes, |seen|);
    }

    /** From `--end()` to `begin()`. */
    method ForEachBackward() returns (seen: seq<Address>)
      requires Valid()
      ensures seen == Reversed(nodes)
    {
      hide Linked, Xor;
      var prev, current := tail, sentinel;
      seen := [];
      while prev != sentinel
        invariant |seen| <= |nodes| && At(prev, current, |nodes| - |seen|)
        invariant forall k :: 0 <= k < |seen| ==> seen[k] == nodes[|nodes| - 1 - k]
        decreases |nodes| - |seen|
      {
        NodesDistinct(heap.link, sentinel, nodes, |nodes| - |seen|);
        prev, current := Previous(prev, current, |nodes| - |seen|);
        seen := seen + [current];
      }
      NodesDistinct(heap.link, sentinel, nodes, |nodes| - |seen|);
    }

    /** Every node is read before the deleter frees it, and freed once, in order. */
    method Clear(deletes: bool) returns (deleted: seq<Address>)
      requires Valid()
      modifies this, heap
      ensures Valid() && nodes == []
      ensures deleted == if deletes then old(nodes) else []
      ensures OthersKept(old(heap.link), heap.link, sentinel, old(nodes))
      ensures forall x :: x in deleted ==> x !in heap.link
      ensures !deletes ==> heap.link == old(heap.link)[sentinel := NULL] || old(nodes) == []
    {
      hide Linked, Xor, OthersKept;
      deleted := [];
      if size == 0 {
        OthersKeptRefl(heap.link, sentinel, nodes);
        return;
      }
      ghost var mem, was := heap.link, nodes;
      var prev := sentinel;
      var current := Front();
      ReleaseAll();
      NodesDistinct(mem, sentinel, was, 0);
      if deletes {
        while current != sentinel
          invariant |deleted| <= |was| && deleted == was[..|deleted|]
          invariant prev == NodeBefore(sentinel, was, |deleted|) && current == NodeAt(sentinel, was, |deleted|)
          invariant Freed(mem, heap.link, sentinel, was, |deleted|)
          invariant Valid() && nodes == []
          decreases |was| - |deleted|
        {
          ghost var j := |deleted|;
          NodesDistinct(mem, sentinel, was, j);
          StepForward(mem, sentinel, was, j);
          FreeStep(mem, heap.link, sentinel, was, j);
          var next := Xor(prev, heap.link[current]);
          heap.link := heap.link - {current};
          deleted := deleted + [current];
          prev, current := current, next;
        }
        NodesDistinct(mem, sentinel, was, |deleted|);
      }
      FreedKept(mem, heap.link, sentinel, was, |deleted|);
    }

    /** `extract_`, then the deleter. */
    method RemoveNode(prev: Address, current: Address, deletes: bool, ghost i: nat)
      requires Valid() && At(prev, current, i) && i < |nodes|
      modifies this, heap
      ensures Valid() && nodes == Without(old(nodes), i)
      ensures OthersKept(old(heap.link), heap.link, sentinel, old(nodes))
      ensures deletes ==> current !in heap.link
    {
      hide Linked, OthersKept, Without;
      NodesDistinct(heap.link, sentinel, nodes, i);
      ghost var mem, was := heap.link, nodes;
      Extract(prev, current, i);
      if deletes {
        assert current !in nodes && forall x :: x in [current] ==> x in was by { RemovedMember(was, i); }
        FreedNode(heap.link, sentinel, nodes, current);
        OthersKeptTwice(mem, heap.link, heap.link - {current}, sentinel, was, [current]);
        heap.link := heap.link - {current};
      }
    }

    method RemoveIf(matches: Address -> bool, deletes: bool) returns (removed: nat, ghost deleted: seq<Address>)
      requires Valid()
      modifies this, heap
      ensures Valid() && nodes == Filter(Negation(matches), old(nodes))
      ensures deleted == Filter(matches, old(nodes)) && removed == |deleted|
      ensures OthersKept(old(heap.link), heap.link, sentinel, old(nodes))
      ensures Gone(deletes, heap.link, deleted)
      ensures deletes ==> forall i :: 0 <= i < |old(nodes)| && matches(old(nodes)[i]) ==> old(nodes)[i] !in heap.link
      ensures forall i :: 0 <= i < |old(nodes)| ==> (old(nodes)[i] in nodes <==> !matches(old(nodes)[i]))
    {
      hide Linked, Xor, OthersKept, Filter, Remaining, Gone, NodeAt, NodeBefore, Without, Negation;
      ghost var mem, was := heap.link, nodes;
      removed, deleted := 0, [];
      var prev := sentinel;
      var current := Front();
      ghost var i, j := 0, 0;
      assert At(prev, current, i) by { BeforeFirst(sentinel, was); }
      RemainingEnds(matches, was);
      GoneNone(deletes, mem);
      OthersKeptRefl(mem, sentinel, was);
      while current != sentinel
        invariant j <= |was| && i == |Filter(Negation(matches), was[..j])| && deleted == Filter(matches, was[..j])
        invariant Valid() && nodes == Remaining(matches, was, j) && |nodes| == i + |was| - j && removed == |deleted|
        invariant At(prev, current, i)
        invariant OthersKept(mem, heap.link, sentinel, was) && Gone(deletes, heap.link, deleted)
        decreases |was| - j
      {
        NodesDistinct(heap.link, sentinel, nodes, i);
        RemainingStep(matches, was, j);
        StepForward(heap.link, sentinel, nodes, i);
        RemovedPosition(sentinel, nodes, i);
        var next := Xor(prev, heap.link[current]);
        if matches(current) {
          ghost var before := heap.link;
          RemoveNode(prev, current, deletes, i);
          RemovalKept(mem, before, heap.link, sentinel, matches, was, j, deletes);
          removed, deleted := removed + 1, deleted + [current];
        } else {
          prev, i := current, i + 1;
        }
        current, j := next, j + 1;
      }
      NodesDistinct(heap.link, sentinel, nodes, i);
      RemovedPlain(matches, was, heap.link, deletes);
    }
  }
}

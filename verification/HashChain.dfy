/**
 The collision chains of `hxhash_table`: singly linked nodes that start at a
 slot of the table. Pointers are numbers, 0 is null, and the memory holds the
 `hash_next` of every node that has not been deleted, so that no deleted node
 can be read.
 */
module HashChains {
  import opened Order

  const NULL: nat := 0

  type Links = map<nat, nat>

  function NodeAt(nodes: seq<nat>, i: nat): nat { if i < |nodes| then nodes[i] else NULL }

  /** The nodes from `head` to the null pointer. */
  ghost predicate Chain(next: Links, head: nat, nodes: seq<nat>) {
    && head == NodeAt(nodes, 0)
    && (forall i :: 0 <= i < |nodes| ==> nodes[i] != NULL && LinksTo(next, nodes, i))
    && (forall i, j :: 0 <= i < j < |nodes| ==> nodes[i] != nodes[j])
  }

  ghost predicate LinksTo(next: Links, nodes: seq<nat>, i: nat)
    requires i < |nodes|
  {
    nodes[i] in next && next[nodes[i]] == NodeAt(nodes, i + 1)
  }

  /** Memory outside `nodes` is as it was. */
  ghost predicate OthersKept(before: Links, after: Links, nodes: seq<nat>) {
    forall x :: x !in nodes ==> (x in after <==> x in before) && (x in before ==> after[x] == before[x])
  }

  lemma ChainTail(next: Links, head: nat, nodes: seq<nat>)
    requires Chain(next, head, nodes) && nodes != []
    ensures head in next && head != NULL && Chain(next, next[head], nodes[1..]) && head !in nodes[1..]
  {
    forall i | 0 <= i < |nodes| - 1 ensures nodes[1..][i] != NULL && LinksTo(next, nodes[1..], i) {
      assert LinksTo(next, nodes, i + 1);
    }
    assert LinksTo(next, nodes, 0);
  }

  lemma ChainKept(before: Links, after: Links, head: nat, nodes: seq<nat>, touched: seq<nat>)
    requires Chain(before, head, nodes) && OthersKept(before, after, touched)
    requires forall x :: x in touched ==> x !in nodes
    ensures Chain(after, head, nodes)
  {
    forall i | 0 <= i < |nodes| ensures LinksTo(after, nodes, i) {
      assert LinksTo(before, nodes, i);
      assert nodes[i] in nodes;
    }
  }

  /** Unlinking a node that is not the first. */
  lemma ChainUnlink(next: Links, head: nat, nodes: seq<nat>, i: nat)
    requires Chain(next, head, nodes) && 0 < i < |nodes|
    ensures nodes[i] in next && nodes[i - 1] in next
    ensures Chain(next[nodes[i - 1] := next[nodes[i]]], head, Without(nodes, i)) && nodes[i] !in Without(nodes, i)
  {
    hide LinksTo;
    assert nodes[i] in next && nodes[i - 1] in next by {
      LinkIn(next, nodes, i);
      LinkIn(next, nodes, i - 1);
    }
    var after, rest := next[nodes[i - 1] := next[nodes[i]]], Without(nodes, i);
    forall k | 0 <= k < |rest| ensures rest[k] != NULL && LinksTo(after, rest, k) {
      UnlinkAt(next, nodes, i, k);
    }
  }

  lemma LinkIn(next: Links, nodes: seq<nat>, i: nat)
    requires i < |nodes| && LinksTo(next, nodes, i)
    ensures nodes[i] in next && next[nodes[i]] == NodeAt(nodes, i + 1)
  {
  }

  lemma UnlinkAt(next: Links, nodes: seq<nat>, i: nat, k: nat)
    requires Chain(next, NodeAt(nodes, 0), nodes) && 0 < i < |nodes| && k < |nodes| - 1
    requires nodes[i] in next
    ensures LinksTo(next[nodes[i - 1] := next[nodes[i]]], Without(nodes, i), k)
  {
    hide Without, Chain, LinksTo;
    var j := if k < i then k else k + 1;
    WithoutAt(nodes, i, k);
    if k + 1 < |nodes| - 1 {
      WithoutAt(nodes, i, k + 1);
    }
    ChainNodes(next, nodes, j, i - 1);
    ChainNodes(next, nodes, i, i - 1);
    var after, rest := next[nodes[i - 1] := next[nodes[i]]], Without(nodes, i);
    assert LinksTo(after, rest, k) by {
      LinkTo(after, rest, k);
    }
  }

  /** The nodes of a chain link to the next one and differ. */
  lemma ChainNodes(next: Links, nodes: seq<nat>, i: nat, j: nat)
    requires Chain(next, NodeAt(nodes, 0), nodes) && i < |nodes| && j < |nodes|
    ensures nodes[i] in next && next[nodes[i]] == NodeAt(nodes, i + 1)
    ensures nodes[i] == nodes[j] ==> i == j
  {
    assert LinksTo(next, nodes, i);
  }

  lemma LinkTo(next: Links, nodes: seq<nat>, i: nat)
    requires i < |nodes| && nodes[i] in next && next[nodes[i]] == NodeAt(nodes, i + 1)
    ensures LinksTo(next, nodes, i)
  {
  }

  lemma ChainUnlinkFirst(next: Links, head: nat, nodes: seq<nat>)
    requires Chain(next, head, nodes) && nodes != []
    ensures head in next && Chain(next, next[head], Without(nodes, 0)) && head !in Without(nodes, 0)
  {
    ChainTail(next, head, nodes);
    assert Without(nodes, 0) == nodes[1..];
  }

  // ---- The slots of a table over a memory ----

  class Memory {
    var next: Links

    constructor (next: Links)
      ensures this.next == next
    {
      this.next := next;
    }

    /** The deleter: once for a node, which is then gone. */
    method Delete(node: nat)
      requires node in next
      modifies this
      ensures next == old(next) - {node}
    {
      next := next - {node};
    }
  }

  /** `equal_(node, key)`, which reads the node. */
  predicate Matches(next: Links, node: nat, equal: nat -> bool)
    requires node in next
  {
    equal(node)
  }

  /** `chain_count_multi_`. */
  method CountMulti(memory: Memory, head: nat, equal: nat -> bool, ghost nodes: seq<nat>) returns (total: nat)
    requires Chain(memory.next, head, nodes)
    ensures total == |Filter(equal, nodes)|
  {
    hide Filter, Chain, Remaining;
    var node := head;
    ghost var k: nat := 0;
    total := 0;
    RemainingEnds(equal, nodes);
    ChainSuffix(memory.next, head, nodes, 0);
    while node != NULL
      invariant k <= |nodes| && node == NodeAt(nodes, k) && total == |Filter(equal, nodes[..k])|
      decreases |nodes| - k
    {
      ChainSuffix(memory.next, head, nodes, k);
      FilterNext(equal, nodes, k);
      if Matches(memory.next, node, equal) {
        total := total + 1;
      }
      node, k := memory.next[node], k + 1;
    }
    ChainSuffix(memory.next, head, nodes, k);
  }

  /** `chain_length_`. */
  method Length(memory: Memory, head: nat, ghost nodes: seq<nat>) returns (count: nat)
    requires Chain(memory.next, head, nodes)
    ensures count == |nodes|
  {
    var node := head;
    count := 0;
    while node != NULL
      invariant count <= |nodes| && node == NodeAt(nodes, count)
      decreases |nodes| - count
    {
      assert LinksTo(memory.next, nodes, count);
      node, count := memory.next[node], count + 1;
    }
  }

  /** `chain_erase_at_`. */
  method EraseAt(memory: Memory, table: array<nat>, slot: nat, node: nat, ghost nodes: seq<nat>, ghost i: nat)
    requires slot < table.Length && Chain(memory.next, table[slot], nodes) && i < |nodes| && node == nodes[i]
    modifies memory, table
    ensures Chain(memory.next, table[slot], Without(nodes, i))
    ensures OthersKept(old(memory.next), memory.next, nodes)
    ensures forall k :: 0 <= k < table.Length && k != slot ==> table[k] == old(table[k])
  {
    var previous: nat, it: nat := NULL, table[slot];
    ghost var k: nat := 0;
    while it != node
      invariant k <= i && it == nodes[k] && previous == if k == 0 then NULL else nodes[k - 1]
      decreases i - k
    {
      assert LinksTo(memory.next, nodes, k);
      previous := it;
      it := memory.next[it];
      k := k + 1;
    }
    assert k == i;
    assert LinksTo(memory.next, nodes, i);
    if previous != NULL {
      ChainUnlink(memory.next, table[slot], nodes, i);
      memory.next := memory.next[previous := memory.next[node]];
    } else {
      ChainUnlinkFirst(memory.next, table[slot], nodes);
      table[slot] := memory.next[node];
    }
  }

  /** The position of the first match, or the length. */
  function FirstMatch(equal: nat -> bool, nodes: seq<nat>): (i: nat)
    ensures i <= |nodes| && (i < |nodes| ==> equal(nodes[i]))
    ensures forall k :: 0 <= k < i ==> !equal(nodes[k])
  {
    if nodes == [] || equal(nodes[0]) then 0
    else
      var i := FirstMatch(equal, nodes[1..]);
      assert forall k :: 1 <= k < i + 1 ==> nodes[k] == nodes[1..][k - 1];
      i + 1
  }

  lemma {:induction false} FirstMatchIs(equal: nat -> bool, nodes: seq<nat>, i: nat)
    requires i <= |nodes| && (i < |nodes| ==> equal(nodes[i])) && forall k :: 0 <= k < i ==> !equal(nodes[k])
    ensures FirstMatch(equal, nodes) == i
  {
    if i > 0 {
      FirstMatchIs(equal, nodes[1..], i - 1);
    }
  }

  /** `chain_extract_`. */
  method Extract(memory: Memory, table: array<nat>, slot: nat, equal: nat -> bool, ghost nodes: seq<nat>) returns (found: nat)
    requires slot < table.Length && Chain(memory.next, table[slot], nodes)
    modifies memory, table
    ensures var i := FirstMatch(equal, nodes);
      found == NodeAt(nodes, i) && Chain(memory.next, table[slot], if i < |nodes| then Without(nodes, i) else nodes)
    ensures OthersKept(old(memory.next), memory.next, nodes)
    ensures forall k :: 0 <= k < table.Length && k != slot ==> table[k] == old(table[k])
  {
    var previous, node := NULL, table[slot];
    ghost var k: nat := 0;
    while node != NULL
      invariant k <= |nodes| && node == NodeAt(nodes, k) && previous == if k == 0 then NULL else nodes[k - 1]
      invariant forall j :: 0 <= j < k ==> !equal(nodes[j])
      decreases |nodes| - k
    {
      assert LinksTo(memory.next, nodes, k);
      if Matches(memory.next, node, equal) {
        FirstMatchIs(equal, nodes, k);
        if previous != NULL {
          ChainUnlink(memory.next, table[slot], nodes, k);
          memory.next := memory.next[previous := memory.next[node]];
        } else {
          ChainUnlinkFirst(memory.next, table[slot], nodes);
          table[slot] := memory.next[node];
        }
        return node;
      }
      previous := node;
      node := memory.next[node];
      k := k + 1;
    }
    FirstMatchIs(equal, nodes, k);
    found := NULL;
  }

  lemma ChainReplace(next: Links, head: nat, nodes: seq<nat>, i: nat, node: nat)
    requires Chain(next, head, nodes) && i < |nodes| && node != NULL && node !in nodes
    ensures nodes[i] in next && (i > 0 ==> nodes[i - 1] in next)
    ensures var linked := next[node := next[nodes[i]]];
      Chain(if i > 0 then linked[nodes[i - 1] := node] else linked, if i > 0 then head else node, nodes[i := node])
  {
    assert LinksTo(next, nodes, i) && (i > 0 ==> LinksTo(next, nodes, i - 1));
    var linked := next[node := next[nodes[i]]];
    var after, all := if i > 0 then linked[nodes[i - 1] := node] else linked, nodes[i := node];
    forall k | 0 <= k < |all| ensures all[k] != NULL && LinksTo(after, all, k) {
      assert LinksTo(next, nodes, k);
    }
  }

  lemma ChainPrepend(next: Links, head: nat, nodes: seq<nat>, node: nat)
    requires Chain(next, head, nodes) && node != NULL && node !in nodes
    ensures Chain(next[node := head], node, [node] + nodes)
  {
    var after, all := next[node := head], [node] + nodes;
    forall k | 0 <= k < |all| ensures all[k] != NULL && LinksTo(after, all, k) {
      if k > 0 {
        assert LinksTo(next, nodes, k - 1);
      }
    }
  }

  /** `chain_replace_`: the first match makes room for the new node, in its place; without one the node goes first. */
  method Replace(memory: Memory, table: array<nat>, slot: nat, node: nat, equal: nat -> bool, ghost nodes: seq<nat>) returns (replaced: nat)
    requires slot < table.Length && Chain(memory.next, table[slot], nodes) && node != NULL && node !in nodes
    modifies memory, table
    ensures var i := FirstMatch(equal, nodes);
      replaced == NodeAt(nodes, i) && Chain(memory.next, table[slot], if i < |nodes| then nodes[i := node] else [node] + nodes)
    ensures OthersKept(old(memory.next), memory.next, nodes + [node])
    ensures forall k :: 0 <= k < table.Length && k != slot ==> table[k] == old(table[k])
  {
    var previous, existing := NULL, table[slot];
    ghost var k: nat := 0;
    while existing != NULL
      invariant k <= |nodes| && existing == NodeAt(nodes, k) && previous == if k == 0 then NULL else nodes[k - 1]
      invariant forall j :: 0 <= j < k ==> !equal(nodes[j])
      decreases |nodes| - k
    {
      assert LinksTo(memory.next, nodes, k);
      if Matches(memory.next, existing, equal) {
        FirstMatchIs(equal, nodes, k);
        ChainReplace(memory.next, table[slot], nodes, k, node);
        memory.next := memory.next[node := memory.next[existing]];
        if previous != NULL {
          memory.next := memory.next[previous := node];
        } else {
          table[slot] := node;
        }
        return existing;
      }
      previous := existing;
      existing := memory.next[existing];
      k := k + 1;
    }
    FirstMatchIs(equal, nodes, k);
    ChainPrepend(memory.next, table[slot], nodes, node);
    memory.next := memory.next[node := table[slot]];
    table[slot] := node;
    replaced := NULL;
  }

  // ---- Erasing every match ----

  /** The matches are gone if they are deleted, and nothing outside the chain has changed. */
  ghost predicate Erased(before: Links, after: Links, nodes: seq<nat>, deleted: seq<nat>, deletes: bool) {
    && OthersKept(before, after, nodes)
    && (deletes ==> forall x :: x in deleted ==> x !in after)
  }

  lemma ErasedStep(before: Links, now: Links, after: Links, head: nat, equal: nat -> bool, nodes: seq<nat>, j: nat, deletes: bool)
    requires Chain(before, head, nodes) && j < |nodes| && equal(nodes[j])
    requires Erased(before, now, nodes, Filter(equal, nodes[..j]), deletes)
    requires OthersKept(now, after, Remaining(equal, nodes, j)) && (deletes ==> nodes[j] !in after)
    ensures Erased(before, after, nodes, Filter(equal, nodes[..j + 1]), deletes)
  {
    hide Filter, LinksTo, Remaining;
    RemainingStep(equal, nodes, j);
    forall x
      ensures x in Remaining(equal, nodes, j) ==> x in nodes
      ensures x in Filter(equal, nodes[..j]) ==> x in nodes && x !in Remaining(equal, nodes, j)
    {
      RemainingApart(equal, nodes, j, x);
    }
  }

  /** Reads the successor, then deletes the node if there is a deleter. */
  method DeleteNode(memory: Memory, node: nat, deletes: bool, ghost head: nat, ghost nodes: seq<nat>)
    requires node in memory.next && Chain(memory.next, head, nodes) && node !in nodes
    modifies memory
    ensures Chain(memory.next, head, nodes) && OthersKept(old(memory.next), memory.next, [node])
    ensures deletes ==> node !in memory.next
  {
    hide Chain;
    if deletes {
      ChainKept(memory.next, memory.next - {node}, head, nodes, [node]);
      memory.Delete(node);
    }
  }

  /** The loop over the matching prefix, which the slot still points to. */
  method ErasePrefix(memory: Memory, head: nat, equal: nat -> bool, deletes: bool, ghost nodes: seq<nat>)
    returns (node: nat, count: nat, ghost j: nat)
    requires Chain(memory.next, head, nodes)
    modifies memory
    ensures j <= |nodes| && node == NodeAt(nodes, j) && count == j && (j < |nodes| ==> !equal(nodes[j]))
    ensures Filter(equal, nodes[..j]) == nodes[..j] && Filter(Negation(equal), nodes[..j]) == []
    ensures Chain(memory.next, node, nodes[j..])
    ensures Erased(old(memory.next), memory.next, nodes, nodes[..j], deletes)
  {
    hide Filter, Chain, Erased, OthersKept, LinksTo;
    node, count, j := head, 0, 0;
    ghost var before := memory.next;
    PrefixStart(memory.next, head, equal, nodes, deletes);
    while node != NULL && Matches(memory.next, node, equal)
      invariant j <= |nodes| && node == NodeAt(nodes, j) && count == j
      invariant Filter(equal, nodes[..j]) == nodes[..j] && Filter(Negation(equal), nodes[..j]) == []
      invariant Chain(memory.next, node, nodes[j..]) && (node != NULL <==> j < |nodes|) && (node != NULL ==> node in memory.next)
      invariant Erased(before, memory.next, nodes, nodes[..j], deletes)
      decreases |nodes| - j
    {
      var next := memory.next[node];
      ghost var now := memory.next;
      PrefixStep(before, now, head, node, equal, nodes, j);
      DeleteNode(memory, node, deletes, next, nodes[j + 1..]);
      PrefixErased(before, now, memory.next, head, nodes, j, deletes);
      count := count + 1;
      node, j := next, j + 1;
      NonNullIn(memory.next, node, nodes, j);
    }
  }

  lemma NonNullIn(next: Links, node: nat, nodes: seq<nat>, j: nat)
    requires j <= |nodes| && Chain(next, node, nodes[j..])
    ensures node == NodeAt(nodes, j) && (node != NULL <==> j < |nodes|) && (node != NULL ==> node in next)
  {
    if j < |nodes| {
      assert LinksTo(next, nodes[j..], 0);
    }
  }

  lemma PrefixStart(next: Links, head: nat, equal: nat -> bool, nodes: seq<nat>, deletes: bool)
    requires Chain(next, head, nodes)
    ensures Filter(equal, nodes[..0]) == nodes[..0] && Filter(Negation(equal), nodes[..0]) == []
    ensures nodes[0..] == nodes && Erased(next, next, nodes, nodes[..0], deletes)
    ensures head == NodeAt(nodes, 0) && (head != NULL <==> 0 < |nodes|) && (head != NULL ==> head in next)
  {
    assert nodes[0..] == nodes;
    NonNullIn(next, head, nodes, 0);
  }

  lemma PrefixStep(before: Links, now: Links, head: nat, node: nat, equal: nat -> bool, nodes: seq<nat>, j: nat)
    requires Chain(before, head, nodes) && j < |nodes| && Chain(now, node, nodes[j..]) && equal(node)
    requires Filter(equal, nodes[..j]) == nodes[..j] && Filter(Negation(equal), nodes[..j]) == []
    ensures node == nodes[j] && node in now && node !in nodes[j + 1..] && Chain(now, now[node], nodes[j + 1..])
    ensures nodes[..j + 1] == nodes[..j] + [nodes[j]]
    ensures Filter(equal, nodes[..j + 1]) == nodes[..j + 1] && Filter(Negation(equal), nodes[..j + 1]) == []
  {
    hide Filter;
    ChainTail(now, node, nodes[j..]);
    assert nodes[j..][1..] == nodes[j + 1..];
    FilterNext(equal, nodes, j);
    FilterNext(Negation(equal), nodes, j);
  }

  lemma PrefixErased(before: Links, now: Links, after: Links, head: nat, nodes: seq<nat>, j: nat, deletes: bool)
    requires Chain(before, head, nodes) && j < |nodes| && Erased(before, now, nodes, nodes[..j], deletes)
    requires OthersKept(now, after, [nodes[j]]) && (deletes ==> nodes[j] !in after)
    ensures Erased(before, after, nodes, nodes[..j + 1], deletes)
  {
    hide LinksTo;
    assert nodes[..j + 1] == nodes[..j] + [nodes[j]];
  }

  /** `chain_erase_multi_`: every match goes, once, and the others stay in order. */
  method EraseMulti(memory: Memory, table: array<nat>, slot: nat, equal: nat -> bool, deletes: bool, ghost nodes: seq<nat>)
    returns (count: nat)
    requires slot < table.Length && Chain(memory.next, table[slot], nodes)
    modifies memory, table
    ensures Chain(memory.next, table[slot], Filter(Negation(equal), nodes))
    ensures count == |Filter(equal, nodes)|
    ensures Erased(old(memory.next), memory.next, nodes, Filter(equal, nodes), deletes)
    ensures deletes ==> forall k :: 0 <= k < |nodes| && equal(nodes[k]) ==> nodes[k] !in memory.next
    ensures forall x :: x !in nodes ==>
      (x in memory.next <==> x in old(memory.next)) && (x in memory.next ==> memory.next[x] == old(memory.next)[x])
    ensures forall k :: 0 <= k < table.Length && k != slot ==> table[k] == old(table[k])
  {
    hide Filter, Chain, Erased, OthersKept, LinksTo, Remaining;
    ghost var before := memory.next;
    var head := table[slot];
    var node;
    ghost var j;
    node, count, j := ErasePrefix(memory, head, equal, deletes, nodes);
    table[slot] := node;
    RemainingAfterPrefix(equal, nodes, j);
    if node != NULL {
      count := EraseFollowing(memory, node, count, equal, deletes, before, head, nodes, j);
    } else {
      NonNullIn(memory.next, node, nodes, j);
    }
    ErasedPlain(before, memory.next, nodes, equal, deletes);
  }

  lemma ErasedPlain(before: Links, after: Links, nodes: seq<nat>, equal: nat -> bool, deletes: bool)
    requires Erased(before, after, nodes, Filter(equal, nodes), deletes)
    ensures deletes ==> forall k :: 0 <= k < |nodes| && equal(nodes[k]) ==> nodes[k] !in after
    ensures forall x :: x !in nodes ==> (x in after <==> x in before) && (x in after ==> after[x] == before[x])
  {
    hide Filter;
    forall k | 0 <= k < |nodes| && equal(nodes[k]) ensures nodes[k] in Filter(equal, nodes) {
      FilterMember(equal, nodes, nodes[k]);
    }
  }

  lemma RemainingAfterPrefix(equal: nat -> bool, nodes: seq<nat>, j: nat)
    requires j <= |nodes| && Filter(equal, nodes[..j]) == nodes[..j] && Filter(Negation(equal), nodes[..j]) == []
    ensures Remaining(equal, nodes, j) == nodes[j..]
    ensures j == |nodes| ==> nodes[..j] == nodes && Filter(equal, nodes) == nodes && Filter(Negation(equal), nodes) == [] && nodes[j..] == []
  {
    hide Filter;
    assert j == |nodes| ==> nodes[..j] == nodes;
  }

  lemma FollowingNext(next: Links, first: nat, equal: nat -> bool, nodes: seq<nat>, j: nat, i: nat)
    requires j < |nodes| && i == |Filter(Negation(equal), nodes[..j])| && Chain(next, first, Remaining(equal, nodes, j))
    ensures var rest := Remaining(equal, nodes, j);
      && |rest| == i + |nodes| - j && rest[i] == nodes[j] && nodes[j] in next && next[nodes[j]] == NodeAt(nodes, j + 1)
      && (NodeAt(nodes, j + 1) != NULL <==> j + 1 < |nodes|)
      && |Without(rest, i)| == |rest| - 1 && (i > 0 ==> Without(rest, i)[i - 1] == rest[i - 1])
  {
    hide Filter;
    var rest := Remaining(equal, nodes, j);
    assert LinksTo(next, rest, i);
    assert j + 1 < |nodes| ==> rest[i + 1] == nodes[j + 1];
  }

  lemma UnlinkKept(now: Links, unlinked: Links, after: Links, rest: seq<nat>, i: nat)
    requires 0 < i < |rest| && rest[i] in now && unlinked == now[rest[i - 1] := now[rest[i]]] && rest[i - 1] in now
    requires OthersKept(unlinked, after, [rest[i]])
    ensures OthersKept(now, after, rest)
  {
    assert rest[i] in rest && rest[i - 1] in rest;
  }

  /** The loop over the nodes that follow one that does not match. */
  method EraseFollowing(memory: Memory, first: nat, already: nat, equal: nat -> bool, deletes: bool,
      ghost before: Links, ghost head: nat, ghost nodes: seq<nat>, ghost from: nat)
    returns (count: nat)
    requires Chain(before, head, nodes) && from < |nodes| && first == nodes[from] && !equal(first)
    requires Filter(Negation(equal), nodes[..from]) == [] && already == |Filter(equal, nodes[..from])|
    requires Chain(memory.next, first, Remaining(equal, nodes, from))
    requires Erased(before, memory.next, nodes, Filter(equal, nodes[..from]), deletes)
    modifies memory
    ensures Chain(memory.next, first, Filter(Negation(equal), nodes)) && count == |Filter(equal, nodes)|
    ensures Erased(before, memory.next, nodes, Filter(equal, nodes), deletes)
  {
    hide Filter, Chain, Erased, OthersKept, LinksTo, Remaining, Without;
    count := already;
    RemainingStep(equal, nodes, from);
    var previous := first;
    ghost var i: nat, j: nat := 0, from;
    FollowingNext(memory.next, first, equal, nodes, j, i);
    var node := memory.next[previous];
    i, j := 1, from + 1;
    while node != NULL
      invariant from < j <= |nodes| && i == |Filter(Negation(equal), nodes[..j])| > 0
      invariant Chain(memory.next, first, Remaining(equal, nodes, j)) && |Remaining(equal, nodes, j)| == i + |nodes| - j
      invariant previous == Remaining(equal, nodes, j)[i - 1] && node == NodeAt(nodes, j) && (node != NULL <==> j < |nodes|)
      invariant count == |Filter(equal, nodes[..j])|
      invariant Erased(before, memory.next, nodes, Filter(equal, nodes[..j]), deletes)
      decreases |nodes| - j
    {
      ghost var now, rest := memory.next, Remaining(equal, nodes, j);
      RemainingStep(equal, nodes, j);
      FollowingNext(now, first, equal, nodes, j, i);
      var next := memory.next[node];
      if Matches(memory.next, node, equal) {
        ChainUnlink(now, first, rest, i);
        memory.next := memory.next[previous := next];
        ghost var unlinked := memory.next;
        DeleteNode(memory, node, deletes, first, Without(rest, i));
        UnlinkKept(now, unlinked, memory.next, rest, i);
        ErasedStep(before, now, memory.next, head, equal, nodes, j, deletes);
        count := count + 1;
      } else {
        previous, i := node, i + 1;
      }
      node, j := next, j + 1;
    }
    RemainingEnds(equal, nodes);
  }

  // ---- Clearing the table ----

  /** The nodes of a run of slots, slot by slot. */
  function Nodes(chains: seq<seq<nat>>): seq<nat> {
    if chains == [] then [] else Nodes(chains[..|chains| - 1]) + chains[|chains| - 1]
  }

  ghost predicate Table(next: Links, table: seq<nat>, chains: seq<seq<nat>>) {
    && |chains| == |table|
    && (forall k :: 0 <= k < |table| ==> Chain(next, table[k], chains[k]))
    && (forall j, k, x :: 0 <= j < k < |chains| && x in chains[j] ==> x !in chains[k])
  }

  /** From slot `from` on the table is intact. */
  ghost predicate TableFrom(next: Links, table: seq<nat>, chains: seq<seq<nat>>, from: nat) {
    && from <= |table| == |chains|
    && (forall k :: 0 <= k < from ==> table[k] == NULL)
    && (forall k :: from <= k < |table| ==> Chain(next, table[k], chains[k]))
  }

  /** The memory without `nodes`. */
  function Freed(next: Links, nodes: seq<nat>): Links { next - set x | x in nodes }

  /** Deletes a chain that nothing points to any more. */
  method DeleteChain(memory: Memory, head: nat, ghost nodes: seq<nat>) returns (ghost deleted: seq<nat>)
    requires Chain(memory.next, head, nodes) && head != NULL
    modifies memory
    ensures deleted == nodes && memory.next == Freed(old(memory.next), nodes)
  {
    hide Chain;
    var node := head;
    ghost var j: nat, before := 0, memory.next;
    deleted := [];
    ChainSuffix(before, head, nodes, 0);
    while true
      invariant j < |nodes| && node == nodes[j] && deleted == nodes[..j]
      invariant memory.next == Freed(before, nodes[..j])
      decreases |nodes| - j
    {
      ChainSuffix(before, head, nodes, j);
      var next := memory.next[node];
      memory.Delete(node);
      assert nodes[..j + 1] == nodes[..j] + [node];
      deleted := deleted + [node];
      node, j := next, j + 1;
      if node == NULL {
        break;
      }
    }
    assert nodes[..|nodes|] == nodes;
  }

  lemma ChainSuffix(next: Links, head: nat, nodes: seq<nat>, j: nat)
    requires Chain(next, head, nodes) && j <= |nodes|
    ensures head == NodeAt(nodes, 0) && (NodeAt(nodes, j) == NULL <==> j == |nodes|)
    ensures j < |nodes| ==> nodes[j] in next && nodes[j] !in nodes[..j] && next[nodes[j]] == NodeAt(nodes, j + 1)
    ensures j + 1 < |nodes| ==> nodes[j + 1] != NULL
  {
    if j < |nodes| {
      assert LinksTo(next, nodes, j);
    }
  }

  lemma ClearStart(before: Links, was: seq<nat>, chains: seq<seq<nat>>)
    requires Table(before, was, chains)
    ensures TableFrom(before, was, chains, 0) && Nodes(chains[..0]) == [] && before == Freed(before, Nodes(chains[..0]))
  {
  }

  lemma NodesNext(chains: seq<seq<nat>>, it: nat)
    requires it < |chains|
    ensures Nodes(chains[..it + 1]) == Nodes(chains[..it]) + chains[it]
  {
    assert chains[..it + 1][..it] == chains[..it];
  }

  lemma ClearStep(before: Links, now: Links, after: Links, was: seq<nat>, slots: seq<nat>, chains: seq<seq<nat>>, it: nat)
    requires Table(before, was, chains) && TableFrom(now, slots, chains, it) && it < |slots|
    requires now == Freed(before, Nodes(chains[..it]))
    requires after == Freed(now, chains[it])
    ensures TableFrom(after, slots[it := NULL], chains, it + 1)
    ensures Nodes(chains[..it + 1]) == Nodes(chains[..it]) + chains[it]
    ensures after == Freed(before, Nodes(chains[..it + 1]))
  {
    hide Chain, Nodes;
    NodesNext(chains, it);
    forall k | it < k < |slots| ensures Chain(after, slots[k], chains[k]) {
      ChainKept(now, after, slots[k], chains[k], chains[it]);
    }
  }

  lemma ClearEmpty(next: Links, slots: seq<nat>, chains: seq<seq<nat>>, it: nat)
    requires TableFrom(next, slots, chains, it) && it < |slots| && slots[it] == NULL
    ensures TableFrom(next, slots, chains, it + 1) && Nodes(chains[..it + 1]) == Nodes(chains[..it])
  {
    assert chains[it] == [];
    NodesNext(chains, it);
  }

  /** `table_clear_`: every node of every chain is deleted once, in order, and every slot is null. */
  method TableClear(memory: Memory, table: array<nat>, ghost chains: seq<seq<nat>>) returns (ghost deleted: seq<nat>)
    requires Table(memory.next, table[..], chains)
    modifies memory, table
    ensures deleted == Nodes(chains) && memory.next == Freed(old(memory.next), Nodes(chains))
    ensures forall k, i :: 0 <= k < |chains| && 0 <= i < |chains[k]| ==> chains[k][i] in deleted && chains[k][i] !in memory.next
    ensures forall x :: x !in deleted ==>
      (x in memory.next <==> x in old(memory.next)) && (x in memory.next ==> memory.next[x] == old(memory.next)[x])
    ensures forall i, j :: 0 <= i < j < |deleted| ==> deleted[i] != deleted[j]
    ensures forall x :: x in deleted ==> exists k :: 0 <= k < |chains| && x in chains[k]
    ensures forall k :: 0 <= k < table.Length ==> table[k] == NULL
  {
    hide Chain, Nodes, TableFrom, Table;
    ghost var before, was := memory.next, table[..];
    deleted := [];
    var it := 0;
    ClearStart(before, was, chains);
    while it != table.Length
      invariant it <= table.Length == |chains| && TableFrom(memory.next, table[..], chains, it)
      invariant deleted == Nodes(chains[..it])
      invariant memory.next == Freed(before, Nodes(chains[..it]))
      decreases table.Length - it
    {
      var node := table[it];
      ghost var now, slots := memory.next, table[..];
      assert Chain(now, node, chains[it]) by { SlotChain(now, slots, chains, it); }
      if node != NULL {
        table[it] := NULL;
        ghost var freed := DeleteChain(memory, node, chains[it]);
        deleted := deleted + freed;
        assert table[..] == slots[it := NULL];
        ClearStep(before, now, memory.next, was, slots, chains, it);
      } else {
        ClearEmpty(now, slots, chains, it);
      }
      it := it + 1;
    }
    assert chains[..it] == chains;
    SlotsNull(memory.next, table[..], chains, it);
    NodesOnce(before, was, chains);
    NodesFreed(before, chains);
  }

  /** The nodes are those of the chains, each once. */
  lemma NodesOnce(next: Links, table: seq<nat>, chains: seq<seq<nat>>)
    requires Table(next, table, chains)
    ensures forall k, i :: 0 <= k < |chains| && 0 <= i < |chains[k]| ==> chains[k][i] in Nodes(chains)
    ensures forall x :: x in Nodes(chains) ==> exists k :: 0 <= k < |chains| && x in chains[k]
    ensures forall i, j :: 0 <= i < j < |Nodes(chains)| ==> Nodes(chains)[i] != Nodes(chains)[j]
  {
    hide Nodes, Chain;
    forall x ensures x in Nodes(chains) <==> exists k :: 0 <= k < |chains| && x in chains[k] {
      NodesMember(chains, x);
    }
    forall k | 0 <= k < |chains| ensures Different(chains[k]) {
      ChainDistinct(next, table[k], chains[k]);
    }
    NodesDistinct(chains);
  }

  ghost predicate Different(nodes: seq<nat>) { forall i, j :: 0 <= i < j < |nodes| ==> nodes[i] != nodes[j] }

  lemma {:induction false} NodesMember(chains: seq<seq<nat>>, x: nat)
    ensures x in Nodes(chains) <==> exists k :: 0 <= k < |chains| && x in chains[k]
  {
    if chains != [] {
      var n := |chains| - 1;
      NodesMember(chains[..n], x);
      if x in Nodes(chains[..n]) {
        var k :| 0 <= k < n && x in chains[..n][k];
        assert x in chains[k];
      }
      if k :| 0 <= k < |chains| && x in chains[k] {
        assert k < n ==> x in chains[..n][k];
      }
    }
  }

  lemma {:induction false} NodesDistinct(chains: seq<seq<nat>>)
    requires forall k :: 0 <= k < |chains| ==> Different(chains[k])
    requires forall j, k, x :: 0 <= j < k < |chains| && x in chains[j] ==> x !in chains[k]
    ensures Different(Nodes(chains))
  {
    if chains != [] {
      var n := |chains| - 1;
      var u := Nodes(chains[..n]);
      NodesDistinct(chains[..n]);
      forall x | x in u ensures x !in chains[n] {
        NodesMember(chains[..n], x);
        var k :| 0 <= k < n && x in chains[..n][k];
        assert x in chains[k];
      }
      DifferentConcat(u, chains[n]);
    }
  }

  lemma DifferentConcat(u: seq<nat>, v: seq<nat>)
    requires Different(u) && Different(v) && forall x :: x in u ==> x !in v
    ensures Different(u + v)
  {
    var w := u + v;
    forall i, j | 0 <= i < j < |w| ensures w[i] != w[j] {
      if i < |u| <= j {
        assert w[i] in u && w[j] == v[j - |u|] && w[j] in v;
      }
    }
  }

  lemma ChainDistinct(next: Links, head: nat, nodes: seq<nat>)
    requires Chain(next, head, nodes)
    ensures Different(nodes)
  {
  }

  lemma NodesFreed(before: Links, chains: seq<seq<nat>>)
    ensures var after := Freed(before, Nodes(chains));
      forall x :: (x in Nodes(chains) ==> x !in after) &&
        (x !in Nodes(chains) ==> (x in after <==> x in before) && (x in after ==> after[x] == before[x]))
  {
    hide Nodes;
  }

  lemma SlotChain(next: Links, slots: seq<nat>, chains: seq<seq<nat>>, it: nat)
    requires TableFrom(next, slots, chains, it) && it < |slots|
    ensures Chain(next, slots[it], chains[it])
  {
  }

  lemma SlotsNull(next: Links, slots: seq<nat>, chains: seq<seq<nat>>, it: nat)
    requires TableFrom(next, slots, chains, it)
    ensures forall k :: 0 <= k < it ==> slots[k] == NULL
  {
  }
}

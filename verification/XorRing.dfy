/**
 Rings of XOR-linked nodes: every node stores the address before it XOR the
 address after it. A memory maps the addresses of nodes to their links.
 */
module XorRing {
  import opened Order

  /** A pointer, or a link, as the 64 bits of an `intptr_t`. */
  datatype Address = Address(bits: bv64)

  type Memory = map<Address, Address>

  const NULL: Address := Address(0)

  function Xor(a: Address, b: Address): (r: Address) { Address(a.bits ^ b.bits) }

  lemma XorCommutes(a: Address, b: Address)
    ensures Xor(a, b) == Xor(b, a)
  {
  }

  lemma XorCancels(a: Address, b: Address)
    ensures Xor(Xor(a, b), b) == a
  {
  }

  lemma XorSelf(a: Address)
    ensures Xor(a, a) == NULL
  {
  }

  /** Replacing `b` by `c` in `a ^ b`. */
  lemma XorReplaces(a: Address, b: Address, c: Address)
    ensures Xor(Xor(a, b), Xor(b, c)) == Xor(a, c)
  {
  }

  lemma XorLaws(a: Address, b: Address)
    ensures Xor(a, b) == Xor(b, a)
    ensures Xor(a, Xor(a, b)) == b
    ensures Xor(Xor(a, b), b) == a
  {
    hide Xor;
    XorCommutes(a, b);
    XorCancels(a, b);
    XorCancels(b, a);
    XorCommutes(a, Xor(a, b));
  }

  /** The same, however the operands are ordered. */
  lemma XorReplace(a: Address, b: Address, c: Address)
    ensures Xor(Xor(a, b), Xor(b, c)) == Xor(a, c)
    ensures Xor(Xor(a, b), Xor(c, b)) == Xor(a, c)
    ensures Xor(Xor(b, a), Xor(b, c)) == Xor(c, a)
    ensures Xor(Xor(b, a), Xor(c, b)) == Xor(c, a)
  {
    hide Xor;
    XorReplaces(a, b, c);
    XorCommutes(a, b);
    XorCommutes(b, c);
    XorCommutes(a, c);
  }

  /** Replacing both of `a ^ b` at once. */
  lemma XorReplaceBoth(a: Address, b: Address, c: Address, d: Address)
    ensures Xor(Xor(Xor(a, b), Xor(b, c)), Xor(a, d)) == Xor(d, c)
    ensures Xor(Xor(Xor(a, b), Xor(a, d)), Xor(b, c)) == Xor(d, c)
  {
    hide Xor;
    XorReplace(a, b, c);
    XorReplace(c, a, d);
    XorReplace(b, a, d);
    XorReplace(d, b, c);
  }

  // ---- Rings ----

  function Prev(ring: seq<Address>, i: nat): (p: Address)
    requires i < |ring|
  {
    if i == 0 then ring[|ring| - 1] else ring[i - 1]
  }

  function Next(ring: seq<Address>, i: nat): (n: Address)
    requires i < |ring|
  {
    if i == |ring| - 1 then ring[0] else ring[i + 1]
  }

  ghost predicate Distinct(ring: seq<Address>) {
    forall i, j :: 0 <= i < j < |ring| ==> ring[i] != ring[j]
  }

  ghost predicate LinkedAt(mem: Memory, ring: seq<Address>, i: nat)
    requires i < |ring|
  {
    ring[i] in mem && mem[ring[i]] == Xor(Prev(ring, i), Next(ring, i))
  }

  ghost predicate Ring(mem: Memory, ring: seq<Address>) {
    Distinct(ring) && forall i: nat :: i < |ring| ==> LinkedAt(mem, ring, i)
  }

  /** `node->m_list_link_ ^= a ^ b`. */
  function Toggle(mem: Memory, node: Address, a: Address, b: Address): (mem': Memory)
    requires node in mem
  {
    mem[node := Xor(mem[node], Xor(a, b))]
  }

  /** A step along the ring, in either direction. */
  lemma Follow(mem: Memory, ring: seq<Address>, i: nat)
    requires Ring(mem, ring) && i < |ring|
    ensures ring[i] in mem
    ensures Xor(Prev(ring, i), mem[ring[i]]) == Next(ring, i)
    ensures Xor(Next(ring, i), mem[ring[i]]) == Prev(ring, i)
  {
    hide Xor;
    assert LinkedAt(mem, ring, i);
    XorLaws(Prev(ring, i), Next(ring, i));
    XorLaws(Next(ring, i), Prev(ring, i));
  }

  // ---- Removing and inserting one node ----

  /** Position in the old ring of element `j` of the ring without element `k`. */
  ghost function Old(j: nat, k: nat): nat { if j < k then j else j + 1 }

  lemma WithoutNeighbors(ring: seq<Address>, k: nat, j: nat)
    requires Distinct(ring) && 0 < k < |ring| && j < |ring| - 1
    ensures var r, i := Without(ring, k), Old(j, k);
      && |r| == |ring| - 1 && i < |ring| && r[j] == ring[i] && i != k
      && (Prev(ring, i) == ring[k] <==> ring[i] == Next(ring, k))
      && (Next(ring, i) == ring[k] <==> ring[i] == Prev(ring, k))
      && Prev(r, j) == (if Prev(ring, i) == ring[k] then Prev(ring, k) else Prev(ring, i))
      && Next(r, j) == (if Next(ring, i) == ring[k] then Next(ring, k) else Next(ring, i))
  {
  }

  /** The two updates of `extract_`, `pop_back_` and `pop_front_`. */
  function Unlink(mem: Memory, prev: Address, node: Address, next: Address): (mem': Memory)
    requires prev in mem && next in mem
  {
    Toggle(Toggle(mem, prev, node, next), next, node, prev)
  }

  lemma UnlinkAt(mem: Memory, ring: seq<Address>, k: nat, j: nat)
    requires Ring(mem, ring) && 0 < k < |ring| && j < |ring| - 1
    requires Prev(ring, k) in mem && Next(ring, k) in mem
    ensures LinkedAt(Unlink(mem, Prev(ring, k), ring[k], Next(ring, k)), Without(ring, k), j)
  {
    hide Xor, Prev, Next, Without, Distinct;
    WithoutNeighbors(ring, k, j);
    var i := Old(j, k);
    assert LinkedAt(mem, ring, i);
    var p, n, c := Prev(ring, i), Next(ring, i), ring[k];
    XorReplace(p, c, Next(ring, k));
    XorReplace(n, c, Prev(ring, k));
    XorReplaceBoth(p, n, Next(ring, k), Prev(ring, k));
  }

  lemma UnlinkRing(mem: Memory, ring: seq<Address>, k: nat)
    requires Ring(mem, ring) && 0 < k < |ring|
    ensures Prev(ring, k) in mem && Next(ring, k) in mem
    ensures Ring(Unlink(mem, Prev(ring, k), ring[k], Next(ring, k)), Without(ring, k))
  {
    hide Unlink;
    assert LinkedAt(mem, ring, k - 1);
    assert LinkedAt(mem, ring, if k == |ring| - 1 then 0 else k + 1);
    forall j: nat | j < |Without(ring, k)|
      ensures LinkedAt(Unlink(mem, Prev(ring, k), ring[k], Next(ring, k)), Without(ring, k), j)
    {
      UnlinkAt(mem, ring, k, j);
    }
  }

  function With(ring: seq<Address>, k: nat, node: Address): (r: seq<Address>)
    requires k <= |ring|
  {
    ring[..k] + [node] + ring[k..]
  }

  /** The three updates of the insertions and pushes. */
  function Link(mem: Memory, prev: Address, node: Address, next: Address): (mem': Memory)
    requires prev in mem && next in mem
  {
    Toggle(Toggle(mem[node := Xor(prev, next)], prev, next, node), next, prev, node)
  }

  lemma LinkAt(mem: Memory, ring: seq<Address>, k: nat, node: Address, j: nat)
    requires Ring(mem, ring) && node !in ring && 0 < k <= |ring| && j < |ring|
    requires ring[k - 1] in mem && Next(ring, k - 1) in mem && Distinct(With(ring, k, node))
    ensures Old(j, k) < |ring| + 1
    ensures LinkedAt(Link(mem, ring[k - 1], node, Next(ring, k - 1)), With(ring, k, node), Old(j, k))
  {
    hide Xor, Distinct;
    var big, i := With(ring, k, node), Old(j, k);
    WithoutWith(ring, k, node);
    WithoutNeighbors(big, k, j);
    hide Prev, Next, Without, With;
    assert LinkedAt(mem, ring, j);
    var prev, next := ring[k - 1], Next(ring, k - 1);
    var p, n := Prev(big, i), Next(big, i);
    XorReplace(p, next, node);
    XorReplace(n, prev, node);
    XorReplaceBoth(prev, next, node, node);
    XorReplaceBoth(next, prev, node, node);
  }

  lemma WithoutWith(ring: seq<Address>, k: nat, node: Address)
    requires 0 < k <= |ring|
    ensures Without(With(ring, k, node), k) == ring
    ensures With(ring, k, node)[k] == node
    ensures Prev(With(ring, k, node), k) == ring[k - 1]
    ensures Next(With(ring, k, node), k) == Next(ring, k - 1)
  {
  }

  lemma WithDistinct(ring: seq<Address>, k: nat, node: Address)
    requires Distinct(ring) && node !in ring && k <= |ring|
    ensures Distinct(With(ring, k, node))
  {
  }

  lemma OldInverse(i: nat, k: nat)
    requires i != k
    ensures Old(if i < k then i else i - 1, k) == i
  {
  }

  lemma LinkNew(mem: Memory, ring: seq<Address>, k: nat, node: Address)
    requires Ring(mem, ring) && node !in ring && 0 < k <= |ring|
    ensures ring[k - 1] in mem && Next(ring, k - 1) in mem
    ensures LinkedAt(Link(mem, ring[k - 1], node, Next(ring, k - 1)), With(ring, k, node), k)
  {
    hide Xor, Without, Distinct;
    assert LinkedAt(mem, ring, k - 1);
    assert LinkedAt(mem, ring, if k == |ring| then 0 else k);
    assert Next(ring, k - 1) in ring;
    WithoutWith(ring, k, node);
  }

  /** Linking `node` in after element `k - 1` makes the ring with `node` at position `k`. */
  lemma LinkRing(mem: Memory, ring: seq<Address>, k: nat, node: Address)
    requires Ring(mem, ring) && node !in ring && 0 < k <= |ring|
    ensures ring[k - 1] in mem && Next(ring, k - 1) in mem
    ensures Ring(Link(mem, ring[k - 1], node, Next(ring, k - 1)), With(ring, k, node))
  {
    hide Xor, Link, Without, Old;
    LinkNew(mem, ring, k, node);
    WithDistinct(ring, k, node);
    var big, m := With(ring, k, node), Link(mem, ring[k - 1], node, Next(ring, k - 1));
    forall i: nat | i < |big| ensures LinkedAt(m, big, i) {
      if i != k {
        var j := if i < k then i else i - 1;
        assert Old(j, k) == i by { OldInverse(i, k); }
        LinkAt(mem, ring, k, node, j);
      }
    }
  }

  // ---- Splicing ----

  function Spliced(ring: seq<Address>, k: nat, nodes: seq<Address>): (r: seq<Address>)
    requires k <= |ring|
  {
    ring[..k] + nodes + ring[k..]
  }

  /** The four updates of `splice_`. */
  function Join(mem: Memory, prev: Address, next: Address, other: Address, first: Address, last: Address): (mem': Memory)
    requires prev in mem && next in mem && first in mem && last in mem
  {
    Toggle(Toggle(Toggle(Toggle(mem, prev, next, first), first, other, prev), last, other, next), next, prev, last)
  }

  lemma JoinOuter(mem: Memory, ring: seq<Address>, k: nat, other: Address, nodes: seq<Address>, i: nat)
    requires Ring(mem, ring) && 0 < k <= |ring| && i < |ring| && nodes != []
    requires ring[k - 1] in mem && Next(ring, k - 1) in mem && nodes[0] in mem && nodes[|nodes| - 1] in mem
    requires forall x :: x in nodes ==> x !in ring
    ensures LinkedAt(Join(mem, ring[k - 1], Next(ring, k - 1), other, nodes[0], nodes[|nodes| - 1]),
      Spliced(ring, k, nodes), if i < k then i else i + |nodes|)
  {
    hide Xor, Distinct, Prev, Next, Spliced;
    assert LinkedAt(mem, ring, i);
    OuterNeighbors(ring, k, nodes, i);
    var prev, next, first, last := ring[k - 1], Next(ring, k - 1), nodes[0], nodes[|nodes| - 1];
    assert first in nodes && last in nodes && ring[i] in ring;
    var p, n := Prev(ring, i), Next(ring, i);
    XorReplace(p, next, first);
    XorReplace(n, prev, last);
    XorReplaceBoth(p, n, first, last);
  }

  lemma OuterNeighbors(ring: seq<Address>, k: nat, nodes: seq<Address>, i: nat)
    requires Distinct(ring) && 0 < k <= |ring| && i < |ring| && nodes != []
    ensures var r, j := Spliced(ring, k, nodes), if i < k then i else i + |nodes|;
      && j < |r| && r[j] == ring[i]
      && (i == k - 1 <==> ring[i] == ring[k - 1])
      && (ring[i] == Next(ring, k - 1) ==> Prev(ring, i) == ring[k - 1])
      && (i == k - 1 ==> Next(ring, i) == Next(ring, k - 1))
      && Prev(r, j) == (if ring[i] == Next(ring, k - 1) then nodes[|nodes| - 1] else Prev(ring, i))
      && Next(r, j) == (if i == k - 1 then nodes[0] else Next(ring, i))
  {
  }

  lemma JoinInner(mem: Memory, ring: seq<Address>, k: nat, other: Address, nodes: seq<Address>, q: nat)
    requires Ring(mem, [other] + nodes) && 0 < k <= |ring| && q < |nodes|
    requires ring[k - 1] in mem && Next(ring, k - 1) in mem && nodes[0] in mem && nodes[|nodes| - 1] in mem
    requires forall x :: x in nodes ==> x !in ring
    ensures LinkedAt(Join(mem, ring[k - 1], Next(ring, k - 1), other, nodes[0], nodes[|nodes| - 1]),
      Spliced(ring, k, nodes), k + q)
  {
    hide Xor;
    assert LinkedAt(mem, [other] + nodes, q + 1);
    InnerNeighbors(ring, k, other, nodes, q);
    var prev, next := ring[k - 1], Next(ring, k - 1);
    var p, n := Prev([other] + nodes, q + 1), Next([other] + nodes, q + 1);
    XorReplace(p, other, next);
    XorReplace(n, other, prev);
    XorReplaceBoth(other, other, prev, next);
    XorLaws(prev, next);
  }

  lemma InnerNeighbors(ring: seq<Address>, k: nat, other: Address, nodes: seq<Address>, q: nat)
    requires Distinct([other] + nodes) && 0 < k <= |ring| && q < |nodes|
    requires forall x :: x in nodes ==> x !in ring
    ensures var r, big := Spliced(ring, k, nodes), [other] + nodes;
      && k + q < |r| && r[k + q] == nodes[q] == big[q + 1]
      && (q == 0 <==> nodes[q] == nodes[0]) && (q == |nodes| - 1 <==> nodes[q] == nodes[|nodes| - 1])
      && nodes[q] != ring[k - 1] && nodes[q] != Next(ring, k - 1)
      && Prev(big, q + 1) == (if q == 0 then other else Prev(r, k + q))
      && Next(big, q + 1) == (if q == |nodes| - 1 then other else Next(r, k + q))
      && (q == 0 ==> Prev(r, k + q) == ring[k - 1])
      && (q == |nodes| - 1 ==> Next(r, k + q) == Next(ring, k - 1))
  {
    assert nodes[q] in nodes;
    assert ([other] + nodes)[q + 1] == nodes[q] && ([other] + nodes)[1] == nodes[0];
    assert ([other] + nodes)[|nodes|] == nodes[|nodes| - 1];
  }

  lemma SplicedDistinct(ring: seq<Address>, k: nat, other: Address, nodes: seq<Address>)
    requires Distinct(ring) && Distinct([other] + nodes) && k <= |ring|
    requires forall x :: x in nodes ==> x !in ring
    ensures Distinct(Spliced(ring, k, nodes))
  {
    var r := Spliced(ring, k, nodes);
    forall i, j | 0 <= i < j < |r| ensures r[i] != r[j] {
      if k <= i < k + |nodes| {
        assert r[i] in nodes && r[i] == ([other] + nodes)[i - k + 1];
      }
      if k <= j < k + |nodes| {
        assert r[j] in nodes && r[j] == ([other] + nodes)[j - k + 1];
      }
    }
  }

  /** The nodes of one ring, less its sentinel, moved into another after element `k - 1`. */
  lemma JoinRing(mem: Memory, ring: seq<Address>, k: nat, other: Address, nodes: seq<Address>)
    requires Ring(mem, ring) && Ring(mem, [other] + nodes) && nodes != [] && 0 < k <= |ring|
    requires forall x :: x in nodes ==> x !in ring
    ensures ring[k - 1] in mem && Next(ring, k - 1) in mem && nodes[0] in mem && nodes[|nodes| - 1] in mem
    ensures Ring(Join(mem, ring[k - 1], Next(ring, k - 1), other, nodes[0], nodes[|nodes| - 1]), Spliced(ring, k, nodes))
  {
    hide Xor, Join;
    assert LinkedAt(mem, ring, k - 1);
    assert LinkedAt(mem, ring, if k == |ring| then 0 else k);
    assert LinkedAt(mem, [other] + nodes, 1) && LinkedAt(mem, [other] + nodes, |nodes|);
    SplicedDistinct(ring, k, other, nodes);
    var r, m := Spliced(ring, k, nodes), Join(mem, ring[k - 1], Next(ring, k - 1), other, nodes[0], nodes[|nodes| - 1]);
    forall j: nat | j < |r| ensures LinkedAt(m, r, j) {
      if j < k {
        JoinOuter(mem, ring, k, other, nodes, j);
      } else if j < k + |nodes| {
        JoinInner(mem, ring, k, other, nodes, j - k);
      } else {
        JoinOuter(mem, ring, k, other, nodes, j - |nodes|);
      }
    }
  }

  // ---- Reversal ----

  /** A ring read backwards from the sentinel is a ring over the same memory. */
  lemma ReverseRing(mem: Memory, sentinel: Address, nodes: seq<Address>)
    requires Ring(mem, [sentinel] + nodes)
    ensures Ring(mem, [sentinel] + Reversed(nodes))
  {
    hide Xor;
    var r, b := [sentinel] + nodes, [sentinel] + Reversed(nodes);
    forall i: nat | i < |b| ensures LinkedAt(mem, b, i) {
      var j := if i == 0 then 0 else |b| - i;
      assert b[i] == r[j];
      assert LinkedAt(mem, r, j);
      assert Prev(b, i) == Next(r, j) && Next(b, i) == Prev(r, j);
      XorLaws(Prev(r, j), Next(r, j));
    }
    forall i, j | 0 <= i < j < |b| ensures b[i] != b[j] {
      assert b[i] == r[if i == 0 then 0 else |b| - i] && b[j] == r[|b| - j];
    }
  }
}

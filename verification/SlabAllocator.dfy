/**
 The slab allocator: a heap, an optional permanent slab and temporary stacks,
 behind one allocate, one free and scopes that select the current allocator.
 */
module SlabAllocators {
  import opened PowersOfTwo
  import opened SlabStacks

  const CURRENT: int := -1
  const HEAP: int := 0
  const PERMANENT: int := 1
  const STACK_0: int := 2

  datatype Scope = Scope(id: int, previous: int, mark: Mark)

  /** Where a block of the operating system's heap lies; an empty one still has an address of its own. */
  function Extent(start: nat, size: nat): nat { start + Max(size, 1) }

  predicate OutsideSlab(start: nat, size: nat, begin: nat, end: nat) { Extent(start, size) <= begin || end <= start }

  predicate HeapApart(a: Block, b: Block) { Extent(a.start, a.size) <= b.start || Extent(b.start, b.size) <= a.start }

  /** The marks of the open scopes that are on allocator `id`. */
  ghost function MarksOf(open: seq<Scope>, id: int): seq<Mark> {
    if open == [] then []
    else
      var n := |open| - 1;
      MarksOf(open[..n], id) + if open[n].id == id then [open[n].mark] else []
  }

  lemma MarksPush(open: seq<Scope>, scope: Scope, id: int)
    ensures MarksOf(open + [scope], id) == MarksOf(open, id) + if scope.id == id then [scope.mark] else []
  {
    assert (open + [scope])[..|open|] == open;
  }

  lemma SameBefore(s: seq<Mark>, t: seq<Mark>, u: seq<Mark>)
    requires s + u == t + u
    ensures s == t
  {
    assert |s| == |t|;
    forall k | 0 <= k < |s| ensures s[k] == t[k] {
      assert (s + u)[k] == (t + u)[k];
    }
  }

  /** What is current after the scopes `open`, each of which remembers what was current before. */
  ghost predicate Nested(open: seq<Scope>, current: int)
  {
    if open == [] then current == HEAP
    else
      var n := |open| - 1;
      open[n].id == current && Nested(open[..n], open[n].previous)
  }

  class SlabAllocator {
    /** False when the permanent budget is zero, in which case its id means the heap. */
    const hasPermanent: bool
    const permanent: TempStack
    const stacks: seq<TempStack>
    var current: int
    var overflows: nat
    var heapCount: nat
    ghost var heapLive: set<Block>
    ghost var heapSerial: nat
    ghost var open: seq<Scope>

    predicate IsFixed(id: int) { (hasPermanent && id == PERMANENT) || STACK_0 <= id < STACK_0 + |stacks| }

    predicate IsId(id: int) { HEAP <= id < STACK_0 + |stacks| }

    /** The fixed-size allocator behind an id. */
    function Slab(id: int): TempStack
      requires IsFixed(id)
    {
      if id >= STACK_0 then stacks[id - STACK_0] else permanent
    }

    /** The allocators are different objects over disjoint slabs. */
    ghost predicate Separate()
      reads permanent, stacks
    {
      forall i, j :: IsFixed(i) && IsFixed(j) && i != j ==>
        Slab(i) != Slab(j) && (Slab(i).end <= Slab(j).begin || Slab(j).end <= Slab(i).begin)
    }

    ghost predicate SlabsValid()
      reads permanent, stacks
    {
      forall i :: IsFixed(i) ==> Slab(i).Valid()
    }

    /** The open scopes nest, and each temporary stack knows of those that are on it. */
    ghost predicate ScopesMatch()
      reads this`current, this`open, permanent, stacks
    {
      && (forall i :: IsFixed(i) ==> Slab(i).scopes == if STACK_0 <= i then MarksOf(open, i) else [])
      && (forall k :: 0 <= k < |open| ==> IsId(open[k].previous))
      && IsId(current) && Nested(open, current)
    }

    ghost predicate HeapValid()
      reads this`heapCount, this`heapLive, this`heapSerial, permanent, stacks
    {
      && heapCount == |heapLive|
      && (forall b :: b in heapLive ==> b.start > 0 && b.alignment > 0 && b.start % b.alignment == 0 && b.serial < heapSerial)
      && (forall b, i :: b in heapLive && IsFixed(i) ==> OutsideSlab(b.start, b.size, Slab(i).begin, Slab(i).end))
      && (forall a, b :: a in heapLive && b in heapLive && a != b ==> HeapApart(a, b))
    }

    ghost predicate Valid()
      reads this, permanent, stacks
    {
      Separate() && SlabsValid() && ScopesMatch() && HeapValid()
    }

    /** The live blocks that an allocator handed out. */
    ghost function Issued(id: int): set<Block>
      requires IsFixed(id) || id == HEAP
      reads this, permanent, stacks
    {
      if id == HEAP then heapLive else Slab(id).live
    }

    /** What the operating system promises of a new block: aligned, and apart from every slab and every live block. */
    ghost predicate FreshBlock(start: nat, size: nat, alignment: nat)
      reads this`heapLive, permanent, stacks
    {
      && start > 0 && alignment > 0 && start % alignment == 0
      && (forall i :: IsFixed(i) ==> OutsideSlab(start, size, Slab(i).begin, Slab(i).end))
      && (forall b :: b in heapLive ==> Extent(start, size) <= b.start || Extent(b.start, b.size) <= start)
    }

    /** Blocks of all allocators together: aligned, within their slab, and pairwise apart. */
    lemma AllApart(i: int, j: int, a: Block, b: Block)
      requires Valid() && (IsFixed(i) || i == HEAP) && (IsFixed(j) || j == HEAP)
      requires a in Issued(i) && b in Issued(j) && (i != j || a != b)
      ensures Apart(a, b)
      ensures a.start % a.alignment == 0
      ensures IsFixed(i) ==> Slab(i).begin <= a.start && End(a) <= Slab(i).end
    {
      if IsFixed(i) {
        assert GoodBlock(a, Slab(i).begin, Slab(i).current, Slab(i).serial);
      }
      if IsFixed(j) {
        assert GoodBlock(b, Slab(j).begin, Slab(j).current, Slab(j).serial);
      }
      if i == j == HEAP {
        assert HeapApart(a, b);
      }
    }

    /** Over slabs that the operating system has just provided. */
    constructor (hasPermanent: bool, permanent: TempStack, stacks: seq<TempStack>)
      requires hasPermanent ==> permanent.Valid() && permanent.scopes == []
      requires forall k :: 0 <= k < |stacks| ==> stacks[k].Valid() && stacks[k].scopes == []
      requires forall j, k :: 0 <= j < k < |stacks| ==>
        stacks[j] != stacks[k] && (stacks[j].end <= stacks[k].begin || stacks[k].end <= stacks[j].begin)
      requires hasPermanent ==> forall k :: 0 <= k < |stacks| ==>
        stacks[k] != permanent && (stacks[k].end <= permanent.begin || permanent.end <= stacks[k].begin)
      ensures Valid() && open == [] && heapLive == {} && overflows == 0
      ensures this.hasPermanent == hasPermanent && this.permanent == permanent && this.stacks == stacks
    {
      this.hasPermanent, this.permanent, this.stacks := hasPermanent, permanent, stacks;
      current, overflows, heapCount := HEAP, 0, 0;
      heapLive, heapSerial, open := {}, 0, [];
    }

    // ---- What a change to one slab leaves standing ----

    lemma SlabFacts(id: int)
      requires Separate() && SlabsValid() && IsFixed(id)
      ensures Slab(id).Valid() && Slab(id) in {permanent} + set s | s in stacks
      ensures forall i :: IsFixed(i) && i != id ==> Slab(i) != Slab(id)
    {
    }

    /** The live blocks of the allocators other than `id` are what they were. */
    twostate predicate OthersKept(id: int)
      reads this`heapLive, permanent, stacks
    {
      && (forall i :: IsFixed(i) && i != id ==> Slab(i).live == old(Slab(i).live))
      && (id != HEAP ==> heapLive == old(heapLive))
    }

    /** That is, `OthersKept` spares everything issued by another allocator. */
    twostate lemma IssuedKept(id: int, i: int)
      requires OthersKept(id) && i != id && (IsFixed(i) || i == HEAP)
      ensures Issued(i) == old(Issued(i))
    {
    }

    /** What each slab's open scopes found live is what it was. */
    twostate predicate OpenKept()
      reads permanent, stacks
    {
      forall i :: IsFixed(i) ==> Slab(i).atOpen == old(Slab(i).atOpen)
    }

    /** Slab `id` is where it was and the others have not been touched. */
    twostate predicate OnlySlab(id: int)
      requires IsFixed(id)
      reads permanent, stacks
    {
      && Slab(id).begin == old(Slab(id).begin) && Slab(id).end == old(Slab(id).end)
      && forall i :: IsFixed(i) && i != id ==> unchanged(Slab(i))
    }

    twostate lemma PlacesKept(id: int)
      requires old(Separate()) && old(SlabsValid()) && IsFixed(id) && OnlySlab(id) && Slab(id).Valid()
      ensures Separate() && SlabsValid()
    {
      forall i | IsFixed(i) ensures Slab(i).Valid() && Slab(i).begin == old(Slab(i).begin) && Slab(i).end == old(Slab(i).end) {
        assert old(Slab(i).Valid());
      }
    }

    twostate lemma HeapKept(id: int)
      requires old(HeapValid()) && IsFixed(id) && OnlySlab(id)
      requires heapCount == old(heapCount) && heapLive == old(heapLive) && heapSerial == old(heapSerial)
      ensures HeapValid()
    {
      hide OutsideSlab, HeapApart;
      forall b, i | b in heapLive && IsFixed(i) ensures OutsideSlab(b.start, b.size, Slab(i).begin, Slab(i).end) {
        assert old(OutsideSlab(b.start, b.size, Slab(i).begin, Slab(i).end));
      }
    }

    twostate lemma ScopesKept(id: int)
      requires old(ScopesMatch()) && IsFixed(id) && OnlySlab(id) && Slab(id).scopes == old(Slab(id).scopes)
      requires current == old(current) && open == old(open)
      ensures ScopesMatch()
    {
      forall i | IsFixed(i) ensures Slab(i).scopes == old(Slab(i).scopes) {
      }
    }

    /** Everything together, for an allocation or a free in slab `id`. */
    twostate lemma SlabChanged(id: int)
      requires old(Valid()) && IsFixed(id) && OnlySlab(id) && Slab(id).Valid() && Slab(id).scopes == old(Slab(id).scopes)
      requires unchanged(this)
      ensures Valid() && OthersKept(id)
      ensures forall i :: IsFixed(i) ==> Slab(i).begin == old(Slab(i).begin) && Slab(i).end == old(Slab(i).end)
    {
      hide Separate, SlabsValid, ScopesMatch, HeapValid;
      PlacesKept(id);
      HeapKept(id);
      ScopesKept(id);
    }

    twostate lemma ScopePushed(scope: Scope)
      requires old(ScopesMatch()) && IsId(scope.id) && scope.previous == old(current)
      requires current == scope.id && open == old(open) + [scope]
      requires forall i :: IsFixed(i) ==>
        Slab(i).scopes == old(Slab(i).scopes) + if i == scope.id && STACK_0 <= i then [scope.mark] else []
      ensures ScopesMatch()
    {
      assert open[..|old(open)|] == old(open);
      forall i | IsFixed(i) ensures Slab(i).scopes == if STACK_0 <= i then MarksOf(open, i) else [] {
        MarksPush(old(open), scope, i);
      }
    }

    twostate lemma ScopePopped(scope: Scope)
      requires old(ScopesMatch()) && old(open) == open + [scope] && current == scope.previous
      requires forall i :: IsFixed(i) ==>
        old(Slab(i).scopes) == Slab(i).scopes + if i == scope.id && STACK_0 <= i then [scope.mark] else []
      ensures ScopesMatch() && scope.id == old(current)
    {
      assert old(open)[..|open|] == open;
      forall i | IsFixed(i) ensures Slab(i).scopes == if STACK_0 <= i then MarksOf(open, i) else [] {
        MarksPush(open, scope, i);
        if STACK_0 <= i {
          SameBefore(Slab(i).scopes, MarksOf(open, i), if i == scope.id then [scope.mark] else []);
        }
      }
    }

    // ---- The operations ----

    method HeapAllocate(size: nat, alignment: nat, given: nat) returns (ptr: nat, ghost b: Block)
      requires HeapValid() && FreshBlock(given, size, alignment)
      modifies this`heapCount, this`heapLive, this`heapSerial
      ensures HeapValid() && ptr == given && b == Block(old(heapSerial), ptr, size, alignment)
      ensures b !in old(heapLive) && heapLive == old(heapLive) + {b}
    {
      ptr := given;
      b := Block(heapSerial, ptr, size, alignment);
      assert b !in heapLive;
      heapCount := heapCount + 1;
      heapLive, heapSerial := heapLive + {b}, heapSerial + 1;
    }

    method SlabAllocate(id: int, size: nat, alignment: nat, ghost given: nat) returns (ptr: nat, ghost b: Block)
      requires Valid() && IsFixed(id) && PowerOfTwo(alignment) && FreshBlock(given, size, alignment)
      modifies Slab(id)
      ensures Valid() && OthersKept(id) && OpenKept() && FreshBlock(given, size, alignment)
      ensures ptr == 0 <==> !old(HasRoom(id, size, alignment))
      ensures ptr == 0 ==> Issued(id) == old(Issued(id))
      ensures ptr != 0 ==> b == Block(old(Slab(id).serial), ptr, size, alignment) && b !in old(Issued(id)) && Issued(id) == old(Issued(id)) + {b}
    {
      hide Separate, SlabsValid, ScopesMatch, HeapValid, AlignUp, OutsideSlab;
      SlabFacts(id);
      Slab(id).SerialIsNew();
      b := Block(Slab(id).serial, 0, size, alignment);
      ptr := Slab(id).Allocate(size, alignment);
      b := b.(start := ptr);
      SlabChanged(id);
    }

    /** Whether the allocator of `id` is one that has room. */
    ghost predicate HasRoom(id: int, size: nat, alignment: nat)
      requires alignment > 0
      reads this, permanent, stacks
    {
      IsFixed(id) && AlignUp(Slab(id).current, alignment) + size <= Slab(id).end
    }

    /**
     For `CURRENT`, the allocator of the innermost open scope is asked, or the heap
     if none is open. A slab that is asked and has room provides the block;
     otherwise the heap does, which counts as an overflow if a slab was asked.
     Without a budget the permanent allocator is the heap.
     */
    method Allocate(size: nat, id: int, alignment: nat, given: nat) returns (ptr: nat, ghost owner: int, ghost b: Block)
      requires Valid() && (id == CURRENT || IsId(id)) && PowerOfTwo(alignment) && FreshBlock(given, size, alignment)
      modifies this, permanent, stacks
      ensures Valid() && current == old(current) && open == old(open) && OpenKept()
      ensures b.start == ptr != 0 && b.size == size && b.alignment == alignment
      ensures IsFixed(owner) || owner == HEAP
      ensures b !in old(Issued(owner)) && Issued(owner) == old(Issued(owner)) + {b} && OthersKept(owner)
      ensures alignment > 0
      ensures var asked := if id != CURRENT then id else if old(open) == [] then HEAP else old(open)[|old(open)| - 1].id;
        if STACK_0 <= asked < STACK_0 + |stacks| then
          var stack := stacks[asked - STACK_0];
          if AlignUp(old(stack.current), alignment) + size <= old(stack.end) then
            owner == asked && overflows == old(overflows) && stack.live == old(stack.live) + {b}
          else owner == HEAP && overflows == old(overflows) + 1
        else if asked == PERMANENT && hasPermanent then
          if AlignUp(old(permanent.current), alignment) + size <= old(permanent.end) then
            owner == PERMANENT && overflows == old(overflows) && permanent.live == old(permanent.live) + {b}
          else owner == HEAP && overflows == old(overflows) + 1
        else (asked == HEAP || asked == PERMANENT) && owner == HEAP && overflows == old(overflows)
    {
      hide Separate, SlabsValid, HeapValid, Nested, MarksOf, FreshBlock, AlignUp, ScopesMatch, PowerOfTwo;
      PowerPositive(alignment);
      CurrentIsId();
      var i := if id == CURRENT then current else id;
      var firstFixed := if hasPermanent then PERMANENT else STACK_0;
      ptr, owner := 0, i;
      if i >= STACK_0 || (hasPermanent && i == PERMANENT) {
        ptr, b := SlabAllocate(i, size, alignment, given);
      }
      if ptr == 0 {
        if i >= firstFixed {
          overflows := overflows + 1;
        }
        owner := HEAP;
        ptr, b := HeapAllocate(size, alignment, given);
      }
    }

    method HeapFree(ghost b: Block)
      requires HeapValid() && b in heapLive
      modifies this`heapCount, this`heapLive
      ensures HeapValid() && heapLive == old(heapLive) - {b}
    {
      hide OutsideSlab, HeapApart;
      heapCount := heapCount - 1;
      heapLive := heapLive - {b};
    }

    method SlabFree(id: int, ptr: nat, ghost b: Block)
      requires Valid() && IsFixed(id) && b in Issued(id) && b.start == ptr
      modifies Slab(id)
      ensures Valid() && Issued(id) == old(Issued(id)) - {b} && OthersKept(id) && OpenKept()
    {
      hide Separate, SlabsValid, ScopesMatch, HeapValid;
      SlabFacts(id);
      Slab(id).Deallocate(ptr, b);
      SlabChanged(id);
    }

    /** The allocator whose `deallocate` is called: the first slab that contains the address, or the heap. */
    method Route(ptr: nat) returns (id: int)
      ensures IsFixed(id) || id == HEAP
      ensures if IsFixed(id) then Slab(id).Contains(ptr) else forall i :: IsFixed(i) ==> !Slab(i).Contains(ptr)
    {
      var k := 0;
      while k < |stacks|
        invariant 0 <= k <= |stacks|
        invariant forall i :: STACK_0 <= i < STACK_0 + k ==> !Slab(i).Contains(ptr)
      {
        if stacks[k].Contains(ptr) {
          return STACK_0 + k;
        }
        k := k + 1;
      }
      if hasPermanent && permanent.Contains(ptr) {
        return PERMANENT;
      }
      return HEAP;
    }

    /** The address of a live block leads back to its allocator if and only if the block does not start at the end of its slab. */
    lemma RoutingExact(owner: int, b: Block, id: int)
      requires Valid() && (IsFixed(owner) || owner == HEAP) && b in Issued(owner)
      requires IsFixed(id) || id == HEAP
      requires if IsFixed(id) then Slab(id).Contains(b.start) else forall i :: IsFixed(i) ==> !Slab(i).Contains(b.start)
      ensures id == owner <==> owner == HEAP || b.start != Slab(owner).end
      ensures id != owner ==> b.size == 0
    {
      if IsFixed(owner) {
        Slab(owner).LiveContained(b);
      }
    }

    /** The block goes back to the allocator that issued it, where its address leads. */
    method Free(ptr: nat, ghost owner: int, ghost b: Block)
      requires Valid()
      requires ptr != 0 ==> (IsFixed(owner) || owner == HEAP) && b in Issued(owner) && b.start == ptr
      requires ptr != 0 && IsFixed(owner) ==> b.start != Slab(owner).end
      modifies this`heapCount, this`heapLive, permanent, stacks
      ensures Valid() && OpenKept()
      ensures ptr != 0 ==> Issued(owner) == old(Issued(owner)) - {b} && OthersKept(owner)
      ensures ptr == 0 ==> OthersKept(CURRENT)
    {
      hide Separate, SlabsValid, ScopesMatch, HeapValid, TempStack.Valid;
      if ptr == 0 {
        return;
      }
      var id := Route(ptr);
      RoutingExact(owner, b, id);
      if id != HEAP {
        SlabFree(id, ptr, b);
      } else {
        HeapFree(b);
      }
    }

    /** What a scope on allocator `id` remembers. */
    ghost function SlabMark(id: int): Mark
      requires SlabsValid() && IsFixed(id)
      reads permanent, stacks
    {
      Slab(id).ScopeMark()
    }

    method BeginScope(id: int) returns (scope: Scope)
      requires Valid() && IsId(id)
      modifies this`current, this`open, stacks
      ensures Valid() && current == id && open == old(open) + [scope]
      ensures scope.id == id && scope.previous == old(current)
      ensures OthersKept(CURRENT)
      ensures STACK_0 <= id ==> var stack := stacks[id - STACK_0]; stack.atOpen == old(stack.atOpen) + [old(stack.live)]
      ensures scope.mark == if IsFixed(id) then old(SlabMark(id)) else Mark(heapCount, 0, heapSerial)
    {
      hide Separate, SlabsValid, ScopesMatch, HeapValid, MarksOf, Nested;
      assert IsId(current) by { CurrentIsId(); }
      var mark;
      var previous := current;
      if id >= STACK_0 {
        SlabFacts(id);
        mark := Slab(id).BeginScope();
        PlacesKept(id);
        HeapKept(id);
      } else if hasPermanent && id == PERMANENT {
        SlabFacts(id);
        mark := permanent.ScopeMark();
      } else {
        mark := Mark(heapCount, 0, heapSerial);
      }
      scope := Scope(id, previous, mark);
      current := id;
      open := open + [scope];
      ScopePushed(scope);
    }

    lemma CurrentIsId()
      requires ScopesMatch()
      ensures IsId(current) && current == if open == [] then HEAP else open[|open| - 1].id
    {
    }

    lemma TopMark()
      requires ScopesMatch() && open != [] && STACK_0 <= current
      ensures IsFixed(current) && Slab(current).scopes == MarksOf(open[..|open| - 1], current) + [open[|open| - 1].mark]
    {
    }

    /** Of the scope's own stack, exactly the blocks newer than the scope are given back; no other allocator is touched. */
    method EndScope(scope: Scope)
      requires Valid() && open != [] && scope == open[|open| - 1]
      modifies this`current, this`open, stacks
      ensures Valid() && current == scope.previous && open == old(open)[..|old(open)| - 1]
      ensures scope.id == old(current) && OthersKept(scope.id) && heapLive == old(heapLive)
      ensures STACK_0 <= scope.id < STACK_0 + |stacks| ==>
        var stack := stacks[scope.id - STACK_0];
        && old(stack.atOpen) != [] && stack.live == old(stack.live) * old(stack.atOpen)[|old(stack.atOpen)| - 1]
      ensures IsFixed(scope.id) ==>
        Issued(scope.id) == if STACK_0 <= scope.id then Older(old(Issued(scope.id)), scope.mark) else old(Issued(scope.id))
    {
      hide Separate, SlabsValid, ScopesMatch, HeapValid, MarksOf, Nested;
      CurrentIsId();
      if current >= STACK_0 {
        TopMark();
        SlabEndScope(current, scope.mark);
      }
      current := scope.previous;
      open := open[..|open| - 1];
      ScopePopped(scope);
    }

    method SlabEndScope(id: int, mark: Mark)
      requires Separate() && SlabsValid() && HeapValid() && IsFixed(id)
      requires Slab(id).scopes != [] && mark == Slab(id).scopes[|Slab(id).scopes| - 1]
      modifies Slab(id)
      ensures Separate() && SlabsValid() && HeapValid() && OthersKept(id)
      ensures Slab(id).live == Older(old(Slab(id).live), mark)
      ensures old(Slab(id).atOpen) != [] && Slab(id).live == old(Slab(id).live) * old(Slab(id).atOpen)[|old(Slab(id).atOpen)| - 1]
      ensures forall i :: IsFixed(i) ==> old(Slab(i).scopes) == Slab(i).scopes + if i == id then [mark] else []
    {
      hide Separate, SlabsValid, HeapValid, TempStack.Valid, Older;
      SlabFacts(id);
      ghost var before := Slab(id).scopes;
      Slab(id).OpenRemembered();
      Slab(id).EndScope(mark);
      assert before == Slab(id).scopes + [mark];
      PlacesKept(id);
      HeapKept(id);
    }
  }
}

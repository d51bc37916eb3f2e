/**
 The fixed-size allocators of the slab allocator: a stack of blocks in one
 slab, and scopes that give back everything allocated since they were opened.
 Addresses are natural numbers and 0 is the null pointer.
 */
module SlabStacks {
  import opened PowersOfTwo

  /** A block handed out. The serial tells blocks of one allocator apart and orders them by age. */
  datatype Block = Block(serial: nat, start: nat, size: nat, alignment: nat)

  /** What a scope remembers of the allocator it was opened on. */
  datatype Mark = Mark(count: nat, bytes: nat, ghost serial: nat)

  function End(b: Block): nat { b.start + b.size }

  predicate Apart(a: Block, b: Block) { End(a) <= b.start || End(b) <= a.start }

  /** The next multiple of the alignment. */
  function AlignUp(x: nat, alignment: nat): (r: nat)
    requires alignment > 0
    ensures x <= r < x + alignment && r % alignment == 0
  {
    AlignedFits(x + alignment - 1, alignment);
    (x + alignment - 1) / alignment * alignment
  }

  lemma AlignedFits(y: nat, alignment: nat)
    requires alignment > 0
    ensures 0 <= y / alignment * alignment <= y < y / alignment * alignment + alignment
    ensures (y / alignment * alignment) % alignment == 0
  {
    var q := y / alignment;
    assert y == q * alignment + y % alignment;
    NotNegative(q, alignment);
    RemainderIs(q * alignment, alignment, q, 0);
  }

  ghost predicate PowerOfTwo(a: nat) { exists k: nat :: a == Pow2(k) }

  lemma PowerPositive(a: nat)
    requires PowerOfTwo(a)
    ensures a > 0
  {
  }

  /** `x & ~mask`, bit by bit. */
  function AndNot(x: nat, mask: nat): nat {
    if x == 0 then 0 else (if mask % 2 == 1 then 0 else x % 2) + 2 * AndNot(x / 2, mask / 2)
  }

  lemma {:induction false} AndNotZero(x: nat)
    ensures AndNot(x, 0) == x
  {
    if x > 0 {
      AndNotZero(x / 2);
    }
  }

  lemma AndNotOdd(x: nat, half: nat)
    ensures AndNot(x, 2 * half + 1) == 2 * AndNot(x / 2, half)
  {
    assert (2 * half + 1) % 2 == 1 && (2 * half + 1) / 2 == half;
  }

  lemma RoundDownHalves(x: nat, p: nat)
    requires p > 0
    ensures x / (2 * p) * (2 * p) == 2 * (x / 2 / p * p)
  {
    var q, r := x / 2 / p, x / 2 % p;
    assert x / 2 == q * p + r;
    MulDouble(q, p);
    RemainderIs(x, 2 * p, q, 2 * r + x % 2);
  }

  lemma AndNotHalves(x: nat, p: nat)
    requires p > 0 && AndNot(x / 2, p - 1) == x / 2 / p * p
    ensures AndNot(x, 2 * p - 1) == x / (2 * p) * (2 * p)
  {
    hide AndNot;
    AndNotOdd(x, p - 1);
    RoundDownHalves(x, p);
    assert 2 * (p - 1) + 1 == 2 * p - 1;
  }

  /** Clearing the low `k` bits rounds down to a multiple of `2^k`. */
  lemma {:induction false} AndNotRoundsDown(x: nat, k: nat)
    ensures AndNot(x, Pow2(k) - 1) == x / Pow2(k) * Pow2(k)
    decreases k
  {
    if k == 0 {
      AndNotZero(x);
    } else {
      hide *;
      AndNotRoundsDown(x / 2, k - 1);
      AndNotHalves(x, Pow2(k - 1));
      Pow2Next(k - 1);
    }
  }

  /** The mask arithmetic of `allocate` finds the next multiple. */
  lemma MaskAligns(x: nat, alignment: nat)
    requires PowerOfTwo(alignment)
    ensures alignment > 0 && AndNot(x + (alignment - 1), alignment - 1) == AlignUp(x, alignment)
  {
    hide Pow2;
    var k: nat :| alignment == Pow2(k);
    AndNotRoundsDown(x + (alignment - 1), k);
  }

  /** An aligned block fits before `end` if and only if it does at the next multiple. */
  lemma NoRoom(x: nat, alignment: nat, size: nat, end: nat)
    requires alignment > 0
    ensures end < AlignUp(x, alignment) + size <==> forall a: nat :: x <= a && a % alignment == 0 ==> end < a + size
  {
    hide AlignUp;
    var r := AlignUp(x, alignment);
    forall a: nat | x <= a && a % alignment == 0 ensures r <= a {
      AlignUpLeast(r, alignment, x, a);
    }
  }

  lemma AlignUpLeast(r: nat, alignment: nat, x: nat, a: nat)
    requires alignment > 0 && x <= a && r < x + alignment && a % alignment == 0 && r % alignment == 0
    ensures r <= a
  {
    if a < r {
      MulDistributes(r / alignment, -(a / alignment), alignment);
      var q := r / alignment - a / alignment;
      assert q * alignment == r - a;
      AtLeast(if q > 0 then q else 1 - q, alignment);
    }
  }

  // ---- The layout of a slab ----

  ghost predicate GoodBlock(b: Block, begin: nat, current: nat, serial: nat) {
    && begin <= b.start && End(b) <= current && b.serial < serial
    && b.alignment > 0 && b.start % b.alignment == 0
  }

  /** Live blocks lie in the used part of the slab, aligned and apart. */
  ghost predicate LaidOut(live: set<Block>, begin: nat, current: nat, serial: nat) {
    && (forall b :: b in live ==> GoodBlock(b, begin, current, serial))
    && (forall a, b :: a in live && b in live && a != b ==> Apart(a, b))
    && (forall a, b :: a in live && b in live && a.serial == b.serial ==> a == b)
  }

  /** Every block is on one side of every open scope's mark, according to its age. */
  ghost predicate Divided(live: set<Block>, scopes: seq<Mark>, begin: nat, current: nat, serial: nat) {
    && (forall k :: 0 <= k < |scopes| ==> begin + scopes[k].bytes <= current && scopes[k].serial <= serial)
    && (forall j, k :: 0 <= j < k < |scopes| ==> scopes[j].bytes <= scopes[k].bytes && scopes[j].serial <= scopes[k].serial)
    && (forall k, b :: 0 <= k < |scopes| && b in live ==>
      if b.serial < scopes[k].serial then End(b) <= begin + scopes[k].bytes else begin + scopes[k].bytes <= b.start)
  }

  /** The blocks handed out before a scope was opened. */
  ghost function Older(live: set<Block>, scope: Mark): set<Block> { set b | b in live && b.serial < scope.serial }

  /** For each open scope, the blocks that were live when it was opened: of those live now, exactly the older ones. */
  ghost predicate Remembered(live: set<Block>, scopes: seq<Mark>, atOpen: seq<set<Block>>) {
    && |atOpen| == |scopes|
    && (forall k, b :: 0 <= k < |scopes| && b in atOpen[k] ==> b.serial < scopes[k].serial)
    && (forall k, b :: 0 <= k < |scopes| && b in live && b.serial < scopes[k].serial ==> b in atOpen[k])
  }

  lemma RememberedAllocate(live: set<Block>, scopes: seq<Mark>, atOpen: seq<set<Block>>, begin: nat, current: nat, serial: nat, b: Block)
    requires Divided(live, scopes, begin, current, serial) && Remembered(live, scopes, atOpen) && b.serial == serial
    ensures Remembered(live + {b}, scopes, atOpen)
  {
  }

  lemma RememberedOpen(live: set<Block>, scopes: seq<Mark>, atOpen: seq<set<Block>>, begin: nat, current: nat, serial: nat, scope: Mark)
    requires LaidOut(live, begin, current, serial) && Remembered(live, scopes, atOpen) && scope.serial == serial
    ensures Remembered(live, scopes + [scope], atOpen + [live])
  {
    forall b | b in live ensures b.serial < serial {
      assert GoodBlock(b, begin, current, serial);
    }
  }

  /** Closing the innermost scope keeps the blocks that were live when it was opened and have not been freed since. */
  lemma RememberedClose(live: set<Block>, scopes: seq<Mark>, atOpen: seq<set<Block>>)
    requires Remembered(live, scopes, atOpen) && scopes != []
    ensures var n := |scopes| - 1;
      && |atOpen| == |scopes| && Older(live, scopes[n]) == live * atOpen[n]
      && Remembered(Older(live, scopes[n]), scopes[..n], atOpen[..n])
  {
  }

  lemma LayoutAllocate(live: set<Block>, scopes: seq<Mark>, begin: nat, current: nat, serial: nat, b: Block)
    requires LaidOut(live, begin, current, serial) && Divided(live, scopes, begin, current, serial)
    requires begin <= current <= b.start && b.serial == serial && b.alignment > 0 && b.start % b.alignment == 0
    ensures b !in live && LaidOut(live + {b}, begin, End(b), serial + 1) && Divided(live + {b}, scopes, begin, End(b), serial + 1)
  {
    forall a | a in live ensures Apart(a, b) && GoodBlock(a, begin, End(b), serial + 1) && a != b {
      assert GoodBlock(a, begin, current, serial);
    }
  }

  lemma LayoutFree(live: set<Block>, scopes: seq<Mark>, begin: nat, current: nat, serial: nat, b: Block)
    requires LaidOut(live, begin, current, serial) && Divided(live, scopes, begin, current, serial) && b in live
    ensures LaidOut(live - {b}, begin, current, serial) && Divided(live - {b}, scopes, begin, current, serial)
  {
  }

  lemma LayoutOpen(live: set<Block>, scopes: seq<Mark>, begin: nat, current: nat, serial: nat, scope: Mark)
    requires LaidOut(live, begin, current, serial) && Divided(live, scopes, begin, current, serial)
    requires begin + scope.bytes == current && scope.serial == serial
    ensures Divided(live, scopes + [scope], begin, current, serial)
  {
    forall b | b in live ensures b.serial < serial && End(b) <= current {
      assert GoodBlock(b, begin, current, serial);
    }
  }

  /** Closing the innermost scope keeps exactly the blocks older than it. */
  lemma LayoutClose(live: set<Block>, scopes: seq<Mark>, begin: nat, current: nat, serial: nat)
    requires LaidOut(live, begin, current, serial) && Divided(live, scopes, begin, current, serial) && scopes != []
    ensures var scope, rest := scopes[|scopes| - 1], scopes[..|scopes| - 1];
      && begin + scope.bytes <= current
      && LaidOut(Older(live, scope), begin, begin + scope.bytes, serial)
      && Divided(Older(live, scope), rest, begin, begin + scope.bytes, serial)
      && Older(live, scope) == set b | b in live && End(b) <= begin + scope.bytes && b in Older(live, scope)
  {
    var n := |scopes| - 1;
    forall b | b in Older(live, scopes[n]) ensures GoodBlock(b, begin, begin + scopes[n].bytes, serial) {
      assert GoodBlock(b, begin, current, serial);
    }
  }

  function Max(x: nat, y: nat): (m: nat)
    ensures x <= m && y <= m && (m == x || m == y)
  {
    if x < y then y else x
  }

  // ---- The allocator ----

  class TempStack {
    var begin: nat
    var end: nat
    var current: nat
    var count: nat
    var highWater: nat
    ghost var live: set<Block>
    ghost var serial: nat
    ghost var scopes: seq<Mark>
    /** Blocks that were given back by a scope before they were freed. */
    ghost var lost: nat
    /** What was live when each open scope was opened. */
    ghost var atOpen: seq<set<Block>>
    /** The highest `current` has ever been. */
    ghost var peak: nat

    ghost predicate Valid()
      reads this
    {
      && 0 < begin <= current <= end
      && LaidOut(live, begin, current, serial) && Divided(live, scopes, begin, current, serial)
      && Remembered(live, scopes, atOpen)
      && count == |live| + lost
      && peak == Max(highWater, current)
    }

    constructor (start: nat, size: nat)
      requires start > 0
      ensures Valid() && live == {} && scopes == [] && begin == start && end == start + size
      ensures current == begin && peak == begin && serial == 0 && lost == 0 && count == 0 && atOpen == []
    {
      begin, end, current, count, highWater := start, start + size, start, 0, 0;
      live, serial, scopes, atOpen, lost, peak := {}, 0, [], [], 0, start;
    }

    /** First fit after `current`, or null when it does not fit; by `NoRoom`, nothing aligned would. */
    method Allocate(size: nat, alignment: nat) returns (ptr: nat)
      requires Valid() && PowerOfTwo(alignment)
      modifies this
      ensures Valid() && begin == old(begin) && end == old(end) && scopes == old(scopes) && lost == old(lost) && atOpen == old(atOpen)
      ensures alignment > 0 && (ptr == 0 <==> end < AlignUp(old(current), alignment) + size)
      ensures ptr == 0 ==> live == old(live) && serial == old(serial) && current == old(current) && peak == old(peak) && count == old(count)
      ensures ptr != 0 ==> live == old(live) + {Block(old(serial), ptr, size, alignment)} && serial == old(serial) + 1 && count == old(count) + 1
      ensures ptr != 0 ==> ptr == AlignUp(old(current), alignment) && begin <= ptr && ptr + size <= end
      ensures ptr != 0 ==> current == ptr + size && peak == Max(old(peak), current)
    {
      hide LaidOut, Divided, Remembered, AlignUp, AndNot, Pow2;
      MaskAligns(current, alignment);
      var mask := alignment - 1;
      var aligned := AndNot(current + mask, mask);
      if aligned + size > end {
        return 0;
      }
      ghost var b := Block(serial, aligned, size, alignment);
      LayoutAllocate(live, scopes, begin, current, serial, b);
      RememberedAllocate(live, scopes, atOpen, begin, current, serial, b);
      count := count + 1;
      current := aligned + size;
      live, serial, peak := live + {b}, serial + 1, Max(peak, current);
      ptr := aligned;
    }

    predicate Contains(ptr: nat)
      reads this
    {
      begin <= ptr < end
    }

    /** A live block is seen as one of this slab unless it starts at the very end, as only one of size 0 can. */
    lemma LiveContained(b: Block)
      requires Valid() && b in live
      ensures Contains(b.start) <==> b.start != end
      ensures b.start == end ==> b.size == 0
    {
      assert GoodBlock(b, begin, current, serial);
    }

    method Deallocate(ptr: nat, ghost b: Block)
      requires Valid() && b in live && b.start == ptr
      modifies this
      ensures Valid() && live == old(live) - {b} && count == old(count) - 1
      ensures begin == old(begin) && end == old(end) && current == old(current) && scopes == old(scopes)
      ensures serial == old(serial) && peak == old(peak) && lost == old(lost) && atOpen == old(atOpen)
    {
      hide LaidOut, Divided;
      LayoutFree(live, scopes, begin, current, serial, b);
      count := count - 1;
      live := live - {b};
    }

    lemma OpenRemembered()
      requires Valid()
      ensures |atOpen| == |scopes|
    {
    }

    lemma SerialIsNew()
      requires Valid()
      ensures forall b :: b in live ==> b.serial < serial
    {
      forall b | b in live ensures b.serial < serial {
        assert GoodBlock(b, begin, current, serial);
      }
    }

    /** What a scope is to remember. */
    function ScopeMark(): Mark
      requires Valid()
      reads this
    {
      Mark(count, current - begin, serial)
    }

    method BeginScope() returns (scope: Mark)
      requires Valid()
      modifies this
      ensures Valid() && scope == old(ScopeMark()) && scope.count == |live| + lost && scopes == old(scopes) + [scope]
      ensures atOpen == old(atOpen) + [live]
      ensures begin == old(begin) && end == old(end) && current == old(current) && count == old(count)
      ensures live == old(live) && serial == old(serial) && peak == old(peak) && lost == old(lost)
    {
      hide LaidOut, Divided, Remembered;
      scope := ScopeMark();
      LayoutOpen(live, scopes, begin, current, serial, scope);
      RememberedOpen(live, scopes, atOpen, begin, current, serial, scope);
      scopes, atOpen := scopes + [scope], atOpen + [live];
    }

    /**
     The blocks that were live when the scope was opened and have not been freed
     stay live. Everything newer is given back, whether or not the leak check
     of a debug build would pass; `LeakCheckExact` says when it does.
     */
    method EndScope(scope: Mark)
      requires Valid() && scopes != [] && scope == scopes[|scopes| - 1]
      modifies this
      ensures Valid() && scopes == old(scopes)[..|old(scopes)| - 1]
      ensures atOpen == old(atOpen)[..|old(atOpen)| - 1] && live == old(live) * old(atOpen)[|old(atOpen)| - 1]
      ensures live == Older(old(live), scope) && lost == old(lost) + |old(live) - live|
      ensures current == begin + scope.bytes && count == old(count)
      ensures begin == old(begin) && end == old(end) && serial == old(serial) && peak == old(peak)
    {
      hide LaidOut, Divided, Remembered, Older;
      LayoutClose(live, scopes, begin, current, serial);
      RememberedClose(live, scopes, atOpen);
      highWater := Max(highWater, current);
      current := begin + scope.bytes;
      ghost var kept := Older(live, scope);
      assert live == kept + (live - kept);
      lost := lost + |live - kept|;
      live := kept;
      scopes, atOpen := scopes[..|scopes| - 1], atOpen[..|atOpen| - 1];
    }

    method GetHighWater() returns (bytes: nat)
      requires Valid()
      modifies this`highWater
      ensures Valid() && bytes == peak - begin
    {
      highWater := Max(highWater, current);
      bytes := highWater - begin;
    }

    /**
     The leak check counts blocks without asking which: it passes exactly when
     no more newer blocks are live or lost than older ones were freed.
     */
    lemma LeakCheckExact(scope: Mark, before: set<Block>, lostBefore: nat)
      requires Valid() && scopes != [] && scope == scopes[|scopes| - 1]
      requires scope.count == |before| + lostBefore && lostBefore <= lost && Older(live, scope) <= before
      ensures count <= scope.count <==>
        |live - Older(live, scope)| + (lost - lostBefore) <= |before - Older(live, scope)|
    {
      var kept := Older(live, scope);
      assert live == kept + (live - kept) && before == kept + (before - kept);
      assert |live| == |kept| + |live - kept| && |before| == |kept| + |before - kept|;
    }
  }

  /** Freeing an older block inside a scope: the leak check passes although a newer block is live. */
  method LeakHidden(start: nat) returns (stack: TempStack, scope: Mark, ghost newer: Block)
    requires start > 0
    ensures fresh(stack) && stack.Valid() && stack.scopes == [scope] && stack.lost == 0
    ensures stack.count <= scope.count
    ensures stack.live == {newer} && Older(stack.live, scope) == {}
  {
    hide LaidOut, Divided, AlignUp;
    assert PowerOfTwo(1) by { assert 1 == Pow2(0); }
    stack := new TempStack(start, 16);
    var first := stack.Allocate(1, 1);
    scope := stack.BeginScope();
    var second := stack.Allocate(1, 1);
    newer := Block(1, second, 1, 1);
    stack.Deallocate(first, Block(0, first, 1, 1));
    assert stack.live == {newer};
  }

  /** Closing that scope gives the newer block back, and the check has not noticed. */
  method LeakMissed(start: nat) returns (stack: TempStack, scope: Mark, passes: bool)
    requires start > 0
    ensures fresh(stack) && stack.Valid() && stack.scopes == [] && stack.live == {} && stack.lost == 1
    ensures passes && passes == (stack.count <= scope.count)
  {
    hide LaidOut, Divided;
    ghost var newer;
    stack, scope, newer := LeakHidden(start);
    passes := stack.count <= scope.count;
    stack.EndScope(scope);
    assert |{newer} - stack.live| == 1;
  }

  /** A block of size 0 at the end of a full slab is live but is not recognised. */
  method ZeroSizeAtEnd(start: nat) returns (stack: TempStack, ptr: nat)
    requires start > 0
    ensures fresh(stack) && stack.Valid() && ptr != 0 && !stack.Contains(ptr)
    ensures exists b :: b in stack.live && b.start == ptr
  {
    hide LaidOut, Divided, AlignUp;
    assert PowerOfTwo(1) by { assert 1 == Pow2(0); }
    stack := new TempStack(start, 8);
    var all := stack.Allocate(8, 1);
    ptr := stack.Allocate(0, 1);
  }
}

/**
 Binary max-heaps in a range of an array: sift-down into a hole, Floyd's
 construction, heapsort, and the push and pop of a heap-ordered vector.
 */
module Heaps {
  import opened Order
  import opened InsertionSorting
  import opened HeapLevels

  const HEAPSORT_CUTOFF: nat := 20

  /** Node `k` does not exceed its parent. */
  ghost predicate BelowParent<T>(less: (T, T) -> bool, h: seq<T>, k: nat)
    requires 0 < k < |h|
  {
    !Less(less, h[(k - 1) / 2], h[k])
  }

  /** No child of a node numbered `start` or above exceeds its parent. */
  ghost predicate HeapFrom<T>(less: (T, T) -> bool, h: seq<T>, start: nat) {
    forall k: nat {:trigger BelowParent(less, h, k)} :: 0 < k < |h| && start <= (k - 1) / 2 ==> BelowParent(less, h, k)
  }

  lemma {:induction false} RootIsMaximum<T(!new)>(less: (T, T) -> bool, h: seq<T>, k: nat)
    requires StrictWeakOrder(less)
    requires HeapFrom(less, h, 0) && k < |h|
    ensures !Less(less, h[0], h[k])
  {
    if k > 0 {
      var parent := (k - 1) / 2;
      RootIsMaximum(less, h, parent);
      assert BelowParent(less, h, k);
      NotLessTransitive(less, h[k], h[parent], h[0]);
    }
  }

  // ---- Sift down ----

  /** Move assignment of slot `j` to slot `i`; slot `j` is left as it was. */
  method Move<T>(a: array<T>, i: nat, j: nat)
    requires i < a.Length && j < a.Length
    modifies a
    ensures a[..] == old(a[..])[i := old(a[..])[j]]
  {
    a[i] := a[j];
  }

  method Put<T>(a: array<T>, i: nat, x: T)
    requires i < a.Length
    modifies a
    ensures a[..] == old(a[..])[i := x]
  {
    a[i] := x;
  }

  /**
   What the sift keeps while the hole travels from node `start` to node `cur`:
   the slots form a heap (the hole holds a copy of what was moved up), and the
   value waiting to be placed is below what the hole held.
   */
  ghost predicate Sifting<T>(less: (T, T) -> bool, h: seq<T>, start: nat, cur: nat, value: T) {
    && start <= cur < |h|
    && HeapFrom(less, h, if cur == start then start + 1 else start)
    && (cur != start ==> Less(less, value, h[cur]))
  }

  /** `next` is a child of `cur` not below its sibling. */
  ghost predicate LargestChild<T>(less: (T, T) -> bool, h: seq<T>, cur: nat, next: nat) {
    && (next == 2 * cur + 1 || next == 2 * cur + 2)
    && cur < next < |h|
    && (next == 2 * cur + 1 && 2 * cur + 2 < |h| ==> !Less(less, h[next], h[2 * cur + 2]))
    && (next == 2 * cur + 2 ==> !Less(less, h[next], h[2 * cur + 1]))
  }

  lemma SiftStep<T(!new)>(less: (T, T) -> bool, h: seq<T>, start: nat, cur: nat, next: nat, value: T)
    requires StrictWeakOrder(less)
    requires Sifting(less, h, start, cur, value)
    requires LargestChild(less, h, cur, next) && Less(less, value, h[next])
    ensures Sifting(less, h[cur := h[next]], start, next, value)
  {
    var g := h[cur := h[next]];
    assert (next - 1) / 2 == cur;
    forall k: nat | 0 < k < |g| && start <= (k - 1) / 2 ensures BelowParent(less, g, k) {
      var p := (k - 1) / 2;
      assert start < p || (p == start && cur != start) ==> BelowParent(less, h, k);
      assert BelowParent(less, h, next) || cur == start;
      if p == cur {
      } else if k == cur {
        NotLessTransitive(less, h[next], h[cur], h[p]);
      }
    }
  }

  lemma SiftStopAt<T(!new)>(less: (T, T) -> bool, h: seq<T>, start: nat, cur: nat, next: nat, value: T, k: nat)
    requires StrictWeakOrder(less)
    requires Sifting(less, h, start, cur, value)
    requires 2 * cur + 1 < |h| ==> LargestChild(less, h, cur, next) && !Less(less, value, h[next])
    requires 0 < k < |h| && start <= (k - 1) / 2
    ensures BelowParent(less, h[cur := value], k)
  {
    hide StrictWeakOrder;
    var p := (k - 1) / 2;
    assert start < p || (p == start && cur != start) ==> BelowParent(less, h, k);
    if p == cur {
      assert k == 2 * cur + 1 || k == 2 * cur + 2;
      if k != next {
        NotLessTransitive(less, h[k], h[next], value);
      }
    } else if k == cur {
      assert !Less(less, h[p], h[cur]);
      LessNotLess(less, value, h[cur], h[p]);
      StrictWeakOrderAsymmetric(less, value, h[p]);
    }
  }

  lemma SiftStop<T(!new)>(less: (T, T) -> bool, h: seq<T>, start: nat, cur: nat, next: nat, value: T)
    requires StrictWeakOrder(less)
    requires Sifting(less, h, start, cur, value)
    requires 2 * cur + 1 < |h| ==> LargestChild(less, h, cur, next) && !Less(less, value, h[next])
    ensures HeapFrom(less, h[cur := value], start)
  {
    hide StrictWeakOrder, LargestChild;
    var g := h[cur := value];
    forall k: nat | 0 < k < |g| && start <= (k - 1) / 2 ensures BelowParent(less, g, k) {
      SiftStopAt(less, h, start, cur, next, value, k);
    }
  }

  /** The hole moves to `next`; with the value put back nothing is lost. */
  lemma SiftPermutes<T>(w: seq<T>, i: nat, j: nat, value: T)
    requires i < |w| && j < |w| && i != j
    ensures multiset(w[i := w[j]][j := value]) == multiset(w[i := value])
  {
    var u := w[i := value];
    SwapPermutes(u, i, j);
    assert u[i := u[j]][j := u[i]] == w[i := w[j]][j := value];
  }

  lemma SliceUpdate<T>(w: seq<T>, lo: nat, hi: nat, i: nat, x: T)
    requires lo <= i < hi <= |w|
    ensures w[i := x][lo..hi] == w[lo..hi][i - lo := x]
    ensures SameOutside(w, w[i := x], lo, hi)
  {
  }

  /** The sift of `value` into the heap [lo, hi) of `w` has come to node `cur`. */
  ghost predicate SiftState<T>(less: (T, T) -> bool, w: seq<T>, lo: nat, hi: nat, start: nat, cur: nat, value: T) {
    lo <= hi <= |w| && start <= cur < hi - lo && Sifting(less, w[lo..hi], start, cur, value)
  }

  /** `w` rearranges `was` inside [lo, hi), with `value` in node `cur` of `w` and in node `start` of `was`. */
  ghost predicate Displaced<T>(was: seq<T>, w: seq<T>, lo: nat, hi: nat, start: nat, cur: nat, value: T) {
    && |w| == |was| && lo + start < |was| && lo + cur < |w|
    && SameOutside(w, was, lo, hi)
    && multiset(w[lo + cur := value]) == multiset(was[lo + start := value])
  }

  /** `w` rearranges, inside [lo, hi), what `was` is once node `start` is refilled with `value`. */
  ghost predicate Refilled<T>(was: seq<T>, w: seq<T>, lo: nat, hi: nat, start: nat, value: T) {
    lo + start < |was| && SameOutside(w, was, lo, hi) && multiset(w) == multiset(was[lo + start := value])
  }

  lemma DisplacedStep<T>(was: seq<T>, w: seq<T>, lo: nat, hi: nat, start: nat, cur: nat, next: nat, value: T)
    requires Displaced(was, w, lo, hi, start, cur, value)
    requires lo <= hi <= |w| && cur < next < hi - lo
    ensures Displaced(was, w[lo + cur := w[lo + next]], lo, hi, start, next, value)
  {
    SiftPermutes(w, lo + cur, lo + next, value);
  }

  /** The slots [lo, hi) of `w` form a heap below node `start`. */
  ghost predicate HeapRange<T>(less: (T, T) -> bool, w: seq<T>, lo: nat, hi: nat, start: nat) {
    lo <= hi <= |w| && HeapFrom(less, w[lo..hi], start)
  }

  lemma SiftStateStart<T>(less: (T, T) -> bool, w: seq<T>, lo: nat, hi: nat, start: nat, value: T)
    requires HeapRange(less, w, lo, hi, start + 1) && start < hi - lo
    ensures SiftState(less, w, lo, hi, start, start, value)
    ensures Displaced(w, w, lo, hi, start, start, value)
  {
  }

  lemma SiftStateStep<T(!new)>(less: (T, T) -> bool, w: seq<T>, lo: nat, hi: nat, start: nat, cur: nat, next: nat, value: T)
    requires StrictWeakOrder(less)
    requires SiftState(less, w, lo, hi, start, cur, value)
    requires 2 * cur + 1 < hi - lo && next == PickChild(less, w, lo, hi, cur) && Less(less, value, w[lo + next])
    ensures SiftState(less, w[lo + cur := w[lo + next]], lo, hi, start, next, value)
  {
    hide Sifting, SameOutside, HeapFrom, LargestChild, PickChild, StrictWeakOrder;
    PickedIsLargest(less, w, lo, hi, cur);
    SiftStep(less, w[lo..hi], start, cur, next, value);
    SliceUpdate(w, lo, hi, lo + cur, w[lo + next]);
  }

  lemma SiftStateStop<T(!new)>(less: (T, T) -> bool, w: seq<T>, lo: nat, hi: nat, start: nat, cur: nat, value: T)
    requires StrictWeakOrder(less)
    requires SiftState(less, w, lo, hi, start, cur, value)
    requires 2 * cur + 1 < hi - lo ==> !Less(less, value, w[lo + PickChild(less, w, lo, hi, cur)])
    ensures HeapRange(less, w[lo + cur := value], lo, hi, start)
  {
    hide Sifting, SameOutside, HeapFrom, LargestChild, PickChild, StrictWeakOrder;
    var next := 0;
    if 2 * cur + 1 < hi - lo {
      next := PickChild(less, w, lo, hi, cur);
      PickedIsLargest(less, w, lo, hi, cur);
    }
    SiftStop(less, w[lo..hi], start, cur, next, value);
    SliceUpdate(w, lo, hi, lo + cur, value);
  }

  lemma DisplacedStop<T>(was: seq<T>, w: seq<T>, lo: nat, hi: nat, start: nat, cur: nat, value: T)
    requires Displaced(was, w, lo, hi, start, cur, value) && lo + cur < hi
    ensures Refilled(was, w[lo + cur := value], lo, hi, start, value)
  {
  }

  /** The larger child of node `cur`, the left one when neither is larger. */
  ghost function PickChild<T>(less: (T, T) -> bool, w: seq<T>, lo: nat, hi: nat, cur: nat): (next: nat)
    requires lo <= hi <= |w| && 2 * cur + 1 < hi - lo
    ensures next == 2 * cur + 1 || next == 2 * cur + 2
    ensures next < hi - lo
  {
    if 2 * cur + 2 < hi - lo && Less(less, w[lo + 2 * cur + 1], w[lo + 2 * cur + 2]) then 2 * cur + 2 else 2 * cur + 1
  }

  lemma PickedIsLargest<T(!new)>(less: (T, T) -> bool, w: seq<T>, lo: nat, hi: nat, cur: nat)
    requires StrictWeakOrder(less)
    requires lo <= hi <= |w| && 2 * cur + 1 < hi - lo
    ensures LargestChild(less, w[lo..hi], cur, PickChild(less, w, lo, hi, cur))
  {
  }

  /**
   Sifts `value` down from the hole at node `start` of the heap a[lo..hi) until
   it is not less than its children, with one move and at most two comparisons a
   level.
   */
  method SiftDown<T(!new)>(a: array<T>, lo: nat, hi: nat, start: nat, value: T, less: (T, T) -> bool)
    returns (ghost comparisons: nat)
    requires StrictWeakOrder(less)
    requires lo <= hi <= a.Length && start < hi - lo
    requires HeapRange(less, a[..], lo, hi, start + 1)
    modifies a
    ensures HeapRange(less, a[..], lo, hi, start)
    ensures Refilled(old(a[..]), a[..], lo, hi, start, value)
    ensures comparisons <= 2 * Levels(hi - lo, start + 1)
  {
    hide Less, SiftState, Displaced, Refilled, HeapRange, Levels, StrictWeakOrder, SameOutside;
    comparisons := 0;
    var cur := start;
    ghost var was := a[..];
    SiftStateStart(less, was, lo, hi, start, value);
    while true
      invariant start <= cur < hi - lo
      invariant SiftState(less, a[..], lo, hi, start, cur, value)
      invariant Displaced(was, a[..], lo, hi, start, cur, value)
      invariant comparisons + 2 * Levels(hi - lo, cur + 1) <= 2 * Levels(hi - lo, start + 1)
      decreases hi - lo - cur
    {
      var left := 2 * cur + 1;
      if left >= hi - lo {
        break;
      }
      var next := left;
      if left + 1 < hi - lo {
        comparisons := comparisons + 1;
        if Less(less, a[lo + left], a[lo + left + 1]) {
          next := left + 1;
        }
      }
      LevelDown(hi - lo, cur + 1, next + 1);
      comparisons := comparisons + 1;
      if !Less(less, value, a[lo + next]) {
        break;
      }
      SiftStateStep(less, a[..], lo, hi, start, cur, next, value);
      DisplacedStep(was, a[..], lo, hi, start, cur, next, value);
      Move(a, lo + cur, lo + next);
      cur := next;
    }
    SiftStateStop(less, a[..], lo, hi, start, cur, value);
    DisplacedStop(was, a[..], lo, hi, start, cur, value);
    Put(a, lo + cur, value);
  }

  // ---- Construction ----

  lemma LeavesAreHeap<T>(less: (T, T) -> bool, w: seq<T>, lo: nat, hi: nat)
    requires lo <= hi <= |w|
    ensures HeapRange(less, w, lo, hi, (hi - lo) / 2)
  {
  }

  /** `w` is a permutation of `was` that moves nothing outside [lo, hi). */
  ghost predicate Rearranged<T>(was: seq<T>, w: seq<T>, lo: nat, hi: nat) {
    SameOutside(w, was, lo, hi) && multiset(w) == multiset(was)
  }

  lemma RearrangedPlain<T>(was: seq<T>, w: seq<T>, lo: nat, hi: nat)
    ensures Rearranged(was, w, lo, hi) <==>
      |w| == |was| && multiset(w) == multiset(was) && forall k :: 0 <= k < |w| && (k < lo || hi <= k) ==> w[k] == was[k]
  {
  }

  lemma RearrangedRefilled<T>(was: seq<T>, v: seq<T>, w: seq<T>, lo: nat, hi: nat, start: nat)
    requires Rearranged(was, v, lo, hi) && lo + start < |v|
    requires Refilled(v, w, lo, hi, start, v[lo + start])
    ensures Rearranged(was, w, lo, hi)
  {
    assert v[lo + start := v[lo + start]] == v;
  }

  /** Floyd's bottom-up construction of a heap in a[lo..hi), in linear time. */
  method MakeHeap<T(!new)>(a: array<T>, lo: nat, hi: nat, less: (T, T) -> bool) returns (ghost comparisons: nat)
    requires StrictWeakOrder(less)
    requires lo <= hi <= a.Length
    modifies a
    ensures HeapRange(less, a[..], lo, hi, 0)
    ensures Rearranged(old(a[..]), a[..], lo, hi)
    ensures comparisons <= 2 * (hi - lo)
  {
    hide Less, StrictWeakOrder, HeapRange, Refilled, SameOutside, LevelSum, Levels;
    comparisons := 0;
    var n := hi - lo;
    var i := n / 2;
    LeavesAreHeap(less, a[..], lo, hi);
    ghost var was := a[..];
    RearrangedRefl(was, lo, hi);
    LevelSumEmpty(n, i);
    while i > 0
      invariant 0 <= i <= n / 2
      invariant HeapRange(less, a[..], lo, hi, i)
      invariant Rearranged(was, a[..], lo, hi)
      invariant comparisons <= 2 * LevelSum(n, i, n / 2)
    {
      i := i - 1;
      ghost var v := a[..];
      var value := a[lo + i];
      ghost var c := SiftDown(a, lo, hi, i, value, less);
      RearrangedRefilled(was, v, a[..], lo, hi, i);
      LevelSumNext(n, i, n / 2);
      comparisons := comparisons + c;
    }
    LevelSumLinear(n);
  }

  lemma RearrangedRefl<T>(w: seq<T>, lo: nat, hi: nat)
    ensures Rearranged(w, w, lo, hi)
  {
  }

  // ---- Heapsort ----

  /** Everything from slot `end` on is in place and nothing in [lo, end) is larger. */
  ghost predicate SortedTail<T>(less: (T, T) -> bool, w: seq<T>, lo: nat, end: nat, hi: nat) {
    lo <= end <= hi <= |w| && forall i, j :: lo <= i < j < hi && end <= j ==> !Less(less, w[j], w[i])
  }

  lemma HeapMaximum<T(!new)>(less: (T, T) -> bool, w: seq<T>, lo: nat, hi: nat)
    requires StrictWeakOrder(less)
    requires HeapRange(less, w, lo, hi, 0) && lo < hi
    ensures forall k :: lo <= k < hi ==> !Less(less, w[lo], w[k])
  {
    forall k | lo <= k < hi ensures !Less(less, w[lo], w[k]) {
      RootIsMaximum(less, w[lo..hi], k - lo);
    }
  }

  /** Moving the maximum of [lo, end) behind the others extends the sorted tail. */
  lemma SortedTailStep<T(!new)>(less: (T, T) -> bool, w: seq<T>, v: seq<T>, lo: nat, end: nat, hi: nat)
    requires SortedTail(less, w, lo, end, hi) && lo < end
    requires forall k :: lo <= k < end ==> !Less(less, w[lo], w[k])
    requires Rearranged(w, v, lo, end) && v[end - 1] == w[lo]
    ensures SortedTail(less, v, lo, end - 1, hi)
  {
    forall i, j | lo <= i < j < hi && end - 1 <= j ensures !Less(less, v[j], v[i]) {
      if i < end {
        var p := x => !Less(less, v[j], x);
        assert forall k :: lo <= k < end ==> p(w[k]);
        RangeForall(w, v, lo, end, p);
        assert p(v[i]);
      }
    }
  }

  /** The last slot's value sifts from the root of the heap before it; the root takes the slot. */
  lemma ExtractRearranges<T>(w: seq<T>, u: seq<T>, v: seq<T>, lo: nat, last: nat, end: nat)
    requires lo < last && end == last + 1 <= |w|
    requires u == w[last := w[lo]]
    requires Refilled(u, v, lo, last, 0, w[last])
    ensures Rearranged(w, v, lo, end) && v[last] == w[lo]
  {
    SwapPermutes(w, last, lo);
  }

  lemma ShrinkHeap<T>(less: (T, T) -> bool, w: seq<T>, lo: nat, last: nat, end: nat, x: T)
    requires HeapRange(less, w, lo, end, 0) && lo <= last && end == last + 1
    ensures HeapRange(less, w[last := x], lo, last, 1)
  {
    var h, g := w[lo..end], w[last := x][lo..last];
    forall k: nat | 0 < k < |g| && 1 <= (k - 1) / 2 ensures BelowParent(less, g, k) {
      assert BelowParent(less, h, k);
    }
  }

  lemma WidenInside<T>(was: seq<T>, v: seq<T>, w: seq<T>, lo: nat, hi: nat, x: nat, y: nat)
    requires Rearranged(was, v, lo, hi) && Rearranged(v, w, x, y) && lo <= x && y <= hi
    ensures Rearranged(was, w, lo, hi)
  {
  }

  lemma SortedTailStart<T>(less: (T, T) -> bool, w: seq<T>, lo: nat, hi: nat)
    requires lo <= hi <= |w|
    ensures SortedTail(less, w, lo, hi, hi)
  {
  }

  lemma SortedTailStop<T>(less: (T, T) -> bool, w: seq<T>, lo: nat, end: nat, hi: nat)
    requires SortedTail(less, w, lo, end, hi) && end <= lo + 1
    ensures SortedRange(less, w, lo, hi)
  {
  }

  /** The most comparisons a heapsort of `n` elements makes. */
  ghost function HeapsortBound(n: nat): nat {
    2 * n + 2 * (n * Log2(n))
  }

  /** One round of heapsort: the root of the heap a[lo..end) moves to its last slot. */
  method ExtractMaximum<T(!new)>(a: array<T>, lo: nat, end: nat, ghost hi: nat, less: (T, T) -> bool) returns (ghost comparisons: nat)
    requires StrictWeakOrder(less)
    requires lo + 1 < end <= hi <= a.Length
    requires HeapRange(less, a[..], lo, end, 0)
    requires SortedTail(less, a[..], lo, end, hi)
    modifies a
    ensures HeapRange(less, a[..], lo, end - 1, 0)
    ensures SortedTail(less, a[..], lo, end - 1, hi)
    ensures Rearranged(old(a[..]), a[..], lo, end)
    ensures comparisons <= 2 * Levels(end - 1 - lo, 1)
  {
    hide Less, StrictWeakOrder, HeapRange, Refilled, SameOutside, SortedTail, Rearranged, Levels;
    ghost var w := a[..];
    var last := end - 1;
    HeapMaximum(less, w, lo, end);
    ShrinkHeap(less, w, lo, last, end, w[lo]);
    var value := a[last];
    Move(a, last, lo);
    ghost var u := a[..];
    comparisons := SiftDown(a, lo, last, 0, value, less);
    ExtractRearranges(w, u, a[..], lo, last, end);
    SortedTailStep(less, w, a[..], lo, end, hi);
  }

  /** Sorts a[lo..hi) by repeatedly moving the heap's maximum behind it. */
  method HeapsortRange<T(!new)>(a: array<T>, lo: nat, hi: nat, less: (T, T) -> bool) returns (ghost comparisons: nat)
    requires StrictWeakOrder(less)
    requires lo <= hi <= a.Length
    modifies a
    ensures SortedRange(less, a[..], lo, hi)
    ensures Rearranged(old(a[..]), a[..], lo, hi)
    ensures comparisons <= HeapsortBound(hi - lo)
  {
    hide Less, StrictWeakOrder, HeapRange, SameOutside, SortedRange, SortedTail, Rearranged, Levels, HeapsortBound, SpentBound;
    ghost var was := a[..];
    comparisons := MakeHeap(a, lo, hi, less);
    var end := hi;
    SortedTailStart(less, a[..], lo, hi);
    SpentNone(hi - lo, comparisons);
    while lo + 1 < end
      invariant lo <= end <= hi
      invariant HeapRange(less, a[..], lo, end, 0)
      invariant SortedTail(less, a[..], lo, end, hi)
      invariant Rearranged(was, a[..], lo, hi)
      invariant SpentBound(hi - lo, end - lo, comparisons)
    {
      ghost var w := a[..];
      ghost var c := ExtractMaximum(a, lo, end, hi, less);
      WidenInside(was, w, a[..], lo, hi, lo, end);
      SpentMore(hi - lo, end - lo, comparisons, c);
      comparisons := comparisons + c;
      end := end - 1;
    }
    SortedTailStop(less, a[..], lo, end, hi);
    SpentAll(hi - lo, end - lo, comparisons);
  }

  /** The comparisons made once the heap has shrunk from `n` to `m`. */
  ghost predicate SpentBound(n: nat, m: nat, comparisons: nat) {
    m <= n && comparisons <= 2 * n + 2 * ((n - m) * Log2(n))
  }

  lemma SpentNone(n: nat, comparisons: nat)
    requires comparisons <= 2 * n
    ensures SpentBound(n, n, comparisons)
  {
  }

  lemma SpentMore(n: nat, m: nat, comparisons: nat, c: nat)
    requires SpentBound(n, m, comparisons) && 1 < m && c <= 2 * Levels(m - 1, 1)
    ensures SpentBound(n, m - 1, comparisons + c)
  {
    Log2Monotone(m - 1, n);
    MulStep(n - m, n - (m - 1), Log2(n));
  }

  lemma SpentAll(n: nat, m: nat, comparisons: nat)
    requires SpentBound(n, m, comparisons)
    ensures comparisons <= HeapsortBound(n)
  {
    MulMonotone(n - m, n, Log2(n));
  }

  /** The checked entry point: short ranges go to insertion sort. */
  method Heapsort<T(!new)>(a: array<T>, lo: nat, hi: nat, less: (T, T) -> bool) returns (ghost comparisons: nat)
    requires StrictWeakOrder(less)
    requires lo <= hi <= a.Length
    modifies a
    ensures SortedRange(less, a[..], lo, hi)
    ensures Rearranged(old(a[..]), a[..], lo, hi)
    ensures forall i, j :: lo <= i < j < hi ==> !less(a[j], a[i])
    ensures multiset(a[..]) == multiset(old(a[..]))
    ensures forall k :: 0 <= k < a.Length && (k < lo || hi <= k) ==> a[k] == old(a[k])
    ensures comparisons <= if hi - lo <= 20 then Triangle(hi - lo) else 2 * (hi - lo) + 2 * ((hi - lo) * Log2(hi - lo))
  {
    hide Less, StrictWeakOrder, SortedTo, Triangle, SortedRange, Rearranged, Log2;
    ghost var was := a[..];
    if hi - lo <= HEAPSORT_CUTOFF {
      SortedToCorrect(less, a[..], lo, hi);
      comparisons := InsertionSort(a, lo, hi, less);
    } else {
      comparisons := HeapsortRange(a, lo, hi, less);
    }
    SortedRangePlain(less, a[..], lo, hi);
    RearrangedPlain(was, a[..], lo, hi);
    assert forall k :: 0 <= k < a.Length ==> a[..][k] == a[k] && was[k] == old(a[k]);
  }
}

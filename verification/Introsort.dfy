/**
 `hxsort`: dual-pivot quicksort with a depth counter that falls back to
 heapsort, and insertion sort for short ranges.
 */
module Introsort {
  import opened Order
  import opened InsertionSorting
  import opened HeapLevels
  import opened Heaps

  const INSERTION_SORT_CUTOFF: nat := 10

  // ---- Pivot selection ----

  /** Element `i` of `w` may stand before element `j`. */
  ghost predicate Before<T>(less: (T, T) -> bool, w: seq<T>, i: nat, j: nat) {
    i < |w| && j < |w| && !Less(less, w[j], w[i])
  }

  /** A comparator of the network: exchanges the positions, not the elements. */
  method CompareExchange<T(!new)>(a: array<T>, p: nat, q: nat, less: (T, T) -> bool)
    returns (p': nat, q': nat, ghost comparisons: nat)
    requires StrictWeakOrder(less)
    requires p < a.Length && q < a.Length
    ensures (p' == p && q' == q) || (p' == q && q' == p)
    ensures Before(less, a[..], p', q') && comparisons == 1
    ensures forall x :: Before(less, a[..], x, p) || Before(less, a[..], x, q) ==> Before(less, a[..], x, q')
    ensures forall x :: Before(less, a[..], p, x) || Before(less, a[..], q, x) ==> Before(less, a[..], p', x)
  {
    p', q' := p, q;
    comparisons := 1;
    if Less(less, a[q], a[p]) {
      p', q' := q, p;
    }
    var w := a[..];
    forall x: nat | Before(less, w, x, p) || Before(less, w, x, q) ensures Before(less, w, x, q') {
      if !Before(less, w, x, q') {
        NotLessTransitive(less, w[x], w[p'], w[q']);
      }
    }
    forall x: nat | Before(less, w, p, x) || Before(less, w, q, x) ensures Before(less, w, p', x) {
      if !Before(less, w, p', x) {
        NotLessTransitive(less, w[p'], w[q'], w[x]);
      }
    }
  }

  /** Five different positions strictly between the ends of [lo, hi). */
  ghost predicate Samples(lo: nat, hi: nat, p0: nat, p1: nat, p2: nat, p3: nat, p4: nat) {
    && lo < p0 < hi - 1 && lo < p1 < hi - 1 && lo < p2 < hi - 1 && lo < p3 < hi - 1 && lo < p4 < hi - 1
    && p0 != p1 && p0 != p2 && p0 != p3 && p0 != p4
    && p1 != p2 && p1 != p3 && p1 != p4
    && p2 != p3 && p2 != p4 && p3 != p4
  }

  /** The samples, about a seventh of the range apart, stay clear of both ends. */
  lemma SamplesInside(lo: nat, hi: nat, seventh: nat, p2: nat)
    requires hi - lo > INSERTION_SORT_CUTOFF
    requires seventh == (hi - lo) / 8 + (hi - lo) / 64 + 1
    requires p2 == lo + (hi - lo) / 2
    ensures 2 * seventh <= p2
    ensures Samples(lo, hi, p2 - 2 * seventh, p2 - seventh, p2, p2 + seventh, p2 + 2 * seventh)
  {
  }

  /** How often `x` is among five positions. */
  ghost function Occurrences(x: int, p0: int, p1: int, p2: int, p3: int, p4: int): nat {
    (if x == p0 then 1 else 0) + (if x == p1 then 1 else 0) + (if x == p2 then 1 else 0)
    + (if x == p3 then 1 else 0) + (if x == p4 then 1 else 0)
  }

  /** The nine exchanges of the network only reorder the positions. */
  lemma ExchangesReorder(p0: int, p1: int, p2: int, p3: int, p4: int)
    ensures forall x :: Occurrences(x, p3, p1, p2, p0, p4) == Occurrences(x, p0, p1, p2, p3, p4)
    ensures forall x :: Occurrences(x, p0, p4, p2, p3, p1) == Occurrences(x, p0, p1, p2, p3, p4)
    ensures forall x :: Occurrences(x, p2, p1, p0, p3, p4) == Occurrences(x, p0, p1, p2, p3, p4)
    ensures forall x :: Occurrences(x, p0, p3, p2, p1, p4) == Occurrences(x, p0, p1, p2, p3, p4)
    ensures forall x :: Occurrences(x, p1, p0, p2, p3, p4) == Occurrences(x, p0, p1, p2, p3, p4)
    ensures forall x :: Occurrences(x, p0, p1, p4, p3, p2) == Occurrences(x, p0, p1, p2, p3, p4)
    ensures forall x :: Occurrences(x, p0, p2, p1, p3, p4) == Occurrences(x, p0, p1, p2, p3, p4)
    ensures forall x :: Occurrences(x, p0, p1, p2, p4, p3) == Occurrences(x, p0, p1, p2, p3, p4)
    ensures forall x :: Occurrences(x, p0, p1, p3, p2, p4) == Occurrences(x, p0, p1, p2, p3, p4)
  {
  }

  /** The first five comparators leave the least element first. */
  method SortSamplesFirst<T(!new)>(a: array<T>, ghost lo: nat, ghost hi: nat, s0: nat, s1: nat, s2: nat, s3: nat, s4: nat, less: (T, T) -> bool)
    returns (p0: nat, p1: nat, p2: nat, p3: nat, p4: nat, ghost comparisons: nat)
    requires StrictWeakOrder(less)
    requires hi <= a.Length && Samples(lo, hi, s0, s1, s2, s3, s4)
    ensures Samples(lo, hi, p0, p1, p2, p3, p4)
    ensures Before(less, a[..], p0, p1) && Before(less, a[..], p0, p2) && Before(less, a[..], p0, p3) && Before(less, a[..], p0, p4)
    ensures Before(less, a[..], p1, p3)
    ensures forall x :: Occurrences(x, p0, p1, p2, p3, p4) == Occurrences(x, s0, s1, s2, s3, s4)
    ensures comparisons == 5
  {
    hide Before, StrictWeakOrder, Less, Occurrences;
    p0, p1, p2, p3, p4 := s0, s1, s2, s3, s4;
    ghost var c1;
    ExchangesReorder(p0, p1, p2, p3, p4);
    p0, p3, c1 := CompareExchange(a, p0, p3, less);
    assert Samples(lo, hi, p0, p1, p2, p3, p4);
    ghost var c2;
    ExchangesReorder(p0, p1, p2, p3, p4);
    p1, p4, c2 := CompareExchange(a, p1, p4, less);
    assert Samples(lo, hi, p0, p1, p2, p3, p4);
    ghost var c3;
    ExchangesReorder(p0, p1, p2, p3, p4);
    p0, p2, c3 := CompareExchange(a, p0, p2, less);
    assert Samples(lo, hi, p0, p1, p2, p3, p4);
    assert Before(less, a[..], p0, p2) && Before(less, a[..], p0, p3) && Before(less, a[..], p1, p4);
    ghost var c4;
    ExchangesReorder(p0, p1, p2, p3, p4);
    p1, p3, c4 := CompareExchange(a, p1, p3, less);
    assert Samples(lo, hi, p0, p1, p2, p3, p4);
    assert Before(less, a[..], p0, p3) && Before(less, a[..], p1, p4);
    ghost var c5;
    ExchangesReorder(p0, p1, p2, p3, p4);
    p0, p1, c5 := CompareExchange(a, p0, p1, less);
    comparisons := c1 + c2 + c3 + c4 + c5;
  }

  /** The other four order the rest. */
  method SortSamplesRest<T(!new)>(a: array<T>, ghost lo: nat, ghost hi: nat, p0: nat, s1: nat, s2: nat, s3: nat, s4: nat, less: (T, T) -> bool)
    returns (p1: nat, p2: nat, p3: nat, p4: nat, ghost comparisons: nat)
    requires StrictWeakOrder(less)
    requires hi <= a.Length && Samples(lo, hi, p0, s1, s2, s3, s4)
    requires Before(less, a[..], p0, s1) && Before(less, a[..], p0, s2) && Before(less, a[..], p0, s3) && Before(less, a[..], p0, s4)
    requires Before(less, a[..], s1, s3)
    ensures Samples(lo, hi, p0, p1, p2, p3, p4)
    ensures Before(less, a[..], p0, p1) && Before(less, a[..], p1, p2) && Before(less, a[..], p2, p3) && Before(less, a[..], p3, p4)
    ensures forall x :: Occurrences(x, p0, p1, p2, p3, p4) == Occurrences(x, p0, s1, s2, s3, s4)
    ensures comparisons == 4
  {
    hide Before, StrictWeakOrder, Less, Occurrences;
    p1, p2, p3, p4 := s1, s2, s3, s4;
    ghost var c6;
    ExchangesReorder(p0, p1, p2, p3, p4);
    p2, p4, c6 := CompareExchange(a, p2, p4, less);
    assert Samples(lo, hi, p0, p1, p2, p3, p4);
    ghost var c7;
    ExchangesReorder(p0, p1, p2, p3, p4);
    p1, p2, c7 := CompareExchange(a, p1, p2, less);
    assert Samples(lo, hi, p0, p1, p2, p3, p4);
    assert Before(less, a[..], p0, p1) && Before(less, a[..], p1, p3) && Before(less, a[..], p1, p4);
    ghost var c8;
    ExchangesReorder(p0, p1, p2, p3, p4);
    p3, p4, c8 := CompareExchange(a, p3, p4, less);
    assert Samples(lo, hi, p0, p1, p2, p3, p4);
    assert Before(less, a[..], p1, p3) && Before(less, a[..], p2, p4);
    ghost var c9;
    ExchangesReorder(p0, p1, p2, p3, p4);
    p2, p3, c9 := CompareExchange(a, p2, p3, less);
    comparisons := c6 + c7 + c8 + c9;
  }

  /** Chooses five samples and orders their positions. */
  method SelectPivots<T(!new)>(a: array<T>, lo: nat, hi: nat, less: (T, T) -> bool)
    returns (p0: nat, p1: nat, p2: nat, p3: nat, p4: nat, ghost comparisons: nat)
    requires StrictWeakOrder(less)
    requires hi <= a.Length && hi - lo > INSERTION_SORT_CUTOFF
    ensures Samples(lo, hi, p0, p1, p2, p3, p4)
    ensures var mid, seventh := lo + (hi - lo) / 2, (hi - lo) / 8 + (hi - lo) / 64 + 1;
      forall x :: Occurrences(x, p0, p1, p2, p3, p4) ==
        Occurrences(x, mid - 2 * seventh, mid - seventh, mid, mid + seventh, mid + 2 * seventh)
    ensures Before(less, a[..], p0, p1) && Before(less, a[..], p1, p2) && Before(less, a[..], p2, p3) && Before(less, a[..], p3, p4)
    ensures comparisons == 9
  {
    hide Before, StrictWeakOrder, Less, Samples, Occurrences;
    var length := hi - lo;
    var seventh := length / 8 + length / 64 + 1;
    p2 := lo + length / 2;
    SamplesInside(lo, hi, seventh, p2);
    p1 := p2 - seventh;
    p0 := p1 - seventh;
    p3 := p2 + seventh;
    p4 := p3 + seventh;
    ghost var c;
    p0, p1, p2, p3, p4, comparisons := SortSamplesFirst(a, lo, hi, p0, p1, p2, p3, p4, less);
    p1, p2, p3, p4, c := SortSamplesRest(a, lo, hi, p0, p1, p2, p3, p4, less);
    comparisons := comparisons + c;
  }

  // ---- Three-way partition ----

  /** Slots (lo, lt) are below the first pivot, [lt, i) between, (gt, back) above the second. */
  ghost predicate Partitioned<T>(less: (T, T) -> bool, w: seq<T>, lo: nat, back: nat, lt: nat, i: nat, gt: nat, pivot1: T, pivot2: T) {
    && lo < lt <= i <= gt + 1 && gt < back < |w|
    && (forall k :: lo < k < lt ==> Less(less, w[k], pivot1))
    && (forall k :: lt <= k < i ==> !Less(less, w[k], pivot1) && !Less(less, pivot2, w[k]))
    && (forall k :: gt < k < back ==> Less(less, pivot2, w[k]))
  }

  /** With the pivots put back in the holes at both ends, `w` rearranges `was`. */
  ghost predicate EndsOpen<T>(was: seq<T>, w: seq<T>, lo: nat, back: nat, pivot1: T, pivot2: T) {
    lo < back < |w| && Rearranged(was, w[lo := pivot1][back := pivot2], lo, back + 1)
  }

  ghost function Swapped<T>(w: seq<T>, i: nat, j: nat): seq<T>
    requires i < |w| && j < |w|
  {
    w[i := w[j]][j := w[i]]
  }

  lemma SwappedLength<T>(w: seq<T>, i: nat, j: nat)
    requires i < |w| && j < |w|
    ensures |Swapped(w, i, j)| == |w|
  {
  }

  method Swap<T>(a: array<T>, i: nat, j: nat)
    requires i < a.Length && j < a.Length
    modifies a
    ensures a[..] == Swapped(old(a[..]), i, j)
  {
    a[i], a[j] := a[j], a[i];
  }

  lemma SwapSelf<T>(w: seq<T>, i: nat)
    requires i < |w|
    ensures Swapped(w, i, i) == w
  {
  }

  lemma UpdatesCommute<T>(w: seq<T>, i: nat, x: T, j: nat, y: T)
    requires i < |w| && j < |w| && i != j
    ensures w[i := x][j := y] == w[j := y][i := x]
  {
  }

  /** Filling the ends of a range commutes with an exchange inside it. */
  lemma SwapUnderEnds<T>(w: seq<T>, lo: nat, x: T, back: nat, y: T, i: nat, j: nat)
    requires lo < i < back < |w| && lo < j < back
    ensures Swapped(w, i, j)[lo := x][back := y] == Swapped(w[lo := x][back := y], i, j)
  {
    UpdatesCommute(w[i := w[j]], j, w[i], lo, x);
    UpdatesCommute(w, i, w[j], lo, x);
    var u := w[lo := x];
    UpdatesCommute(u[i := u[j]], j, u[i], back, y);
    UpdatesCommute(u, i, u[j], back, y);
  }

  lemma SwappedRearranges<T>(was: seq<T>, w: seq<T>, lo: nat, hi: nat, i: nat, j: nat)
    requires Rearranged(was, w, lo, hi) && lo <= i < hi <= |w| && lo <= j < hi
    ensures Rearranged(was, Swapped(w, i, j), lo, hi)
  {
    SwapPermutes(w, i, j);
  }

  /** Lifting a pivot out and filling its slot from the end of the range is an exchange. */
  lemma LiftIsSwap<T>(w: seq<T>, end: nat, p: nat)
    requires end < |w| && p < |w| && end != p
    ensures w[p := w[end]][end := w[p]] == Swapped(w, end, p)
  {
  }

  lemma OpenEnds<T>(w: seq<T>, lo: nat, back: nat, p1: nat, p3: nat)
    requires lo < p1 < back < |w| && lo < p3 < back && p1 != p3
    ensures EndsOpen(w, w[p1 := w[lo]][p3 := w[back]], lo, back, w[p1], w[p3])
  {
    hide Rearranged, Swapped;
    var u := Swapped(w, lo, p1);
    RearrangedRefl(w, lo, back + 1);
    SwappedRearranges(w, w, lo, back + 1, lo, p1);
    SwappedRearranges(w, u, lo, back + 1, back, p3);
    LiftIsSwap(w, lo, p1);
    UpdatesCommute(w[p1 := w[lo]], p3, w[back], lo, w[p1]);
    assert u[back] == w[back] && u[p3] == w[p3];
    LiftIsSwap(u, back, p3);
  }

  lemma SwapInside<T>(was: seq<T>, w: seq<T>, lo: nat, back: nat, pivot1: T, pivot2: T, i: nat, j: nat)
    requires EndsOpen(was, w, lo, back, pivot1, pivot2)
    requires lo < i < back && lo < j < back
    ensures EndsOpen(was, Swapped(w, i, j), lo, back, pivot1, pivot2)
  {
    hide Rearranged, Swapped;
    SwappedLength(w, i, j);
    SwapUnderEnds(w, lo, pivot1, back, pivot2, i, j);
    SwappedRearranges(was, w[lo := pivot1][back := pivot2], lo, back + 1, i, j);
  }

  lemma TakeLess<T>(less: (T, T) -> bool, w: seq<T>, lo: nat, back: nat, lt: nat, i: nat, gt: nat, pivot1: T, pivot2: T)
    requires Partitioned(less, w, lo, back, lt, i, gt, pivot1, pivot2) && i <= gt
    requires Less(less, w[i], pivot1)
    ensures Partitioned(less, Swapped(w, i, lt), lo, back, lt + 1, i + 1, gt, pivot1, pivot2)
  {
  }

  lemma TakeGreater<T>(less: (T, T) -> bool, w: seq<T>, lo: nat, back: nat, lt: nat, i: nat, gt: nat, pivot1: T, pivot2: T)
    requires Partitioned(less, w, lo, back, lt, i, gt, pivot1, pivot2) && i <= gt
    requires Less(less, pivot2, w[i])
    ensures Partitioned(less, Swapped(w, i, gt), lo, back, lt, i, gt - 1, pivot1, pivot2)
  {
  }

  lemma TakeMiddle<T>(less: (T, T) -> bool, w: seq<T>, lo: nat, back: nat, lt: nat, i: nat, gt: nat, pivot1: T, pivot2: T)
    requires Partitioned(less, w, lo, back, lt, i, gt, pivot1, pivot2) && i <= gt
    requires !Less(less, w[i], pivot1) && !Less(less, pivot2, w[i])
    ensures Partitioned(less, w, lo, back, lt, i + 1, gt, pivot1, pivot2)
  {
  }

  /** Classifies every element strictly between the holes at `lo` and `back`. */
  method PartitionLoop<T(!new)>(a: array<T>, lo: nat, back: nat, pivot1: T, pivot2: T, ghost was: seq<T>, less: (T, T) -> bool)
    returns (lt: nat, gt: nat, ghost comparisons: nat)
    requires lo + 1 < back < a.Length
    requires EndsOpen(was, a[..], lo, back, pivot1, pivot2)
    modifies a
    ensures lt <= gt + 1
    ensures Partitioned(less, a[..], lo, back, lt, gt + 1, gt, pivot1, pivot2)
    ensures EndsOpen(was, a[..], lo, back, pivot1, pivot2)
    ensures comparisons <= 2 * (back - lo - 1)
  {
    hide Less, Partitioned, EndsOpen, Swapped;
    comparisons := 0;
    lt := lo + 1;
    gt := back - 1;
    PartitionStart(less, a[..], lo, back, lt, gt, pivot1, pivot2);
    var i := lt;
    while !(gt < i)
      invariant lo < lt <= i <= gt + 1 && gt < back
      invariant Partitioned(less, a[..], lo, back, lt, i, gt, pivot1, pivot2)
      invariant EndsOpen(was, a[..], lo, back, pivot1, pivot2)
      invariant comparisons + 2 * (gt + 1 - i) <= 2 * (back - lo - 1)
      decreases gt + 1 - i
    {
      ghost var w := a[..];
      comparisons := comparisons + 1;
      if Less(less, a[i], pivot1) {
        TakeLess(less, w, lo, back, lt, i, gt, pivot1, pivot2);
        SwapInside(was, w, lo, back, pivot1, pivot2, i, lt);
        SwapSelf(w, i);
        if lt != i {
          Swap(a, i, lt);
        }
        i := i + 1;
        lt := lt + 1;
      } else {
        comparisons := comparisons + 1;
        if Less(less, pivot2, a[i]) {
          TakeGreater(less, w, lo, back, lt, i, gt, pivot1, pivot2);
          SwapInside(was, w, lo, back, pivot1, pivot2, i, gt);
          SwapSelf(w, i);
          if gt != i {
            Swap(a, i, gt);
          }
          gt := gt - 1;
        } else {
          TakeMiddle(less, w, lo, back, lt, i, gt, pivot1, pivot2);
          i := i + 1;
        }
      }
    }
    assert i == gt + 1;
  }

  lemma PartitionStart<T>(less: (T, T) -> bool, w: seq<T>, lo: nat, back: nat, lt: nat, gt: nat, pivot1: T, pivot2: T)
    requires lo + 1 < back < |w| && lt == lo + 1 && gt == back - 1
    ensures Partitioned(less, w, lo, back, lt, lt, gt, pivot1, pivot2)
  {
  }

  // ---- Placing the pivots ----

  /** The pivots stand at `lt` and `gt`, everything else in [lo, hi) on its side of them. */
  ghost predicate Split<T>(less: (T, T) -> bool, w: seq<T>, lo: nat, hi: nat, lt: nat, gt: nat) {
    && lo <= lt < gt < hi <= |w|
    && (forall k :: lo <= k < lt ==> Less(less, w[k], w[lt]))
    && (forall k :: lt < k < gt ==> !Less(less, w[k], w[lt]) && !Less(less, w[gt], w[k]))
    && (forall k :: gt < k < hi ==> Less(less, w[gt], w[k]))
    && !Less(less, w[gt], w[lt])
  }

  /** Filling the hole at `end` from slot `p` and slot `p` with the pivot. */
  ghost function Closed<T>(w: seq<T>, end: nat, p: nat, pivot: T): seq<T>
    requires end < |w| && p < |w|
  {
    w[end := w[p]][p := pivot]
  }

  lemma ClosedIsSwap<T>(w: seq<T>, end: nat, p: nat, pivot: T)
    requires end < |w| && p < |w|
    ensures Closed(w, end, p, pivot) == Swapped(w[end := pivot], end, p)
  {
  }

  lemma ClosedApart<T>(w: seq<T>, lo: nat, lt: nat, x: T, back: nat, gt: nat, y: T)
    requires lo <= lt < gt <= back < |w|
    ensures Closed(Closed(w, lo, lt, x), back, gt, y) == Swapped(Swapped(w[lo := x][back := y], lo, lt), back, gt)
  {
    ClosedIsSwap(w, lo, lt, x);
    var u := w[lo := x];
    ClosedIsSwap(Swapped(u, lo, lt), back, gt, y);
    assert Swapped(u, lo, lt)[back := y] == Swapped(u[back := y], lo, lt);
  }

  lemma CloseSplits<T>(less: (T, T) -> bool, w: seq<T>, lo: nat, lt: nat, pivot1: T, back: nat, gt: nat, pivot2: T)
    requires lo < lt <= gt + 1 && gt < back < |w|
    requires Partitioned(less, w, lo, back, lt, gt + 1, gt, pivot1, pivot2)
    requires !Less(less, pivot2, pivot1)
    ensures Split(less, Closed(Closed(w, lo, lt - 1, pivot1), back, gt + 1, pivot2), lo, back + 1, lt - 1, gt + 1)
  {
    hide Less;
    var u := Closed(w, lo, lt - 1, pivot1);
    var v := Closed(u, back, gt + 1, pivot2);
    assert v[lt - 1] == pivot1 && v[gt + 1] == pivot2;
  }

  /** The two moves that close one hole. */
  method Close<T>(a: array<T>, end: nat, p: nat, pivot: T)
    requires end < a.Length && p < a.Length
    modifies a
    ensures a[..] == Closed(old(a[..]), end, p, pivot)
  {
    if end != p {
      a[end] := a[p];
    }
    a[p] := pivot;
  }

  /** Partitions a[lo..hi) around two pivots and returns where they ended up. */
  method Partition<T(!new)>(a: array<T>, lo: nat, hi: nat, less: (T, T) -> bool)
    returns (lt: nat, gt: nat, ghost comparisons: nat)
    requires StrictWeakOrder(less)
    requires hi <= a.Length && hi - lo > INSERTION_SORT_CUTOFF
    modifies a
    ensures Split(less, a[..], lo, hi, lt, gt)
    ensures Rearranged(old(a[..]), a[..], lo, hi)
    ensures comparisons <= 2 * (hi - lo) + 5
  {
    hide Less, StrictWeakOrder, Partitioned, EndsOpen, Split, Rearranged, Closed, Before, Samples;
    ghost var was := a[..];
    var p0, p1, p2, p3, p4, selecting := SelectPivots(a, lo, hi, less);
    SampleFacts(less, was, lo, hi, p0, p1, p2, p3, p4);
    var back := hi - 1;
    var pivot1 := a[p1];
    Move(a, p1, lo);
    var pivot2 := a[p3];
    Move(a, p3, back);
    OpenEnds(was, lo, back, p1, p3);
    lt, gt, comparisons := PartitionLoop(a, lo, back, pivot1, pivot2, was, less);
    PartitionBounds(less, a[..], lo, back, lt, gt, pivot1, pivot2);
    CloseSplits(less, a[..], lo, lt, pivot1, back, gt, pivot2);
    CloseRearranges(was, a[..], lo, lt - 1, pivot1, back, gt + 1, pivot2);
    lt := lt - 1;
    Close(a, lo, lt, pivot1);
    gt := gt + 1;
    Close(a, back, gt, pivot2);
    comparisons := comparisons + selecting;
  }

  lemma SampleFacts<T(!new)>(less: (T, T) -> bool, w: seq<T>, lo: nat, hi: nat, p0: nat, p1: nat, p2: nat, p3: nat, p4: nat)
    requires StrictWeakOrder(less) && Samples(lo, hi, p0, p1, p2, p3, p4)
    requires Before(less, w, p1, p2) && Before(less, w, p2, p3)
    ensures lo < p1 < hi - 1 && lo < p3 < hi - 1 && p1 != p3
    ensures p1 < |w| && p3 < |w| && !Less(less, w[p3], w[p1])
  {
    NotLessTransitive(less, w[p1], w[p2], w[p3]);
  }

  lemma PartitionBounds<T>(less: (T, T) -> bool, w: seq<T>, lo: nat, back: nat, lt: nat, gt: nat, pivot1: T, pivot2: T)
    requires lt <= gt + 1 && Partitioned(less, w, lo, back, lt, gt + 1, gt, pivot1, pivot2)
    ensures lo < lt <= gt + 1 && gt < back < |w|
  {
  }

  lemma CloseRearranges<T>(was: seq<T>, w: seq<T>, lo: nat, lt: nat, pivot1: T, back: nat, gt: nat, pivot2: T)
    requires EndsOpen(was, w, lo, back, pivot1, pivot2)
    requires lo <= lt < gt <= back
    ensures Rearranged(was, Closed(Closed(w, lo, lt, pivot1), back, gt, pivot2), lo, back + 1)
  {
    hide Rearranged, Swapped;
    var u := w[lo := pivot1][back := pivot2];
    SwappedLength(u, lo, lt);
    ClosedApart(w, lo, lt, pivot1, back, gt, pivot2);
    SwappedRearranges(was, u, lo, back + 1, lo, lt);
    SwappedRearranges(was, Swapped(u, lo, lt), lo, back + 1, back, gt);
  }

  // ---- Recursion ----

  /** Sorting one side of a split keeps the split. */
  lemma SplitKept<T>(less: (T, T) -> bool, w: seq<T>, v: seq<T>, lo: nat, hi: nat, lt: nat, gt: nat, x: nat, y: nat)
    requires Split(less, w, lo, hi, lt, gt) && Rearranged(w, v, x, y)
    requires (x == lo && y == lt) || (x == lt + 1 && y == gt) || (x == gt + 1 && y == hi)
    ensures Split(less, v, lo, hi, lt, gt)
  {
    hide Less;
    var p := if x == lo then e => Less(less, e, w[lt])
      else if x == lt + 1 then e => !Less(less, e, w[lt]) && !Less(less, w[gt], e)
      else e => Less(less, w[gt], e);
    RangeForall(w, v, x, y, p);
    assert v[lt] == w[lt] && v[gt] == w[gt];
  }

  lemma SortedKept<T>(less: (T, T) -> bool, w: seq<T>, v: seq<T>, lo: nat, hi: nat, x: nat, y: nat)
    requires lo <= hi <= |w| && (hi <= x || y <= lo)
    requires SortedRange(less, w, lo, hi) && Rearranged(w, v, x, y)
    ensures SortedRange(less, v, lo, hi)
  {
  }

  lemma SplitSortedPair<T(!new)>(less: (T, T) -> bool, w: seq<T>, lo: nat, hi: nat, lt: nat, gt: nat, i: nat, j: nat)
    requires StrictWeakOrder(less) && Split(less, w, lo, hi, lt, gt)
    requires SortedRange(less, w, lo, lt) && SortedRange(less, w, gt + 1, hi)
    requires SortedRange(less, w, lt + 1, gt) || !Less(less, w[lt], w[gt])
    requires lo <= i < j < hi
    ensures !Less(less, w[j], w[i])
  {
    hide StrictWeakOrder;
    StrictWeakOrderIrreflexive(less, w[lt]);
    StrictWeakOrderIrreflexive(less, w[gt]);
    if i < lt {
      StrictWeakOrderAsymmetric(less, w[i], w[lt]);
    }
    if j > gt {
      StrictWeakOrderAsymmetric(less, w[gt], w[j]);
    }
    if j < lt || gt < i {
    } else if i <= lt {
      if gt <= j {
        NotLessTransitive(less, w[lt], w[gt], w[j]);
      }
      NotLessTransitive(less, w[i], w[lt], w[j]);
    } else if gt <= j {
      NotLessTransitive(less, w[i], w[gt], w[j]);
    } else if !Less(less, w[lt], w[gt]) {
      NotLessTransitive(less, w[gt], w[lt], w[j]);
      NotLessTransitive(less, w[i], w[gt], w[j]);
    }
  }

  lemma SplitSorted<T(!new)>(less: (T, T) -> bool, w: seq<T>, lo: nat, hi: nat, lt: nat, gt: nat)
    requires StrictWeakOrder(less)
    requires lo <= lt < gt < hi <= |w| && Split(less, w, lo, hi, lt, gt)
    requires SortedRange(less, w, lo, lt) && SortedRange(less, w, gt + 1, hi)
    requires SortedRange(less, w, lt + 1, gt) || !Less(less, w[lt], w[gt])
    ensures SortedRange(less, w, lo, hi)
  {
    hide StrictWeakOrder, Split;
    forall i, j | lo <= i < j < hi ensures !Less(less, w[j], w[i]) {
      SplitSortedPair(less, w, lo, hi, lt, gt, i, j);
    }
  }

  /** The most comparisons spent on `n` elements with `depth` levels of partitioning left. */
  ghost function IntroBound(n: nat, depth: nat, log: nat): nat {
    n * (2 * depth + 2 * log + 10)
  }

  lemma IntroBoundShort(n: nat, depth: nat, log: nat)
    requires n <= HEAPSORT_CUTOFF
    ensures Triangle(n) <= IntroBound(n, depth, log)
  {
    TriangleClosed(n);
    MulMonotone(n, 21, n);
    MulMonotone(10, 2 * depth + 2 * log + 10, n);
    assert 2 * Triangle(n) == n * (n - 1) == n * n - n;
    assert (2 * depth + 2 * log + 10) * n == IntroBound(n, depth, log);
  }

  lemma Distribute(n: nat, c: nat, x: nat, d: nat)
    ensures n * (c * x + d) == c * (n * x) + d * n
  {
    assert n * (c * x + d) == n * (c * x) + n * d;
    assert n * (c * x) == c * (n * x);
  }

  lemma IntroBoundHeap(n: nat, depth: nat, log: nat)
    requires Log2(n) <= log
    ensures HeapsortBound(n) <= IntroBound(n, depth, log)
  {
    hide Log2;
    MulMonotone(Log2(n), depth + log, n);
    Distribute(n, 2, depth + log, 10);
  }

  /** Splitting off both pivots pays for the partition. */
  lemma IntroBoundSplit(n: nat, x: nat, y: nat, z: nat, depth: nat, log: nat)
    requires x + y + z + 2 == n && depth > 0
    ensures 2 * n + 6 + IntroBound(x, depth - 1, log) + IntroBound(y, depth - 1, log) + IntroBound(z, depth - 1, log)
         <= IntroBound(n, depth, log)
  {
    var c := 2 * depth + 2 * log + 8;
    assert x * c + y * c + z * c == (x + y + z) * c == (n - 2) * c;
    assert n * (c + 2) == (n - 2) * c + 2 * c + 2 * n;
  }

  /**
   Introsort of a[lo..hi): quicksort while `depth` lasts, then heapsort, and
   insertion sort below the cutoff, which is larger once `depth` is spent.
   */
  method IntroSort<T(!new)>(a: array<T>, lo: nat, hi: nat, less: (T, T) -> bool, depth: nat, ghost log: nat)
    returns (ghost comparisons: nat)
    requires StrictWeakOrder(less)
    requires lo <= hi <= a.Length
    requires Log2(hi - lo) <= log
    modifies a
    ensures SortedRange(less, a[..], lo, hi)
    ensures Rearranged(old(a[..]), a[..], lo, hi)
    ensures comparisons <= IntroBound(hi - lo, depth, log)
    decreases depth, 0
  {
    hide Less, StrictWeakOrder, SortedTo, SortedRange, Rearranged, IntroBound, HeapsortBound, Triangle, Log2;
    var cutoff := if depth == 0 then HEAPSORT_CUTOFF else INSERTION_SORT_CUTOFF;
    if hi - lo <= cutoff {
      SortedToRearranged(less, a[..], lo, hi);
      IntroBoundShort(hi - lo, depth, log);
      comparisons := InsertionSort(a, lo, hi, less);
    } else if depth == 0 {
      IntroBoundHeap(hi - lo, depth, log);
      comparisons := HeapsortRange(a, lo, hi, less);
    } else {
      comparisons := PartitionSort(a, lo, hi, less, depth, log);
    }
  }

  /** One partition and the sorts of its parts; the middle is skipped between equivalent pivots. */
  method PartitionSort<T(!new)>(a: array<T>, lo: nat, hi: nat, less: (T, T) -> bool, depth: nat, ghost log: nat)
    returns (ghost comparisons: nat)
    requires StrictWeakOrder(less) && depth > 0
    requires hi <= a.Length && hi - lo > INSERTION_SORT_CUTOFF
    requires Log2(hi - lo) <= log
    modifies a
    ensures SortedRange(less, a[..], lo, hi)
    ensures Rearranged(old(a[..]), a[..], lo, hi)
    ensures comparisons <= IntroBound(hi - lo, depth, log)
    decreases depth - 1, 1
  {
    hide Less, StrictWeakOrder, SortedRange, Split, Rearranged, IntroBound, Log2;
    ghost var was := a[..];
    var lt, gt;
    lt, gt, comparisons := Partition(a, lo, hi, less);
    ghost var w0 := a[..];
    SplitBounds(less, w0, lo, hi, lt, gt, log);
    IntroBoundSplit(hi - lo, lt - lo, gt - lt - 1, hi - gt - 1, depth, log);

    ghost var c := IntroSort(a, lo, lt, less, depth - 1, log);
    ghost var w1 := a[..];
    SplitKept(less, w0, w1, lo, hi, lt, gt, lo, lt);
    WidenInside(was, w0, w1, lo, hi, lo, lt);
    comparisons := comparisons + c + 1;

    if Less(less, a[lt], a[gt]) {
      c := IntroSort(a, lt + 1, gt, less, depth - 1, log);
      comparisons := comparisons + c;
      SplitKept(less, w1, a[..], lo, hi, lt, gt, lt + 1, gt);
      SortedKept(less, w1, a[..], lo, lt, lt + 1, gt);
      WidenInside(was, w1, a[..], lo, hi, lt + 1, gt);
    }
    ghost var w2 := a[..];
    SplitBounds(less, w2, lo, hi, lt, gt, log);

    c := IntroSort(a, gt + 1, hi, less, depth - 1, log);
    comparisons := comparisons + c;
    ghost var w3 := a[..];
    SplitKept(less, w2, w3, lo, hi, lt, gt, gt + 1, hi);
    SortedKept(less, w2, w3, lo, lt, gt + 1, hi);
    RearrangedAt(w2, w3, gt + 1, hi, lt, gt);
    if Less(less, w2[lt], w2[gt]) {
      SortedKept(less, w2, w3, lt + 1, gt, gt + 1, hi);
    }
    WidenInside(was, w2, w3, lo, hi, gt + 1, hi);
    SplitSorted(less, w3, lo, hi, lt, gt);
  }

  lemma SplitBounds<T>(less: (T, T) -> bool, w: seq<T>, lo: nat, hi: nat, lt: nat, gt: nat, log: nat)
    requires Split(less, w, lo, hi, lt, gt) && Log2(hi - lo) <= log
    ensures lo <= lt < gt < hi <= |w|
    ensures Log2(lt - lo) <= log && Log2(gt - lt - 1) <= log && Log2(hi - gt - 1) <= log
  {
    Log2Monotone(lt - lo, hi - lo);
    Log2Monotone(gt - lt - 1, hi - lo);
    Log2Monotone(hi - gt - 1, hi - lo);
  }

  lemma RearrangedAt<T>(v: seq<T>, w: seq<T>, x: nat, y: nat, i: nat, j: nat)
    requires Rearranged(v, w, x, y) && i < x && j < x && x <= |v|
    ensures |w| == |v| && w[i] == v[i] && w[j] == v[j]
  {
  }

  lemma SortedToRearranged<T(!new)>(less: (T, T) -> bool, w: seq<T>, lo: nat, hi: nat)
    requires StrictWeakOrder(less) && lo <= hi <= |w|
    ensures Rearranged(w, SortedTo(less, w, lo, hi), lo, hi)
    ensures |SortedTo(less, w, lo, hi)| == |w| && SortedRange(less, SortedTo(less, w, lo, hi), lo, hi)
  {
    SortedToCorrect(less, w, lo, hi);
  }

  /** The depth limit keeps the bound O(n log n), whatever the cast to 32 bits does to the size. */
  lemma SortBound(n: nat, depth: nat)
    requires depth <= 2 * Log2(n)
    ensures IntroBound(n, depth, Log2(n)) <= n * (6 * Log2(n) + 10) <= 10 * (n * (1 + Log2(n)))
  {
    hide Log2;
    MulMonotone(2 * depth + 2 * Log2(n) + 10, 6 * Log2(n) + 10, n);
    Distribute(n, 6, Log2(n), 10);
    Distribute(n, 1, Log2(n), 1);
  }

  lemma TruncatedLog(n: nat)
    ensures Log2(n % 0x1_0000_0000) <= Log2(n)
  {
    Log2Monotone(n % 0x1_0000_0000, n);
  }

  /**
   `hxsort` of a whole range: the depth limit is twice the binary logarithm of
   the size after its cast to 32 bits. Sorts under every strict weak order, and
   the depth counter bounds the comparisons on every input, as documented.
   */
  method Sort<T(!new)>(a: array<T>, lo: nat, hi: nat, less: (T, T) -> bool) returns (ghost comparisons: nat)
    requires StrictWeakOrder(less)
    requires lo <= hi <= a.Length
    requires lo < hi ==> (hi - lo) % 0x1_0000_0000 != 0
    modifies a
    ensures SortedRange(less, a[..], lo, hi)
    ensures Rearranged(old(a[..]), a[..], lo, hi)
    ensures forall i, j :: lo <= i < j < hi ==> !less(a[j], a[i])
    ensures multiset(a[..]) == multiset(old(a[..]))
    ensures forall k :: 0 <= k < a.Length && (k < lo || hi <= k) ==> a[k] == old(a[k])
    ensures comparisons <= (hi - lo) * (6 * Log2(hi - lo) + 10) <= 10 * ((hi - lo) * (1 + Log2(hi - lo)))
  {
    hide StrictWeakOrder, SortedRange, Rearranged, IntroBound, Log2;
    ghost var was := a[..];
    var size := hi - lo;
    var depth := if size > 0 then 2 * Log2(size % 0x1_0000_0000) else 0;
    TruncatedLog(size);
    SortBound(size, depth);
    comparisons := IntroSort(a, lo, hi, less, depth, Log2(size));
    SortedRangePlain(less, a[..], lo, hi);
    RearrangedPlain(was, a[..], lo, hi);
    assert forall k :: 0 <= k < a.Length ==> a[..][k] == a[k] && was[k] == old(a[k]);
  }
}

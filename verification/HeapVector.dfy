/** `push_heap` and `pop_heap` of a vector whose first `n` slots form a max-heap. */
module HeapVectors {
  import opened Order
  import opened HeapLevels
  import opened Heaps

  /** What holds while an element sifts up: its hole has come to `cur` of the `n + 1` nodes. */
  ghost predicate Rising<T>(less: (T, T) -> bool, h: seq<T>, cur: nat, x: T) {
    && cur < |h|
    && (if cur == |h| - 1 then HeapFrom(less, h[..cur], 0) else HeapFrom(less, h, 0) && Less(less, h[cur], x))
  }

  lemma RiseStep<T(!new)>(less: (T, T) -> bool, h: seq<T>, cur: nat, parent: nat, x: T)
    requires StrictWeakOrder(less)
    requires Rising(less, h, cur, x) && cur > 0 && parent == (cur - 1) / 2
    requires Less(less, h[parent], x)
    ensures Rising(less, h[cur := h[parent]], parent, x)
  {
    hide StrictWeakOrder;
    var g := h[cur := h[parent]];
    StrictWeakOrderIrreflexive(less, h[parent]);
    forall k: nat | 0 < k < |g| ensures BelowParent(less, g, k) {
      if cur == |h| - 1 {
        if k != cur {
          assert BelowParent(less, h[..cur], k);
        }
      } else {
        assert BelowParent(less, h, k) && BelowParent(less, h, cur);
        if (k - 1) / 2 == cur {
          NotLessTransitive(less, h[k], h[cur], h[parent]);
        }
      }
    }
  }

  lemma RiseStop<T(!new)>(less: (T, T) -> bool, h: seq<T>, cur: nat, x: T)
    requires StrictWeakOrder(less)
    requires Rising(less, h, cur, x)
    requires cur > 0 ==> !Less(less, h[(cur - 1) / 2], x)
    ensures HeapFrom(less, h[cur := x], 0)
  {
    hide StrictWeakOrder;
    var g := h[cur := x];
    forall k: nat | 0 < k < |g| ensures BelowParent(less, g, k) {
      if k != cur {
        if cur == |h| - 1 {
          assert BelowParent(less, h[..cur], k);
        } else {
          assert BelowParent(less, h, k);
          if (k - 1) / 2 == cur {
            NotLessLess(less, h[k], h[cur], x);
            StrictWeakOrderAsymmetric(less, h[k], x);
          }
        }
      }
    }
  }

  /** The vector state during a push: slots [0, n] rise, slots after them are untouched. */
  ghost predicate Pushing<T>(less: (T, T) -> bool, was: seq<T>, w: seq<T>, n: nat, cur: nat, x: T) {
    && |w| == |was| && cur <= n < |w|
    && Rising(less, w[..n + 1], cur, x)
    && multiset(w[..n + 1][cur := x]) == multiset(was[..n]) + multiset{x}
  }

  lemma PushStart<T>(less: (T, T) -> bool, w: seq<T>, n: nat, x: T)
    requires n < |w| && HeapRange(less, w, 0, n, 0)
    ensures Pushing(less, w, w, n, n, x)
  {
    assert w[..n + 1][..n] == w[..n] == w[0..n];
    assert w[..n + 1][n := x] == w[..n] + [x];
  }

  lemma PushStep<T(!new)>(less: (T, T) -> bool, was: seq<T>, w: seq<T>, n: nat, cur: nat, parent: nat, x: T)
    requires StrictWeakOrder(less)
    requires Pushing(less, was, w, n, cur, x) && cur > 0 && parent == (cur - 1) / 2
    requires Less(less, w[parent], x)
    ensures Pushing(less, was, w[cur := w[parent]], n, parent, x)
  {
    hide StrictWeakOrder, Rising;
    var h := w[..n + 1];
    RiseStep(less, h, cur, parent, x);
    SiftPermutes(h, cur, parent, x);
    assert w[cur := w[parent]][..n + 1] == h[cur := h[parent]];
  }

  lemma PushStop<T(!new)>(less: (T, T) -> bool, was: seq<T>, w: seq<T>, n: nat, cur: nat, x: T)
    requires StrictWeakOrder(less)
    requires Pushing(less, was, w, n, cur, x)
    requires cur > 0 ==> !Less(less, w[(cur - 1) / 2], x)
    ensures HeapRange(less, w[cur := x], 0, n + 1, 0)
    ensures multiset(w[cur := x][..n + 1]) == multiset(was[..n]) + multiset{x}
  {
    hide StrictWeakOrder, Rising, HeapFrom;
    var h := w[..n + 1];
    RiseStop(less, h, cur, x);
    assert w[cur := x][..n + 1] == h[cur := x] == w[cur := x][0..n + 1];
  }

  /** Appends `x` and sifts it up to its place. */
  method PushHeap<T(!new)>(a: array<T>, n: nat, x: T, less: (T, T) -> bool)
    requires StrictWeakOrder(less)
    requires n < a.Length
    requires HeapRange(less, a[..], 0, n, 0)
    modifies a
    ensures HeapRange(less, a[..], 0, n + 1, 0)
    ensures multiset(a[..n + 1]) == multiset(old(a[..n])) + multiset{x}
  {
    hide Less, StrictWeakOrder, HeapRange, Pushing;
    ghost var was := a[..];
    assert was[..n] == a[..n];
    PushStart(less, was, n, x);
    var cur := n;
    while cur != 0
      invariant 0 <= cur <= n
      invariant Pushing(less, was, a[..], n, cur, x)
    {
      var parent := (cur - 1) / 2;
      if !Less(less, a[parent], x) {
        break;
      }
      PushStep(less, was, a[..], n, cur, parent, x);
      Move(a, cur, parent);
      cur := parent;
    }
    PushStop(less, was, a[..], n, cur, x);
    Put(a, cur, x);
    assert a[..n + 1] == a[..][..n + 1];
  }

  lemma PopPermutes<T>(was: seq<T>, w: seq<T>, last: nat)
    requires 0 < last < |was| && Refilled(was, w, 0, last, 0, was[last])
    ensures |w| == |was| && multiset(w[..last]) == multiset(was[..last + 1]) - multiset{was[0]}
  {
    var u := was[0 := was[last]];
    RangePermutes(w, u, 0, last);
    assert w[0..last] == w[..last] && u[0..last] == u[..last];
    LastToFront(was, last);
  }

  lemma LastToFront<T>(was: seq<T>, last: nat)
    requires 0 < last < |was|
    ensures multiset(was[0 := was[last]][..last]) == multiset(was[..last + 1]) - multiset{was[0]}
  {
    assert was[..last + 1] == was[..last] + [was[last]];
    assert was[0 := was[last]][..last] == was[..last][0 := was[last]];
  }

  /** Removes the root: the last element sifts down from its slot. */
  method PopHeap<T(!new)>(a: array<T>, n: nat, less: (T, T) -> bool)
    requires StrictWeakOrder(less)
    requires 0 < n <= a.Length
    requires HeapRange(less, a[..], 0, n, 0)
    modifies a
    ensures HeapRange(less, a[..], 0, n - 1, 0)
    ensures multiset(a[..n - 1]) == multiset(old(a[..n])) - multiset{old(a[0])}
  {
    hide Less, StrictWeakOrder, HeapFrom, Refilled, Levels;
    ghost var was := a[..];
    var last := n - 1;
    if last == 0 {
      assert a[..1] == [a[0]] && a[..0] == [];
      EmptyHeap(less, was);
      return;
    }
    ShrinkHeap(less, was, 0, last, n, was[last]);
    assert was[last := was[last]] == was;
    var value := a[last];
    ghost var c := SiftDown(a, 0, last, 0, value, less);
    PopPermutes(was, a[..], last);
    assert was[..n] == old(a[..n]) && a[..last] == a[..][..last];
  }

  lemma EmptyHeap<T>(less: (T, T) -> bool, w: seq<T>)
    ensures HeapRange(less, w, 0, 0, 0)
  {
  }

  /** The front of the vector is a maximum of what it holds. */
  lemma FrontIsMaximum<T(!new)>(less: (T, T) -> bool, w: seq<T>, n: nat)
    requires StrictWeakOrder(less)
    requires HeapRange(less, w, 0, n, 0) && 0 < n
    ensures w[0] in multiset(w[..n])
    ensures forall x :: x in multiset(w[..n]) ==> !Less(less, w[0], x)
  {
    hide StrictWeakOrder;
    assert w[..n][0] == w[0];
    HeapMaximum(less, w, 0, n);
  }
}

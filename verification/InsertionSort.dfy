/** Insertion sort over the range [lo, hi) of an array: `hxinsertion_sort`. */
module InsertionSorting {
  import opened Order

  /** `s` with a hole, holding `h`, opened before its element `k`. */
  ghost function Opened<T>(s: seq<T>, k: nat, h: T): seq<T>
    requires k <= |s|
  {
    s[..k] + [h] + s[k..]
  }

  /** What inserting `x` into `s` yields once the elements from `k` on are passed. */
  ghost function Inserted<T>(less: (T, T) -> bool, s: seq<T>, k: nat, x: T): seq<T>
    requires k <= |s|
  {
    Insert(less, s[..k], x) + s[k..]
  }

  ghost function Framed<T>(pre: seq<T>, s: seq<T>, post: seq<T>): seq<T> {
    pre + s + post
  }

  /** Moving element `k - 1` into the hole moves the hole down. */
  lemma MoveHole<T>(pre: seq<T>, s: seq<T>, k: nat, h: T, post: seq<T>)
    requires 0 < k <= |s|
    ensures Framed(pre, Opened(s, k, h), post)[|pre| + k := s[k - 1]] == Framed(pre, Opened(s, k - 1, s[k - 1]), post)
    ensures Framed(pre, Opened(s, k, h), post)[|pre| + k - 1] == s[k - 1]
  {
  }

  lemma FillHole<T>(pre: seq<T>, s: seq<T>, k: nat, h: T, post: seq<T>, x: T)
    requires k <= |s|
    ensures Framed(pre, Opened(s, k, h), post)[|pre| + k := x] == Framed(pre, Opened(s, k, x), post)
  {
  }

  lemma InsertAtEnd<T>(less: (T, T) -> bool, s: seq<T>, x: T)
    requires |s| == 0 || !Less(less, x, s[|s| - 1])
    ensures Insert(less, s, x) == s + [x]
  {
  }

  /** `x` has been taken past the elements of `s` from `k` on, and belongs before them. */
  ghost predicate Taken<T>(less: (T, T) -> bool, s: seq<T>, k: nat, x: T) {
    && k <= |s| && Inserted(less, s, k, x) == Insert(less, s, x)
    && forall m :: k <= m < |s| ==> Less(less, x, s[m])
  }

  lemma TakenNone<T>(less: (T, T) -> bool, s: seq<T>, x: T)
    ensures Taken(less, s, |s|, x)
  {
    hide Insert;
    assert s[..|s|] == s;
  }

  /** Taking element `k - 1` past `x` leaves the insertion to the elements before it. */
  lemma TakenStep<T>(less: (T, T) -> bool, s: seq<T>, k: nat, x: T)
    requires Taken(less, s, k, x) && k > 0 && Less(less, x, s[k - 1])
    ensures Taken(less, s, k - 1, x)
  {
    hide Insert, Less;
    InsertedStep(less, s, k, x);
  }

  lemma InsertedStep<T>(less: (T, T) -> bool, s: seq<T>, k: nat, x: T)
    requires 0 < k <= |s| && Less(less, x, s[k - 1])
    ensures Inserted(less, s, k, x) == Inserted(less, s, k - 1, x)
  {
    assert s[..k][..k - 1] == s[..k - 1];
    assert s[k - 1..] == [s[k - 1]] + s[k..];
  }

  lemma TakenAll<T>(less: (T, T) -> bool, s: seq<T>, k: nat, x: T)
    requires Taken(less, s, k, x) && (k == 0 || !Less(less, x, s[k - 1]))
    ensures Opened(s, k, x) == Insert(less, s, x) && |s| - k <= Passed(less, s, x)
  {
    hide Inserted, Opened, Passed, Insert, Less;
    InsertedStop(less, s, k, x);
    PassedSuffix(less, s, k, x);
  }

  lemma InsertedStop<T>(less: (T, T) -> bool, s: seq<T>, k: nat, x: T)
    requires k <= |s| && (k == 0 || !Less(less, x, s[k - 1]))
    ensures Inserted(less, s, k, x) == Opened(s, k, x)
  {
    hide Insert, Less;
    var p := s[..k];
    assert k > 0 ==> p[k - 1] == s[k - 1];
    InsertAtEnd(less, p, x);
  }

  /** The hole starts at, and the element returns to, the slot after `s`. */
  lemma OpenLast<T>(w: seq<T>, lo: nat, j: nat)
    requires lo <= j < |w|
    ensures w == Framed(w[..lo], Opened(w[lo..j], j - lo, w[j]), w[j + 1..])
  {
  }

  /** `v` with v[j] inserted into its range [lo, j). */
  ghost function InsertedAt<T>(less: (T, T) -> bool, v: seq<T>, lo: nat, j: nat): seq<T>
    requires lo <= j < |v|
  {
    Framed(v[..lo], Insert(less, v[lo..j], v[j]), v[j + 1..])
  }

  /** How many elements of `s` insertion takes past `x`. */
  ghost function Passed<T>(less: (T, T) -> bool, s: seq<T>, x: T): nat { |Filter(Above(less, x), s)| }

  function Above<T>(less: (T, T) -> bool, x: T): T -> bool { y => Less(less, x, y) }

  lemma PassedSuffix<T>(less: (T, T) -> bool, s: seq<T>, k: nat, x: T)
    requires k <= |s| && forall m :: k <= m < |s| ==> Less(less, x, s[m])
    ensures |s| - k <= Passed(less, s, x)
  {
    hide Filter, Less;
    var p := Above(less, x);
    assert s == s[..k] + s[k..];
    FilterConcat(p, s[..k], s[k..]);
    FilterAll(p, s[k..]);
  }

  /** The body of the outer loop: inserts a[j] into the sorted range a[lo..j]. */
  method InsertLast<T>(a: array<T>, lo: nat, j: nat, less: (T, T) -> bool) returns (ghost comparisons: nat)
    requires lo < j < a.Length
    modifies a
    ensures a[..] == InsertedAt(less, old(a[..]), lo, j)
    ensures comparisons <= j - lo
    ensures comparisons <= 1 + Passed(less, old(a[lo..j]), old(a[j]))
  {
    hide Less, Framed, Opened, Insert, Passed, Taken;
    ghost var pre, s, post := a[..][..lo], a[..][lo..j], a[..][j + 1..];
    comparisons := 1;
    OpenLast(a[..], lo, j);
    var i := j - 1;
    var t := a[j];
    TakenNone(less, s, t);
    assert a[i] == s[i - lo];
    if Less(less, t, a[i]) {
      TakenStep(less, s, j - lo, t);
      MoveHole(pre, s, j - lo, t, post);
      a[j] := a[i];
      while lo < i && Less(less, t, a[i - 1])
        invariant lo <= i < j && comparisons == j - i
        invariant a[..] == Framed(pre, Opened(s, i - lo, s[i - lo]), post)
        invariant Taken(less, s, i - lo, t)
      {
        MoveHole(pre, s, i - lo, s[i - lo], post);
        assert a[i - 1] == a[..][i - 1] == s[i - lo - 1];
        TakenStep(less, s, i - lo, t);
        a[i] := a[i - 1];
        i := i - 1;
        comparisons := comparisons + 1;
      }
      if lo < i {
        comparisons := comparisons + 1;
        MoveHole(pre, s, i - lo, s[i - lo], post);
        assert a[i - 1] == a[..][i - 1] == s[i - lo - 1];
      }
      FillHole(pre, s, i - lo, s[i - lo], post, t);
      a[i] := t;
      TakenAll(less, s, i - lo, t);
    } else {
      TakenAll(less, s, j - lo, t);
    }
  }

  lemma SplitFrame<T>(w: seq<T>, lo: nat, j: nat, s: seq<T>)
    requires lo < j < |w| && |s| == j - lo
    ensures var v := Framed(w[..lo], s, w[j..]);
      |v| == |w| && v[..lo] == w[..lo] && v[lo..j] == s && v[j] == w[j] && v[j + 1..] == w[j + 1..]
  {
  }

  /** `was` with its range [lo, j) sorted. */
  ghost function SortedTo<T>(less: (T, T) -> bool, was: seq<T>, lo: nat, j: nat): seq<T>
    requires lo <= j <= |was|
  {
    Framed(was[..lo], StableSort(less, was[lo..j]), was[j..])
  }

  lemma StableSortLength<T>(less: (T, T) -> bool, s: seq<T>)
    ensures |StableSort(less, s)| == |s|
  {
    StableSortPermutes(less, s);
    assert |multiset(StableSort(less, s))| == |multiset(s)|;
  }

  lemma {:induction false} StableSortPermutes<T>(less: (T, T) -> bool, s: seq<T>)
    ensures multiset(StableSort(less, s)) == multiset(s)
  {
    hide Insert;
    if s != [] {
      var n := |s| - 1;
      assert s == s[..n] + [s[n]];
      StableSortPermutes(less, s[..n]);
      InsertPermutes(less, StableSort(less, s[..n]), s[n]);
    }
  }

  lemma SortedToStep<T>(less: (T, T) -> bool, w: seq<T>, lo: nat, j: nat, v: seq<T>)
    requires lo < j < |w| && v == SortedTo(less, w, lo, j)
    ensures |v| == |w|
    ensures InsertedAt(less, v, lo, j) == SortedTo(less, w, lo, j + 1)
  {
    hide StableSort, Insert;
    StableSortLength(less, w[lo..j]);
    StableSortNext(less, w, lo, j);
    SplitFrame(w, lo, j, StableSort(less, w[lo..j]));
  }

  lemma RangeNext<T>(w: seq<T>, lo: nat, j: nat)
    requires lo <= j < |w|
    ensures var s := w[lo..j + 1]; |s| == j + 1 - lo && s[..|s| - 1] == w[lo..j] && s[|s| - 1] == w[j]
  {
  }

  lemma StableSortNext<T>(less: (T, T) -> bool, w: seq<T>, lo: nat, j: nat)
    requires lo <= j < |w|
    ensures StableSort(less, w[lo..j + 1]) == Insert(less, StableSort(less, w[lo..j]), w[j])
  {
    hide Insert;
    RangeNext(w, lo, j);
  }

  /** Ranges of at most one element are sorted. */
  lemma StableSortStart<T>(less: (T, T) -> bool, w: seq<T>, lo: nat)
    requires lo <= |w|
    ensures w == SortedTo(less, w, lo, lo)
    ensures lo < |w| ==> w == SortedTo(less, w, lo, lo + 1)
  {
    assert w[lo..lo] == [] && StableSort<T>(less, []) == [];
    if lo < |w| {
      assert w[lo..lo + 1] == [w[lo]] && w[lo..lo + 1][..0] == [];
      assert Insert(less, [], w[lo]) == [w[lo]];
      assert StableSort(less, w[lo..lo + 1]) == [w[lo]];
    }
  }

  /** Putting a sorted rearrangement of a range in its place. */
  lemma FramedRange<T(!new)>(less: (T, T) -> bool, w: seq<T>, lo: nat, hi: nat, s: seq<T>)
    requires lo <= hi <= |w| && |s| == hi - lo && multiset(s) == multiset(w[lo..hi]) && Sorted(less, s)
    ensures var v := Framed(w[..lo], s, w[hi..]);
      && |v| == |w| && v[lo..hi] == s && SameOutside(w, v, lo, hi) && multiset(v) == multiset(w) && SortedRange(less, v, lo, hi)
  {
    hide Less;
    var v := Framed(w[..lo], s, w[hi..]);
    assert w == w[..lo] + w[lo..hi] + w[hi..];
    assert v[lo..hi] == s;
    forall i, j | lo <= i < j < hi ensures !Less(less, v[j], v[i]) {
      assert !Less(less, s[j - lo], s[i - lo]);
    }
  }

  /** What sorting a range means for the whole array. */
  lemma SortedToCorrect<T(!new)>(less: (T, T) -> bool, w: seq<T>, lo: nat, hi: nat)
    requires StrictWeakOrder(less) && lo <= hi <= |w|
    ensures var v := SortedTo(less, w, lo, hi);
      && |v| == |w| && SameOutside(w, v, lo, hi) && multiset(v) == multiset(w)
      && SortedRange(less, v, lo, hi) && SameClasses(less, w[lo..hi], v[lo..hi])
  {
    hide StableSort, StrictWeakOrder, Less;
    StableSortCorrect(less, w[lo..hi]);
    FramedRange(less, w, lo, hi, StableSort(less, w[lo..hi]));
  }

  /** 0 + 1 + ... + (n - 1). */
  ghost function Triangle(n: nat): (r: nat) {
    if n == 0 then 0 else Triangle(n - 1) + (n - 1)
  }

  lemma {:induction false} TriangleClosed(n: nat)
    ensures 2 * Triangle(n) == n * (n - 1)
  {
    if n > 0 {
      TriangleClosed(n - 1);
    }
  }

  /** The pairs of `s` that are out of order. */
  ghost function Inversions<T>(less: (T, T) -> bool, s: seq<T>): nat {
    if s == [] then 0 else Inversions(less, s[..|s| - 1]) + Passed(less, s[..|s| - 1], s[|s| - 1])
  }

  lemma PassedNone<T>(less: (T, T) -> bool, s: seq<T>, x: T)
    ensures Passed(less, s, x) == 0 <==> forall i :: 0 <= i < |s| ==> !Less(less, x, s[i])
  {
    hide Filter, Less;
    var p := Above(less, x);
    if i :| 0 <= i < |s| && Less(less, x, s[i]) {
      FilterMember(p, s, s[i]);
    } else {
      FilterNone(p, s);
    }
  }

  /** A sequence has none if and only if it is sorted. */
  lemma {:induction false} InversionsNone<T>(less: (T, T) -> bool, s: seq<T>)
    ensures Inversions(less, s) == 0 <==> Sorted(less, s)
  {
    hide Passed, Less;
    if s != [] {
      var n := |s| - 1;
      InversionsNone(less, s[..n]);
      PassedNone(less, s[..n], s[n]);
      assert s == s[..n] + [s[n]];
    }
  }

  lemma InversionsStep<T>(less: (T, T) -> bool, w: seq<T>, lo: nat, j: nat, v: seq<T>)
    requires lo < j < |w| && v == SortedTo(less, w, lo, j)
    ensures |v| == |w|
    ensures Inversions(less, w[lo..j + 1]) == Inversions(less, w[lo..j]) + Passed(less, v[lo..j], v[j])
  {
    hide Inversions, StableSort, Less, Passed;
    StableSortLength(less, w[lo..j]);
    SplitFrame(w, lo, j, StableSort(less, w[lo..j]));
    InversionsNext(less, w, lo, j);
    PassedPermutes(less, w[lo..j], w[j]);
  }

  lemma InversionsNext<T>(less: (T, T) -> bool, w: seq<T>, lo: nat, j: nat)
    requires lo <= j < |w|
    ensures Inversions(less, w[lo..j + 1]) == Inversions(less, w[lo..j]) + Passed(less, w[lo..j], w[j])
  {
    hide Passed;
    RangeNext(w, lo, j);
  }

  lemma PassedPermutes<T>(less: (T, T) -> bool, s: seq<T>, x: T)
    ensures Passed(less, StableSort(less, s), x) == Passed(less, s, x)
  {
    hide StableSort, Less, Filter;
    StableSortPermutes(less, s);
    FilterPermutes(Above(less, x), StableSort(less, s), s);
  }

  /**
   Sorts a[lo..hi) in place by shifting, with at most n(n-1)/2 comparisons, and
   no more than one for every element and one for every inversion. The result is
   the reference stable sort for every `less`, ordered or not.
   */
  method InsertionSort<T>(a: array<T>, lo: nat, hi: nat, less: (T, T) -> bool) returns (ghost comparisons: nat)
    requires lo <= hi <= a.Length
    modifies a
    ensures a[..] == SortedTo(less, old(a[..]), lo, hi)
    ensures comparisons <= Triangle(hi - lo)
    ensures comparisons <= (hi - lo) + Inversions(less, old(a[lo..hi]))
  {
    hide Less, Framed, StableSort, Insert, SortedTo, InsertedAt, Inversions, Passed;
    comparisons := 0;
    ghost var was := a[..];
    StableSortStart(less, was, lo);
    if lo == hi {
      return;
    }
    var j := lo + 1;
    while j < hi
      invariant lo < j <= hi
      invariant a[..] == SortedTo(less, was, lo, j)
      invariant comparisons <= Triangle(j - lo)
      invariant comparisons <= (j - lo) + Inversions(less, was[lo..j])
    {
      SortedToStep(less, was, lo, j, a[..]);
      InversionsStep(less, was, lo, j, a[..]);
      assert a[lo..j] == a[..][lo..j];
      ghost var c := InsertLast(a, lo, j, less);
      comparisons := comparisons + c;
      j := j + 1;
    }
  }
}

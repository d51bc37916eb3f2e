/**
 Binary searches of a sorted range, by a less callable or by a three-way one
 that also says when two elements compare equal.
 */
module BoundSearch {
  import opened Order
  import opened HeapLevels

  /**
   A callable that compares elements with values, in both orders. The two types
   may differ, as in a lookup by key.
   */
  datatype Compare<!T, !V> =
    | LessCall(lessThan: (T, V) -> bool, lessFor: (V, T) -> bool)
    | ThreeWay(compare: (T, V) -> int, compareFor: (V, T) -> int)

  // ---- The call wrappers ----

  /** The element is before the value. */
  predicate Before<T, V>(compare: Compare<T, V>, x: T, v: V) {
    match compare
    case LessCall(lessThan, _) => lessThan(x, v)
    case ThreeWay(cmp, _) => cmp(x, v) < 0
  }

  /** The value is before the element. */
  predicate Beyond<T, V>(compare: Compare<T, V>, v: V, x: T) {
    match compare
    case LessCall(_, lessFor) => lessFor(v, x)
    case ThreeWay(_, cmp) => cmp(v, x) < 0
  }

  /** `after` of the wrapper, called on the value. */
  predicate After<T, V>(compare: Compare<T, V>, v: V, x: T)
    ensures After(compare, v, x) == !Beyond(compare, v, x)
  {
    match compare
    case LessCall(_, lessFor) => !lessFor(v, x)
    case ThreeWay(_, cmp) => cmp(v, x) >= 0
  }

  /** Before, and equal as far as one call tells. */
  function Step<T, V>(compare: Compare<T, V>, x: T, v: V): (r: (bool, bool))
    ensures r.0 == Before(compare, x, v)
    ensures compare.LessCall? ==> !r.1
    ensures compare.ThreeWay? && Exact(compare, x, v) ==> r.1 == Matches(compare, x, v)
  {
    match compare
    case LessCall(lessThan, _) => (lessThan(x, v), false)
    case ThreeWay(cmp, _) =>
      var c := cmp(x, v);
      (c < 0, c == 0)
  }

  predicate Matches<T, V>(compare: Compare<T, V>, x: T, v: V) { !Before(compare, x, v) && !Beyond(compare, v, x) }

  /** Neither is before the other exactly when a three-way call says 0, and never is each before the other. */
  ghost predicate Exact<T, V>(compare: Compare<T, V>, x: T, v: V) {
    && !(Before(compare, x, v) && Beyond(compare, v, x))
    && (compare.ThreeWay? ==> (compare.compare(x, v) == 0 <==> Matches(compare, x, v)))
  }

  /** What a search needs of the range: the elements before the value come first, those beyond it last. */
  ghost predicate Searchable<T, V>(compare: Compare<T, V>, s: seq<T>, v: V) {
    && (forall i :: 0 <= i < |s| ==> Exact(compare, s[i], v))
    && (forall i, j :: 0 <= i < j < |s| && Before(compare, s[j], v) ==> Before(compare, s[i], v))
    && (forall i, j :: 0 <= i < j < |s| && Beyond(compare, v, s[i]) ==> Beyond(compare, v, s[j]))
  }

  /** The callable compares keys by a strict weak order; three-way, zero is equivalence. */
  ghost predicate ComparesKeys<T(!new), V(!new), K>(compare: Compare<T, V>, less: (K, K) -> bool, keyOf: T -> K, keyFor: V -> K) {
    match compare
    case LessCall(lessThan, lessFor) =>
      forall x, v :: lessThan(x, v) == Less(less, keyOf(x), keyFor(v)) && lessFor(v, x) == Less(less, keyFor(v), keyOf(x))
    case ThreeWay(cmp, cmpFor) =>
      forall x, v ::
        && (cmp(x, v) < 0 <==> Less(less, keyOf(x), keyFor(v))) && (cmp(x, v) == 0 <==> Equivalent(less, keyOf(x), keyFor(v)))
        && (cmpFor(v, x) < 0 <==> Less(less, keyFor(v), keyOf(x)))
  }

  ghost predicate SortedByKey<T, K>(less: (K, K) -> bool, keyOf: T -> K, s: seq<T>) {
    forall i, j :: 0 <= i < j < |s| ==> !Less(less, keyOf(s[j]), keyOf(s[i]))
  }

  /** A range sorted by key can be searched for every value that has one. */
  lemma SortedIsSearchable<T(!new), V(!new), K(!new)>(compare: Compare<T, V>, less: (K, K) -> bool, keyOf: T -> K, keyFor: V -> K, s: seq<T>, v: V)
    requires StrictWeakOrder(less) && ComparesKeys(compare, less, keyOf, keyFor) && SortedByKey(less, keyOf, s)
    ensures Searchable(compare, s, v)
  {
    var k := keyFor(v);
    forall x: T ensures Before(compare, x, v) == Less(less, keyOf(x), k) && Beyond(compare, v, x) == Less(less, k, keyOf(x)) {
    }
    forall i | 0 <= i < |s| ensures Exact(compare, s[i], v) {
      if Before(compare, s[i], v) {
        StrictWeakOrderAsymmetric(less, keyOf(s[i]), k);
      }
    }
    forall i, j | 0 <= i < j < |s| && Before(compare, s[j], v) ensures Before(compare, s[i], v) {
      NotLessLess(less, keyOf(s[i]), keyOf(s[j]), k);
    }
    forall i, j | 0 <= i < j < |s| && Beyond(compare, v, s[i]) ensures Beyond(compare, v, s[j]) {
      LessNotLess(less, k, keyOf(s[i]), keyOf(s[j]));
    }
  }

  // ---- What is searched for ----

  ghost predicate IsLowerBound<T, V>(compare: Compare<T, V>, s: seq<T>, v: V, k: nat) {
    && k <= |s|
    && (forall i :: 0 <= i < k ==> Before(compare, s[i], v))
    && (forall i :: k <= i < |s| ==> !Before(compare, s[i], v))
  }

  ghost predicate IsUpperBound<T, V>(compare: Compare<T, V>, s: seq<T>, v: V, k: nat) {
    && k <= |s|
    && (forall i :: 0 <= i < k ==> !Beyond(compare, v, s[i]))
    && (forall i :: k <= i < |s| ==> Beyond(compare, v, s[i]))
  }

  ghost predicate Present<T, V>(compare: Compare<T, V>, s: seq<T>, v: V) {
    exists i :: 0 <= i < |s| && Matches(compare, s[i], v)
  }

  /** What the searches find, told by the callables alone. */
  lemma BoundsPlain<T, V>(compare: Compare<T, V>, s: seq<T>, v: V, k: nat)
    ensures IsLowerBound(compare, s, v, k) <==> k <= |s| && match compare
      case LessCall(lessThan, _) =>
        (forall i :: 0 <= i < k ==> lessThan(s[i], v)) && (forall i :: k <= i < |s| ==> !lessThan(s[i], v))
      case ThreeWay(cmp, _) =>
        (forall i :: 0 <= i < k ==> cmp(s[i], v) < 0) && (forall i :: k <= i < |s| ==> cmp(s[i], v) >= 0)
    ensures IsUpperBound(compare, s, v, k) <==> k <= |s| && match compare
      case LessCall(_, lessFor) =>
        (forall i :: 0 <= i < k ==> !lessFor(v, s[i])) && (forall i :: k <= i < |s| ==> lessFor(v, s[i]))
      case ThreeWay(_, cmpFor) =>
        (forall i :: 0 <= i < k ==> cmpFor(v, s[i]) >= 0) && (forall i :: k <= i < |s| ==> cmpFor(v, s[i]) < 0)
  {
  }

  lemma PresentPlain<T, V>(compare: Compare<T, V>, s: seq<T>, v: V)
    requires Searchable(compare, s, v)
    ensures Present(compare, s, v) <==> match compare
      case LessCall(lessThan, lessFor) => exists i :: 0 <= i < |s| && !lessThan(s[i], v) && !lessFor(v, s[i])
      case ThreeWay(cmp, _) => exists i :: 0 <= i < |s| && cmp(s[i], v) == 0
  {
    hide Before, Beyond;
    if i :| 0 <= i < |s| && Matches(compare, s[i], v) {
      MatchesPlain(compare, s[i], v);
    }
    forall i | 0 <= i < |s|
      ensures compare.LessCall? && !compare.lessThan(s[i], v) && !compare.lessFor(v, s[i]) ==> Matches(compare, s[i], v)
      ensures compare.ThreeWay? && compare.compare(s[i], v) == 0 ==> Matches(compare, s[i], v)
    {
      MatchesPlain(compare, s[i], v);
    }
  }

  lemma MatchesPlain<T, V>(compare: Compare<T, V>, x: T, v: V)
    requires Exact(compare, x, v)
    ensures Matches(compare, x, v) <==> match compare
      case LessCall(lessThan, lessFor) => !lessThan(x, v) && !lessFor(v, x)
      case ThreeWay(cmp, _) => cmp(x, v) == 0
  {
  }

  /** The lower bound is the number of elements before the value. */
  lemma LowerBoundCounts<T(!new), V>(compare: Compare<T, V>, s: seq<T>, v: V, k: nat)
    requires IsLowerBound(compare, s, v, k)
    ensures k == |Filter(x => Before(compare, x, v), s)|
  {
    hide Before, Filter;
    var p := x => Before(compare, x, v);
    FilterAll(p, s[..k]);
    FilterNone(p, s[k..]);
    FilterConcat(p, s[..k], s[k..]);
    assert s == s[..k] + s[k..];
    assert Filter(p, s) == s[..k];
  }

  /** Whatever the mode of the callable, one position and one flag are right. */
  lemma ModesAgree<T(!new), V(!new)>(a: Compare<T, V>, b: Compare<T, V>, s: seq<T>, v: V, k: nat, found: bool, k': nat, found': bool)
    requires forall x :: Before(a, x, v) == Before(b, x, v) && Beyond(a, v, x) == Beyond(b, v, x)
    requires IsLowerBound(a, s, v, k) && found == Present(a, s, v)
    requires IsLowerBound(b, s, v, k') && found' == Present(b, s, v)
    ensures k == k' && found == found'
  {
    hide Before, Beyond, Filter;
    LowerBoundCounts(a, s, v, k);
    LowerBoundCounts(a, s, v, k');
    if found {
      var i :| 0 <= i < |s| && Matches(a, s[i], v);
      assert Matches(b, s[i], v);
    }
    if found' {
      var i :| 0 <= i < |s| && Matches(b, s[i], v);
      assert Matches(a, s[i], v);
    }
  }

  /** Between the two bounds lies exactly what matches the value, in order. */
  lemma EqualRange<T(!new), V(!new)>(compare: Compare<T, V>, s: seq<T>, v: V, lower: nat, upper: nat)
    requires Searchable(compare, s, v) && IsLowerBound(compare, s, v, lower) && IsUpperBound(compare, s, v, upper)
    ensures lower <= upper && s[lower..upper] == Filter(x => Matches(compare, x, v), s)
  {
    hide Filter, Before, Beyond;
    BoundsInOrder(compare, s, v, lower, upper);
    var p := x => Matches(compare, x, v);
    forall i | 0 <= i < |s| ensures p(s[i]) == (lower <= i < upper) {
    }
    FilterNone(p, s[..lower]);
    FilterAll(p, s[lower..upper]);
    FilterNone(p, s[upper..]);
    FilterConcat(p, s[..lower], s[lower..upper]);
    FilterConcat(p, s[..upper], s[upper..]);
    assert s[..upper] == s[..lower] + s[lower..upper] && s == s[..upper] + s[upper..];
    assert Filter(p, s) == s[lower..upper];
  }

  lemma BoundsInOrder<T, V>(compare: Compare<T, V>, s: seq<T>, v: V, lower: nat, upper: nat)
    requires Searchable(compare, s, v) && IsLowerBound(compare, s, v, lower) && IsUpperBound(compare, s, v, upper)
    ensures lower <= upper
  {
    hide Before, Beyond, Exact;
    if upper < lower {
      NotBoth(compare, s[upper], v);
    }
  }

  lemma NotBoth<T, V>(compare: Compare<T, V>, x: T, v: V)
    requires Exact(compare, x, v)
    ensures !(Before(compare, x, v) && Beyond(compare, v, x))
  {
  }

  // ---- The number of calls ----

  /** floor(log2 n) + 1, and none for an empty range. */
  ghost function Bits(n: nat): nat { if n == 0 then 0 else Log2(n) + 1 }

  lemma BitsOf<T>(s: seq<T>)
    ensures Bits(|s|) == if s == [] then 0 else Log2(|s|) + 1
  {
  }

  /** Either half of what is left after a call has one bit less. */
  lemma HalvingStep(count: nat, rest: nat)
    requires count > 0 && rest <= count / 2
    ensures Bits(rest) + 1 <= Bits(count)
  {
    BitsMonotone(rest, count / 2);
  }

  lemma {:induction false} BitsMonotone(m: nat, n: nat)
    requires m <= n
    ensures Bits(m) <= Bits(n)
  {
    if m > 1 {
      BitsMonotone(m / 2, n / 2);
    }
  }

  // ---- The searches ----

  /** Left of `begin` everything is before the value, from `end` on nothing is. */
  ghost predicate Narrowed<T, V>(compare: Compare<T, V>, s: seq<T>, v: V, begin: nat, end: nat) {
    && begin <= end <= |s|
    && (forall i :: 0 <= i < begin ==> Before(compare, s[i], v))
    && (forall i :: end <= i < |s| ==> !Before(compare, s[i], v))
  }

  lemma NarrowStart<T, V>(compare: Compare<T, V>, s: seq<T>, v: V)
    ensures Narrowed(compare, s, v, 0, |s|) && NarrowedAbove(compare, s, v, 0, |s|)
  {
  }

  lemma NarrowStep<T, V>(compare: Compare<T, V>, s: seq<T>, v: V, begin: nat, end: nat, mid: nat)
    requires Searchable(compare, s, v) && Narrowed(compare, s, v, begin, end) && begin <= mid < end
    ensures if Before(compare, s[mid], v) then Narrowed(compare, s, v, mid + 1, end) else Narrowed(compare, s, v, begin, mid)
  {
    hide Before, Beyond, Exact;
  }

  lemma NarrowEnd<T, V>(compare: Compare<T, V>, s: seq<T>, v: V, k: nat)
    ensures Narrowed(compare, s, v, k, k) ==> IsLowerBound(compare, s, v, k)
    ensures NarrowedAbove(compare, s, v, k, k) ==> IsUpperBound(compare, s, v, k)
  {
  }

  /** The value is present exactly when the element at its lower bound matches it. */
  lemma PresentAtBound<T, V>(compare: Compare<T, V>, s: seq<T>, v: V, k: nat)
    requires Searchable(compare, s, v) && IsLowerBound(compare, s, v, k)
    ensures Present(compare, s, v) <==> k < |s| && Matches(compare, s[k], v)
    ensures Present(compare, s, v) <==> k < |s| && !Beyond(compare, v, s[k])
  {
    hide Before, Beyond, Exact;
    if Present(compare, s, v) {
      var i :| 0 <= i < |s| && Matches(compare, s[i], v);
      assert k <= i;
    }
  }

  /** `hxlower_bound_iterator_`. */
  method LowerBound<T, V>(s: seq<T>, value: V, compare: Compare<T, V>) returns (begin: nat, ghost calls: nat)
    requires Searchable(compare, s, value)
    ensures IsLowerBound(compare, s, value, begin)
    ensures calls <= if s == [] then 0 else Log2(|s|) + 1
  {
    hide Narrowed, NarrowedAbove, Bits, Searchable, Before, Beyond;
    begin, calls := 0, 0;
    var count: nat := |s|;
    NarrowStart(compare, s, value);
    BitsOf(s);
    while count > 0
      invariant begin + count <= |s|
      invariant Narrowed(compare, s, value, begin, begin + count)
      invariant calls + Bits(count) <= Bits(|s|)
      decreases count
    {
      var step := count / 2;
      var mid := begin + step;
      NarrowStep(compare, s, value, begin, begin + count, mid);
      HalvingStep(count, step);
      HalvingStep(count, count - step - 1);
      calls := calls + 1;
      if Before(compare, s[mid], value) {
        begin := mid + 1;
        count := count - (step + 1);
      } else {
        count := step;
      }
    }
    NarrowEnd(compare, s, value, begin);
  }

  /** `hxlower_bound_pair_`: three-way, the flag is carried from the last probe that was not before. */
  method LowerBoundPair<T, V>(s: seq<T>, value: V, compare: Compare<T, V>) returns (begin: nat, found: bool, ghost calls: nat)
    requires Searchable(compare, s, value)
    ensures IsLowerBound(compare, s, value, begin)
    ensures found <==> Present(compare, s, value)
    ensures calls <= (if s == [] then 0 else Log2(|s|) + 1) + if compare.ThreeWay? || begin == |s| then 0 else 1
  {
    hide Narrowed, NarrowedAbove, Bits, Searchable, Before, Beyond, IsLowerBound, Present, Matches, Exact;
    begin, found, calls := 0, false, 0;
    var count: nat := |s|;
    NarrowStart(compare, s, value);
    BitsOf(s);
    while count > 0
      invariant begin + count <= |s|
      invariant Narrowed(compare, s, value, begin, begin + count)
      invariant compare.ThreeWay? ==> (found <==> begin + count < |s| && Matches(compare, s[begin + count], value))
      invariant calls + Bits(count) <= Bits(|s|)
      decreases count
    {
      var step := count / 2;
      var mid := begin + step;
      NarrowStep(compare, s, value, begin, begin + count, mid);
      HalvingStep(count, step);
      HalvingStep(count, count - step - 1);
      ExactAt(compare, s, value, mid);
      var cmp := Step(compare, s[mid], value);
      calls := calls + 1;
      if cmp.0 {
        begin := mid + 1;
        count := count - (step + 1);
      } else {
        found := cmp.1;
        count := step;
      }
    }
    NarrowEnd(compare, s, value, begin);
    PresentAtBound(compare, s, value, begin);
    if compare.LessCall? {
      found := false;
      if begin != |s| {
        found := After(compare, value, s[begin]);
        calls := calls + 1;
      }
    }
  }

  lemma ExactAt<T, V>(compare: Compare<T, V>, s: seq<T>, v: V, i: nat)
    requires Searchable(compare, s, v) && i < |s|
    ensures Exact(compare, s[i], v)
  {
  }

  /** `hxbinary_search_`. */
  method BinarySearch<T, V>(s: seq<T>, value: V, compare: Compare<T, V>) returns (found: bool)
    requires Searchable(compare, s, value)
    ensures found <==> Present(compare, s, value)
  {
    var begin;
    ghost var calls;
    begin, found, calls := LowerBoundPair(s, value, compare);
  }

  /** Left of `begin` nothing is beyond the value, from `end` on everything is. */
  ghost predicate NarrowedAbove<T, V>(compare: Compare<T, V>, s: seq<T>, v: V, begin: nat, end: nat) {
    && begin <= end <= |s|
    && (forall i :: 0 <= i < begin ==> !Beyond(compare, v, s[i]))
    && (forall i :: end <= i < |s| ==> Beyond(compare, v, s[i]))
  }

  lemma NarrowAboveStep<T, V>(compare: Compare<T, V>, s: seq<T>, v: V, begin: nat, end: nat, mid: nat)
    requires Searchable(compare, s, v) && NarrowedAbove(compare, s, v, begin, end) && begin <= mid < end
    ensures if Beyond(compare, v, s[mid]) then NarrowedAbove(compare, s, v, begin, mid) else NarrowedAbove(compare, s, v, mid + 1, end)
  {
    hide Before, Beyond, Exact;
  }

  /** `hxupper_bound_`. */
  method UpperBound<T, V>(s: seq<T>, value: V, compare: Compare<T, V>) returns (begin: nat, ghost calls: nat)
    requires Searchable(compare, s, value)
    ensures IsUpperBound(compare, s, value, begin)
    ensures calls <= if s == [] then 0 else Log2(|s|) + 1
  {
    hide Narrowed, NarrowedAbove, Bits, Searchable, Before, Beyond;
    begin, calls := 0, 0;
    var count: nat := |s|;
    NarrowStart(compare, s, value);
    BitsOf(s);
    while count > 0
      invariant begin + count <= |s|
      invariant NarrowedAbove(compare, s, value, begin, begin + count)
      invariant calls + Bits(count) <= Bits(|s|)
      decreases count
    {
      var step := count / 2;
      var mid := begin + step;
      NarrowAboveStep(compare, s, value, begin, begin + count, mid);
      HalvingStep(count, step);
      HalvingStep(count, count - step - 1);
      calls := calls + 1;
      if After(compare, value, s[mid]) {
        begin := mid + 1;
        count := count - (step + 1);
      } else {
        count := step;
      }
    }
    NarrowEnd(compare, s, value, begin);
  }
}

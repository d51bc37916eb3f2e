/**
 Strict weak orders, sortedness, filtering and permutations: the vocabulary
 shared by every sorting and searching module.

 `StableSort` is the reference against which the in-place sorts are proved. It
 is characterised, independently of how it is computed, by `StableSortUnique`:
 it is the only sorted sequence that keeps every equivalence class in order.
 */
module Order {

  /** The comparison call `less(x, y)`. */
  predicate Less<T>(less: (T, T) -> bool, x: T, y: T) {
    less(x, y)
  }

  /** `less` is irreflexive, asymmetric and its negation is transitive. */
  ghost predicate StrictWeakOrder<T(!new)>(less: (T, T) -> bool) {
    && (forall x :: !Less(less, x, x))
    && (forall x, y :: Less(less, x, y) ==> !Less(less, y, x))
    && (forall x, y, z {:trigger Chain(less, x, y, z)} :: Chain(less, x, y, z) && Less(less, x, z) ==> Less(less, x, y) || Less(less, y, z))
  }

  /** Always true; naming three elements makes transitivity available for them. */
  ghost predicate Chain<T>(less: (T, T) -> bool, x: T, y: T, z: T) { true }

  predicate Equivalent<T>(less: (T, T) -> bool, x: T, y: T) {
    !Less(less, x, y) && !Less(less, y, x)
  }

  ghost predicate Sorted<T>(less: (T, T) -> bool, s: seq<T>) {
    forall i, j :: 0 <= i < j < |s| ==> !Less(less, s[j], s[i])
  }

  ghost predicate SortedRange<T>(less: (T, T) -> bool, s: seq<T>, lo: int, hi: int)
    requires 0 <= lo <= hi <= |s|
  {
    forall i, j :: lo <= i < j < hi ==> !Less(less, s[j], s[i])
  }

  /** Both, told by the calls alone. */
  lemma SortedPlain<T>(less: (T, T) -> bool, s: seq<T>)
    ensures Sorted(less, s) <==> forall i, j :: 0 <= i < j < |s| ==> !less(s[j], s[i])
  {
  }

  lemma SortedRangePlain<T>(less: (T, T) -> bool, s: seq<T>, lo: nat, hi: nat)
    requires lo <= hi <= |s|
    ensures SortedRange(less, s, lo, hi) <==> forall i, j :: lo <= i < j < hi ==> !less(s[j], s[i])
  {
  }

  /** A strict weak order as it is usually defined: irreflexive, and transitive as is being incomparable. */
  lemma StrictWeakOrderPlain<T(!new)>(less: (T, T) -> bool)
    ensures StrictWeakOrder(less) <==>
      && (forall x :: !less(x, x))
      && (forall x, y, z :: less(x, y) && less(y, z) ==> less(x, z))
      && (forall x, y, z :: !less(x, y) && !less(y, x) && !less(y, z) && !less(z, y) ==> !less(x, z))
  {
    if StrictWeakOrder(less) {
      forall x ensures !less(x, x) {
        assert !Less(less, x, x);
      }
      forall x, y, z ensures less(x, y) && less(y, z) ==> less(x, z) {
        assert Chain(less, x, z, y);
        assert Less(less, x, y) ==> Less(less, x, z) || Less(less, z, y);
        assert Less(less, y, z) ==> !Less(less, z, y);
      }
      forall x, y, z ensures !less(x, y) && !less(y, x) && !less(y, z) && !less(z, y) ==> !less(x, z) {
        assert Chain(less, x, y, z);
        assert Less(less, x, z) ==> Less(less, x, y) || Less(less, y, z);
      }
    } else {
      if x :| Less(less, x, x) {
        assert less(x, x);
      } else if x, y :| Less(less, x, y) && Less(less, y, x) {
        assert less(x, y) && less(y, x) && !Less(less, x, x);
      } else {
        var x, y, z :| Chain(less, x, y, z) && Less(less, x, z) && !Less(less, x, y) && !Less(less, y, z);
        assert less(x, z) && !less(x, y) && !less(y, z);
        assert less(y, x) || less(z, y) || (!less(y, x) && !less(z, y));
      }
    }
  }

  /** x <= y <= z gives x <= z. */
  lemma NotLessTransitive<T(!new)>(less: (T, T) -> bool, x: T, y: T, z: T)
    requires StrictWeakOrder(less)
    requires !Less(less, y, x) && !Less(less, z, y)
    ensures !Less(less, z, x)
  {
    assert Chain(less, z, y, x);
  }

  lemma StrictWeakOrderIrreflexive<T(!new)>(less: (T, T) -> bool, x: T)
    requires StrictWeakOrder(less)
    ensures !Less(less, x, x)
  {
  }

  lemma StrictWeakOrderAsymmetric<T(!new)>(less: (T, T) -> bool, x: T, y: T)
    requires StrictWeakOrder(less) && Less(less, x, y)
    ensures !Less(less, y, x)
  {
  }

  /** x < y <= z gives x < z. */
  lemma LessNotLess<T(!new)>(less: (T, T) -> bool, x: T, y: T, z: T)
    requires StrictWeakOrder(less)
    requires Less(less, x, y) && !Less(less, z, y)
    ensures Less(less, x, z)
  {
    assert Chain(less, x, z, y);
  }

  /** x <= y < z gives x < z. */
  lemma NotLessLess<T(!new)>(less: (T, T) -> bool, x: T, y: T, z: T)
    requires StrictWeakOrder(less)
    requires !Less(less, y, x) && Less(less, y, z)
    ensures Less(less, x, z)
  {
    assert Chain(less, y, x, z);
  }

  // ---- Filtering ----

  function Filter<T>(p: T -> bool, s: seq<T>): (r: seq<T>) {
    if s == [] then [] else
    var rest := Filter(p, s[..|s| - 1]);
    if p(s[|s| - 1]) then rest + [s[|s| - 1]] else rest
  }

  lemma {:induction false} FilterConcat<T>(p: T -> bool, s: seq<T>, t: seq<T>)
    ensures Filter(p, s + t) == Filter(p, s) + Filter(p, t)
    decreases |t|
  {
    if t == [] {
      assert s + t == s;
    } else {
      var n := |t| - 1;
      FilterConcat(p, s, t[..n]);
      assert (s + t)[..|s + t| - 1] == s + t[..n];
    }
  }

  lemma {:induction false} FilterMember<T>(p: T -> bool, s: seq<T>, x: T)
    ensures x in Filter(p, s) <==> x in s && p(x)
  {
    if s != [] {
      var n := |s| - 1;
      FilterMember(p, s[..n], x);
      assert s == s[..n] + [s[n]];
    }
  }

  lemma {:induction false} FilterAgree<T>(p: T -> bool, q: T -> bool, s: seq<T>)
    requires forall x :: x in s ==> p(x) == q(x)
    ensures Filter(p, s) == Filter(q, s)
  {
    if s != [] {
      var n := |s| - 1;
      assert s == s[..n] + [s[n]];
      FilterAgree(p, q, s[..n]);
    }
  }

  lemma {:induction false} FilterFilter<T>(p: T -> bool, q: T -> bool, r: T -> bool, s: seq<T>)
    requires forall x :: x in s ==> r(x) == (p(x) && q(x))
    ensures Filter(p, Filter(q, s)) == Filter(r, s)
  {
    if s != [] {
      var n := |s| - 1;
      assert s == s[..n] + [s[n]];
      FilterFilter(p, q, r, s[..n]);
      if q(s[n]) {
        FilterConcat(p, Filter(q, s[..n]), [s[n]]);
        assert [s[n]][..0] == [];
      }
    }
  }

  lemma {:induction false} FilterAll<T>(p: T -> bool, s: seq<T>)
    requires forall i :: 0 <= i < |s| ==> p(s[i])
    ensures Filter(p, s) == s
  {
    if s != [] {
      FilterAll(p, s[..|s| - 1]);
    }
  }

  lemma {:induction false} FilterNone<T>(p: T -> bool, s: seq<T>)
    requires forall i :: 0 <= i < |s| ==> !p(s[i])
    ensures Filter(p, s) == []
  {
    if s != [] {
      FilterNone(p, s[..|s| - 1]);
    }
  }

  function Negation<T>(p: T -> bool): T -> bool { x => !p(x) }

  lemma FilterNext<T>(p: T -> bool, s: seq<T>, j: nat)
    requires j < |s|
    ensures Filter(p, s[..j + 1]) == if p(s[j]) then Filter(p, s[..j]) + [s[j]] else Filter(p, s[..j])
  {
    assert s[..j + 1][..j] == s[..j];
  }

  /** `s` less its element `i`. */
  function Without<T>(s: seq<T>, i: nat): (r: seq<T>)
    requires i < |s|
  {
    s[..i] + s[i + 1..]
  }

  lemma WithoutAt<T>(s: seq<T>, i: nat, k: nat)
    requires i < |s| && k < |s| - 1
    ensures |Without(s, i)| == |s| - 1 && Without(s, i)[k] == s[if k < i then k else k + 1]
  {
  }

  /** Where removing the elements that satisfy `p` is after `j` of them: those kept, then those not yet looked at. */
  ghost function Remaining<T>(p: T -> bool, s: seq<T>, j: nat): seq<T>
    requires j <= |s|
  {
    Filter(Negation(p), s[..j]) + s[j..]
  }

  lemma RemainingStep<T>(p: T -> bool, s: seq<T>, j: nat)
    requires j < |s|
    ensures var kept, rest := Filter(Negation(p), s[..j]), Remaining(p, s, j);
      && |rest| == |kept| + |s| - j && |kept| < |rest| && rest[|kept|] == s[j]
      && Remaining(p, s, j + 1) == (if p(s[j]) then Without(rest, |kept|) else rest)
      && Filter(Negation(p), s[..j + 1]) == (if p(s[j]) then kept else kept + [s[j]])
    ensures Filter(p, s[..j + 1]) == if p(s[j]) then Filter(p, s[..j]) + [s[j]] else Filter(p, s[..j])
  {
    hide Filter;
    FilterNext(Negation(p), s, j);
    FilterNext(p, s, j);
  }

  lemma RemainingEnds<T>(p: T -> bool, s: seq<T>)
    ensures Remaining(p, s, 0) == s && Filter(p, s[..0]) == [] && Filter(Negation(p), s[..0]) == []
    ensures Remaining(p, s, |s|) == Filter(Negation(p), s) && Filter(p, s[..|s|]) == Filter(p, s)
  {
    assert s[..|s|] == s;
  }

  /** What has been removed does not remain. */
  lemma RemainingApart<T>(p: T -> bool, s: seq<T>, j: nat, x: T)
    requires j <= |s| && forall a, b :: 0 <= a < b < |s| ==> s[a] != s[b]
    ensures x in Remaining(p, s, j) ==> x in s
    ensures x in Filter(p, s[..j]) ==> x in s && x !in Remaining(p, s, j)
  {
    hide Filter;
    FilterMember(p, s[..j], x);
    FilterMember(Negation(p), s[..j], x);
    assert x in s[..j] ==> x !in s[j..];
  }

  lemma {:induction false} FilterMultiset<T>(p: T -> bool, s: seq<T>, x: T)
    ensures multiset(Filter(p, s))[x] == if p(x) then multiset(s)[x] else 0
  {
    if s != [] {
      var n := |s| - 1;
      assert s == s[..n] + [s[n]];
      FilterMultiset(p, s[..n], x);
    }
  }

  /** Permutations have as many elements that satisfy `p`. */
  lemma {:induction false} FilterPermutes<T>(p: T -> bool, s: seq<T>, t: seq<T>)
    requires multiset(s) == multiset(t)
    ensures |Filter(p, s)| == |Filter(p, t)|
    decreases |s|
  {
    if s == [] {
      assert |t| == |multiset(t)|;
    } else {
      hide Filter;
      var n := |s| - 1;
      assert s == s[..n] + [s[n]];
      assert s[n] in multiset(t);
      var k :| 0 <= k < |t| && t[k] == s[n];
      WithoutMultiset(s, n);
      WithoutMultiset(t, k);
      assert Without(s, n) == s[..n];
      FilterPermutes(p, s[..n], Without(t, k));
      FilterConcat(p, s[..n], [s[n]]);
      FilterWithout(p, t, k);
    }
  }

  lemma WithoutMultiset<T>(s: seq<T>, k: nat)
    requires k < |s|
    ensures multiset(Without(s, k)) == multiset(s) - multiset{s[k]}
  {
    assert s == s[..k] + [s[k]] + s[k + 1..];
  }

  lemma FilterWithout<T>(p: T -> bool, s: seq<T>, k: nat)
    requires k < |s|
    ensures |Filter(p, s)| == |Filter(p, Without(s, k))| + |Filter(p, [s[k]])|
  {
    hide Filter;
    var u, v := s[..k], s[k + 1..];
    assert s == u + [s[k]] + v;
    FilterConcat(p, u, v);
    FilterConcat(p, u + [s[k]], v);
    FilterConcat(p, u, [s[k]]);
  }

  /** A filtered sorted sequence is sorted. */
  lemma {:induction false} FilterSorted<T>(less: (T, T) -> bool, p: T -> bool, s: seq<T>)
    requires Sorted(less, s)
    ensures Sorted(less, Filter(p, s))
  {
    if s != [] {
      var n := |s| - 1;
      FilterSorted(less, p, s[..n]);
      var f := Filter(p, s[..n]);
      if p(s[n]) {
        forall i | 0 <= i < |f| ensures !Less(less, s[n], f[i]) {
          FilterMember(p, s[..n], f[i]);
          var k :| 0 <= k < n && s[..n][k] == f[i];
        }
      }
    }
  }

  /** Filtering keeps the relative order of the elements it keeps. */
  lemma {:induction false} FilterOrder<T>(less: (T, T) -> bool, p: T -> bool, s: seq<T>, i: nat, j: nat)
    requires i < j < |s| && p(s[i]) && p(s[j])
    requires Sorted(less, Filter(p, s))
    ensures !Less(less, s[j], s[i])
  {
    var n := |s| - 1;
    var f := Filter(p, s[..n]);
    if j < n {
      assert Sorted(less, f) by {
        assert Filter(p, s)[..|f|] == f;
      }
      FilterOrder(less, p, s[..n], i, j);
    } else {
      FilterMember(p, s[..n], s[i]);
      assert s[..n][i] == s[i] && s[i] in f;
      var k :| 0 <= k < |f| && f[k] == s[i];
      assert Filter(p, s)[k] == s[i] && Filter(p, s)[|f|] == s[j];
    }
  }

  // ---- Stability ----

  /** The members of `s` equivalent to `x`, in the order `s` holds them. */
  function Class<T>(less: (T, T) -> bool, x: T, s: seq<T>): (r: seq<T>) {
    Filter(y => Equivalent(less, x, y), s)
  }

  /** Every equivalence class appears in `t` as it appears in `s`. */
  ghost predicate SameClasses<T(!new)>(less: (T, T) -> bool, s: seq<T>, t: seq<T>) {
    forall x :: Class(less, x, s) == Class(less, x, t)
  }

  lemma ClassMember<T(!new)>(less: (T, T) -> bool, x: T, s: seq<T>, y: T)
    ensures y in Class(less, x, s) <==> y in s && Equivalent(less, x, y)
  {
    FilterMember(z => Equivalent(less, x, z), s, y);
  }

  lemma ClassConcat<T(!new)>(less: (T, T) -> bool, x: T, s: seq<T>, t: seq<T>)
    ensures Class(less, x, s + t) == Class(less, x, s) + Class(less, x, t)
  {
    FilterConcat(y => Equivalent(less, x, y), s, t);
  }

  /** Keeping every class in order is keeping every element as often. */
  lemma SameClassesPermutes<T(!new)>(less: (T, T) -> bool, s: seq<T>, t: seq<T>)
    requires StrictWeakOrder(less)
    requires SameClasses(less, s, t)
    ensures multiset(s) == multiset(t)
  {
    forall x ensures multiset(s)[x] == multiset(t)[x] {
      FilterMultiset(y => Equivalent(less, x, y), s, x);
      FilterMultiset(y => Equivalent(less, x, y), t, x);
      assert Class(less, x, s) == Class(less, x, t);
    }
  }

  lemma ClassLast<T(!new)>(less: (T, T) -> bool, x: T, s: seq<T>)
    requires s != [] && Equivalent(less, x, s[|s| - 1])
    ensures Class(less, x, s) != [] && Class(less, x, s)[|Class(less, x, s)| - 1] == s[|s| - 1]
  {
  }

  lemma ClassInit<T(!new)>(less: (T, T) -> bool, x: T, s: seq<T>)
    requires s != []
    ensures var rest := Class(less, x, s[..|s| - 1]);
      if Equivalent(less, x, s[|s| - 1]) then Class(less, x, s) != [] && rest == Class(less, x, s)[..|Class(less, x, s)| - 1]
      else rest == Class(less, x, s)
  {
  }

  /** Sorted sequences with the same classes end in the same element. */
  lemma SameLast<T(!new)>(less: (T, T) -> bool, s: seq<T>, t: seq<T>)
    requires StrictWeakOrder(less)
    requires Sorted(less, s) && Sorted(less, t)
    requires SameClasses(less, s, t)
    requires s != []
    ensures t != [] && s[|s| - 1] == t[|t| - 1]
  {
    var a := s[|s| - 1];
    SameClassesPermutes(less, s, t);
    assert a in multiset(s);
    assert a in t;
    var b := t[|t| - 1];
    assert b in multiset(t);
    assert b in s;
    assert Equivalent(less, a, b);
    assert Class(less, a, s) == Class(less, a, t);
    ClassLast(less, a, s);
    ClassLast(less, a, t);
  }

  /** At most one sorted sequence keeps every class in order. */
  lemma {:induction false} SortedClassesUnique<T(!new)>(less: (T, T) -> bool, s: seq<T>, t: seq<T>)
    requires StrictWeakOrder(less)
    requires Sorted(less, s) && Sorted(less, t)
    requires SameClasses(less, s, t)
    ensures s == t
  {
    if s == [] {
      if t != [] {
        SameLast(less, t, s);
      }
    } else {
      SameLast(less, s, t);
      var s', t', a := s[..|s| - 1], t[..|t| - 1], s[|s| - 1];
      forall x ensures Class(less, x, s') == Class(less, x, t') {
        assert Class(less, x, s) == Class(less, x, t);
        ClassInit(less, x, s);
        ClassInit(less, x, t);
      }
      SortedClassesUnique(less, s', t');
      assert s == s' + [a] && t == t' + [a];
    }
  }

  // ---- Reversal ----

  function Reversed<T>(s: seq<T>): (r: seq<T>)
    ensures |r| == |s|
    ensures forall i :: 0 <= i < |s| ==> r[i] == s[|s| - 1 - i]
  {
    seq(|s|, i requires 0 <= i < |s| => s[|s| - 1 - i])
  }

  lemma ReversedNext<T>(s: seq<T>)
    requires s != []
    ensures Reversed(s) == Reversed(s[1..]) + [s[0]]
  {
  }

  lemma {:induction false} ReversedPermutes<T>(s: seq<T>)
    ensures multiset(Reversed(s)) == multiset(s)
  {
    if s == [] {
      assert Reversed(s) == s;
    } else {
      ReversedNext(s);
      ReversedPermutes(s[1..]);
      assert s == [s[0]] + s[1..];
    }
  }

  // ---- The reference stable sort ----

  /** Places `x` after every element it is not less than. */
  function Insert<T>(less: (T, T) -> bool, s: seq<T>, x: T): (r: seq<T>) {
    if s == [] || !Less(less, x, s[|s| - 1]) then s + [x]
    else Insert(less, s[..|s| - 1], x) + [s[|s| - 1]]
  }

  function StableSort<T>(less: (T, T) -> bool, s: seq<T>): (r: seq<T>) {
    if s == [] then [] else Insert(less, StableSort(less, s[..|s| - 1]), s[|s| - 1])
  }

  lemma {:induction false} InsertPermutes<T>(less: (T, T) -> bool, s: seq<T>, x: T)
    ensures multiset(Insert(less, s, x)) == multiset(s) + multiset{x}
    ensures |Insert(less, s, x)| == |s| + 1
  {
    if !(s == [] || !Less(less, x, s[|s| - 1])) {
      InsertPermutes(less, s[..|s| - 1], x);
      assert s == s[..|s| - 1] + [s[|s| - 1]];
    }
  }

  lemma {:induction false} InsertSorted<T(!new)>(less: (T, T) -> bool, s: seq<T>, x: T)
    requires StrictWeakOrder(less) && Sorted(less, s)
    ensures Sorted(less, Insert(less, s, x))
  {
    var n := |s| - 1;
    if s == [] {
    } else if !Less(less, x, s[n]) {
      forall i | 0 <= i < n ensures !Less(less, x, s[i]) {
        NotLessTransitive(less, s[i], s[n], x);
      }
    } else {
      InsertSorted(less, s[..n], x);
      InsertPermutes(less, s[..n], x);
      var r := Insert(less, s[..n], x);
      forall i | 0 <= i < |r| ensures !Less(less, s[n], r[i]) {
        assert r[i] in multiset(r);
        if r[i] != x {
          assert r[i] in s[..n];
        }
      }
    }
  }

  lemma {:induction false} InsertClasses<T(!new)>(less: (T, T) -> bool, s: seq<T>, x: T, y: T)
    requires StrictWeakOrder(less)
    ensures Class(less, y, Insert(less, s, x)) == Class(less, y, s + [x])
  {
    var n := |s| - 1;
    if !(s == [] || !Less(less, x, s[n])) {
      InsertClasses(less, s[..n], x, y);
      ClassConcat(less, y, Insert(less, s[..n], x), [s[n]]);
      ClassConcat(less, y, s[..n], [x]);
      ClassConcat(less, y, s[..n], [s[n]]);
      ClassConcat(less, y, s, [x]);
      assert s == s[..n] + [s[n]];
      assert !(Equivalent(less, y, x) && Equivalent(less, y, s[n])) by {
        assert Chain(less, x, y, s[n]);
      }
      assert [x][..0] == [] && [s[n]][..0] == [];
    }
  }

  /** `StableSort` is sorted and keeps every equivalence class in order. */
  lemma {:induction false} StableSortCorrect<T(!new)>(less: (T, T) -> bool, s: seq<T>)
    requires StrictWeakOrder(less)
    ensures Sorted(less, StableSort(less, s))
    ensures SameClasses(less, s, StableSort(less, s))
    ensures multiset(StableSort(less, s)) == multiset(s)
    ensures |StableSort(less, s)| == |s|
  {
    if s != [] {
      var n := |s| - 1;
      var r := StableSort(less, s[..n]);
      StableSortCorrect(less, s[..n]);
      InsertSorted(less, r, s[n]);
      assert s == s[..n] + [s[n]];
      forall y ensures Class(less, y, s) == Class(less, y, StableSort(less, s)) {
        InsertClasses(less, r, s[n], y);
        ClassConcat(less, y, r, [s[n]]);
        ClassConcat(less, y, s[..n], [s[n]]);
        assert Class(less, y, s[..n]) == Class(less, y, r);
      }
    }
    SameClassesPermutes(less, s, StableSort(less, s));
    assert |s| == |multiset(s)| == |multiset(StableSort(less, s))|;
  }

  /** Nothing else is: the two properties determine the stable sort. */
  lemma StableSortUnique<T(!new)>(less: (T, T) -> bool, s: seq<T>, t: seq<T>)
    requires StrictWeakOrder(less)
    ensures t == StableSort(less, s) <==> Sorted(less, t) && SameClasses(less, s, t)
  {
    StableSortCorrect(less, s);
    if Sorted(less, t) && SameClasses(less, s, t) {
      forall x ensures Class(less, x, t) == Class(less, x, StableSort(less, s)) {
        assert Class(less, x, s) == Class(less, x, t);
        assert Class(less, x, s) == Class(less, x, StableSort(less, s));
      }
      SortedClassesUnique(less, t, StableSort(less, s));
    }
  }

  // ---- Permutations of a range ----

  lemma SwapPermutes<T>(s: seq<T>, i: int, j: int)
    requires 0 <= i < |s| && 0 <= j < |s|
    ensures multiset(s[i := s[j]][j := s[i]]) == multiset(s)
  {
  }

  /** Two sequences agree outside [lo, hi). */
  ghost predicate SameOutside<T>(s: seq<T>, t: seq<T>, lo: int, hi: int) {
    |s| == |t| && forall k :: 0 <= k < |s| && (k < lo || hi <= k) ==> s[k] == t[k]
  }

  lemma SplitMultiset<T>(s: seq<T>, lo: int, hi: int)
    requires 0 <= lo <= hi <= |s|
    ensures multiset(s[lo..hi]) == multiset(s) - multiset(s[..lo]) - multiset(s[hi..])
  {
    assert s == s[..lo] + s[lo..hi] + s[hi..];
  }

  /** A permutation that moves nothing outside a range permutes the range. */
  lemma RangePermutes<T>(s: seq<T>, t: seq<T>, lo: int, hi: int)
    requires 0 <= lo <= hi <= |s|
    requires SameOutside(s, t, lo, hi) && multiset(s) == multiset(t)
    ensures multiset(s[lo..hi]) == multiset(t[lo..hi])
  {
    SplitMultiset(s, lo, hi);
    SplitMultiset(t, lo, hi);
    assert s[..lo] == t[..lo] && s[hi..] == t[hi..];
  }

  /** So whatever holds of every element of the range keeps holding. */
  lemma RangeForall<T>(s: seq<T>, t: seq<T>, lo: int, hi: int, p: T -> bool)
    requires 0 <= lo <= hi <= |s|
    requires SameOutside(s, t, lo, hi) && multiset(s) == multiset(t)
    requires forall k :: lo <= k < hi ==> p(s[k])
    ensures forall k :: lo <= k < hi ==> p(t[k])
  {
    RangePermutes(s, t, lo, hi);
    forall k | lo <= k < hi ensures p(t[k]) {
      assert t[lo..hi][k - lo] == t[k];
      assert t[k] in multiset(s[lo..hi]);
      var m :| 0 <= m < hi - lo && s[lo..hi][m] == t[k];
      assert s[lo + m] == t[k];
    }
  }
}

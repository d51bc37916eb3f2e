/**
 The algorithms on ordered ranges: merge, union, intersection, difference and
 the removal of consecutive duplicates.

 What each puts in its output is stated class by class: of the elements
 equivalent to some `x`, which come from which range and in what order.
 */
module SetAlgorithms {
  import opened Order

  datatype Operation = Merging | Union | Intersection | Difference

  /** What becomes of a class whose members are `m` in the first range and `n` in the second. */
  function Combine<T>(op: Operation, m: seq<T>, n: seq<T>): (r: seq<T>) {
    match op
    case Merging => m + n
    case Union => if |m| < |n| then m + n[|m|..] else m
    case Intersection => if |m| < |n| then m else m[..|n|]
    case Difference => if |m| < |n| then [] else m[|n|..]
  }

  /** The contract of the four algorithms. */
  ghost predicate Combined<T(!new)>(op: Operation, less: (T, T) -> bool, s: seq<T>, t: seq<T>, out: seq<T>) {
    Sorted(less, out) && forall x :: CombinedClass(op, less, s, t, out, x)
  }

  ghost predicate CombinedClass<T>(op: Operation, less: (T, T) -> bool, s: seq<T>, t: seq<T>, out: seq<T>, x: T) {
    Class(less, x, out) == Combine(op, Class(less, x, s), Class(less, x, t))
  }

  /** Elements equivalent to `x`. */
  function Multiplicity<T>(less: (T, T) -> bool, x: T, s: seq<T>): nat { |Class(less, x, s)| }

  lemma Multiplicities<T(!new)>(op: Operation, less: (T, T) -> bool, s: seq<T>, t: seq<T>, out: seq<T>, x: T)
    requires Combined(op, less, s, t, out)
    ensures var m, n, r := Multiplicity(less, x, s), Multiplicity(less, x, t), Multiplicity(less, x, out);
      match op
      case Merging => r == m + n
      case Union => r == if m < n then n else m
      case Intersection => r == if m < n then m else n
      case Difference => r == if m < n then 0 else m - n
  {
    hide Class;
    assert CombinedClass(op, less, s, t, out, x);
  }

  /** Of each class, which members are in the output and in what order, and that the output is sorted. */
  lemma CombinedPlain<T(!new)>(op: Operation, less: (T, T) -> bool, s: seq<T>, t: seq<T>, out: seq<T>, x: T)
    requires Combined(op, less, s, t, out)
    ensures forall i, j :: 0 <= i < j < |out| ==> !less(out[j], out[i])
    ensures var m, n, r := Class(less, x, s), Class(less, x, t), Class(less, x, out);
      match op
      case Merging => |r| == |m| + |n| && m <= r && r[|m|..] == n
      case Union => m <= r && (if |m| < |n| then r[|m|..] == n[|m|..] else |r| == |m|)
      case Intersection => r <= m && |r| == if |m| < |n| then |m| else |n|
      case Difference => if |m| < |n| then r == [] else |r| == |m| - |n| && m == m[..|n|] + r
    ensures Class(less, x, s) == Filter(y => !less(x, y) && !less(y, x), s)
  {
    SortedPlain(less, out);
    FilterAgree(y => Equivalent(less, x, y), y => !less(x, y) && !less(y, x), s);
    hide Class;
    assert CombinedClass(op, less, s, t, out, x);
  }

  /** The contract leaves no choice. */
  lemma CombinedUnique<T(!new)>(op: Operation, less: (T, T) -> bool, s: seq<T>, t: seq<T>, out: seq<T>, other: seq<T>)
    requires StrictWeakOrder(less) && Combined(op, less, s, t, out) && Combined(op, less, s, t, other)
    ensures out == other
  {
    hide Class, Combine;
    forall x ensures Class(less, x, out) == Class(less, x, other) {
      assert CombinedClass(op, less, s, t, out, x) && CombinedClass(op, less, s, t, other, x);
    }
    SortedClassesUnique(less, out, other);
  }

  /** A merge is the stable sort of one range after the other. */
  lemma MergeIsStableSort<T(!new)>(less: (T, T) -> bool, s: seq<T>, t: seq<T>, out: seq<T>)
    requires StrictWeakOrder(less)
    ensures Combined(Merging, less, s, t, out) <==> out == StableSort(less, s + t)
  {
    hide Class;
    forall x ensures CombinedClass(Merging, less, s, t, out, x) <==> Class(less, x, s + t) == Class(less, x, out) {
      ClassConcat(less, x, s, t);
    }
    assert Combined(Merging, less, s, t, out) <==> Sorted(less, out) && SameClasses(less, s + t, out) by {
      if Combined(Merging, less, s, t, out) {
        forall x ensures Class(less, x, s + t) == Class(less, x, out) {
          assert CombinedClass(Merging, less, s, t, out, x);
        }
      }
      if SameClasses(less, s + t, out) {
        forall x ensures CombinedClass(Merging, less, s, t, out, x) {
          assert Class(less, x, s + t) == Class(less, x, out);
        }
      }
    }
    StableSortUnique(less, s + t, out);
  }

  // ---- Progress ----

  /** Nothing at or after `i` is less than anything in `out`. */
  ghost predicate After<T>(less: (T, T) -> bool, out: seq<T>, s: seq<T>, i: nat) {
    forall h, k :: 0 <= h < |out| && i <= k < |s| ==> !Less(less, s[k], out[h])
  }

  /** The output so far, and what the rest of the ranges would add, make up the whole. */
  ghost predicate ClassSoFar<T>(op: Operation, less: (T, T) -> bool, s: seq<T>, t: seq<T>, i: nat, j: nat, out: seq<T>, x: T)
    requires i <= |s| && j <= |t|
  {
    Class(less, x, out) + Combine(op, Class(less, x, s[i..]), Class(less, x, t[j..])) ==
    Combine(op, Class(less, x, s), Class(less, x, t))
  }

  ghost predicate Progress<T(!new)>(op: Operation, less: (T, T) -> bool, s: seq<T>, t: seq<T>, i: nat, j: nat, out: seq<T>) {
    && i <= |s| && j <= |t|
    && Sorted(less, out) && After(less, out, s, i) && After(less, out, t, j)
    && forall x :: ClassSoFar(op, less, s, t, i, j, out, x)
  }

  lemma ProgressStart<T(!new)>(op: Operation, less: (T, T) -> bool, s: seq<T>, t: seq<T>)
    ensures Progress(op, less, s, t, 0, 0, [])
  {
    hide Combine;
    assert s[0..] == s && t[0..] == t;
  }

  lemma ProgressDone<T(!new)>(op: Operation, less: (T, T) -> bool, s: seq<T>, t: seq<T>, i: nat, j: nat, out: seq<T>)
    requires Progress(op, less, s, t, i, j, out)
    requires match op
      case Merging | Union => i == |s| && j == |t|
      case Intersection => i == |s| || j == |t|
      case Difference => i == |s|
    ensures Combined(op, less, s, t, out)
  {
    hide Class;
    forall x ensures CombinedClass(op, less, s, t, out, x) {
      assert ClassSoFar(op, less, s, t, i, j, out, x);
      ClassEmpty(less, x);
      assert i == |s| ==> s[i..] == [];
      assert j == |t| ==> t[j..] == [];
    }
  }

  lemma ClassEmpty<T>(less: (T, T) -> bool, x: T)
    ensures Class(less, x, []) == []
  {
  }

  /** The class of a range that starts with `s[i]`. */
  lemma ClassHead<T(!new)>(less: (T, T) -> bool, x: T, s: seq<T>, i: nat)
    requires i < |s|
    ensures Class(less, x, s[i..]) == (if Equivalent(less, x, s[i]) then [s[i]] else []) + Class(less, x, s[i + 1..])
  {
    hide Equivalent;
    assert s[i..] == [s[i]] + s[i + 1..];
    ClassConcat(less, x, [s[i]], s[i + 1..]);
    ClassOne(less, x, s[i]);
  }

  lemma ClassOne<T(!new)>(less: (T, T) -> bool, x: T, y: T)
    ensures Class(less, x, [y]) == if Equivalent(less, x, y) then [y] else []
  {
    hide Class;
    assert [y][..|[y]| - 1] == [];
    ClassEmpty(less, x);
    ClassInit(less, x, [y]);
    if Equivalent(less, x, y) {
      ClassLast(less, x, [y]);
    }
  }

  lemma ClassAppend<T(!new)>(less: (T, T) -> bool, x: T, s: seq<T>, y: T)
    ensures Class(less, x, s + [y]) == Class(less, x, s) + if Equivalent(less, x, y) then [y] else []
  {
    hide Equivalent;
    ClassConcat(less, x, s, [y]);
    ClassOne(less, x, y);
  }

  /** What follows a greater element holds nothing equivalent. */
  lemma ClassBeyond<T(!new)>(less: (T, T) -> bool, x: T, y: T, t: seq<T>, j: nat)
    requires StrictWeakOrder(less) && Sorted(less, t) && j <= |t|
    requires Equivalent(less, x, y) && (j < |t| ==> Less(less, y, t[j]))
    ensures Class(less, x, t[j..]) == []
  {
    hide Class;
    if Class(less, x, t[j..]) != [] {
      var z := Class(less, x, t[j..])[0];
      ClassMember(less, x, t[j..], z);
      var k :| j <= k < |t| && t[k] == z;
      if k > j {
        LessNotLess(less, y, t[j], t[k]);
      }
      NotLessLess(less, x, y, z);
    }
  }

  lemma AfterNext<T>(less: (T, T) -> bool, out: seq<T>, s: seq<T>, i: nat)
    requires After(less, out, s, i)
    ensures After(less, out, s, i + 1)
  {
  }

  lemma AppendSorted<T>(less: (T, T) -> bool, out: seq<T>, s: seq<T>, i: nat)
    requires Sorted(less, out) && After(less, out, s, i) && i < |s|
    ensures Sorted(less, out + [s[i]])
  {
  }

  lemma AppendAfter<T(!new)>(less: (T, T) -> bool, out: seq<T>, s: seq<T>, i: nat, y: T)
    requires StrictWeakOrder(less) && Sorted(less, s) && After(less, out, s, i)
    requires i < |s| ==> !Less(less, s[i], y)
    ensures After(less, out + [y], s, i)
  {
    forall k | i <= k < |s| ensures !Less(less, s[k], y) {
      if k > i {
        NotLessTransitive(less, y, s[i], s[k]);
      }
    }
  }

  /** Taking or skipping the head of the first range. */
  lemma StepFirst<T(!new)>(op: Operation, less: (T, T) -> bool, s: seq<T>, t: seq<T>, i: nat, j: nat, out: seq<T>)
    requires StrictWeakOrder(less) && Sorted(less, s) && Sorted(less, t)
    requires Progress(op, less, s, t, i, j, out) && i < |s|
    requires j < |t| ==> if op == Merging then !Less(less, t[j], s[i]) else Less(less, s[i], t[j])
    ensures Progress(op, less, s, t, i + 1, j, if op == Intersection then out else out + [s[i]])
  {
    hide Class, Equivalent, ClassSoFar, StrictWeakOrder, After;
    var y := s[i];
    var out' := if op == Intersection then out else out + [y];
    if op != Intersection {
      StrictWeakOrderIrreflexive(less, y);
      AppendAfter(less, out, s, i, y);
      AppendSorted(less, out, s, i);
      if j < |t| && op != Merging {
        StrictWeakOrderAsymmetric(less, y, t[j]);
      }
      AppendAfter(less, out, t, j, y);
    }
    var i' := i + 1;
    AfterNext(less, out', s, i);
    forall x ensures ClassSoFar(op, less, s, t, i', j, out', x) {
      assert ClassSoFar(op, less, s, t, i, j, out, x);
      ClassStepFirst(op, less, s, t, i, j, out, x);
    }
  }

  lemma ClassStepFirst<T(!new)>(op: Operation, less: (T, T) -> bool, s: seq<T>, t: seq<T>, i: nat, j: nat, out: seq<T>, x: T)
    requires StrictWeakOrder(less) && Sorted(less, t) && i < |s| && j <= |t|
    requires j < |t| ==> op == Merging || Less(less, s[i], t[j])
    requires ClassSoFar(op, less, s, t, i, j, out, x)
    ensures ClassSoFar(op, less, s, t, i + 1, j, if op == Intersection then out else out + [s[i]], x)
  {
    hide Class, Equivalent, Combine, StrictWeakOrder, Sorted;
    var y := s[i];
    ClassHead(less, x, s, i);
    ClassAppend(less, x, out, y);
    if op != Merging && Equivalent(less, x, y) {
      ClassBeyond(less, x, y, t, j);
    }
    var own := if Equivalent(less, x, y) then [y] else [];
    FirstAlone(op, own, Class(less, x, s[i + 1..]), Class(less, x, t[j..]));
    Regroup(Class(less, x, out), own, Combine(op, Class(less, x, s[i + 1..]), Class(less, x, t[j..])));
  }

  lemma Regroup<T>(a: seq<T>, b: seq<T>, c: seq<T>)
    ensures (a + b) + c == a + (b + c)
    ensures a + [] == a
  {
  }

  lemma FirstAlone<T>(op: Operation, y: seq<T>, m: seq<T>, n: seq<T>)
    requires op == Merging || y == [] || n == []
    ensures Combine(op, y + m, n) == if op == Intersection then Combine(op, m, n) else y + Combine(op, m, n)
  {
    if y == [] {
      assert y + m == m && y + Combine(op, m, n) == Combine(op, m, n);
    }
  }

  /** Taking or skipping the head of the second. */
  lemma StepSecond<T(!new)>(op: Operation, less: (T, T) -> bool, s: seq<T>, t: seq<T>, i: nat, j: nat, out: seq<T>)
    requires StrictWeakOrder(less) && Sorted(less, s) && Sorted(less, t)
    requires Progress(op, less, s, t, i, j, out) && j < |t|
    requires i < |s| ==> Less(less, t[j], s[i])
    ensures Progress(op, less, s, t, i, j + 1, if op.Merging? || op.Union? then out + [t[j]] else out)
  {
    hide Class, Equivalent, ClassSoFar, StrictWeakOrder, After;
    var y := t[j];
    var out' := if op.Merging? || op.Union? then out + [y] else out;
    if op.Merging? || op.Union? {
      StrictWeakOrderIrreflexive(less, y);
      if i < |s| {
        StrictWeakOrderAsymmetric(less, y, s[i]);
      }
      AppendAfter(less, out, s, i, y);
      AppendAfter(less, out, t, j, y);
      AppendSorted(less, out, t, j);
    }
    var j' := j + 1;
    AfterNext(less, out', t, j);
    forall x ensures ClassSoFar(op, less, s, t, i, j', out', x) {
      assert ClassSoFar(op, less, s, t, i, j, out, x);
      ClassStepSecond(op, less, s, t, i, j, out, x);
    }
  }

  lemma ClassStepSecond<T(!new)>(op: Operation, less: (T, T) -> bool, s: seq<T>, t: seq<T>, i: nat, j: nat, out: seq<T>, x: T)
    requires StrictWeakOrder(less) && Sorted(less, s) && i <= |s| && j < |t|
    requires i < |s| ==> Less(less, t[j], s[i])
    requires ClassSoFar(op, less, s, t, i, j, out, x)
    ensures ClassSoFar(op, less, s, t, i, j + 1, if op.Merging? || op.Union? then out + [t[j]] else out, x)
  {
    hide Class, Equivalent, Combine, StrictWeakOrder, Sorted;
    var y := t[j];
    ClassHead(less, x, t, j);
    ClassAppend(less, x, out, y);
    if Equivalent(less, x, y) {
      ClassBeyond(less, x, y, s, i);
    }
    var own := if Equivalent(less, x, y) then [y] else [];
    SecondAlone(op, Class(less, x, s[i..]), own, Class(less, x, t[j + 1..]));
    Regroup(Class(less, x, out), own, Combine(op, Class(less, x, s[i..]), Class(less, x, t[j + 1..])));
  }

  lemma SecondAlone<T>(op: Operation, m: seq<T>, y: seq<T>, n: seq<T>)
    requires |y| <= 1 && (y == [] || m == [])
    ensures Combine(op, m, y + n) == if op.Merging? || op.Union? then y + Combine(op, m, n) else Combine(op, m, n)
  {
    if y == [] {
      assert y + n == n && y + Combine(op, m, n) == Combine(op, m, n);
    } else {
      assert m + (y + n) == y + n && m + n == n;
    }
  }

  /** Equivalent heads, which go together. */
  lemma StepBoth<T(!new)>(op: Operation, less: (T, T) -> bool, s: seq<T>, t: seq<T>, i: nat, j: nat, out: seq<T>)
    requires StrictWeakOrder(less) && Sorted(less, s) && Sorted(less, t) && op != Merging
    requires Progress(op, less, s, t, i, j, out) && i < |s| && j < |t|
    requires !Less(less, t[j], s[i]) && !Less(less, s[i], t[j])
    ensures Progress(op, less, s, t, i + 1, j + 1, if op == Difference then out else out + [s[i]])
  {
    hide Class, ClassSoFar, StrictWeakOrder, After;
    var y := s[i];
    var out' := if op == Difference then out else out + [y];
    if op != Difference {
      StrictWeakOrderIrreflexive(less, y);
      AppendAfter(less, out, s, i, y);
      AppendAfter(less, out, t, j, y);
      AppendSorted(less, out, s, i);
    }
    var i', j' := i + 1, j + 1;
    AfterNext(less, out', s, i);
    AfterNext(less, out', t, j);
    forall x ensures ClassSoFar(op, less, s, t, i', j', out', x) {
      assert ClassSoFar(op, less, s, t, i, j, out, x);
      ClassStepBoth(op, less, s, t, i, j, out, x);
    }
  }

  lemma ClassStepBoth<T(!new)>(op: Operation, less: (T, T) -> bool, s: seq<T>, t: seq<T>, i: nat, j: nat, out: seq<T>, x: T)
    requires StrictWeakOrder(less) && i < |s| && j < |t| && op != Merging
    requires !Less(less, t[j], s[i]) && !Less(less, s[i], t[j])
    requires ClassSoFar(op, less, s, t, i, j, out, x)
    ensures ClassSoFar(op, less, s, t, i + 1, j + 1, if op == Difference then out else out + [s[i]], x)
  {
    hide Class, Equivalent, Combine, StrictWeakOrder;
    var y := s[i];
    ClassHead(less, x, s, i);
    ClassHead(less, x, t, j);
    ClassAppend(less, x, out, y);
    EquivalentTogether(less, x, y, t[j]);
    var m, n := Class(less, x, s[i + 1..]), Class(less, x, t[j + 1..]);
    BothHeads(op, y, t[j], m, n);
    assert [] + m == m && [] + n == n;
    Regroup(Class(less, x, out), [y], Combine(op, m, n));
    Regroup(Class(less, x, out), [], Combine(op, m, n));
  }

  lemma EquivalentTogether<T(!new)>(less: (T, T) -> bool, x: T, y: T, z: T)
    requires StrictWeakOrder(less) && !Less(less, y, z) && !Less(less, z, y)
    ensures Equivalent(less, x, y) <==> Equivalent(less, x, z)
  {
    assert Chain(less, x, y, z) && Chain(less, z, y, x) && Chain(less, x, z, y) && Chain(less, y, z, x);
  }

  lemma BothHeads<T>(op: Operation, y: T, z: T, m: seq<T>, n: seq<T>)
    requires op != Merging
    ensures Combine(op, [y] + m, [z] + n) == if op == Difference then Combine(op, m, n) else [y] + Combine(op, m, n)
  {
    assert |[y] + m| == |m| + 1 && |[z] + n| == |n| + 1;
    if |m| < |n| {
      DropHead(z, n, |m|);
      Regroup([y], m, n[|m|..]);
    } else {
      DropHead(y, m, |n|);
    }
  }

  lemma DropHead<T>(y: T, m: seq<T>, k: nat)
    requires k <= |m|
    ensures ([y] + m)[k + 1..] == m[k..]
    ensures ([y] + m)[..k + 1] == [y] + m[..k]
  {
  }

  // ---- Difference as documented ----

  /** The elements of the first range whose key is not in the second. */
  ghost function KeysOnlyInFirst<T(!new)>(less: (T, T) -> bool, s: seq<T>, t: seq<T>): seq<T> {
    Filter(x => Class(less, x, t) == [], s)
  }

  lemma EquivalentClasses<T(!new)>(less: (T, T) -> bool, x: T, y: T, t: seq<T>)
    requires StrictWeakOrder(less) && Equivalent(less, x, y)
    ensures Class(less, x, t) == Class(less, y, t)
  {
    forall z ensures Equivalent(less, x, z) == Equivalent(less, y, z) {
      EquivalentTogether(less, z, x, y);
    }
    FilterAgree(z => Equivalent(less, x, z), z => Equivalent(less, y, z), t);
  }

  lemma KeysOnlyInFirstClass<T(!new)>(less: (T, T) -> bool, s: seq<T>, t: seq<T>, x: T)
    requires StrictWeakOrder(less)
    ensures Class(less, x, KeysOnlyInFirst(less, s, t)) == if Class(less, x, t) == [] then Class(less, x, s) else []
  {
    var p, c := y => Class(less, y, t) == [], y => Equivalent(less, x, y);
    var both := y => Class(less, x, t) == [] && Equivalent(less, x, y);
    forall y ensures both(y) == (c(y) && p(y)) {
      if Equivalent(less, x, y) {
        EquivalentClasses(less, x, y, t);
      }
    }
    FilterFilter(c, p, both, s);
    if Class(less, x, t) == [] {
      FilterAgree(both, c, s);
    } else {
      FilterNone(both, s);
    }
  }

  /**
   The difference holds the keys of the first range that are not in the second,
   as documented, if and only if no key of the second is in the first more often.
   */
  lemma DifferenceIsOfKeys<T(!new)>(less: (T, T) -> bool, s: seq<T>, t: seq<T>, out: seq<T>)
    requires StrictWeakOrder(less) && Sorted(less, s) && Combined(Difference, less, s, t, out)
    ensures out == KeysOnlyInFirst(less, s, t) <==>
      forall x :: Multiplicity(less, x, t) == 0 || Multiplicity(less, x, s) <= Multiplicity(less, x, t)
  {
    hide Class, Filter, StrictWeakOrder;
    var keys := KeysOnlyInFirst(less, s, t);
    FilterSorted(less, x => Class(less, x, t) == [], s);
    forall x ensures Class(less, x, out) == Class(less, x, keys) <==>
        Multiplicity(less, x, t) == 0 || Multiplicity(less, x, s) <= Multiplicity(less, x, t)
    {
      assert CombinedClass(Difference, less, s, t, out, x);
      KeysOnlyInFirstClass(less, s, t, x);
    }
    if forall x :: Multiplicity(less, x, t) == 0 || Multiplicity(less, x, s) <= Multiplicity(less, x, t) {
      SortedClassesUnique(less, out, keys);
    }
  }

  function IntLess(): (int, int) -> bool { (x, y) => x < y }

  /** The difference of [1, 1] and [1] holds a 1, though no key of the first is missing from the second. */
  lemma DifferenceKeepsSurplus(out: seq<int>)
    requires Combined(Difference, IntLess(), [1, 1], [1], out)
    ensures 1 in out && KeysOnlyInFirst(IntLess(), [1, 1], [1]) == []
  {
    var less := IntLess();
    ClassOne(less, 1, 1);
    ClassAppend(less, 1, [1], 1);
    assert [1] + [1] == [1, 1];
    FilterNone(x => Class(less, x, [1]) == [], [1, 1]);
    assert CombinedClass(Difference, less, [1, 1], [1], out, 1);
    ClassMember(less, 1, out, 1);
  }

  // ---- The algorithms ----

  /** An output iterator that appends. */
  class Output<T> {
    var written: seq<T>

    constructor ()
      ensures written == []
    {
      written := [];
    }

    method Write(x: T)
      modifies this
      ensures written == old(written) + [x]
    {
      written := written + [x];
    }
  }

  method Merge<T(!new)>(less: (T, T) -> bool, range0: seq<T>, range1: seq<T>, output: Output<T>) returns (ghost out: seq<T>)
    requires StrictWeakOrder(less) && Sorted(less, range0) && Sorted(less, range1)
    modifies output
    ensures output.written == old(output.written) + out
    ensures Combined(Merging, less, range0, range1, out)
  {
    hide Progress, Combined, Sorted, StrictWeakOrder;
    var src0, src1 := 0, 0;
    out := [];
    ProgressStart(Merging, less, range0, range1);
    while src0 != |range0| && src1 != |range1|
      invariant src0 <= |range0| && src1 <= |range1| && output.written == old(output.written) + out
      invariant Progress(Merging, less, range0, range1, src0, src1, out)
      decreases |range0| - src0 + |range1| - src1
    {
      var take1 := Less(less, range1[src1], range0[src0]);
      if take1 {
        StepSecond(Merging, less, range0, range1, src0, src1, out);
        output.Write(range1[src1]);
        out := out + [range1[src1]];
      } else {
        StepFirst(Merging, less, range0, range1, src0, src1, out);
        output.Write(range0[src0]);
        out := out + [range0[src0]];
      }
      src1 := src1 + if take1 then 1 else 0;
      src0 := src0 + if take1 then 0 else 1;
    }
    out, src0 := CopyFirst(Merging, less, range0, range1, src0, src1, output, out);
    out, src1 := CopySecond(Merging, less, range0, range1, src0, src1, output, out);
    ProgressDone(Merging, less, range0, range1, src0, src1, out);
  }

  /** The tail loop over the first range. */
  method CopyFirst<T(!new)>(ghost op: Operation, ghost less: (T, T) -> bool, range0: seq<T>, ghost range1: seq<T>,
      begin: nat, ghost j: nat, output: Output<T>, ghost out: seq<T>)
    returns (ghost out': seq<T>, end: nat)
    requires StrictWeakOrder(less) && Sorted(less, range0) && Sorted(less, range1)
    requires op != Intersection && Progress(op, less, range0, range1, begin, j, out)
    requires begin <= |range0| && (begin == |range0| || j == |range1|)
    modifies output
    ensures end == |range0| && Progress(op, less, range0, range1, end, j, out')
    ensures out <= out' && output.written == old(output.written) + out'[|out|..]
  {
    hide Progress, Sorted, StrictWeakOrder;
    end, out' := begin, out;
    while end != |range0|
      invariant begin <= end <= |range0| && Progress(op, less, range0, range1, end, j, out')
      invariant out <= out' && output.written == old(output.written) + out'[|out|..]
      decreases |range0| - end
    {
      StepFirst(op, less, range0, range1, end, j, out');
      output.Write(range0[end]);
      out' := out' + [range0[end]];
      end := end + 1;
    }
  }

  /** The tail loop over the second range. */
  method CopySecond<T(!new)>(ghost op: Operation, ghost less: (T, T) -> bool, ghost range0: seq<T>, range1: seq<T>,
      ghost i: nat, begin: nat, output: Output<T>, ghost out: seq<T>)
    returns (ghost out': seq<T>, end: nat)
    requires StrictWeakOrder(less) && Sorted(less, range0) && Sorted(less, range1)
    requires (op.Merging? || op.Union?) && Progress(op, less, range0, range1, i, begin, out)
    requires begin <= |range1| && i == |range0|
    modifies output
    ensures end == |range1| && Progress(op, less, range0, range1, i, end, out')
    ensures out <= out' && output.written == old(output.written) + out'[|out|..]
  {
    hide Progress, Sorted, StrictWeakOrder;
    end, out' := begin, out;
    while end != |range1|
      invariant begin <= end <= |range1| && Progress(op, less, range0, range1, i, end, out')
      invariant out <= out' && output.written == old(output.written) + out'[|out|..]
      decreases |range1| - end
    {
      StepSecond(op, less, range0, range1, i, end, out');
      output.Write(range1[end]);
      out' := out' + [range1[end]];
      end := end + 1;
    }
  }

  method SetUnion<T(!new)>(less: (T, T) -> bool, range0: seq<T>, range1: seq<T>, output: Output<T>) returns (ghost out: seq<T>)
    requires StrictWeakOrder(less) && Sorted(less, range0) && Sorted(less, range1)
    modifies output
    ensures output.written == old(output.written) + out
    ensures Combined(Union, less, range0, range1, out)
  {
    hide Progress, Combined, Sorted, StrictWeakOrder;
    var src0, src1 := 0, 0;
    out := [];
    ProgressStart(Union, less, range0, range1);
    while src0 != |range0| && src1 != |range1|
      invariant src0 <= |range0| && src1 <= |range1| && output.written == old(output.written) + out
      invariant Progress(Union, less, range0, range1, src0, src1, out)
      decreases |range0| - src0 + |range1| - src1
    {
      var take1 := Less(less, range1[src1], range0[src0]);
      var less0 := Less(less, range0[src0], range1[src1]);
      if take1 {
        NotBoth(less, range0[src0], range1[src1]);
        StepSecond(Union, less, range0, range1, src0, src1, out);
        output.Write(range1[src1]);
        out := out + [range1[src1]];
      } else {
        if less0 {
          StepFirst(Union, less, range0, range1, src0, src1, out);
        } else {
          StepBoth(Union, less, range0, range1, src0, src1, out);
        }
        output.Write(range0[src0]);
        out := out + [range0[src0]];
      }
      src0 := src0 + if take1 then 0 else 1;
      src1 := src1 + if less0 then 0 else 1;
    }
    out, src0 := CopyFirst(Union, less, range0, range1, src0, src1, output, out);
    out, src1 := CopySecond(Union, less, range0, range1, src0, src1, output, out);
    ProgressDone(Union, less, range0, range1, src0, src1, out);
  }

  lemma NotBoth<T(!new)>(less: (T, T) -> bool, x: T, y: T)
    requires StrictWeakOrder(less)
    ensures !(Less(less, x, y) && Less(less, y, x))
  {
  }

  method SetIntersection<T(!new)>(less: (T, T) -> bool, range0: seq<T>, range1: seq<T>, output: Output<T>) returns (ghost out: seq<T>)
    requires StrictWeakOrder(less) && Sorted(less, range0) && Sorted(less, range1)
    modifies output
    ensures output.written == old(output.written) + out
    ensures Combined(Intersection, less, range0, range1, out)
  {
    hide Progress, Combined, Sorted, StrictWeakOrder;
    var src0, src1 := 0, 0;
    out := [];
    ProgressStart(Intersection, less, range0, range1);
    while src0 != |range0| && src1 != |range1|
      invariant src0 <= |range0| && src1 <= |range1| && output.written == old(output.written) + out
      invariant Progress(Intersection, less, range0, range1, src0, src1, out)
      decreases |range0| - src0 + |range1| - src1
    {
      var lt := Less(less, range0[src0], range1[src1]);
      var gt := Less(less, range1[src1], range0[src0]);
      NotBoth(less, range0[src0], range1[src1]);
      if !lt && !gt {
        StepBoth(Intersection, less, range0, range1, src0, src1, out);
        output.Write(range0[src0]);
        out := out + [range0[src0]];
      } else if lt {
        StepFirst(Intersection, less, range0, range1, src0, src1, out);
      } else {
        StepSecond(Intersection, less, range0, range1, src0, src1, out);
      }
      src0 := src0 + if gt then 0 else 1;
      src1 := src1 + if lt then 0 else 1;
    }
    ProgressDone(Intersection, less, range0, range1, src0, src1, out);
  }

  method SetDifference<T(!new)>(less: (T, T) -> bool, range0: seq<T>, range1: seq<T>, output: Output<T>) returns (ghost out: seq<T>)
    requires StrictWeakOrder(less) && Sorted(less, range0) && Sorted(less, range1)
    modifies output
    ensures output.written == old(output.written) + out
    ensures Combined(Difference, less, range0, range1, out)
  {
    hide Progress, Combined, Sorted, StrictWeakOrder;
    var src0, src1 := 0, 0;
    out := [];
    ProgressStart(Difference, less, range0, range1);
    while src0 != |range0| && src1 != |range1|
      invariant src0 <= |range0| && src1 <= |range1| && output.written == old(output.written) + out
      invariant Progress(Difference, less, range0, range1, src0, src1, out)
      decreases |range0| - src0 + |range1| - src1
    {
      var lt := Less(less, range0[src0], range1[src1]);
      var gt := Less(less, range1[src1], range0[src0]);
      NotBoth(less, range0[src0], range1[src1]);
      if lt {
        StepFirst(Difference, less, range0, range1, src0, src1, out);
        output.Write(range0[src0]);
        out := out + [range0[src0]];
      } else if gt {
        StepSecond(Difference, less, range0, range1, src0, src1, out);
      } else {
        StepBoth(Difference, less, range0, range1, src0, src1, out);
      }
      src0 := src0 + if gt then 0 else 1;
      src1 := src1 + if lt then 0 else 1;
    }
    out, src0 := CopyFirst(Difference, less, range0, range1, src0, src1, output, out);
    ProgressDone(Difference, less, range0, range1, src0, src1, out);
  }

  // ---- Consecutive duplicates ----

  /** Each element is kept unless it equals the last one kept. */
  function Unique<T>(equal: (T, T) -> bool, s: seq<T>): (r: seq<T>)
    ensures |r| <= |s| && (r == [] <==> s == [])
  {
    if s == [] then []
    else
      var n := |s| - 1;
      var u := Unique(equal, s[..n]);
      if u != [] && equal(u[|u| - 1], s[n]) then u else u + [s[n]]
  }

  lemma UniqueNext<T>(equal: (T, T) -> bool, s: seq<T>, k: nat)
    requires 0 < k < |s|
    ensures var u := Unique(equal, s[..k]);
      u != [] && Unique(equal, s[..k + 1]) == if equal(u[|u| - 1], s[k]) then u else u + [s[k]]
  {
    hide Unique;
    UniqueLast(equal, s[..k + 1]);
    assert s[..k + 1][..k] == s[..k];
  }

  /** It starts with the first element and never holds two neighbours that are equal. */
  lemma {:induction false} UniqueNeighbors<T>(equal: (T, T) -> bool, s: seq<T>)
    ensures var u := Unique(equal, s);
      && (s != [] ==> u != [] && u[0] == s[0])
      && (forall k :: 0 < k < |u| ==> !equal(u[k - 1], u[k]))
  {
    if s != [] {
      hide Unique;
      UniqueNeighbors(equal, s[..|s| - 1]);
      UniqueLast(equal, s);
      UniqueEmptyIf(equal, s[..|s| - 1]);
    }
  }

  lemma UniqueEmptyIf<T>(equal: (T, T) -> bool, s: seq<T>)
    ensures Unique(equal, s) == [] <==> s == []
  {
  }

  function EquivalentCall<T>(less: (T, T) -> bool): (T, T) -> bool { (x, y) => Equivalent(less, x, y) }

  ghost predicate StrictlySorted<T>(less: (T, T) -> bool, s: seq<T>) {
    forall i, j :: 0 <= i < j < |s| ==> Less(less, s[i], s[j])
  }

  /** The first member of every class of `s`, if it has one. */
  ghost predicate FirstOfClasses<T(!new)>(less: (T, T) -> bool, s: seq<T>, u: seq<T>) {
    forall x :: FirstOfClass(less, s, u, x)
  }

  ghost predicate FirstOfClass<T>(less: (T, T) -> bool, s: seq<T>, u: seq<T>, x: T) {
    Class(less, x, u) == if Class(less, x, s) == [] then [] else Class(less, x, s)[..1]
  }

  /** Of a sorted range, the first of every class and nothing else is kept. */
  lemma {:induction false} UniqueKeepsFirsts<T(!new)>(less: (T, T) -> bool, s: seq<T>)
    requires StrictWeakOrder(less) && Sorted(less, s)
    ensures StrictlySorted(less, Unique(EquivalentCall(less), s))
    ensures s != [] ==> Equivalent(less, Unique(EquivalentCall(less), s)[|Unique(EquivalentCall(less), s)| - 1], s[|s| - 1])
    ensures FirstOfClasses(less, s, Unique(EquivalentCall(less), s))
  {
    hide FirstOfClasses, StrictWeakOrder, StrictlySorted, Unique, EquivalentCall, Equivalent;
    if s == [] {
      UniqueEmpty(EquivalentCall(less), s);
      UniqueNone(less);
      StrictlySortedEmpty(less);
    } else {
      var n := |s| - 1;
      var y, rest := s[n], s[..n];
      var u := Unique(EquivalentCall(less), rest);
      UniqueKeepsFirsts(less, rest);
      UniqueLast(EquivalentCall(less), s);
      if u != [] {
        EquivalentCallIs(less, u[|u| - 1], y);
      }
      assert s == rest + [y];
      EquivalentItself(less, y);
      if u != [] && Equivalent(less, u[|u| - 1], y) {
        UniqueDrop(less, rest, u, y);
      } else {
        if u != [] {
          LastBefore(less, u, rest[n - 1], y);
        }
        StrictlySortedAppend(less, u, y);
        UniqueAppend(less, rest, u, y);
      }
    }
  }

  lemma EquivalentItself<T(!new)>(less: (T, T) -> bool, y: T)
    requires StrictWeakOrder(less)
    ensures Equivalent(less, y, y)
  {
    hide StrictWeakOrder;
    StrictWeakOrderIrreflexive(less, y);
  }

  /** After the first element, each is kept that differs from the last one kept. */
  lemma UniqueLast<T>(equal: (T, T) -> bool, s: seq<T>)
    requires s != []
    ensures var y, u := s[|s| - 1], Unique(equal, s[..|s| - 1]);
      Unique(equal, s) == if u != [] && equal(u[|u| - 1], y) then u else u + [y]
  {
  }

  lemma EquivalentCallIs<T>(less: (T, T) -> bool, x: T, y: T)
    ensures EquivalentCall(less)(x, y) == Equivalent(less, x, y)
  {
  }

  /** An element in a new class comes after all that were kept. */
  lemma LastBefore<T(!new)>(less: (T, T) -> bool, u: seq<T>, before: T, y: T)
    requires StrictWeakOrder(less) && u != [] && StrictlySorted(less, u)
    requires Equivalent(less, u[|u| - 1], before) && !Less(less, y, before) && !Equivalent(less, u[|u| - 1], y)
    ensures forall k :: 0 <= k < |u| ==> Less(less, u[k], y)
  {
    hide StrictWeakOrder;
    var last := u[|u| - 1];
    NotLessTransitive(less, last, before, y);
    forall k | 0 <= k < |u| ensures Less(less, u[k], y) {
      if k < |u| - 1 {
        LessNotLess(less, u[k], last, y);
      }
    }
  }

  lemma StrictlySortedEmpty<T>(less: (T, T) -> bool)
    ensures StrictlySorted(less, [])
  {
  }

  lemma StrictlySortedAppend<T>(less: (T, T) -> bool, u: seq<T>, y: T)
    requires StrictlySorted(less, u) && forall k :: 0 <= k < |u| ==> Less(less, u[k], y)
    ensures StrictlySorted(less, u + [y])
  {
  }

  lemma UniqueNone<T(!new)>(less: (T, T) -> bool)
    ensures FirstOfClasses(less, [], [])
  {
    hide Class;
    forall x ensures FirstOfClass(less, [], [], x) {
      ClassEmpty(less, x);
    }
  }

  lemma UniqueDrop<T(!new)>(less: (T, T) -> bool, rest: seq<T>, u: seq<T>, y: T)
    requires StrictWeakOrder(less) && FirstOfClasses(less, rest, u) && u != [] && Equivalent(less, u[|u| - 1], y)
    ensures FirstOfClasses(less, rest + [y], u)
  {
    hide Class, StrictWeakOrder;
    forall x ensures FirstOfClass(less, rest + [y], u, x) {
      assert FirstOfClass(less, rest, u, x);
      ClassAppend(less, x, rest, y);
      EquivalentTogether(less, x, u[|u| - 1], y);
      ClassMember(less, x, u, u[|u| - 1]);
    }
  }

  lemma UniqueAppend<T(!new)>(less: (T, T) -> bool, rest: seq<T>, u: seq<T>, y: T)
    requires StrictWeakOrder(less) && forall k :: 0 <= k < |u| ==> Less(less, u[k], y)
    requires FirstOfClasses(less, rest, u)
    ensures FirstOfClasses(less, rest + [y], u + [y])
  {
    hide Class;
    forall x ensures FirstOfClass(less, rest + [y], u + [y], x) {
      assert FirstOfClass(less, rest, u, x);
      ClassAppend(less, x, u, y);
      ClassAppend(less, x, rest, y);
      if Equivalent(less, x, y) && Class(less, x, u) != [] {
        var z := Class(less, x, u)[0];
        ClassMember(less, x, u, z);
        EquivalentTogether(less, z, x, y);
        StrictWeakOrderIrreflexive(less, z);
      }
    }
  }

  /** With `was[begin..src]` looked at, what is kept of it ends at `dst` and the rest is untouched. */
  ghost predicate Compacted<T>(equal: (T, T) -> bool, was: seq<T>, now: seq<T>, begin: nat, dst: nat, src: nat) {
    && begin <= dst < src <= |was| == |now|
    && now[begin..dst + 1] == Unique(equal, was[begin..src])
    && now[..begin] == was[..begin] && now[src..] == was[src..]
  }

  lemma CompactedStart<T>(equal: (T, T) -> bool, was: seq<T>, begin: nat)
    requires begin < |was|
    ensures Compacted(equal, was, was, begin, begin, begin + 1)
  {
    var s := was[begin..begin + 1];
    assert s[..0] == [] && Unique(equal, s[..0]) == [];
  }

  lemma CompactedStep<T>(equal: (T, T) -> bool, was: seq<T>, now: seq<T>, begin: nat, dst: nat, src: nat)
    requires Compacted(equal, was, now, begin, dst, src) && src < |was|
    ensures if equal(now[dst], now[src]) then Compacted(equal, was, now, begin, dst, src + 1)
      else Compacted(equal, was, now[dst + 1 := now[src]], begin, dst + 1, src + 1)
  {
    hide Unique;
    UniqueRange(equal, was, begin, src);
    assert now[src] == now[src..][0] == was[src..][0] == was[src];
    assert now[begin..dst + 1][dst - begin] == now[dst];
    assert now[src + 1..] == now[src..][1..] == was[src..][1..] == was[src + 1..];
    StoreKept(now, begin, dst, src);
  }

  lemma UniqueRange<T>(equal: (T, T) -> bool, was: seq<T>, begin: nat, src: nat)
    requires begin < src < |was|
    ensures var u := Unique(equal, was[begin..src]);
      u != [] && Unique(equal, was[begin..src + 1]) == if equal(u[|u| - 1], was[src]) then u else u + [was[src]]
  {
    hide Unique;
    var s, n := was[begin..src + 1], src - begin;
    UniqueNext(equal, s, n);
    assert s[..n] == was[begin..src] && s[..n + 1] == s && s[n] == was[src];
  }

  /** Storing an element behind those kept. */
  lemma StoreKept<T>(now: seq<T>, begin: nat, dst: nat, src: nat)
    requires begin <= dst < src < |now|
    ensures var next := now[dst + 1 := now[src]];
      && next[begin..dst + 2] == now[begin..dst + 1] + [now[src]]
      && next[src + 1..] == now[src + 1..] && next[..begin] == now[..begin]
  {
  }

  /** `hxunique`: nothing moves until the first duplicate is found. */
  method UniqueInPlace<T>(a: array<T>, begin: nat, end: nat, equal: (T, T) -> bool) returns (newEnd: nat)
    requires begin <= end <= a.Length
    modifies a
    ensures begin <= newEnd <= end && a[begin..newEnd] == Unique(equal, old(a[begin..end]))
    ensures a[..begin] == old(a[..begin]) && a[end..] == old(a[end..])
  {
    hide Unique, Compacted;
    ghost var was := a[..];
    if begin == end {
      UniqueEmpty(equal, a[begin..end]);
      return end;
    }
    var dst, src := begin, begin + 1;
    CompactedStart(equal, was, begin);
    while src != end
      invariant begin <= dst == src - 1 < end && a[..] == was
      invariant Compacted(equal, was, a[..], begin, dst, src)
      decreases end - src
    {
      CompactedStep(equal, was, a[..], begin, dst, src);
      if equal(a[dst], a[src]) {
        break;
      }
      assert was[dst + 1 := was[src]] == was;
      src, dst := src + 1, dst + 1;
    }
    if src == end {
      CompactedEnd(equal, was, a[..], begin, dst, end);
      return end;
    }
    src := src + 1;
    while src != end
      invariant begin <= dst < src <= end
      invariant Compacted(equal, was, a[..], begin, dst, src)
      decreases end - src
    {
      CompactedStep(equal, was, a[..], begin, dst, src);
      if !equal(a[dst], a[src]) {
        ghost var before := a[..];
        dst := dst + 1;
        a[dst] := a[src];
        assert a[..] == before[dst := before[src]];
      }
      src := src + 1;
    }
    newEnd := dst + 1;
    CompactedEnd(equal, was, a[..], begin, dst, end);
    assert a[..][begin..newEnd] == a[begin..newEnd];
  }

  lemma UniqueEmpty<T>(equal: (T, T) -> bool, s: seq<T>)
    requires s == []
    ensures Unique(equal, s) == s
  {
  }

  lemma CompactedEnd<T>(equal: (T, T) -> bool, was: seq<T>, now: seq<T>, begin: nat, dst: nat, end: nat)
    requires Compacted(equal, was, now, begin, dst, end)
    ensures now[begin..dst + 1] == Unique(equal, was[begin..end])
    ensures now[..begin] == was[..begin] && now[end..] == was[end..]
  {
  }
}

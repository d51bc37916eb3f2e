/**
 One counting pass of the radix sorts on sequences: digit buckets, histograms
 turned into bucket starts, and the state of a scatter half way through.
 */
module RadixBuckets {
  import opened Order
  import opened RadixOrder

  /** `hxhistogram_t`, an unsigned 32-bit counter. */
  type Counter = x: int | 0 <= x < 0x1_0000_0000

  // ---- Buckets ----

  /** The records of `s` with digit `d`, in order. */
  ghost function Bucket<V>(f: Field, d: nat, s: seq<Entry<V>>): (r: seq<Entry<V>>) {
    Filter((e: Entry<V>) => Index(f, e.key) == d, s)
  }

  /** The buckets below `d`, one after the other. */
  ghost function Laid<V>(f: Field, s: seq<Entry<V>>, d: nat): (r: seq<Entry<V>>) {
    if d == 0 then [] else Laid(f, s, d - 1) + Bucket(f, d - 1, s)
  }

  /** Where bucket `d` starts. */
  ghost function Start<V>(f: Field, s: seq<Entry<V>>, d: nat): (r: nat) {
    |Laid(f, s, d)|
  }

  lemma StartNext<V>(f: Field, s: seq<Entry<V>>, d: nat)
    ensures Start(f, s, 0) == 0
    ensures Start(f, s, d + 1) == Start(f, s, d) + |Bucket(f, d, s)|
  {
  }

  lemma BucketMember<V>(f: Field, d: nat, s: seq<Entry<V>>, e: Entry<V>)
    ensures e in Bucket(f, d, s) <==> e in s && Index(f, e.key) == d
  {
    FilterMember((e: Entry<V>) => Index(f, e.key) == d, s, e);
  }

  lemma BucketSnoc<V>(f: Field, d: nat, s: seq<Entry<V>>, e: Entry<V>)
    ensures Bucket(f, d, s + [e]) == if Index(f, e.key) == d then Bucket(f, d, s) + [e] else Bucket(f, d, s)
  {
    assert (s + [e])[..|s|] == s;
  }

  lemma {:induction false} LaidMember<V>(f: Field, s: seq<Entry<V>>, d: nat, e: Entry<V>)
    ensures e in Laid(f, s, d) <==> e in s && Index(f, e.key) < d
  {
    if d > 0 {
      LaidMember(f, s, d - 1, e);
      BucketMember(f, d - 1, s, e);
    }
  }

  lemma ConcatSorted<T>(less: (T, T) -> bool, s: seq<T>, t: seq<T>)
    requires Sorted(less, s) && Sorted(less, t)
    requires forall a, b :: a in s && b in t ==> !Less(less, b, a)
    ensures Sorted(less, s + t)
  {
    hide Less;
  }

  lemma BucketFlat<V>(f: Field, d: nat, s: seq<Entry<V>>)
    ensures Sorted(FieldLess(f), Bucket(f, d, s))
  {
    hide Bucket, Index;
    var b := Bucket(f, d, s);
    forall i, j | 0 <= i < j < |b| ensures !Less(FieldLess(f), b[j], b[i]) {
      BucketMember(f, d, s, b[i]);
      BucketMember(f, d, s, b[j]);
    }
  }

  lemma {:induction false} LaidSorted<V>(f: Field, s: seq<Entry<V>>, d: nat)
    ensures Sorted(FieldLess(f), Laid(f, s, d))
  {
    if d > 0 {
      LaidSorted(f, s, d - 1);
      BucketFlat(f, d - 1, s);
      LaidBeforeBucket(f, s, d - 1);
      ConcatSorted(FieldLess(f), Laid(f, s, d - 1), Bucket(f, d - 1, s));
    }
  }

  lemma LaidBeforeBucket<V>(f: Field, s: seq<Entry<V>>, d: nat)
    ensures forall a, b :: a in Laid(f, s, d) && b in Bucket(f, d, s) ==> !Less(FieldLess(f), b, a)
  {
    hide Laid, Bucket, Index;
    forall a, b | a in Laid(f, s, d) && b in Bucket(f, d, s) ensures !Less(FieldLess(f), b, a) {
      LaidMember(f, s, d, a);
      BucketMember(f, d, s, b);
    }
  }

  lemma {:induction false} LaidClass<V(!new)>(f: Field, s: seq<Entry<V>>, d: nat, x: Entry<V>)
    ensures Class(FieldLess(f), x, Laid(f, s, d)) == if Index(f, x.key) < d then Class(FieldLess(f), x, s) else []
  {
    if d > 0 {
      LaidClass(f, s, d - 1, x);
      ClassConcat(FieldLess(f), x, Laid(f, s, d - 1), Bucket(f, d - 1, s));
      BucketClass(f, s, d - 1, x);
    }
  }

  lemma BucketClass<V(!new)>(f: Field, s: seq<Entry<V>>, d: nat, x: Entry<V>)
    ensures Class(FieldLess(f), x, Bucket(f, d, s)) == if Index(f, x.key) == d then Class(FieldLess(f), x, s) else []
  {
    hide Index;
    var c := (y: Entry<V>) => Equivalent(FieldLess(f), x, y);
    var b := (e: Entry<V>) => Index(f, e.key) == d;
    if Index(f, x.key) == d {
      FilterFilter(c, b, c, s);
    } else {
      var none := (e: Entry<V>) => false;
      FilterFilter(c, b, none, s);
      FilterNone(none, s);
    }
  }

  /** Laying out all the buckets is the stable sort by the digit. */
  lemma LaidIsStableSort<V(!new)>(f: Field, s: seq<Entry<V>>)
    ensures Laid(f, s, Buckets(f)) == StableSort(FieldLess(f), s)
    ensures Start(f, s, Buckets(f)) == |s|
  {
    hide Index, Laid, StableSort, Buckets;
    var t := Laid(f, s, Buckets(f));
    FieldLessOrders<V>(f);
    LaidSorted(f, s, Buckets(f));
    forall x ensures Class(FieldLess(f), x, s) == Class(FieldLess(f), x, t) {
      LaidClass(f, s, Buckets(f), x);
      IndexMonotone(f, x.key, x.key);
    }
    StableSortUnique(FieldLess(f), s, t);
    StableSortCorrect(FieldLess(f), s);
  }

  lemma {:induction false} StartMonotone<V>(f: Field, s: seq<Entry<V>>, d: nat, e: nat)
    requires d <= e
    ensures Start(f, s, d) <= Start(f, s, e)
    decreases e - d
  {
    if d < e {
      StartMonotone(f, s, d, e - 1);
    }
  }

  /** Permuting the records moves no bucket. */
  lemma {:induction false} StartPermutes<V(!new)>(f: Field, s: seq<Entry<V>>, t: seq<Entry<V>>, d: nat)
    requires multiset(s) == multiset(t)
    ensures Start(f, s, d) == Start(f, t, d)
  {
    if d > 0 {
      StartPermutes(f, s, t, d - 1);
      var p := (e: Entry<V>) => Index(f, e.key) == d - 1;
      forall x ensures multiset(Filter(p, s))[x] == multiset(Filter(p, t))[x] {
        FilterMultiset(p, s, x);
        FilterMultiset(p, t, x);
      }
      assert multiset(Bucket(f, d - 1, s)) == multiset(Bucket(f, d - 1, t));
      assert |Bucket(f, d - 1, s)| == |multiset(Bucket(f, d - 1, s))|;
      assert |Bucket(f, d - 1, t)| == |multiset(Bucket(f, d - 1, t))|;
    }
  }

  // ---- Histograms ----

  /** `h` counts the records of `s` by digit. */
  ghost predicate Counted<V>(f: Field, s: seq<Entry<V>>, h: seq<Counter>) {
    |h| == Buckets(f) && forall d: nat :: d < |h| ==> h[d] == |Bucket(f, d, s)|
  }

  lemma CountedStep<V>(f: Field, s: seq<Entry<V>>, h: seq<Counter>, e: Entry<V>)
    requires Counted(f, s, h) && |s| < 0xffff_ffff
    ensures Index(f, e.key) < |h| && h[Index(f, e.key)] <= |s|
    ensures Counted(f, s + [e], h[Index(f, e.key) := h[Index(f, e.key)] + 1])
  {
    hide Index;
    IndexMonotone(f, e.key, e.key);
    FilterLength((x: Entry<V>) => Index(f, x.key) == Index(f, e.key), s);
    forall d: nat | d < |h| ensures h[Index(f, e.key) := h[Index(f, e.key)] + 1][d] == |Bucket(f, d, s + [e])| {
      BucketSnoc(f, d, s, e);
    }
  }

  lemma {:induction false} FilterLength<T>(p: T -> bool, s: seq<T>)
    ensures |Filter(p, s)| <= |s|
    ensures |Filter(p, s)| == |s| <==> forall x :: x in s ==> p(x)
  {
    if s != [] {
      assert s == s[..|s| - 1] + [s[|s| - 1]];
      FilterLength(p, s[..|s| - 1]);
    }
  }

  /** `h` holds bucket starts below `i` and counts from `i` on. */
  ghost predicate Prefixed<V>(f: Field, s: seq<Entry<V>>, h: seq<Counter>, i: nat) {
    && |h| == Buckets(f)
    && (forall d: nat :: d < i && d < |h| ==> h[d] == Start(f, s, d))
    && (forall d: nat :: i <= d < |h| ==> h[d] == |Bucket(f, d, s)|)
  }

  lemma PrefixedStep<V(!new)>(f: Field, s: seq<Entry<V>>, h: seq<Counter>, i: nat, sum: Counter)
    requires Prefixed(f, s, h, i) && i < |h| && sum == Start(f, s, i) && |s| < 0xffff_ffff
    ensures h[i] + sum < 0x1_0000_0000 && h[i] + sum == Start(f, s, i + 1)
    ensures Prefixed(f, s, h[i := sum], i + 1)
  {
    hide Index, Bucket, Laid, Start, StableSort, Buckets;
    StartNext(f, s, i);
    StartMonotone(f, s, i + 1, Buckets(f));
    LaidIsStableSort(f, s);
  }

  // ---- The scatter pass ----

  /** The next free slot of bucket `d` once `done` has been scattered. */
  ghost function Cursor<V>(f: Field, s: seq<Entry<V>>, done: seq<Entry<V>>, d: nat): nat {
    Start(f, s, d) + |Bucket(f, d, done)|
  }

  /** Slot range of bucket `d` holds, in order, what has been scattered to it. */
  ghost predicate Placed<V>(f: Field, s: seq<Entry<V>>, done: seq<Entry<V>>, dst: seq<Entry<V>>, d: nat) {
    Cursor(f, s, done, d) <= |dst| && dst[Start(f, s, d)..Cursor(f, s, done, d)] == Bucket(f, d, done)
  }

  /** The first records `done` of `s` are scattered into `dst`; `h` holds the free slots. */
  ghost predicate Scattered<V>(f: Field, s: seq<Entry<V>>, done: seq<Entry<V>>, h: seq<Counter>, dst: seq<Entry<V>>) {
    && |h| == Buckets(f) && |dst| == |s|
    && (forall d: nat :: d < |h| ==> h[d] == Cursor(f, s, done, d))
    && (forall d: nat :: d < |h| ==> Placed(f, s, done, dst, d))
  }

  /** A bucket that still has a record to come has room before the next one. */
  lemma BucketRoom<V(!new)>(f: Field, s: seq<Entry<V>>, i: nat)
    requires i < |s|
    ensures Cursor(f, s, s[..i], Index(f, s[i].key)) < Start(f, s, Index(f, s[i].key) + 1) <= |s|
  {
    hide Index;
    var d := Index(f, s[i].key);
    var p := (e: Entry<V>) => Index(f, e.key) == d;
    assert s == s[..i] + [s[i]] + s[i + 1..];
    FilterConcat(p, s[..i] + [s[i]], s[i + 1..]);
    BucketSnoc(f, d, s[..i], s[i]);
    StartNext(f, s, d);
    IndexMonotone(f, s[i].key, s[i].key);
    StartMonotone(f, s, d + 1, Buckets(f));
    LaidIsStableSort(f, s);
  }

  lemma BucketWithin<V(!new)>(f: Field, s: seq<Entry<V>>, i: nat, d: nat)
    requires i <= |s|
    ensures |Bucket(f, d, s[..i])| <= |Bucket(f, d, s)|
  {
    var p := (e: Entry<V>) => Index(f, e.key) == d;
    assert s == s[..i] + s[i..];
    FilterConcat(p, s[..i], s[i..]);
  }

  /** The slots of bucket `d` do not hold the cursor of another bucket `x`. */
  lemma CursorsApart<V(!new)>(f: Field, s: seq<Entry<V>>, i: nat, d: nat)
    requires i < |s| && d != Index(f, s[i].key)
    ensures var k := Cursor(f, s, s[..i], Index(f, s[i].key));
      k < Start(f, s, d) || Cursor(f, s, s[..i], d) <= k
  {
    hide Index, Bucket, Start;
    var x := Index(f, s[i].key);
    BucketRoom(f, s, i);
    BucketWithin(f, s, i, d);
    StartNext(f, s, d);
    if d < x {
      StartMonotone(f, s, d + 1, x);
    } else {
      StartMonotone(f, s, x + 1, d);
    }
  }

  /** Placing a record fills the end of its own bucket and touches no other. */
  lemma PlacedStep<V(!new)>(f: Field, s: seq<Entry<V>>, done: seq<Entry<V>>, e: Entry<V>, k: nat, dst: seq<Entry<V>>, d: nat)
    requires k == Cursor(f, s, done, Index(f, e.key)) < |dst|
    requires d == Index(f, e.key) || k < Start(f, s, d) || Cursor(f, s, done, d) <= k
    requires Placed(f, s, done, dst, d)
    ensures Placed(f, s, done + [e], dst[k := e], d)
  {
    hide Index, Bucket, Start;
    BucketSnoc(f, d, done, e);
    if d == Index(f, e.key) {
      SliceExtended(dst, Start(f, s, d), k, e);
    } else {
      SliceUntouched(dst, Start(f, s, d), Cursor(f, s, done, d), k, e);
    }
  }

  lemma SliceExtended<T>(w: seq<T>, lo: nat, hi: nat, x: T)
    requires lo <= hi < |w|
    ensures w[hi := x][lo..hi + 1] == w[lo..hi] + [x]
  {
  }

  lemma SliceUntouched<T>(w: seq<T>, lo: nat, hi: nat, k: nat, x: T)
    requires lo <= hi <= |w| && k < |w| && (k < lo || hi <= k)
    ensures w[k := x][lo..hi] == w[lo..hi]
  {
  }

  lemma ScatteredStep<V(!new)>(f: Field, s: seq<Entry<V>>, i: nat, h: seq<Counter>, dst: seq<Entry<V>>)
    requires i < |s| < 0xffff_ffff
    requires Scattered(f, s, s[..i], h, dst)
    ensures var d := Index(f, s[i].key);
      d < |h| && h[d] < |dst| && Scattered(f, s, s[..i + 1], h[d := h[d] + 1], dst[h[d] := s[i]])
  {
    hide Index, Bucket, Start, Placed;
    var x := Index(f, s[i].key);
    IndexMonotone(f, s[i].key, s[i].key);
    BucketRoom(f, s, i);
    assert s[..i + 1] == s[..i] + [s[i]];
    var next, done, out := h[x := h[x] + 1], s[..i + 1], dst[h[x] := s[i]];
    forall d: nat | d < |next| ensures next[d] == Cursor(f, s, done, d) {
      BucketSnoc(f, d, s[..i], s[i]);
    }
    forall d: nat | d < |next| ensures Placed(f, s, done, out, d) {
      if d != x {
        CursorsApart(f, s, i, d);
      }
      PlacedStep(f, s, s[..i], s[i], h[x], dst, d);
    }
  }

  lemma {:induction false} PlacedAll<V(!new)>(f: Field, s: seq<Entry<V>>, dst: seq<Entry<V>>, d: nat)
    requires forall e: nat :: e < d ==> Placed(f, s, s, dst, e)
    ensures Start(f, s, d) <= |dst| && dst[..Start(f, s, d)] == Laid(f, s, d)
  {
    if d > 0 {
      PlacedAll(f, s, dst, d - 1);
      assert Placed(f, s, s, dst, d - 1);
      StartNext(f, s, d - 1);
      hide Bucket;
      var x, y := Start(f, s, d - 1), Start(f, s, d);
      assert dst[..y] == dst[..x] + dst[x..y];
    }
  }

  lemma ScatteredAll<V(!new)>(f: Field, s: seq<Entry<V>>, h: seq<Counter>, dst: seq<Entry<V>>)
    requires Scattered(f, s, s, h, dst)
    ensures dst == StableSort(FieldLess(f), s)
  {
    hide Placed, Laid, StableSort, Cursor;
    PlacedAll(f, s, dst, Buckets(f));
    LaidIsStableSort(f, s);
  }

  lemma ScatteredNone<V(!new)>(f: Field, s: seq<Entry<V>>, t: seq<Entry<V>>, h: seq<Counter>, dst: seq<Entry<V>>)
    requires multiset(s) == multiset(t) && |dst| == |s|
    requires Prefixed(f, t, h, Buckets(f))
    ensures Scattered(f, s, [], h, dst)
  {
    hide Index, Bucket, Laid, Start, StableSort, Buckets, Cursor, Placed;
    LaidIsStableSort(f, s);
    forall d: nat | d < |h| ensures h[d] == Cursor(f, s, [], d) && Placed(f, s, [], dst, d) {
      StartPermutes(f, s, t, d);
      StartMonotone(f, s, d, Buckets(f));
      NonePlaced(f, s, dst, d);
    }
  }

  lemma NonePlaced<V>(f: Field, s: seq<Entry<V>>, dst: seq<Entry<V>>, d: nat)
    requires Start(f, s, d) <= |dst|
    ensures Cursor(f, s, [], d) == Start(f, s, d) && Placed(f, s, [], dst, d)
  {
    hide Index, Start;
    assert Bucket<V>(f, d, []) == [];
  }
}

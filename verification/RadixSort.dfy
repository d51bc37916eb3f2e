/**
 The LSD radix sorts: histograms of every field built in one sweep, constant
 fields skipped, and one scatter pass a field between two or three buffers.
 */
module RadixSort {
  import opened Order
  import opened InsertionSorting
  import opened RadixOrder
  import opened RadixBuckets
  import opened Settings

  // ---- Histograms ----

  method CountKey<V>(h: array<Counter>, f: Field, key: bv32, ghost s: seq<Entry<V>>, ghost e: Entry<V>)
    requires Counted(f, s, h[..]) && |s| < 0xffff_ffff && e.key == key
    modifies h
    ensures Counted(f, s + [e], h[..])
  {
    hide Counted, Index;
    CountedStep(f, s, h[..], e);
    var d := Index(f, key);
    assert h[..][d] == h[d];
    h[d] := h[d] + 1;
  }

  lemma CountedNone<V>(f: Field, h: seq<Counter>)
    requires |h| == Buckets(f) && forall d :: 0 <= d < |h| ==> h[d] == 0
    ensures Counted<V>(f, [], h)
  {
  }

  /** Every record has the same digit. */
  ghost predicate Constant<V>(f: Field, s: seq<Entry<V>>) {
    forall e, e' :: e in s && e' in s ==> Index(f, e.key) == Index(f, e'.key)
  }

  /** A bucket that holds every key shows in the histogram. */
  lemma ConstantCounted<V>(f: Field, s: seq<Entry<V>>, h: seq<Counter>)
    requires s != [] && Counted(f, s, h)
    ensures Index(f, s[0].key) < |h|
    ensures h[Index(f, s[0].key)] == |s| <==> Constant(f, s)
  {
    hide Index;
    var d := Index(f, s[0].key);
    IndexMonotone(f, s[0].key, s[0].key);
    FilterLength((e: Entry<V>) => Index(f, e.key) == d, s);
    assert s[0] in s;
  }

  /** One step of turning counts into starts. */
  method PrefixStep<V(!new)>(h: array<Counter>, f: Field, i: nat, sum: Counter, ghost s: seq<Entry<V>>) returns (next: Counter)
    requires i < h.Length == Buckets(f) && |s| < 0xffff_ffff
    requires Prefixed(f, s, h[..], i) && sum == Start(f, s, i)
    modifies h
    ensures Prefixed(f, s, h[..], i + 1) && next == Start(f, s, i + 1)
  {
    hide Prefixed, Start, Index;
    PrefixedStep(f, s, h[..], i, sum);
    assert h[..][i] == h[i];
    next := h[i] + sum;
    h[i] := sum;
  }

  lemma PrefixedNone<V>(f: Field, s: seq<Entry<V>>, h: seq<Counter>)
    requires Counted(f, s, h)
    ensures Prefixed(f, s, h, 0) && Start(f, s, 0) == 0
  {
  }

  // ---- Passes ----

  /**
   One scatter pass: `dst` receives `src` stably sorted by the digit. The starts
   in `h` were computed up front, from the records in their original order.
   */
  method Scatter<V(!new)>(src: array<Entry<V>>, dst: array<Entry<V>>, h: array<Counter>, f: Field, ghost was: seq<Entry<V>>)
    requires src != dst && src.Length == dst.Length < 0xffff_ffff
    requires multiset(src[..]) == multiset(was)
    requires Prefixed(f, was, h[..], Buckets(f))
    modifies dst, h
    ensures dst[..] == StableSort(FieldLess(f), src[..])
  {
    hide Scattered, Prefixed, Index, StableSort, FieldLess, Buckets;
    ghost var s := src[..];
    ScatteredNone(f, s, was, h[..], dst[..]);
    assert s[..0] == [];
    var i := 0;
    while i < src.Length
      invariant 0 <= i <= src.Length
      invariant src[..] == s
      invariant Scattered(f, s, s[..i], h[..], dst[..])
    {
      ScatteredStep(f, s, i, h[..], dst[..]);
      assert src[i] == s[i];
      ScatterOne(dst, h, f, src[i]);
      i := i + 1;
    }
    assert s[..i] == s;
    ScatteredAll(f, s, h[..], dst[..]);
  }

  /** `dst[hist[digit]++] = record`. */
  method ScatterOne<V>(dst: array<Entry<V>>, h: array<Counter>, f: Field, e: Entry<V>)
    requires Index(f, e.key) < h.Length
    requires h[..][Index(f, e.key)] < dst.Length && dst.Length < 0xffff_ffff
    modifies dst, h
    ensures var d := Index(f, e.key);
      && h[..] == old(h[..])[d := old(h[..])[d] + 1]
      && dst[..] == old(dst[..])[old(h[..])[d] := e]
  {
    hide Index;
    var d := Index(f, e.key);
    dst[h[d]] := e;
    h[d] := h[d] + 1;
  }

  lemma KeysCompare<V>(x: Entry<V>, y: Entry<V>)
    ensures Less(KeyLess(), x, y) <==> Value(x.key) < Value(y.key)
  {
    hide Below, Value;
    BelowIsValue(x.key, y.key);
  }

  /** Records of one key are one class, or there are none. */
  lemma KeyClass<V(!new)>(s: seq<Entry<V>>, r: seq<Entry<V>>, key: nat)
    requires SameClasses(KeyLess(), s, r) && multiset(s) == multiset(r)
    ensures Filter((e: Entry<V>) => Value(e.key) == key, r) == Filter((e: Entry<V>) => Value(e.key) == key, s)
  {
    hide Filter, KeyLess, Value, Less;
    var p := (e: Entry<V>) => Value(e.key) == key;
    if e :| e in s && Value(e.key) == key {
      assert Class(KeyLess(), e, s) == Class(KeyLess(), e, r);
      var q := (x: Entry<V>) => Equivalent(KeyLess(), e, x);
      forall x: Entry<V> ensures p(x) == q(x) {
        KeysCompare(e, x);
        KeysCompare(x, e);
      }
      FilterAgree(q, p, s);
      FilterAgree(q, p, r);
    } else {
      forall i | 0 <= i < |r| ensures !p(r[i]) {
        assert r[i] in multiset(s);
      }
      FilterNone(p, s);
      FilterNone(p, r);
    }
  }

  /**
   What the sorts leave, told by the numbers that the keys are: they never
   decrease, the records are the same, and those of each key are as they came.
   */
  lemma SortedByKeyPlain<V(!new)>(s: seq<Entry<V>>, key: nat)
    ensures var r := StableSort(KeyLess(), s);
      && |r| == |s| && multiset(r) == multiset(s)
      && (forall i, j :: 0 <= i < j < |r| ==> Value(r[i].key) <= Value(r[j].key))
      && Filter((e: Entry<V>) => Value(e.key) == key, r) == Filter((e: Entry<V>) => Value(e.key) == key, s)
  {
    hide StableSort, KeyLess, Less, Filter, SameClasses, StrictWeakOrder, Value;
    KeyLessOrders<V>();
    StableSortCorrect(KeyLess(), s);
    var r := StableSort(KeyLess(), s);
    forall i, j | 0 <= i < j < |r| ensures Value(r[i].key) <= Value(r[j].key) {
      KeysCompare(r[j], r[i]);
    }
    KeyClass(s, r, key);
  }

  /** `w` is `was` stably sorted by the key bits under `mask`. */
  ghost predicate SortedBits<V>(mask: bv32, was: seq<Entry<V>>, w: seq<Entry<V>>) {
    w == StableSort(MaskLess(mask), was)
  }

  lemma BitsStart<V(!new)>(was: seq<Entry<V>>)
    ensures SortedBits(0, was, was)
  {
    PassesStart(was);
  }

  lemma BitsPermute<V(!new)>(mask: bv32, was: seq<Entry<V>>, w: seq<Entry<V>>)
    requires SortedBits(mask, was, w)
    ensures multiset(w) == multiset(was)
    ensures |w| == |was|
  {
    MaskLessOrders<V>(mask);
    StableSortCorrect(MaskLess(mask), was);
  }

  lemma BitsPass<V(!new)>(f: Field, was: seq<Entry<V>>, w: seq<Entry<V>>)
    requires SortedBits(MaskBefore(f), was, w)
    ensures SortedBits(MaskThrough(f), was, StableSort(FieldLess(f), w))
  {
    PassSorts(f, was);
  }

  /** A pass over a constant field is the identity and may be skipped. */
  lemma BitsSkip<V(!new)>(f: Field, was: seq<Entry<V>>, w: seq<Entry<V>>)
    requires SortedBits(MaskBefore(f), was, w) && Constant(f, was)
    ensures SortedBits(MaskThrough(f), was, w)
  {
    hide Index;
    BitsPermute(MaskBefore(f), was, w);
    FieldLessOrders<V>(f);
    forall i, j | 0 <= i < j < |w| ensures !Less(FieldLess(f), w[j], w[i]) {
      assert w[i] in multiset(w) && w[j] in multiset(w);
    }
    FlatSort(FieldLess(f), w);
    PassSorts(f, was);
  }

  /** A pass on `f` from `src` to `dst`, or none when the field is constant; `out` holds the records after it. */
  method RunPass<V(!new)>(src: array<Entry<V>>, dst: array<Entry<V>>, h: array<Counter>, f: Field, skip: bool, ghost was: seq<Entry<V>>)
    returns (out: array<Entry<V>>)
    requires src != dst && src.Length == dst.Length < 0xffff_ffff
    requires SortedBits(MaskBefore(f), was, src[..])
    requires Prefixed(f, was, h[..], Buckets(f))
    requires skip == Constant(f, was)
    modifies dst, h
    ensures out == if skip then src else dst
    ensures SortedBits(MaskThrough(f), was, out[..])
  {
    hide Prefixed, Constant, SortedBits, StableSort, FieldLess;
    BitsPermute(MaskBefore(f), was, src[..]);
    if skip {
      BitsSkip(f, was, src[..]);
      out := src;
    } else {
      BitsPass(f, was, src[..]);
      Scatter(src, dst, h, f, was);
      out := dst;
    }
  }

  lemma BitsEnd<V(!new)>(was: seq<Entry<V>>, w: seq<Entry<V>>)
    requires SortedBits(0xffffffff, was, w)
    ensures w == StableSort(KeyLess(), was)
  {
    PassesEnd(was);
  }

  method CopyBack<V>(src: array<Entry<V>>, dst: array<Entry<V>>)
    requires src != dst && src.Length == dst.Length
    modifies dst
    ensures dst[..] == src[..]
  {
    var i := 0;
    while i < src.Length
      invariant 0 <= i <= src.Length
      invariant dst[..i] == src[..i]
    {
      dst[i] := src[i];
      i := i + 1;
    }
  }

  lemma SortedToWhole<T>(less: (T, T) -> bool, s: seq<T>)
    ensures SortedTo(less, s, 0, |s|) == StableSort(less, s)
  {
    assert s[0..|s|] == s && s[..0] == [] && s[|s|..] == [];
  }

  ghost function Passes(skip: bool): nat {
    if skip then 0 else 1
  }

  /** How many bytes of the keys need a pass. */
  ghost function PassCount8<V>(s: seq<Entry<V>>): nat {
    Passes(Constant(Byte0, s)) + Passes(Constant(Byte1, s)) + Passes(Constant(Byte2, s)) + Passes(Constant(Byte3, s))
  }

  /** How many of the 11-, 11- and 10-bit fields need a pass. */
  ghost function PassCount11<V>(s: seq<Entry<V>>): nat {
    Passes(Constant(Low11, s)) + Passes(Constant(Mid11, s)) + Passes(Constant(High10, s))
  }

  // ---- The 8-bit sort ----

  /** The histograms of the four bytes, as bucket starts, and which passes may be skipped. */
  method Histograms8<V(!new)>(a: array<Entry<V>>, h0: array<Counter>, h1: array<Counter>, h2: array<Counter>, h3: array<Counter>)
    returns (skip0: bool, skip1: bool, skip2: bool, skip3: bool)
    requires 0 < a.Length < 0xffff_ffff
    requires h0 != h1 && h0 != h2 && h0 != h3 && h1 != h2 && h1 != h3 && h2 != h3
    requires h0.Length == h1.Length == h2.Length == h3.Length == 256
    requires forall d :: 0 <= d < 256 ==> h0[d] == 0 && h1[d] == 0 && h2[d] == 0 && h3[d] == 0
    modifies h0, h1, h2, h3
    ensures Prefixed(Byte0, a[..], h0[..], 256) && Prefixed(Byte1, a[..], h1[..], 256)
    ensures Prefixed(Byte2, a[..], h2[..], 256) && Prefixed(Byte3, a[..], h3[..], 256)
    ensures skip0 == Constant(Byte0, a[..]) && skip1 == Constant(Byte1, a[..])
    ensures skip2 == Constant(Byte2, a[..]) && skip3 == Constant(Byte3, a[..])
  {
    hide Counted, Prefixed, Constant, Index, Start;
    ghost var s := a[..];
    CountedNone<V>(Byte0, h0[..]);
    CountedNone<V>(Byte1, h1[..]);
    CountedNone<V>(Byte2, h2[..]);
    CountedNone<V>(Byte3, h3[..]);
    var i := 0;
    assert s[..0] == [];
    while i < a.Length
      invariant 0 <= i <= a.Length
      invariant Counted(Byte0, s[..i], h0[..]) && Counted(Byte1, s[..i], h1[..])
      invariant Counted(Byte2, s[..i], h2[..]) && Counted(Byte3, s[..i], h3[..])
    {
      assert s[..i + 1] == s[..i] + [s[i]];
      var x := a[i].key;
      assert x == s[i].key;
      CountKey(h0, Byte0, x, s[..i], s[i]);
      CountKey(h1, Byte1, x, s[..i], s[i]);
      CountKey(h2, Byte2, x, s[..i], s[i]);
      CountKey(h3, Byte3, x, s[..i], s[i]);
      i := i + 1;
    }
    assert s[..i] == s;

    var first := a[0].key;
    ConstantCounted(Byte0, s, h0[..]);
    ConstantCounted(Byte1, s, h1[..]);
    ConstantCounted(Byte2, s, h2[..]);
    ConstantCounted(Byte3, s, h3[..]);
    skip0 := h0[Index(Byte0, first)] == a.Length;
    skip1 := h1[Index(Byte1, first)] == a.Length;
    skip2 := h2[Index(Byte2, first)] == a.Length;
    skip3 := h3[Index(Byte3, first)] == a.Length;

    PrefixedNone(Byte0, s, h0[..]);
    PrefixedNone(Byte1, s, h1[..]);
    PrefixedNone(Byte2, s, h2[..]);
    PrefixedNone(Byte3, s, h3[..]);
    var sum0: Counter, sum1: Counter, sum2: Counter, sum3: Counter := 0, 0, 0, 0;
    i := 0;
    while i < 256
      invariant 0 <= i <= 256
      invariant Prefixed(Byte0, s, h0[..], i) && sum0 == Start(Byte0, s, i)
      invariant Prefixed(Byte1, s, h1[..], i) && sum1 == Start(Byte1, s, i)
      invariant Prefixed(Byte2, s, h2[..], i) && sum2 == Start(Byte2, s, i)
      invariant Prefixed(Byte3, s, h3[..], i) && sum3 == Start(Byte3, s, i)
    {
      sum0 := PrefixStep(h0, Byte0, i, sum0, s);
      sum1 := PrefixStep(h1, Byte1, i, sum1, s);
      sum2 := PrefixStep(h2, Byte2, i, sum2, s);
      sum3 := PrefixStep(h3, Byte3, i, sum3, s);
      i := i + 1;
    }
  }

  /** The four passes; `src` is the buffer that holds the result, `a` after an even number of them. */
  method RunPasses8<V(!new)>(a: array<Entry<V>>, buf1: array<Entry<V>>,
      h0: array<Counter>, h1: array<Counter>, h2: array<Counter>, h3: array<Counter>,
      skip0: bool, skip1: bool, skip2: bool, skip3: bool)
    returns (src: array<Entry<V>>)
    requires a != buf1 && a.Length == buf1.Length < 0xffff_ffff
    requires h0 != h1 && h0 != h2 && h0 != h3 && h1 != h2 && h1 != h3 && h2 != h3
    requires Prefixed(Byte0, a[..], h0[..], 256) && Prefixed(Byte1, a[..], h1[..], 256)
    requires Prefixed(Byte2, a[..], h2[..], 256) && Prefixed(Byte3, a[..], h3[..], 256)
    requires skip0 == Constant(Byte0, a[..]) && skip1 == Constant(Byte1, a[..])
    requires skip2 == Constant(Byte2, a[..]) && skip3 == Constant(Byte3, a[..])
    modifies a, buf1, h0, h1, h2, h3
    ensures src[..] == StableSort(KeyLess(), old(a[..]))
    ensures src == a || src == buf1
    ensures src == a <==> (skip0 == skip1) == (skip2 == skip3)
  {
    hide Prefixed, Constant, SortedBits, StableSort, KeyLess;
    ghost var was := a[..];
    BitsStart(was);
    src := RunPass(a, buf1, h0, Byte0, skip0, was);
    src := RunPass(src, if src == a then buf1 else a, h1, Byte1, skip1, was);
    src := RunPass(src, if src == a then buf1 else a, h2, Byte2, skip2, was);
    src := RunPass(src, if src == a then buf1 else a, h3, Byte3, skip3, was);
    BitsEnd(was, src[..]);
  }

  /**
   `hxradix_sort_void`: the stable sort by key, in place. The trailing copy
   happens exactly when the number of passes that ran is odd.
   */
  method RadixSort8<V(0,!new)>(a: array<Entry<V>>) returns (ghost copied: bool)
    requires a.Length < 0xffff_ffff
    modifies a
    ensures a[..] == StableSort(KeyLess(), old(a[..]))
    ensures a.Length >= RADIX_SORT_MIN_SIZE ==> copied == (PassCount8(old(a[..])) % 2 == 1)
  {
    hide Prefixed, Constant, SortedBits, StableSort, SortedTo, FieldLess, KeyLess;
    copied := false;
    var size := a.Length;
    ghost var was := a[..];
    if size < RADIX_SORT_MIN_SIZE {
      SortedToWhole(KeyLess<V>(), was);
      ghost var _ := InsertionSort(a, 0, size, KeyLess());
      return;
    }
    var buf1 := new Entry<V>[size];
    var h0, h1 := new Counter[256](_ => 0), new Counter[256](_ => 0);
    var h2, h3 := new Counter[256](_ => 0), new Counter[256](_ => 0);
    var skip0, skip1, skip2, skip3 := Histograms8(a, h0, h1, h2, h3);

    var src := RunPasses8(a, buf1, h0, h1, h2, h3, skip0, skip1, skip2, skip3);
    if src != a {
      CopyBack(src, a);
      copied := true;
    }
  }

  // ---- The 11-bit sort ----

  /** The histograms of the three fields; the last has half as many buckets. */
  method Histograms11<V(!new)>(a: array<Entry<V>>, h0: array<Counter>, h1: array<Counter>, h2: array<Counter>)
    returns (skip0: bool, skip1: bool, skip2: bool)
    requires 0 < a.Length < 0xffff_ffff
    requires h0 != h1 && h0 != h2 && h1 != h2
    requires h0.Length == h1.Length == 2048 && h2.Length == 1024
    requires forall d :: 0 <= d < 2048 ==> h0[d] == 0 && h1[d] == 0
    requires forall d :: 0 <= d < 1024 ==> h2[d] == 0
    modifies h0, h1, h2
    ensures Prefixed(Low11, a[..], h0[..], 2048) && Prefixed(Mid11, a[..], h1[..], 2048)
    ensures Prefixed(High10, a[..], h2[..], 1024)
    ensures skip0 == Constant(Low11, a[..]) && skip1 == Constant(Mid11, a[..]) && skip2 == Constant(High10, a[..])
  {
    hide Counted, Prefixed, Constant, Index, Start;
    ghost var s := a[..];
    CountedNone<V>(Low11, h0[..]);
    CountedNone<V>(Mid11, h1[..]);
    CountedNone<V>(High10, h2[..]);
    var i := 0;
    assert s[..0] == [];
    while i < a.Length
      invariant 0 <= i <= a.Length
      invariant Counted(Low11, s[..i], h0[..]) && Counted(Mid11, s[..i], h1[..]) && Counted(High10, s[..i], h2[..])
    {
      assert s[..i + 1] == s[..i] + [s[i]];
      var x := a[i].key;
      assert x == s[i].key;
      CountKey(h0, Low11, x, s[..i], s[i]);
      CountKey(h1, Mid11, x, s[..i], s[i]);
      CountKey(h2, High10, x, s[..i], s[i]);
      i := i + 1;
    }
    assert s[..i] == s;

    var first := a[0].key;
    ConstantCounted(Low11, s, h0[..]);
    ConstantCounted(Mid11, s, h1[..]);
    ConstantCounted(High10, s, h2[..]);
    skip0 := h0[Index(Low11, first)] == a.Length;
    skip1 := h1[Index(Mid11, first)] == a.Length;
    skip2 := h2[Index(High10, first)] == a.Length;

    PrefixedNone(Low11, s, h0[..]);
    PrefixedNone(Mid11, s, h1[..]);
    PrefixedNone(High10, s, h2[..]);
    var sum0: Counter, sum1: Counter, sum2: Counter := 0, 0, 0;
    i := 0;
    while i < 1024
      invariant 0 <= i <= 1024
      invariant Prefixed(Low11, s, h0[..], i) && sum0 == Start(Low11, s, i)
      invariant Prefixed(Mid11, s, h1[..], i) && sum1 == Start(Mid11, s, i)
      invariant Prefixed(High10, s, h2[..], i) && sum2 == Start(High10, s, i)
    {
      sum0 := PrefixStep(h0, Low11, i, sum0, s);
      sum1 := PrefixStep(h1, Mid11, i, sum1, s);
      sum2 := PrefixStep(h2, High10, i, sum2, s);
      i := i + 1;
    }
    while i < 2048
      invariant 1024 <= i <= 2048
      invariant Prefixed(Low11, s, h0[..], i) && sum0 == Start(Low11, s, i)
      invariant Prefixed(Mid11, s, h1[..], i) && sum1 == Start(Mid11, s, i)
      invariant Prefixed(High10, s, h2[..], 1024)
    {
      sum0 := PrefixStep(h0, Low11, i, sum0, s);
      sum1 := PrefixStep(h1, Mid11, i, sum1, s);
      i := i + 1;
    }
  }

  /**
   `hxradix_sort_void11`: the same sort in at most three passes. A full chain
   rotates through the third buffer to end at home, so the trailing copy happens
   only after a single pass.
   */
  method RadixSort11<V(0,!new)>(a: array<Entry<V>>) returns (ghost copied: bool)
    requires a.Length < 0xffff_ffff
    modifies a
    ensures a[..] == StableSort(KeyLess(), old(a[..]))
    ensures a.Length >= RADIX_SORT_MIN_SIZE ==> copied == (PassCount11(old(a[..])) == 1)
  {
    hide Prefixed, Constant, SortedBits, StableSort, SortedTo, FieldLess, KeyLess;
    copied := false;
    var size := a.Length;
    ghost var was := a[..];
    if size < RADIX_SORT_MIN_SIZE {
      SortedToWhole(KeyLess<V>(), was);
      ghost var _ := InsertionSort(a, 0, size, KeyLess());
      return;
    }
    var buf1, buf2 := new Entry<V>[size], new Entry<V>[size];
    var h0, h1 := new Counter[2048](_ => 0), new Counter[2048](_ => 0);
    var h2 := new Counter[1024](_ => 0);
    var skip0, skip1, skip2 := Histograms11(a, h0, h1, h2);

    BitsStart(was);
    var src := a;
    src := RunPass(src, buf1, h0, Low11, skip0, was);
    src := RunPass(src, if src == a then buf1 else if skip2 then a else buf2, h1, Mid11, skip1, was);
    src := RunPass(src, if src == a then buf1 else a, h2, High10, skip2, was);
    BitsEnd(was, src[..]);
    if src != a {
      CopyBack(src, a);
      copied := true;
    }
  }

  /** Run on equal arrays, the two sorts leave equal arrays. */
  method BothSortsAgree<V(0,!new)>(a: array<Entry<V>>, b: array<Entry<V>>)
    requires a != b && a[..] == b[..] && a.Length < 0xffff_ffff
    modifies a, b
    ensures a[..] == b[..]
  {
    hide StableSort, KeyLess, PassCount8, PassCount11;
    ghost var c := RadixSort8(a);
    ghost var d := RadixSort11(b);
  }
}
